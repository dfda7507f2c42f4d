/** The read-only queries of `RecipeDataService`
    (`backend/services/data_service.py`): the six search modes, the
    "random" (newest-first) pick and the category and ingredient listings.
    SQL results without ORDER BY are taken in store order. */
module Queries {
  import opened Wrappers
  import opened Text
  import opened Lists
  import opened Recipes

  datatype SearchType = ByName | ByIngredient | ByCategory | ByArea | ByFirstLetter | Everything

  /** The `search_type` argument: five exact names, anything else searches everything. */
  function ParseSearchType(t: string): SearchType {
    if t == "name" then ByName
    else if t == "ingredient" then ByIngredient
    else if t == "category" then ByCategory
    else if t == "area" then ByArea
    else if t == "first_letter" then ByFirstLetter
    else Everything
  }

  /** The query goes into a LIKE pattern unescaped, so the model only covers
      queries without LIKE's wildcards and escape character. */
  predicate NoWildcards(q: string) {
    '%' !in q && '_' !in q && '\\' !in q
  }

  /** `column ILIKE '%q%'` on a nullable column: NULL never matches. */
  predicate ILikeAnywhere(v: Option<string>, q: string) {
    v.Some? && ContainsCI(v.value, q)
  }

  /** `array_to_string(ingredients, ',')`. */
  function IngredientText(r: Recipe): string {
    Join(r.ingredients, ',')
  }

  predicate NameMatches(r: Recipe, q: string) {
    ContainsCI(r.name, q)
  }

  predicate IngredientsMatch(r: Recipe, q: string) {
    ContainsCI(IngredientText(r), Lower(q))
  }

  /** The WHERE clause of each search mode. */
  predicate Matches(r: Recipe, q: string, t: SearchType) {
    match t
    case ByName => NameMatches(r, q)
    case ByIngredient => IngredientsMatch(r, q)
    case ByCategory => ILikeAnywhere(r.category, q)
    case ByArea => ILikeAnywhere(r.area, q)
    case ByFirstLetter => StartsWithCI(r.name, q)
    case Everything =>
      NameMatches(r, q) || ILikeAnywhere(r.category, q) || ILikeAnywhere(r.area, q)
      || IngredientsMatch(r, q)
  }

  /** The rows of `s` that satisfy the WHERE clause of mode `t`, in store order. */
  function Filter(s: Store, q: string, t: SearchType): (r: seq<Recipe>)
    ensures forall x :: x in r <==> x in s && Matches(x, q, t)
    ensures |r| <= |s|
    ensures SubseqOf(r, s)
  {
    if s == [] then []
    else
      var rest := Filter(s[1..], q, t);
      if Matches(s[0], q, t) then [s[0]] + rest
      else
        assert rest == [] || rest[0] != s[0];
        rest
  }

  /** A recipe older than every recipe of an ascending list heads an
      ascending list. */
  lemma AscendingCons(x: Recipe, rest: seq<Recipe>)
    requires IdsAscending(rest)
    requires forall y :: y in rest ==> x.id < y.id
    ensures IdsAscending([x] + rest)
  {
    var u := [x] + rest;
    forall i, j | 0 <= i < j < |u| ensures u[i].id < u[j].id {
      assert u[j] == rest[j - 1];
      if i > 0 {
        assert u[i] == rest[i - 1];
      } else {
        assert rest[j - 1] in rest;
      }
    }
  }

  /** The rest of an ascending list is ascending and newer than its head. */
  lemma AscendingTail(s: seq<Recipe>)
    requires s != [] && IdsAscending(s)
    ensures IdsAscending(s[1..])
    ensures forall y :: y in s[1..] ==> s[0].id < y.id
  {
    forall y | y in s[1..] ensures s[0].id < y.id {
      var j :| 0 <= j < |s[1..]| && s[1..][j] == y;
      assert s[j + 1] == y;
    }
  }

  /** Filtering keeps the ids ascending. */
  lemma {:induction false} FilterKeepsIdsAscending(s: Store, q: string, t: SearchType)
    requires IdsAscending(s)
    ensures IdsAscending(Filter(s, q, t))
  {
    if s != [] {
      AscendingTail(s);
      FilterKeepsIdsAscending(s[1..], q, t);
      var rest := Filter(s[1..], q, t);
      if Matches(s[0], q, t) {
        AscendingCons(s[0], rest);
      }
    }
  }

  /** `search_recipes(query, search_type)`: exactly the stored recipes
      matching the mode's condition, in store order. */
  function SearchRecipes(s: Store, q: string, searchType: string): (r: seq<Recipe>)
    requires NoWildcards(q)
    ensures forall x :: x in r <==> x in s && Matches(x, q, ParseSearchType(searchType))
    ensures SubseqOf(r, s)
    ensures IdsAscending(s) ==> IdsAscending(r)
  {
    if IdsAscending(s) then
      FilterKeepsIdsAscending(s, q, ParseSearchType(searchType));
      Filter(s, q, ParseSearchType(searchType))
    else Filter(s, q, ParseSearchType(searchType))
  }

  /** Any `search_type` other than the five mode names (`"all"` included, and
      names in other letter cases) searches name, category, area and
      ingredients at once. */
  lemma OtherSearchTypesSearchEverything(s: Store, q: string, searchType: string, x: Recipe)
    requires NoWildcards(q)
    requires searchType !in {"name", "ingredient", "category", "area", "first_letter"}
    ensures x in SearchRecipes(s, q, searchType) <==>
              x in s && (x in SearchRecipes(s, q, "name") || x in SearchRecipes(s, q, "category")
                         || x in SearchRecipes(s, q, "area") || x in SearchRecipes(s, q, "ingredient"))
  {
  }

  /** A text without a comma never case-insensitively contains a query with one. */
  lemma NoCommaNoMatch(s: string, q: string)
    requires ',' !in s && ',' in q
    ensures !ContainsCI(s, q)
  {
    if ContainsCI(s, q) {
      var i :| 0 <= i <= |Lower(s)| && StartsWith(Lower(s)[i..], Lower(q));
      var k :| 0 <= k < |q| && q[k] == ',';
      LowerAt(q, k);
      assert Lower(s)[i + k] == ',';
      LowerAt(s, i + k);
    }
  }

  /** Lower-casing leaves a text without capitals unchanged. */
  lemma {:induction false} LowerOfNoCapitals(s: string)
    requires forall c :: c in s ==> !('A' <= c <= 'Z')
    ensures Lower(s) == s
  {
    if s != [] {
      assert s[0] in s;
      assert forall c :: c in s[1..] ==> c in s;
      LowerOfNoCapitals(s[1..]);
    }
  }

  lemma JoinTwo(a: string, b: string)
    ensures Join([a, b], ',') == a + [','] + b
  {
    assert [a, b][1..] == [b];
  }

  /** The ingredient mode matches the joined text, so a query with a comma
      can match across two neighbouring ingredients that neither match alone. */
  lemma IngredientQueryCrossesComma(r: Recipe)
    requires r.ingredients == ["salt", "pepper"]
    ensures Matches(r, "t,p", ByIngredient)
    ensures forall g :: g in r.ingredients ==> !ContainsCI(g, "t,p")
  {
    JoinedIngredientsMatch(r);
    assert !ContainsCI("salt", "t,p") by {
      NoCommaNoMatch("salt", "t,p");
    }
    assert !ContainsCI("pepper", "t,p") by {
      NoCommaNoMatch("pepper", "t,p");
    }
  }

  lemma JoinedIngredientsMatch(r: Recipe)
    requires r.ingredients == ["salt", "pepper"]
    ensures Matches(r, "t,p", ByIngredient)
  {
    var text := IngredientText(r);
    assert text == "salt,pepper" by {
      JoinTwo("salt", "pepper");
    }
    assert Lower(text) == text by {
      LowerOfNoCapitals(text);
    }
    assert Lower("t,p") == "t,p" by {
      LowerOfNoCapitals("t,p");
    }
    assert StartsWith(text[3..], "t,p");
  }

  /** `get_random_recipes(count)`: `ORDER BY id DESC LIMIT count`. Ids grow
      with insertion, so these are the last `count` rows, newest first. */
  function NewestFirst(s: Store, count: nat): (r: seq<Recipe>)
    requires IdsAscending(s)
    ensures |r| == Min(count, |s|)
    ensures forall i, j :: 0 <= i < j < |r| ==> r[i].id > r[j].id
    ensures forall x :: x in r ==> x in s
    ensures forall i, k :: 0 <= i < |s| && s[i] !in r && 0 <= k < |r| ==> s[i].id < r[k].id
  {
    if count == 0 || s == [] then []
    else
      var rest := NewestFirst(s[..|s| - 1], count - 1);
      NewestStepOrder(s, rest);
      NewestStepOmitted(s, rest);
      [s[|s| - 1]] + rest
  }

  /** Putting the last row in front of newer-first rows drawn from the
      others keeps ids strictly decreasing and rows drawn from the table. */
  lemma NewestStepOrder(s: Store, rest: seq<Recipe>)
    requires IdsAscending(s) && s != []
    requires forall i, j :: 0 <= i < j < |rest| ==> rest[i].id > rest[j].id
    requires forall x :: x in rest ==> x in s[..|s| - 1]
    ensures var r := [s[|s| - 1]] + rest;
            && (forall i, j :: 0 <= i < j < |r| ==> r[i].id > r[j].id)
            && (forall x :: x in r ==> x in s)
  {
    var last, init := s[|s| - 1], s[..|s| - 1];
    var r := [last] + rest;
    forall x | x in rest ensures x.id < last.id && x in s {
      var i :| 0 <= i < |init| && init[i] == x;
      assert s[i] == x;
    }
    forall i, j | 0 <= i < j < |r| ensures r[i].id > r[j].id {
      assert r[j] == rest[j - 1] && r[j] in rest;
      if i > 0 {
        assert r[i] == rest[i - 1];
      }
    }
  }

  /** The rows the step leaves out are older than every row it returns. */
  lemma NewestStepOmitted(s: Store, rest: seq<Recipe>)
    requires IdsAscending(s) && s != []
    requires forall x :: x in rest ==> x in s[..|s| - 1]
    requires var init := s[..|s| - 1];
             forall i, k :: 0 <= i < |init| && init[i] !in rest && 0 <= k < |rest| ==> init[i].id < rest[k].id
    ensures var r := [s[|s| - 1]] + rest;
            forall i, k :: 0 <= i < |s| && s[i] !in r && 0 <= k < |r| ==> s[i].id < r[k].id
  {
    var last, init := s[|s| - 1], s[..|s| - 1];
    var r := [last] + rest;
    forall i, k | 0 <= i < |s| && s[i] !in r && 0 <= k < |r| ensures s[i].id < r[k].id {
      assert s[i] != last;
      assert i < |s| - 1;
      assert init[i] == s[i] && init[i] !in rest;
      if k > 0 {
        assert r[k] == rest[k - 1];
      }
    }
  }

  /** `get_all_categories`: the distinct non-empty categories, each once,
      in order of first appearance. */
  function AllCategories(s: Store): (r: seq<string>)
    ensures forall i, j :: 0 <= i < j < |r| ==> r[i] != r[j]
    ensures forall c :: c in r <==> c != "" && exists x :: x in s && x.category == Some(c)
  {
    if s == [] then []
    else
      var init := s[..|s| - 1];
      var prev := AllCategories(init);
      var c := s[|s| - 1].category;
      assert forall x :: x in s <==> x in init || x == s[|s| - 1] by {
        assert s == init + [s[|s| - 1]];
      }
      if c.Some? && c.value != "" && c.value !in prev then prev + [c.value] else prev
  }

  /** `xs` inserted one by one into the sorted, duplicate-free `acc`. */
  function InsertAll(xs: seq<string>, acc: seq<string>): (r: seq<string>)
    requires StrictlySorted(acc)
    ensures StrictlySorted(r)
    ensures forall y :: y in r <==> y in xs || y in acc
  {
    if xs == [] then acc else InsertAll(xs[1..], InsertSorted(xs[0], acc))
  }

  /** `get_all_ingredients`: `sorted(set(...))` of every recipe's ingredients. */
  function AllIngredients(s: Store): (r: seq<string>)
    ensures StrictlySorted(r)
    ensures forall g :: g in r <==> exists x :: x in s && g in x.ingredients
  {
    if s == [] then []
    else
      var init := s[..|s| - 1];
      assert forall x :: x in s <==> x in init || x == s[|s| - 1] by {
        assert s == init + [s[|s| - 1]];
      }
      InsertAll(s[|s| - 1].ingredients, AllIngredients(init))
  }
}

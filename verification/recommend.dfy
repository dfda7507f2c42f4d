/** `RecommendationEngine` (`backend/services/recommendation_service.py`)
    over a store value. The engine's own queries have no ORDER BY; store
    order stands in for the database's order. */
module Recommend {
  import opened Wrappers
  import opened Text
  import opened Recipes
  import opened Queries
  import opened Ranking

  /** The ids of a list of recipes. */
  function IdsOf(s: seq<Recipe>): set<nat> {
    set x | x in s :: x.id
  }

  /** The recipes of `s` whose ids are not in `ids`, in order. */
  function WithoutIds(s: seq<Recipe>, ids: set<nat>): (r: seq<Recipe>)
    ensures forall x :: x in r <==> x in s && x.id !in ids
    ensures |r| <= |s|
  {
    if s == [] then []
    else if s[0].id in ids then WithoutIds(s[1..], ids)
    else [s[0]] + WithoutIds(s[1..], ids)
  }

  /** An element of `s` whose id is in `ids` makes the result shorter. */
  lemma {:induction false} WithoutIdsDrops(s: seq<Recipe>, ids: set<nat>, k: nat)
    requires k < |s| && s[k].id in ids
    ensures |WithoutIds(s, ids)| < |s|
  {
    if s[0].id !in ids {
      WithoutIdsDrops(s[1..], ids, k - 1);
    }
  }

  lemma {:induction false} WithoutIdsDistinct(s: seq<Recipe>, ids: set<nat>)
    requires DistinctIds(s)
    ensures DistinctIds(WithoutIds(s, ids))
  {
    if s != [] {
      DistinctHead(s);
      WithoutIdsDistinct(s[1..], ids);
      if s[0].id !in ids {
        ConsDistinct(s[0], WithoutIds(s[1..], ids));
      }
    }
  }

  /** Ids strictly decreasing along the list: newest first. */
  predicate NewestToOldest(r: seq<Recipe>) {
    forall i, j :: 0 <= i < j < |r| ==> r[i].id > r[j].id
  }

  lemma NewestToOldestTail(s: seq<Recipe>)
    requires s != [] && NewestToOldest(s)
    ensures NewestToOldest(s[1..])
    ensures forall y :: y in s[1..] ==> s[0].id > y.id
  {
    var tail := s[1..];
    forall i, j | 0 <= i < j < |tail| ensures tail[i].id > tail[j].id {
      assert tail[i] == s[i + 1] && tail[j] == s[j + 1];
    }
    forall y | y in tail ensures s[0].id > y.id {
      var m :| 0 <= m < |tail| && tail[m] == y;
      assert s[m + 1] == y;
    }
  }

  lemma NewestToOldestCons(x: Recipe, rest: seq<Recipe>)
    requires NewestToOldest(rest) && forall y :: y in rest ==> x.id > y.id
    ensures NewestToOldest([x] + rest)
  {
    var r := [x] + rest;
    forall i, j | 0 <= i < j < |r| ensures r[i].id > r[j].id {
      assert r[j] == rest[j - 1] && r[j] in rest;
      if i > 0 {
        assert r[i] == rest[i - 1];
      }
    }
  }

  /** Dropping recipes from a newest-first list leaves it newest first. */
  lemma {:induction false} WithoutIdsNewestToOldest(s: seq<Recipe>, ids: set<nat>)
    requires NewestToOldest(s)
    ensures NewestToOldest(WithoutIds(s, ids))
  {
    if s != [] {
      NewestToOldestTail(s);
      WithoutIdsNewestToOldest(s[1..], ids);
      if s[0].id !in ids {
        NewestToOldestCons(s[0], WithoutIds(s[1..], ids));
      }
    }
  }

  /** The newest recipes that `search_and_recommend` appends: of the
      `want` newest, those whose ids were not found, newest first. */
  function Backfill(s: Store, found: seq<Recipe>, want: nat): (r: seq<Recipe>)
    requires IdsAscending(s)
    ensures |r| <= want
    ensures DistinctIds(r)
    ensures forall i, j :: 0 <= i < j < |r| ==> r[i].id > r[j].id
    ensures forall x :: x in r <==> x in NewestFirst(s, want) && x.id !in IdsOf(found)
  {
    var newest := NewestFirst(s, want);
    WithoutIdsDistinct(newest, IdsOf(found));
    WithoutIdsNewestToOldest(newest, IdsOf(found));
    WithoutIds(newest, IdsOf(found))
  }

  /** Ascending ids are distinct ids. */
  lemma AscendingIsDistinct(s: seq<Recipe>)
    requires IdsAscending(s)
    ensures DistinctIds(s)
  {
  }

  /** Two lists with distinct ids and no id in common concatenate to one. */
  lemma DisjointConcatDistinct(a: seq<Recipe>, b: seq<Recipe>)
    requires DistinctIds(a) && DistinctIds(b)
    requires forall x :: x in b ==> x.id !in IdsOf(a)
    ensures DistinctIds(a + b)
  {
    forall i, j | 0 <= i < j < |a + b| ensures (a + b)[i].id != (a + b)[j].id {
      if i < |a| && j >= |a| {
        assert a[i] in a;
        assert b[j - |a|] in b;
      }
    }
  }

  /** `search_and_recommend(query, search_type, num_results, include_random)`:
      the search matches in store order, cut to `num_results`; when they fall
      short and backfill is on, followed by exactly those of the
      `num_results - |matches|` newest recipes whose ids were not matched. */
  function SearchAndRecommend(s: Store, q: string, searchType: string, n: nat, includeRandom: bool)
    : (r: seq<Recipe>)
    requires ValidStore(s) && NoWildcards(q)
    ensures |r| <= n
    ensures forall x :: x in r ==> x in s
    ensures DistinctIds(r)
    ensures var found := SearchRecipes(s, q, searchType);
            !(includeRandom && |found| < n) ==> r == found[..Min(n, |found|)]
    ensures var found := SearchRecipes(s, q, searchType);
            includeRandom && |found| < n ==>
              && |found| <= |r| && r[..|found|] == found
              && r[|found|..] == Backfill(s, found, n - |found|)
              && forall x :: x in r[|found|..] <==>
                   x in NewestFirst(s, n - |found|) && x.id !in IdsOf(found)
  {
    var found := SearchRecipes(s, q, searchType);
    AscendingIsDistinct(found);
    if |found| < n && includeRandom then
      var extra := Backfill(s, found, n - |found|);
      DisjointConcatDistinct(found, extra);
      assert (found + extra)[|found|..] == extra;
      found + extra
    else if n < |found| then found[..n]
    else found
  }

  /** When the newest stored recipe is itself a search match, backfill loses
      it to the duplicate filter and is not replaced: the result falls at
      least one short of `num_results`, whatever the store holds. */
  lemma BackfillCanUnderfill(s: Store, q: string, searchType: string, n: nat)
    requires ValidStore(s) && NoWildcards(q)
    requires s != [] && s[|s| - 1] in SearchRecipes(s, q, searchType)
    requires |SearchRecipes(s, q, searchType)| < n
    ensures |SearchAndRecommend(s, q, searchType, n, true)| < n
  {
    var found := SearchRecipes(s, q, searchType);
    var newest := NewestFirst(s, n - |found|);
    assert newest[0] == s[|s| - 1];
    assert s[|s| - 1].id in IdsOf(found);
    WithoutIdsDrops(newest, IdsOf(found), 0);
  }

  /** The recipe uses an ingredient containing `g`, ignoring case. */
  predicate UsesIngredient(x: Recipe, g: string) {
    exists h :: h in x.ingredients && ContainsCI(h, g)
  }

  /** How many of the query ingredients the recipe uses; a query ingredient
      listed twice counts twice. */
  function MatchCount(x: Recipe, gs: seq<string>): (c: nat)
    ensures c <= |gs|
    ensures c >= 1 <==> exists g :: g in gs && UsesIngredient(x, g)
  {
    if gs == [] then 0
    else
      assert forall g :: g in gs <==> g == gs[0] || g in gs[1..] by {
        assert gs == [gs[0]] + gs[1..];
      }
      (if UsesIngredient(x, gs[0]) then 1 else 0) + MatchCount(x, gs[1..])
  }

  /** The positions from `k` on whose query ingredient the recipe uses. */
  function UsedFrom(x: Recipe, gs: seq<string>, k: nat): set<nat> {
    set i: nat | k <= i < |gs| && UsesIngredient(x, gs[i])
  }

  lemma {:induction false} MatchCountFrom(x: Recipe, gs: seq<string>, k: nat)
    requires k <= |gs|
    ensures MatchCount(x, gs[k..]) == |UsedFrom(x, gs, k)|
    decreases |gs| - k
  {
    if k == |gs| {
      assert UsedFrom(x, gs, k) == {};
    } else {
      MatchCountFrom(x, gs, k + 1);
      assert gs[k..][0] == gs[k] && gs[k..][1..] == gs[k + 1..];
      if UsesIngredient(x, gs[k]) {
        assert UsedFrom(x, gs, k) == {k} + UsedFrom(x, gs, k + 1);
      } else {
        assert UsedFrom(x, gs, k) == UsedFrom(x, gs, k + 1);
      }
    }
  }

  /** The match count is the number of query positions whose ingredient
      the recipe uses, as `sum(1 for ing in ingredients if any(...))`. */
  lemma MatchCountCountsUsed(x: Recipe, gs: seq<string>)
    ensures MatchCount(x, gs) == |set i: nat | i < |gs| && UsesIngredient(x, gs[i])|
  {
    MatchCountFrom(x, gs, 0);
    assert gs[0..] == gs;
    assert UsedFrom(x, gs, 0) == set i: nat | i < |gs| && UsesIngredient(x, gs[i]);
  }

  /** The recipes that use `g`, in store order. */
  function Using(s: Store, g: string): (r: seq<Recipe>)
    ensures forall x :: x in r <==> x in s && UsesIngredient(x, g)
  {
    if s == [] then []
    else if UsesIngredient(s[0], g) then [s[0]] + Using(s[1..], g)
    else Using(s[1..], g)
  }

  /** The per-ingredient query results, concatenated in query order. */
  function Candidates(s: Store, gs: seq<string>): (r: seq<Recipe>)
    ensures forall x :: x in r <==> x in s && MatchCount(x, gs) >= 1
  {
    if gs == [] then []
    else
      assert forall g :: g in gs <==> g == gs[0] || g in gs[1..] by {
        assert gs == [gs[0]] + gs[1..];
      }
      Using(s, gs[0]) + Candidates(s, gs[1..])
  }

  /** The candidates, first occurrence of each id kept, stably sorted by
      match count, highest first. */
  function IngredientRanking(s: Store, gs: seq<string>): seq<Scored> {
    Rank(Dedup(Candidates(s, gs), {}), x => MatchCount(x, gs))
  }

  /** In a store with distinct ids, the first candidate with a recipe's id
      is that recipe. */
  lemma FirstWithIdInStore(s: Store, c: seq<Recipe>, x: Recipe)
    requires IdsAscending(s) && x in c && forall y :: y in c ==> y in s
    ensures FirstWithId(c, x.id) == Some(x)
    decreases |c|
  {
    if c[0].id == x.id {
      assert c[0] in c;
      var i :| 0 <= i < |s| && s[i] == c[0];
      var j :| 0 <= j < |s| && s[j] == x;
      assert i == j;
    } else {
      assert forall y :: y in c[1..] ==> y in c;
      FirstWithIdInStore(s, c[1..], x);
    }
  }

  /** Deduplicating stored recipes drops only repeats. */
  lemma DedupKeepsStored(s: Store, c: seq<Recipe>)
    requires IdsAscending(s) && forall y :: y in c ==> y in s
    ensures forall x :: x in c ==> x in Dedup(c, {})
    ensures forall x :: x in Dedup(c, {}) ==> x in c
    ensures DistinctIds(Dedup(c, {}))
  {
    var d := Dedup(c, {});
    DedupMembers(c, {});
    DedupIsDistinct(c, {});
    DedupCoversUnseen(c, {});
    forall x | x in c ensures x in d {
      FirstWithIdInStore(s, c, x);
      assert FirstWithId(c, x.id) in SomeOf(d);
    }
  }

  lemma {:induction false} FirstWithIdIsMember(c: seq<Recipe>, id: nat)
    ensures FirstWithId(c, id).Some? ==> FirstWithId(c, id).value in c
  {
    if c != [] && c[0].id != id {
      FirstWithIdIsMember(c[1..], id);
    }
  }

  /** `get_ingredient_based_recommendations(ingredients, num_results)`:
      at most `num_results` distinct stored recipes, each using at least one
      query ingredient, by non-increasing match count; nothing left out
      outscores anything returned, and a short result holds every match. */
  function IngredientRecommendations(s: Store, gs: seq<string>, n: nat): (r: seq<Recipe>)
    requires ValidStore(s)
    ensures |r| <= n
    ensures DistinctIds(r)
    ensures forall x :: x in r ==> x in s && MatchCount(x, gs) >= 1
    ensures forall i, j :: 0 <= i < j < |r| ==> MatchCount(r[i], gs) >= MatchCount(r[j], gs)
    ensures forall x, y :: x in s && MatchCount(x, gs) >= 1 && x !in r && y in r ==>
              MatchCount(y, gs) >= MatchCount(x, gs)
    ensures |r| < n ==> forall x :: x in s && MatchCount(x, gs) >= 1 ==> x in r
  {
    DedupKeepsStored(s, Candidates(s, gs));
    TopOfRank(Dedup(Candidates(s, gs), {}), x => MatchCount(x, gs), n);
    Top(IngredientRanking(s, gs), n)
  }

  /** Recipes with equal match counts keep the order in which the
      per-ingredient queries first produced them. */
  lemma IngredientTiesFirstSeen(s: Store, gs: seq<string>, k: int)
    ensures WithScore(IngredientRanking(s, gs), k)
         == WithScore(ScoreAll(Dedup(Candidates(s, gs), {}), x => MatchCount(x, gs)), k)
  {
    StableSortKeepsTies(ScoreAll(Dedup(Candidates(s, gs), {}), x => MatchCount(x, gs)), k);
  }

  /** `get_category_recommendations(category, num_results)`: the
      category-mode search, cut to `num_results`, with no backfill. */
  function CategoryRecommendations(s: Store, category: string, n: nat): (r: seq<Recipe>)
    requires ValidStore(s) && NoWildcards(category)
    ensures |r| <= n
    ensures DistinctIds(r)
    ensures forall x :: x in r ==> x in s && ILikeAnywhere(x.category, category)
    ensures |r| < n ==> forall x :: x in s && ILikeAnywhere(x.category, category) ==> x in r
    ensures var found := SearchRecipes(s, category, "category");
            |r| <= |found| && r == found[..|r|]
  {
    var found := SearchRecipes(s, category, "category");
    AscendingIsDistinct(found);
    if n < |found| then
      DistinctPrefix(found, n);
      assert forall x :: x in found[..n] ==> x in found;
      found[..n]
    else found
  }

  /** Every recipe of `s` left out of `r` is older than every one in it. */
  predicate OmittedAreOlder(s: seq<Recipe>, r: seq<Recipe>) {
    forall x, y :: x in s && x !in r && y in r ==> x.id < y.id
  }

  /** `get_random_recommendations(num_results)`: the newest recipes. */
  function RandomRecommendations(s: Store, n: nat): (r: seq<Recipe>)
    requires ValidStore(s)
    ensures |r| == Min(n, |s|)
    ensures forall x :: x in r ==> x in s
    ensures DistinctIds(r)
    ensures NewestToOldest(r)
    ensures OmittedAreOlder(s, r)
  {
    var r := NewestFirst(s, n);
    assert OmittedAreOlder(s, r) by {
      forall x, y | x in s && x !in r && y in r ensures x.id < y.id {
        var i :| 0 <= i < |s| && s[i] == x;
        var k :| 0 <= k < |r| && r[k] == y;
      }
    }
    r
  }

  /** `set(xs)`. */
  function SetOf(xs: seq<string>): set<string> {
    set g | g in xs
  }

  /** `len(set(a) & set(b))`: ingredients compared exactly. */
  function SharedCount(a: seq<string>, b: seq<string>): nat {
    |SetOf(a) * SetOf(b)|
  }

  /** The similarity score of `get_similar_recipes`, doubled so that it is an
      integer: 4 for the same category, 2 for the same area, 1 per shared
      ingredient. */
  function SimilarityScore(ref: Recipe, x: Recipe): nat {
    (if x.category == ref.category then 4 else 0)
    + (if x.area == ref.area then 2 else 0)
    + SharedCount(ref.ingredients, x.ingredients)
  }

  /** The score as `get_similar_recipes` computes it, with weights 2, 1 and 0.5. */
  function SourceScore(ref: Recipe, x: Recipe): real {
    (if x.category == ref.category then 2.0 else 0.0)
    + (if x.area == ref.area then 1.0 else 0.0)
    + 0.5 * (SharedCount(ref.ingredients, x.ingredients) as real)
  }

  /** Doubling the score changes no comparison, so it ranks as
      `get_similar_recipes` does. */
  lemma SimilarityScoreIsDoubled(ref: Recipe, x: Recipe, y: Recipe)
    ensures SimilarityScore(ref, x) as real == 2.0 * SourceScore(ref, x)
    ensures SimilarityScore(ref, x) >= SimilarityScore(ref, y) <==> SourceScore(ref, x) >= SourceScore(ref, y)
  {
  }

  /** The database filter of `get_similar_recipes`: same category or same
      area (NULL equal to NULL), and not the reference recipe's id. */
  predicate SimilarTo(ref: Recipe, x: Recipe) {
    (x.category == ref.category || x.area == ref.area) && x.id != ref.id
  }

  function SimilarCandidates(s: Store, ref: Recipe): (r: seq<Recipe>)
    ensures forall x :: x in r <==> x in s && SimilarTo(ref, x)
    ensures IdsAscending(s) ==> DistinctIds(r)
  {
    if s == [] then []
    else
      var rest := SimilarCandidates(s[1..], ref);
      SimilarStep(s, rest);
      if SimilarTo(ref, s[0]) then [s[0]] + rest else rest
  }

  /** The step of the candidate scan keeps distinct ids on an ascending store. */
  lemma SimilarStep(s: Store, rest: seq<Recipe>)
    requires s != [] && forall x :: x in rest ==> x in s[1..]
    requires IdsAscending(s[1..]) ==> DistinctIds(rest)
    ensures IdsAscending(s) ==> DistinctIds(rest) && DistinctIds([s[0]] + rest)
  {
    if IdsAscending(s) {
      AscendingTail(s);
      ConsDistinct(s[0], rest);
    }
  }

  /** The similarity candidates, stably sorted by similarity, highest first. */
  function SimilarRanking(s: Store, ref: Recipe): seq<Scored> {
    Rank(SimilarCandidates(s, ref), x => SimilarityScore(ref, x))
  }

  /** `get_similar_recipes(recipe, num_results)`: at most `num_results`
      distinct stored recipes sharing the reference's category or area,
      never the reference itself, by non-increasing similarity; nothing left
      out outscores anything returned, and a short result holds every
      candidate. */
  function SimilarRecipes(s: Store, ref: Recipe, n: nat): (r: seq<Recipe>)
    requires ValidStore(s)
    ensures |r| <= n
    ensures DistinctIds(r)
    ensures forall x :: x in r ==> x in s && SimilarTo(ref, x)
    ensures forall i, j :: 0 <= i < j < |r| ==> SimilarityScore(ref, r[i]) >= SimilarityScore(ref, r[j])
    ensures forall x, y :: x in s && SimilarTo(ref, x) && x !in r && y in r ==>
              SimilarityScore(ref, y) >= SimilarityScore(ref, x)
    ensures |r| < n ==> forall x :: x in s && SimilarTo(ref, x) ==> x in r
  {
    TopOfRank(SimilarCandidates(s, ref), x => SimilarityScore(ref, x), n);
    Top(SimilarRanking(s, ref), n)
  }

  /** The `user_preferences` dictionary: either key may be absent. */
  datatype Preferences = Preferences(categories: Option<seq<string>>, ingredients: Option<seq<string>>)

  predicate UsableCategories(prefs: Preferences) {
    prefs.categories.Some? ==> forall c :: c in prefs.categories.value ==> NoWildcards(c)
  }

  /** The recipe's category contains one of `cats`, ignoring case. */
  predicate InSomeCategory(x: Recipe, cats: seq<string>) {
    exists c :: c in cats && ILikeAnywhere(x.category, c)
  }

  /** Two category recommendations per preferred category, in preference
      order: the block of the first category leads, the others follow. */
  function CategoryPicks(s: Store, cats: seq<string>): (r: seq<Recipe>)
    requires ValidStore(s) && forall c :: c in cats ==> NoWildcards(c)
    ensures |r| <= 2 * |cats|
    ensures forall x :: x in r ==> x in s && InSomeCategory(x, cats)
    ensures cats == [] ==> r == []
    ensures cats != [] ==>
              var head := CategoryRecommendations(s, cats[0], 2);
              && |head| <= |r| && r[..|head|] == head
              && (forall x :: x in head ==> ILikeAnywhere(x.category, cats[0]))
              && r[|head|..] == CategoryPicks(s, cats[1..])
  {
    if cats == [] then []
    else
      assert forall c :: c in cats[1..] ==> c in cats;
      var head := CategoryRecommendations(s, cats[0], 2);
      var tail := CategoryPicks(s, cats[1..]);
      CategoryBlocksCons(s, cats, head, tail);
      head + tail
  }

  lemma CategoryBlocksCons(s: Store, cats: seq<string>, head: seq<Recipe>, tail: seq<Recipe>)
    requires cats != []
    requires forall x :: x in head ==> x in s && ILikeAnywhere(x.category, cats[0])
    requires forall x :: x in tail ==> x in s && InSomeCategory(x, cats[1..])
    ensures forall x :: x in head + tail ==> x in s && InSomeCategory(x, cats)
    ensures (head + tail)[..|head|] == head && (head + tail)[|head|..] == tail
  {
    forall x | x in head + tail ensures x in s && InSomeCategory(x, cats) {
      if x in head {
        assert cats[0] in cats;
      } else {
        var c :| c in cats[1..] && ILikeAnywhere(x.category, c);
        assert c in cats;
      }
    }
  }

  /** The category picks when categories are preferred, else none. */
  function CategoryPart(s: Store, prefs: Preferences): (r: seq<Recipe>)
    requires ValidStore(s) && UsableCategories(prefs)
  {
    if prefs.categories.Some? then CategoryPicks(s, prefs.categories.value) else []
  }

  /** The three ingredient picks when ingredients are preferred, else none. */
  function IngredientPart(s: Store, prefs: Preferences): (r: seq<Recipe>)
    requires ValidStore(s)
  {
    if prefs.ingredients.Some? then IngredientRecommendations(s, prefs.ingredients.value, 3) else []
  }

  /** The category and ingredient picks, before any padding: two per
      preferred category in preference order, then up to three by
      ingredients, every one stored and matching a preference. */
  function PreferencePicks(s: Store, prefs: Preferences): (r: seq<Recipe>)
    requires ValidStore(s) && UsableCategories(prefs)
    ensures forall x :: x in r ==> x in s
    ensures forall x :: x in r ==>
              (prefs.categories.Some? && InSomeCategory(x, prefs.categories.value))
              || (prefs.ingredients.Some? && MatchCount(x, prefs.ingredients.value) >= 1)
    ensures |r| <= 2 * (if prefs.categories.Some? then |prefs.categories.value| else 0) + 3
    ensures var cp := CategoryPart(s, prefs);
            |cp| <= |r| && r[..|cp|] == cp && r[|cp|..] == IngredientPart(s, prefs)
  {
    var cp, ip := CategoryPart(s, prefs), IngredientPart(s, prefs);
    assert (cp + ip)[..|cp|] == cp && (cp + ip)[|cp|..] == ip;
    assert forall x :: x in cp + ip ==> x in cp || x in ip;
    cp + ip
  }

  /** The list `get_personalized_recommendations` deduplicates: the picks,
      then, when they number fewer than `num_results`, that shortfall of
      newest recipes. The shortfall is counted before duplicates go. */
  function Merged(s: Store, prefs: Preferences, n: nat): (r: seq<Recipe>)
    requires ValidStore(s) && UsableCategories(prefs)
    ensures forall x :: x in r ==> x in s
    ensures var picks := PreferencePicks(s, prefs);
            && (|picks| < n ==> |r| <= n)
            && |picks| <= |r| && r[..|picks|] == picks
            && (|picks| >= n ==> r == picks)
            && (|picks| < n ==> r == picks + RandomRecommendations(s, n - |picks|))
  {
    PadWithNewest(s, PreferencePicks(s, prefs), n)
  }

  /** `picks`, followed by the newest recipes when they number fewer than `n`. */
  function PadWithNewest(s: Store, picks: seq<Recipe>, n: nat): (r: seq<Recipe>)
    requires ValidStore(s) && forall x :: x in picks ==> x in s
    ensures forall x :: x in r ==> x in s
    ensures |picks| < n ==> |r| <= n
    ensures |picks| <= |r| && r[..|picks|] == picks
    ensures |picks| >= n ==> r == picks
    ensures |picks| < n ==> r == picks + RandomRecommendations(s, n - |picks|)
  {
    if |picks| < n then
      var pad := RandomRecommendations(s, n - |picks|);
      AppendDrawsFrom(picks, pad, s);
      picks + pad
    else picks
  }

  /** Two lists drawn from `s` concatenate to one, with the first in front. */
  lemma AppendDrawsFrom(a: seq<Recipe>, b: seq<Recipe>, s: seq<Recipe>)
    requires forall x :: x in a ==> x in s
    requires forall x :: x in b ==> x in s
    ensures forall x :: x in a + b ==> x in s
    ensures (a + b)[..|a|] == a && (a + b)[|a|..] == b
  {
    assert forall x :: x in a + b ==> x in a || x in b;
  }

  /** The loop appends before it tests `len >= num_results`, so a request
      for none still yields one recipe when there is any. */
  function Cap(n: nat): nat {
    if n == 0 then 1 else n
  }

  /** The first `k` recipes of distinct ids, first occurrence winning. */
  function FirstDistinct(s: seq<Recipe>, k: nat): (r: seq<Recipe>)
    ensures |r| <= k
    ensures forall x :: x in r ==> x in s
  {
    DedupMembers(s, {});
    var d := Dedup(s, {});
    if k < |d| then d[..k] else d
  }

  /** No id occurs twice among the first distinct recipes. */
  lemma FirstDistinctIsDistinct(s: seq<Recipe>, k: nat)
    ensures DistinctIds(FirstDistinct(s, k))
  {
    var d := Dedup(s, {});
    DedupIsDistinct(s, {});
    if k < |d| {
      DistinctPrefix(d, k);
    }
  }

  lemma DedupStep(s: seq<Recipe>, i: nat, seen: set<nat>)
    requires i < |s|
    ensures Dedup(s[i..], seen) ==
              if s[i].id in seen then Dedup(s[i + 1..], seen)
              else [s[i]] + Dedup(s[i + 1..], seen + {s[i].id})
  {
    assert s[i..][1..] == s[i + 1..];
  }

  lemma IdsOfAppend(u: seq<Recipe>, x: Recipe)
    ensures IdsOf(u + [x]) == IdsOf(u) + {x.id}
  {
    assert forall y :: y in u + [x] <==> y in u || y == x;
  }

  lemma MoveHead(u: seq<Recipe>, x: Recipe, rest: seq<Recipe>, whole: seq<Recipe>)
    requires u + ([x] + rest) == whole
    ensures (u + [x]) + rest == whole
  {
    assert (u + [x]) + rest == u + ([x] + rest);
  }

  /** A kept prefix of `k` distinct recipes is the whole answer for `k`. */
  lemma FirstDistinctOfPrefix(recs: seq<Recipe>, k: nat, u: seq<Recipe>, rest: seq<Recipe>)
    requires u + rest == Dedup(recs, {}) && |u| == k
    ensures FirstDistinct(recs, k) == u
  {
    assert Dedup(recs, {})[..k] == u;
  }

  /** Fewer distinct recipes than `k`: all of them are the answer. */
  lemma FirstDistinctOfShort(recs: seq<Recipe>, k: nat)
    requires |Dedup(recs, {})| < k
    ensures FirstDistinct(recs, k) == Dedup(recs, {})
  {
  }

  /** One kept recipe: the loop's state after appending `recs[i]`. */
  lemma KeepStep(recs: seq<Recipe>, i: nat, unique: seq<Recipe>, seen: set<nat>, d: seq<Recipe>)
    requires i < |recs| && recs[i].id !in seen
    requires unique + Dedup(recs[i..], seen) == d && seen == IdsOf(unique)
    ensures (unique + [recs[i]]) + Dedup(recs[i + 1..], seen + {recs[i].id}) == d
    ensures IdsOf(unique + [recs[i]]) == seen + {recs[i].id}
  {
    DedupStep(recs, i, seen);
    MoveHead(unique, recs[i], Dedup(recs[i + 1..], seen + {recs[i].id}), d);
    IdsOfAppend(unique, recs[i]);
  }

  /** The deduplication loop of `get_personalized_recommendations`: keeps the
      first recipe of each id, leaving the loop once `n` are kept. */
  method KeepFirstDistinct(recs: seq<Recipe>, n: nat) returns (r: seq<Recipe>)
    ensures r == FirstDistinct(recs, Cap(n))
  {
    ghost var d := Dedup(recs, {});
    var unique: seq<Recipe> := [];
    var seen: set<nat> := {};
    var i := 0;
    while i < |recs|
      invariant 0 <= i <= |recs|
      invariant |unique| < Cap(n)
      invariant unique + Dedup(recs[i..], seen) == d
      invariant seen == IdsOf(unique)
    {
      if recs[i].id !in seen {
        KeepStep(recs, i, unique, seen, d);
        unique := unique + [recs[i]];
        seen := seen + {recs[i].id};
        if |unique| >= n {
          FirstDistinctOfPrefix(recs, Cap(n), unique, Dedup(recs[i + 1..], seen));
          return unique;
        }
      } else {
        DedupStep(recs, i, seen);
      }
      i := i + 1;
    }
    assert unique == d by {
      assert recs[i..] == [];
    }
    FirstDistinctOfShort(recs, Cap(n));
    r := unique;
  }

  /** `get_personalized_recommendations(user_preferences, num_results)`:
      the merged list with the first recipe of each id kept, cut off once
      `num_results` are kept. */
  method PersonalizedRecommendations(s: Store, prefs: Preferences, n: nat) returns (r: seq<Recipe>)
    requires ValidStore(s) && UsableCategories(prefs)
    ensures r == FirstDistinct(Merged(s, prefs, n), Cap(n))
    ensures |r| <= Cap(n)
    ensures DistinctIds(r)
    ensures forall x :: x in r ==> x in s
  {
    var recs := Merged(s, prefs, n);
    r := KeepFirstDistinct(recs, n);
    FirstDistinctIsDistinct(recs, Cap(n));
  }

  /** Dropping a recipe whose id was already seen shortens the list. */
  lemma {:induction false} DedupDropsSeen(s: seq<Recipe>, seen: set<nat>, k: nat)
    requires k < |s| && s[k].id in seen
    ensures |Dedup(s, seen)| < |s|
  {
    if s[0].id !in seen {
      DedupDropsSeen(s[1..], seen + {s[0].id}, k - 1);
    } else {
      DedupMembers(s[1..], seen);
    }
  }

  /** A repeated id shortens the deduplicated list. */
  lemma {:induction false} DedupDropsRepeat(s: seq<Recipe>, seen: set<nat>, i: nat, j: nat)
    requires i < j < |s| && s[i].id == s[j].id
    ensures |Dedup(s, seen)| < |s|
  {
    if s[0].id in seen {
      DedupMembers(s[1..], seen);
    } else if i == 0 {
      DedupDropsSeen(s[1..], seen + {s[0].id}, j - 1);
    } else {
      DedupDropsRepeat(s[1..], seen + {s[0].id}, i - 1, j - 1);
    }
  }

  /** The padding is sized before duplicates are dropped, so when the
      preference picks repeat a recipe and fall short, the result falls
      short too, however many recipes the store holds. */
  lemma PaddingCanFallShort(s: Store, prefs: Preferences, n: nat, i: nat, j: nat)
    requires ValidStore(s) && UsableCategories(prefs)
    requires |PreferencePicks(s, prefs)| < n
    requires i < j < |PreferencePicks(s, prefs)|
    requires PreferencePicks(s, prefs)[i].id == PreferencePicks(s, prefs)[j].id
    ensures |FirstDistinct(Merged(s, prefs, n), Cap(n))| < n
  {
    RepeatFallsShort(Merged(s, prefs, n), PreferencePicks(s, prefs), n, i, j);
  }

  /** A list of at most `n` recipes that starts with a repeated id keeps
      fewer than `n` distinct ones. */
  lemma RepeatFallsShort(recs: seq<Recipe>, picks: seq<Recipe>, n: nat, i: nat, j: nat)
    requires |picks| <= |recs| <= n && recs[..|picks|] == picks
    requires i < j < |picks| && picks[i].id == picks[j].id
    ensures |FirstDistinct(recs, Cap(n))| < n
  {
    assert recs[i] == picks[i] && recs[j] == picks[j];
    DedupDropsRepeat(recs, {}, i, j);
  }

  /** Asking for no recipes still yields one when the preferences pick any:
      the loop appends before it compares the count with `num_results`. */
  lemma ZeroRequestedYieldsOne(s: Store, prefs: Preferences)
    requires ValidStore(s) && UsableCategories(prefs)
    requires PreferencePicks(s, prefs) != []
    ensures |FirstDistinct(Merged(s, prefs, 0), Cap(0))| == 1
  {
    var recs := Merged(s, prefs, 0);
    assert recs != [];
    FirstDistinctOfNonEmpty(recs);
  }

  lemma FirstDistinctOfNonEmpty(recs: seq<Recipe>)
    requires recs != []
    ensures |FirstDistinct(recs, 1)| == 1
  {
    assert Dedup(recs, {}) == [recs[0]] + Dedup(recs[1..], {} + {recs[0].id});
  }
}

/** The two list operations the recommender is built from: Python's stable
    `sorted(..., key=score, reverse=True)` and "keep the first recipe with
    each id". */
module Ranking {
  import opened Wrappers
  import opened Recipes

  /** A recipe paired with its score. */
  datatype Scored = Scored(recipe: Recipe, score: int)

  predicate SortedDesc(s: seq<Scored>) {
    forall i, j :: 0 <= i < j < |s| ==> s[i].score >= s[j].score
  }

  /** No id occurs twice. */
  predicate DistinctIds(s: seq<Recipe>) {
    forall i, j :: 0 <= i < j < |s| ==> s[i].id != s[j].id
  }

  predicate DistinctScoredIds(s: seq<Scored>) {
    forall i, j :: 0 <= i < j < |s| ==> s[i].recipe.id != s[j].recipe.id
  }

  /** The entries with score `k`, in their order: the order a stable sort
      must keep. */
  function WithScore(s: seq<Scored>, k: int): (r: seq<Scored>)
    ensures forall x :: x in r <==> x in s && x.score == k
  {
    if s == [] then []
    else if s[0].score == k then [s[0]] + WithScore(s[1..], k)
    else WithScore(s[1..], k)
  }

  /** Inserts `x` ahead of every entry whose score does not exceed its own. */
  function InsertDesc(x: Scored, s: seq<Scored>): (r: seq<Scored>)
    requires SortedDesc(s)
    ensures SortedDesc(r)
    ensures |r| == |s| + 1
    ensures forall y :: y in r <==> y == x || y in s
  {
    if s == [] || s[0].score <= x.score then [x] + s
    else
      var rest := InsertDesc(x, s[1..]);
      assert forall y :: y in s <==> y == s[0] || y in s[1..] by {
        assert s == [s[0]] + s[1..];
      }
      assert forall j :: 0 <= j < |rest| ==> s[0].score >= rest[j].score by {
        forall j | 0 <= j < |rest| ensures s[0].score >= rest[j].score {
          assert rest[j] in rest;
          if rest[j] != x {
            var i :| 0 <= i < |s[1..]| && s[1..][i] == rest[j];
            assert s[i + 1] == rest[j];
          }
        }
      }
      [s[0]] + rest
  }

  /** Insertion adds exactly `x`. */
  lemma {:induction false} InsertDescPermutes(x: Scored, s: seq<Scored>)
    requires SortedDesc(s)
    ensures multiset(InsertDesc(x, s)) == multiset(s) + multiset{x}
  {
    if s == [] || s[0].score <= x.score {
    } else {
      InsertDescPermutes(x, s[1..]);
      assert s == [s[0]] + s[1..];
    }
  }

  /** Stable sort by descending score: each entry is inserted in front of
      the entries after it that do not outscore it. */
  function StableSortDesc(s: seq<Scored>): (r: seq<Scored>)
    ensures SortedDesc(r)
    ensures |r| == |s|
    ensures forall y :: y in r <==> y in s
  {
    if s == [] then []
    else
      assert forall y :: y in s <==> y == s[0] || y in s[1..] by {
        assert s == [s[0]] + s[1..];
      }
      InsertDesc(s[0], StableSortDesc(s[1..]))
  }

  /** The sort is a permutation of its input. */
  lemma {:induction false} StableSortPermutes(s: seq<Scored>)
    ensures multiset(StableSortDesc(s)) == multiset(s)
  {
    if s != [] {
      var sorted := StableSortDesc(s[1..]);
      StableSortPermutes(s[1..]);
      InsertDescPermutes(s[0], sorted);
      assert StableSortDesc(s) == InsertDesc(s[0], sorted);
      assert multiset(s) == multiset(s[1..]) + multiset{s[0]} by {
        assert s == [s[0]] + s[1..];
      }
    }
  }

  lemma {:induction false} InsertDescWithScore(x: Scored, s: seq<Scored>, k: int)
    requires SortedDesc(s)
    ensures WithScore(InsertDesc(x, s), k) ==
              if x.score == k then [x] + WithScore(s, k) else WithScore(s, k)
  {
    if s == [] || s[0].score <= x.score {
    } else {
      InsertDescWithScore(x, s[1..], k);
      assert InsertDesc(x, s) == [s[0]] + InsertDesc(x, s[1..]);
    }
  }

  /** Stability: entries with equal scores leave the sort in the order they
      entered it. */
  lemma {:induction false} StableSortKeepsTies(s: seq<Scored>, k: int)
    ensures WithScore(StableSortDesc(s), k) == WithScore(s, k)
  {
    if s != [] {
      StableSortKeepsTies(s[1..], k);
      InsertDescWithScore(s[0], StableSortDesc(s[1..]), k);
    }
  }

  /** Sorting keeps the ids distinct. */
  lemma {:induction false} StableSortKeepsDistinctIds(s: seq<Scored>)
    ensures DistinctScoredIds(s) ==> DistinctScoredIds(StableSortDesc(s))
  {
    if s != [] && DistinctScoredIds(s) {
      assert forall y :: y in s[1..] ==> y.recipe.id != s[0].recipe.id;
      StableSortKeepsDistinctIds(s[1..]);
      InsertDescKeepsDistinctIds(s[0], StableSortDesc(s[1..]));
    }
  }

  lemma {:induction false} InsertDescKeepsDistinctIds(x: Scored, s: seq<Scored>)
    requires SortedDesc(s) && DistinctScoredIds(s)
    requires forall y :: y in s ==> y.recipe.id != x.recipe.id
    ensures DistinctScoredIds(InsertDesc(x, s))
  {
    if s == [] || s[0].score <= x.score {
      ConsScoredDistinct(x, s);
    } else {
      ScoredDistinctHead(s);
      assert forall y :: y in s[1..] ==> y in s;
      InsertDescKeepsDistinctIds(x, s[1..]);
      var rest := InsertDesc(x, s[1..]);
      assert InsertDesc(x, s) == [s[0]] + rest;
      assert x.recipe.id != s[0].recipe.id by {
        assert s[0] in s;
      }
      ConsScoredDistinct(s[0], rest);
    }
  }

  lemma ScoredDistinctHead(s: seq<Scored>)
    requires s != [] && DistinctScoredIds(s)
    ensures DistinctScoredIds(s[1..]) && forall y :: y in s[1..] ==> y.recipe.id != s[0].recipe.id
  {
    forall y | y in s[1..] ensures y.recipe.id != s[0].recipe.id {
      var j :| 0 <= j < |s[1..]| && s[1..][j] == y;
      assert s[j + 1] == y;
    }
  }

  lemma ConsScoredDistinct(x: Scored, rest: seq<Scored>)
    requires DistinctScoredIds(rest) && forall y :: y in rest ==> y.recipe.id != x.recipe.id
    ensures DistinctScoredIds([x] + rest)
  {
    var r := [x] + rest;
    forall i, j | 0 <= i < j < |r| ensures r[i].recipe.id != r[j].recipe.id {
      assert r[j] == rest[j - 1];
      if i > 0 {
        assert r[i] == rest[i - 1];
      }
    }
  }

  /** The recipes of the scored entries, in order. */
  function RecipesOf(s: seq<Scored>): (r: seq<Recipe>)
    ensures |r| == |s|
    ensures forall i :: 0 <= i < |s| ==> r[i] == s[i].recipe
  {
    if s == [] then [] else [s[0].recipe] + RecipesOf(s[1..])
  }

  /** The first recipe in `s` with id `id`, if any. */
  function FirstWithId(s: seq<Recipe>, id: nat): Option<Recipe> {
    if s == [] then None
    else if s[0].id == id then Some(s[0])
    else FirstWithId(s[1..], id)
  }

  /** Keeps the first recipe of each id not already in `seen`. */
  function Dedup(s: seq<Recipe>, seen: set<nat>): seq<Recipe> {
    if s == [] then []
    else if s[0].id in seen then Dedup(s[1..], seen)
    else
      var rest := Dedup(s[1..], seen + {s[0].id});
      [s[0]] + rest
  }

  /** The `Some` values of the recipes of `r`. */
  ghost function SomeOf(r: seq<Recipe>): set<Option<Recipe>> {
    set y | y in r :: Some(y)
  }

  /** Only recipes of `s` whose ids were not yet seen are kept. */
  lemma {:induction false} DedupMembers(s: seq<Recipe>, seen: set<nat>)
    ensures |Dedup(s, seen)| <= |s|
    ensures forall y :: y in Dedup(s, seen) ==> y.id !in seen && y in s
    decreases |s|
  {
    if s != [] {
      if s[0].id in seen {
        DedupMembers(s[1..], seen);
      } else {
        DedupMembers(s[1..], seen + {s[0].id});
      }
    }
  }

  /** No id is kept twice. */
  lemma {:induction false} DedupIsDistinct(s: seq<Recipe>, seen: set<nat>)
    ensures DistinctIds(Dedup(s, seen))
    decreases |s|
  {
    if s != [] {
      if s[0].id in seen {
        DedupIsDistinct(s[1..], seen);
      } else {
        var rest := Dedup(s[1..], seen + {s[0].id});
        DedupIsDistinct(s[1..], seen + {s[0].id});
        DedupMembers(s[1..], seen + {s[0].id});
        ConsDistinct(s[0], rest);
      }
    }
  }

  /** In a list without repeats the head's id is not in the tail. */
  lemma DistinctHead(s: seq<Recipe>)
    requires s != [] && DistinctIds(s)
    ensures DistinctIds(s[1..]) && forall y :: y in s[1..] ==> y.id != s[0].id
  {
    forall y | y in s[1..] ensures y.id != s[0].id {
      var j :| 0 <= j < |s[1..]| && s[1..][j] == y;
      assert s[j + 1] == y;
    }
  }

  /** A prefix of a list without repeats has none either. */
  lemma DistinctPrefix(s: seq<Recipe>, k: nat)
    requires DistinctIds(s) && k <= |s|
    ensures DistinctIds(s[..k])
  {
    forall i, j | 0 <= i < j < k ensures s[..k][i].id != s[..k][j].id {
      assert s[..k][i] == s[i] && s[..k][j] == s[j];
    }
  }

  /** A recipe whose id is new may go in front of a list without repeats. */
  lemma ConsDistinct(x: Recipe, rest: seq<Recipe>)
    requires DistinctIds(rest) && forall y :: y in rest ==> y.id != x.id
    ensures DistinctIds([x] + rest)
  {
    var r := [x] + rest;
    forall i, j | 0 <= i < j < |r| ensures r[i].id != r[j].id {
      assert r[j] == rest[j - 1];
      if i > 0 {
        assert r[i] == rest[i - 1];
      }
    }
  }

  /** Each kept recipe is the first recipe of its id. */
  lemma {:induction false} DedupKeepsFirsts(s: seq<Recipe>, seen: set<nat>)
    ensures forall y :: y in Dedup(s, seen) ==> FirstWithId(s, y.id) == Some(y)
    decreases |s|
  {
    if s != [] {
      if s[0].id in seen {
        DedupKeepsFirsts(s[1..], seen);
        DedupMembers(s[1..], seen);
      } else {
        var rest := Dedup(s[1..], seen + {s[0].id});
        assert Dedup(s, seen) == [s[0]] + rest;
        DedupKeepsFirsts(s[1..], seen + {s[0].id});
        DedupMembers(s[1..], seen + {s[0].id});
      }
    }
  }

  /** Every id not yet seen keeps its first recipe. */
  lemma {:induction false} DedupCoversUnseen(s: seq<Recipe>, seen: set<nat>)
    ensures forall x :: x in s && x.id !in seen ==> FirstWithId(s, x.id) in SomeOf(Dedup(s, seen))
    decreases |s|
  {
    if s == [] {
    } else if s[0].id in seen {
      DedupCoversUnseen(s[1..], seen);
      forall x | x in s && x.id !in seen
        ensures FirstWithId(s, x.id) in SomeOf(Dedup(s, seen))
      {
        assert x in s[1..];
      }
    } else {
      var rest := Dedup(s[1..], seen + {s[0].id});
      assert Dedup(s, seen) == [s[0]] + rest;
      DedupCoversUnseen(s[1..], seen + {s[0].id});
      forall x | x in s && x.id !in seen
        ensures FirstWithId(s, x.id) in SomeOf(Dedup(s, seen))
      {
        if x.id != s[0].id {
          assert x in s[1..];
          var y :| y in rest && FirstWithId(s[1..], x.id) == Some(y);
          assert y in [s[0]] + rest;
        } else {
          assert s[0] in [s[0]] + rest;
        }
      }
    }
  }

  /** Each recipe paired with its score under `f`, in order. */
  function ScoreAll(xs: seq<Recipe>, f: Recipe -> int): (r: seq<Scored>)
    ensures |r| == |xs|
    ensures forall i :: 0 <= i < |xs| ==> r[i] == Scored(xs[i], f(xs[i]))
  {
    if xs == [] then [] else [Scored(xs[0], f(xs[0]))] + ScoreAll(xs[1..], f)
  }

  /** `sorted(((x, f(x)) for x in xs), key=score, reverse=True)`. */
  function Rank(xs: seq<Recipe>, f: Recipe -> int): (r: seq<Scored>)
    ensures SortedDesc(r)
    ensures |r| == |xs|
    ensures forall y :: y in r ==> y.recipe in xs && y.score == f(y.recipe)
    ensures forall x :: x in xs ==> Scored(x, f(x)) in r
    ensures DistinctIds(xs) ==> DistinctScoredIds(r)
  {
    var scored := ScoreAll(xs, f);
    assert forall y :: y in scored ==> y.recipe in xs && y.score == f(y.recipe);
    assert forall x :: x in xs ==> Scored(x, f(x)) in scored by {
      forall x | x in xs ensures Scored(x, f(x)) in scored {
        var i :| 0 <= i < |xs| && xs[i] == x;
        assert scored[i] == Scored(x, f(x));
      }
    }
    assert DistinctIds(xs) ==> DistinctScoredIds(scored);
    StableSortKeepsDistinctIds(scored);
    StableSortDesc(scored)
  }

  /** The recipes of the first `n` entries of a ranking. */
  function Top(ranking: seq<Scored>, n: nat): (r: seq<Recipe>)
    requires SortedDesc(ranking)
    ensures |r| == if n < |ranking| then n else |ranking|
    ensures forall i :: 0 <= i < |r| ==> r[i] == ranking[i].recipe
    ensures forall i, j :: 0 <= i < |r| <= j < |ranking| ==> ranking[i].score >= ranking[j].score
    ensures DistinctScoredIds(ranking) ==> DistinctIds(r)
  {
    RecipesOf(if n < |ranking| then ranking[..n] else ranking)
  }

  /** The first `n` of a ranking by `f`: drawn from `xs`, by non-increasing
      `f`; nothing of `xs` left out scores above anything kept, and a short
      result keeps all of `xs`. */
  lemma TopOfRank(xs: seq<Recipe>, f: Recipe -> int, n: nat)
    ensures var r := Top(Rank(xs, f), n);
            && |r| <= n
            && (forall x :: x in r ==> x in xs)
            && (forall i, j :: 0 <= i < j < |r| ==> f(r[i]) >= f(r[j]))
            && (forall x, y :: x in xs && x !in r && y in r ==> f(y) >= f(x))
            && (|r| < n ==> forall x :: x in xs ==> x in r)
            && (DistinctIds(xs) ==> DistinctIds(r))
  {
    TopDrawsFrom(xs, f, n);
    TopDominates(xs, f, n);
    TopShortKeepsAll(xs, f, n);
  }

  lemma TopDrawsFrom(xs: seq<Recipe>, f: Recipe -> int, n: nat)
    ensures var r := Top(Rank(xs, f), n);
            && (forall x :: x in r ==> x in xs)
            && (forall i, j :: 0 <= i < j < |r| ==> f(r[i]) >= f(r[j]))
  {
    TopMembers(xs, f, n);
    TopOrdered(xs, f, n);
  }

  lemma TopMembers(xs: seq<Recipe>, f: Recipe -> int, n: nat)
    ensures forall x :: x in Top(Rank(xs, f), n) ==> x in xs
  {
    var ranking := Rank(xs, f);
    var r := Top(ranking, n);
    forall x | x in r ensures x in xs {
      var i :| 0 <= i < |r| && r[i] == x;
      assert ranking[i] in ranking;
    }
  }

  lemma TopOrdered(xs: seq<Recipe>, f: Recipe -> int, n: nat)
    ensures var r := Top(Rank(xs, f), n);
            forall i, j :: 0 <= i < j < |r| ==> f(r[i]) >= f(r[j])
  {
    var ranking := Rank(xs, f);
    var r := Top(ranking, n);
    forall i, j | 0 <= i < j < |r| ensures f(r[i]) >= f(r[j]) {
      assert r[i] == ranking[i].recipe && r[j] == ranking[j].recipe;
      assert ranking[i] in ranking && ranking[j] in ranking;
      assert ranking[i].score >= ranking[j].score;
    }
  }

  lemma TopDominates(xs: seq<Recipe>, f: Recipe -> int, n: nat)
    ensures var r := Top(Rank(xs, f), n);
            forall x, y :: x in xs && x !in r && y in r ==> f(y) >= f(x)
  {
    var ranking := Rank(xs, f);
    var r := Top(ranking, n);
    forall x, y | x in xs && x !in r && y in r ensures f(y) >= f(x) {
      assert Scored(x, f(x)) in ranking;
      var k :| 0 <= k < |ranking| && ranking[k] == Scored(x, f(x));
      var i :| 0 <= i < |r| && r[i] == y;
      assert ranking[i] in ranking;
    }
  }

  lemma TopShortKeepsAll(xs: seq<Recipe>, f: Recipe -> int, n: nat)
    ensures var r := Top(Rank(xs, f), n);
            |r| < n ==> forall x :: x in xs ==> x in r
  {
    var ranking := Rank(xs, f);
    var r := Top(ranking, n);
    if |r| < n {
      forall x | x in xs ensures x in r {
        assert Scored(x, f(x)) in ranking;
        var k :| 0 <= k < |ranking| && ranking[k] == Scored(x, f(x));
        assert r[k] == x;
      }
    }
  }
}

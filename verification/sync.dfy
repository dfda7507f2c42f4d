/** The import paths: `sync_with_api` and `fetch_and_store_random_recipes`
    (`backend/services/data_service.py`), `sync_new_recipes`
    (`scripts/sync/daily_sync.py`) and the per-partition syncs
    `category_sync`, `area_sync` (`scripts/sync/smart_sync.py`) and
    `sync_by_categories` (`scripts/sync/daily_sync.py`). Fetches are inputs;
    a transaction either commits all its rows or leaves the store as it was. */
module Sync {
  import opened Wrappers
  import opened Normalizer
  import opened Recipes

  /** `parse_meal_data` over a batch. */
  function ParseAll(meals: seq<RawRecord>): (r: seq<ParsedMeal>)
    ensures |r| == |meals|
    ensures forall i :: 0 <= i < |meals| ==> r[i] == ParseMealData(meals[i])
  {
    if meals == [] then [] else [ParseMealData(meals[0])] + ParseAll(meals[1..])
  }

  /** One transaction over a batch: committed with its counts and, per
      record, the row it now corresponds to; or rolled back by the first
      constraint violation. */
  datatype Batch =
    | Committed(store: Store, added: nat, skipped: nat, rows: seq<Recipe>)
    | RolledBack(error: InsertError)

  /** Every record of the batch satisfies the column constraints. */
  predicate AllInsertable(ps: seq<ParsedMeal>) {
    forall i :: 0 <= i < |ps| ==> Insertable(ps[i])
  }

  lemma AllInsertableTail(ps: seq<ParsedMeal>)
    requires ps != []
    ensures AllInsertable(ps) <==> Insertable(ps[0]) && AllInsertable(ps[1..])
  {
    if Insertable(ps[0]) && AllInsertable(ps[1..]) {
      forall i | 0 <= i < |ps| ensures Insertable(ps[i]) {
        if i > 0 {
          assert ps[i] == ps[1..][i - 1];
        }
      }
    }
  }

  /** A store that extends one step of a store that extends `s` extends `s`. */
  lemma ExtendsStep(s: Store, mid: Store, s2: Store)
    requires |s| <= |mid| <= |s2| && mid[..|s|] == s && s2[..|mid|] == mid
    ensures s2[..|s|] == s
  {
    assert s2[..|s|] == s2[..|mid|][..|s|];
  }

  /** The check-then-insert loop shared by every import path, inside one
      session. A record whose `meal_id` a row already has (one added earlier
      in the same batch included, as the session flushes before each query)
      is skipped; any failing insert rolls the whole batch back. */
  function ImportParsed(s: Store, ps: seq<ParsedMeal>, now: int): (r: Batch)
    requires ValidStore(s)
    ensures r.Committed? ==>
              && ValidStore(r.store) && |r.store| == |s| + r.added && r.store[..|s|] == s
              && r.added + r.skipped == |ps| && |r.rows| == |ps|
    ensures AllInsertable(ps) ==> r.Committed?
    decreases |ps|
  {
    if ps == [] then
      assert s[..|s|] == s;
      Committed(s, 0, 0, [])
    else
      match UpsertOne(s, ps[0], now)
      case Err(e) => RolledBack(e)
      case Ok(u) =>
        AllInsertableTail(ps);
        match ImportParsed(u.store, ps[1..], now)
        case RolledBack(e) => RolledBack(e)
        case Committed(s2, a, k, rows) =>
          assert u.store[..|s|] == s by {
            if u.added {
              assert u.store == s + [u.recipe];
            }
          }
          ExtendsStep(s, u.store, s2);
          Committed(s2, a + (if u.added then 1 else 0), k + (if u.added then 0 else 1), [u.recipe] + rows)
  }

  /** Row `i` is a stored row with record `i`'s `meal_id`. */
  predicate RowsMatch(ps: seq<ParsedMeal>, rows: seq<Recipe>, store: Store)
    requires |rows| == |ps|
  {
    forall i :: 0 <= i < |ps| ==> rows[i] in store && Some(rows[i].mealId) == ps[i].mealId
  }

  lemma RowsMatchCons(ps: seq<ParsedMeal>, row: Recipe, rows: seq<Recipe>, store: Store)
    requires ps != [] && |rows| == |ps| - 1
    requires row in store && Some(row.mealId) == ps[0].mealId
    requires RowsMatch(ps[1..], rows, store)
    ensures RowsMatch(ps, [row] + rows, store)
  {
    forall i | 0 <= i < |ps|
      ensures ([row] + rows)[i] in store && Some(([row] + rows)[i].mealId) == ps[i].mealId
    {
      if i > 0 {
        assert ([row] + rows)[i] == rows[i - 1] && ps[i] == ps[1..][i - 1];
      }
    }
  }

  /** Each record of a committed batch ends up as a stored row with its
      `meal_id`. */
  lemma {:induction false} ImportedRowsMatch(s: Store, ps: seq<ParsedMeal>, now: int)
    requires ValidStore(s)
    ensures var r := ImportParsed(s, ps, now);
            r.Committed? ==> RowsMatch(ps, r.rows, r.store)
    decreases |ps|
  {
    if ps != [] {
      match UpsertOne(s, ps[0], now)
      case Err(_) =>
      case Ok(u) =>
        ImportedRowsMatch(u.store, ps[1..], now);
        var tail := ImportParsed(u.store, ps[1..], now);
        if tail.Committed? {
          assert u.recipe in tail.store by {
            var j :| 0 <= j < |u.store| && u.store[j] == u.recipe;
            assert tail.store[..|u.store|] == u.store;
            assert tail.store[j] == u.recipe;
          }
          RowsMatchCons(ps, u.recipe, tail.rows, tail.store);
        }
    }
  }

  /** Every row a committed batch adds copies one of its records and carries
      the batch's timestamp. */
  lemma {:induction false} ImportedRowsCopyRecords(s: Store, ps: seq<ParsedMeal>, now: int)
    requires ValidStore(s)
    ensures var r := ImportParsed(s, ps, now);
            r.Committed? ==>
              forall j :: |s| <= j < |r.store| ==>
                r.store[j].createdAt == now && exists i :: 0 <= i < |ps| && CopiesParsed(r.store[j], ps[i])
    decreases |ps|
  {
    if ps != [] {
      match UpsertOne(s, ps[0], now)
      case Err(_) =>
      case Ok(u) =>
        ImportedRowsCopyRecords(u.store, ps[1..], now);
        var r := ImportParsed(s, ps, now);
        if r.Committed? {
          var s2 := ImportParsed(u.store, ps[1..], now).store;
          assert |u.store| == |s| || (|u.store| == |s| + 1 && u.store[|s|] == u.recipe);
          assert s2[..|u.store|] == u.store;
          NewRowsStep(s, u.store, s2, ps, now);
        }
    }
  }

  lemma NewRowsStep(s: Store, mid: Store, s2: Store, ps: seq<ParsedMeal>, now: int)
    requires ps != [] && |s| <= |mid| <= |s2| && s2[..|mid|] == mid
    requires |mid| == |s| || (|mid| == |s| + 1 && mid[|s|].createdAt == now && CopiesParsed(mid[|s|], ps[0]))
    requires forall j :: |mid| <= j < |s2| ==>
               s2[j].createdAt == now && exists i :: 0 <= i < |ps[1..]| && CopiesParsed(s2[j], ps[1..][i])
    ensures forall j :: |s| <= j < |s2| ==>
              s2[j].createdAt == now && exists i :: 0 <= i < |ps| && CopiesParsed(s2[j], ps[i])
  {
    forall j | |s| <= j < |s2|
      ensures s2[j].createdAt == now && exists i :: 0 <= i < |ps| && CopiesParsed(s2[j], ps[i])
    {
      if j < |mid| {
        assert s2[j] == mid[|s|];
        assert CopiesParsed(s2[j], ps[0]);
      } else {
        var i :| 0 <= i < |ps[1..]| && CopiesParsed(s2[j], ps[1..][i]);
        assert CopiesParsed(s2[j], ps[i + 1]);
      }
    }
  }

  /** Record `k` makes the batch roll back: it cannot be inserted, no stored
      row has its `meal_id`, and no earlier record of the batch that could be
      inserted had it either. */
  predicate Blocks(s: Store, ps: seq<ParsedMeal>, k: nat) {
    && k < |ps|
    && !Insertable(ps[k])
    && FindByMealId(s, ps[k].mealId).None?
    && forall j :: 0 <= j < k ==> !(Insertable(ps[j]) && ps[j].mealId == ps[k].mealId)
  }

  lemma FindAfterAppend(s: Store, row: Recipe, key: Option<string>)
    ensures FindByMealId(s + [row], key).None? <==>
              FindByMealId(s, key).None? && key != Some(row.mealId)
  {
    var t := s + [row];
    if FindByMealId(t, key).None? {
      assert t[|s|] == row;
      forall i | 0 <= i < |s| ensures key != Some(s[i].mealId) {
        assert t[i] == s[i];
      }
    }
    if FindByMealId(s, key).None? && key != Some(row.mealId) {
      forall i | 0 <= i < |t| ensures key != Some(t[i].mealId) {
      }
    }
  }

  /** After a successful first step, record `k` blocks the batch exactly
      when it blocks the rest of the batch against the stepped store. */
  lemma BlocksShift(s: Store, ps: seq<ParsedMeal>, now: int, k: nat)
    requires ValidStore(s) && ps != [] && UpsertOne(s, ps[0], now).Ok?
    requires 1 <= k < |ps|
    ensures Blocks(s, ps, k) <==> Blocks(UpsertOne(s, ps[0], now).value.store, ps[1..], k - 1)
  {
    var u := UpsertOne(s, ps[0], now).value;
    var key := ps[k].mealId;
    assert ps[1..][k - 1] == ps[k];
    if u.added {
      FindAfterAppend(s, u.recipe, key);
    }
    assert forall j :: 0 <= j < k - 1 ==> ps[1..][j] == ps[j + 1];
  }

  /** A batch rolls back exactly when one of its records blocks it. */
  lemma {:induction false} RollsBackExactly(s: Store, ps: seq<ParsedMeal>, now: int)
    requires ValidStore(s)
    ensures ImportParsed(s, ps, now).RolledBack? <==> exists k: nat :: Blocks(s, ps, k)
    decreases |ps|
  {
    if ps != [] {
      match UpsertOne(s, ps[0], now)
      case Err(e) =>
        assert Blocks(s, ps, 0);
      case Ok(u) =>
        RollsBackExactly(u.store, ps[1..], now);
        BlockedAfterStep(s, ps, now);
    }
  }

  /** After a successful first step, some record blocks the batch exactly
      when some record blocks the rest of it against the stepped store. */
  lemma BlockedAfterStep(s: Store, ps: seq<ParsedMeal>, now: int)
    requires ValidStore(s) && ps != [] && UpsertOne(s, ps[0], now).Ok?
    ensures (exists k: nat :: Blocks(s, ps, k)) <==>
              (exists k: nat :: Blocks(UpsertOne(s, ps[0], now).value.store, ps[1..], k))
  {
    var u := UpsertOne(s, ps[0], now).value;
    if exists k: nat :: Blocks(s, ps, k) {
      var k: nat :| Blocks(s, ps, k);
      BlockedLater(s, ps, now, k);
    }
    if exists k: nat :: Blocks(u.store, ps[1..], k) {
      var k: nat :| Blocks(u.store, ps[1..], k);
      BlocksShift(s, ps, now, k + 1);
      assert Blocks(s, ps, k + 1);
    }
  }

  /** A record that blocks a batch whose first step succeeds is a later one,
      and it blocks the rest of the batch. */
  lemma BlockedLater(s: Store, ps: seq<ParsedMeal>, now: int, k: nat)
    requires ValidStore(s) && ps != [] && UpsertOne(s, ps[0], now).Ok? && Blocks(s, ps, k)
    ensures k >= 1 && Blocks(UpsertOne(s, ps[0], now).value.store, ps[1..], k - 1)
  {
    assert !Blocks(s, ps, 0);
    BlocksShift(s, ps, now, k);
  }

  /** The import of a batch of raw records. */
  function ImportBatch(s: Store, meals: seq<RawRecord>, now: int): (r: Batch)
    requires ValidStore(s)
    ensures r.Committed? ==>
              && ValidStore(r.store) && s <= r.store && |r.store| == |s| + r.added
              && r.added + r.skipped == |meals| && |r.rows| == |meals|
    ensures r.RolledBack? ==> exists k: nat :: Blocks(s, ParseAll(meals), k)
    ensures (exists k: nat :: Blocks(s, ParseAll(meals), k)) ==> r.RolledBack?
  {
    var ps := ParseAll(meals);
    RollsBackExactly(s, ps, now);
    ImportParsed(s, ps, now)
  }

  /** A store after a committed import, with its counts. */
  datatype Synced = Synced(store: Store, added: nat, skipped: nat)

  /** `get_random_meals(count)` makes `count` attempts and drops the ones
      that fail, so it yields at most `count` records. */
  predicate FetchedAtMost(fetched: seq<RawRecord>, count: int) {
    fetched == [] || |fetched| <= count
  }

  /** `sync_with_api(count)` over the records `get_random_meals(count)`
      yielded: the counts of a committed batch, or the error the rollback
      re-raises, which happens exactly when a record blocks the batch. */
  function SyncWithApi(s: Store, fetched: seq<RawRecord>, count: int, now: int): (r: Result<Synced, InsertError>)
    requires ValidStore(s) && FetchedAtMost(fetched, count)
    ensures r.Ok? ==> && ValidStore(r.value.store) && s <= r.value.store
                      && |r.value.store| == |s| + r.value.added
                      && r.value.added + r.value.skipped == |fetched|
                      && (fetched != [] ==> r.value.added + r.value.skipped <= count)
    ensures r.Err? ==> exists k: nat :: Blocks(s, ParseAll(fetched), k)
    ensures (exists k: nat :: Blocks(s, ParseAll(fetched), k)) ==> r.Err?
  {
    match ImportBatch(s, fetched, now)
    case RolledBack(e) => Err(e)
    case Committed(s2, a, k, _) => Ok(Synced(s2, a, k))
  }

  /** `fetch_and_store_random_recipes(count)`: per fetched record, the stored
      row that now has its `meal_id`, whether found or newly added. */
  function FetchAndStoreRandomRecipes(s: Store, fetched: seq<RawRecord>, count: int, now: int)
    : (r: Result<(Store, seq<Recipe>), InsertError>)
    requires ValidStore(s) && FetchedAtMost(fetched, count)
    ensures r.Ok? ==> && ValidStore(r.value.0) && s <= r.value.0
                      && |r.value.1| == |fetched|
                      && forall i :: 0 <= i < |fetched| ==>
                           r.value.1[i] in r.value.0
                           && Some(r.value.1[i].mealId) == ParseMealData(fetched[i]).mealId
    ensures r.Err? ==> exists k: nat :: Blocks(s, ParseAll(fetched), k)
    ensures (exists k: nat :: Blocks(s, ParseAll(fetched), k)) ==> r.Err?
  {
    ImportedRowsMatch(s, ParseAll(fetched), now);
    match ImportBatch(s, fetched, now)
    case RolledBack(e) => Err(e)
    case Committed(s2, _, _, rows) => Ok((s2, rows))
  }

  /** `sync_new_recipes(daily_count)`: added, skipped and the growth of the
      table; a failed sync reports all three as zero and leaves the table as
      it was. */
  function SyncNewRecipes(s: Store, fetched: seq<RawRecord>, count: int, now: int)
    : (r: (Store, nat, nat, int))
    requires ValidStore(s) && FetchedAtMost(fetched, count)
    ensures ValidStore(r.0) && s <= r.0
    ensures r.3 == |r.0| - |s| == r.1
    ensures (exists k: nat :: Blocks(s, ParseAll(fetched), k)) ==> r == (s, 0, 0, 0)
    ensures !(exists k: nat :: Blocks(s, ParseAll(fetched), k)) ==>
              && r.1 + r.2 == |fetched|
              && var b := ImportBatch(s, fetched, now);
                 b.Committed? && r.0 == b.store && r.1 == b.added && r.2 == b.skipped
  {
    match SyncWithApi(s, fetched, count, now)
    case Err(_) =>
      assert s[..|s|] == s;
      (s, 0, 0, 0)
    case Ok(v) => (v.store, v.added, v.skipped, |v.store| - |s|)
  }

  /** What happened to one selected partition (a category or an area). */
  datatype PartitionReport =
    | Unnamed                          // no name: skipped
    | Failed                           // the outer handler caught an error
    | RolledBackPart(error: InsertError)
    | Done(added: nat, skipped: nat)

  /** `entry.get(key, '')`, treating a JSON null as no name. */
  function PartitionName(entry: RawRecord, key: string): Option<string> {
    var v := Lookup(entry, key, Some(""));
    if v == Some("") then None else v
  }

  /** `min(count // k, len(meals))`. For a positive divisor Dafny's `/`
      rounds down as Python's `//` does, negative `count` included. */
  function SampleSize(count: int, k: nat, available: nat): int
    requires k > 0
  {
    Min(count / k, available)
  }

  /** The sample indices fit: `random.sample(meals, n)` yields `n`
      distinct positions of `meals` whenever `n` is not negative. */
  predicate PickFits(meals: Option<seq<RawRecord>>, pick: seq<nat>, count: int, k: nat)
    requires k > 0
  {
    meals.Some? && SampleSize(count, k, |meals.value|) >= 0 ==>
      && |pick| == SampleSize(count, k, |meals.value|)
      && (forall i :: 0 <= i < |pick| ==> pick[i] < |meals.value|)
      && (forall i, j :: 0 <= i < j < |pick| ==> pick[i] != pick[j])
  }

  /** The records at the chosen positions. */
  function Pick(meals: seq<RawRecord>, pick: seq<nat>): (r: seq<RawRecord>)
    requires forall i :: 0 <= i < |pick| ==> pick[i] < |meals|
    ensures |r| == |pick|
    ensures forall i :: 0 <= i < |pick| ==> r[i] == meals[pick[i]]
  {
    if pick == [] then [] else [meals[pick[0]]] + Pick(meals, pick[1..])
  }

  /** One selected partition as the loop meets it: its name, the records
      its search returned (`None` for a JSON null), and the sample positions. */
  datatype PartitionInput = PartitionInput(name: Option<string>, meals: Option<seq<RawRecord>>, pick: seq<nat>)

  /** The partition has a name and a record list, and its sample size is
      not negative: its sample is drawn and imported. */
  predicate Sampled(p: PartitionInput, count: int, k: nat)
    requires k > 0
  {
    p.name.Some? && p.meals.Some? && SampleSize(count, k, |p.meals.value|) >= 0
  }

  /** What one partition does to the table it meets, `before`, leaving
      `after`: `Unnamed` exactly when it has no name; `Failed` exactly when
      it has a name but a null record list or a negative sample size;
      rolled back exactly when its sample holds a record that blocks the
      import; and otherwise done, with the table and the counts of the
      committed import of its sample. Only a done partition changes the
      table. */
  ghost predicate PartitionStep(p: PartitionInput, before: Store, after: Store, report: PartitionReport,
                          count: int, k: nat, now: int)
    requires k > 0
  {
    && ValidStore(before) && PickFits(p.meals, p.pick, count, k)
    && (report == Unnamed <==> p.name.None?)
    && (report == Failed <==>
          p.name.Some? && (p.meals.None? || SampleSize(count, k, |p.meals.value|) < 0))
    && (report.RolledBackPart? <==>
          Sampled(p, count, k) && exists j: nat :: Blocks(before, ParseAll(Pick(p.meals.value, p.pick)), j))
    && (!report.Done? ==> after == before)
    && (report.Done? ==>
          && Sampled(p, count, k)
          && var b := ImportBatch(before, Pick(p.meals.value, p.pick), now);
             b.Committed? && after == b.store && report.added == b.added && report.skipped == b.skipped)
  }

  /** One partition of `category_sync`/`area_sync`/`sync_by_categories`: a
      nameless one is skipped; a null record list or a negative sample size
      raises into the outer handler; otherwise the sampled records are
      imported in a transaction of their own. */
  function SyncPartition(s: Store, p: PartitionInput, count: int, k: nat, now: int): (r: (Store, PartitionReport))
    requires ValidStore(s) && k > 0 && PickFits(p.meals, p.pick, count, k)
    ensures ValidStore(r.0) && s <= r.0
    ensures PartitionStep(p, s, r.0, r.1, count, k, now)
    ensures r.1.Done? ==> |r.0| == |s| + r.1.added
                          && r.1.added + r.1.skipped == SampleSize(count, k, |p.meals.value|)
  {
    if p.name.None? then (s, Unnamed)
    else if p.meals.None? || SampleSize(count, k, |p.meals.value|) < 0 then (s, Failed)
    else
      var b := ImportBatch(s, Pick(p.meals.value, p.pick), now);
      if b.RolledBack? then
        RolledBackStep(p, s, count, k, now);
        (s, RolledBackPart(b.error))
      else
        CommittedStep(p, s, count, k, now);
        (b.store, Done(b.added, b.skipped))
  }

  /** A sampled partition whose import rolls back keeps the table. */
  lemma RolledBackStep(p: PartitionInput, s: Store, count: int, k: nat, now: int)
    requires ValidStore(s) && k > 0 && PickFits(p.meals, p.pick, count, k) && Sampled(p, count, k)
    requires ImportBatch(s, Pick(p.meals.value, p.pick), now).RolledBack?
    ensures PartitionStep(p, s, s, RolledBackPart(ImportBatch(s, Pick(p.meals.value, p.pick), now).error),
                          count, k, now)
  {
    var ps := ParseAll(Pick(p.meals.value, p.pick));
    assert exists j: nat :: Blocks(s, ps, j);
    assert !(p.meals.None? || SampleSize(count, k, |p.meals.value|) < 0);
  }

  /** A sampled partition whose import commits takes its table and counts. */
  lemma CommittedStep(p: PartitionInput, s: Store, count: int, k: nat, now: int)
    requires ValidStore(s) && k > 0 && PickFits(p.meals, p.pick, count, k) && Sampled(p, count, k)
    requires ImportBatch(s, Pick(p.meals.value, p.pick), now).Committed?
    ensures var b := ImportBatch(s, Pick(p.meals.value, p.pick), now);
            PartitionStep(p, s, b.store, Done(b.added, b.skipped), count, k, now)
  {
  }

  function SumAdded(rs: seq<PartitionReport>): nat {
    if rs == [] then 0 else (if rs[0].Done? then rs[0].added else 0) + SumAdded(rs[1..])
  }

  function SumSkipped(rs: seq<PartitionReport>): nat {
    if rs == [] then 0 else (if rs[0].Done? then rs[0].skipped else 0) + SumSkipped(rs[1..])
  }

  lemma SumsCons(report: PartitionReport, rest: seq<PartitionReport>)
    ensures SumAdded([report] + rest) == (if report.Done? then report.added else 0) + SumAdded(rest)
    ensures SumSkipped([report] + rest) == (if report.Done? then report.skipped else 0) + SumSkipped(rest)
  {
    assert ([report] + rest)[1..] == rest;
  }

  /** The partitions' outcome: the final table, the table each partition
      met followed by the final one, the reports, and the totals. */
  datatype PartitionRun = PartitionRun(store: Store, stores: seq<Store>, reports: seq<PartitionReport>,
                                       added: nat, skipped: nat)

  /** A sample that can be drawn is at most the even share of the budget. */
  lemma SampleWithinShare(count: int, k: nat, available: nat)
    requires k > 0 && SampleSize(count, k, available) >= 0
    ensures count >= 0 && SampleSize(count, k, available) <= count / k
  {
  }

  /** The even share of the budget each of `k` partitions may use. */
  function Share(count: int, k: nat): nat {
    if k == 0 || count < 0 then 0 else count / k
  }

  lemma MulStep(n: nat, c: nat)
    requires n > 0
    ensures n * c == c + (n - 1) * c
  {
  }

  /** Every partition's sample positions fit its records. */
  predicate AllPicksFit(inputs: seq<PartitionInput>, count: int, k: nat)
    requires k > 0
  {
    forall i :: 0 <= i < |inputs| ==> PickFits(inputs[i].meals, inputs[i].pick, count, k)
  }

  lemma PicksFitTail(inputs: seq<PartitionInput>, count: int, k: nat)
    requires k > 0 && inputs != [] && AllPicksFit(inputs, count, k)
    ensures PickFits(inputs[0].meals, inputs[0].pick, count, k)
    ensures AllPicksFit(inputs[1..], count, k)
  {
    var tail := inputs[1..];
    forall i | 0 <= i < |tail| ensures PickFits(tail[i].meals, tail[i].pick, count, k) {
      assert tail[i] == inputs[i + 1];
    }
  }

  /** `run` records the partitions taken in turn from `s`: partition `i`
      meets the table `run.stores[i]` and leaves `run.stores[i + 1]`, the
      last of which is the final table. */
  ghost predicate Trace(s: Store, inputs: seq<PartitionInput>, run: PartitionRun, count: int, k: nat, now: int)
    requires k > 0
  {
    && |run.stores| == |inputs| + 1 && |run.reports| == |inputs|
    && run.stores[0] == s && run.stores[|inputs|] == run.store
    && forall i :: 0 <= i < |inputs| ==>
         PartitionStep(inputs[i], run.stores[i], run.stores[i + 1], run.reports[i], count, k, now)
  }

  lemma TraceCons(s: Store, mid: Store, inputs: seq<PartitionInput>, report: PartitionReport,
                  rest: PartitionRun, added: nat, skipped: nat, count: int, k: nat, now: int)
    requires k > 0 && inputs != []
    requires PartitionStep(inputs[0], s, mid, report, count, k, now)
    requires Trace(mid, inputs[1..], rest, count, k, now)
    ensures Trace(s, inputs, PartitionRun(rest.store, [s] + rest.stores, [report] + rest.reports, added, skipped),
                  count, k, now)
  {
    var stores, reports := [s] + rest.stores, [report] + rest.reports;
    forall i | 0 <= i < |inputs|
      ensures PartitionStep(inputs[i], stores[i], stores[i + 1], reports[i], count, k, now)
    {
      if i > 0 {
        assert inputs[i] == inputs[1..][i - 1] && reports[i] == rest.reports[i - 1];
        assert stores[i] == rest.stores[i - 1] && stores[i + 1] == rest.stores[i];
      }
    }
  }

  lemma PrefixTrans(s: Store, mid: Store, t: Store)
    requires s <= mid && mid <= t
    ensures s <= t
  {
    assert t[..|mid|] == mid;
    assert mid[..|s|] == s;
  }

  /** The partitions in turn, each in its own transaction; the sample size
      divides the budget by `k`, the number of selected partitions. */
  function RunPartitions(s: Store, inputs: seq<PartitionInput>, count: int, k: nat, now: int): (r: PartitionRun)
    requires ValidStore(s) && k > 0 && AllPicksFit(inputs, count, k)
    ensures ValidStore(r.store) && s <= r.store && |r.store| == |s| + r.added
    ensures r.added == SumAdded(r.reports) && r.skipped == SumSkipped(r.reports)
    ensures r.added + r.skipped <= |inputs| * Share(count, k)
    decreases |inputs|
  {
    if inputs == [] then PartitionRun(s, [s], [], 0, 0)
    else
      var p := inputs[0];
      PicksFitTail(inputs, count, k);
      var step := SyncPartition(s, p, count, k, now);
      var rest := RunPartitions(step.0, inputs[1..], count, k, now);
      var report := step.1;
      var a := if report.Done? then report.added else 0;
      var b := if report.Done? then report.skipped else 0;
      assert a + b <= Share(count, k) by {
        if report.Done? {
          SampleWithinShare(count, k, |p.meals.value|);
        }
      }
      MulStep(|inputs|, Share(count, k));
      PrefixTrans(s, step.0, rest.store);
      SumsCons(report, rest.reports);
      PartitionRun(rest.store, [s] + rest.stores, [report] + rest.reports, a + rest.added, b + rest.skipped)
  }

  /** Every partition of the run steps from the table the one before it
      left, as `PartitionStep` says. */
  lemma {:induction false} RunPartitionsTrace(s: Store, inputs: seq<PartitionInput>, count: int, k: nat, now: int)
    requires ValidStore(s) && k > 0 && AllPicksFit(inputs, count, k)
    ensures Trace(s, inputs, RunPartitions(s, inputs, count, k, now), count, k, now)
    decreases |inputs|
  {
    var r := RunPartitions(s, inputs, count, k, now);
    if inputs != [] {
      PicksFitTail(inputs, count, k);
      var step := SyncPartition(s, inputs[0], count, k, now);
      var rest := RunPartitions(step.0, inputs[1..], count, k, now);
      RunPartitionsTrace(step.0, inputs[1..], count, k, now);
      TraceCons(s, step.0, inputs, step.1, rest, r.added, r.skipped, count, k, now);
    }
  }

  /** The inputs of the selected partitions, names read under `key`. */
  function Inputs(entries: seq<RawRecord>, key: string, selected: seq<nat>,
                  fetched: seq<Option<seq<RawRecord>>>, picks: seq<seq<nat>>): (r: seq<PartitionInput>)
    requires forall i :: 0 <= i < |selected| ==> selected[i] < |entries|
    requires |fetched| == |selected| && |picks| == |selected|
    ensures |r| == |selected|
    ensures forall i :: 0 <= i < |selected| ==>
              r[i] == PartitionInput(PartitionName(entries[selected[i]], key), fetched[i], picks[i])
  {
    seq(|selected|, i requires 0 <= i < |selected| =>
      PartitionInput(PartitionName(entries[selected[i]], key), fetched[i], picks[i]))
  }

  /** The selection `random.sample(entries, min(limit, len(entries)))`:
      distinct positions, as many as the limit allows. */
  predicate Selection(entries: seq<RawRecord>, selected: seq<nat>, limit: nat) {
    && |selected| == Min(limit, |entries|)
    && (forall i :: 0 <= i < |selected| ==> selected[i] < |entries|)
    && (forall i, j :: 0 <= i < j < |selected| ==> selected[i] != selected[j])
  }

  /** `run` is what the walk over the selected partitions of `entries`
      does from `s`: the table only grows, by the added total; the totals
      are the sums over the done partitions and stay within the budget; and
      every selected partition, named under `key`, steps the table in turn
      with an even share of the budget. */
  ghost predicate Walked(s: Store, entries: seq<RawRecord>, key: string, selected: seq<nat>,
                   fetched: seq<Option<seq<RawRecord>>>, picks: seq<seq<nat>>, count: int, now: int,
                   run: PartitionRun)
  {
    && (forall i :: 0 <= i < |selected| ==> selected[i] < |entries|)
    && |fetched| == |selected| && |picks| == |selected|
    && ValidStore(run.store) && s <= run.store && |run.store| == |s| + run.added
    && run.added == SumAdded(run.reports) && run.skipped == SumSkipped(run.reports)
    && run.added + run.skipped <= (if count < 0 then 0 else count)
    && (|selected| == 0 ==> run.store == s && run.reports == [])
    && (|selected| > 0 ==> Trace(s, Inputs(entries, key, selected, fetched, picks), run, count, |selected|, now))
  }

  /** The loop shared by `category_sync`, `area_sync` and
      `sync_by_categories`: every selected partition in turn, each in its own
      transaction, the budget split evenly over all selected partitions,
      nameless ones included. */
  function PartitionSync(s: Store, entries: seq<RawRecord>, key: string, limit: nat,
                         selected: seq<nat>, fetched: seq<Option<seq<RawRecord>>>, picks: seq<seq<nat>>,
                         count: int, now: int): (run: PartitionRun)
    requires ValidStore(s) && Selection(entries, selected, limit)
    requires |fetched| == |selected| && |picks| == |selected|
    requires forall i :: 0 <= i < |selected| ==> PickFits(fetched[i], picks[i], count, |selected|)
    ensures Walked(s, entries, key, selected, fetched, picks, count, now, run)
  {
    var k := |selected|;
    if k == 0 then PartitionRun(s, [s], [], 0, 0)
    else
      var inputs := Inputs(entries, key, selected, fetched, picks);
      assert k * Share(count, k) <= (if count < 0 then 0 else count) by {
        if count >= 0 {
          assert count == k * (count / k) + count % k;
        }
      }
      assert AllPicksFit(inputs, count, k) by {
        forall i | 0 <= i < |inputs| ensures PickFits(inputs[i].meals, inputs[i].pick, count, k) {
          assert inputs[i].meals == fetched[i] && inputs[i].pick == picks[i];
        }
      }
      RunPartitionsTrace(s, inputs, count, k, now);
      RunPartitions(s, inputs, count, k, now)
  }

  /** A partition whose sampled records can all be inserted is never rolled
      back: its step commits whenever it is sampled. */
  lemma InsertableSampleCommits(p: PartitionInput, before: Store, after: Store, report: PartitionReport,
                                count: int, k: nat, now: int)
    requires k > 0 && PartitionStep(p, before, after, report, count, k, now)
    requires Sampled(p, count, k) && AllInsertable(ParseAll(Pick(p.meals.value, p.pick)))
    ensures report.Done?
  {
    var ps := ParseAll(Pick(p.meals.value, p.pick));
    forall j: nat ensures !Blocks(before, ps, j) {
      if j < |ps| {
        assert Insertable(ps[j]);
      }
    }
  }

  /** The category and area walks: `category_sync` takes up to three
      categories by `strCategory`, `area_sync` up to two areas by `strArea`,
      and `sync_by_categories` up to three categories, also reporting the
      growth of the table. */
  const CategoryLimit: nat := 3
  const AreaLimit: nat := 2

  /** `category_sync(count)` over what `get_categories()` returned. A JSON
      null there makes `len(categories)` raise outside any handler: the walk
      crashes, `None`, before touching the table. */
  function CategorySync(s: Store, categories: Option<seq<RawRecord>>, selected: seq<nat>,
                        fetched: seq<Option<seq<RawRecord>>>, picks: seq<seq<nat>>, count: int, now: int)
    : (r: Option<PartitionRun>)
    requires ValidStore(s)
    requires categories.Some? ==> Selection(categories.value, selected, CategoryLimit)
    requires |fetched| == |selected| && |picks| == |selected|
    requires forall i :: 0 <= i < |selected| ==> PickFits(fetched[i], picks[i], count, |selected|)
    ensures r.None? <==> categories.None?
    ensures r.Some? ==> |selected| <= 3
                        && Walked(s, categories.value, "strCategory", selected, fetched, picks, count, now, r.value)
  {
    match categories
    case None => None
    case Some(entries) =>
      Some(PartitionSync(s, entries, "strCategory", CategoryLimit, selected, fetched, picks, count, now))
  }

  /** `area_sync(count)` over what `get_areas()` returned; a JSON null
      crashes it as it does `category_sync`. */
  function AreaSync(s: Store, areas: Option<seq<RawRecord>>, selected: seq<nat>,
                    fetched: seq<Option<seq<RawRecord>>>, picks: seq<seq<nat>>, count: int, now: int)
    : (r: Option<PartitionRun>)
    requires ValidStore(s)
    requires areas.Some? ==> Selection(areas.value, selected, AreaLimit)
    requires |fetched| == |selected| && |picks| == |selected|
    requires forall i :: 0 <= i < |selected| ==> PickFits(fetched[i], picks[i], count, |selected|)
    ensures r.None? <==> areas.None?
    ensures r.Some? ==> |selected| <= 2
                        && Walked(s, areas.value, "strArea", selected, fetched, picks, count, now, r.value)
  {
    match areas
    case None => None
    case Some(entries) =>
      Some(PartitionSync(s, entries, "strArea", AreaLimit, selected, fetched, picks, count, now))
  }

  /** `sync_by_categories(daily_count)`: the walk and the growth of the
      table. Here `len(categories)` sits inside a handler, so a JSON null
      returns `(0, 0, 0)` with the table untouched. */
  function SyncByCategories(s: Store, categories: Option<seq<RawRecord>>, selected: seq<nat>,
                            fetched: seq<Option<seq<RawRecord>>>, picks: seq<seq<nat>>, count: int, now: int)
    : (r: (PartitionRun, int))
    requires ValidStore(s)
    requires categories.Some? ==> Selection(categories.value, selected, CategoryLimit)
    requires |fetched| == |selected| && |picks| == |selected|
    requires forall i :: 0 <= i < |selected| ==> PickFits(fetched[i], picks[i], count, |selected|)
    ensures r.1 == |r.0.store| - |s| == r.0.added
    ensures categories.None? ==> r.0.store == s && r.0.reports == [] && r.0.added == 0 && r.0.skipped == 0
    ensures categories.Some? ==>
              Walked(s, categories.value, "strCategory", selected, fetched, picks, count, now, r.0)
  {
    match categories
    case None => (PartitionRun(s, [s], [], 0, 0), 0)
    case Some(entries) =>
      var run := PartitionSync(s, entries, "strCategory", CategoryLimit, selected, fetched, picks, count, now);
      (run, |run.store| - |s|)
  }
}

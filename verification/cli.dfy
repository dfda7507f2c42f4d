/** The argument handling of the two sync scripts: which sync runs, with
    which budget. `args` is the command line after the script's own name
    (`sys.argv[1:]`); the table size the smart sync consults is a parameter. */
module Cli {
  import opened Wrappers
  import opened Text

  /** The strategy `get_sync_strategy` picks from the number of stored
      recipes: a small table gets the quick sync of 50, a medium one the
      random sync of 30, a large one the category sync of 20. */
  function GetSyncStrategy(current: int): (r: (string, int))
    ensures r.0 == "quick" <==> current < 100
    ensures r.0 == "random" <==> 100 <= current < 500
    ensures r.0 == "category" <==> 500 <= current
    ensures r.0 == "quick" ==> r.1 == 50
    ensures r.0 == "random" ==> r.1 == 30
    ensures r.0 == "category" ==> r.1 == 20
  {
    if current < 100 then ("quick", 50)
    else if current < 500 then ("random", 30)
    else ("category", 20)
  }

  /** The fuller the table, the smaller the budget the strategy asks for. */
  lemma StrategyBudgetShrinks(a: int, b: int)
    requires a <= b
    ensures GetSyncStrategy(b).1 <= GetSyncStrategy(a).1
  {
  }

  /** What the smart sync's `main` goes on to do. `BadCountCrash` is the
      `ValueError` of `int()` on the count argument, raised outside any
      handler; `UnknownStrategyExit` is the exit with status 1. */
  datatype SmartAction =
    | RunQuick(count: int)
    | RunCategory(count: int)
    | RunArea(count: int)
    | UnknownStrategyExit(strategy: string)
    | BadCountCrash

  /** The strategy and the budget before dispatch: given on the command
      line (the strategy lower-cased, the budget 20 unless a second argument
      is given) or else chosen from the table size. `None` as the budget is
      an argument `int()` rejects. */
  function SmartPlan(args: seq<string>, current: int): (r: (string, Option<int>))
    ensures args == [] ==> r == (GetSyncStrategy(current).0, Some(GetSyncStrategy(current).1))
    ensures |args| >= 1 ==> r.0 == Lower(args[0])
    ensures |args| == 1 ==> r.1 == Some(20)
    ensures |args| >= 2 ==> r.1 == ParseInt(args[1])
  {
    if |args| >= 1 then
      (Lower(args[0]), if |args| >= 2 then ParseInt(args[1]) else Some(20))
    else
      var (strategy, count) := GetSyncStrategy(current);
      (strategy, Some(count))
  }

  /** The dispatch of the smart sync's `main`. */
  function SmartMain(args: seq<string>, current: int): (r: SmartAction)
    ensures r == BadCountCrash <==> |args| >= 2 && ParseInt(args[1]).None?
    ensures r.RunQuick? || r.RunCategory? || r.RunArea? ==>
              Some(r.count) == SmartPlan(args, current).1
    ensures r.RunArea? ==> |args| >= 1 && Lower(args[0]) == "area"
    ensures r != BadCountCrash ==>
              && (r.RunQuick? <==> SmartPlan(args, current).0 == "quick")
              && (r.RunCategory? <==> SmartPlan(args, current).0 == "category")
              && (r.RunArea? <==> SmartPlan(args, current).0 == "area")
    ensures r.UnknownStrategyExit? ==>
              r.strategy == SmartPlan(args, current).0
              && r.strategy !in {"quick", "category", "area"}
  {
    Dispatch(SmartPlan(args, current))
  }

  /** The branch `main` takes for a planned strategy and budget. */
  function Dispatch(plan: (string, Option<int>)): SmartAction {
    match plan.1
    case None => BadCountCrash
    case Some(n) =>
      if plan.0 == "quick" then RunQuick(n)
      else if plan.0 == "category" then RunCategory(n)
      else if plan.0 == "area" then RunArea(n)
      else UnknownStrategyExit(plan.0)
  }

  /** Left to choose, the smart sync never runs the area walk, and on a
      table of 100 to 499 recipes it picks the random strategy, which
      `main` has no branch for: it exits instead of syncing. */
  lemma AutomaticNeverArea(current: int)
    ensures !SmartMain([], current).RunArea?
  {
  }

  lemma AutomaticMediumTableExits(current: int)
    requires 100 <= current < 500
    ensures SmartMain([], current) == UnknownStrategyExit("random")
  {
  }

  /** Left to choose, every other table size runs a sync with the
      strategy's budget. */
  lemma AutomaticSmallOrLargeTableSyncs(current: int)
    requires current < 100 || 500 <= current
    ensures SmartMain([], current) == (if current < 100 then RunQuick(50) else RunCategory(20))
  {
  }

  /** The strategy name is read case-insensitively. */
  lemma SmartStrategyCaseInsensitive(name: string, rest: seq<string>, current: int)
    ensures SmartMain([name] + rest, current) == SmartMain([Lower(name)] + rest, current)
  {
    var a, b := [name] + rest, [Lower(name)] + rest;
    LowerIdempotent(name);
    assert a[0] == name && b[0] == Lower(name);
    assert |a| == |b| && (|a| >= 2 ==> a[1] == b[1]);
    assert SmartPlan(a, current) == SmartPlan(b, current);
  }

  /** A budget written out with `str(n)` is read back as `n`. */
  lemma SmartCountRoundTrip(name: string, n: int, current: int)
    requires Lower(name) in {"quick", "category", "area"}
    ensures var r := SmartMain([name, IntToString(n)], current);
            (r.RunQuick? || r.RunCategory? || r.RunArea?) && r.count == n
  {
    ParseIntRoundTrip(n);
  }

  /** What the daily sync's `main` goes on to do. */
  datatype DailyAction = ByCategories(count: int) | RandomSync(count: int)

  /** The daily sync's `main`: the first argument is the budget, kept at 20
      when `int()` rejects it, and the second argument selects the category
      sync when it lower-cases to "category"; anything else, or nothing,
      selects the random sync. */
  function DailyMain(args: seq<string>): (r: DailyAction)
    ensures |args| == 0 || ParseInt(args[0]).None? ==> r.count == 20
    ensures |args| >= 1 && ParseInt(args[0]).Some? ==> r.count == ParseInt(args[0]).value
    ensures r.ByCategories? <==> |args| >= 2 && Lower(args[1]) == "category"
  {
    var count := if |args| >= 1 && ParseInt(args[0]).Some? then ParseInt(args[0]).value else 20;
    if |args| >= 2 && Lower(args[1]) == "category" then ByCategories(count) else RandomSync(count)
  }

  /** With no arguments the daily sync takes 20 random recipes. */
  lemma DailyDefaults()
    ensures DailyMain([]) == RandomSync(20)
  {
  }

  /** An unreadable budget falls back to 20 instead of failing. */
  lemma DailyBadCountKeepsDefault(arg: string, rest: seq<string>)
    requires ParseInt(arg).None?
    ensures DailyMain([arg] + rest).count == 20
  {
    assert ([arg] + rest)[0] == arg;
  }

  /** A budget written out with `str(n)` is read back as `n`, whichever
      method follows. */
  lemma DailyCountRoundTrip(n: int, rest: seq<string>)
    ensures DailyMain([IntToString(n)] + rest).count == n
  {
    ParseIntRoundTrip(n);
    assert ([IntToString(n)] + rest)[0] == IntToString(n);
  }

  /** Any method name other than "category", in any letter case, runs the
      random sync; "area" included. */
  lemma DailyOtherMethodsRunRandom(count: string, choice: string)
    requires Lower(choice) != "category"
    ensures DailyMain([count, choice]).RandomSync?
  {
  }

  lemma DailyMethodCaseInsensitive(count: string, name: string)
    ensures DailyMain([count, name]) == DailyMain([count, Lower(name)])
  {
    LowerIdempotent(name);
  }
}

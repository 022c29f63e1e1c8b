/**
 What a row of the scoreboard says, in terms of the times in the result table alone: when an engine has a
 total, which verdict the totals carry, how often the metrics of a section or a workload were won, and in
 which row a metric is shown.
 */
module WorkloadMeaning {
  import opened Text
  import opened Scoreboard
  import opened Workloads

  // ----- the verdict behind a dictionary of times -----

  ghost predicate Rival(d: seq<Entry>, e: string) { e != "ApexBase" && Get(d, e).Some? }

  /** ApexBase has a time and somebody else has one. */
  ghost predicate Comparable(d: seq<Entry>) { Get(d, "ApexBase").Some? && exists e :: Rival(d, e) }

  /** Below the time of a rival by at least a billionth of it; a rival's time of zero or less cannot be beaten. */
  predicate Beats(a: real, b: real) { b > 0.0 && 1_000_000_000.0 * a <= 999_999_999.0 * b }

  /** Above it by at least a billionth, or not comparable. */
  predicate Trails(a: real, b: real) { b <= 0.0 || 1_000_000_000.0 * a >= 1_000_000_001.0 * b }

  ghost predicate WonBy(d: seq<Entry>) {
    Comparable(d) && forall e :: Rival(d, e) ==> Beats(Get(d, "ApexBase").value, Get(d, e).value)
  }

  ghost predicate LostBy(d: seq<Entry>) {
    Comparable(d) && exists e :: Rival(d, e) && Trails(Get(d, "ApexBase").value, Get(d, e).value)
  }

  lemma JudgeIs(a: real, b: real)
    ensures Judge(a, b) == Win <==> Beats(a, b)
    ensures Judge(a, b) == Slower <==> Trails(a, b)
    ensures Judge(a, b) != Skipped
  {
    JudgeMeans(a, b);
    JudgeDecides(a, b);
    hide Judge;
    assert (1.0 - TOLERANCE) * b == 0.999999999 * b && (1.0 + TOLERANCE) * b == 1.000000001 * b;
  }

  lemma OtherIsRival(d: seq<Entry>, x: real)
    requires IsDict(d)
    ensures x in Others(d) <==> exists e :: Rival(d, e) && Get(d, e) == Some(x)
  {
    OthersByKey(d, x);
    assert APEX == "ApexBase";
    hide Others, Get;
    if RivalTime(d, x) {
      var e :| e != APEX && Get(d, e) == Some(x);
      assert Rival(d, e);
    }
  }

  /** Beating the best rival is beating every rival; trailing the best is trailing some rival. */
  lemma BestRival(a: real, best: real, b: real)
    requires best <= b
    ensures Beats(a, best) ==> Beats(a, b)
    ensures Trails(a, b) ==> Trails(a, best)
  {
  }

  /** The verdict of a dictionary of times, by comparing ApexBase with every rival. */
  lemma VerdictMeans(d: seq<Entry>)
    requires IsDict(d)
    ensures SectionVerdict(d) == Skipped <==> !Comparable(d)
    ensures SectionVerdict(d) == Win <==> WonBy(d)
    ensures SectionVerdict(d) == Slower <==> LostBy(d)
  {
    hide Get, Others, Judge, IsDict, Beats, Trails;
    assert APEX == "ApexBase";
    forall e | Rival(d, e)
      ensures Get(d, e).value in Others(d)
    {
      OtherIsRival(d, Get(d, e).value);
    }
    if Others(d) != [] {
      var best := MinOf(Others(d));
      OtherIsRival(d, best);
      var first :| Rival(d, first) && Get(d, first) == Some(best);
      if Get(d, APEX).Some? {
        var a := Get(d, APEX).value;
        JudgeIs(a, best);
        forall e | Rival(d, e)
          ensures Beats(a, best) ==> Beats(a, Get(d, e).value)
          ensures Trails(a, Get(d, e).value) ==> Trails(a, best)
        {
          BestRival(a, best, Get(d, e).value);
        }
      }
    }
  }

  // ----- the totals of a workload -----

  /** The engine has a time in every one of the metrics. */
  predicate Timed(results: Results, metrics: seq<string>, e: string) {
    forall i :: 0 <= i < |metrics| ==> Get(Lookup(results, metrics[i]), e).Some?
  }

  function TimeSum(results: Results, metrics: seq<string>, e: string): real
    requires Timed(results, metrics, e)
  {
    if metrics == [] then 0.0
    else
      var n := |metrics| - 1;
      TimeSum(results, metrics[..n], e) + Get(Lookup(results, metrics[n]), e).value
  }

  /** The total of an engine that is named and timed in every metric shown. */
  function TotalTime(results: Results, engines: seq<string>, metrics: seq<string>, e: string): Option<real> {
    if e in engines && metrics != [] && Timed(results, metrics, e) then Some(TimeSum(results, metrics, e)) else None
  }

  lemma {:induction false} AvailableTimes(metrics: seq<string>, results: Results, engines: seq<string>, e: string)
    requires e in engines
    ensures
      var rows := RowsOf(metrics, results, engines);
      && (|Available(rows, e)| == |rows| <==> Timed(results, metrics, e))
      && |Available(rows, e)| <= |rows|
      && (Timed(results, metrics, e) ==> Sum(Available(rows, e)) == TimeSum(results, metrics, e))
    decreases |metrics|
  {
    if metrics != [] {
      hide Get, Project, Lookup;
      var n := |metrics| - 1;
      var rest, last := metrics[..n], metrics[n];
      var rows, row := RowsOf(rest, results, engines), Project(Lookup(results, last), engines);
      AvailableTimes(rest, results, engines, e);
      ProjectIs(Lookup(results, last), engines);
      assert RowsOf(metrics, results, engines) == rows + [row];
      assert (rows + [row])[..|rows|] == rows;
      assert Timed(results, metrics, e) <==> Timed(results, rest, e) && Get(row, e).Some? by {
        TimedLast(results, metrics, e);
      }
      if Get(row, e).Some? { SumAppend(Available(rows, e), Get(row, e).value); }
    }
  }

  lemma TimedLast(results: Results, metrics: seq<string>, e: string)
    requires metrics != []
    ensures
      var n := |metrics| - 1;
      Timed(results, metrics, e) <==> Timed(results, metrics[..n], e) && Get(Lookup(results, metrics[n]), e).Some?
  {
    hide Get;
  }

  /** An engine has a total exactly when it is named and timed in every metric shown, and it is the sum of its times. */
  lemma TotalsMean(workload: string, names: seq<string>, results: Results, engines: seq<string>, e: string)
    ensures
      var s := SummaryOf(workload, names, results, engines);
      Get(s.totals, e) == TotalTime(results, engines, s.metrics, e)
  {
    var s := SummaryOf(workload, names, results, engines);
    var rows := RowsOf(s.metrics, results, engines);
    DictOfIs(Totaller(rows), engines);
    if e in engines { AvailableTimes(s.metrics, results, engines, e); }
    hide DictOf, Get, Available, RowsOf, KeptNames, Timed, TimeSum;
  }

  /** Every metric of a shown row has a time for ApexBase. */
  lemma ApexTimed(workload: string, names: seq<string>, results: Results, engines: seq<string>)
    ensures Timed(results, SummaryOf(workload, names, results, engines).metrics, "ApexBase")
  {
    var metrics := SummaryOf(workload, names, results, engines).metrics;
    KeptAre(names, results, engines);
    hide Get, KeptNames;
    forall i | 0 <= i < |metrics|
      ensures Get(Lookup(results, metrics[i]), "ApexBase").Some?
    {
      assert metrics[i] in metrics;
      assert Kept(Lookup(results, metrics[i]), engines);
    }
  }

  /** A rival with a total: named and timed in every metric that the row shows. */
  predicate FullRival(results: Results, engines: seq<string>, metrics: seq<string>, e: string) {
    e in engines && e != "ApexBase" && Timed(results, metrics, e)
  }

  /** The row can carry a label. */
  ghost predicate HasLabel(results: Results, engines: seq<string>, metrics: seq<string>) {
    metrics != [] && "ApexBase" in engines && exists e :: FullRival(results, engines, metrics, e)
  }

  ghost predicate AheadOfAll(results: Results, engines: seq<string>, metrics: seq<string>)
    requires Timed(results, metrics, "ApexBase")
  {
    forall e :: FullRival(results, engines, metrics, e) ==>
      Beats(TimeSum(results, metrics, "ApexBase"), TimeSum(results, metrics, e))
  }

  ghost predicate BehindSome(results: Results, engines: seq<string>, metrics: seq<string>)
    requires Timed(results, metrics, "ApexBase")
  {
    exists e ::
      && FullRival(results, engines, metrics, e)
      && Trails(TimeSum(results, metrics, "ApexBase"), TimeSum(results, metrics, e))
  }

  /** The label compares ApexBase's sum of times with those of every rival timed in every metric of the row. */
  ghost predicate RightLabel(results: Results, engines: seq<string>, s: Summary)
    requires Timed(results, s.metrics, "ApexBase")
  {
    var shown := HasLabel(results, engines, s.metrics);
    && (s.comparison == Skipped <==> !shown)
    && (s.comparison == Win <==> shown && AheadOfAll(results, engines, s.metrics))
    && (s.comparison == Slower <==> shown && BehindSome(results, engines, s.metrics))
  }

  /**
   The label of a row: won exactly when ApexBase's times add up to less than those of every rival timed in every
   metric of the row, by a billionth; lost exactly when they trail those of some such rival; missing exactly when
   there is none, or ApexBase is not named.
   */
  lemma ComparisonMeans(workload: string, names: seq<string>, results: Results, engines: seq<string>)
    ensures
      var s := SummaryOf(workload, names, results, engines);
      Timed(results, s.metrics, "ApexBase") && RightLabel(results, engines, s)
  {
    var s := SummaryOf(workload, names, results, engines);
    ApexTimed(workload, names, results, engines);
    TotalsAreDict(workload, names, results, engines);
    VerdictMeans(s.totals);
    forall e
      ensures Get(s.totals, e) == TotalTime(results, engines, s.metrics, e)
    {
      TotalsMean(workload, names, results, engines, e);
    }
    hide SummaryOf, RightLabel;
    LabelByTotals(results, engines, s);
  }

  lemma TotalsAreDict(workload: string, names: seq<string>, results: Results, engines: seq<string>)
    ensures
      var s := SummaryOf(workload, names, results, engines);
      IsDict(s.totals) && s.comparison == SectionVerdict(s.totals)
  {
    var rows := RowsOf(SummaryOf(workload, names, results, engines).metrics, results, engines);
    DictOfIs(Totaller(rows), engines);
  }

  lemma LabelByTotals(results: Results, engines: seq<string>, s: Summary)
    requires Timed(results, s.metrics, "ApexBase")
    requires s.comparison == Skipped <==> !Comparable(s.totals)
    requires s.comparison == Win <==> WonBy(s.totals)
    requires s.comparison == Slower <==> LostBy(s.totals)
    requires forall e :: Get(s.totals, e) == TotalTime(results, engines, s.metrics, e)
    ensures RightLabel(results, engines, s)
  {
    hide Get, Timed, TimeSum, Beats, Trails;
    forall e
      ensures Rival(s.totals, e) <==> s.metrics != [] && FullRival(results, engines, s.metrics, e)
    {
    }
  }

  // ----- how often -----

  ghost function WonAt(results: Results, names: seq<string>): set<int> {
    set i: int | 0 <= i < |names| && WonBy(Lookup(results, names[i]))
  }

  ghost function LostAt(results: Results, names: seq<string>): set<int> {
    set i: int | 0 <= i < |names| && LostBy(Lookup(results, names[i]))
  }

  ghost function ComparableAt(results: Results, names: seq<string>): set<int> {
    set i: int | 0 <= i < |names| && Comparable(Lookup(results, names[i]))
  }

  function Positions(f: string -> Verdict, names: seq<string>, v: Verdict): set<int> {
    set i: int | 0 <= i < |names| && f(names[i]) == v
  }

  lemma {:induction false} VerdictCount(f: string -> Verdict, names: seq<string>, v: Verdict)
    ensures multiset(Verdicts(f, names))[v] == |Positions(f, names, v)|
    decreases |names|
  {
    if names == [] {
      assert Positions(f, names, v) == {};
    } else {
      var n := |names| - 1;
      VerdictCount(f, names[..n], v);
      PositionsLast(f, names, v);
      hide Positions;
      assert Verdicts(f, names) == Verdicts(f, names[..n]) + [f(names[n])];
    }
  }

  lemma PositionsLast(f: string -> Verdict, names: seq<string>, v: Verdict)
    requires names != []
    ensures
      var n := |names| - 1;
      |Positions(f, names, v)| == |Positions(f, names[..n], v)| + if f(names[n]) == v then 1 else 0
  {
    var n := |names| - 1;
    var before, all := Positions(f, names[..n], v), Positions(f, names, v);
    forall i: int
      ensures i in all <==> i in before || (i == n && f(names[n]) == v)
      ensures i in before ==> i < n
    {
    }
    hide Positions;
    assert all == if f(names[n]) == v then before + {n} else before;
  }

  lemma PositionsDisjoint(f: string -> Verdict, names: seq<string>)
    ensures
      |Positions(f, names, Win) + Positions(f, names, Tie) + Positions(f, names, Slower)|
      == |Positions(f, names, Win)| + |Positions(f, names, Tie)| + |Positions(f, names, Slower)|
  {
    assert Positions(f, names, Win) !! Positions(f, names, Tie);
    assert Positions(f, names, Win) + Positions(f, names, Tie) !! Positions(f, names, Slower);
  }

  /** The section tally counts the metrics that ApexBase won, lost and could be compared in. */
  lemma SectionCounts(names: seq<string>, results: Results)
    requires IsTable(results)
    ensures
      var t := TallyOf(Verdicts(SectionJudge(results), names));
      && t.wins == |WonAt(results, names)| && t.slower == |LostAt(results, names)|
      && t.total == |ComparableAt(results, names)| && t.total == t.wins + t.ties + t.slower
  {
    var f := SectionJudge(results);
    SectionPositions(names, results);
    hide *;
    CountsByPosition(f, names);
  }

  lemma SectionPositions(names: seq<string>, results: Results)
    requires IsTable(results)
    ensures
      var f := SectionJudge(results);
      && Positions(f, names, Win) == WonAt(results, names) && Positions(f, names, Slower) == LostAt(results, names)
      && Positions(f, names, Win) + Positions(f, names, Tie) + Positions(f, names, Slower)
         == ComparableAt(results, names)
  {
    hide Comparable, WonBy, LostBy, SectionVerdict, IsDict;
    forall i | 0 <= i < |names|
      ensures
        var d, v := Lookup(results, names[i]), SectionJudge(results)(names[i]);
        (v == Win <==> WonBy(d)) && (v == Slower <==> LostBy(d)) && (v == Skipped <==> !Comparable(d))
    {
      DictOfTable(results, names[i]);
      VerdictMeans(Lookup(results, names[i]));
    }
    hide Lookup, SectionJudge;
  }

  lemma DictOfTable(results: Results, name: string)
    requires IsTable(results)
    ensures IsDict(Lookup(results, name))
  {
  }

  lemma CountsByPosition(f: string -> Verdict, names: seq<string>)
    ensures
      var t := TallyOf(Verdicts(f, names));
      && t.wins == |Positions(f, names, Win)| && t.slower == |Positions(f, names, Slower)|
      && t.total == |Positions(f, names, Win) + Positions(f, names, Tie) + Positions(f, names, Slower)|
      && t.total == t.wins + t.ties + t.slower
  {
    hide Verdicts, Positions;
    VerdictCount(f, names, Win);
    VerdictCount(f, names, Tie);
    VerdictCount(f, names, Slower);
    PositionsDisjoint(f, names);
  }

  /** Another engine of the list has a time. */
  ghost predicate NamedRival(d: seq<Entry>, engines: seq<string>, e: string) {
    e in engines && e != "ApexBase" && Get(d, e).Some?
  }

  ghost predicate WonAmong(d: seq<Entry>, engines: seq<string>) {
    && Get(d, "ApexBase").Some? && "ApexBase" in engines && (exists e :: NamedRival(d, engines, e))
    && forall e :: NamedRival(d, engines, e) ==> Beats(Get(d, "ApexBase").value, Get(d, e).value)
  }

  /** Without ApexBase among the names every comparable metric counts as lost. */
  ghost predicate LostAmong(d: seq<Entry>, engines: seq<string>) {
    && Get(d, "ApexBase").Some?
    && exists e :: NamedRival(d, engines, e)
         && ("ApexBase" !in engines || Trails(Get(d, "ApexBase").value, Get(d, e).value))
  }

  lemma GroupVerdictMeans(d: seq<Entry>, engines: seq<string>)
    ensures GroupVerdict(d, engines) == Win <==> WonAmong(d, engines)
    ensures GroupVerdict(d, engines) == Slower <==> LostAmong(d, engines)
    ensures GroupVerdict(d, engines) == Skipped <==>
      Get(d, "ApexBase").None? || forall e :: !NamedRival(d, engines, e)
  {
    var p := Project(d, engines);
    assert APEX == "ApexBase";
    ProjectIs(d, engines);
    VerdictMeans(p);
    hide Get, Others, Judge, Project, IsDict, Beats, Trails;
    forall e
      ensures "ApexBase" in engines ==> (Rival(p, e) <==> NamedRival(d, engines, e))
    {
    }
    if Kept(d, engines) {
      var e :| e in engines && e != APEX && Get(d, e).Some?;
      assert NamedRival(d, engines, e) && Rival(p, e);
    }
  }

  ghost function WonAmongAt(results: Results, names: seq<string>, engines: seq<string>): set<int> {
    set i: int | 0 <= i < |names| && WonAmong(Lookup(results, names[i]), engines)
  }

  ghost function LostAmongAt(results: Results, names: seq<string>, engines: seq<string>): set<int> {
    set i: int | 0 <= i < |names| && LostAmong(Lookup(results, names[i]), engines)
  }

  /** The counts of a row are over the metrics that the workload lists. */
  lemma SummaryCounts(workload: string, names: seq<string>, results: Results, engines: seq<string>)
    ensures
      var t := SummaryOf(workload, names, results, engines).tally;
      && t.wins == |WonAmongAt(results, names, engines)| && t.slower == |LostAmongAt(results, names, engines)|
      && t.total == t.wins + t.ties + t.slower
  {
    var f := GroupJudge(results, engines);
    GroupPositions(names, results, engines);
    assert SummaryOf(workload, names, results, engines).tally == TallyOf(Verdicts(f, names));
    hide *;
    CountsByPosition(f, names);
  }

  lemma GroupPositions(names: seq<string>, results: Results, engines: seq<string>)
    ensures
      var f := GroupJudge(results, engines);
      && Positions(f, names, Win) == WonAmongAt(results, names, engines)
      && Positions(f, names, Slower) == LostAmongAt(results, names, engines)
  {
    hide WonAmong, LostAmong, GroupVerdict;
    forall i | 0 <= i < |names|
      ensures
        var d, v := Lookup(results, names[i]), GroupJudge(results, engines)(names[i]);
        (v == Win <==> WonAmong(d, engines)) && (v == Slower <==> LostAmong(d, engines))
    {
      GroupVerdictMeans(Lookup(results, names[i]), engines);
    }
    hide Lookup, GroupJudge;
  }

  // ----- in which row -----

  /** The workload lists a selected metric that can be compared. */
  ghost predicate HasRow(g: Group, selected: seq<string>, results: Results, engines: seq<string>) {
    exists x :: x in g.metrics && x in selected && Kept(Lookup(results, x), engines)
  }

  ghost function RowCount(groups: seq<Group>, selected: seq<string>, results: Results, engines: seq<string>): nat {
    if groups == [] then 0
    else
      RowCount(groups[..|groups| - 1], selected, results, engines)
      + if HasRow(groups[|groups| - 1], selected, results, engines) then 1 else 0
  }

  /** The row shows the workload's selected comparable metrics under its name. */
  ghost predicate IsRowOf(s: Summary, g: Group, selected: seq<string>, results: Results, engines: seq<string>) {
    && s.workload == g.workload
    && forall x :: x in s.metrics <==> x in g.metrics && x in selected && Kept(Lookup(results, x), engines)
  }

  lemma ShownRow(g: Group, selected: seq<string>, results: Results, engines: seq<string>)
    ensures
      var rows := Shown(g.workload, KeepIn(g.metrics, selected), results, engines);
      if HasRow(g, selected, results, engines) then |rows| == 1 && IsRowOf(rows[0], g, selected, results, engines)
      else rows == []
  {
    var names := KeepIn(g.metrics, selected);
    var s := SummaryOf(g.workload, names, results, engines);
    KeepInIs(g.metrics, selected);
    KeptAre(names, results, engines);
    hide Kept, KeepIn, KeptNames, Totals, SectionVerdict, TallyOf;
    assert s.metrics != [] ==> s.metrics[0] in s.metrics;
  }

  lemma {:induction false} GroupRowsAre(groups: seq<Group>, selected: seq<string>, results: Results,
      engines: seq<string>, i: nat)
    requires i < |groups| && HasRow(groups[i], selected, results, engines)
    ensures
      var rows, j := GroupRows(groups, selected, results, engines), RowCount(groups[..i], selected, results, engines);
      && |rows| == RowCount(groups, selected, results, engines)
      && j < |rows| && IsRowOf(rows[j], groups[i], selected, results, engines)
    decreases |groups|
  {
    hide Shown, HasRow, IsRowOf;
    var n := |groups| - 1;
    ShownRow(groups[n], selected, results, engines);
    if i < n {
      GroupRowsAre(groups[..n], selected, results, engines, i);
      assert groups[..n][..i] == groups[..i];
    } else {
      GroupRowCount(groups[..n], selected, results, engines);
    }
  }

  lemma {:induction false} GroupRowCount(groups: seq<Group>, selected: seq<string>, results: Results,
      engines: seq<string>)
    ensures |GroupRows(groups, selected, results, engines)| == RowCount(groups, selected, results, engines)
    decreases |groups|
  {
    hide Shown, HasRow, IsRowOf;
    if groups != [] {
      var n := |groups| - 1;
      ShownRow(groups[n], selected, results, engines);
      GroupRowCount(groups[..n], selected, results, engines);
    }
  }

  /** The rows follow the workloads: each has its own row behind those of the workloads before it. */
  lemma RowOfWorkload(groups: seq<Group>, selected: seq<string>, results: Results, engines: seq<string>, i: nat)
    requires i < |groups| && HasRow(groups[i], selected, results, engines)
    ensures
      var board, j := Board(groups, selected, results, engines), RowCount(groups[..i], selected, results, engines);
      j < |board| && IsRowOf(board[j], groups[i], selected, results, engines)
  {
    GroupRowsAre(groups, selected, results, engines, i);
    hide Shown, IsRowOf, GroupRows, HasRow;
  }
}

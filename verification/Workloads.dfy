/**
 The scoreboard as a whole: the section tally, the summary of one workload, the placement of the
 selected metrics into workloads, and the law that the rows add up to the section tally.
 */
module Workloads {
  import opened Text
  import opened Scoreboard

  // ----- tallies -----

  datatype Tally = Tally(total: nat, wins: nat, ties: nat, slower: nat)

  function Add(a: Tally, b: Tally): Tally {
    Tally(a.total + b.total, a.wins + b.wins, a.ties + b.ties, a.slower + b.slower)
  }

  function Verdicts(f: string -> Verdict, names: seq<string>): (vs: seq<Verdict>)
    ensures |vs| == |names| && forall i :: 0 <= i < |names| ==> vs[i] == f(names[i])
  {
    if names == [] then [] else Verdicts(f, names[..|names| - 1]) + [f(names[|names| - 1])]
  }

  function TallyOf(vs: seq<Verdict>): Tally {
    var m := multiset(vs);
    Tally(m[Win] + m[Tie] + m[Slower], m[Win], m[Tie], m[Slower])
  }

  lemma TallyAppends(a: seq<Verdict>, b: seq<Verdict>)
    ensures TallyOf(a + b) == Add(TallyOf(a), TallyOf(b))
  {
    var m, n := multiset(a), multiset(b);
    assert multiset(a + b) == m + n;
    assert (m + n)[Win] == m[Win] + n[Win];
    assert (m + n)[Tie] == m[Tie] + n[Tie];
    assert (m + n)[Slower] == m[Slower] + n[Slower];
  }

  lemma {:induction false} VerdictsAppend(f: string -> Verdict, a: seq<string>, b: seq<string>)
    ensures Verdicts(f, a + b) == Verdicts(f, a) + Verdicts(f, b)
  {
  }

  function SectionJudge(results: Results): string -> Verdict { name => SectionVerdict(Lookup(results, name)) }

  function GroupJudge(results: Results, engines: seq<string>): string -> Verdict {
    name => GroupVerdict(Lookup(results, name), engines)
  }

  /** `summarize_apex_section` counts the verdicts on the listed metrics. */
  method SummarizeSection(names: seq<string>, results: Results) returns (t: Tally)
    ensures t == TallyOf(Verdicts(SectionJudge(results), names))
  {
    hide TallyOf, Get, Others, Judge, Verdicts;
    var wins, ties, total := 0, 0, 0;
    ghost var judge := SectionJudge(results);
    TallyNone(judge);
    for i := 0 to |names|
      invariant wins + ties <= total
      invariant Tally(total, wins, ties, total - wins - ties) == TallyOf(Verdicts(judge, names[..i]))
    {
      TallyNext(judge, names, i);
      var vals := Lookup(results, names[i]);
      var apex, others := Get(vals, APEX), Others(vals);
      if apex.None? || others == [] { continue; }
      total := total + 1;
      JudgeDecides(apex.value, MinOf(others));
      var verdict := Judge(apex.value, MinOf(others));
      if verdict == Tie { ties := ties + 1; } else if verdict == Win { wins := wins + 1; }
    }
    assert names[..|names|] == names;
    t := Tally(total, wins, ties, total - wins - ties);
  }

  function One(v: Verdict): Tally {
    Tally(if v == Skipped then 0 else 1, if v == Win then 1 else 0, if v == Tie then 1 else 0,
        if v == Slower then 1 else 0)
  }

  lemma JudgeDecides(apex: real, best: real)
    ensures Judge(apex, best) != Skipped
  {
  }

  lemma TallyNone(f: string -> Verdict)
    ensures TallyOf(Verdicts(f, [])) == Tally(0, 0, 0, 0)
  {
  }

  lemma TallyNext(f: string -> Verdict, names: seq<string>, i: nat)
    requires i < |names|
    ensures TallyOf(Verdicts(f, names[..i + 1])) == Add(TallyOf(Verdicts(f, names[..i])), One(f(names[i])))
  {
    hide TallyOf;
    assert names[..i + 1][..i] == names[..i];
    TallyAppends(Verdicts(f, names[..i]), [f(names[i])]);
    TallyOne(f(names[i]));
  }

  lemma TallyOne(v: Verdict)
    ensures TallyOf([v]) == One(v)
  {
  }

  lemma SplitOff(a: seq<string>, p: seq<string>, q: seq<string>, x: string)
    requires multiset(a + [x]) == multiset(p + [x] + q)
    ensures multiset(a) == multiset(p + q)
  {
    assert multiset(a) == multiset(a + [x]) - multiset{x};
    assert multiset(p + q) == multiset(p + [x] + q) - multiset{x};
  }

  /** A tally does not depend on the order of the metrics. */
  lemma {:induction false} VerdictsPermute(f: string -> Verdict, a: seq<string>, b: seq<string>)
    requires multiset(a) == multiset(b)
    ensures multiset(Verdicts(f, a)) == multiset(Verdicts(f, b))
    decreases |a|
  {
    hide Verdicts;
    if a == [] {
      assert |b| == |multiset(b)| == 0;
    } else {
      var x := a[|a| - 1];
      var a' := a[..|a| - 1];
      assert a == a' + [x];
      assert x in multiset(b);
      var i :| 0 <= i < |b| && b[i] == x;
      var p, q := b[..i], b[i + 1..];
      assert b == p + [x] + q;
      SplitOff(a', p, q, x);
      VerdictsPermute(f, a', p + q);
      VerdictsAppend(f, a', [x]);
      VerdictsAppend(f, p + [x], q);
      VerdictsAppend(f, p, [x]);
      VerdictsAppend(f, p, q);
      assert Verdicts(f, [x]) == [f(x)];
    }
  }

  // ----- one workload -----

  function KeptNames(names: seq<string>, results: Results, engines: seq<string>): seq<string> {
    if names == [] then []
    else
      var last := names[|names| - 1];
      KeptNames(names[..|names| - 1], results, engines) + if Kept(Lookup(results, last), engines) then [last] else []
  }

  /** The rows of a workload: each kept metric's times under the engine names. */
  function RowsOf(kept: seq<string>, results: Results, engines: seq<string>): (rows: seq<seq<Entry>>)
    ensures |rows| == |kept|
    ensures forall i :: 0 <= i < |kept| ==> rows[i] == Project(Lookup(results, kept[i]), engines)
  {
    if kept == [] then []
    else RowsOf(kept[..|kept| - 1], results, engines) + [Project(Lookup(results, kept[|kept| - 1]), engines)]
  }

  function Available(rows: seq<seq<Entry>>, engine: string): seq<real> {
    if rows == [] then []
    else
      var ms := Get(rows[|rows| - 1], engine);
      Available(rows[..|rows| - 1], engine) + if ms.Some? then [ms.value] else []
  }

  function Sum(xs: seq<real>): real {
    if xs == [] then 0.0 else Sum(xs[..|xs| - 1]) + xs[|xs| - 1]
  }

  /** An engine has a total only when it has a time in every row. */
  function TotalOf(rows: seq<seq<Entry>>, engine: string): Option<real> {
    var available := Available(rows, engine);
    if available != [] && |available| == |rows| then Some(Sum(available)) else None
  }

  function Totaller(rows: seq<seq<Entry>>): string -> Option<real> { e => TotalOf(rows, e) }

  function Totals(rows: seq<seq<Entry>>, engines: seq<string>): seq<Entry> { DictOf(Totaller(rows), engines) }

  /** `comparison` is the verdict behind `apex_vs_best_total`; `Skipped` stands for no label. */
  datatype Summary = Summary(workload: string, metrics: seq<string>, totals: seq<Entry>, comparison: Verdict,
      tally: Tally)

  function SummaryOf(workload: string, names: seq<string>, results: Results, engines: seq<string>): Summary {
    var kept := KeptNames(names, results, engines);
    var totals := Totals(RowsOf(kept, results, engines), engines);
    Summary(workload, kept, totals, SectionVerdict(totals), TallyOf(Verdicts(GroupJudge(results, engines), names)))
  }

  /** The verdict on a row that was kept. */
  function RowVerdict(row: seq<Entry>): Verdict {
    if Get(row, APEX).None? || Others(row) == [] then Slower else Judge(Get(row, APEX).value, MinOf(Others(row)))
  }

  function RowVerdicts(rows: seq<seq<Entry>>): (vs: seq<Verdict>)
    ensures |vs| == |rows| && forall i :: 0 <= i < |rows| ==> vs[i] == RowVerdict(rows[i])
  {
    if rows == [] then [] else RowVerdicts(rows[..|rows| - 1]) + [RowVerdict(rows[|rows| - 1])]
  }

  /** Counting the kept rows is counting the group verdicts. */
  lemma {:induction false} RowsTally(names: seq<string>, results: Results, engines: seq<string>)
    ensures
      TallyOf(RowVerdicts(RowsOf(KeptNames(names, results, engines), results, engines)))
      == TallyOf(Verdicts(GroupJudge(results, engines), names))
    decreases |names|
  {
    hide RowVerdict, TallyOf, Kept, Project;
    if names != [] {
      var rest, last := names[..|names| - 1], names[|names| - 1];
      RowsTally(rest, results, engines);
      var judge, kept := GroupJudge(results, engines), KeptNames(rest, results, engines);
      var d := Lookup(results, last);
      TallyAppends(Verdicts(judge, rest), [judge(last)]);
      TallyOne(judge(last));
      KeptVerdict(d, engines);
      if Kept(d, engines) {
        var rows := RowsOf(kept, results, engines);
        assert (kept + [last])[..|kept|] == kept;
        assert RowsOf(kept + [last], results, engines) == rows + [Project(d, engines)];
        assert (rows + [Project(d, engines)])[..|rows|] == rows;
        TallyAppends(RowVerdicts(rows), [RowVerdict(Project(d, engines))]);
      } else {
        assert KeptNames(names, results, engines) == kept;
      }
    }
  }

  lemma KeptVerdict(d: seq<Entry>, engines: seq<string>)
    ensures GroupVerdict(d, engines) == if Kept(d, engines) then RowVerdict(Project(d, engines)) else Skipped
  {
  }

  lemma {:induction false} NoSkippedRows(rows: seq<seq<Entry>>)
    ensures TallyOf(RowVerdicts(rows)).total == |rows|
    decreases |rows|
  {
    if rows != [] {
      var rest, last := rows[..|rows| - 1], rows[|rows| - 1];
      NoSkippedRows(rest);
      TallyAppends(RowVerdicts(rest), [RowVerdict(last)]);
      TallyOne(RowVerdict(last));
      hide RowVerdict, TallyOf;
    }
  }

  /** `metric_count` is the total of the row's verdicts. */
  lemma CountIsTotal(workload: string, names: seq<string>, results: Results, engines: seq<string>)
    ensures
      var s := SummaryOf(workload, names, results, engines);
      |s.metrics| == s.tally.total
  {
    RowsTally(names, results, engines);
    NoSkippedRows(RowsOf(KeptNames(names, results, engines), results, engines));
  }

  /** `summarize_workload_group` */
  method SummarizeGroup(workload: string, names: seq<string>, results: Results, engines: seq<string>)
    returns (s: Summary)
    ensures s == SummaryOf(workload, names, results, engines)
  {
    var metrics, rows := CollectRows(names, results, engines);
    var totals: seq<Entry> := [];
    for i := 0 to |engines|
      invariant totals == Totals(rows, engines[..i])
    {
      assert engines[..i + 1][..i] == engines[..i];
      hide TotalOf, HasKey;
      var e := engines[i];
      if !HasKey(totals, e) { totals := totals + [Entry(e, TotalOf(rows, e))]; }
    }
    assert engines[..|engines|] == engines;
    var tally := TallyRows(rows);
    RowsTally(names, results, engines);
    hide Get, Others;
    var apexTotal, otherTotals := Get(totals, APEX), Others(totals);
    var comparison := Skipped;
    if apexTotal.Some? && otherTotals != [] { comparison := Judge(apexTotal.value, MinOf(otherTotals)); }
    s := Summary(workload, metrics, totals, comparison, tally);
  }

  method CollectRows(names: seq<string>, results: Results, engines: seq<string>)
    returns (metrics: seq<string>, rows: seq<seq<Entry>>)
    ensures metrics == KeptNames(names, results, engines) && rows == RowsOf(metrics, results, engines)
  {
    metrics, rows := [], [];
    for i := 0 to |names|
      invariant metrics == KeptNames(names[..i], results, engines) && rows == RowsOf(metrics, results, engines)
    {
      assert names[..i + 1][..i] == names[..i];
      hide Kept, Project;
      var d := Lookup(results, names[i]);
      if Kept(d, engines) {
        assert (metrics + [names[i]])[..|metrics|] == metrics;
        metrics, rows := metrics + [names[i]], rows + [Project(d, engines)];
      }
    }
    assert names[..|names|] == names;
  }

  lemma RowTallyNone()
    ensures TallyOf(RowVerdicts([])) == Tally(0, 0, 0, 0)
  {
  }

  lemma RowTallyNext(rows: seq<seq<Entry>>, i: nat)
    requires i < |rows|
    ensures TallyOf(RowVerdicts(rows[..i + 1])) == Add(TallyOf(RowVerdicts(rows[..i])), One(RowVerdict(rows[i])))
  {
    hide TallyOf, RowVerdict;
    assert rows[..i + 1][..i] == rows[..i];
    TallyAppends(RowVerdicts(rows[..i]), [RowVerdict(rows[i])]);
    TallyOne(RowVerdict(rows[i]));
  }

  method TallyRows(rows: seq<seq<Entry>>) returns (t: Tally)
    ensures t == TallyOf(RowVerdicts(rows))
  {
    hide TallyOf, Get, Others, Judge, RowVerdicts;
    var wins, ties := 0, 0;
    RowTallyNone();
    for i := 0 to |rows|
      invariant wins + ties <= i
      invariant Tally(i, wins, ties, i - wins - ties) == TallyOf(RowVerdicts(rows[..i]))
    {
      RowTallyNext(rows, i);
      var apex, others := Get(rows[i], APEX), Others(rows[i]);
      if apex.None? || others == [] { continue; }
      JudgeDecides(apex.value, MinOf(others));
      var verdict := Judge(apex.value, MinOf(others));
      if verdict == Tie { ties := ties + 1; } else if verdict == Win { wins := wins + 1; }
    }
    assert rows[..|rows|] == rows;
    t := Tally(|rows|, wins, ties, |rows| - wins - ties);
  }

  // ----- placing the metrics -----

  datatype Group = Group(workload: string, metrics: seq<string>)

  function KeepIn(xs: seq<string>, ys: seq<string>): seq<string> {
    if xs == [] then []
    else KeepIn(xs[..|xs| - 1], ys) + if xs[|xs| - 1] in ys then [xs[|xs| - 1]] else []
  }

  function KeepOut(xs: seq<string>, ys: seq<string>): seq<string> {
    if xs == [] then []
    else KeepOut(xs[..|xs| - 1], ys) + if xs[|xs| - 1] in ys then [] else [xs[|xs| - 1]]
  }

  /** The selected metrics that the workloads list, in the order of the workloads. */
  function Placed(groups: seq<Group>, selected: seq<string>): seq<string> {
    if groups == [] then []
    else Placed(groups[..|groups| - 1], selected) + KeepIn(groups[|groups| - 1].metrics, selected)
  }

  function Ungrouped(groups: seq<Group>, selected: seq<string>): seq<string> {
    KeepOut(selected, Placed(groups, selected))
  }

  /** A workload is shown when it has a metric to show. */
  function Shown(workload: string, names: seq<string>, results: Results, engines: seq<string>): seq<Summary> {
    var s := SummaryOf(workload, names, results, engines);
    if s.metrics == [] then [] else [s]
  }

  function GroupRows(groups: seq<Group>, selected: seq<string>, results: Results, engines: seq<string>): seq<Summary> {
    if groups == [] then []
    else
      var g := groups[|groups| - 1];
      GroupRows(groups[..|groups| - 1], selected, results, engines)
      + Shown(g.workload, KeepIn(g.metrics, selected), results, engines)
  }

  function Board(groups: seq<Group>, selected: seq<string>, results: Results, engines: seq<string>): seq<Summary> {
    GroupRows(groups, selected, results, engines) + Shown("Other", Ungrouped(groups, selected), results, engines)
  }

  /** `build_fair_workload_scoreboard` over any list of workloads. */
  method BuildScoreboard(results: Results, engines: seq<string>, selected: seq<string>, groups: seq<Group>)
    returns (board: seq<Summary>)
    ensures board == Board(groups, selected, results, engines)
  {
    board := [];
    var grouped: set<string> := {};
    for i := 0 to |groups|
      invariant board == GroupRows(groups[..i], selected, results, engines)
      invariant forall x :: x in grouped <==> x in Placed(groups[..i], selected)
    {
      assert groups[..i + 1][..i] == groups[..i];
      var names := Filter(groups[i].metrics, selected);
      if names == [] { continue; }
      grouped := grouped + set x | x in names;
      var summary := SummarizeGroup(groups[i].workload, names, results, engines);
      hide SummaryOf, KeepIn;
      if |summary.metrics| > 0 { board := board + [summary]; }
    }
    assert groups[..|groups|] == groups;
    var uncategorized := FilterOut(selected, grouped, Placed(groups, selected));
    if uncategorized != [] {
      var summary := SummarizeGroup("Other", uncategorized, results, engines);
      hide SummaryOf, KeepOut, GroupRows;
      if |summary.metrics| > 0 { board := board + [summary]; }
    }
  }

  method Filter(xs: seq<string>, ys: seq<string>) returns (r: seq<string>)
    ensures r == KeepIn(xs, ys)
  {
    r := [];
    for i := 0 to |xs|
      invariant r == KeepIn(xs[..i], ys)
    {
      assert xs[..i + 1][..i] == xs[..i];
      if xs[i] in ys { r := r + [xs[i]]; }
    }
    assert xs[..|xs|] == xs;
  }

  method FilterOut(xs: seq<string>, grouped: set<string>, ghost placed: seq<string>) returns (r: seq<string>)
    requires forall x :: x in grouped <==> x in placed
    ensures r == KeepOut(xs, placed)
  {
    r := [];
    for i := 0 to |xs|
      invariant r == KeepOut(xs[..i], placed)
    {
      assert xs[..i + 1][..i] == xs[..i];
      if xs[i] !in grouped { r := r + [xs[i]]; }
    }
    assert xs[..|xs|] == xs;
  }

  // ----- every selected metric is placed once -----

  predicate Distinct(s: seq<string>) { forall i, j :: 0 <= i < j < |s| ==> s[i] != s[j] }

  lemma {:induction false} DistinctCounts(s: seq<string>, x: string)
    requires Distinct(s)
    ensures multiset(s)[x] == if x in s then 1 else 0
    decreases |s|
  {
    if s != [] {
      var rest, last := s[..|s| - 1], s[|s| - 1];
      assert s == rest + [last];
      DistinctCounts(rest, x);
    }
  }

  lemma {:induction false} CountsDistinct(s: seq<string>)
    requires forall x :: multiset(s)[x] <= 1
    ensures Distinct(s)
    decreases |s|
  {
    if s != [] {
      var rest, last := s[..|s| - 1], s[|s| - 1];
      assert s == rest + [last];
      assert forall x :: multiset(rest)[x] <= multiset(s)[x];
      CountsDistinct(rest);
      assert last !in rest by {
        assert multiset(s)[last] == multiset(rest)[last] + 1;
      }
    }
  }

  lemma {:induction false} KeepOutIs(xs: seq<string>, ys: seq<string>)
    ensures forall x :: x in KeepOut(xs, ys) <==> x in xs && x !in ys
    ensures Distinct(xs) ==> Distinct(KeepOut(xs, ys))
    decreases |xs|
  {
    if xs != [] {
      var rest, last := xs[..|xs| - 1], xs[|xs| - 1];
      assert xs == rest + [last];
      KeepOutIs(rest, ys);
    }
  }

  lemma {:induction false} KeepInIs(xs: seq<string>, ys: seq<string>)
    ensures forall x :: x in KeepIn(xs, ys) <==> x in xs && x in ys
    ensures forall x :: multiset(KeepIn(xs, ys))[x] <= multiset(xs)[x]
    decreases |xs|
  {
    if xs != [] {
      var rest, last := xs[..|xs| - 1], xs[|xs| - 1];
      assert xs == rest + [last];
      KeepInIs(rest, ys);
    }
  }

  function Listed(groups: seq<Group>): seq<string> {
    if groups == [] then [] else Listed(groups[..|groups| - 1]) + groups[|groups| - 1].metrics
  }

  lemma {:induction false} PlacedIs(groups: seq<Group>, selected: seq<string>)
    ensures forall x :: x in Placed(groups, selected) <==> x in selected && x in Listed(groups)
    ensures forall x :: multiset(Placed(groups, selected))[x] <= multiset(Listed(groups))[x]
    decreases |groups|
  {
    if groups != [] {
      PlacedIs(groups[..|groups| - 1], selected);
      KeepInIs(groups[|groups| - 1].metrics, selected);
      hide KeepIn;
    }
  }

  /** Workloads that share no metric place none twice. */
  lemma DisjointGroupsPlaceOnce(groups: seq<Group>, selected: seq<string>)
    requires Distinct(Listed(groups))
    ensures Distinct(Placed(groups, selected))
  {
    PlacedIs(groups, selected);
    forall x
      ensures multiset(Placed(groups, selected))[x] <= 1
    {
      DistinctCounts(Listed(groups), x);
    }
    CountsDistinct(Placed(groups, selected));
  }

  /**
   A repeat-free selection is spread over the rows without loss or repetition exactly when no selected metric
   is listed twice.
   */
  lemma PlacedOnceExactly(groups: seq<Group>, selected: seq<string>)
    requires Distinct(selected)
    ensures
      multiset(Placed(groups, selected) + Ungrouped(groups, selected)) == multiset(selected)
      <==> Distinct(Placed(groups, selected))
  {
    var placed, other := Placed(groups, selected), Ungrouped(groups, selected);
    PlacedIs(groups, selected);
    KeepOutIs(selected, placed);
    hide Placed, KeepOut, Distinct;
    assert multiset(placed + other) == multiset(placed) + multiset(other);
    forall x
      ensures multiset(selected)[x] == if x in selected then 1 else 0
      ensures multiset(other)[x] == if x in selected && x !in placed then 1 else 0
    {
      DistinctCounts(selected, x);
      DistinctCounts(other, x);
    }
    if Distinct(placed) {
      forall x
        ensures multiset(placed + other)[x] == multiset(selected)[x]
      {
        DistinctCounts(placed, x);
      }
    }
    if multiset(placed + other) == multiset(selected) {
      assert forall x :: multiset(placed)[x] <= multiset(placed + other)[x] == multiset(selected)[x] <= 1;
      CountsDistinct(placed);
    }
  }

  // ----- the rows add up -----

  function BoardTally(board: seq<Summary>): Tally {
    if board == [] then Tally(0, 0, 0, 0) else Add(BoardTally(board[..|board| - 1]), board[|board| - 1].tally)
  }

  function MetricCount(board: seq<Summary>): nat {
    if board == [] then 0 else MetricCount(board[..|board| - 1]) + |board[|board| - 1].metrics|
  }

  function AllMetrics(board: seq<Summary>): seq<string> {
    if board == [] then [] else AllMetrics(board[..|board| - 1]) + board[|board| - 1].metrics
  }

  /** Adding a workload's row, or dropping it when empty, adds its verdicts. */
  lemma ShownAdds(board: seq<Summary>, workload: string, names: seq<string>, results: Results, engines: seq<string>)
    ensures
      var b := board + Shown(workload, names, results, engines);
      && BoardTally(b) == Add(BoardTally(board), TallyOf(Verdicts(GroupJudge(results, engines), names)))
      && AllMetrics(b) == AllMetrics(board) + KeptNames(names, results, engines)
      && (MetricCount(board) == BoardTally(board).total ==> MetricCount(b) == BoardTally(b).total)
  {
    var s := SummaryOf(workload, names, results, engines);
    CountIsTotal(workload, names, results, engines);
    EmptyTally(Verdicts(GroupJudge(results, engines), names));
    hide KeptNames, Totals, TallyOf, SectionVerdict;
    if s.metrics == [] {
      assert board + Shown(workload, names, results, engines) == board;
    } else {
      assert (board + [s])[..|board|] == board;
    }
  }

  lemma EmptyTally(vs: seq<Verdict>)
    ensures TallyOf(vs).total == 0 ==> TallyOf(vs) == Tally(0, 0, 0, 0)
  {
  }

  lemma {:induction false} KeptAppend(a: seq<string>, b: seq<string>, results: Results, engines: seq<string>)
    ensures KeptNames(a + b, results, engines) == KeptNames(a, results, engines) + KeptNames(b, results, engines)
    decreases |b|
  {
    hide Kept;
    if b == [] {
      assert a + b == a;
    } else {
      var rest := b[..|b| - 1];
      assert (a + b)[..|a + b| - 1] == a + rest;
      KeptAppend(a, rest, results, engines);
    }
  }

  lemma {:induction false} GroupRowsAdd(groups: seq<Group>, selected: seq<string>, results: Results,
      engines: seq<string>)
    ensures
      var rows, placed := GroupRows(groups, selected, results, engines), Placed(groups, selected);
      && BoardTally(rows) == TallyOf(Verdicts(GroupJudge(results, engines), placed))
      && AllMetrics(rows) == KeptNames(placed, results, engines)
      && MetricCount(rows) == BoardTally(rows).total
    decreases |groups|
  {
    hide Shown, TallyOf, KeepIn, Verdicts;
    if groups == [] {
      TallyNone(GroupJudge(results, engines));
    } else {
      var rest, g := groups[..|groups| - 1], groups[|groups| - 1];
      var names := KeepIn(g.metrics, selected);
      GroupRowsAdd(rest, selected, results, engines);
      ShownAdds(GroupRows(rest, selected, results, engines), g.workload, names, results, engines);
      JoinTally(GroupJudge(results, engines), Placed(rest, selected), names);
      KeptAppend(Placed(rest, selected), names, results, engines);
    }
  }

  lemma JoinTally(f: string -> Verdict, a: seq<string>, b: seq<string>)
    ensures TallyOf(Verdicts(f, a + b)) == Add(TallyOf(Verdicts(f, a)), TallyOf(Verdicts(f, b)))
  {
    VerdictsAppend(f, a, b);
    TallyAppends(Verdicts(f, a), Verdicts(f, b));
  }

  /** For any selection and workloads at all, the rows count what was placed, then what was not. */
  lemma BoardAdds(groups: seq<Group>, selected: seq<string>, results: Results, engines: seq<string>)
    ensures
      var board := Board(groups, selected, results, engines);
      var all := Placed(groups, selected) + Ungrouped(groups, selected);
      && BoardTally(board) == TallyOf(Verdicts(GroupJudge(results, engines), all))
      && AllMetrics(board) == KeptNames(all, results, engines)
      && MetricCount(board) == BoardTally(board).total
  {
    hide Shown, TallyOf, Verdicts, GroupRows, Placed, Ungrouped;
    var placed, other := Placed(groups, selected), Ungrouped(groups, selected);
    GroupRowsAdd(groups, selected, results, engines);
    ShownAdds(GroupRows(groups, selected, results, engines), "Other", other, results, engines);
    JoinTally(GroupJudge(results, engines), placed, other);
    KeptAppend(placed, other, results, engines);
  }

  /** ApexBase and every key of the table are engine names. */
  predicate EnginesCover(results: Results, engines: seq<string>) {
    APEX in engines && forall name :: name in results ==> KeysIn(results[name], engines)
  }

  predicate KeysIn(d: seq<Entry>, engines: seq<string>) { forall i :: 0 <= i < |d| ==> d[i].engine in engines }

  lemma {:induction false} JudgesAgree(names: seq<string>, results: Results, engines: seq<string>)
    requires IsTable(results) && EnginesCover(results, engines)
    ensures Verdicts(GroupJudge(results, engines), names) == Verdicts(SectionJudge(results), names)
  {
    var f, g := GroupJudge(results, engines), SectionJudge(results);
    hide Verdicts, GroupVerdict, SectionVerdict, IsDict, KeysIn;
    forall name
      ensures f(name) == g(name)
    {
      LookupAgrees(name, results, engines);
    }
  }

  lemma LookupAgrees(name: string, results: Results, engines: seq<string>)
    requires IsTable(results) && EnginesCover(results, engines)
    ensures GroupVerdict(Lookup(results, name), engines) == SectionVerdict(Lookup(results, name))
  {
    hide GroupVerdict, SectionVerdict;
    VerdictsAgree(Lookup(results, name), engines);
  }

  /** The scoreboard's counts sum to the section's, for every table and every repeat-free selection. */
  lemma TalliesAgree(groups: seq<Group>, selected: seq<string>, results: Results, engines: seq<string>)
    requires IsTable(results) && EnginesCover(results, engines)
    requires Distinct(selected) && Distinct(Placed(groups, selected))
    ensures
      var board := Board(groups, selected, results, engines);
      var section := TallyOf(Verdicts(SectionJudge(results), selected));
      && BoardTally(board) == section
      && MetricCount(board) == section.total
  {
    var judge, all := GroupJudge(results, engines), Placed(groups, selected) + Ungrouped(groups, selected);
    BoardAdds(groups, selected, results, engines);
    PlacedOnceExactly(groups, selected);
    VerdictsPermute(judge, all, selected);
    JudgesAgree(selected, results, engines);
    hide Board, Verdicts, Placed, Ungrouped, IsTable, EnginesCover, Distinct;
  }

  // ----- where a metric is shown -----

  lemma {:induction false} KeptAre(names: seq<string>, results: Results, engines: seq<string>)
    ensures forall x :: x in KeptNames(names, results, engines) <==> x in names && Kept(Lookup(results, x), engines)
    ensures Distinct(names) ==> Distinct(KeptNames(names, results, engines))
    decreases |names|
  {
    hide Kept;
    if names != [] {
      var rest, last := names[..|names| - 1], names[|names| - 1];
      assert names == rest + [last];
      KeptAre(rest, results, engines);
    }
  }

  /** Every comparable metric of the selection is shown once, and nothing else is. */
  lemma ShownOnce(groups: seq<Group>, selected: seq<string>, results: Results, engines: seq<string>, x: string)
    requires Distinct(selected) && Distinct(Placed(groups, selected))
    ensures
      multiset(AllMetrics(Board(groups, selected, results, engines)))[x]
      == if x in selected && Kept(Lookup(results, x), engines) then 1 else 0
  {
    hide Kept, Board, Placed, Ungrouped;
    var all := Placed(groups, selected) + Ungrouped(groups, selected);
    BoardAdds(groups, selected, results, engines);
    PlacedOnceExactly(groups, selected);
    assert Distinct(all) by {
      forall y
        ensures multiset(all)[y] <= 1
      {
        DistinctCounts(selected, y);
      }
      CountsDistinct(all);
    }
    assert x in all <==> x in selected by { assert x in multiset(all) <==> x in multiset(selected); }
    KeptAre(all, results, engines);
    hide Distinct;
    DistinctCounts(KeptNames(all, results, engines), x);
  }

  /** A comparable metric that no workload lists is shown in the last row, "Other". */
  lemma UngroupedInOther(groups: seq<Group>, selected: seq<string>, results: Results, engines: seq<string>, x: string)
    requires x in selected && x !in Listed(groups) && Kept(Lookup(results, x), engines)
    ensures
      var board := Board(groups, selected, results, engines);
      && board != []
      && board[|board| - 1].workload == "Other" && x in board[|board| - 1].metrics
      && x !in AllMetrics(board[..|board| - 1])
  {
    var placed, other := Placed(groups, selected), Ungrouped(groups, selected);
    PlacedIs(groups, selected);
    KeepOutIs(selected, placed);
    KeptAre(other, results, engines);
    KeptAre(placed, results, engines);
    GroupRowsAdd(groups, selected, results, engines);
    hide Kept, KeptNames, GroupRows, Placed, Listed, Totals, SectionVerdict, TallyOf, KeepOut;
    var rows := GroupRows(groups, selected, results, engines);
    var s := SummaryOf("Other", other, results, engines);
    assert x in s.metrics;
    assert (rows + [s])[..|rows|] == rows;
  }

  // ----- totals of a workload -----

  predicate Swept(rows: seq<seq<Entry>>) { forall i :: 0 <= i < |rows| ==> RowVerdict(rows[i]) == Win }

  lemma {:induction false} AvailableFull(rows: seq<seq<Entry>>, engine: string)
    ensures |Available(rows, engine)| <= |rows|
    ensures |Available(rows, engine)| == |rows| <==> forall i :: 0 <= i < |rows| ==> Get(rows[i], engine).Some?
    decreases |rows|
  {
    hide Get;
    if rows != [] {
      AvailableFull(rows[..|rows| - 1], engine);
    }
  }

  /** In a won row ApexBase beats each rival by the tolerance. */
  lemma WonRow(row: seq<Entry>, rival: string)
    requires IsDict(row) && RowVerdict(row) == Win && rival != APEX && Get(row, rival).Some?
    ensures Get(row, APEX).Some?
    ensures Get(row, rival).value > 0.0
    ensures Get(row, APEX).value <= (1.0 - TOLERANCE) * Get(row, rival).value
  {
    hide Get, Others, Judge;
    var a, x, best := Get(row, APEX).value, Get(row, rival).value, MinOf(Others(row));
    assert RivalTime(row, x);
    OthersByKey(row, x);
    JudgeMeans(a, best);
    assert (1.0 - TOLERANCE) * (x - best) >= 0.0;
  }

  lemma {:induction false} SweptSums(rows: seq<seq<Entry>>, rival: string)
    requires Swept(rows) && rival != APEX && forall i :: 0 <= i < |rows| ==>
      IsDict(rows[i]) && Get(rows[i], rival).Some?
    ensures |Available(rows, APEX)| == |rows| == |Available(rows, rival)|
    ensures Sum(Available(rows, APEX)) <= (1.0 - TOLERANCE) * Sum(Available(rows, rival))
    ensures rows != [] ==> Sum(Available(rows, rival)) > 0.0
    decreases |rows|
  {
    hide Get, RowVerdict;
    if rows != [] {
      var rest, row := rows[..|rows| - 1], rows[|rows| - 1];
      SweptSums(rest, rival);
      WonRow(row, rival);
      var p, q := Available(rest, APEX), Available(rest, rival);
      SumAppend(p, Get(row, APEX).value);
      SumAppend(q, Get(row, rival).value);
      Distribute(1.0 - TOLERANCE, Sum(q), Get(row, rival).value);
    }
  }

  lemma SumAppend(xs: seq<real>, x: real)
    ensures Sum(xs + [x]) == Sum(xs) + x
  {
    assert (xs + [x])[..|xs|] == xs;
  }

  lemma Distribute(m: real, a: real, b: real)
    ensures m * (a + b) == m * a + m * b
  {
  }

  /**
   If ApexBase wins every metric of a workload it also wins the workload's total, against every rival that has
   one.
   */
  lemma SweepWinsTotal(rows: seq<seq<Entry>>, engines: seq<string>)
    requires rows != [] && Swept(rows) && (forall i :: 0 <= i < |rows| ==> IsDict(rows[i])) && APEX in engines
    ensures
      var totals := Totals(rows, engines);
      SectionVerdict(totals) == if Others(totals) == [] then Skipped else Win
  {
    var totals := Totals(rows, engines);
    DictOfIs(Totaller(rows), engines);
    hide Get, Others, DictOf, RowVerdict, Judge;
    if Others(totals) != [] {
      var best := MinOf(Others(totals));
      OthersByKey(totals, best);
      var rival :| rival != APEX && Get(totals, rival) == Some(best);
      assert TotalOf(rows, rival) == Some(best);
      AvailableFull(rows, rival);
      SweptSums(rows, rival);
      assert TotalOf(rows, APEX) == Some(Sum(Available(rows, APEX)));
      JudgeMeans(Sum(Available(rows, APEX)), best);
    }
  }

  lemma {:induction false} AllWins(rows: seq<seq<Entry>>)
    ensures TallyOf(RowVerdicts(rows)).wins <= |rows|
    ensures TallyOf(RowVerdicts(rows)).wins == |rows| ==> Swept(rows)
    decreases |rows|
  {
    hide RowVerdict, TallyOf, RowVerdicts;
    RowTallyNone();
    if rows != [] {
      var n := |rows| - 1;
      AllWins(rows[..n]);
      assert rows[..n + 1] == rows;
      RowTallyNext(rows, n);
    }
  }

  /** A row of the scoreboard won in every metric carries the label "faster", or none when no rival has a total. */
  lemma SweptWorkload(workload: string, names: seq<string>, results: Results, engines: seq<string>)
    requires APEX in engines
    ensures
      var s := SummaryOf(workload, names, results, engines);
      s.metrics != [] && s.tally.wins == |s.metrics| ==>
        s.comparison == if Others(s.totals) == [] then Skipped else Win
  {
    var s := SummaryOf(workload, names, results, engines);
    var rows := RowsOf(s.metrics, results, engines);
    RowsTally(names, results, engines);
    AllWins(rows);
    forall i | 0 <= i < |rows|
      ensures IsDict(rows[i])
    {
      ProjectIs(Lookup(results, s.metrics[i]), engines);
    }
    hide TallyOf, Totals, SectionVerdict, RowVerdict, IsDict, Project, RowVerdicts, KeptNames, Verdicts;
    if rows != [] && Swept(rows) { SweepWinsTotal(rows, engines); }
  }

  function Triple(apex: real, a: real, b: real): seq<Entry> {
    [Entry(APEX, Some(apex)), Entry("A", Some(a)), Entry("B", Some(b))]
  }

  lemma TripleIs(apex: real, a: real, b: real)
    ensures
      var d := Triple(apex, a, b);
      && Get(d, APEX) == Some(apex) && Get(d, "A") == Some(a) && Get(d, "B") == Some(b)
      && Others(d) == [a, b] && RowVerdict(d) == Judge(apex, if a <= b then a else b)
  {
    var d := Triple(apex, a, b);
    var d2, d1 := d[..2], d[..1];
    assert d2[..1] == d1 && d1[..0] == [];
    assert IsDict(d) by { assert |APEX| == 8; }
    GetIn(d, 0);
    GetIn(d, 1);
    GetIn(d, 2);
    assert Others(d1) == [];
    assert Others(d2) == [a];
    assert MinOf([a, b]) == if a <= b then a else b by { assert [a, b][..1] == [a] && [a][..0] == []; }
  }

  /** Losing every metric does not mean losing the total: the best rival may differ from metric to metric. */
  lemma LosingEverywhereMayWinTotal()
    ensures
      var rows := [Triple(2.0, 10.0, 1.0), Triple(2.0, 1.0, 10.0)];
      && (forall i :: 0 <= i < |rows| ==> RowVerdict(rows[i]) == Slower)
      && SectionVerdict(Totals(rows, [APEX, "A", "B"])) == Win
  {
    hide Triple, Totals, RowVerdict, SectionVerdict;
    TripleLoses(2.0, 10.0, 1.0);
    TripleLoses(2.0, 1.0, 10.0);
    TripleTotals(2.0, 10.0, 1.0, 2.0, 1.0, 10.0);
    TripleWins(4.0, 11.0, 11.0);
  }

  lemma TripleLoses(apex: real, a: real, b: real)
    requires apex == 2.0 && ((a == 10.0 && b == 1.0) || (a == 1.0 && b == 10.0))
    ensures RowVerdict(Triple(apex, a, b)) == Slower
  {
    TripleIs(apex, a, b);
    hide RowVerdict, Triple, Get, Others;
  }

  lemma TripleTotals(x: real, a: real, b: real, x': real, a': real, b': real)
    ensures Totals([Triple(x, a, b), Triple(x', a', b')], [APEX, "A", "B"]) == Triple(x + x', a + a', b + b')
  {
    var r, s := Triple(x, a, b), Triple(x', a', b');
    TripleIs(x, a, b);
    TripleIs(x', a', b');
    hide Triple, Get, Others, TotalOf, Totals, RowVerdict, Judge;
    TwoRowTotal(r, s, APEX);
    TwoRowTotal(r, s, "A");
    TwoRowTotal(r, s, "B");
    TotalsOfThree([r, s], x + x', a + a', b + b');
  }

  lemma TripleWins(apex: real, a: real, b: real)
    requires apex == 4.0 && a == 11.0 && b == 11.0
    ensures SectionVerdict(Triple(apex, a, b)) == Win
  {
    TripleIs(apex, a, b);
    hide Get, Others, Triple;
  }

  lemma TwoRowTotal(r: seq<Entry>, s: seq<Entry>, e: string)
    requires Get(r, e).Some? && Get(s, e).Some?
    ensures TotalOf([r, s], e) == Some(Get(r, e).value + Get(s, e).value)
  {
    hide Get;
    var rows := [r, s];
    assert rows[..1] == [r] && rows[..1][..0] == [];
    var x, y := Get(r, e).value, Get(s, e).value;
    assert Available([r], e) == [x];
    assert Available(rows, e) == [x, y];
    SumAppend([], x);
    SumAppend([x], y);
    assert [] + [x] == [x] && [x] + [y] == [x, y];
  }

  lemma TotalsOfThree(rows: seq<seq<Entry>>, x: real, a: real, b: real)
    requires TotalOf(rows, APEX) == Some(x) && TotalOf(rows, "A") == Some(a) && TotalOf(rows, "B") == Some(b)
    ensures Totals(rows, [APEX, "A", "B"]) == Triple(x, a, b)
  {
    hide TotalOf;
    var f, names := Totaller(rows), [APEX, "A", "B"];
    assert names[..2][..1] == [APEX] && names[..1][..0] == [] && names[..2] == [APEX, "A"];
    assert DictOf(f, []) == [];
    assert DictOf(f, [APEX]) == [Entry(APEX, Some(x))];
    assert DictOf(f, [APEX, "A"]) == [Entry(APEX, Some(x)), Entry("A", Some(a))];
  }
}

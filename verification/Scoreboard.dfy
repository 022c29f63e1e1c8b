/**
 The two tallies of benchmark results: `summarize_apex_section` counts verdicts metric by metric,
 `build_fair_workload_scoreboard` groups the metrics into workloads and counts them per row. Both
 are coded independently; here they are proved to agree, metric by metric and in total.
 */
module Scoreboard {
  import opened Text

  const APEX: string := "ApexBase"
  const TOLERANCE: real := 0.000000001

  /** A Python dictionary from engine to time, in insertion order. */
  datatype Entry = Entry(engine: string, ms: Option<real>)

  predicate IsDict(d: seq<Entry>) { forall i, j :: 0 <= i < j < |d| ==> d[i].engine != d[j].engine }

  /** `d.get(engine)`: a missing key and a stored `None` read alike. */
  function Get(d: seq<Entry>, engine: string): Option<real> {
    if d == [] then None
    else if d[|d| - 1].engine == engine then d[|d| - 1].ms
    else Get(d[..|d| - 1], engine)
  }

  predicate HasKey(d: seq<Entry>, engine: string) { exists i :: 0 <= i < |d| && d[i].engine == engine }

  type Results = map<string, seq<Entry>>

  predicate IsTable(results: Results) { forall name :: name in results ==> IsDict(results[name]) }

  /** `results.get(name, {})` */
  function Lookup(results: Results, name: string): seq<Entry> {
    if name in results then results[name] else []
  }

  // ----- the verdict on one metric -----

  datatype Verdict = Skipped | Win | Tie | Slower

  /** The times of the engines other than ApexBase, in dictionary order. */
  function Others(d: seq<Entry>): seq<real> {
    if d == [] then []
    else
      var e := d[|d| - 1];
      Others(d[..|d| - 1]) + if e.engine != APEX && e.ms.Some? then [e.ms.value] else []
  }

  function MinOf(xs: seq<real>): (m: real)
    requires xs != []
    ensures m in xs && forall x :: x in xs ==> m <= x
  {
    var rest, last := xs[..|xs| - 1], xs[|xs| - 1];
    assert forall x :: x in xs <==> x in rest || x == last;
    if rest == [] then last
    else
      var m := MinOf(rest);
      if last < m then last else m
  }

  /** A best rival time of zero or less makes the ratio infinite. */
  function Judge(apex: real, best: real): Verdict {
    if best <= 0.0 then Slower
    else
      var off := apex / best - 1.0;
      if -TOLERANCE < off < TOLERANCE then Tie else if off < 0.0 then Win else Slower
  }

  /** The verdict in the loop of `summarize_apex_section`. */
  function SectionVerdict(d: seq<Entry>): Verdict {
    var apex, others := Get(d, APEX), Others(d);
    if apex.None? || others == [] then Skipped else Judge(apex.value, MinOf(others))
  }

  /** `{name: f(name) for name in names}`: a repeated name keeps its first place. */
  function DictOf(f: string -> Option<real>, names: seq<string>): seq<Entry> {
    if names == [] then []
    else
      var p, e := DictOf(f, names[..|names| - 1]), names[|names| - 1];
      if HasKey(p, e) then p else p + [Entry(e, f(e))]
  }

  function Getter(d: seq<Entry>): string -> Option<real> { e => Get(d, e) }

  function Project(d: seq<Entry>, engines: seq<string>): seq<Entry> { DictOf(Getter(d), engines) }

  /** `summarize_workload_group` makes a row of the metric. */
  predicate Kept(d: seq<Entry>, engines: seq<string>) {
    Get(d, APEX).Some? && exists e :: e in engines && e != APEX && Get(d, e).Some?
  }

  /** The verdict of `summarize_workload_group`: a row that is neither won nor tied counts as slower. */
  function GroupVerdict(d: seq<Entry>, engines: seq<string>): Verdict {
    if !Kept(d, engines) then Skipped
    else
      var p := Project(d, engines);
      if Get(p, APEX).None? || Others(p) == [] then Slower else Judge(Get(p, APEX).value, MinOf(Others(p)))
  }

  // ----- what the verdict means -----

  /** A win is a time below the best rival by at least the tolerance, relatively; likewise the others. */
  lemma JudgeMeans(apex: real, best: real)
    ensures Judge(apex, best) == Win <==> best > 0.0 && apex <= (1.0 - TOLERANCE) * best
    ensures Judge(apex, best) == Slower <==> best <= 0.0 || apex >= (1.0 + TOLERANCE) * best
  {
    if best > 0.0 {
      QuotientOrder(apex, best, 1.0 - TOLERANCE);
      QuotientOrder(apex, best, 1.0 + TOLERANCE);
    }
  }

  lemma QuotientOrder(a: real, b: real, m: real)
    requires b > 0.0
    ensures a / b <= m <==> a <= m * b
    ensures a / b >= m <==> a >= m * b
  {
    var q := a / b;
    assert q * b == a;
    ScaleOrder(q, m, b);
    ScaleOrder(m, q, b);
  }

  lemma ScaleOrder(a: real, b: real, scale: real)
    requires scale > 0.0
    ensures a * scale <= b * scale <==> a <= b
  {
    assert a <= b ==> (b - a) * scale >= 0.0;
    assert a > b ==> (a - b) * scale > 0.0;
  }

  function Badness(v: Verdict): nat { match v case Win => 0 case Tie => 1 case Slower => 2 case Skipped => 3 }

  /** More rivals never improve a verdict. */
  lemma MoreRivalsNeverHelp(apex: real, few: seq<real>, many: seq<real>)
    requires few != [] && many != [] && forall x :: x in few ==> x in many
    ensures Badness(Judge(apex, MinOf(few))) <= Badness(Judge(apex, MinOf(many)))
  {
    var b, c := MinOf(few), MinOf(many);
    assert c <= b;
    JudgeMeans(apex, b);
    JudgeMeans(apex, c);
    if c > 0.0 {
      hide Judge;
      assert (1.0 - TOLERANCE) * (b - c) >= 0.0;
      assert (1.0 + TOLERANCE) * (b - c) >= 0.0;
    }
  }

  // ----- the two verdicts agree -----

  lemma {:induction false} GetIn(d: seq<Entry>, i: nat)
    requires IsDict(d) && i < |d|
    ensures Get(d, d[i].engine) == d[i].ms
    decreases |d|
  {
    if i < |d| - 1 { GetIn(d[..|d| - 1], i); }
  }

  lemma {:induction false} GetNone(d: seq<Entry>, engine: string)
    ensures Get(d, engine).Some? ==> HasKey(d, engine)
    decreases |d|
  {
    if d != [] && d[|d| - 1].engine != engine {
      var t := d[..|d| - 1];
      GetNone(t, engine);
      if HasKey(t, engine) {
        var i :| 0 <= i < |t| && t[i].engine == engine;
        assert d[i].engine == engine;
      }
    }
  }

  predicate IsOther(d: seq<Entry>, x: real) {
    exists i :: 0 <= i < |d| && d[i].engine != APEX && d[i].ms == Some(x)
  }

  lemma {:induction false} OthersAre(d: seq<Entry>, x: real)
    ensures x in Others(d) <==> IsOther(d, x)
    decreases |d|
  {
    if d != [] {
      var n := |d| - 1;
      var t := d[..n];
      OthersAre(t, x);
      assert IsOther(d, x) <==> IsOther(t, x) || (d[n].engine != APEX && d[n].ms == Some(x)) by {
        if IsOther(t, x) {
          var i :| 0 <= i < |t| && t[i].engine != APEX && t[i].ms == Some(x);
          assert d[i] == t[i];
        }
        if IsOther(d, x) {
          var i :| 0 <= i < |d| && d[i].engine != APEX && d[i].ms == Some(x);
          assert i < n ==> t[i] == d[i];
        }
      }
    }
  }

  ghost predicate RivalTime(d: seq<Entry>, x: real) { exists e :: e != APEX && Get(d, e) == Some(x) }

  /** The rivals' times are the times under the keys other than ApexBase. */
  lemma OthersByKey(d: seq<Entry>, x: real)
    requires IsDict(d)
    ensures x in Others(d) <==> RivalTime(d, x)
  {
    OthersAre(d, x);
    if IsOther(d, x) {
      var i :| 0 <= i < |d| && d[i].engine != APEX && d[i].ms == Some(x);
      GetIn(d, i);
    }
    if RivalTime(d, x) {
      var e :| e != APEX && Get(d, e) == Some(x);
      GetNone(d, e);
      var i :| 0 <= i < |d| && d[i].engine == e;
      GetIn(d, i);
    }
  }

  lemma SameGetSameOthers(c: seq<Entry>, d: seq<Entry>, x: real)
    requires IsDict(c) && IsDict(d) && forall e :: Get(c, e) == Get(d, e)
    ensures x in Others(c) ==> x in Others(d)
  {
    hide Get, IsDict, Others;
    OthersByKey(c, x);
    OthersByKey(d, x);
    if RivalTime(c, x) {
      var e :| e != APEX && Get(c, e) == Some(x);
      assert Get(d, e) == Some(x);
    }
  }

  lemma {:induction false} DictOfIs(f: string -> Option<real>, names: seq<string>)
    ensures IsDict(DictOf(f, names))
    ensures forall e :: HasKey(DictOf(f, names), e) <==> e in names
    ensures forall e :: Get(DictOf(f, names), e) == if e in names then f(e) else None
    decreases |names|
  {
    if names != [] {
      var rest, last := names[..|names| - 1], names[|names| - 1];
      assert names == rest + [last];
      DictOfIs(f, rest);
      var p := DictOf(f, rest);
      if !HasKey(p, last) { AppendEntry(p, Entry(last, f(last))); }
    }
  }

  lemma ProjectIs(d: seq<Entry>, engines: seq<string>)
    ensures IsDict(Project(d, engines))
    ensures forall e :: Get(Project(d, engines), e) == if e in engines then Get(d, e) else None
  {
    DictOfIs(Getter(d), engines);
    hide Get, DictOf;
    assert forall e :: Getter(d)(e) == Get(d, e);
  }

  lemma AppendEntry(p: seq<Entry>, x: Entry)
    requires IsDict(p) && !HasKey(p, x.engine)
    ensures IsDict(p + [x])
    ensures forall e :: HasKey(p + [x], e) <==> HasKey(p, e) || e == x.engine
    ensures forall e :: Get(p + [x], e) == if e == x.engine then x.ms else Get(p, e)
  {
    var q := p + [x];
    assert q[..|p|] == p && q[|p|] == x;
    forall e | HasKey(p, e)
      ensures HasKey(q, e)
    {
      var i :| 0 <= i < |p| && p[i].engine == e;
      assert q[i].engine == e;
    }
    assert forall i :: 0 <= i < |p| ==> q[i] == p[i];
  }

  lemma SameMin(xs: seq<real>, ys: seq<real>)
    requires xs != [] && ys != [] && forall x :: x in xs <==> x in ys
    ensures MinOf(xs) == MinOf(ys)
  {
  }

  lemma SomeMember(xs: seq<real>, ys: seq<real>)
    requires forall x :: x in xs ==> x in ys
    ensures xs != [] ==> ys != []
  {
    if xs != [] {
      var x := xs[0];
      assert x in xs;
    }
  }

  /** The rivals seen through the engine list are the rivals in the dictionary. */
  lemma SameOthers(d: seq<Entry>, engines: seq<string>)
    requires IsDict(d) && forall e :: HasKey(d, e) ==> e in engines
    ensures forall x :: x in Others(Project(d, engines)) <==> x in Others(d)
    ensures Others(d) == [] <==> Others(Project(d, engines)) == []
    ensures Others(d) == [] <==> !exists e :: e in engines && e != APEX && Get(d, e).Some?
  {
    var p := Project(d, engines);
    ProjectIs(d, engines);
    forall e
      ensures Get(p, e) == Get(d, e)
    {
      GetNone(d, e);
    }
    hide Get, Project, HasKey, IsDict, Others;
    forall x
      ensures x in Others(p) <==> x in Others(d)
      ensures x in Others(d) <==> RivalTime(d, x)
    {
      SameGetSameOthers(p, d, x);
      SameGetSameOthers(d, p, x);
      OthersByKey(d, x);
    }
    SomeMember(Others(d), Others(p));
    SomeMember(Others(p), Others(d));
    if Others(d) != [] {
      var x := Others(d)[0];
      assert x in Others(d);
      assert RivalTime(d, x);
      var e :| e != APEX && Get(d, e) == Some(x);
      GetNone(d, e);
    }
    forall e | e in engines && e != APEX && Get(d, e).Some?
      ensures Others(d) != []
    {
      var x := Get(d, e).value;
      assert RivalTime(d, x);
    }
  }

  /** With ApexBase and every key among the engine names, both tallies judge a metric alike. */
  lemma VerdictsAgree(d: seq<Entry>, engines: seq<string>)
    requires IsDict(d) && APEX in engines && forall e :: HasKey(d, e) ==> e in engines
    ensures GroupVerdict(d, engines) == SectionVerdict(d)
  {
    SameOthers(d, engines);
    ProjectIs(d, engines);
    hide Get, Others, Project, HasKey, Judge;
    if Others(d) != [] { SameMin(Others(d), Others(Project(d, engines))); }
  }

  predicate KeysAmong(d: seq<Entry>, keys: set<string>) { forall i :: 0 <= i < |d| ==> d[i].engine in keys }

  ghost predicate AlwaysAgree(keys: set<string>, engines: seq<string>) {
    forall d :: IsDict(d) && KeysAmong(d, keys) ==> GroupVerdict(d, engines) == SectionVerdict(d)
  }

  /**
   The engine list must name every engine that can occur, ApexBase included, for the tallies to agree on all
   tables.
   */
  lemma AgreeExactly(keys: set<string>, rival: string, engines: seq<string>)
    requires APEX in keys && rival in keys && rival != APEX
    ensures AlwaysAgree(keys, engines) <==> forall e :: e in keys ==> e in engines
  {
    if forall e :: e in keys ==> e in engines {
      forall d | IsDict(d) && KeysAmong(d, keys)
        ensures GroupVerdict(d, engines) == SectionVerdict(d)
      {
        VerdictsAgree(d, engines);
      }
    } else {
      var e :| e in keys && e !in engines;
      MissingNameDisagrees(keys, if e == APEX then rival else e, engines);
    }
  }

  lemma MissingNameDisagrees(keys: set<string>, rival: string, engines: seq<string>)
    requires APEX in keys && rival in keys && rival != APEX && (rival !in engines || APEX !in engines)
    ensures !AlwaysAgree(keys, engines)
  {
    var d := [Entry(APEX, Some(1.0)), Entry(rival, Some(2.0))];
    PairVerdict(rival);
    PairGets(rival);
    assert IsDict(d) && KeysAmong(d, keys);
    hide Get, IsDict, GroupVerdict, SectionVerdict, KeysAmong;
    PairNotWon(d, rival, engines);
  }

  /** A metric with one rival is no win for the scoreboard when it does not name both engines. */
  lemma PairNotWon(d: seq<Entry>, rival: string, engines: seq<string>)
    requires rival != APEX && (rival !in engines || APEX !in engines)
    requires forall e :: Get(d, e) == if e == APEX then Some(1.0) else if e == rival then Some(2.0) else None
    ensures GroupVerdict(d, engines) != Win
  {
    ProjectIs(d, engines);
    hide Get, Project, Others, Judge;
    if rival !in engines {
      assert !Kept(d, engines);
    } else {
      assert Get(Project(d, engines), APEX) == None;
    }
  }

  lemma PairGets(rival: string)
    requires rival != APEX
    ensures
      var d := [Entry(APEX, Some(1.0)), Entry(rival, Some(2.0))];
      IsDict(d) && forall e :: Get(d, e) == if e == APEX then Some(1.0) else if e == rival then Some(2.0) else None
  {
    var d := [Entry(APEX, Some(1.0)), Entry(rival, Some(2.0))];
    var t := d[..1];
    assert t == [Entry(APEX, Some(1.0))] && t[..0] == [];
    forall e
      ensures Get(t, e) == if e == APEX then Some(1.0) else None
    {
      assert Get([], e) == None;
    }
  }

  lemma PairVerdict(rival: string)
    requires rival != APEX
    ensures SectionVerdict([Entry(APEX, Some(1.0)), Entry(rival, Some(2.0))]) == Win
  {
    var d := [Entry(APEX, Some(1.0)), Entry(rival, Some(2.0))];
    PairGets(rival);
    var t := d[..1];
    assert t == [Entry(APEX, Some(1.0))] && t[..0] == [];
    assert Others(t) == Others([]) == [];
    assert Others(d) == [2.0];
  }
}

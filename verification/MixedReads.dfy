/**
 What the readers of the mixed workload are told: in every run each answer is the exact number of rows that
 the writers have made visible by then, or the exact row.
 */
module MixedReads {
  import opened MixedWorkload

  /** The rows that all writers together have made visible. */
  function Visible(c: Config, ps: seq<Phase>): nat {
    if ps == [] then 0 else Visible(c, ps[..|ps| - 1]) + Published(c, ps[|ps| - 1])
  }

  lemma {:induction false} VisibleUpdate(c: Config, ps: seq<Phase>, w: nat, p: Phase)
    requires w < |ps|
    ensures Visible(c, ps[w := p]) == Visible(c, ps) - Published(c, ps[w]) + Published(c, p)
    decreases |ps|
  {
    hide Published;
    var n := |ps| - 1;
    if w == n {
      assert ps[w := p][..n] == ps[..n];
    } else {
      assert ps[w := p][..n] == ps[..n][w := p];
      VisibleUpdate(c, ps[..n], w, p);
    }
  }

  lemma {:induction false} VisibleSame(c: Config, ps: seq<Phase>, qs: seq<Phase>)
    requires |ps| == |qs| && forall w :: 0 <= w < |ps| ==> Published(c, ps[w]) == Published(c, qs[w])
    ensures Visible(c, ps) == Visible(c, qs)
    decreases |ps|
  {
    hide Published;
    if ps != [] { VisibleSame(c, ps[..|ps| - 1], qs[..|qs| - 1]); }
  }

  lemma {:induction false} NothingVisible(c: Config, ps: seq<Phase>)
    requires forall w :: 0 <= w < |ps| ==> ps[w].Starting?
    ensures Visible(c, ps) == 0
    decreases |ps|
  {
    if ps != [] { NothingVisible(c, ps[..|ps| - 1]); }
  }

  /** The table, and the part of it that a range read counts, grow with the writers. */
  predicate Counted(c: Config, s: State) {
    && |s.table| == c.rows + Visible(c, s.writers)
    && CountFrom(s.table, c.rows / 2) == c.rows - c.rows / 2 + Visible(c, s.writers)
  }

  lemma InitCounted(c: Config, readers: nat)
    ensures Counted(c, Init(c, readers))
  {
    NothingVisible(c, Init(c, readers).writers);
    CountFromBlock(c.rows, c.rows / 2);
  }

  lemma StepCounted(c: Config, s: State, step: Step)
    requires IsConfig(c) && Inv(c, s) && Enabled(c, s, step) && Counted(c, s)
    ensures Counted(c, Apply(c, s, step))
  {
    var s' := Apply(c, s, step);
    PhasesOk(c, s);
    hide Inv, CountFrom, Visible;
    if step.Publish? {
      PublishCounted(c, s, step.w);
    } else {
      forall w | 0 <= w < |s.writers|
        ensures |s'.writers| == |s.writers| && Published(c, s'.writers[w]) == Published(c, s.writers[w])
      {
        QuietStepKeepsPublished(c, s, step, w);
      }
      if s.writers != [] { QuietStepKeepsPublished(c, s, step, 0); } else { NoWriters(c, s, step); }
      hide Apply, Published;
      VisibleSame(c, s'.writers, s.writers);
    }
  }

  lemma NoWriters(c: Config, s: State, step: Step)
    requires Enabled(c, s, step) && s.writers == []
    ensures Apply(c, s, step).writers == [] && Apply(c, s, step).table == s.table
  {
    hide CountFrom, MatchesOf;
  }

  lemma PublishCounted(c: Config, s: State, w: nat)
    requires Enabled(c, s, Publish(w)) && Counted(c, s)
    ensures Counted(c, Apply(c, s, Publish(w)))
  {
    var p := s.writers[w];
    var row := Row(Start(c, w) + p.offset + p.done, Start(c, w) + p.offset + p.done);
    VisibleUpdate(c, s.writers, w, Writing(p.offset, p.done + 1));
    assert (s.table + [row])[..|s.table|] == s.table;
    assert w * c.perWriter >= 0;
    hide Visible;
    assert CountFrom(s.table + [row], c.rows / 2) == CountFrom(s.table, c.rows / 2) + 1;
  }

  lemma {:induction false} RunCounted(c: Config, readers: nat, states: seq<State>, steps: seq<Step>, i: nat)
    requires IsConfig(c) && IsRun(c, readers, states, steps) && i < |states|
    ensures Counted(c, states[i]) && Inv(c, states[i])
    decreases i
  {
    hide Inv, Apply, Init, Counted, Enabled;
    RunKeepsInv(c, readers, states, steps, i);
    if i == 0 {
      InitCounted(c, readers);
    } else {
      RunCounted(c, readers, states, steps, i - 1);
      StepCounted(c, states[i - 1], steps[i - 1]);
    }
  }

  /** What a read adds to its reader's record. */
  predicate AnswerIs(c: Config, s: State, step: Step, d: Reader, d': Reader) {
    match step
    case CountAll(_) => d' == d.(fulls := d.fulls + [c.rows + Visible(c, s.writers)])
    case CountRange(_) => d' == d.(ranges := d.ranges + [c.rows - c.rows / 2 + Visible(c, s.writers)])
    case PointRead(_) => d' == d.(points := d.points + [if Owned(c, s, c.rows / 3) then [c.rows / 3] else []])
    case _ => false
  }

  /** In every run a full count is the seed and all visible rows, a range count all but the lower half of the seed. */
  lemma ReadsAreExact(c: Config, readers: nat, states: seq<State>, steps: seq<Step>, i: nat)
    requires IsConfig(c) && IsRun(c, readers, states, steps) && i < |steps| && IsRead(steps[i])
    ensures
      var s, s', r := states[i], states[i + 1], steps[i].r;
      && r < |s.readers| == |s'.readers| && s'.table == s.table && s'.writers == s.writers
      && AnswerIs(c, s, steps[i], s.readers[r], s'.readers[r])
      && forall q :: 0 <= q < |s.readers| && q != r ==> s'.readers[q] == s.readers[q]
    ensures c.rows > 0 ==> Owned(c, states[i], c.rows / 3)
  {
    RunCounted(c, readers, states, steps, i);
    PointFinds(c, states[i]);
    hide Inv, Init, CountFrom, MatchesOf, Visible, Owned;
    ReadShape(c, states[i], steps[i]);
  }

  lemma PointFinds(c: Config, s: State)
    requires Inv(c, s)
    ensures MatchesOf(s.table, c.rows / 3) == if Owned(c, s, c.rows / 3) then [c.rows / 3] else []
  {
    var key := c.rows / 3;
    hide ReaderOk, BarrierOk, PhaseOk, Owned;
    if Owned(c, s, key) {
      MatchesUnique(s.table, key);
    } else {
      MatchesNone(s.table, key);
    }
  }

  /** A writer appends the next key of its own range, counted by the rows it has made visible. */
  lemma WriterAppendsInOrder(c: Config, s: State, w: nat)
    requires Inv(c, s) && Enabled(c, s, Publish(w))
    ensures
      var s', n := Apply(c, s, Publish(w)), Published(c, s.writers[w]);
      var key := c.rows + w * c.perWriter + n;
      && n < c.perWriter && s'.table == s.table + [Row(key, key)]
      && Published(c, s'.writers[w]) == n + 1 && s'.readers == s.readers
      && forall v :: 0 <= v < |s.writers| && v != w ==> s'.writers[v] == s.writers[v]
  {
    hide Inv;
  }
}

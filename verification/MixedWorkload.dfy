/**
 The mixed read/write workload: writer processes behind a barrier append disjoint key ranges in
 batches while reader threads query the table. The system is a transition system in which the rows
 of a batch become visible one at a time and every interleaving is possible.
 */
module MixedWorkload {

  const BATCH: nat := 200

  datatype Row = Row(k: int, v: int)

  // ----- one writer on its own -----

  /** Rows `start` to `start + count - 1`, value equal to key. */
  function Block(start: int, count: nat): (b: seq<Row>)
    ensures |b| == count && forall i :: 0 <= i < count ==> b[i] == Row(start + i, start + i)
  {
    if count == 0 then [] else Block(start, count - 1) + [Row(start + count - 1, start + count - 1)]
  }

  lemma BlockSplits(start: int, a: nat, b: nat)
    ensures Block(start, a + b) == Block(start, a) + Block(start + a, b)
  {
  }

  class Table {
    var rows: seq<Row>

    constructor ()
      ensures rows == []
    {
      rows := [];
    }

    /** `store({"k": values, "v": values})` */
    method Store(values: seq<int>)
      modifies this
      ensures rows == old(rows) + seq(|values|, i requires 0 <= i < |values| => Row(values[i], values[i]))
    {
      rows := rows + seq(|values|, i requires 0 <= i < |values| => Row(values[i], values[i]));
    }
  }

  /** `_writer` after the barrier: the batches tile the range exactly. */
  method Write(table: Table, start: int, count: nat)
    modifies table
    ensures table.rows == old(table.rows) + Block(start, count)
  {
    var offset := 0;
    ghost var done := 0;
    while offset < count
      invariant 0 <= offset && done == if offset < count then offset else count
      invariant table.rows == old(table.rows) + Block(start, done)
    {
      var size := if BATCH < count - offset then BATCH else count - offset;
      var values := seq(size, i => start + offset + i);
      table.Store(values);
      BlockSplits(start, offset, size);
      assert seq(|values|, i requires 0 <= i < |values| => Row(values[i], values[i])) == Block(start + offset, size);
      done := done + size;
      offset := offset + BATCH;
    }
  }

  // ----- the system -----

  datatype Config = Config(rows: nat, writers: nat, perWriter: nat, batch: nat)

  predicate IsConfig(c: Config) { c.batch >= 1 }

  /** `Writing(offset, done)`: in the loop at `offset`, with `done` rows of the current batch visible. */
  datatype Phase =
    | Starting
    | Waiting
    | Writing(offset: nat, done: nat)
    | Finished
    | Failed(offset: nat, done: nat)

  /** The answers a reader has seen, oldest first. */
  datatype Reader = Reader(fulls: seq<nat>, points: seq<seq<int>>, ranges: seq<nat>)

  datatype State = State(table: seq<Row>, writers: seq<Phase>, readers: seq<Reader>, released: bool)

  datatype Step =
    | Arrive(w: nat)
    | Release
    | Publish(w: nat)
    | NextBatch(w: nat)
    | Finish(w: nat)
    | Fail(w: nat)
    | CountAll(r: nat)
    | PointRead(r: nat)
    | CountRange(r: nat)

  function Start(c: Config, w: nat): nat { c.rows + w * c.perWriter }

  function Smaller(a: nat, b: nat): nat { if a < b then a else b }

  function BatchSize(c: Config, offset: nat): nat
    requires offset < c.perWriter
  {
    Smaller(c.batch, c.perWriter - offset)
  }

  /** The rows of its range a writer has made visible. */
  function Published(c: Config, p: Phase): nat {
    match p
    case Starting => 0
    case Waiting => 0
    case Writing(o, d) => Smaller(o, c.perWriter) + d
    case Finished => c.perWriter
    case Failed(o, d) => Smaller(o, c.perWriter) + d
  }

  // ----- queries -----

  function MatchesOf(table: seq<Row>, key: int): seq<int> {
    if table == [] then []
    else MatchesOf(table[..|table| - 1], key) + if table[|table| - 1].k == key then [table[|table| - 1].v] else []
  }

  function CountFrom(table: seq<Row>, low: int): nat {
    if table == [] then 0
    else CountFrom(table[..|table| - 1], low) + if table[|table| - 1].k >= low then 1 else 0
  }

  // ----- steps -----

  function Init(c: Config, readers: nat): State {
    State(Block(0, c.rows), seq(c.writers, _ => Starting), seq(readers, _ => Reader([], [], [])), false)
  }

  predicate Enabled(c: Config, s: State, step: Step) {
    match step
    case Arrive(w) => w < |s.writers| && s.writers[w].Starting?
    case Release => s.writers != [] && forall w :: 0 <= w < |s.writers| ==> s.writers[w].Waiting?
    case Publish(w) =>
      && w < |s.writers| && s.writers[w].Writing? && s.writers[w].offset < c.perWriter
      && s.writers[w].done < BatchSize(c, s.writers[w].offset)
    case NextBatch(w) =>
      && w < |s.writers| && s.writers[w].Writing? && s.writers[w].offset < c.perWriter
      && s.writers[w].done == BatchSize(c, s.writers[w].offset)
    case Finish(w) => w < |s.writers| && s.writers[w].Writing? && s.writers[w].offset >= c.perWriter
    case Fail(w) => w < |s.writers| && !s.writers[w].Finished? && !s.writers[w].Failed?
    case CountAll(r) => r < |s.readers|
    case PointRead(r) => r < |s.readers|
    case CountRange(r) => r < |s.readers|
  }

  function Apply(c: Config, s: State, step: Step): State
    requires Enabled(c, s, step)
  {
    match step
    case Arrive(w) => s.(writers := s.writers[w := Waiting])
    case Release => s.(writers := seq(|s.writers|, _ => Writing(0, 0)), released := true)
    case Publish(w) =>
      var p := s.writers[w];
      var key := Start(c, w) + p.offset + p.done;
      s.(table := s.table + [Row(key, key)], writers := s.writers[w := Writing(p.offset, p.done + 1)])
    case NextBatch(w) => s.(writers := s.writers[w := Writing(s.writers[w].offset + c.batch, 0)])
    case Finish(w) => s.(writers := s.writers[w := Finished])
    case Fail(w) =>
      var p := s.writers[w];
      s.(writers := s.writers[w := if p.Writing? then Failed(p.offset, p.done) else Failed(0, 0)])
    case CountAll(r) =>
      var d := s.readers[r];
      s.(readers := s.readers[r := d.(fulls := d.fulls + [|s.table|])])
    case PointRead(r) =>
      var d := s.readers[r];
      s.(readers := s.readers[r := d.(points := d.points + [MatchesOf(s.table, c.rows / 3)])])
    case CountRange(r) =>
      var d := s.readers[r];
      s.(readers := s.readers[r := d.(ranges := d.ranges + [CountFrom(s.table, c.rows / 2)])])
  }

  /** A run: a start state and steps that were each enabled. */
  predicate IsRun(c: Config, readers: nat, states: seq<State>, steps: seq<Step>) {
    && |states| == |steps| + 1
    && states[0] == Init(c, readers)
    && forall i :: 0 <= i < |steps| ==>
      Enabled(c, states[i], steps[i]) && states[i + 1] == Apply(c, states[i], steps[i])
  }

  // ----- the invariant -----

  predicate PhaseOk(c: Config, p: Phase) {
    (p.Writing? || p.Failed?) ==>
      if p.offset < c.perWriter then p.done <= BatchSize(c, p.offset) else p.done == 0
  }

  /** The key belongs to the seed or to the visible part of writer `w`. */
  predicate OwnedBy(c: Config, s: State, k: int, w: nat)
    requires w < |s.writers|
  {
    Start(c, w) <= k < Start(c, w) + Published(c, s.writers[w])
  }

  predicate Owned(c: Config, s: State, k: int) {
    0 <= k < c.rows || exists w :: 0 <= w < |s.writers| && OwnedBy(c, s, k, w)
  }

  predicate HasKey(table: seq<Row>, k: int) { exists i :: 0 <= i < |table| && table[i].k == k }

  predicate DistinctKeys(table: seq<Row>) { forall i, j :: 0 <= i < j < |table| ==> table[i].k != table[j].k }

  /** Distinct keys with value equal to key, exactly those that are owned. */
  ghost predicate TableOk(c: Config, s: State) {
    && DistinctKeys(s.table)
    && (forall i :: 0 <= i < |s.table| ==> s.table[i].v == s.table[i].k && Owned(c, s, s.table[i].k))
    && (forall k :: Owned(c, s, k) ==> HasKey(s.table, k))
  }

  /** Before the release nobody writes, after it nobody waits. */
  predicate BarrierOk(c: Config, s: State) {
    && (!s.released ==>
          && (forall w :: 0 <= w < |s.writers| ==>
                s.writers[w].Starting? || s.writers[w].Waiting? || s.writers[w] == Failed(0, 0))
          && |s.table| == c.rows)
    && (s.released ==> forall w :: 0 <= w < |s.writers| ==> !s.writers[w].Starting? && !s.writers[w].Waiting?)
  }

  predicate Rising(xs: seq<nat>, low: int, high: nat) {
    && (forall i :: 0 <= i < |xs| ==> low <= xs[i] <= high)
    && forall i, j :: 0 <= i <= j < |xs| ==> xs[i] <= xs[j]
  }

  /** A reader's counts never fall, and its point reads always return the seeded row. */
  predicate ReaderOk(c: Config, s: State, d: Reader) {
    && Rising(d.fulls, c.rows, |s.table|)
    && Rising(d.ranges, c.rows - c.rows / 2, CountFrom(s.table, c.rows / 2))
    && forall i :: 0 <= i < |d.points| ==> c.rows > 0 ==> d.points[i] == [c.rows / 3]
  }

  ghost predicate Inv(c: Config, s: State) {
    && |s.writers| == c.writers
    && (forall w :: 0 <= w < |s.writers| ==> PhaseOk(c, s.writers[w]))
    && TableOk(c, s)
    && s.table[..Smaller(c.rows, |s.table|)] == Block(0, c.rows)
    && BarrierOk(c, s)
    && forall r :: 0 <= r < |s.readers| ==> ReaderOk(c, s, s.readers[r])
  }

  // ----- key ranges -----

  /** The ranges of two writers do not meet. */
  lemma RangesDisjoint(c: Config, v: nat, w: nat)
    requires v < w
    ensures Start(c, v) + c.perWriter <= Start(c, w)
  {
    MulGap(v, w, c.perWriter);
  }

  lemma {:induction false} MulGap(v: nat, w: nat, per: nat)
    requires v < w
    ensures v * per + per <= w * per
    decreases w
  {
    if v + 1 < w { MulGap(v, w - 1, per); }
  }

  lemma PublishedBound(c: Config, p: Phase)
    requires PhaseOk(c, p)
    ensures Published(c, p) <= c.perWriter
  {
  }

  // ----- steps that publish nothing -----

  lemma OwnedKept(c: Config, s: State, s': State, k: int)
    requires |s'.writers| == |s.writers|
    requires forall w :: 0 <= w < |s.writers| ==> Published(c, s'.writers[w]) == Published(c, s.writers[w])
    ensures Owned(c, s', k) == Owned(c, s, k)
  {
    assert forall w :: 0 <= w < |s.writers| ==> OwnedBy(c, s', k, w) == OwnedBy(c, s, k, w);
  }

  lemma TableKept(c: Config, s: State, s': State)
    requires TableOk(c, s) && s'.table == s.table && |s'.writers| == |s.writers|
    requires forall w :: 0 <= w < |s.writers| ==> Published(c, s'.writers[w]) == Published(c, s.writers[w])
    ensures TableOk(c, s')
  {
    hide Owned, DistinctKeys, HasKey;
    forall k
      ensures Owned(c, s', k) == Owned(c, s, k)
    {
      OwnedKept(c, s, s', k);
    }
  }

  lemma QuietStepKeepsPublished(c: Config, s: State, step: Step, w: nat)
    requires IsConfig(c) && Enabled(c, s, step) && !step.Publish? && w < |s.writers|
    requires forall v :: 0 <= v < |s.writers| ==> PhaseOk(c, s.writers[v])
    ensures
      var s' := Apply(c, s, step);
      && |s'.writers| == |s.writers| && s'.table == s.table
      && Published(c, s'.writers[w]) == Published(c, s.writers[w])
      && PhaseOk(c, s'.writers[w])
  {
  }

  // ----- publishing a row -----

  lemma OwnedAfterPublish(c: Config, s: State, w: nat, k: int)
    requires Enabled(c, s, Publish(w))
    ensures
      var s', p := Apply(c, s, Publish(w)), s.writers[w];
      Owned(c, s', k) <==> Owned(c, s, k) || k == Start(c, w) + p.offset + p.done
  {
    var s', p := Apply(c, s, Publish(w)), s.writers[w];
    var key := Start(c, w) + p.offset + p.done;
    assert forall v :: 0 <= v < |s.writers| && v != w ==> OwnedBy(c, s', k, v) == OwnedBy(c, s, k, v);
    assert OwnedBy(c, s', k, w) <==> OwnedBy(c, s, k, w) || k == key;
  }

  lemma PublishedKeyIsNew(c: Config, s: State, w: nat)
    requires Enabled(c, s, Publish(w)) && forall v :: 0 <= v < |s.writers| ==> PhaseOk(c, s.writers[v])
    ensures
      var p := s.writers[w];
      !Owned(c, s, Start(c, w) + p.offset + p.done)
  {
    var p := s.writers[w];
    var key := Start(c, w) + p.offset + p.done;
    forall v | 0 <= v < |s.writers|
      ensures !OwnedBy(c, s, key, v)
    {
      PublishedBound(c, s.writers[v]);
      if v < w { RangesDisjoint(c, v, w); }
      if w < v { RangesDisjoint(c, w, v); }
    }
  }

  lemma PublishKeepsTable(c: Config, s: State, w: nat)
    requires TableOk(c, s) && Enabled(c, s, Publish(w))
    requires forall v :: 0 <= v < |s.writers| ==> PhaseOk(c, s.writers[v])
    ensures TableOk(c, Apply(c, s, Publish(w)))
  {
    hide Owned;
    var s', p := Apply(c, s, Publish(w)), s.writers[w];
    var key := Start(c, w) + p.offset + p.done;
    PublishedKeyIsNew(c, s, w);
    forall k
      ensures Owned(c, s', k) <==> Owned(c, s, k) || k == key
    {
      OwnedAfterPublish(c, s, w, k);
    }
    AppendRow(s.table, Row(key, key));
    assert forall i :: 0 <= i < |s.table| ==> s.table[i].k != key;
  }

  lemma AppendRow(table: seq<Row>, row: Row)
    ensures forall k :: HasKey(table + [row], k) <==> HasKey(table, k) || k == row.k
    ensures DistinctKeys(table) && (forall i :: 0 <= i < |table| ==> table[i].k != row.k) ==>
      DistinctKeys(table + [row])
  {
    var t := table + [row];
    assert forall i :: 0 <= i < |table| ==> t[i] == table[i];
    assert t[|table|] == row;
    forall k | HasKey(table, k)
      ensures HasKey(t, k)
    {
      var i :| 0 <= i < |table| && table[i].k == k;
      assert t[i].k == k;
    }
  }

  // ----- what readers see -----

  lemma {:induction false} CountFromGrows(table: seq<Row>, n: nat, low: int)
    requires n <= |table|
    ensures CountFrom(table[..n], low) <= CountFrom(table, low)
    decreases |table|
  {
    if n < |table| {
      var t := table[..|table| - 1];
      assert t[..n] == table[..n];
      CountFromGrows(t, n, low);
    } else {
      assert table[..n] == table;
    }
  }

  lemma {:induction false} CountFromBlock(n: nat, low: nat)
    requires low <= n
    ensures CountFrom(Block(0, n), low) == n - low
    decreases n
  {
    if n > 0 {
      var b := Block(0, n);
      assert b[..n - 1] == Block(0, n - 1);
      if low <= n - 1 { CountFromBlock(n - 1, low); } else { CountFromNone(b[..n - 1], low); }
    }
  }

  lemma {:induction false} CountFromNone(table: seq<Row>, low: int)
    requires forall i :: 0 <= i < |table| ==> table[i].k < low
    ensures CountFrom(table, low) == 0
    decreases |table|
  {
    if table != [] { CountFromNone(table[..|table| - 1], low); }
  }

  lemma {:induction false} MatchesNone(table: seq<Row>, key: int)
    requires forall i :: 0 <= i < |table| ==> table[i].k != key
    ensures MatchesOf(table, key) == []
    decreases |table|
  {
    if table != [] { MatchesNone(table[..|table| - 1], key); }
  }

  /** A key that is present once is found once. */
  lemma {:induction false} MatchesUnique(table: seq<Row>, key: int)
    requires DistinctKeys(table) && HasKey(table, key)
    requires forall i :: 0 <= i < |table| ==> table[i].v == table[i].k
    ensures MatchesOf(table, key) == [key]
    decreases |table|
  {
    var n := |table| - 1;
    var t := table[..n];
    if table[n].k == key {
      MatchesNone(t, key);
    } else {
      var i :| 0 <= i < |table| && table[i].k == key;
      assert t[i].k == key;
      MatchesUnique(t, key);
    }
  }

  /** The seed is still there, so a count is at least the seed and a point read finds its row. */
  lemma SeedVisible(c: Config, s: State)
    requires Inv(c, s)
    ensures |s.table| >= c.rows
    ensures CountFrom(s.table, c.rows / 2) >= c.rows - c.rows / 2
    ensures c.rows > 0 ==> MatchesOf(s.table, c.rows / 3) == [c.rows / 3]
  {
    assert |s.table[..Smaller(c.rows, |s.table|)]| == c.rows;
    CountFromGrows(s.table, c.rows, c.rows / 2);
    CountFromBlock(c.rows, c.rows / 2);
    if c.rows > 0 {
      assert Owned(c, s, c.rows / 3);
      MatchesUnique(s.table, c.rows / 3);
    }
  }

  lemma RisingExtends(xs: seq<nat>, low: int, high: nat, x: nat)
    requires Rising(xs, low, high) && high <= x && low <= x
    ensures Rising(xs + [x], low, x)
  {
  }

  lemma RisingWiden(xs: seq<nat>, low: int, high: nat, high': nat)
    requires Rising(xs, low, high) && high <= high'
    ensures Rising(xs, low, high')
  {
  }

  // ----- every step keeps the invariant -----

  lemma InitInv(c: Config, readers: nat)
    ensures Inv(c, Init(c, readers))
  {
    var s := Init(c, readers);
    forall k
      ensures Owned(c, s, k) <==> 0 <= k < c.rows
    {
      assert forall w :: 0 <= w < |s.writers| ==> !OwnedBy(c, s, k, w);
    }
    forall k | Owned(c, s, k)
      ensures HasKey(s.table, k)
    {
      assert s.table[k].k == k;
    }
    assert s.table[..c.rows] == s.table;
  }

  lemma ReadersKept(c: Config, s: State, s': State)
    requires forall r :: 0 <= r < |s.readers| ==> ReaderOk(c, s, s.readers[r])
    requires s'.readers == s.readers && |s.table| <= |s'.table| && s'.table[..|s.table|] == s.table
    ensures forall r :: 0 <= r < |s'.readers| ==> ReaderOk(c, s', s'.readers[r])
  {
    hide Rising;
    CountFromGrows(s'.table, |s.table|, c.rows / 2);
    forall r | 0 <= r < |s'.readers|
      ensures ReaderOk(c, s', s'.readers[r])
    {
      var d := s.readers[r];
      RisingWiden(d.fulls, c.rows, |s.table|, |s'.table|);
      RisingWiden(d.ranges, c.rows - c.rows / 2, CountFrom(s.table, c.rows / 2), CountFrom(s'.table, c.rows / 2));
    }
  }

  predicate IsRead(step: Step) { step.CountAll? || step.PointRead? || step.CountRange? }

  lemma WriterStepKeepsInv(c: Config, s: State, step: Step)
    requires IsConfig(c) && Inv(c, s) && Enabled(c, s, step) && !IsRead(step)
    ensures Inv(c, Apply(c, s, step))
  {
    hide ReaderOk, TableOk, Published;
    var s' := Apply(c, s, step);
    SeedVisible(c, s);
    if step.Publish? {
      PublishKeepsTable(c, s, step.w);
      PublishKeepsPhases(c, s, step.w);
      assert s'.table[..|s.table|] == s.table;
      assert s'.table[..c.rows] == s.table[..c.rows];
    } else {
      forall w | 0 <= w < |s.writers|
        ensures |s'.writers| == |s.writers| && Published(c, s'.writers[w]) == Published(c, s.writers[w])
        ensures PhaseOk(c, s'.writers[w])
      {
        QuietStepKeepsPublished(c, s, step, w);
      }
      QuietStepShape(c, s, step);
      TableKept(c, s, s');
      assert s'.table[..|s.table|] == s.table;
    }
    BarrierKept(c, s, step);
    ReadersKept(c, s, s');
  }

  lemma QuietStepShape(c: Config, s: State, step: Step)
    requires Enabled(c, s, step) && !step.Publish? && !IsRead(step)
    ensures
      var s' := Apply(c, s, step);
      s'.table == s.table && |s'.writers| == |s.writers| && s'.readers == s.readers
  {
  }

  lemma PublishKeepsPhases(c: Config, s: State, w: nat)
    requires Enabled(c, s, Publish(w)) && forall v :: 0 <= v < |s.writers| ==> PhaseOk(c, s.writers[v])
    ensures
      var s' := Apply(c, s, Publish(w));
      && |s'.writers| == |s.writers| && s'.readers == s.readers
      && forall v :: 0 <= v < |s'.writers| ==> PhaseOk(c, s'.writers[v])
  {
  }

  lemma BarrierKept(c: Config, s: State, step: Step)
    requires BarrierOk(c, s) && Enabled(c, s, step)
    ensures BarrierOk(c, Apply(c, s, step))
  {
  }

  /** What a read answers extends the reader's record as `ReaderOk` demands. */
  lemma ReadAnswerOk(c: Config, s: State, step: Step)
    requires Inv(c, s) && Enabled(c, s, step) && IsRead(step)
    ensures ReaderOk(c, s, Apply(c, s, step).readers[step.r])
  {
    var d := s.readers[step.r];
    SeedVisible(c, s);
    hide Inv, Rising, CountFrom, MatchesOf;
    assert ReaderOk(c, s, d) by { ReaderOkAt(c, s, step.r); }
    match step
    case CountAll(_) => RisingExtends(d.fulls, c.rows, |s.table|, |s.table|);
    case CountRange(_) =>
      var part := CountFrom(s.table, c.rows / 2);
      RisingExtends(d.ranges, c.rows - c.rows / 2, part, part);
    case PointRead(_) =>
  }

  lemma ReaderOkAt(c: Config, s: State, r: nat)
    requires Inv(c, s) && r < |s.readers|
    ensures ReaderOk(c, s, s.readers[r])
  {
    hide ReaderOk, TableOk, BarrierOk, PhaseOk;
  }

  lemma ReadShape(c: Config, s: State, step: Step)
    requires Enabled(c, s, step) && IsRead(step)
    ensures
      var s' := Apply(c, s, step);
      && s'.table == s.table && s'.writers == s.writers && s'.released == s.released
      && |s'.readers| == |s.readers|
      && forall q :: 0 <= q < |s.readers| && q != step.r ==> s'.readers[q] == s.readers[q]
  {
    hide MatchesOf, CountFrom;
  }

  lemma ReadStepKeepsInv(c: Config, s: State, step: Step)
    requires Inv(c, s) && Enabled(c, s, step) && IsRead(step)
    ensures Inv(c, Apply(c, s, step))
  {
    var s' := Apply(c, s, step);
    ReadShape(c, s, step);
    ReadAnswerOk(c, s, step);
    hide Apply, TableOk, Rising, PhaseOk, BarrierOk, CountFrom;
    ReadKeepsTable(c, s, s');
    BarrierKept(c, s, step);
  }

  lemma ReadKeepsTable(c: Config, s: State, s': State)
    requires TableOk(c, s) && s'.table == s.table && s'.writers == s.writers
    ensures TableOk(c, s')
  {
    TableKept(c, s, s');
  }

  lemma StepKeepsInv(c: Config, s: State, step: Step)
    requires IsConfig(c) && Inv(c, s) && Enabled(c, s, step)
    ensures Inv(c, Apply(c, s, step))
  {
    if IsRead(step) { ReadStepKeepsInv(c, s, step); } else { WriterStepKeepsInv(c, s, step); }
  }

  /** Over every interleaving: distinct keys, value equal to key, seed intact, reader counts never fall. */
  lemma {:induction false} RunKeepsInv(c: Config, readers: nat, states: seq<State>, steps: seq<Step>, i: nat)
    requires IsConfig(c) && IsRun(c, readers, states, steps) && i < |states|
    ensures Inv(c, states[i])
    decreases i
  {
    hide Inv, Apply, Init;
    if i == 0 {
      InitInv(c, readers);
    } else {
      RunKeepsInv(c, readers, states, steps, i - 1);
      StepKeepsInv(c, states[i - 1], steps[i - 1]);
    }
  }

  // ----- the barrier -----

  predicate AllWaiting(s: State) { forall w :: 0 <= w < |s.writers| ==> s.writers[w].Waiting? }

  /** No row beyond the seed appears before all writers have reached the barrier. */
  lemma {:induction false} BarrierFirst(c: Config, readers: nat, states: seq<State>, steps: seq<Step>, i: nat)
    requires IsConfig(c) && IsRun(c, readers, states, steps) && i < |states|
    ensures |states[i].table| > c.rows ==> exists j :: 0 <= j < i && AllWaiting(states[j])
  {
    hide Init;
    RunKeepsInv(c, readers, states, steps, i);
    if states[i].released {
      var j := ReleasedAfterWaiting(c, readers, states, steps, i);
      assert AllWaiting(states[j]);
    }
  }

  lemma {:induction false} ReleasedAfterWaiting(c: Config, readers: nat, states: seq<State>, steps: seq<Step>, i: nat)
    returns (j: nat)
    requires IsRun(c, readers, states, steps) && i < |states| && states[i].released
    ensures j < i && AllWaiting(states[j])
    decreases i
  {
    NotReleasedAtStart(c, readers);
    if steps[i - 1].Release? {
      j := i - 1;
    } else {
      ReleaseOnlyByRelease(c, states[i - 1], steps[i - 1]);
      j := ReleasedAfterWaiting(c, readers, states, steps, i - 1);
    }
  }

  lemma NotReleasedAtStart(c: Config, readers: nat)
    ensures !Init(c, readers).released
  {
  }

  lemma ReleaseOnlyByRelease(c: Config, s: State, step: Step)
    requires Enabled(c, s, step) && !step.Release?
    ensures Apply(c, s, step).released == s.released
  {
  }

  // ----- the end -----

  predicate AllFinished(s: State) { forall w :: 0 <= w < |s.writers| ==> s.writers[w].Finished? }

  function Expected(c: Config): nat { c.rows + c.writers * c.perWriter }

  /** When all writers have finished, exactly the keys below the expected count are there. */
  lemma FinishedTable(c: Config, s: State)
    requires Inv(c, s) && AllFinished(s)
    ensures forall k :: HasKey(s.table, k) <==> 0 <= k < Expected(c)
    ensures |s.table| == Expected(c)
  {
    forall k
      ensures HasKey(s.table, k) <==> 0 <= k < Expected(c)
    {
      FinishedKeys(c, s, k);
    }
    TableSize(s.table, Expected(c));
  }

  lemma FinishedKeys(c: Config, s: State, k: int)
    requires Inv(c, s) && AllFinished(s)
    ensures HasKey(s.table, k) <==> 0 <= k < Expected(c)
  {
    hide ReaderOk, BarrierOk, Rising;
    if Owned(c, s, k) {
      if !(0 <= k < c.rows) {
        var w :| 0 <= w < |s.writers| && OwnedBy(c, s, k, w);
        RangesDisjoint(c, w, c.writers);
      }
    } else if c.rows <= k < Expected(c) {
      WriterOf(c, s, k);
    }
    assert HasKey(s.table, k) ==> Owned(c, s, k);
  }

  /** Every key in the written part has a writer. */
  lemma WriterOf(c: Config, s: State, k: int)
    requires |s.writers| == c.writers && AllFinished(s) && c.rows <= k < Expected(c)
    ensures Owned(c, s, k)
  {
    var w := (k - c.rows) / c.perWriter;
    WriterIndex(k - c.rows, c.perWriter, c.writers);
    assert OwnedBy(c, s, k, w);
  }

  lemma WriterIndex(x: nat, per: nat, n: nat)
    requires x < n * per
    ensures per > 0 && 0 <= x / per < n && (x / per) * per <= x < (x / per) * per + per
  {
    assert per == 0 ==> n * per == 0;
    var q := x / per;
    assert x == q * per + x % per;
    assert q >= n ==> q * per >= n * per by { if q > n { MulGap(n, q, per); } }
  }

  lemma {:induction false} TableSize(table: seq<Row>, n: nat)
    requires DistinctKeys(table) && forall k :: HasKey(table, k) <==> 0 <= k < n
    ensures |table| == n
  {
    var keys := KeySet(table);
    KeySetSize(table);
    var all := Below(n);
    assert keys == all by {
      forall k
        ensures k in keys <==> k in all
      {
        assert k in keys <==> HasKey(table, k);
      }
    }
  }

  function KeySet(table: seq<Row>): set<int> { set i | 0 <= i < |table| :: table[i].k }

  function Below(n: nat): (s: set<int>)
    ensures forall k :: k in s <==> 0 <= k < n
    ensures |s| == n
  {
    if n == 0 then {} else Below(n - 1) + {n - 1}
  }

  lemma {:induction false} KeySetSize(table: seq<Row>)
    requires DistinctKeys(table)
    ensures |KeySet(table)| == |table|
    decreases |table|
  {
    if table != [] {
      var n := |table| - 1;
      var t := table[..n];
      KeySetSize(t);
      forall k
        ensures k in KeySet(table) <==> k in KeySet(t) || k == table[n].k
      {
        KeySetMember(table, k);
        KeySetMember(t, k);
      }
      KeySetMember(t, table[n].k);
      assert KeySet(table) == KeySet(t) + {table[n].k};
    }
  }

  lemma KeySetMember(table: seq<Row>, k: int)
    ensures k in KeySet(table) <==> exists i :: 0 <= i < |table| && table[i].k == k
  {
  }

  // ----- the final checks of `run_mixed` -----

  /** A lookup that finds the key with its value. */
  predicate FoundAsWritten(table: seq<Row>, key: int) {
    var got := MatchesOf(table, key);
    got != [] && got[0] == key
  }

  predicate ChecksPass(c: Config, table: seq<Row>) {
    && |table| == Expected(c)
    && (forall w :: 0 <= w < c.writers ==>
          && FoundAsWritten(table, Start(c, w))
          && FoundAsWritten(table, Start(c, w) + c.perWriter / 2)
          && FoundAsWritten(table, Start(c, w) + c.perWriter - 1))
    && FoundAsWritten(table, 0) && FoundAsWritten(table, c.rows / 2) && FoundAsWritten(table, c.rows - 1)
  }

  lemma FoundExactly(c: Config, s: State, key: int)
    requires Inv(c, s) && AllFinished(s)
    ensures FoundAsWritten(s.table, key) <==> 0 <= key < Expected(c)
  {
    hide ReaderOk, BarrierOk;
    FinishedKeys(c, s, key);
    if HasKey(s.table, key) {
      MatchesUnique(s.table, key);
    } else {
      MatchesNone(s.table, key);
    }
  }

  /** The final checks accept a finished run exactly when the sizes that the command line demands are positive. */
  lemma ChecksPassExactly(c: Config, s: State)
    requires Inv(c, s) && AllFinished(s)
    ensures ChecksPass(c, s.table) <==> c.rows >= 1 && (c.writers == 0 || c.perWriter >= 1)
  {
    hide Inv, FoundAsWritten, AllFinished;
    forall key
      ensures FoundAsWritten(s.table, key) <==> 0 <= key < Expected(c)
    {
      FoundExactly(c, s, key);
    }
    FinishedTable(c, s);
    forall w | 0 <= w < c.writers
      ensures Start(c, w) + c.perWriter <= Expected(c)
    {
      RangesDisjoint(c, w, c.writers);
    }
    if c.writers > 0 && c.perWriter == 0 {
      assert Start(c, 0) == c.rows == Expected(c);
    }
  }

  // ----- progress -----

  /** The writer's own steps still to come, counted generously. */
  function Remaining(c: Config, p: Phase): nat
    requires PhaseOk(c, p)
  {
    match p
    case Starting => 2 * c.perWriter + 3
    case Waiting => 2 * c.perWriter + 2
    case Writing(o, d) => 2 * (c.perWriter - Smaller(o, c.perWriter)) - d + 1
    case Finished => 0
    case Failed(_, _) => 0
  }

  function Work(c: Config, ps: seq<Phase>): nat
    requires forall w :: 0 <= w < |ps| ==> PhaseOk(c, ps[w])
  {
    if ps == [] then 0 else Work(c, ps[..|ps| - 1]) + Remaining(c, ps[|ps| - 1])
  }

  lemma {:induction false} WorkUpdate(c: Config, ps: seq<Phase>, w: nat, p: Phase)
    requires (forall v :: 0 <= v < |ps| ==> PhaseOk(c, ps[v])) && w < |ps| && PhaseOk(c, p)
    ensures Work(c, ps[w := p]) == Work(c, ps) - Remaining(c, ps[w]) + Remaining(c, p)
    decreases |ps|
  {
    hide Remaining, PhaseOk;
    var n := |ps| - 1;
    if w == n {
      assert ps[w := p][..n] == ps[..n];
    } else {
      assert ps[w := p][..n] == ps[..n][w := p];
      WorkUpdate(c, ps[..n], w, p);
    }
  }

  lemma {:induction false} WorkBounds(c: Config, ps: seq<Phase>, p: Phase)
    requires PhaseOk(c, p) && forall w :: 0 <= w < |ps| ==> ps[w] == p
    ensures Work(c, ps) == |ps| * Remaining(c, p)
    decreases |ps|
  {
    if ps != [] {
      WorkBounds(c, ps[..|ps| - 1], p);
      assert |ps| * Remaining(c, p) == (|ps| - 1) * Remaining(c, p) + Remaining(c, p);
    }
  }

  /** Every step of a writer lowers the work left; readers leave it alone. */
  lemma StepLowersWork(c: Config, s: State, step: Step)
    requires IsConfig(c) && Inv(c, s) && Enabled(c, s, step)
    ensures Inv(c, Apply(c, s, step))
    ensures IsRead(step) ==> Work(c, Apply(c, s, step).writers) == Work(c, s.writers)
    ensures !IsRead(step) ==> Work(c, Apply(c, s, step).writers) < Work(c, s.writers)
  {
    StepKeepsInv(c, s, step);
    PhasesOk(c, s);
    PhasesOk(c, Apply(c, s, step));
    hide Inv, Work;
    if step.Release? {
      ReleaseLowersWork(c, s);
    } else if IsRead(step) {
      ReadShape(c, s, step);
    } else {
      OwnStepLowersWork(c, s, step);
    }
  }

  lemma PhasesOk(c: Config, s: State)
    requires Inv(c, s)
    ensures forall w :: 0 <= w < |s.writers| ==> PhaseOk(c, s.writers[w])
  {
    hide TableOk, BarrierOk, ReaderOk, PhaseOk;
  }

  lemma ReleaseLowersWork(c: Config, s: State)
    requires Enabled(c, s, Release)
    ensures
      var ps, ps' := s.writers, Apply(c, s, Release).writers;
      && (forall w :: 0 <= w < |ps| ==> PhaseOk(c, ps[w])) && (forall w :: 0 <= w < |ps'| ==> PhaseOk(c, ps'[w]))
      && Work(c, ps') < Work(c, ps)
  {
    var ps, ps' := s.writers, Apply(c, s, Release).writers;
    WorkBounds(c, ps, Waiting);
    WorkBounds(c, ps', Writing(0, 0));
    hide Work;
    assert |ps| * (2 * c.perWriter + 2) == |ps| * (2 * c.perWriter + 1) + |ps|;
  }

  /** A writer's step of its own changes its phase only, to one with less to do. */
  lemma OwnStepLowersWork(c: Config, s: State, step: Step)
    requires IsConfig(c) && Enabled(c, s, step) && !IsRead(step) && !step.Release?
    requires forall w :: 0 <= w < |s.writers| ==> PhaseOk(c, s.writers[w])
    ensures
      var ps' := Apply(c, s, step).writers;
      && (forall w :: 0 <= w < |ps'| ==> PhaseOk(c, ps'[w]))
      && Work(c, ps') < Work(c, s.writers)
  {
    hide Work;
    var w := step.w;
    var p' := Apply(c, s, step).writers[w];
    assert Apply(c, s, step).writers == s.writers[w := p'];
    assert PhaseOk(c, s.writers[w]) && PhaseOk(c, p');
    assert Remaining(c, p') < Remaining(c, s.writers[w]);
    hide Apply, Enabled, Remaining, PhaseOk;
    WorkUpdate(c, s.writers, w, p');
  }

  /** Until all writers have finished, and as long as none fails, some writer can take a step. */
  lemma WritersNeverStick(c: Config, s: State) returns (step: Step)
    requires IsConfig(c) && Inv(c, s) && !AllFinished(s)
    requires forall w :: 0 <= w < |s.writers| ==> !s.writers[w].Failed?
    ensures Enabled(c, s, step) && !IsRead(step) && !step.Fail?
  {
    if s.released {
      var w :| 0 <= w < |s.writers| && !s.writers[w].Finished?;
      var p := s.writers[w];
      step := if p.offset >= c.perWriter then Finish(w)
              else if p.done < BatchSize(c, p.offset) then Publish(w)
              else NextBatch(w);
    } else if w :| 0 <= w < |s.writers| && s.writers[w].Starting? {
      step := Arrive(w);
    } else {
      step := Release;
    }
  }

  /** Some continuation without failures or reads finishes all writers. */
  lemma {:induction false} WritersCanFinish(c: Config, s: State) returns (states: seq<State>, steps: seq<Step>)
    requires IsConfig(c) && Inv(c, s)
    requires forall w :: 0 <= w < |s.writers| ==> !s.writers[w].Failed?
    ensures |states| == |steps| + 1 && states[0] == s && AllFinished(states[|steps|])
    ensures forall i :: 0 <= i < |steps| ==>
      && Enabled(c, states[i], steps[i]) && states[i + 1] == Apply(c, states[i], steps[i])
      && !steps[i].Fail? && !IsRead(steps[i])
    decreases Work(c, s.writers)
  {
    if AllFinished(s) {
      states, steps := [s], [];
    } else {
      var step := WritersNeverStick(c, s);
      StepLowersWork(c, s, step);
      NoNewFailure(c, s, step);
      var more, rest := WritersCanFinish(c, Apply(c, s, step));
      states, steps := [s] + more, [step] + rest;
    }
  }

  lemma NoNewFailure(c: Config, s: State, step: Step)
    requires Enabled(c, s, step) && !step.Fail? && forall w :: 0 <= w < |s.writers| ==> !s.writers[w].Failed?
    ensures forall w :: 0 <= w < |Apply(c, s, step).writers| ==> !Apply(c, s, step).writers[w].Failed?
  {
  }

  function WriterSteps(steps: seq<Step>): nat {
    if steps == [] then 0
    else WriterSteps(steps[..|steps| - 1]) + if IsRead(steps[|steps| - 1]) then 0 else 1
  }

  /** No run has more writer steps than the work at its start: writers cannot go on forever. */
  lemma {:induction false} WriterStepsBounded(c: Config, readers: nat, states: seq<State>, steps: seq<Step>, i: nat)
    requires IsConfig(c) && IsRun(c, readers, states, steps) && i <= |steps|
    ensures Inv(c, states[i])
    ensures WriterSteps(steps[..i]) + Work(c, states[i].writers) <= c.writers * (2 * c.perWriter + 3)
    decreases i
  {
    hide Init, Apply, Remaining;
    RunKeepsInv(c, readers, states, steps, i);
    if i == 0 {
      InitialWork(c, readers);
    } else {
      WriterStepsBounded(c, readers, states, steps, i - 1);
      StepLowersWork(c, states[i - 1], steps[i - 1]);
      assert steps[..i][..i - 1] == steps[..i - 1];
    }
  }

  lemma InitialWork(c: Config, readers: nat)
    ensures
      var ps := Init(c, readers).writers;
      && (forall w :: 0 <= w < |ps| ==> PhaseOk(c, ps[w]))
      && Work(c, ps) == c.writers * (2 * c.perWriter + 3)
  {
    WorkBounds(c, Init(c, readers).writers, Starting);
  }

  /** A failure-free run that cannot be continued by a writer has finished all of them, and the table is complete. */
  lemma MaximalRunsComplete(c: Config, readers: nat, states: seq<State>, steps: seq<Step>)
    requires IsConfig(c) && IsRun(c, readers, states, steps)
    requires forall w :: 0 <= w < |states[|steps|].writers| ==> !states[|steps|].writers[w].Failed?
    requires forall step :: Enabled(c, states[|steps|], step) ==> IsRead(step) || step.Fail?
    ensures AllFinished(states[|steps|]) && |states[|steps|].table| == Expected(c)
    ensures forall k :: HasKey(states[|steps|].table, k) <==> 0 <= k < Expected(c)
  {
    hide Inv, Init, Apply, AllFinished;
    var s := states[|steps|];
    RunKeepsInv(c, readers, states, steps, |steps|);
    if !AllFinished(s) {
      var step := WritersNeverStick(c, s);
    }
    FinishedTable(c, s);
  }
}

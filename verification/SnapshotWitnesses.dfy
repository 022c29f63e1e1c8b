/**
 Runs of the manager and the database that show what the exact conditions exclude: a snapshot that reads
 a row before its commit, a read that the manager never hears of, and two commits of one row that may
 publish in either order.
 */
module SnapshotWitnesses {
  import opened Text
  import opened VersionStore
  import opened SnapshotReads
  import opened SnapshotRuns
  import opened SnapshotCommits
  import C = ConflictDetector
  import T = Transactions

  // ----- a run in which a snapshot reads an uncommitted row -----

  lemma Extend(storage: map<nat, Row>, states: seq<Sys>, acts: seq<Act>, a: Act, next: Sys)
    returns (states': seq<Sys>, acts': seq<Act>)
    requires |states| == |acts| + 1 && IsRun(storage, states, acts)
    requires CanAct(states[|acts|], a) && next == Next(states[|acts|], a)
    ensures acts' == acts + [a] && states' == states + [next] && IsRun(storage, states', acts')
  {
    hide CanAct, Next;
    states', acts' := states + [next], acts + [a];
  }

  /** The manager after a reader and a writer of the row began, with the writer at the given stage. */
  function Two(clock: nat, stage: T.Stage, preparedAt: nat, ts: Option<nat>, log: seq<C.CommittedWrite>,
      locked: bool): T.State {
    var k := KeyOf(0);
    T.State(clock, [T.Txn(1, {}, [], T.Active, 0, None), T.Txn(2, {}, [k], stage, preparedAt, ts)], log,
            if locked then map[k := 1] else map[])
  }

  function Writer(x: Row, y: Row, applied: nat, published: nat): seq<Plan> {
    [Plan([], 0, 0), Plan([Update(0, x, y)], applied, published)]
  }

  lemma BothBegin(x: Row) returns (states: seq<Sys>, acts: seq<Act>)
    ensures |acts| == 4 && |states| == 5 && IsRun(map[0 := x], states, acts)
    ensures
      var a, b := T.Txn(1, {}, [], T.Active, 0, None), T.Txn(2, {}, [], T.Active, 0, None);
      states[4] == Sys(T.State(3, [a, b], [], map[]), Db(map[0 := x], map[]), [Plan([], 0, 0), Plan([], 0, 0)])
  {
    var storage := map[0 := x];
    var db, none := Db(storage, map[]), Plan([], 0, 0);
    states, acts := [Init(storage)], [];
    hide IsRun;
    assert IsRun(storage, states, acts) by { StartIsRun(storage); }
    var a, b := T.Txn(1, {}, [], T.Taken, 0, None), T.Txn(2, {}, [], T.Taken, 0, None);
    var a', b' := a.(stage := T.Active), b.(stage := T.Active);
    states, acts := Extend(storage, states, acts, Core(T.Take), Sys(T.State(2, [a], [], map[]), db, [none]));
    states, acts := Extend(storage, states, acts, Core(T.Register(0)), Sys(T.State(2, [a'], [], map[]), db, [none]));
    states, acts := Extend(storage, states, acts, Core(T.Take), Sys(T.State(3, [a', b], [], map[]), db, [none, none]));
    states, acts :=
        Extend(storage, states, acts, Core(T.Register(1)), Sys(T.State(3, [a', b'], [], map[]), db, [none, none]));
  }

  lemma StartIsRun(storage: map<nat, Row>)
    ensures IsRun(storage, [Init(storage)], [])
  {
  }

  lemma WriterPrepares(x: Row, y: Row) returns (states: seq<Sys>, acts: seq<Act>)
    ensures |acts| == 6 && |states| == 7 && IsRun(map[0 := x], states, acts)
    ensures states[6] == Sys(Two(3, T.Validating, 3, None, [], true), Db(map[0 := x], map[]), Writer(x, y, 0, 0))
  {
    var storage, k, w := map[0 := x], KeyOf(0), Update(0, x, y);
    states, acts := BothBegin(x);
    hide IsRun, C.Unlocked, C.Entries, T.Oldest, T.Pruned;
    var db := Db(storage, map[]);
    assert [] + [k] == [k] && [] + [w] == [w];
    states, acts :=
        Extend(storage, states, acts, Buffer(1, w), Sys(Two(3, T.Active, 0, None, [], false), db, Writer(x, y, 0, 0)));
    var s := Two(3, T.Active, 0, None, [], false);
    assert !T.Refused(s, 1);
    assert C.Locked(map[], T.Keys(s.txns[1]), 1) == map[k := 1];
    states, acts :=
        Extend(storage, states, acts, Core(T.Prepare(1)),
               Sys(Two(3, T.Validating, 3, None, [], true), db, Writer(x, y, 0, 0)));
  }

  lemma RecordsAtThree()
    ensures
      var k := KeyOf(0);
      var s := Two(3, T.Validating, 3, None, [], true);
      && T.Enabled(s, T.Record(1))
      && T.Apply(s, T.Record(1)) == Two(4, T.Recorded, 3, Some(3), [C.CommittedWrite(1, 3, k)], false)
  {
    var k, s := KeyOf(0), Two(3, T.Validating, 3, None, [], true);
    assert C.Unlocked(s.intents, T.Keys(s.txns[1]), 1) == map[];
    assert [] + C.Entries(1, 3, [k]) == [C.CommittedWrite(1, 3, k)];
  }

  /** The chains after the writer has published. */
  function After(x: Row, y: Row): Chains { VersionStore.Publish(map[], Update(0, x, y), 3) }

  lemma WriterCommits(x: Row, y: Row) returns (states: seq<Sys>, acts: seq<Act>)
    ensures |acts| == 9 && |states| == 10 && IsRun(map[0 := x], states, acts)
    ensures acts[6] == Apply(1) && acts[8] == Publish(1)
    ensures states[6].db == Db(map[0 := x], map[]) && states[7].db == Db(map[0 := Merged(x, y)], map[])
    ensures states[9].db == Db(map[0 := Merged(x, y)], After(x, y))
    ensures states[7].core == Two(3, T.Validating, 3, None, [], true)
    ensures states[9].core == Two(4, T.Recorded, 3, Some(3), [C.CommittedWrite(1, 3, KeyOf(0))], false)
    ensures states[9].plans == Writer(x, y, 1, 1)
  {
    var storage, log := map[0 := x], [C.CommittedWrite(1, 3, KeyOf(0))];
    states, acts := WriterPrepares(x, y);
    var more, nexts := WriterPath(x, y, log);
    hide IsRun, Path, Two, Writer, Merged, After;
    Follow(storage, states, acts, more, nexts);
    states, acts := states + nexts, acts + more;
  }

  lemma WriterPath(x: Row, y: Row, log: seq<C.CommittedWrite>) returns (more: seq<Act>, nexts: seq<Sys>)
    requires log == [C.CommittedWrite(1, 3, KeyOf(0))]
    ensures Path(Sys(Two(3, T.Validating, 3, None, [], true), Db(map[0 := x], map[]), Writer(x, y, 0, 0)), more, nexts)
    ensures more == [Apply(1), Core(T.Record(1)), Publish(1)] && |nexts| == 3
    ensures nexts[0].core == Two(3, T.Validating, 3, None, [], true)
    ensures nexts[0].db == Db(map[0 := Merged(x, y)], map[])
    ensures nexts[2] == Sys(Two(4, T.Recorded, 3, Some(3), log, false), Db(map[0 := Merged(x, y)], After(x, y)),
                            Writer(x, y, 1, 1))
  {
    var core, done := Two(3, T.Validating, 3, None, [], true), Two(4, T.Recorded, 3, Some(3), log, false);
    var db, db' := Db(map[0 := x], map[]), Db(map[0 := Merged(x, y)], map[]);
    var db'' := Db(map[0 := Merged(x, y)], After(x, y));
    WriterLeads(x, y, log);
    hide Leads, Two, Writer, Merged, After;
    more := [Apply(1), Core(T.Record(1)), Publish(1)];
    nexts := [Sys(core, db', Writer(x, y, 1, 0)), Sys(done, db', Writer(x, y, 1, 0)),
              Sys(done, db'', Writer(x, y, 1, 1))];
  }

  lemma WriterLeads(x: Row, y: Row, log: seq<C.CommittedWrite>)
    requires log == [C.CommittedWrite(1, 3, KeyOf(0))]
    ensures
      var core, done := Two(3, T.Validating, 3, None, [], true), Two(4, T.Recorded, 3, Some(3), log, false);
      var db, db' := Db(map[0 := x], map[]), Db(map[0 := Merged(x, y)], map[]);
      var db'' := Db(map[0 := Merged(x, y)], After(x, y));
      && Leads(Sys(core, db, Writer(x, y, 0, 0)), Apply(1), Sys(core, db', Writer(x, y, 1, 0)))
      && Leads(Sys(core, db', Writer(x, y, 1, 0)), Core(T.Record(1)), Sys(done, db', Writer(x, y, 1, 0)))
      && Leads(Sys(done, db', Writer(x, y, 1, 0)), Publish(1), Sys(done, db'', Writer(x, y, 1, 1)))
  {
    RecordsAtThree();
    hide T.Apply, VersionStore.Publish, Merged;
    assert map[0 := x][0 := Merged(x, y)] == map[0 := Merged(x, y)];
  }

  /**
   A reader with snapshot 1 and a writer that changes its row: once the change is in storage the reader
   reads it, before the writer has a timestamp, and once the writer has published the reader is back at the old row.
   */
  lemma ReadsUncommittedRow(x: Row, y: Row) returns (states: seq<Sys>, acts: seq<Act>)
    requires x != map[] && Merged(x, y) != x
    ensures |acts| == 9 && |states| == 10 && IsRun(map[0 := x], states, acts)
    ensures TxnRead(SelectAll(), states[6].db, 0, 1) == Some(x)
    ensures TxnRead(SelectAll(), states[7].db, 0, 1) == Some(Merged(x, y))
    ensures states[7].core == Two(3, T.Validating, 3, None, [], true)
    ensures TxnRead(SelectAll(), states[9].db, 0, 1) == Some(x)
  {
    states, acts := WriterCommits(x, y);
    BackAtOldRow(x, y);
    PlainRead(x);
    PlainRead(Merged(x, y));
    hide IsRun, After, Merged, TxnRead, Two;
  }

  lemma PlainRead(z: Row)
    ensures TxnRead(SelectAll(), Db(map[0 := z], map[]), 0, 1) == Some(z)
  {
    AllColumns(z);
  }

  lemma AllColumns(z: Row)
    ensures SelectAll().output(z) == z
  {
  }

  lemma BackAtOldRow(x: Row, y: Row)
    requires x != map[]
    ensures TxnRead(SelectAll(), Db(map[0 := Merged(x, y)], After(x, y)), 0, 1) == Some(x)
  {
    PublishView(map[], Update(0, x, y), 3, 1);
    AllColumns(Merged(x, y));
    hide VersionStore.Publish, ViewOf;
    assert Merged(Merged(x, y), x) == x;
  }

  // ----- a read that nobody recorded -----

  /** The manager after the writer of row 0 has published, with the reader at the given stage of writing row 1. */
  function ReaderWrites(clock: nat, stage: T.Stage, preparedAt: nat, ts: Option<nat>, log: seq<C.CommittedWrite>,
      locked: bool): T.State {
    var j, k := KeyOf(1), KeyOf(0);
    T.State(clock, [T.Txn(1, {}, [j], stage, preparedAt, ts), T.Txn(2, {}, [k], T.Recorded, 3, Some(3))], log,
            if locked then map[j := 0] else map[])
  }

  function BothPlans(x: Row, y: Row, data: Row, applied: nat): seq<Plan> {
    [Plan([Insert(1, data)], applied, 0), Plan([Update(0, x, y)], 1, 1)]
  }

  lemma ReaderPasses(log: seq<C.CommittedWrite>)
    requires log == [C.CommittedWrite(1, 3, KeyOf(0))]
    ensures
      var s := ReaderWrites(4, T.Active, 0, None, log, false);
      && !T.Refused(s, 0)
      && T.Apply(s, T.Prepare(0)) == ReaderWrites(4, T.Validating, 4, None, log, true)
  {
    var s := ReaderWrites(4, T.Active, 0, None, log, false);
    assert T.Keys(s.txns[0]) == {KeyOf(1)};
    assert !C.KeyConflicts(log, 0, 1, KeyOf(1));
    assert C.Locked(map[], {KeyOf(1)}, 0) == map[KeyOf(1) := 0];
  }

  lemma ReaderRecords(log: seq<C.CommittedWrite>)
    ensures
      var s := ReaderWrites(4, T.Validating, 4, None, log, true);
      var log' := log + [C.CommittedWrite(0, 4, KeyOf(1))];
      T.Apply(s, T.Record(0)) == ReaderWrites(5, T.Recorded, 4, Some(4), log', false)
  {
    var s := ReaderWrites(4, T.Validating, 4, None, log, true);
    assert C.Unlocked(s.intents, T.Keys(s.txns[0]), 0) == map[];
    assert C.Entries(0, 4, [KeyOf(1)]) == [C.CommittedWrite(0, 4, KeyOf(1))];
  }

  predicate Leads(s: Sys, a: Act, s': Sys) { CanAct(s, a) && Next(s, a) == s' }

  lemma FollowTo(storage: map<nat, Row>, states: seq<Sys>, acts: seq<Act>, more: seq<Act>, nexts: seq<Sys>)
    returns (ss: seq<Sys>, aa: seq<Act>)
    requires |states| == |acts| + 1 && IsRun(storage, states, acts) && Path(states[|acts|], more, nexts) && nexts != []
    ensures |ss| == |aa| + 1 && IsRun(storage, ss, aa) && ss[|aa|] == nexts[|nexts| - 1]
  {
    hide IsRun, Path, CanAct, Next;
    Follow(storage, states, acts, more, nexts);
    ss, aa := states + nexts, acts + more;
  }

  lemma ReaderBuffers(x: Row, y: Row, data: Row, db: Db, log: seq<C.CommittedWrite>)
    requires 1 !in db.storage
    ensures Leads(Sys(Two(4, T.Recorded, 3, Some(3), log, false), db, Writer(x, y, 1, 1)), Buffer(0, Insert(1, data)),
                  Sys(ReaderWrites(4, T.Active, 0, None, log, false), db, BothPlans(x, y, data, 0)))
  {
    assert [] + [KeyOf(1)] == [KeyOf(1)] && [] + [Insert(1, data)] == [Insert(1, data)];
  }

  lemma ReaderPrepares(x: Row, y: Row, data: Row, db: Db, log: seq<C.CommittedWrite>)
    requires log == [C.CommittedWrite(1, 3, KeyOf(0))]
    ensures Leads(Sys(ReaderWrites(4, T.Active, 0, None, log, false), db, BothPlans(x, y, data, 0)), Core(T.Prepare(0)),
                  Sys(ReaderWrites(4, T.Validating, 4, None, log, true), db, BothPlans(x, y, data, 0)))
  {
    ReaderPasses(log);
    hide T.Apply, T.Refused;
  }

  lemma ReaderApplies(x: Row, y: Row, data: Row, db: Db, log: seq<C.CommittedWrite>)
    ensures Leads(Sys(ReaderWrites(4, T.Validating, 4, None, log, true), db, BothPlans(x, y, data, 0)), Apply(0),
                  Sys(ReaderWrites(4, T.Validating, 4, None, log, true), db.(storage := db.storage[1 := data]),
                      BothPlans(x, y, data, 1)))
  {
  }

  lemma ReaderCommits(x: Row, y: Row, data: Row, db: Db, log: seq<C.CommittedWrite>)
    ensures Leads(Sys(ReaderWrites(4, T.Validating, 4, None, log, true), db, BothPlans(x, y, data, 1)),
                  Core(T.Record(0)),
                  Sys(ReaderWrites(5, T.Recorded, 4, Some(4), log + [C.CommittedWrite(0, 4, KeyOf(1))], false), db,
                      BothPlans(x, y, data, 1)))
  {
    ReaderRecords(log);
    hide T.Apply;
  }

  /** Each act leads from the state before it to the next one. */
  predicate Path(s: Sys, more: seq<Act>, nexts: seq<Sys>) {
    && |more| == |nexts|
    && forall i :: 0 <= i < |more| ==> Leads(Prior(s, nexts, i), more[i], nexts[i])
  }

  function Prior(s: Sys, nexts: seq<Sys>, i: nat): Sys
    requires i < |nexts|
  {
    if i == 0 then s else nexts[i - 1]
  }

  lemma Follow(storage: map<nat, Row>, states: seq<Sys>, acts: seq<Act>, more: seq<Act>, nexts: seq<Sys>)
    requires |states| == |acts| + 1 && IsRun(storage, states, acts) && Path(states[|acts|], more, nexts)
    ensures |more| == |nexts| && IsRun(storage, states + nexts, acts + more)
  {
    hide CanAct, Next;
    var ss, aa := states + nexts, acts + more;
    forall i | 0 <= i < |aa|
      ensures CanAct(ss[i], aa[i]) && ss[i + 1] == Next(ss[i], aa[i])
    {
      if i >= |acts| {
        var j := i - |acts|;
        assert Leads(Prior(states[|acts|], nexts, j), more[j], nexts[j]);
        assert ss[i] == Prior(states[|acts|], nexts, j) && ss[i + 1] == nexts[j];
      }
    }
  }

  /**
   The reader saw row 0, another transaction changed it and committed before the reader was validated, and the
   reader, which writes another row, commits all the same: no statement told the manager about the read.
   */
  lemma UnrecordedReadOverwritten(x: Row, y: Row, data: Row) returns (states: seq<Sys>, acts: seq<Act>)
    requires x != map[] && Merged(x, y) != x
    ensures |acts| == 13 && |states| == 14 && IsRun(map[0 := x], states, acts)
    ensures TxnRead(SelectAll(), states[6].db, 0, 1) == Some(x)
    ensures
      var log := [C.CommittedWrite(1, 3, KeyOf(0)), C.CommittedWrite(0, 4, KeyOf(1))];
      states[13].core == ReaderWrites(5, T.Recorded, 4, Some(4), log, false)
    ensures states[13].db.storage == map[0 := Merged(x, y), 1 := data]
  {
    var storage, log := map[0 := x], [C.CommittedWrite(1, 3, KeyOf(0))];
    states, acts := WriterCommits(x, y);
    PlainRead(x);
    hide IsRun, TxnRead, Merged, After, ReaderWrites, BothPlans, Two, Writer, SelectAll;
    var more, nexts := ReaderPath(x, y, data, log);
    Follow(storage, states, acts, more, nexts);
    states, acts := states + nexts, acts + more;
    var last := C.CommittedWrite(0, 4, KeyOf(1));
    assert log + [last] == [C.CommittedWrite(1, 3, KeyOf(0)), last];
    assert map[0 := Merged(x, y)][1 := data] == map[0 := Merged(x, y), 1 := data];
  }

  lemma ReaderPath(x: Row, y: Row, data: Row, log: seq<C.CommittedWrite>) returns (more: seq<Act>, nexts: seq<Sys>)
    requires log == [C.CommittedWrite(1, 3, KeyOf(0))]
    ensures
      var db := Db(map[0 := Merged(x, y)], After(x, y));
      Path(Sys(Two(4, T.Recorded, 3, Some(3), log, false), db, Writer(x, y, 1, 1)), more, nexts)
    ensures |more| == |nexts| == 4
    ensures nexts[3].core == ReaderWrites(5, T.Recorded, 4, Some(4), log + [C.CommittedWrite(0, 4, KeyOf(1))], false)
    ensures nexts[3].db.storage == map[0 := Merged(x, y)][1 := data]
  {
    var db := Db(map[0 := Merged(x, y)], After(x, y));
    var db' := db.(storage := db.storage[1 := data]);
    ReaderBuffers(x, y, data, db, log);
    ReaderPrepares(x, y, data, db, log);
    ReaderApplies(x, y, data, db, log);
    ReaderCommits(x, y, data, db', log);
    hide Merged, After, Leads, ReaderWrites, BothPlans, Two, Writer;
    var active := ReaderWrites(4, T.Active, 0, None, log, false);
    var core := ReaderWrites(4, T.Validating, 4, None, log, true);
    var done := ReaderWrites(5, T.Recorded, 4, Some(4), log + [C.CommittedWrite(0, 4, KeyOf(1))], false);
    more := [Buffer(0, Insert(1, data)), Core(T.Prepare(0)), Apply(0), Core(T.Record(0))];
    nexts := [Sys(active, db, BothPlans(x, y, data, 0)), Sys(core, db, BothPlans(x, y, data, 0)),
              Sys(core, db', BothPlans(x, y, data, 1)), Sys(done, db', BothPlans(x, y, data, 1))];
  }

  // ----- two commits of one row, neither published -----

  function One(clock: nat, stage: T.Stage, writes: seq<C.Key>, preparedAt: nat, ts: Option<nat>,
      log: seq<C.CommittedWrite>, intents: map<C.Key, nat>): T.State {
    T.State(clock, [T.Txn(1, {}, writes, stage, preparedAt, ts)], log, intents)
  }

  /** The first writer recorded its commit of row 0 at 2; the second one is at the given stage. */
  function Second(clock: nat, stage: T.Stage, writes: seq<C.Key>, preparedAt: nat, ts: Option<nat>,
      log: seq<C.CommittedWrite>, intents: map<C.Key, nat>): T.State {
    T.State(clock, [T.Txn(1, {}, [KeyOf(0)], T.Recorded, 2, Some(2)), T.Txn(3, {}, writes, stage, preparedAt, ts)], log,
            intents)
  }

  lemma FirstSteps(k: C.Key)
    requires k == KeyOf(0)
    ensures
      var a, v := One(2, T.Active, [k], 0, None, [], map[]), One(2, T.Validating, [k], 2, None, [], map[k := 0]);
      && T.Apply(a, T.Prepare(0)) == v
      && T.Apply(v, T.Record(0)) == One(3, T.Recorded, [k], 2, Some(2), [C.CommittedWrite(0, 2, k)], map[])
  {
    var a, v := One(2, T.Active, [k], 0, None, [], map[]), One(2, T.Validating, [k], 2, None, [], map[k := 0]);
    assert T.Keys(a.txns[0]) == {k} && T.Keys(v.txns[0]) == {k};
    assert !T.Refused(a, 0);
    assert C.Locked(map[], {k}, 0) == map[k := 0];
    assert C.Unlocked(v.intents, {k}, 0) == map[];
    assert [] + C.Entries(0, 2, [k]) == [C.CommittedWrite(0, 2, k)];
  }

  lemma SecondSteps(k: C.Key, log: seq<C.CommittedWrite>)
    requires k == KeyOf(0) && log == [C.CommittedWrite(0, 2, k)]
    ensures
      var a := Second(4, T.Active, [k], 0, None, log, map[]);
      var v := Second(4, T.Validating, [k], 4, None, log, map[k := 1]);
      && T.Apply(a, T.Prepare(1)) == v
      && T.Apply(v, T.Record(1)) == Second(5, T.Recorded, [k], 4, Some(4), log + [C.CommittedWrite(1, 4, k)], map[])
  {
    var a, v := Second(4, T.Active, [k], 0, None, log, map[]), Second(4, T.Validating, [k], 4, None, log, map[k := 1]);
    assert T.Keys(a.txns[1]) == {k} && T.Keys(v.txns[1]) == {k};
    assert !C.KeyConflicts(log, 1, 3, k);
    assert !T.Refused(a, 1);
    assert C.Locked(map[], {k}, 1) == map[k := 1];
    assert C.Unlocked(v.intents, {k}, 1) == map[];
    assert C.Entries(1, 4, [k]) == [C.CommittedWrite(1, 4, k)];
  }

  function FirstPlan(x: Row, y: Row, applied: nat): Plan { Plan([Update(0, x, y)], applied, 0) }

  lemma FirstBegins(x: Row, y: Row) returns (states: seq<Sys>, acts: seq<Act>)
    ensures |states| == |acts| + 1 && IsRun(map[0 := x], states, acts)
    ensures states[|acts|] ==
      Sys(One(2, T.Active, [KeyOf(0)], 0, None, [], map[]), Db(map[0 := x], map[]), [FirstPlan(x, y, 0)])
  {
    var storage, k, w := map[0 := x], KeyOf(0), Update(0, x, y);
    var db, none := Db(storage, map[]), Plan([], 0, 0);
    states, acts := [Init(storage)], [];
    assert IsRun(storage, states, acts) by { StartIsRun(storage); }
    hide IsRun, T.Refused, C.Locked, C.Unlocked, C.Entries, T.Oldest, T.Pruned;
    var taken, active := One(2, T.Taken, [], 0, None, [], map[]), One(2, T.Active, [], 0, None, [], map[]);
    states, acts := Extend(storage, states, acts, Core(T.Take), Sys(taken, db, [none]));
    states, acts := Extend(storage, states, acts, Core(T.Register(0)), Sys(active, db, [none]));
    assert [] + [k] == [k] && [] + [w] == [w];
    states, acts := Extend(storage, states, acts, Buffer(0, w),
                           Sys(One(2, T.Active, [k], 0, None, [], map[]), db, [FirstPlan(x, y, 0)]));
  }

  lemma FirstLeads(x: Row, y: Row, k: C.Key)
    requires k == KeyOf(0)
    ensures
      var a, v := One(2, T.Active, [k], 0, None, [], map[]), One(2, T.Validating, [k], 2, None, [], map[k := 0]);
      var r := One(3, T.Recorded, [k], 2, Some(2), [C.CommittedWrite(0, 2, k)], map[]);
      var db, db' := Db(map[0 := x], map[]), Db(map[0 := Merged(x, y)], map[]);
      && Leads(Sys(a, db, [FirstPlan(x, y, 0)]), Core(T.Prepare(0)), Sys(v, db, [FirstPlan(x, y, 0)]))
      && Leads(Sys(v, db, [FirstPlan(x, y, 0)]), Apply(0), Sys(v, db', [FirstPlan(x, y, 1)]))
      && Leads(Sys(v, db', [FirstPlan(x, y, 1)]), Core(T.Record(0)), Sys(r, db', [FirstPlan(x, y, 1)]))
  {
    FirstSteps(k);
    hide T.Apply, T.Refused, Merged;
    assert map[0 := x][0 := Merged(x, y)] == map[0 := Merged(x, y)];
  }

  lemma FirstRecords(x: Row, y: Row) returns (states: seq<Sys>, acts: seq<Act>)
    ensures |states| == |acts| + 1 && IsRun(map[0 := x], states, acts)
    ensures
      var k := KeyOf(0);
      states[|acts|] == Sys(One(3, T.Recorded, [k], 2, Some(2), [C.CommittedWrite(0, 2, k)], map[]),
                            Db(map[0 := Merged(x, y)], map[]), [FirstPlan(x, y, 1)])
  {
    var storage, k := map[0 := x], KeyOf(0);
    var db, db' := Db(storage, map[]), Db(map[0 := Merged(x, y)], map[]);
    states, acts := FirstBegins(x, y);
    FirstLeads(x, y, k);
    hide IsRun, Leads, One, FirstPlan, Merged;
    var v := One(2, T.Validating, [k], 2, None, [], map[k := 0]);
    var r := One(3, T.Recorded, [k], 2, Some(2), [C.CommittedWrite(0, 2, k)], map[]);
    var more := [Core(T.Prepare(0)), Apply(0), Core(T.Record(0))];
    var p := FirstPlan(x, y, 1);
    var nexts := [Sys(v, db, [FirstPlan(x, y, 0)]), Sys(v, db', [p]), Sys(r, db', [p])];
    states, acts := FollowTo(storage, states, acts, more, nexts);
  }

  lemma SecondBegins(p: Plan, db: Db, w: Write, log: seq<C.CommittedWrite>, k: C.Key)
    requires k == KeyOf(0) && w.row == 0 && Captures(db, w)
    ensures
      var none := Plan([], 0, 0);
      var r := One(3, T.Recorded, [k], 2, Some(2), log, map[]);
      var b, c := Second(4, T.Taken, [], 0, None, log, map[]), Second(4, T.Active, [], 0, None, log, map[]);
      var d := Second(4, T.Active, [k], 0, None, log, map[]);
      && Leads(Sys(r, db, [p]), Core(T.Take), Sys(b, db, [p, none]))
      && Leads(Sys(b, db, [p, none]), Core(T.Register(1)), Sys(c, db, [p, none]))
      && Leads(Sys(c, db, [p, none]), Buffer(1, w), Sys(d, db, [p, Plan([w], 0, 0)]))
  {
    hide T.Refused, C.Locked, C.Unlocked, C.Entries, T.Oldest, T.Pruned, Captures;
    assert [] + [k] == [k] && [] + [w] == [w];
  }

  lemma SecondLeads(p: Plan, db: Db, w: Write, log: seq<C.CommittedWrite>, k: C.Key)
    requires k == KeyOf(0) && log == [C.CommittedWrite(0, 2, k)]
    ensures
      var d := Second(4, T.Active, [k], 0, None, log, map[]);
      var v := Second(4, T.Validating, [k], 4, None, log, map[k := 1]);
      var r := Second(5, T.Recorded, [k], 4, Some(4), log + [C.CommittedWrite(1, 4, k)], map[]);
      var db' := db.(storage := Applied(db.storage, w));
      && Leads(Sys(d, db, [p, Plan([w], 0, 0)]), Core(T.Prepare(1)), Sys(v, db, [p, Plan([w], 0, 0)]))
      && Leads(Sys(v, db, [p, Plan([w], 0, 0)]), Apply(1), Sys(v, db', [p, Plan([w], 1, 0)]))
      && Leads(Sys(v, db', [p, Plan([w], 1, 0)]), Core(T.Record(1)), Sys(r, db', [p, Plan([w], 1, 0)]))
  {
    SecondSteps(k, log);
    hide T.Apply, T.Refused, Applied;
  }

  /** A run after which two commits of the same row have their timestamps and neither has published. */
  lemma TwoUnpublishedCommits(x: Row, y: Row, z: Row) returns (states: seq<Sys>, acts: seq<Act>)
    ensures |states| == |acts| + 1 && IsRun(map[0 := x], states, acts)
    ensures
      var s := states[|acts|];
      && Shaped(s)
      && AboutToPublish(s, 0, Update(0, x, y)) && AboutToPublish(s, 1, Update(0, Merged(x, y), z))
      && s.core.txns[0].committed == Some(2) && s.core.txns[1].committed == Some(4)
      && (x != map[] ==> Starts(s.db.chains, Update(0, x, y), Update(0, Merged(x, y), z)))
  {
    StartsHistory(x, y, z);
    var storage, k, w := map[0 := x], KeyOf(0), Update(0, Merged(x, y), z);
    var log, p, db := [C.CommittedWrite(0, 2, k)], FirstPlan(x, y, 1), Db(map[0 := Merged(x, y)], map[]);
    states, acts := FirstRecords(x, y);
    var more, nexts := SecondPath(p, db, w, log, k);
    BothWait(x, y, w, nexts[5].db, log + [C.CommittedWrite(1, 4, k)]);
    hide IsRun, Merged, Path, Second, One, Applied, FirstPlan, AboutToPublish, Starts, Shaped;
    states, acts := FollowTo(storage, states, acts, more, nexts);
    RunShaped(storage, states, acts, |acts|);
  }

  lemma BothWait(x: Row, y: Row, w: Write, db: Db, log: seq<C.CommittedWrite>)
    ensures
      var core := Second(5, T.Recorded, [KeyOf(0)], 4, Some(4), log, map[]);
      var s := Sys(core, db, [FirstPlan(x, y, 1), Plan([w], 1, 0)]);
      && AboutToPublish(s, 0, Update(0, x, y)) && AboutToPublish(s, 1, w)
      && s.core.txns[0].committed == Some(2) && s.core.txns[1].committed == Some(4)
  {
  }

  lemma StartsHistory(x: Row, y: Row, z: Row)
    ensures x != map[] ==> Starts(map[], Update(0, x, y), Update(0, Merged(x, y), z))
  {
    assert Merged(x, y).Keys == x.Keys;
  }

  lemma SecondPath(p: Plan, db: Db, w: Write, log: seq<C.CommittedWrite>, k: C.Key)
    returns (more: seq<Act>, nexts: seq<Sys>)
    requires k == KeyOf(0) && w.row == 0 && Captures(db, w) && log == [C.CommittedWrite(0, 2, k)]
    ensures Path(Sys(One(3, T.Recorded, [k], 2, Some(2), log, map[]), db, [p]), more, nexts) && |nexts| == 6
    ensures nexts[5] == Sys(Second(5, T.Recorded, [k], 4, Some(4), log + [C.CommittedWrite(1, 4, k)], map[]),
                            db.(storage := Applied(db.storage, w)), [p, Plan([w], 1, 0)])
  {
    SecondBegins(p, db, w, log, k);
    SecondLeads(p, db, w, log, k);
    hide Leads, Second, One, Applied, Captures;
    var none, mine, db' := Plan([], 0, 0), Plan([w], 0, 0), db.(storage := Applied(db.storage, w));
    var b, c := Second(4, T.Taken, [], 0, None, log, map[]), Second(4, T.Active, [], 0, None, log, map[]);
    var d, v := Second(4, T.Active, [k], 0, None, log, map[]), Second(4, T.Validating, [k], 4, None, log, map[k := 1]);
    var r := Second(5, T.Recorded, [k], 4, Some(4), log + [C.CommittedWrite(1, 4, k)], map[]);
    more := [Core(T.Take), Core(T.Register(1)), Buffer(1, w), Core(T.Prepare(1)), Apply(1), Core(T.Record(1))];
    nexts := [Sys(b, db, [p, none]), Sys(c, db, [p, none]), Sys(d, db, [p, mine]), Sys(v, db, [p, mine]),
              Sys(v, db', [p, Plan([w], 1, 0)]), Sys(r, db', [p, Plan([w], 1, 0)])];
  }
}

/**
 Settled rows. While commits of a row overlap, storage runs ahead of the versions; once every write that
 was applied to the row is also published, in the same order, the row reads as if its commits had run one
 after the other without interruption, whatever other transactions did to other rows in the meantime.
 */
module SnapshotSerial {
  import opened Text
  import opened VersionStore
  import opened SnapshotReads
  import opened SnapshotRuns
  import T = Transactions

  /** A write and the timestamp of its commit. */
  datatype Entry = Entry(w: Write, ts: nat)

  predicate AppliesTo(s: Sys, a: Act, row: nat)
    requires CanAct(s, a)
  {
    a.Apply? && s.plans[a.t].writes[s.plans[a.t].applied].row == row
  }

  function AppliedBy(s: Sys, a: Act, row: nat): Write
    requires CanAct(s, a) && AppliesTo(s, a, row)
  {
    s.plans[a.t].writes[s.plans[a.t].applied]
  }

  predicate PublishesTo(s: Sys, a: Act, row: nat)
    requires CanAct(s, a)
  {
    a.Publish? && s.plans[a.t].writes[s.plans[a.t].published].row == row
  }

  function PublishedBy(s: Sys, a: Act, row: nat): Entry
    requires CanAct(s, a) && PublishesTo(s, a, row)
  {
    Entry(s.plans[a.t].writes[s.plans[a.t].published], s.core.txns[a.t].committed.value)
  }

  predicate IsSegment(states: seq<Sys>, acts: seq<Act>) {
    && |states| == |acts| + 1
    && forall i :: 0 <= i < |acts| ==> CanAct(states[i], acts[i]) && states[i + 1] == Next(states[i], acts[i])
  }

  /** The writes applied to the row in the acts from `i` up to `j`, in order. */
  function AppliedLog(states: seq<Sys>, acts: seq<Act>, i: nat, j: nat, row: nat): seq<Write>
    requires IsSegment(states, acts) && i <= j <= |acts|
    decreases j
  {
    if i == j then []
    else
      var s, a := states[j - 1], acts[j - 1];
      AppliedLog(states, acts, i, j - 1, row)
      + if AppliesTo(s, a, row) then [AppliedBy(s, a, row)] else []
  }

  /** The writes of the row published in the acts from `i` up to `j`, in order, with their timestamps. */
  function PublishedLog(states: seq<Sys>, acts: seq<Act>, i: nat, j: nat, row: nat): seq<Entry>
    requires IsSegment(states, acts) && i <= j <= |acts|
    decreases j
  {
    if i == j then []
    else
      var s, a := states[j - 1], acts[j - 1];
      PublishedLog(states, acts, i, j - 1, row)
      + if PublishesTo(s, a, row) then [PublishedBy(s, a, row)] else []
  }

  function WritesOf(es: seq<Entry>): (ws: seq<Write>)
    ensures |ws| == |es| && forall i :: 0 <= i < |es| ==> ws[i] == es[i].w
  {
    seq(|es|, i requires 0 <= i < |es| => es[i].w)
  }

  function PublishEntries(chains: Chains, es: seq<Entry>): Chains {
    if es == [] then chains
    else VersionStore.Publish(PublishEntries(chains, es[..|es| - 1]), es[|es| - 1].w, es[|es| - 1].ts)
  }

  /** One write after the other, each applied and published at once. */
  function Serial(db: Db, es: seq<Entry>): Db {
    Db(AppliedAll(db.storage, WritesOf(es)), PublishEntries(db.chains, es))
  }

  // ----- storage follows the log of applications -----

  lemma LogStep(states: seq<Sys>, acts: seq<Act>, i: nat, j: nat, row: nat)
    requires IsSegment(states, acts) && i < j <= |acts|
    ensures
      var s, a := states[j - 1], acts[j - 1];
      && CanAct(s, a) && states[j] == Next(s, a)
      && AppliedLog(states, acts, i, j, row) ==
           (var ws := AppliedLog(states, acts, i, j - 1, row);
            if AppliesTo(s, a, row) then ws + [AppliedBy(s, a, row)] else ws)
      && PublishedLog(states, acts, i, j, row) ==
           (var es := PublishedLog(states, acts, i, j - 1, row);
            if PublishesTo(s, a, row) then es + [PublishedBy(s, a, row)] else es)
  {
    hide CanAct, Next, AppliesTo, PublishesTo, AppliedBy, PublishedBy;
    var ws, es := AppliedLog(states, acts, i, j - 1, row), PublishedLog(states, acts, i, j - 1, row);
    assert ws + [] == ws && es + [] == es;
  }

  lemma LogStart(states: seq<Sys>, acts: seq<Act>, i: nat, row: nat)
    requires IsSegment(states, acts) && i <= |acts|
    ensures AppliedLog(states, acts, i, i, row) == [] && PublishedLog(states, acts, i, i, row) == []
  {
  }

  lemma AppliedNext(storage: map<nat, Row>, ws: seq<Write>, w: Write)
    ensures AppliedAll(storage, ws + [w]) == Applied(AppliedAll(storage, ws), w)
  {
    hide Applied;
    assert (ws + [w])[..|ws|] == ws;
  }

  lemma PublishedNext(chains: Chains, es: seq<Entry>, e: Entry)
    ensures PublishEntries(chains, es + [e]) == VersionStore.Publish(PublishEntries(chains, es), e.w, e.ts)
  {
    hide VersionStore.Publish;
    assert (es + [e])[..|es|] == es;
  }

  /** One act changes the stored row as its application to the row does, or not at all. */
  lemma StepStorage(s: Sys, a: Act, storage: map<nat, Row>, row: nat)
    requires CanAct(s, a) && Find(s.db.storage, row) == Find(storage, row)
    ensures AppliesTo(s, a, row) ==>
      Find(Next(s, a).db.storage, row) == Find(Applied(storage, AppliedBy(s, a, row)), row)
    ensures !AppliesTo(s, a, row) ==> Find(Next(s, a).db.storage, row) == Find(storage, row)
  {
    hide Applied, Find, VersionStore.Publish, Collected, T.Apply;
    if a.Apply? {
      var w := s.plans[a.t].writes[s.plans[a.t].applied];
      if w.row == row {
        SameRow(s.db.storage, storage, map[], map[], w, 0);
      } else {
        OtherRows(s.db.storage, map[], w, 0, row);
      }
    }
  }

  lemma {:induction false} StorageFollows(states: seq<Sys>, acts: seq<Act>, i: nat, j: nat, row: nat)
    requires IsSegment(states, acts) && i <= j <= |acts|
    ensures
      Find(states[j].db.storage, row)
      == Find(AppliedAll(states[i].db.storage, AppliedLog(states, acts, i, j, row)), row)
    decreases j
  {
    hide Find, Next, CanAct, AppliesTo, AppliedAll, AppliedBy, PublishedLog, AppliedLog, PublishesTo, PublishedBy;
    if i < j { LogStep(states, acts, i, j, row); } else { LogStart(states, acts, i, row); }
    if i < j {
      var s, a, storage := states[j - 1], acts[j - 1], states[i].db.storage;
      StorageFollows(states, acts, i, j - 1, row);
      var ws := AppliedLog(states, acts, i, j - 1, row);
      StepStorage(s, a, AppliedAll(storage, ws), row);
      if AppliesTo(s, a, row) { AppliedNext(storage, ws, AppliedBy(s, a, row)); }
    } else {
      NothingApplied(states[i].db.storage);
    }
  }

  lemma NothingApplied(storage: map<nat, Row>)
    ensures AppliedAll(storage, []) == storage
  {
  }

  // ----- chains follow the log of publications, as far as the snapshot can tell -----

  /** The snapshot and later publications cannot tell the two chains of the row apart. */
  predicate Like(c: Chains, d: Chains, row: nat, at: nat) {
    && (row in c <==> row in d) && Latest(c, row) == Latest(d, row) && ReadAt(c, row, at) == ReadAt(d, row, at)
  }

  lemma PublishLike(c: Chains, d: Chains, w: Write, ts: nat, at: nat)
    requires StoreOk(c) && StoreOk(d) && ts < TS_INF && at < TS_INF && Like(c, d, w.row, at)
    ensures Like(VersionStore.Publish(c, w, ts), VersionStore.Publish(d, w, ts), w.row, at)
  {
    PublishReads(c, w, ts, at);
    PublishReads(d, w, ts, at);
    LatestAfterPublish(c, w, ts);
    LatestAfterPublish(d, w, ts);
    PublishedRow(c, w, ts);
    PublishedRow(d, w, ts);
    hide VersionStore.Publish, Latest, ReadAt, StoreOk;
  }

  lemma PublishedRow(c: Chains, w: Write, ts: nat)
    ensures w.row in VersionStore.Publish(c, w, ts) <==> w.Insert? || w.row in c || Reseeds(c, w)
  {
  }

  lemma OtherLike(c: Chains, w: Write, ts: nat, row: nat, at: nat)
    requires w.row != row
    ensures Like(VersionStore.Publish(c, w, ts), c, row, at)
  {
    OtherRows(map[], c, w, ts, row);
  }

  lemma SweepLike(c: Chains, oldest: nat, row: nat, at: nat)
    requires StoreOk(c) && oldest <= at < TS_INF
    ensures Like(Collected(c, oldest), c, row, at)
  {
    GcInvisible(c, oldest, row, at);
    if row in c {
      HeadKept(c[row], oldest);
      assert !Forgotten(GcChain(c[row], oldest), oldest);
    }
  }

  /** Sweeps between the two states stay at or below the snapshot. */
  predicate SweepsBelow(acts: seq<Act>, i: nat, j: nat, at: nat) {
    forall m :: i <= m < j && m < |acts| && acts[m].Sweep? ==> acts[m].oldest <= at
  }

  predicate AllShaped(states: seq<Sys>) { forall m :: 0 <= m < |states| ==> Shaped(states[m]) }

  lemma {:induction false} ChainsFollow(states: seq<Sys>, acts: seq<Act>, i: nat, j: nat, row: nat, at: nat)
    requires IsSegment(states, acts) && AllShaped(states) && i <= j <= |acts|
    requires at < TS_INF && SweepsBelow(acts, i, j, at)
    ensures
      var es := PublishedLog(states, acts, i, j, row);
      && StoreOk(PublishEntries(states[i].db.chains, es))
      && Like(states[j].db.chains, PublishEntries(states[i].db.chains, es), row, at)
      && forall m :: 0 <= m < |es| ==> es[m].w.row == row && es[m].ts < TS_INF
    decreases j
  {
    hide Next, CanAct, PublishesTo, PublishedBy, PublishEntries, Like, StoreOk, Shaped, AppliedLog, AppliesTo,
      AppliedBy, PublishedLog;
    assert Shaped(states[i]);
    StoreOfSys(states[i]);
    if i < j { LogStep(states, acts, i, j, row); } else { LogStart(states, acts, i, row); }
    if i < j {
      var s, a, chains := states[j - 1], acts[j - 1], states[i].db.chains;
      assert Shaped(s);
      ChainsFollow(states, acts, i, j - 1, row, at);
      var es := PublishedLog(states, acts, i, j - 1, row);
      StepLike(s, a, PublishEntries(chains, es), row, at);
      if PublishesTo(s, a, row) { PublishedNext(chains, es, PublishedBy(s, a, row)); }
    } else {
      NothingPublished(states[i].db.chains, row, at);
    }
  }

  lemma StoreOfSys(s: Sys)
    requires Shaped(s)
    ensures StoreOk(s.db.chains)
  {
  }

  lemma NothingPublished(chains: Chains, row: nat, at: nat)
    ensures PublishEntries(chains, []) == chains && Like(chains, chains, row, at)
  {
  }

  /** One act keeps the chains alike, the row's own publications done on both sides. */
  lemma StepLike(s: Sys, a: Act, d: Chains, row: nat, at: nat)
    requires Shaped(s) && CanAct(s, a) && StoreOk(d) && Like(s.db.chains, d, row, at) && at < TS_INF
    requires a.Sweep? ==> a.oldest <= at
    ensures !PublishesTo(s, a, row) ==> Like(Next(s, a).db.chains, d, row, at)
    ensures PublishesTo(s, a, row) ==>
      var e := PublishedBy(s, a, row);
      && e.w.row == row && e.ts < TS_INF && StoreOk(VersionStore.Publish(d, e.w, e.ts))
      && Like(Next(s, a).db.chains, VersionStore.Publish(d, e.w, e.ts), row, at)
  {
    hide VersionStore.Publish, Collected, Latest, ReadAt, StoreOk;
    if a.Publish? {
      var w, ts := s.plans[a.t].writes[s.plans[a.t].published], s.core.txns[a.t].committed.value;
      PlanStepOk(s.core.txns[a.t], s.plans[a.t]);
      if w.row == row {
        PublishLike(s.db.chains, d, w, ts, at);
        PublishReads(d, w, ts, at);
      } else {
        OtherLike(s.db.chains, w, ts, row, at);
      }
    } else if a.Sweep? {
      SweepLike(s.db.chains, a.oldest, row, at);
    }
  }

  lemma ReadLike(q: Query, db: Db, db': Db, row: nat, at: nat)
    requires StoreOk(db.chains) && StoreOk(db'.chains)
    requires Find(db.storage, row) == Find(db'.storage, row) && Like(db.chains, db'.chains, row, at)
    ensures TxnRead(q, db, row, at) == TxnRead(q, db', row, at)
  {
    VersionedIsLive(db.chains, row);
    VersionedIsLive(db'.chains, row);
  }

  // ----- settled rows -----

  /**
   If everything applied to the row in between was also published, in the same order, the row reads as after the
   serial execution of its commits.
   */
  lemma SettledIsSerial(q: Query, states: seq<Sys>, acts: seq<Act>, i: nat, j: nat, row: nat, at: nat)
    requires IsSegment(states, acts) && AllShaped(states) && i <= j <= |acts|
    requires at < TS_INF && SweepsBelow(acts, i, j, at)
    requires WritesOf(PublishedLog(states, acts, i, j, row)) == AppliedLog(states, acts, i, j, row)
    ensures
      TxnRead(q, states[j].db, row, at)
      == TxnRead(q, Serial(states[i].db, PublishedLog(states, acts, i, j, row)), row, at)
  {
    StorageFollows(states, acts, i, j, row);
    ChainsFollow(states, acts, i, j, row, at);
    assert Shaped(states[j]);
    ReadLike(q, states[j].db, Serial(states[i].db, PublishedLog(states, acts, i, j, row)), row, at);
  }

  /** Every write of the list keeps the past in the state the ones before it leave. */
  predicate AllKeepPast(q: Query, db: Db, es: seq<Entry>, at: nat) {
    forall m :: 0 <= m < |es| ==> KeepsPast(q, Serial(db, es[..m]), es[m].w, es[m].ts, at)
  }

  lemma {:induction false} SerialKeepsRead(q: Query, db: Db, es: seq<Entry>, row: nat, at: nat)
    requires StoreOk(db.chains) && at < TS_INF && AllKeepPast(q, db, es, at)
    requires forall m :: 0 <= m < |es| ==> es[m].w.row == row && es[m].ts < TS_INF
    ensures StoreOk(Serial(db, es).chains) && TxnRead(q, Serial(db, es), row, at) == TxnRead(q, db, row, at)
    decreases |es|
  {
    hide KeepsPast, TxnRead, Serial, StoreOk;
    if es == [] {
      SerialNothing(db);
    } else {
      var n := |es| - 1;
      var rest, e := es[..n], es[n];
      assert es == rest + [e];
      assert forall m :: 0 <= m < n ==> rest[..m] == es[..m] && rest[m] == es[m];
      SerialKeepsRead(q, db, rest, row, at);
      SerialNext(db, rest, e);
      WriteExactly(q, Serial(db, rest), e.w, e.ts, at);
      PublishReads(Serial(db, rest).chains, e.w, e.ts, at);
    }
  }

  lemma SerialNothing(db: Db)
    ensures Serial(db, []) == db
  {
    assert WritesOf([]) == [];
  }

  lemma SerialNext(db: Db, es: seq<Entry>, e: Entry)
    ensures Serial(db, es + [e]) ==
      Db(Applied(Serial(db, es).storage, e.w), VersionStore.Publish(Serial(db, es).chains, e.w, e.ts))
  {
    assert WritesOf(es + [e]) == WritesOf(es) + [e.w];
    AppliedNext(db.storage, WritesOf(es), e.w);
    PublishedNext(db.chains, es, e);
    hide AppliedAll, PublishEntries;
  }

  /**
   Settled rows read the same if every commit of the row in between keeps the past of the serial state before it:
   interleavings with commits of other rows, repeated writes of the row in one commit and overlapping commits
   of the row do not matter.
   */
  lemma SettledRepeatable(q: Query, states: seq<Sys>, acts: seq<Act>, i: nat, j: nat, row: nat, at: nat)
    requires IsSegment(states, acts) && AllShaped(states) && i <= j <= |acts|
    requires at < TS_INF && SweepsBelow(acts, i, j, at)
    requires WritesOf(PublishedLog(states, acts, i, j, row)) == AppliedLog(states, acts, i, j, row)
    requires AllKeepPast(q, states[i].db, PublishedLog(states, acts, i, j, row), at)
    ensures TxnRead(q, states[j].db, row, at) == TxnRead(q, states[i].db, row, at)
  {
    assert Shaped(states[i]);
    ChainsFollow(states, acts, i, j, row, at);
    SettledIsSerial(q, states, acts, i, j, row, at);
    SerialKeepsRead(q, states[i].db, PublishedLog(states, acts, i, j, row), row, at);
  }

  // ----- rows without a commit in progress -----

  function RowCount(ws: seq<Write>, row: nat): nat {
    if ws == [] then 0 else RowCount(ws[..|ws| - 1], row) + if ws[|ws| - 1].row == row then 1 else 0
  }

  /** The writes of the row that the transaction has applied and not published. */
  function Owed(p: Plan, row: nat): int
    requires p.applied <= |p.writes| && p.published <= |p.writes|
  {
    RowCount(p.writes[..p.applied], row) - RowCount(p.writes[..p.published], row)
  }

  predicate InBounds(ps: seq<Plan>) {
    forall t :: 0 <= t < |ps| ==> ps[t].applied <= |ps[t].writes| && ps[t].published <= |ps[t].writes|
  }

  function Backlog(ps: seq<Plan>, row: nat): int
    requires InBounds(ps)
  {
    if ps == [] then 0 else Backlog(ps[..|ps| - 1], row) + Owed(ps[|ps| - 1], row)
  }

  /** No transaction stands between applying and publishing the row. */
  predicate Settled(s: Sys, row: nat)
    requires InBounds(s.plans)
  {
    forall t :: 0 <= t < |s.plans| ==> Owed(s.plans[t], row) == 0
  }

  lemma {:induction false} SettledOwesNothing(ps: seq<Plan>, row: nat)
    requires InBounds(ps) && forall t :: 0 <= t < |ps| ==> Owed(ps[t], row) == 0
    ensures Backlog(ps, row) == 0
    decreases |ps|
  {
    if ps != [] { SettledOwesNothing(ps[..|ps| - 1], row); }
  }

  lemma {:induction false} BacklogUpdate(ps: seq<Plan>, t: nat, p: Plan, row: nat)
    requires InBounds(ps) && t < |ps| && p.applied <= |p.writes| && p.published <= |p.writes|
    ensures InBounds(ps[t := p]) && Backlog(ps[t := p], row) == Backlog(ps, row) - Owed(ps[t], row) + Owed(p, row)
    decreases |ps|
  {
    hide Owed;
    var n := |ps| - 1;
    if t == n {
      assert ps[t := p][..n] == ps[..n];
    } else {
      assert ps[t := p][..n] == ps[..n][t := p];
      BacklogUpdate(ps[..n], t, p, row);
    }
  }

  lemma CountNext(ws: seq<Write>, n: nat, row: nat)
    requires n < |ws|
    ensures RowCount(ws[..n + 1], row) == RowCount(ws[..n], row) + if ws[n].row == row then 1 else 0
  {
    assert ws[..n + 1][..n] == ws[..n];
  }

  lemma InBoundsOf(s: Sys)
    requires Shaped(s)
    ensures InBounds(s.plans)
  {
    forall t | 0 <= t < |s.plans|
      ensures s.plans[t].applied <= |s.plans[t].writes| && s.plans[t].published <= |s.plans[t].writes|
    {
      assert PlanOk(s.core.txns[t], s.plans[t]);
    }
  }

  lemma BacklogStep(s: Sys, a: Act, row: nat)
    requires Shaped(s) && CanAct(s, a) && InBounds(s.plans)
    ensures InBounds(Next(s, a).plans)
    ensures Backlog(Next(s, a).plans, row) ==
      Backlog(s.plans, row) + (if AppliesTo(s, a, row) then 1 else 0) - (if PublishesTo(s, a, row) then 1 else 0)
  {
    hide T.Apply, Applied, VersionStore.Publish, Collected, RowCount, Backlog;
    match a
    case Core(step) => if step.Take? { TakeOwesNothing(s.plans, row); }
    case Buffer(t, w) =>
      var p := s.plans[t];
      assert (p.writes + [w])[..p.applied] == p.writes[..p.applied];
      assert (p.writes + [w])[..p.published] == p.writes[..p.published];
      BacklogUpdate(s.plans, t, p.(writes := p.writes + [w]), row);
    case Apply(t) =>
      CountNext(s.plans[t].writes, s.plans[t].applied, row);
      BacklogUpdate(s.plans, t, s.plans[t].(applied := s.plans[t].applied + 1), row);
    case Publish(t) =>
      CountNext(s.plans[t].writes, s.plans[t].published, row);
      BacklogUpdate(s.plans, t, s.plans[t].(published := s.plans[t].published + 1), row);
    case Sweep(_) =>
  }

  lemma TakeOwesNothing(ps: seq<Plan>, row: nat)
    requires InBounds(ps)
    ensures InBounds(ps + [Plan([], 0, 0)]) && Backlog(ps + [Plan([], 0, 0)], row) == Backlog(ps, row)
  {
    assert (ps + [Plan([], 0, 0)])[..|ps|] == ps;
  }

  /** The backlog of a row is what was applied more than published. */
  lemma {:induction false} LogLengths(states: seq<Sys>, acts: seq<Act>, i: nat, j: nat, row: nat)
    requires IsSegment(states, acts) && AllShaped(states) && i <= j <= |acts|
    ensures InBounds(states[i].plans) && InBounds(states[j].plans)
    ensures
      |AppliedLog(states, acts, i, j, row)| - |PublishedLog(states, acts, i, j, row)|
      == Backlog(states[j].plans, row) - Backlog(states[i].plans, row)
    decreases j
  {
    hide Next, CanAct, AppliesTo, PublishesTo, Backlog, Shaped, AppliedLog, PublishedLog, InBounds, AllShaped;
    BoundsAt(states, i);
    BoundsAt(states, j);
    if i == j {
      LogStart(states, acts, i, row);
    } else {
      BoundsAt(states, j - 1);
      LogLengths(states, acts, i, j - 1, row);
      StepLengths(states, acts, i, j, row);
    }
  }

  lemma BoundsAt(states: seq<Sys>, m: nat)
    requires AllShaped(states) && m < |states|
    ensures Shaped(states[m]) && InBounds(states[m].plans)
  {
    assert Shaped(states[m]);
    InBoundsOf(states[m]);
  }

  lemma StepLengths(states: seq<Sys>, acts: seq<Act>, i: nat, j: nat, row: nat)
    requires IsSegment(states, acts) && i < j <= |acts| && Shaped(states[j - 1]) && InBounds(states[j - 1].plans)
    ensures InBounds(states[j].plans)
    ensures
      |AppliedLog(states, acts, i, j, row)| - |PublishedLog(states, acts, i, j, row)| - Backlog(states[j].plans, row)
      == |AppliedLog(states, acts, i, j - 1, row)| - |PublishedLog(states, acts, i, j - 1, row)|
         - Backlog(states[j - 1].plans, row)
  {
    LogStep(states, acts, i, j, row);
    BacklogStep(states[j - 1], acts[j - 1], row);
    hide Next, CanAct, AppliesTo, PublishesTo, AppliedBy, PublishedBy, Backlog, Shaped, AppliedLog, PublishedLog,
        InBounds;
  }

  /** Between settled states, a row whose publications follow its applications has published all of them. */
  lemma SettledPublishedAll(states: seq<Sys>, acts: seq<Act>, i: nat, j: nat, row: nat)
    requires IsSegment(states, acts) && AllShaped(states) && i <= j <= |acts|
    requires InBounds(states[i].plans) && InBounds(states[j].plans)
    requires Settled(states[i], row) && Settled(states[j], row)
    requires WritesOf(PublishedLog(states, acts, i, j, row)) <= AppliedLog(states, acts, i, j, row)
    ensures WritesOf(PublishedLog(states, acts, i, j, row)) == AppliedLog(states, acts, i, j, row)
  {
    LogLengths(states, acts, i, j, row);
    SettledOwesNothing(states[i].plans, row);
    SettledOwesNothing(states[j].plans, row);
  }

  lemma RunIsSegment(storage: map<nat, Row>, states: seq<Sys>, acts: seq<Act>)
    requires IsRun(storage, states, acts)
    ensures IsSegment(states, acts) && AllShaped(states) && forall m :: 0 <= m < |states| ==> InBounds(states[m].plans)
  {
    hide Shaped, CanAct, Next, InBounds;
    forall m | 0 <= m < |states|
      ensures Shaped(states[m]) && InBounds(states[m].plans)
    {
      RunShaped(storage, states, acts, m);
      InBoundsOf(states[m]);
    }
  }

  /**
   In every run, between two states in which no transaction stands between applying and publishing a row, a snapshot
   reads the row as if the commits of the row had run one after the other, if they published in the order in which
   they were applied; and it reads the same row if each of them keeps the past of the state before it. Nothing is
   asked of transactions on other rows.
   */
  lemma SettledRowReads(
      q: Query, storage: map<nat, Row>, states: seq<Sys>, acts: seq<Act>, i: nat, j: nat, row: nat, at: nat)
    requires IsRun(storage, states, acts) && i <= j <= |acts| && at < TS_INF && SweepsBelow(acts, i, j, at)
    requires IsSegment(states, acts) && InBounds(states[i].plans) && InBounds(states[j].plans)
    requires Settled(states[i], row) && Settled(states[j], row)
    requires WritesOf(PublishedLog(states, acts, i, j, row)) <= AppliedLog(states, acts, i, j, row)
    ensures
      var es := PublishedLog(states, acts, i, j, row);
      && TxnRead(q, states[j].db, row, at) == TxnRead(q, Serial(states[i].db, es), row, at)
      && (AllKeepPast(q, states[i].db, es, at) ==>
            TxnRead(q, states[j].db, row, at) == TxnRead(q, states[i].db, row, at))
  {
    RunIsSegment(storage, states, acts);
    hide IsRun, TxnRead, AllShaped, Settled, AllKeepPast, PublishedLog, AppliedLog, IsSegment;
    SettledPublishedAll(states, acts, i, j, row);
    SettledIsSerial(q, states, acts, i, j, row, at);
    if AllKeepPast(q, states[i].db, PublishedLog(states, acts, i, j, row), at) {
      SettledRepeatable(q, states, acts, i, j, row, at);
    }
  }
}

/**
 Whole commits in the runs of the manager and the database: what a commit that nobody interrupts does
 to queries in the snapshots before it, and how the order of publication decides what is read.
 */
module SnapshotCommits {
  import opened Text
  import opened VersionStore
  import opened SnapshotReads
  import opened SnapshotRuns
  import C = ConflictDetector
  import T = Transactions

  predicate Committing(s: Sys, t: nat) {
    && |s.plans| == |s.core.txns| && t < |s.plans|
    && s.core.txns[t].stage.Validating? && s.plans[t].applied <= |s.plans[t].writes|
  }

  /** The storage work that is left of a commit, step by step. */
  function ApplyRest(s: Sys, t: nat): Sys
    requires Committing(s, t)
    decreases |s.plans[t].writes| - s.plans[t].applied
  {
    if s.plans[t].applied == |s.plans[t].writes| then s else ApplyRest(Next(s, Apply(t)), t)
  }

  predicate Publishing(s: Sys, t: nat) {
    && |s.plans| == |s.core.txns| && t < |s.plans| && s.plans[t].published <= |s.plans[t].writes|
    && s.core.txns[t].stage.Recorded? && s.core.txns[t].committed.Some?
  }

  /** The publication that is left of a commit, step by step. */
  function PublishRest(s: Sys, t: nat): Sys
    requires Publishing(s, t)
    decreases |s.plans[t].writes| - s.plans[t].published
  {
    if s.plans[t].published == |s.plans[t].writes| then s else PublishRest(Next(s, Publish(t)), t)
  }

  lemma {:induction false} ApplyRestIs(s: Sys, t: nat, storage: map<nat, Row>)
    requires Committing(s, t) && s.db.storage == AppliedAll(storage, s.plans[t].writes[..s.plans[t].applied])
    ensures
      var p := s.plans[t];
      ApplyRest(s, t) == Sys(s.core, s.db.(storage := AppliedAll(storage, p.writes)),
          s.plans[t := p.(applied := |p.writes|)])
    decreases |s.plans[t].writes| - s.plans[t].applied
  {
    hide Applied;
    var p := s.plans[t];
    if p.applied == |p.writes| {
      assert p.writes[..p.applied] == p.writes;
      assert s.plans[t := p] == s.plans;
    } else {
      var s' := Next(s, Apply(t));
      assert p.writes[..p.applied + 1][..p.applied] == p.writes[..p.applied];
      ApplyRestIs(s', t, storage);
      assert s'.plans[t := p.(applied := |p.writes|)] == s.plans[t := p.(applied := |p.writes|)];
    }
  }

  lemma {:induction false} PublishRestIs(s: Sys, t: nat, chains: Chains)
    requires Publishing(s, t)
    requires s.db.chains == PublishAll(chains, s.plans[t].writes[..s.plans[t].published],
        s.core.txns[t].committed.value)
    ensures PublishRest(s, t).db == s.db.(chains := PublishAll(chains, s.plans[t].writes,
        s.core.txns[t].committed.value))
    decreases |s.plans[t].writes| - s.plans[t].published
  {
    hide VersionStore.Publish;
    var p := s.plans[t];
    if p.published == |p.writes| {
      assert p.writes[..p.published] == p.writes;
    } else {
      assert p.writes[..p.published + 1][..p.published] == p.writes[..p.published];
      PublishRestIs(Next(s, Publish(t)), t, chains);
    }
  }

  /** A validated transaction that has applied nothing yet, with a timestamp left for it. */
  predicate AboutToCommit(s: Sys, t: nat) {
    Shaped(s) && Committing(s, t) && s.plans[t].applied == 0 && s.plans[t].published == 0 && s.core.clock < TS_INF
  }

  lemma RecordReady(s: Sys, t: nat)
    requires AboutToCommit(s, t)
    ensures
      var r := ApplyRest(s, t);
      && CanAct(r, Core(T.Record(t)))
      && var r' := Next(r, Core(T.Record(t)));
        && Publishing(r', t) && r'.core.txns[t].committed == Some(s.core.clock)
        && r'.db == Db(AppliedAll(s.db.storage, s.plans[t].writes), s.db.chains)
        && r'.plans[t].writes == s.plans[t].writes
        && r'.plans[t].published == 0
  {
    assert s.plans[t].writes[..0] == [];
    ApplyRestIs(s, t, s.db.storage);
    hide ApplyRest, AppliedAll, C.Entries, C.Unlocked, Shaped;
  }

  /** The rest of a commit with no step of another transaction in between. */
  function CommitRun(s: Sys, t: nat): Sys
    requires AboutToCommit(s, t)
  {
    RecordReady(s, t);
    PublishRest(Next(ApplyRest(s, t), Core(T.Record(t))), t)
  }

  lemma CommitRunIs(s: Sys, t: nat)
    requires AboutToCommit(s, t)
    ensures CommitRun(s, t).db == Committed(s.db, s.plans[t].writes, s.core.clock)
  {
    RecordReady(s, t);
    var r' := Next(ApplyRest(s, t), Core(T.Record(t)));
    assert r'.plans[t].writes[..0] == [];
    PublishRestIs(r', t, s.db.chains);
    hide PublishRest, ApplyRest;
  }

  /**
   The write is invisible to a `SELECT` of columns in the snapshot. A new row is hidden by its version or dropped by
   the WHERE clause. A deleted row was not shown. An updated row was hidden, or the WHERE clause treats it as before
   and, where it keeps the row: without `_id` no shown column changes; with `_id` and version history the version
   seen holds every shown column that changes; with `_id` and no history nothing more is needed.
   */
  predicate Isolated(shows: string -> bool, withId: bool, keeps: (nat, Row) -> bool, db: Db, w: Write, at: nat)
    requires Captures(db, w)
  {
    var view := Seen(Select(shows, withId, keeps), db.chains, w.row, at);
    match w
    case Insert(row, data) => withId || !keeps(row, data)
    case Delete(row, before) => view.Hidden? || !keeps(row, before)
    case Update(row, before, after) =>
      || view.Hidden?
      || (&& keeps(row, before) == keeps(row, Merged(before, after))
          && (keeps(row, before) ==>
                if withId && !Versioned(db.chains, row)
                then before != map[] || row !in db.chains || ReadAt(db.chains, row, at).Some?
                else forall c :: c in before && ChangesShown(shows, before, after, c) ==>
                       view.Overlaid? && c in view.v))
  }

  lemma CapturedKeepsPast(
      shows: string -> bool, withId: bool, keeps: (nat, Row) -> bool, db: Db, w: Write, ts: nat, at: nat)
    requires StoreOk(db.chains) && Captures(db, w) && 1 <= at < ts
    ensures KeepsPast(Select(shows, withId, keeps), db, w, ts, at) <==> Isolated(shows, withId, keeps, db, w, at)
  {
    if w.Update? { CapturedUpdate(shows, withId, keeps, db, w, ts, at); }
  }

  lemma CapturedUpdate(
      shows: string -> bool, withId: bool, keeps: (nat, Row) -> bool, db: Db, w: Write, ts: nat, at: nat)
    requires StoreOk(db.chains) && Captures(db, w) && w.Update? && 1 <= at < ts
    ensures KeepsPast(Select(shows, withId, keeps), db, w, ts, at) <==> Isolated(shows, withId, keeps, db, w, at)
  {
    var q, stored, stored' := Select(shows, withId, keeps), w.before, Merged(w.before, w.after);
    var view := Seen(q, db.chains, w.row, at);
    var view' := if withId then ViewAfterPublish(db.chains, w, ts, at) else Stored;
    assert Find(db.storage, w.row) == Some(stored) && Find(Applied(db.storage, w), w.row) == Some(stored');
    VersionedIsLive(db.chains, w.row);
    SelectedColumns(shows, withId, keeps, stored, w.after, view);
    OutputUnchanged(q, stored, stored', view);
    OldRowShown(shows, withId, keeps, stored, w.after);
    if withId && !Versioned(db.chains, w.row) {
      EmptyRow(q, stored, w.after, view', shows, keeps);
      assert view == Stored && stored != map[] ==> view' == Overlaid(stored);
    } else {
      assert view' == view;
    }
    hide Versioned, ViewOf, ViewAfterPublish, SameColumns, ChangesOutput, Applied, Select;
    SelectKeeps(shows, withId, keeps);
  }

  lemma SelectKeeps(shows: string -> bool, withId: bool, keeps: (nat, Row) -> bool)
    ensures Select(shows, withId, keeps).keeps == keeps && Select(shows, withId, keeps).withId == withId
  {
  }

  /** A row without columns shows none, whatever its version holds. */
  lemma EmptyRow(q: Query, stored: Row, after: Row, view: View, shows: string -> bool, keeps: (nat, Row) -> bool)
    requires q == Select(shows, true, keeps)
    ensures stored == map[] ==>
      Merged(stored, after) == map[] && SameColumns(q.output(stored), Stored, q.output(Merged(stored, after)), view)
  {
  }

  /**
   In every run in which prunes are harmless and no half-applied transaction is given up, a commit that nobody
   interrupts changes nothing for a `SELECT` of columns in an earlier snapshot exactly when its writes are isolated
   from it.
   */
  lemma UninterruptedCommitExactly(
      shows: string -> bool, withId: bool, keeps: (nat, Row) -> bool,
      storage: map<nat, Row>, states: seq<Sys>, acts: seq<Act>, i: nat, t: nat, at: nat)
    requires IsRun(storage, states, acts) && Orderly(states, acts) && i < |states|
    requires AboutToCommit(states[i], t) && DistinctRows(states[i].plans[t].writes) && 1 <= at < states[i].core.clock
    ensures forall j :: 0 <= j < |states[i].plans[t].writes| ==> Captures(states[i].db, states[i].plans[t].writes[j])
    ensures
      var s, q := states[i], Select(shows, withId, keeps);
      (forall row :: TxnRead(q, CommitRun(s, t).db, row, at) == TxnRead(q, s.db, row, at))
      <==> forall j :: 0 <= j < |s.plans[t].writes| ==> Isolated(shows, withId, keeps, s.db, s.plans[t].writes[j], at)
  {
    var s, q := states[i], Select(shows, withId, keeps);
    CapturedIsCurrent(storage, states, acts, i);
    CapturedAll(s, t);
    CommitRunIs(s, t);
    StoreOfShaped(s);
    hide Isolated, KeepsPast, Captures, CommitRun, Committed, TxnRead, IsRun, Orderly, AllCurrent, T.Inv, T.Complete,
      StoreOk, Select;
    CommitExactly(q, s.db, s.plans[t].writes, s.core.clock, at);
    forall j | 0 <= j < |s.plans[t].writes|
      ensures
        KeepsPast(q, s.db, s.plans[t].writes[j], s.core.clock, at)
        <==> Isolated(shows, withId, keeps, s.db, s.plans[t].writes[j], at)
    {
      CapturedKeepsPast(shows, withId, keeps, s.db, s.plans[t].writes[j], s.core.clock, at);
    }
  }

  // ----- snapshots after the commit -----

  /** What a query finds of a row after the write: the new row, if the WHERE clause keeps it. */
  function AfterWrite(q: Query, w: Write): Option<Row> {
    match w
    case Insert(row, data) => if q.keeps(row, data) then Some(q.output(data)) else None
    case Delete(_, _) => None
    case Update(row, before, after) =>
      if q.keeps(row, Merged(before, after)) then Some(q.output(Merged(before, after))) else None
  }

  lemma WriteSeenLater(
      shows: string -> bool, withId: bool, keeps: (nat, Row) -> bool, db: Db, w: Write, ts: nat, at: nat)
    requires StoreOk(db.chains) && Captures(db, w) && ts <= at < TS_INF
    ensures
      var q := Select(shows, withId, keeps);
      TxnRead(q, Db(Applied(db.storage, w), VersionStore.Publish(db.chains, w, ts)), w.row, at) == AfterWrite(q, w)
  {
    PublishView(db.chains, w, ts, at);
    hide VersionStore.Publish, ViewOf;
    match w
    case Insert(row, data) => NewRowShown(shows, withId, keeps, data, data);
    case Delete(_, _) =>
    case Update(row, before, after) => NewRowShown(shows, withId, keeps, Merged(before, after), after);
  }

  /** A version whose columns the stored row already has changes nothing. */
  lemma NewRowShown(shows: string -> bool, withId: bool, keeps: (nat, Row) -> bool, stored: Row, v: Row)
    requires forall c :: c in stored && c in v ==> v[c] == stored[c]
    ensures
      var q := Select(shows, withId, keeps);
      Show(q.output(stored), Overlaid(v)) == Some(q.output(stored)) == Show(q.output(stored), Stored)
  {
    var out := Select(shows, withId, keeps).output(stored);
    assert Merged(out, v) == out;
  }

  /**
   In every orderly run an uninterrupted commit is seen by the snapshots from its timestamp on: they find of each
   row that it wrote what the write left.
   */
  lemma CommitSeenLater(
      shows: string -> bool, withId: bool, keeps: (nat, Row) -> bool,
      storage: map<nat, Row>, states: seq<Sys>, acts: seq<Act>, i: nat, t: nat, at: nat, j: nat)
    requires IsRun(storage, states, acts) && Orderly(states, acts) && i < |states|
    requires AboutToCommit(states[i], t) && DistinctRows(states[i].plans[t].writes)
    requires states[i].core.clock <= at < TS_INF && j < |states[i].plans[t].writes|
    ensures
      var s, q, w := states[i], Select(shows, withId, keeps), states[i].plans[t].writes[j];
      TxnRead(q, CommitRun(s, t).db, w.row, at) == AfterWrite(q, w)
  {
    var s, q := states[i], Select(shows, withId, keeps);
    var ws := s.plans[t].writes;
    CapturedIsCurrent(storage, states, acts, i);
    CapturedAll(s, t);
    CommitRunIs(s, t);
    StoreOfShaped(s);
    RowTouchedOnce(s.db.storage, s.db.chains, ws, s.core.clock, j);
    hide *;
    var db := Db(Applied(s.db.storage, ws[j]), VersionStore.Publish(s.db.chains, ws[j], s.core.clock));
    CommittedRow(s.db, ws, s.core.clock, db, ws[j].row);
    ReadByRow(q, CommitRun(s, t).db, db, ws[j].row, at);
    WriteSeenLater(shows, withId, keeps, s.db, ws[j], s.core.clock, at);
  }

  lemma CommittedRow(db: Db, ws: seq<Write>, ts: nat, db': Db, row: nat)
    requires Find(AppliedAll(db.storage, ws), row) == Find(db'.storage, row)
    requires Find(PublishAll(db.chains, ws, ts), row) == Find(db'.chains, row)
    ensures Find(Committed(db, ws, ts).storage, row) == Find(db'.storage, row)
    ensures Find(Committed(db, ws, ts).chains, row) == Find(db'.chains, row)
  {
  }

  // ----- two queries that see a first update at once -----

  /**
   `SELECT` of some columns without `_id`: the snapshot gets the new row as soon as it is stored, published or
   not.
   */
  lemma WithoutIdSeesUpdate(
      shows: string -> bool, keeps: (nat, Row) -> bool, db: Db, row: nat, after: Row, ts: nat, at: nat)
    requires row in db.storage && keeps(row, Merged(db.storage[row], after))
    ensures
      var q, w := Select(shows, false, keeps), Update(row, db.storage[row], after);
      TxnRead(q, Db(Applied(db.storage, w), VersionStore.Publish(db.chains, w, ts)), row, at)
      == Some(q.output(Merged(db.storage[row], after)))
  {
  }

  /** `SELECT v FROM t`: the older snapshot reads the new value after the first versioned update. */
  lemma ProjectionSeesNewValue(ts: nat, at: nat)
    ensures
      var stored, after := map["v" := "1"], map["v" := "2"];
      var q, w := Select(c => c == "v", false, (_, _) => true), Update(0, stored, after);
      var db := Db(map[0 := stored], map[]);
      && TxnRead(q, db, 0, at) == Some(map["v" := "1"])
      && TxnRead(q, Db(Applied(db.storage, w), VersionStore.Publish(db.chains, w, ts)), 0, at) == Some(map["v" := "2"])
  {
    var stored, after := map["v" := "1"], map["v" := "2"];
    var q := Select(c => c == "v", false, (_, _) => true);
    var db := Db(map[0 := stored], map[]);
    assert Merged(stored, after) == after;
    WithoutIdSeesUpdate(c => c == "v", (_, _) => true, db, 0, after, ts, at);
    assert q.output(stored) == stored && q.output(after) == after;
  }

  /** A WHERE clause that the new row fails drops the row although its version still holds the old one. */
  lemma FilterLosesRow(shows: string -> bool, keeps: (nat, Row) -> bool, db: Db, row: nat, after: Row, ts: nat, at: nat)
    requires StoreOk(db.chains) && 1 <= at < ts < TS_INF && row in db.storage && db.storage[row] != map[]
    requires !Versioned(db.chains, row) && keeps(row, db.storage[row]) && !keeps(row, Merged(db.storage[row], after))
    ensures
      var q, w := Select(shows, true, keeps), Update(row, db.storage[row], after);
      var db' := Db(Applied(db.storage, w), VersionStore.Publish(db.chains, w, ts));
      && TxnRead(q, db, row, at) == Some(q.output(db.storage[row]))
      && TxnRead(q, db', row, at) == None
      && ReadAt(db'.chains, row, at) == Some(db.storage[row])
  {
    VersionedIsLive(db.chains, row);
    PublishReads(db.chains, Update(row, db.storage[row], after), ts, at);
    hide VersionStore.Publish, Versioned;
  }

  /** `SELECT * FROM t WHERE v = 1` loses a row whose version in the snapshot still has the value 1. */
  lemma FilterOnValueLosesRow(at: nat)
    requires 1 <= at < 3
    ensures
      var stored, after := map["v" := "1"], map["v" := "2"];
      var q := Select(_ => true, true, (_, r: Row) => "v" in r && r["v"] == "1");
      var w, db := Update(0, stored, after), Db(map[0 := stored], map[]);
      && TxnRead(q, db, 0, at) == Some(stored)
      && TxnRead(q, Db(Applied(db.storage, w), VersionStore.Publish(db.chains, w, 3)), 0, at) == None
  {
    var stored, after := map["v" := "1"], map["v" := "2"];
    var q, db := Select(_ => true, true, (_, r: Row) => "v" in r && r["v"] == "1"), Db(map[0 := stored], map[]);
    assert Merged(stored, after) == after && "1" != "2";
    assert q.output(stored) == stored;
    var w := Update(0, stored, after);
    assert Applied(db.storage, w) == map[0 := after];
    assert !q.keeps(0, after) && q.keeps(0, stored);
    hide VersionStore.Publish;
  }

  lemma StoreOfShaped(s: Sys)
    requires Shaped(s)
    ensures StoreOk(s.db.chains)
  {
  }

  lemma CapturedAll(s: Sys, t: nat)
    requires AllCurrent(s) && AboutToCommit(s, t) && DistinctRows(s.plans[t].writes)
    ensures forall j :: 0 <= j < |s.plans[t].writes| ==> Captures(s.db, s.plans[t].writes[j])
  {
    assert Current(s, t);
    hide Captures;
    forall j | 0 <= j < |s.plans[t].writes|
      ensures Captures(s.db, s.plans[t].writes[j])
    {
      assert Pending(s.plans[t], j);
    }
  }

  // ----- publication in either order -----

  predicate AboutToPublish(s: Sys, t: nat, w: Write) {
    Publishing(s, t) && s.plans[t].published < |s.plans[t].writes| && s.plans[t].writes[s.plans[t].published] == w
  }

  /** The row has version history, or the first of the two publications starts it. */
  predicate Starts(chains: Chains, v: Write, w: Write)
    requires v.Update? && w.Update?
  {
    Versioned(chains, v.row) || (v.before != map[] && w.before != map[])
  }

  /**
   Two recorded commits may publish an update of the same row in either order, and the later publication is
   what every later snapshot reads.
   */
  lemma PublicationOrderDecides(s: Sys, t: nat, u: nat, v: Write, w: Write, at: nat)
    requires Shaped(s) && t != u && AboutToPublish(s, t, v) && AboutToPublish(s, u, w)
    requires v.Update? && w.Update? && v.row == w.row && Starts(s.db.chains, v, w)
    requires s.core.txns[t].committed.value <= at < TS_INF && s.core.txns[u].committed.value <= at
    ensures CanAct(s, Publish(t)) && CanAct(Next(s, Publish(t)), Publish(u))
    ensures CanAct(s, Publish(u)) && CanAct(Next(s, Publish(u)), Publish(t))
    ensures ViewOf(Next(Next(s, Publish(t)), Publish(u)).db.chains, v.row, at) == Overlaid(w.after)
    ensures ViewOf(Next(Next(s, Publish(u)), Publish(t)).db.chains, v.row, at) == Overlaid(v.after)
  {
    SecondPublicationSeen(s, t, u, v, w, at);
    SecondPublicationSeen(s, u, t, w, v, at);
  }

  lemma SecondPublicationSeen(s: Sys, t: nat, u: nat, v: Write, w: Write, at: nat)
    requires Shaped(s) && t != u && AboutToPublish(s, t, v) && AboutToPublish(s, u, w)
    requires v.Update? && w.Update? && v.row == w.row && Starts(s.db.chains, v, w)
    requires s.core.txns[u].committed.value <= at < TS_INF
    ensures CanAct(s, Publish(t)) && CanAct(Next(s, Publish(t)), Publish(u))
    ensures ViewOf(Next(Next(s, Publish(t)), Publish(u)).db.chains, v.row, at) == Overlaid(w.after)
  {
    var ts, us, chains := s.core.txns[t].committed.value, s.core.txns[u].committed.value, s.db.chains;
    assert PlanOk(s.core.txns[t], s.plans[t]) && PlanOk(s.core.txns[u], s.plans[u]);
    PublishView(chains, v, ts, at);
    PublishView(VersionStore.Publish(chains, v, ts), w, us, at);
    VersionedIsLive(chains, v.row);
    StaysChained(chains, v, ts);
    hide VersionStore.Publish, ViewOf, Versioned, StoreOk, PlanOk;
  }

  lemma StaysChained(chains: Chains, v: Write, ts: nat)
    requires v.Update? && (v.row in chains || Reseeds(chains, v))
    ensures v.row in VersionStore.Publish(chains, v, ts)
  {
  }
}

/**
 The transaction manager and the database together. To the steps of the manager this adds buffering
 a write, which captures the stored row, applying a write to base storage while the transaction is
 being committed, publishing a write after it has its timestamp, and sweeping old versions. A run is
 any interleaving of these.
 */
module SnapshotRuns {
  import opened Text
  import opened VersionStore
  import opened SnapshotReads
  import C = ConflictDetector
  import T = Transactions

  /** What a transaction has buffered, and how much of it is in storage and in the version store. */
  datatype Plan = Plan(writes: seq<Write>, applied: nat, published: nat)

  /** `plans[t]` belongs to transaction `t` of the manager. */
  datatype Sys = Sys(core: T.State, db: Db, plans: seq<Plan>)

  datatype Act =
    | Core(step: T.Step)
    | Buffer(t: nat, w: Write)
    | Apply(t: nat)
    | Publish(t: nat)
    | Sweep(oldest: nat)

  function KeyOf(row: nat): C.Key { C.Key("t", row) }

  function KeysOf(ws: seq<Write>): (ks: seq<C.Key>)
    ensures |ks| == |ws| && forall i :: 0 <= i < |ks| ==> ks[i] == KeyOf(ws[i].row)
  {
    seq(|ws|, i requires 0 <= i < |ws| => KeyOf(ws[i].row))
  }

  /** The statement reads the row it changes from storage; a new row has a new id. */
  predicate Captures(db: Db, w: Write) {
    match w
    case Insert(row, _) => row !in db.storage
    case Delete(row, before) => row in db.storage && before == db.storage[row]
    case Update(row, before, _) => row in db.storage && before == db.storage[row]
  }

  function Init(storage: map<nat, Row>): Sys { Sys(T.Init(), Db(storage, map[]), []) }

  predicate Shaped(s: Sys) {
    && |s.plans| == |s.core.txns| && StoreOk(s.db.chains)
    && forall t :: 0 <= t < |s.plans| ==> PlanOk(s.core.txns[t], s.plans[t])
  }

  predicate PlanOk(x: T.Txn, p: Plan) {
    && p.applied <= |p.writes| && p.published <= |p.writes| && x.writes == KeysOf(p.writes)
    && (x.stage.Taken? || x.stage.Active? ==> p.applied == 0)
    && (x.committed.Some? ==> p.applied == |p.writes| && x.committed.value < TS_INF)
    && (x.committed.None? ==> p.published == 0)
  }

  /** Storage work precedes the timestamp, publication follows it and precedes the release of the snapshot. */
  predicate CanAct(s: Sys, a: Act) {
    && |s.plans| == |s.core.txns|
    && match a
       case Core(step) =>
         && !step.Read? && !step.Write? && T.Enabled(s.core, step)
         && (step.Record? ==> s.plans[step.t].applied == |s.plans[step.t].writes| && s.core.clock < TS_INF)
         && (step.Release? && s.core.txns[step.t].committed.Some? ==>
               s.plans[step.t].published == |s.plans[step.t].writes|)
       case Buffer(t, w) => T.Enabled(s.core, T.Write(t, KeyOf(w.row))) && Captures(s.db, w)
       case Apply(t) => t < |s.plans| && s.core.txns[t].stage.Validating? && s.plans[t].applied < |s.plans[t].writes|
       case Publish(t) => t < |s.plans| && s.core.txns[t].stage.Recorded? && s.core.txns[t].committed.Some?
           && s.plans[t].published < |s.plans[t].writes|
       case Sweep(_) => true
  }

  function Next(s: Sys, a: Act): Sys
    requires CanAct(s, a)
  {
    match a
    case Core(step) =>
      s.(core := T.Apply(s.core, step), plans := if step.Take? then s.plans + [Plan([], 0, 0)] else s.plans)
    case Buffer(t, w) =>
      var p := s.plans[t];
      s.(core := T.Apply(s.core, T.Write(t, KeyOf(w.row))), plans := s.plans[t := p.(writes := p.writes + [w])])
    case Apply(t) =>
      var p := s.plans[t];
      s.(db := s.db.(storage := Applied(s.db.storage, p.writes[p.applied])),
         plans := s.plans[t := p.(applied := p.applied + 1)])
    case Publish(t) =>
      var p, ts := s.plans[t], s.core.txns[t].committed.value;
      s.(db := s.db.(chains := VersionStore.Publish(s.db.chains, p.writes[p.published], ts)),
         plans := s.plans[t := p.(published := p.published + 1)])
    case Sweep(oldest) => s.(db := s.db.(chains := Collected(s.db.chains, oldest)))
  }

  predicate IsRun(storage: map<nat, Row>, states: seq<Sys>, acts: seq<Act>) {
    && |states| == |acts| + 1 && states[0] == Init(storage)
    && forall i :: 0 <= i < |acts| ==> CanAct(states[i], acts[i]) && states[i + 1] == Next(states[i], acts[i])
  }

  // ----- every act keeps the shape -----

  lemma CoreKeepsPlan(x: T.State, step: T.Step, t: nat, p: Plan)
    requires T.Enabled(x, step) && !step.Write? && t < |x.txns| && PlanOk(x.txns[t], p) && T.TimesOk(x, x.txns[t])
    requires step.Record? && step.t == t ==> p.applied == |p.writes| && x.clock < TS_INF
    ensures t < |T.Apply(x, step).txns| && PlanOk(T.Apply(x, step).txns[t], p)
  {
    hide T.Refused, T.Oldest, T.Pruned, C.Locked, C.Unlocked, C.Entries, KeysOf;
  }

  lemma CoreGrows(x: T.State, step: T.Step)
    requires T.Enabled(x, step)
    ensures
      var x' := T.Apply(x, step);
      if step.Take? then |x'.txns| == |x.txns| + 1 && PlanOk(x'.txns[|x.txns|], Plan([], 0, 0))
      else |x'.txns| == |x.txns|
  {
    hide T.Refused, T.Oldest, T.Pruned, C.Locked, C.Unlocked, C.Entries;
  }

  lemma ShapeKept(s: Sys, a: Act)
    requires Shaped(s) && T.Times(s.core) && CanAct(s, a)
    ensures Shaped(Next(s, a))
  {
    hide PlanOk, T.Apply, T.Times, StoreOk;
    match a
    case Core(step) =>
      CoreGrows(s.core, step);
      forall t | 0 <= t < |s.plans|
        ensures t < |T.Apply(s.core, step).txns| && PlanOk(T.Apply(s.core, step).txns[t], s.plans[t])
      {
        TimesAt(s.core, t);
        CoreKeepsPlan(s.core, step, t, s.plans[t]);
      }
    case Buffer(t, w) => BufferKeepsShape(s, t, w);
    case Apply(t) =>
      TimesAt(s.core, t);
      PlanStepOk(s.core.txns[t], s.plans[t]);
    case Publish(t) =>
      PlanStepOk(s.core.txns[t], s.plans[t]);
      PublishView(s.db.chains, s.plans[t].writes[s.plans[t].published], s.core.txns[t].committed.value, 0);
    case Sweep(oldest) => CollectedOk(s.db.chains, oldest, 0);
  }

  lemma TimesAt(x: T.State, t: nat)
    requires T.Times(x) && t < |x.txns|
    ensures T.TimesOk(x, x.txns[t])
  {
  }

  lemma PlanStepOk(x: T.Txn, p: Plan)
    requires PlanOk(x, p)
    ensures x.stage.Validating? && x.committed.None? && p.applied < |p.writes| ==>
      PlanOk(x, p.(applied := p.applied + 1))
    ensures x.committed.Some? && p.published < |p.writes| ==> PlanOk(x, p.(published := p.published + 1))
    ensures x.committed.Some? ==> x.committed.value < TS_INF
  {
  }

  lemma BufferKeepsShape(s: Sys, t: nat, w: Write)
    requires Shaped(s) && T.Times(s.core) && CanAct(s, Buffer(t, w))
    ensures Shaped(Next(s, Buffer(t, w)))
  {
    TimesAt(s.core, t);
    hide T.Times, StoreOk;
    var x, p := s.core.txns[t], s.plans[t];
    assert PlanOk(x, p);
    assert KeysOf(p.writes + [w]) == KeysOf(p.writes) + [KeyOf(w.row)];
  }

  // ----- repeatable reads over runs -----

  /** The act changes what the query finds of the row in a snapshot at `at`. */
  predicate Disturbs(q: Query, s: Sys, a: Act, row: nat, at: nat)
    requires CanAct(s, a)
  {
    match a
    case Core(_) => false
    case Buffer(_, _) => false
    case Apply(t) =>
      var w := s.plans[t].writes[s.plans[t].applied];
      w.row == row && ApplyDisturbs(q, s.db, w, at)
    case Publish(t) =>
      var w := s.plans[t].writes[s.plans[t].published];
      w.row == row && PublishDisturbs(q, s.db, w, s.core.txns[t].committed.value, at)
    case Sweep(oldest) => SweepDisturbs(q, s.db, oldest, row, at)
  }

  /** An act changes a read exactly when it disturbs it. */
  lemma ActExactly(q: Query, s: Sys, a: Act, row: nat, at: nat)
    requires Shaped(s) && CanAct(s, a) && at < TS_INF
    ensures TxnRead(q, Next(s, a).db, row, at) == TxnRead(q, s.db, row, at) <==> !Disturbs(q, s, a, row, at)
  {
    hide TxnRead, ApplyDisturbs, PublishDisturbs, SweepDisturbs, T.Apply, StoreOk;
    match a
    case Core(_) =>
    case Buffer(_, _) =>
    case Apply(t) =>
      var w := s.plans[t].writes[s.plans[t].applied];
      if w.row == row {
        ApplyExactly(q, s.db, w, at);
      } else {
        OtherRows(s.db.storage, s.db.chains, w, 0, row);
        ReadByRow(q, Next(s, a).db, s.db, row, at);
      }
    case Publish(t) =>
      var w, ts := s.plans[t].writes[s.plans[t].published], s.core.txns[t].committed.value;
      PlanStepOk(s.core.txns[t], s.plans[t]);
      if w.row == row {
        PublishExactly(q, s.db, w, ts, at);
      } else {
        OtherRows(s.db.storage, s.db.chains, w, ts, row);
        ReadByRow(q, Next(s, a).db, s.db, row, at);
      }
    case Sweep(oldest) => SweepExactly(q, s.db, oldest, row, at);
  }

  /** In every state of a run the manager's times and the shape hold. */
  lemma {:induction false} RunShaped(storage: map<nat, Row>, states: seq<Sys>, acts: seq<Act>, i: nat)
    requires IsRun(storage, states, acts) && i < |states|
    ensures Shaped(states[i]) && T.Times(states[i].core)
    decreases i
  {
    hide Shaped, T.Times, T.Apply, T.Enabled;
    if i == 0 {
      InitShaped(storage);
    } else {
      RunShaped(storage, states, acts, i - 1);
      ShapeKept(states[i - 1], acts[i - 1]);
      CoreTimesKept(states[i - 1], acts[i - 1]);
    }
  }

  lemma InitShaped(storage: map<nat, Row>)
    ensures Shaped(Init(storage)) && T.Times(Init(storage).core)
  {
  }

  lemma CoreTimesKept(s: Sys, a: Act)
    requires CanAct(s, a) && T.Times(s.core)
    ensures T.Times(Next(s, a).core)
  {
    hide T.Times, T.Apply;
    match a
    case Core(step) => T.TimesKept(s.core, step);
    case Buffer(t, w) => T.TimesKept(s.core, T.Write(t, KeyOf(w.row)));
    case Apply(_) =>
    case Publish(_) =>
    case Sweep(_) =>
  }

  /** Between two states of a run a snapshot reads the same throughout exactly when no act between them disturbs it. */
  lemma {:induction false} RepeatableExactly(
      q: Query, storage: map<nat, Row>, states: seq<Sys>, acts: seq<Act>, i: nat, j: nat, row: nat, at: nat)
    requires IsRun(storage, states, acts) && i <= j < |states| && at < TS_INF
    ensures
      (forall m :: i <= m <= j ==> TxnRead(q, states[m].db, row, at) == TxnRead(q, states[i].db, row, at))
      <==> forall m :: i <= m < j ==> !Disturbs(q, states[m], acts[m], row, at)
    decreases j
  {
    hide TxnRead, Disturbs, Next, CanAct;
    if i < j {
      RepeatableExactly(q, storage, states, acts, i, j - 1, row, at);
      RunShaped(storage, states, acts, j - 1);
      ActExactly(q, states[j - 1], acts[j - 1], row, at);
      assert states[j] == Next(states[j - 1], acts[j - 1]);
    }
  }

  // ----- no statement records a read -----

  predicate NothingRecorded(x: T.State) { forall t :: 0 <= t < |x.txns| ==> x.txns[t].readSet == {} }

  lemma RecordsNothing(x: T.State, step: T.Step)
    requires NothingRecorded(x) && T.Enabled(x, step) && !step.Read?
    ensures NothingRecorded(T.Apply(x, step))
  {
    hide T.Refused, T.Oldest, T.Pruned, C.Locked, C.Unlocked, C.Entries;
  }

  /** The executor hands no read to the manager, so validation only ever compares writes with writes. */
  lemma {:induction false} ReadSetsEmpty(storage: map<nat, Row>, states: seq<Sys>, acts: seq<Act>, i: nat)
    requires IsRun(storage, states, acts) && i < |states|
    ensures NothingRecorded(states[i].core)
    decreases i
  {
    hide T.Apply, T.Enabled, NothingRecorded;
    if i == 0 {
      assert NothingRecorded(Init(storage).core) by { StartsEmpty(storage); }
    } else {
      ReadSetsEmpty(storage, states, acts, i - 1);
      var s, a := states[i - 1], acts[i - 1];
      if a.Core? { RecordsNothing(s.core, a.step); }
      if a.Buffer? { RecordsNothing(s.core, T.Write(a.t, KeyOf(a.w.row))); }
    }
  }

  lemma StartsEmpty(storage: map<nat, Row>)
    ensures NothingRecorded(Init(storage).core)
  {
  }

  // ----- the manager's guarantees carry over -----

  predicate PrunesHarmlessly(s: Sys, a: Act)
    requires CanAct(s, a)
  {
    a.Core? && a.step.Prune? ==> T.Harmless(s.core, s.core.txns[a.step.t].stage.oldest)
  }

  lemma CoreInvKept(s: Sys, a: Act)
    requires CanAct(s, a) && T.Inv(s.core) && T.Complete(s.core) && PrunesHarmlessly(s, a)
    ensures T.Inv(Next(s, a).core) && T.Complete(Next(s, a).core)
  {
    hide T.Inv, T.Complete, T.Apply, T.Harmless;
    if a.Core? || a.Buffer? {
      var step := if a.Core? then a.step else T.Write(a.t, KeyOf(a.w.row));
      T.StepKeepsInv(s.core, step);
      if step.Prune? { T.PruneExactly(s.core, step.t); } else { T.CompleteKept(s.core, step); }
    }
  }

  // ----- what was captured is current when it is applied -----

  predicate AppliedTo(p: Plan, row: nat) { exists j :: 0 <= j < p.applied && j < |p.writes| && p.writes[j].row == row }

  /** Another transaction has changed the row, so that `t` cannot pass validation. */
  predicate Doomed(s: Sys, t: nat, row: nat)
    requires |s.plans| == |s.core.txns| && t < |s.plans|
  {
    exists u :: 0 <= u < |s.plans| && u != t && DoomedBy(s, t, row, u)
  }

  predicate DoomedBy(s: Sys, t: nat, row: nat, u: nat)
    requires |s.plans| == |s.core.txns| && t < |s.plans| && u < |s.plans|
  {
    var y := s.core.txns[u];
    && KeyOf(row) in y.writes
    && (|| (y.committed.Some? && y.committed.value > s.core.txns[t].ts)
        || (y.stage.Validating? && AppliedTo(s.plans[u], row)))
  }

  /** Write `i` is still to be applied and is the first one of its row. */
  predicate Pending(p: Plan, i: nat) {
    p.applied <= i < |p.writes| && forall j :: 0 <= j < i ==> p.writes[j].row != p.writes[i].row
  }

  predicate Current(s: Sys, t: nat)
    requires |s.plans| == |s.core.txns| && t < |s.plans|
  {
    var x, p := s.core.txns[t], s.plans[t];
    forall i :: 0 <= i < |p.writes| && Pending(p, i) ==>
      && (x.stage.Validating? ==> Captures(s.db, p.writes[i]))
      && (x.stage.Active? ==> Captures(s.db, p.writes[i]) || Doomed(s, t, p.writes[i].row))
  }

  predicate AllCurrent(s: Sys) {
    |s.plans| == |s.core.txns| && forall t :: 0 <= t < |s.plans| ==> Current(s, t)
  }

  /** A transaction is given up after part of it is in storage. */
  predicate Abandons(s: Sys, a: Act)
    requires CanAct(s, a)
  {
    a.Core? && a.step.Rollback? && s.plans[a.step.t].applied > 0
  }

  /** A transaction that passes validation is not doomed on any row it writes. */
  lemma PassedNotDoomed(s: Sys, t: nat, i: nat)
    requires Shaped(s) && T.Inv(s.core) && T.Complete(s.core) && t < |s.plans| && i < |s.plans[t].writes|
    requires s.core.txns[t].stage.Active? && !T.Refused(s.core, t)
    ensures !Doomed(s, t, s.plans[t].writes[i].row)
  {
    var x, p := s.core.txns[t], s.plans[t];
    var row := p.writes[i].row;
    assert PlanOk(x, p);
    assert KeyOf(row) in T.Keys(x) by { assert x.writes[i] == KeyOf(row); }
    forall u | 0 <= u < |s.plans| && u != t
      ensures !DoomedBy(s, t, row, u)
    {
      T.PassedIsClear(s.core, t, u);
      ValidatingHolds(s.core, u, KeyOf(row));
      hide T.Inv, T.Complete, Shaped;
    }
  }

  lemma ValidatingHolds(x: T.State, u: nat, k: C.Key)
    requires T.Inv(x) && u < |x.txns|
    ensures x.txns[u].stage.Validating? && k in x.txns[u].writes ==> k in x.intents && x.intents[k] == u
  {
  }

  /** A step of the manager that takes nothing back keeps a transaction doomed. */
  lemma DoomKept(s: Sys, step: T.Step, t: nat, row: nat)
    requires Shaped(s) && T.Times(s.core) && CanAct(s, Core(step)) && !Abandons(s, Core(step))
    requires t < |s.plans| && Doomed(s, t, row) && s.core.txns[t].stage.Active?
    ensures |Next(s, Core(step)).plans| == |Next(s, Core(step)).core.txns| && t < |Next(s, Core(step)).plans|
    ensures Doomed(Next(s, Core(step)), t, row)
  {
    var s' := Next(s, Core(step));
    CoreGrows(s.core, step);
    var u :| 0 <= u < |s.plans| && u != t && DoomedBy(s, t, row, u);
    TimesAt(s.core, t);
    TimesAt(s.core, u);
    CommitSurvives(s.core, step, u);
    TimestampStays(s.core, step, t);
    hide T.Apply, Shaped, T.Times;
    assert DoomedBy(s', t, row, u);
  }

  lemma CommitSurvives(x: T.State, step: T.Step, u: nat)
    requires T.Enabled(x, step) && !step.Write? && u < |x.txns| && T.TimesOk(x, x.txns[u])
    ensures
      var x' := T.Apply(x, step);
      && u < |x'.txns| && x'.txns[u].writes == x.txns[u].writes
      && (x.txns[u].committed.Some? ==> x'.txns[u].committed == x.txns[u].committed)
      && (x.txns[u].stage.Validating? ==>
            || x'.txns[u].stage.Validating?
            || x'.txns[u].committed == Some(x.clock)
            || (step.Rollback? && step.t == u))
  {
    hide T.Refused, T.Oldest, T.Pruned, C.Locked, C.Unlocked, C.Entries;
  }

  lemma TimestampStays(x: T.State, step: T.Step, t: nat)
    requires T.Enabled(x, step) && t < |x.txns|
    ensures t < |T.Apply(x, step).txns| && T.Apply(x, step).txns[t].ts == x.txns[t].ts
  {
    hide T.Refused, T.Oldest, T.Pruned, C.Locked, C.Unlocked, C.Entries;
  }

  /** Where a transaction that is open or being committed comes from. */
  lemma StageBefore(x: T.State, step: T.Step, t: nat)
    requires T.Enabled(x, step) && t < |x.txns| && T.TimesOk(x, x.txns[t])
    ensures
      var x' := T.Apply(x, step);
      && t < |x'.txns|
      && (x'.txns[t].stage.Validating? ==>
            x.txns[t].stage.Validating? || (step == T.Prepare(t) && x.txns[t].stage.Active? && !T.Refused(x, t)))
      && (x'.txns[t].stage.Active? ==> x.txns[t].stage.Active? || x.txns[t].writes == [])
  {
    hide T.Oldest, T.Pruned, C.Locked, C.Unlocked, C.Entries, T.Refused;
  }

  lemma CoreKeepsCurrent(s: Sys, step: T.Step)
    requires Shaped(s) && T.Inv(s.core) && T.Complete(s.core) && AllCurrent(s)
    requires CanAct(s, Core(step)) && !Abandons(s, Core(step))
    ensures AllCurrent(Next(s, Core(step)))
  {
    var s' := Next(s, Core(step));
    CoreGrows(s.core, step);
    InvTimes(s.core);
    forall t | 0 <= t < |s'.plans|
      ensures Current(s', t)
    {
      if t < |s.plans| { CoreKeepsOne(s, step, t); }
    }
  }

  lemma InvTimes(x: T.State)
    requires T.Inv(x)
    ensures T.Times(x)
  {
  }

  lemma CoreKeepsOne(s: Sys, step: T.Step, t: nat)
    requires Shaped(s) && T.Inv(s.core) && T.Complete(s.core) && t < |s.plans| && Current(s, t)
    requires CanAct(s, Core(step)) && !Abandons(s, Core(step))
    ensures |Next(s, Core(step)).plans| == |Next(s, Core(step)).core.txns| && t < |Next(s, Core(step)).plans|
    ensures Current(Next(s, Core(step)), t)
  {
    var s', p := Next(s, Core(step)), s.plans[t];
    CoreGrows(s.core, step);
    InvTimes(s.core);
    TimesAt(s.core, t);
    StageBefore(s.core, step, t);
    assert PlanOk(s.core.txns[t], p);
    hide T.Apply, T.Inv, T.Complete, Captures;
    forall i | 0 <= i < |p.writes| && Pending(p, i)
      ensures s'.core.txns[t].stage.Validating? ==> Captures(s'.db, p.writes[i])
      ensures s'.core.txns[t].stage.Active? ==> Captures(s'.db, p.writes[i]) || Doomed(s', t, p.writes[i].row)
    {
      var row := p.writes[i].row;
      if s'.core.txns[t].stage.Validating? && !s.core.txns[t].stage.Validating? { PassedNotDoomed(s, t, i); }
      if s.core.txns[t].stage.Active? && Doomed(s, t, row) { DoomKept(s, step, t, row); }
    }
  }

  lemma BufferKeepsCurrent(s: Sys, t: nat, w: Write)
    requires Shaped(s) && AllCurrent(s) && CanAct(s, Buffer(t, w))
    ensures AllCurrent(Next(s, Buffer(t, w)))
  {
    var s' := Next(s, Buffer(t, w));
    forall v | 0 <= v < |s'.plans|
      ensures Current(s', v)
    {
      BufferKeepsOne(s, t, w, v);
    }
  }

  lemma PendingEarlier(p: Plan, w: Write, i: nat)
    requires i < |p.writes| && Pending(p.(writes := p.writes + [w]), i)
    ensures Pending(p, i) && (p.writes + [w])[i] == p.writes[i]
  {
    var p' := p.(writes := p.writes + [w]);
    assert forall j :: 0 <= j < |p.writes| ==> p'.writes[j] == p.writes[j];
  }

  lemma BufferKeepsOne(s: Sys, t: nat, w: Write, v: nat)
    requires Shaped(s) && CanAct(s, Buffer(t, w)) && v < |s.plans| && Current(s, v)
    ensures |Next(s, Buffer(t, w)).plans| == |Next(s, Buffer(t, w)).core.txns| && v < |Next(s, Buffer(t, w)).plans|
    ensures Current(Next(s, Buffer(t, w)), v)
  {
    var s' := Next(s, Buffer(t, w));
    var p, p' := s.plans[v], s'.plans[v];
    BufferShape(s, t, w, v);
    forall i | 0 <= i < |p'.writes| && Pending(p', i)
      ensures s'.core.txns[v].stage.Validating? ==> Captures(s'.db, p'.writes[i])
      ensures s'.core.txns[v].stage.Active? ==> Captures(s'.db, p'.writes[i]) || Doomed(s', v, p'.writes[i].row)
    {
      if i < |p.writes| {
        if v == t { PendingEarlier(p, w, i); }
        DoomKeptByBuffer(s, t, w, v, p.writes[i].row);
      }
      hide Next, Captures, Doomed;
    }
  }

  lemma BufferShape(s: Sys, t: nat, w: Write, v: nat)
    requires Shaped(s) && CanAct(s, Buffer(t, w)) && v < |s.plans|
    ensures
      var s' := Next(s, Buffer(t, w));
      && s'.db == s.db && |s'.plans| == |s'.core.txns| == |s.plans|
      && s'.core.txns[v].stage == s.core.txns[v].stage
      && s'.plans[v] == (if v == t then s.plans[t].(writes := s.plans[t].writes + [w]) else s.plans[v])
      && (v == t ==> s.core.txns[t].stage.Active?)
  {
  }

  lemma DoomKeptByBuffer(s: Sys, t: nat, w: Write, v: nat, row: nat)
    requires Shaped(s) && CanAct(s, Buffer(t, w)) && v < |s.plans|
    ensures |Next(s, Buffer(t, w)).plans| == |Next(s, Buffer(t, w)).core.txns| && v < |Next(s, Buffer(t, w)).plans|
    ensures Doomed(s, v, row) ==> Doomed(Next(s, Buffer(t, w)), v, row)
  {
    var s' := Next(s, Buffer(t, w));
    if Doomed(s, v, row) {
      var u :| 0 <= u < |s.plans| && u != v && DoomedBy(s, v, row, u);
      assert DoomedBy(s', v, row, u);
    }
  }

  /** Applying a write dooms the open transactions that captured the row, and meets no other one being committed. */
  lemma ApplyKeepsCurrent(s: Sys, u: nat)
    requires Shaped(s) && T.Inv(s.core) && AllCurrent(s) && CanAct(s, Apply(u))
    ensures AllCurrent(Next(s, Apply(u)))
  {
    var s' := Next(s, Apply(u));
    forall t | 0 <= t < |s'.plans|
      ensures Current(s', t)
    {
      ApplyKeepsOne(s, u, t);
    }
  }

  lemma ApplyKeepsOne(s: Sys, u: nat, t: nat)
    requires Shaped(s) && T.Inv(s.core) && CanAct(s, Apply(u)) && t < |s.plans| && Current(s, t)
    ensures |Next(s, Apply(u)).plans| == |s.plans| && Current(Next(s, Apply(u)), t)
  {
    var s' := Next(s, Apply(u));
    var w, p, p' := s.plans[u].writes[s.plans[u].applied], s.plans[t], s'.plans[t];
    assert PlanOk(s.core.txns[u], s.plans[u]) && PlanOk(s.core.txns[t], p);
    var x := s.core.txns[t];
    forall i | 0 <= i < |p'.writes| && Pending(p', i)
      ensures x.stage.Validating? ==> Captures(s'.db, p'.writes[i])
      ensures x.stage.Active? ==> Captures(s'.db, p'.writes[i]) || Doomed(s', t, p'.writes[i].row)
    {
      var row := p.writes[i].row;
      assert Pending(p, i);
      if row != w.row {
        CapturesByRow(s.db, w, p.writes[i]);
        DoomKeptByApply(s, u, t, row);
      } else if t != u {
        AppliedRow(s, u);
        ValidatingHolds(s.core, t, KeyOf(row));
        ValidatingHolds(s.core, u, KeyOf(row));
        assert x.writes[i] == KeyOf(row);
        if x.stage.Active? { assert DoomedBy(s', t, row, u); }
      }
    }
  }

  lemma AppliedRow(s: Sys, u: nat)
    requires Shaped(s) && CanAct(s, Apply(u))
    ensures
      var s', row := Next(s, Apply(u)), s.plans[u].writes[s.plans[u].applied].row;
      AppliedTo(s'.plans[u], row) && KeyOf(row) in s.core.txns[u].writes
  {
    var s', j := Next(s, Apply(u)), s.plans[u].applied;
    assert PlanOk(s.core.txns[u], s.plans[u]);
    assert s.core.txns[u].writes[j] == KeyOf(s.plans[u].writes[j].row);
    assert s'.plans[u].writes[j].row == s.plans[u].writes[j].row;
  }

  lemma CapturesByRow(db: Db, w: Write, other: Write)
    requires other.row != w.row
    ensures Captures(db.(storage := Applied(db.storage, w)), other) == Captures(db, other)
  {
  }

  lemma DoomKeptByApply(s: Sys, u: nat, t: nat, row: nat)
    requires Shaped(s) && CanAct(s, Apply(u)) && t < |s.plans|
    ensures |Next(s, Apply(u)).plans| == |s.plans|
    ensures Doomed(s, t, row) ==> Doomed(Next(s, Apply(u)), t, row)
  {
    var s' := Next(s, Apply(u));
    if Doomed(s, t, row) {
      var v :| 0 <= v < |s.plans| && v != t && DoomedBy(s, t, row, v);
      if AppliedTo(s.plans[v], row) {
        var j :| 0 <= j < s.plans[v].applied && j < |s.plans[v].writes| && s.plans[v].writes[j].row == row;
        assert s'.plans[v].writes[j].row == row;
      }
      assert DoomedBy(s', t, row, v);
    }
  }

  lemma PublishKeepsCurrent(s: Sys, a: Act)
    requires Shaped(s) && AllCurrent(s) && CanAct(s, a) && (a.Publish? || a.Sweep?)
    ensures AllCurrent(Next(s, a))
  {
    hide VersionStore.Publish, Collected;
    var s' := Next(s, a);
    forall t | 0 <= t < |s'.plans|
      ensures Current(s', t)
    {
      var p, p' := s.plans[t], s'.plans[t];
      assert Current(s, t) && p'.writes == p.writes && p'.applied == p.applied;
      forall i | 0 <= i < |p'.writes| && Pending(p', i)
        ensures Pending(p, i) && Captures(s'.db, p'.writes[i]) == Captures(s.db, p.writes[i])
        ensures Doomed(s, t, p.writes[i].row) ==> Doomed(s', t, p.writes[i].row)
      {
        var row := p.writes[i].row;
        if Doomed(s, t, row) {
          var u :| 0 <= u < |s.plans| && u != t && DoomedBy(s, t, row, u);
          if AppliedTo(s.plans[u], row) {
            var j :| 0 <= j < s.plans[u].applied && j < |s.plans[u].writes| && s.plans[u].writes[j].row == row;
            assert s'.plans[u].writes[j].row == row;
          }
          assert DoomedBy(s', t, row, u);
        }
      }
    }
  }

  lemma CurrentKept(s: Sys, a: Act)
    requires Shaped(s) && T.Inv(s.core) && T.Complete(s.core) && AllCurrent(s) && CanAct(s, a) && !Abandons(s, a)
    ensures AllCurrent(Next(s, a))
  {
    match a
    case Core(step) => CoreKeepsCurrent(s, step);
    case Buffer(t, w) => BufferKeepsCurrent(s, t, w);
    case Apply(t) => ApplyKeepsCurrent(s, t);
    case Publish(_) => PublishKeepsCurrent(s, a);
    case Sweep(_) => PublishKeepsCurrent(s, a);
  }

  predicate Orderly(states: seq<Sys>, acts: seq<Act>)
    requires |states| == |acts| + 1 && forall i :: 0 <= i < |acts| ==> CanAct(states[i], acts[i])
  {
    forall i :: 0 <= i < |acts| ==> PrunesHarmlessly(states[i], acts[i]) && !Abandons(states[i], acts[i])
  }

  /**
   Over every interleaving in which prunes are harmless and no half-applied transaction is given up,
   first committer wins, and every write that is still to be applied captured the row as storage holds it.
   */
  lemma {:induction false} CapturedIsCurrent(storage: map<nat, Row>, states: seq<Sys>, acts: seq<Act>, i: nat)
    requires IsRun(storage, states, acts) && Orderly(states, acts) && i < |states|
    ensures Shaped(states[i]) && T.Inv(states[i].core) && T.Complete(states[i].core) && AllCurrent(states[i])
    ensures T.FirstCommitterWins(states[i].core)
    decreases i
  {
    hide Shaped, T.Inv, T.Complete, AllCurrent, T.FirstCommitterWins, Next, CanAct, PrunesHarmlessly, Abandons, T.Times;
    RunShaped(storage, states, acts, i);
    if i == 0 {
      InitCurrent(storage);
    } else {
      CapturedIsCurrent(storage, states, acts, i - 1);
      CoreInvKept(states[i - 1], acts[i - 1]);
      CurrentKept(states[i - 1], acts[i - 1]);
    }
    T.InvGivesFirstCommitter(states[i].core);
  }

  lemma InitCurrent(storage: map<nat, Row>)
    ensures T.Inv(Init(storage).core) && T.Complete(Init(storage).core) && AllCurrent(Init(storage))
  {
    T.InitOk();
  }
}

/**
 The transaction manager as a transition system. Each step is one section that the manager runs
 under a lock (or one atomic access), so a run is any interleaving of the threads' sections:
 taking a timestamp, registering the snapshot, `prepare_commit`, and the four parts of
 `finalize_commit` (record, release the snapshot, load the oldest snapshot, prune the log).

 `Register` stands for the locked insert and the `fetch_min` after it. Between the two the snapshot
 is not yet counted as oldest, as before `Register`, unless a release recomputes the oldest over all
 inserted snapshots, and then it counts, as after `Register`. Nobody else can name the transaction
 in between, so placing the step where the snapshot first counts gives a run with the same effects.

 `Read` is a call of `record_read`. The manager validates the reads it was told of; the executor's
 statements tell it of none, so for them only writes are validated.
 */
module Transactions {
  import opened Text
  import opened ConflictDetector

  datatype Stage =
    | Taken
    | Active
    | Validating
    | Aborted
    | Recorded
    | Released
    | Loaded(oldest: Option<nat>)
    | Done

  /** `committed` and `preparedAt` remember the commit timestamp and the clock at validation. */
  datatype Txn = Txn(ts: nat, readSet: set<Key>, writes: seq<Key>, stage: Stage, preparedAt: nat,
      committed: Option<nat>)

  /** A transaction's id is its position in `txns`. */
  datatype State = State(clock: nat, txns: seq<Txn>, log: seq<CommittedWrite>, intents: map<Key, nat>)

  datatype Step =
    | Take
    | Register(t: nat)
    | Read(t: nat, key: Key)
    | Write(t: nat, key: Key)
    | Prepare(t: nat)
    | Rollback(t: nat)
    | Record(t: nat)
    | Release(t: nat)
    | Load(t: nat)
    | Prune(t: nat)

  function Keys(x: Txn): set<Key> { set k | k in x.writes }

  /** The snapshot is known to the snapshot manager. */
  predicate Registered(x: Txn) { x.stage.Active? || x.stage.Validating? || x.stage.Aborted? || x.stage.Recorded? }

  /** `oldest_active_timestamp`; `None` stands for `u64::MAX`. */
  function Oldest(txns: seq<Txn>): Option<nat> {
    if txns == [] then None
    else
      var rest, last := Oldest(txns[..|txns| - 1]), txns[|txns| - 1];
      if Registered(last) && (rest.None? || last.ts < rest.value) then Some(last.ts) else rest
  }

  /** `advance_watermark`, then `clear_committed_writes` when no snapshot is active. */
  function Pruned(log: seq<CommittedWrite>, oldest: Option<nat>): seq<CommittedWrite> {
    match oldest
    case None => []
    case Some(w) => Retained(log, w)
  }

  /** `prepare_commit` turns the transaction down; one without writes is never turned down. */
  predicate Refused(s: State, t: nat)
    requires t < |s.txns|
  {
    var x := s.txns[t];
    && x.writes != []
    && (Conflicts(s.log, t, x.ts, Keys(x) + x.readSet) || !Free(s.intents, Keys(x), t))
  }

  function Init(): State { State(1, [], [], map[]) }

  predicate Enabled(s: State, step: Step) {
    if step.Take? then true
    else
      && step.t < |s.txns|
      && var stage := s.txns[step.t].stage;
        match step
        case Register(_) => stage.Taken?
        case Read(_, _) => stage.Active?
        case Write(_, _) => stage.Active?
        case Prepare(_) => stage.Active?
        case Rollback(_) => stage.Active? || stage.Validating?
        case Record(_) => stage.Validating?
        case Release(_) => stage.Aborted? || stage.Recorded?
        case Load(_) => stage.Released?
        case Prune(_) => stage.Loaded?
  }

  function Apply(s: State, step: Step): State
    requires Enabled(s, step)
  {
    if step.Take? then s.(clock := s.clock + 1, txns := s.txns + [Txn(s.clock, {}, [], Taken, 0, None)])
    else
      var t, x := step.t, s.txns[step.t];
      match step
      case Register(_) => s.(txns := s.txns[t := x.(stage := Active)])
      case Read(_, k) => s.(txns := s.txns[t := x.(readSet := x.readSet + {k})])
      case Write(_, k) => s.(txns := s.txns[t := x.(writes := x.writes + [k])])
      case Prepare(_) =>
        if Refused(s, t) then
          s.(txns := s.txns[t := x.(stage := Aborted)], intents := Unlocked(s.intents, Keys(x), t))
        else
          s.(txns := s.txns[t := x.(stage := Validating, preparedAt := s.clock)],
             intents := Locked(s.intents, Keys(x), t))
      case Rollback(_) => s.(txns := s.txns[t := x.(stage := Aborted)], intents := Unlocked(s.intents, Keys(x), t))
      case Record(_) =>
        State(s.clock + 1, s.txns[t := x.(stage := Recorded, committed := Some(s.clock))],
              s.log + Entries(t, s.clock, x.writes), Unlocked(s.intents, Keys(x), t))
      case Release(_) => s.(txns := s.txns[t := x.(stage := if x.stage.Aborted? then Done else Released)])
      case Load(_) => s.(txns := s.txns[t := x.(stage := Loaded(Oldest(s.txns)))])
      case Prune(_) => s.(txns := s.txns[t := x.(stage := Done)], log := Pruned(s.log, x.stage.oldest))
  }

  predicate IsRun(states: seq<State>, steps: seq<Step>) {
    && |states| == |steps| + 1 && states[0] == Init()
    && forall i :: 0 <= i < |steps| ==> Enabled(states[i], steps[i]) && states[i + 1] == Apply(states[i], steps[i])
  }

  // ----- what is to be shown -----

  /** One of the two committed before the other took its snapshot. */
  predicate Apart(x: Txn, y: Txn)
    requires x.committed.Some? && y.committed.Some?
  {
    x.committed.value <= y.ts || y.committed.value <= x.ts
  }

  /** First committer wins: no two overlapping transactions commit a write to the same row. */
  predicate FirstCommitterWins(s: State) {
    forall t, u, k :: 0 <= t < |s.txns| && 0 <= u < |s.txns| && t != u
      && s.txns[t].committed.Some? && s.txns[u].committed.Some? && k in s.txns[t].writes && k in s.txns[u].writes
      ==> Apart(s.txns[t], s.txns[u])
  }

  // ----- the invariant -----

  predicate TimesOk(s: State, x: Txn) {
    && x.ts < s.clock && x.preparedAt <= s.clock
    && (x.committed.Some? ==> x.ts < x.committed.value < s.clock && x.preparedAt <= x.committed.value)
    && (x.stage.Validating? || x.committed.Some? ==> x.ts < x.preparedAt)
    && (x.stage.Taken? || x.stage.Active? || x.stage.Validating? || x.stage.Aborted? ==> x.committed.None?)
    && (x.stage.Taken? ==> x.readSet == {} && x.writes == [])
  }

  predicate Times(s: State) { forall t :: 0 <= t < |s.txns| ==> TimesOk(s, s.txns[t]) }

  predicate TrueEntry(txns: seq<Txn>, e: CommittedWrite) {
    e.txn < |txns| && txns[e.txn].committed == Some(e.ts) && e.key in txns[e.txn].writes
  }

  /** The log holds only writes that were committed. */
  predicate LogTrue(s: State) { forall i :: 0 <= i < |s.log| ==> TrueEntry(s.txns, s.log[i]) }

  /** The intents are those of the transactions being committed. */
  predicate Locks(s: State) {
    && (forall t, k :: 0 <= t < |s.txns| && s.txns[t].stage.Validating? && k in s.txns[t].writes ==>
          k in s.intents && s.intents[k] == t)
    && (forall k :: k in s.intents ==>
          s.intents[k] < |s.txns| && s.txns[s.intents[k]].stage.Validating? && k in s.txns[s.intents[k]].writes)
  }

  /** `u` is no obstacle for the rows `t` writes: it committed before `t`'s snapshot, or started after `t` committed. */
  predicate WritesClear(x: Txn, y: Txn) {
    forall k :: k in x.writes && k in y.writes && y.committed.Some? ==>
      y.committed.value <= x.ts || (x.committed.Some? && x.committed.value <= y.ts)
  }

  /** What `t` recorded as read was not overwritten by `u` between `t`'s snapshot and `t`'s validation. */
  predicate ReadsClear(x: Txn, y: Txn) {
    forall k :: k in x.readSet && k in y.writes && y.committed.Some? && x.writes != [] ==>
      y.committed.value <= x.ts || y.committed.value >= x.preparedAt
  }

  predicate CommitsDiffer(x: Txn, y: Txn) { y.committed.Some? ==> x.committed != y.committed }

  predicate KeptApart(x: Txn, y: Txn) { WritesClear(x, y) && ReadsClear(x, y) && CommitsDiffer(x, y) }

  predicate Guarded(x: Txn) { x.stage.Validating? || x.committed.Some? }

  predicate Clear(s: State) {
    forall t, u :: 0 <= t < |s.txns| && 0 <= u < |s.txns| && t != u && Guarded(s.txns[t]) ==>
      KeptApart(s.txns[t], s.txns[u])
  }

  predicate Inv(s: State) { Times(s) && LogTrue(s) && Locks(s) && Clear(s) }

  /** The transaction has yet to be validated. */
  predicate Live(x: Txn) { x.stage.Taken? || x.stage.Active? }

  predicate Logged(s: State, x: Txn, u: nat)
    requires u < |s.txns|
  {
    var y := s.txns[u];
    y.committed.Some? && y.committed.value > x.ts ==>
      forall k :: k in y.writes ==> InLog(s.log, CommittedWrite(u, y.committed.value, k))
  }

  /** The log still holds every write that a live transaction could conflict with. */
  predicate Complete(s: State) {
    forall t, u :: 0 <= t < |s.txns| && 0 <= u < |s.txns| && Live(s.txns[t]) ==> Logged(s, s.txns[t], u)
  }

  // ----- every step keeps the invariant -----

  lemma OnlyOneChanges(s: State, step: Step)
    requires Enabled(s, step) && !step.Take?
    ensures
      var s' := Apply(s, step);
      && |s'.txns| == |s.txns|
      && (forall u :: 0 <= u < |s.txns| && u != step.t ==> s'.txns[u] == s.txns[u])
      && s'.txns[step.t].ts == s.txns[step.t].ts
      && s.clock <= s'.clock
  {
    hide Unlocked, Locked, Refused, Pruned;
  }

  lemma TimesKept(s: State, step: Step)
    requires Times(s) && Enabled(s, step)
    ensures Times(Apply(s, step))
  {
    hide Unlocked, Locked, Refused, Pruned, Oldest;
    var s' := Apply(s, step);
    if !step.Take? { OnlyOneChanges(s, step); }
    forall u | 0 <= u < |s'.txns|
      ensures TimesOk(s', s'.txns[u])
    {
      assert u < |s.txns| ==> TimesOk(s, s.txns[u]);
    }
  }

  lemma TruthKept(s: State, step: Step, e: CommittedWrite)
    requires Times(s) && Enabled(s, step) && TrueEntry(s.txns, e)
    ensures TrueEntry(Apply(s, step).txns, e)
  {
    hide Unlocked, Locked, Refused, Pruned, Oldest;
    assert TimesOk(s, s.txns[e.txn]);
    if !step.Take? { OnlyOneChanges(s, step); }
  }

  /** Where an entry of the next log comes from. */
  lemma LogChange(s: State, step: Step, e: CommittedWrite)
    requires Enabled(s, step)
    ensures
      InLog(Apply(s, step).log, e) <==>
        if step.Record? then InLog(s.log, e) || (e.txn == step.t && e.ts == s.clock && e.key in s.txns[step.t].writes)
        else if step.Prune? then InLog(s.log, e) && !Drops(s.txns[step.t].stage.oldest, e)
        else InLog(s.log, e)
  {
    hide Unlocked, Locked, Refused, Oldest, Retained, InLog, Entries;
    if step.Record? {
      EntriesAre(step.t, s.clock, s.txns[step.t].writes, e);
      InLogAppend(s.log, Entries(step.t, s.clock, s.txns[step.t].writes), e);
    } else if step.Prune? {
      var o := s.txns[step.t].stage.oldest;
      InLogOne(e, e);
      if o.Some? { RetainedIs(s.log, o.value, e); }
    }
  }

  lemma LogTrueKept(s: State, step: Step)
    requires Times(s) && LogTrue(s) && Enabled(s, step)
    ensures LogTrue(Apply(s, step))
  {
    var s' := Apply(s, step);
    forall i | 0 <= i < |s'.log|
      ensures TrueEntry(s'.txns, s'.log[i])
    {
      var e := s'.log[i];
      assert InLog(s'.log, e);
      LogChange(s, step, e);
      if InLog(s.log, e) {
        var j :| 0 <= j < |s.log| && s.log[j] == e;
        hide Apply;
        TruthKept(s, step, e);
      } else {
        RecordedIsTrue(s, step, e);
      }
    }
  }

  lemma RecordedIsTrue(s: State, step: Step, e: CommittedWrite)
    requires Enabled(s, step) && step.Record?
    requires e.txn == step.t && e.ts == s.clock && e.key in s.txns[step.t].writes
    ensures TrueEntry(Apply(s, step).txns, e)
  {
  }

  lemma UnlockKeeps(s: State, s': State, t: nat)
    requires Locks(s) && t < |s.txns| && |s'.txns| == |s.txns|
    requires forall u :: 0 <= u < |s.txns| && u != t ==> s'.txns[u] == s.txns[u]
    requires s'.intents == Unlocked(s.intents, Keys(s.txns[t]), t) && !s'.txns[t].stage.Validating?
    ensures Locks(s')
  {
  }

  lemma LocksKept(s: State, step: Step)
    requires Locks(s) && Enabled(s, step)
    ensures Locks(Apply(s, step))
  {
    var s' := Apply(s, step);
    if step.Take? {
    } else {
      OnlyOneChanges(s, step);
      if step.Rollback? || step.Record? || (step.Prepare? && Refused(s, step.t)) {
        UnlockKeeps(s, s', step.t);
      } else if step.Prepare? {
        LockKeeps(s, s', step.t);
      } else {
        QuietKeepsLocks(s, step);
      }
    }
  }

  lemma QuietKeepsLocks(s: State, step: Step)
    requires Locks(s) && Enabled(s, step) && !step.Take? && !step.Rollback? && !step.Record? && !step.Prepare?
    ensures Locks(Apply(s, step))
  {
    hide Oldest, Pruned;
    var s' := Apply(s, step);
    assert !s.txns[step.t].stage.Validating? && !s'.txns[step.t].stage.Validating?;
  }

  lemma LockKeeps(s: State, s': State, t: nat)
    requires Locks(s) && t < |s.txns| && |s'.txns| == |s.txns|
    requires forall u :: 0 <= u < |s.txns| && u != t ==> s'.txns[u] == s.txns[u]
    requires s'.txns[t].writes == s.txns[t].writes && s'.txns[t].stage.Validating? && s.txns[t].stage.Active?
    requires s'.intents == Locked(s.intents, Keys(s.txns[t]), t)
    requires s.txns[t].writes != [] ==> Free(s.intents, Keys(s.txns[t]), t)
    ensures Locks(s')
  {
  }

  // ----- passing validation means being clear of every commit -----

  /** With a complete log, a transaction that passes validation is clear of all earlier commits. */
  lemma PassedIsClear(s: State, t: nat, u: nat)
    requires Inv(s) && Complete(s) && t < |s.txns| && u < |s.txns| && t != u
    requires s.txns[t].stage.Active? && !Refused(s, t)
    ensures WritesClear(s.txns[t].(preparedAt := s.clock), s.txns[u])
    ensures ReadsClear(s.txns[t].(preparedAt := s.clock), s.txns[u])
  {
    var x, y := s.txns[t], s.txns[u];
    if x.writes != [] && y.committed.Some? && y.committed.value > x.ts {
      assert Logged(s, x, u);
      hide Inv, Complete, Free, Conflicts, InLog;
      ConflictsByEntry(s.log, t, x.ts, Keys(x) + x.readSet);
      forall k | k in y.writes
        ensures k !in x.writes && k !in x.readSet
      {
        var e := CommittedWrite(u, y.committed.value, k);
        assert InLog(s.log, e);
      }
    }
  }

  /** Another transaction committed a row that `t` wrote or recorded as read after `t` took its snapshot. */
  predicate Overtaken(s: State, t: nat, u: nat)
    requires t < |s.txns| && u < |s.txns|
  {
    && s.txns[u].committed.Some? && s.txns[u].committed.value > s.txns[t].ts
    && exists k :: k in s.txns[u].writes && (k in s.txns[t].writes || k in s.txns[t].readSet)
  }

  /** Another transaction that is being committed writes a row that `t` writes. */
  predicate Blocked(s: State, t: nat, u: nat)
    requires t < |s.txns| && u < |s.txns|
  {
    s.txns[u].stage.Validating? && exists k :: k in s.txns[u].writes && k in s.txns[t].writes
  }

  /**
   With a complete log a writer is turned down exactly when another transaction has overtaken it or blocks it: no
   conflict is missed and none is invented.
   */
  lemma RefusedExactly(s: State, t: nat)
    requires Inv(s) && Complete(s) && t < |s.txns| && s.txns[t].stage.Active? && s.txns[t].writes != []
    ensures Refused(s, t) <==> exists u :: 0 <= u < |s.txns| && u != t && (Overtaken(s, t, u) || Blocked(s, t, u))
  {
    if Refused(s, t) {
      var u := WhoRefuses(s, t);
    }
    forall u | 0 <= u < |s.txns| && u != t && (Overtaken(s, t, u) || Blocked(s, t, u))
      ensures Refused(s, t)
    {
      if Overtaken(s, t, u) { OvertakenIsRefused(s, t, u); } else { BlockedIsRefused(s, t, u); }
    }
  }

  lemma WhoRefuses(s: State, t: nat) returns (u: nat)
    requires Inv(s) && t < |s.txns| && s.txns[t].stage.Active? && Refused(s, t)
    ensures u < |s.txns| && u != t && (Overtaken(s, t, u) || Blocked(s, t, u))
  {
    hide Times, Clear, InLog, KeyConflicts;
    var x := s.txns[t];
    var keys := Keys(x) + x.readSet;
    if Conflicts(s.log, t, x.ts, keys) {
      ConflictsByEntry(s.log, t, x.ts, keys);
      var e :| InLog(s.log, e) && e.key in keys && e.ts > x.ts && e.txn != t;
      TrueInLog(s, e);
      u := e.txn;
    } else {
      var k :| k in Keys(x) && k in s.intents && s.intents[k] != t;
      u := s.intents[k];
    }
  }

  lemma OvertakenIsRefused(s: State, t: nat, u: nat)
    requires Complete(s) && t < |s.txns| && u < |s.txns| && u != t && Overtaken(s, t, u)
    requires s.txns[t].stage.Active? && s.txns[t].writes != []
    ensures Refused(s, t)
  {
    hide InLog, KeyConflicts, Conflicts;
    var x := s.txns[t];
    assert Logged(s, x, u);
    var k :| k in s.txns[u].writes && (k in x.writes || k in x.readSet);
    assert InLog(s.log, CommittedWrite(u, s.txns[u].committed.value, k));
    ConflictsByEntry(s.log, t, x.ts, Keys(x) + x.readSet);
  }

  lemma BlockedIsRefused(s: State, t: nat, u: nat)
    requires Inv(s) && t < |s.txns| && u < |s.txns| && u != t && Blocked(s, t, u)
    ensures Refused(s, t)
  {
    hide Times, Clear, LogTrue, Conflicts;
    var k :| k in s.txns[u].writes && k in s.txns[t].writes;
    assert k in s.intents && s.intents[k] == u && k in Keys(s.txns[t]);
  }

  lemma TrueInLog(s: State, e: CommittedWrite)
    requires LogTrue(s) && InLog(s.log, e)
    ensures TrueEntry(s.txns, e)
  {
  }

  lemma ClearAfterPrepare(s: State, t: nat)
    requires Inv(s) && Complete(s) && Enabled(s, Prepare(t))
    ensures Clear(Apply(s, Prepare(t)))
  {
    var s' := Apply(s, Prepare(t));
    OnlyOneChanges(s, Prepare(t));
    forall v, u | 0 <= v < |s'.txns| && 0 <= u < |s'.txns| && v != u && Guarded(s'.txns[v])
      ensures KeptApart(s'.txns[v], s'.txns[u])
    {
      assert TimesOk(s, s.txns[t]);
      if v == t { PassedIsClear(s, t, u); }
    }
  }

  /** A commit does not disturb those being committed: the intents keep their rows apart. */
  lemma ClearAfterRecord(s: State, t: nat)
    requires Inv(s) && Enabled(s, Record(t))
    ensures Clear(Apply(s, Record(t)))
  {
    hide Unlocked, Refused;
    var s' := Apply(s, Record(t));
    OnlyOneChanges(s, Record(t));
    assert TimesOk(s, s.txns[t]);
    forall v, u | 0 <= v < |s'.txns| && 0 <= u < |s'.txns| && v != u && Guarded(s'.txns[v])
      ensures KeptApart(s'.txns[v], s'.txns[u])
    {
      assert TimesOk(s, s.txns[v]);
      assert TimesOk(s, s.txns[u]);
      if v != t && u == t { RecordedRival(s, t, v); }
    }
  }

  lemma RecordedRival(s: State, t: nat, v: nat)
    requires Inv(s) && Enabled(s, Record(t)) && v < |s.txns| && v != t && Guarded(s.txns[v])
    ensures
      var y := Apply(s, Record(t)).txns[t];
      WritesClear(s.txns[v], y) && ReadsClear(s.txns[v], y)
  {
    hide Unlocked, Refused;
    var x, y := s.txns[v], s.txns[t];
    assert TimesOk(s, x) && TimesOk(s, y);
    assert WritesClear(y, x);
    if x.stage.Validating? {
      forall k | k in x.writes
        ensures k !in y.writes
      {
        assert s.intents[k] == v;
      }
    }
  }

  lemma ClearKept(s: State, step: Step)
    requires Inv(s) && Enabled(s, step) && (step.Prepare? ==> Complete(s))
    ensures Clear(Apply(s, step))
  {
    if step.Prepare? {
      ClearAfterPrepare(s, step.t);
    } else if step.Record? {
      ClearAfterRecord(s, step.t);
    } else {
      QuietKeepsClear(s, step);
    }
  }

  lemma QuietKeepsClear(s: State, step: Step)
    requires Inv(s) && Enabled(s, step) && !step.Prepare? && !step.Record?
    ensures Clear(Apply(s, step))
  {
    hide Unlocked, Locks, LogTrue, Pruned, Oldest;
    var s' := Apply(s, step);
    if !step.Take? {
      OnlyOneChanges(s, step);
      assert TimesOk(s, s.txns[step.t]);
      QuietTxn(s, step);
      hide Apply, Times;
      forall v, u | 0 <= v < |s'.txns| && 0 <= u < |s'.txns| && v != u && Guarded(s'.txns[v])
        ensures KeptApart(s'.txns[v], s'.txns[u])
      {
        assert Guarded(s.txns[v]);
        assert KeptApart(s.txns[v], s.txns[u]);
      }
    }
  }

  /** A quiet step leaves the commit of its transaction alone, and its accesses too once it is guarded. */
  lemma QuietTxn(s: State, step: Step)
    requires Enabled(s, step) && !step.Take? && !step.Prepare? && !step.Record? && TimesOk(s, s.txns[step.t])
    ensures
      var x, x' := s.txns[step.t], Apply(s, step).txns[step.t];
      && x'.committed == x.committed && x'.preparedAt == x.preparedAt && x'.ts == x.ts
      && (Guarded(x') ==> Guarded(x))
      && (Guarded(x) ==> x'.writes == x.writes && x'.readSet == x.readSet)
  {
    hide Unlocked, Pruned, Oldest;
  }

  lemma StepKeepsInv(s: State, step: Step)
    requires Inv(s) && Enabled(s, step) && (step.Prepare? ==> Complete(s))
    ensures Inv(Apply(s, step))
  {
    TimesKept(s, step);
    LogTrueKept(s, step);
    LocksKept(s, step);
    ClearKept(s, step);
    hide Times, LogTrue, Locks, Clear, Apply;
  }

  lemma InvGivesFirstCommitter(s: State)
    requires Inv(s)
    ensures FirstCommitterWins(s)
  {
    forall t, u, k | 0 <= t < |s.txns| && 0 <= u < |s.txns| && t != u
      && s.txns[t].committed.Some? && s.txns[u].committed.Some? && k in s.txns[t].writes && k in s.txns[u].writes
      ensures Apart(s.txns[t], s.txns[u])
    {
      assert WritesClear(s.txns[t], s.txns[u]);
    }
  }

  // ----- keeping the log complete -----

  lemma CompleteKept(s: State, step: Step)
    requires Inv(s) && Complete(s) && Enabled(s, step) && !step.Prune?
    ensures Complete(Apply(s, step))
  {
    var s' := Apply(s, step);
    TimesKept(s, step);
    forall t, u | 0 <= t < |s'.txns| && 0 <= u < |s'.txns| && Live(s'.txns[t])
      ensures Logged(s', s'.txns[t], u)
    {
      StillLogged(s, step, t, u);
    }
  }

  lemma StillLogged(s: State, step: Step, t: nat, u: nat)
    requires Inv(s) && Complete(s) && Enabled(s, step) && !step.Prune?
    requires t < |Apply(s, step).txns| && u < |Apply(s, step).txns| && Live(Apply(s, step).txns[t])
    ensures Logged(Apply(s, step), Apply(s, step).txns[t], u)
  {
    var s' := Apply(s, step);
    var y := s'.txns[u];
    if y.committed.Some? && y.committed.value > s'.txns[t].ts {
      CommitChange(s, step, t, u);
      hide Inv, Apply, InLog;
      forall k | k in y.writes
        ensures InLog(s'.log, CommittedWrite(u, y.committed.value, k))
      {
        LogChange(s, step, CommittedWrite(u, y.committed.value, k));
      }
    }
  }

  /** A commit seen after a step was there before, unchanged, or is the one the step records. */
  lemma CommitChange(s: State, step: Step, t: nat, u: nat)
    requires Inv(s) && Complete(s) && Enabled(s, step) && !step.Prune?
    requires
      var s' := Apply(s, step);
      && t < |s'.txns| && u < |s'.txns| && Live(s'.txns[t])
      && s'.txns[u].committed.Some? && s'.txns[u].committed.value > s'.txns[t].ts
    ensures
      var s' := Apply(s, step);
      && u < |s.txns| && s'.txns[u].writes == s.txns[u].writes
      && ((step.Record? && step.t == u && s'.txns[u].committed == Some(s.clock))
          || (s'.txns[u].committed == s.txns[u].committed && Logged(s, s'.txns[t], u)))
  {
    hide Unlocked, Locked, Refused, Oldest, LogTrue, Locks, Clear;
    assert u < |s.txns| ==> TimesOk(s, s.txns[u]);
    if !step.Take? { OnlyOneChanges(s, step); }
    assert t < |s.txns|;
    assert Live(s.txns[t]) && Apply(s, step).txns[t].ts == s.txns[t].ts;
    assert Logged(s, s.txns[t], u);
    hide InLog;
    assert Logged(s, Apply(s, step).txns[t], u);
  }

  predicate Drops(oldest: Option<nat>, e: CommittedWrite) { oldest.None? || e.ts < oldest.value }

  /** Nothing that is dropped is newer than the snapshot of a live transaction. */
  predicate Harmless(s: State, oldest: Option<nat>) {
    forall t, i :: 0 <= t < |s.txns| && 0 <= i < |s.log| && Live(s.txns[t]) && Drops(oldest, s.log[i]) ==>
      s.log[i].ts <= s.txns[t].ts
  }

  /** Pruning keeps the log complete exactly when it drops nothing that a live transaction needs. */
  lemma PruneExactly(s: State, t: nat)
    requires Inv(s) && Complete(s) && Enabled(s, Prune(t))
    ensures Complete(Apply(s, Prune(t))) <==> Harmless(s, s.txns[t].stage.oldest)
  {
    var s', o := Apply(s, Prune(t)), s.txns[t].stage.oldest;
    PruneShape(s, t);
    hide Apply, Inv, Logged, LogTrue;
    if Harmless(s, o) {
      forall v, u | 0 <= v < |s'.txns| && 0 <= u < |s'.txns| && Live(s'.txns[v])
        ensures Logged(s', s'.txns[v], u)
      {
        HarmlessKeeps(s, t, v, u);
      }
    } else {
      var v, i :|
        && 0 <= v < |s.txns| && 0 <= i < |s.log|
        && Live(s.txns[v]) && Drops(o, s.log[i]) && s.log[i].ts > s.txns[v].ts;
      HarmfulLoses(s, t, v, i);
      assert !Logged(s', s'.txns[v], s.log[i].txn);
    }
  }

  lemma HarmfulLoses(s: State, t: nat, v: nat, i: nat)
    requires Inv(s) && Enabled(s, Prune(t)) && v < |s.txns| && i < |s.log|
    requires Drops(s.txns[t].stage.oldest, s.log[i]) && s.log[i].ts > s.txns[v].ts
    ensures
      var s' := Apply(s, Prune(t));
      && s.log[i].txn < |s'.txns| && |s'.txns| == |s.txns|
      && !Logged(s', s'.txns[v], s.log[i].txn)
  {
    PruneShape(s, t);
    hide Apply, Inv, InLog;
    assert TrueEntry(s.txns, s.log[i]);
    LogChange(s, Prune(t), s.log[i]);
  }

  /** Pruning changes no transaction but for the stage of the one that prunes, and that one is not live. */
  lemma PruneShape(s: State, t: nat)
    requires Inv(s) && Enabled(s, Prune(t))
    ensures
      var s' := Apply(s, Prune(t));
      && |s'.txns| == |s.txns| && LogTrue(s)
      && forall u :: 0 <= u < |s.txns| ==>
           && s'.txns[u].committed == s.txns[u].committed && s'.txns[u].writes == s.txns[u].writes
           && s'.txns[u].ts == s.txns[u].ts && Live(s'.txns[u]) == Live(s.txns[u])
  {
    hide Retained;
  }

  lemma HarmlessKeeps(s: State, t: nat, v: nat, u: nat)
    requires Inv(s) && Complete(s) && Enabled(s, Prune(t)) && Harmless(s, s.txns[t].stage.oldest)
    requires v < |s.txns| && u < |s.txns| && Live(s.txns[v])
    ensures
      var s' := Apply(s, Prune(t));
      |s'.txns| == |s.txns| && Logged(s', s'.txns[v], u)
  {
    var s' := Apply(s, Prune(t));
    PruneShape(s, t);
    hide Apply, Inv;
    var y := s.txns[u];
    if y.committed.Some? && y.committed.value > s.txns[v].ts {
      assert Logged(s, s.txns[v], u);
      forall k | k in y.writes
        ensures InLog(s'.log, CommittedWrite(u, y.committed.value, k))
      {
        var e := CommittedWrite(u, y.committed.value, k);
        assert InLog(s.log, e);
        var i :| 0 <= i < |s.log| && s.log[i] == e;
        LogChange(s, Prune(t), e);
      }
    }
  }

  // ----- runs -----

  predicate PrunesHarmlessly(states: seq<State>, steps: seq<Step>)
    requires IsRun(states, steps)
  {
    forall i :: 0 <= i < |steps| && steps[i].Prune? ==> Harmless(states[i], states[i].txns[steps[i].t].stage.oldest)
  }

  /** First committer wins in every state of every run whose prunes are harmless. */
  lemma {:induction false} RunKeepsInv(states: seq<State>, steps: seq<Step>, i: nat)
    requires IsRun(states, steps) && PrunesHarmlessly(states, steps) && i < |states|
    ensures Inv(states[i]) && Complete(states[i]) && FirstCommitterWins(states[i])
    decreases i
  {
    hide Inv, Complete, Apply, FirstCommitterWins, Harmless;
    if i == 0 {
      InitOk();
    } else {
      RunKeepsInv(states, steps, i - 1);
      var s, step := states[i - 1], steps[i - 1];
      StepKeepsInv(s, step);
      if step.Prune? { PruneExactly(s, step.t); } else { CompleteKept(s, step); }
    }
    InvGivesFirstCommitter(states[i]);
  }

  lemma InitOk()
    ensures Inv(Init()) && Complete(Init())
  {
  }

  /** Taking and registering a snapshot is not interrupted, nor is loading the oldest snapshot and pruning. */
  predicate Uninterrupted(states: seq<State>, steps: seq<Step>)
    requires IsRun(states, steps)
  {
    forall i :: 0 <= i < |steps| - 1 ==>
      && (steps[i].Take? ==> steps[i + 1] == Register(|states[i].txns|))
      && (steps[i].Load? ==> steps[i + 1] == Prune(steps[i].t))
  }

  predicate NoneTaken(s: State) { forall t :: 0 <= t < |s.txns| ==> !s.txns[t].stage.Taken? }

  predicate LoadsFresh(s: State) {
    forall t :: 0 <= t < |s.txns| && s.txns[t].stage.Loaded? ==> s.txns[t].stage.oldest == Oldest(s.txns)
  }

  predicate NoneLoaded(s: State) { forall t :: 0 <= t < |s.txns| ==> !s.txns[t].stage.Loaded? }

  lemma {:induction false} OldestIs(txns: seq<Txn>)
    ensures Oldest(txns).None? ==> forall t :: 0 <= t < |txns| ==> !Registered(txns[t])
    ensures Oldest(txns).Some? ==> forall t :: 0 <= t < |txns| && Registered(txns[t]) ==>
      Oldest(txns).value <= txns[t].ts
    decreases |txns|
  {
    hide Registered;
    if txns != [] {
      var rest := txns[..|txns| - 1];
      OldestIs(rest);
      assert forall t :: 0 <= t < |rest| ==> txns[t] == rest[t];
    }
  }

  /** With every snapshot registered and a fresh reading of the oldest, pruning is harmless. */
  lemma FreshPruneHarmless(s: State)
    requires NoneTaken(s)
    ensures Harmless(s, Oldest(s.txns))
  {
    OldestIs(s.txns);
  }

  lemma {:induction false} OldestUnchanged(a: seq<Txn>, b: seq<Txn>)
    requires |a| == |b| && forall i :: 0 <= i < |a| ==> Registered(a[i]) == Registered(b[i]) && a[i].ts == b[i].ts
    ensures Oldest(a) == Oldest(b)
    decreases |a|
  {
    if a != [] { OldestUnchanged(a[..|a| - 1], b[..|b| - 1]); }
  }

  /** Loading makes the fresh reading the only one. */
  lemma LoadIsFresh(s: State, t: nat)
    requires Enabled(s, Load(t)) && NoneLoaded(s)
    ensures LoadsFresh(Apply(s, Load(t)))
  {
    OldestUnchanged(s.txns, Apply(s, Load(t)).txns);
    hide Oldest;
  }

  lemma QuietStages(s: State, step: Step)
    requires Enabled(s, step)
    ensures NoneTaken(s) && !step.Take? ==> NoneTaken(Apply(s, step))
    ensures NoneLoaded(s) && !step.Load? ==> NoneLoaded(Apply(s, step))
  {
    hide Unlocked, Locked, Refused, Pruned, Oldest;
  }

  lemma RegisterClearsTaken(s: State)
    requires NoneTaken(s)
    ensures
      var s' := Apply(s, Take);
      Enabled(s', Register(|s.txns|)) && NoneTaken(Apply(s', Register(|s.txns|)))
  {
  }

  lemma PruneClearsLoaded(s: State, t: nat)
    requires Enabled(s, Load(t)) && NoneLoaded(s)
    ensures
      var s' := Apply(s, Load(t));
      Enabled(s', Prune(t)) && NoneLoaded(Apply(s', Prune(t)))
  {
    hide Pruned, Oldest;
  }

  /**
   In an uninterrupted run only the step just before can have left a snapshot unregistered or an oldest value
   in hand.
   */
  lemma {:induction false} StagesInRun(states: seq<State>, steps: seq<Step>, i: nat)
    requires IsRun(states, steps) && Uninterrupted(states, steps) && i < |states|
    ensures i == 0 || !steps[i - 1].Take? ==> NoneTaken(states[i])
    ensures i == 0 || !steps[i - 1].Load? ==> NoneLoaded(states[i])
    ensures LoadsFresh(states[i])
    decreases i
  {
    hide Apply, Enabled, NoneTaken, NoneLoaded, LoadsFresh;
    if i == 0 {
      InitStages();
    } else {
      var s, step := states[i - 1], steps[i - 1];
      StagesInRun(states, steps, i - 1);
      QuietStages(s, step);
      if i > 1 && steps[i - 2].Take? {
        StagesInRun(states, steps, i - 2);
        RegisterClearsTaken(states[i - 2]);
      }
      if i > 1 && steps[i - 2].Load? {
        StagesInRun(states, steps, i - 2);
        PruneClearsLoaded(states[i - 2], steps[i - 2].t);
      }
      if step.Load? { LoadIsFresh(s, step.t); } else { NoneLoadedIsFresh(states[i]); }
    }
  }

  lemma InitStages()
    ensures NoneTaken(Init()) && NoneLoaded(Init()) && LoadsFresh(Init())
  {
  }

  lemma NoneLoadedIsFresh(s: State)
    requires NoneLoaded(s)
    ensures LoadsFresh(s)
  {
  }

  /** Over every interleaving in which those two pairs are not interrupted, first committer wins. */
  lemma FirstCommitterWinsAlways(states: seq<State>, steps: seq<Step>, i: nat)
    requires IsRun(states, steps) && Uninterrupted(states, steps) && i < |states|
    ensures FirstCommitterWins(states[i])
  {
    forall j | 0 <= j < |steps| && steps[j].Prune?
      ensures Harmless(states[j], states[j].txns[steps[j].t].stage.oldest)
    {
      StagesInRun(states, steps, j);
      assert NoneTaken(states[j]);
      FreshPruneHarmless(states[j]);
    }
    RunKeepsInv(states, steps, i);
  }

  lemma {:induction false} OldestAttained(txns: seq<Txn>)
    requires Oldest(txns).Some?
    ensures exists t :: 0 <= t < |txns| && Registered(txns[t]) && txns[t].ts == Oldest(txns).value
    decreases |txns|
  {
    hide Registered;
    var n := |txns| - 1;
    if Oldest(txns) == Oldest(txns[..n]) {
      OldestAttained(txns[..n]);
      var t :| 0 <= t < n && Registered(txns[..n][t]) && txns[..n][t].ts == Oldest(txns).value;
      assert txns[t] == txns[..n][t];
    } else {
      assert txns[n].ts == Oldest(txns).value;
    }
  }

  /** A registered snapshot is at or below the entry. */
  predicate Needed(s: State, e: CommittedWrite) {
    exists u :: 0 <= u < |s.txns| && Registered(s.txns[u]) && s.txns[u].ts <= e.ts
  }

  /** Pruning with a fresh reading keeps exactly the entries that a registered snapshot is old enough for. */
  lemma PruneKeepsExactly(s: State, t: nat, e: CommittedWrite)
    requires Enabled(s, Prune(t)) && s.txns[t].stage.oldest == Oldest(s.txns)
    ensures InLog(Apply(s, Prune(t)).log, e) <==> InLog(s.log, e) && Needed(s, e)
  {
    LogChange(s, Prune(t), e);
    OldestIs(s.txns);
    hide Apply, Oldest, InLog, Registered;
    if Oldest(s.txns).Some? {
      OldestAttained(s.txns);
      var u :| 0 <= u < |s.txns| && Registered(s.txns[u]) && s.txns[u].ts == Oldest(s.txns).value;
      assert Drops(s.txns[t].stage.oldest, e) <==> !Needed(s, e);
    }
  }

  // ----- what a lost entry costs -----

  /** The four steps by which a transaction with a fresh snapshot writes one row and commits. */
  function WriteOne(s: State, t: nat, k: Key): State
    requires t < |s.txns| && s.txns[t].stage.Taken?
  {
    Apply(Apply(s, Register(t)), Write(t, k))
  }

  /**
   A transaction that starts after another committed a row, on an older snapshot, is stopped exactly when the
   log still holds a newer write to it.
   */
  lemma LostUpdateExactly(s: State, t: nat, u: nat, k: Key)
    requires Inv(s) && t < |s.txns| && u < |s.txns| && s.txns[t].stage.Taken? && k !in s.intents
    requires s.txns[u].committed.Some? && s.txns[u].committed.value > s.txns[t].ts && k in s.txns[u].writes
    ensures
      var s2 := WriteOne(s, t, k);
      && Enabled(s2, Prepare(t))
      && var s3 := Apply(s2, Prepare(t));
        && (KeyConflicts(s.log, t, s.txns[t].ts, k) <==> s3.txns[t].stage.Aborted?)
        && (!KeyConflicts(s.log, t, s.txns[t].ts, k) <==> Enabled(s3, Record(t)))
        && (Enabled(s3, Record(t)) ==> !FirstCommitterWins(Apply(s3, Record(t))))
  {
    var s2 := WriteOne(s, t, k);
    OneWriteShape(s, t, k);
    var s3 := Apply(s2, Prepare(t));
    assert Keys(s2.txns[t]) + s2.txns[t].readSet == {k};
    assert Conflicts(s.log, t, s.txns[t].ts, {k}) <==> KeyConflicts(s.log, t, s.txns[t].ts, k);
    assert Refused(s2, t) <==> KeyConflicts(s.log, t, s.txns[t].ts, k);
    if !Refused(s2, t) {
      CommitsOverlap(s2, t, u, k);
    }
  }

  lemma OneWriteShape(s: State, t: nat, k: Key)
    requires Inv(s) && t < |s.txns| && s.txns[t].stage.Taken?
    ensures
      var s2 := WriteOne(s, t, k);
      && |s2.txns| == |s.txns| && s2.log == s.log && s2.intents == s.intents && s2.clock == s.clock
      && s2.txns[t] == Txn(s.txns[t].ts, {}, [k], Active, s.txns[t].preparedAt, None)
      && forall u :: 0 <= u < |s.txns| && u != t ==> s2.txns[u] == s.txns[u]
  {
    assert TimesOk(s, s.txns[t]);
  }

  lemma CommitsOverlap(s: State, t: nat, u: nat, k: Key)
    requires t < |s.txns| && u < |s.txns| && t != u && s.txns[t].stage.Active? && s.txns[t].writes == [k]
      && !Refused(s, t)
    requires s.txns[u].committed.Some? && s.txns[u].committed.value > s.txns[t].ts && k in s.txns[u].writes
    requires s.txns[u].ts < s.clock
    ensures Enabled(Apply(s, Prepare(t)), Record(t))
    ensures !FirstCommitterWins(Apply(Apply(s, Prepare(t)), Record(t)))
  {
    hide Locked, Unlocked, Refused, Entries;
    var s4 := Apply(Apply(s, Prepare(t)), Record(t));
    assert s4.txns[u] == s.txns[u] && s4.txns[t].committed == Some(s.clock);
    assert k in s4.txns[t].writes && k in s4.txns[u].writes;
    assert !Apart(s4.txns[t], s4.txns[u]);
  }

  // ----- what a transaction recorded as read -----

  predicate Reread(x: Txn, y: Txn) { exists k :: k in x.readSet && k in y.writes }

  /** Nobody else's commit changed a recorded read of `t` between its snapshot and its own commit. */
  predicate ReadsStand(s: State, t: nat)
    requires t < |s.txns| && s.txns[t].committed.Some?
  {
    forall u :: 0 <= u < |s.txns| && u != t && s.txns[u].committed.Some? && Reread(s.txns[t], s.txns[u]) ==>
      s.txns[u].committed.value <= s.txns[t].ts || s.txns[u].committed.value >= s.txns[t].committed.value
  }

  /** Nobody else committed a recorded read of `t` between `t`'s validation and its commit. */
  predicate WindowClear(s: State, t: nat)
    requires t < |s.txns| && s.txns[t].committed.Some?
  {
    forall u :: 0 <= u < |s.txns| && u != t && s.txns[u].committed.Some? && Reread(s.txns[t], s.txns[u]) ==>
      !(s.txns[t].preparedAt <= s.txns[u].committed.value < s.txns[t].committed.value)
  }

  /**
   The recorded reads of a committed writer stand exactly when its window between validation and publication is
   clear.
   */
  lemma ReadsStandExactly(s: State, t: nat)
    requires Inv(s) && t < |s.txns| && s.txns[t].committed.Some? && s.txns[t].writes != []
    ensures ReadsStand(s, t) <==> WindowClear(s, t)
  {
    var x := s.txns[t];
    assert TimesOk(s, x);
    forall u | 0 <= u < |s.txns| && u != t && s.txns[u].committed.Some? && Reread(x, s.txns[u])
      ensures s.txns[u].committed.value <= x.ts || s.txns[u].committed.value >= x.preparedAt
    {
      assert Guarded(x) && ReadsClear(x, s.txns[u]);
    }
  }

  /**
   Each of the two recorded a read of a row that the other wrote, and neither had committed when the other took
   its snapshot.
   */
  predicate Skewed(x: Txn, y: Txn) {
    && x.committed.Some? && y.committed.Some? && x.writes != [] && y.writes != []
    && Reread(x, y) && Reread(y, x)
    && x.committed.value > y.ts && y.committed.value > x.ts
  }

  /** Two committed transactions are never skewed when their windows are clear. */
  lemma NoSkew(s: State, t: nat, u: nat)
    requires Inv(s) && t < |s.txns| && u < |s.txns| && t != u
    requires s.txns[t].committed.Some? && s.txns[u].committed.Some?
    requires WindowClear(s, t) && WindowClear(s, u)
    ensures !Skewed(s.txns[t], s.txns[u])
  {
    assert Guarded(s.txns[t]) && CommitsDiffer(s.txns[t], s.txns[u]);
    if s.txns[t].writes != [] && s.txns[u].writes != [] {
      ReadsStandExactly(s, t);
      ReadsStandExactly(s, u);
    }
  }

  // ----- witnesses -----

  lemma Extend(states: seq<State>, steps: seq<Step>, step: Step, next: State)
    returns (states': seq<State>, steps': seq<Step>)
    requires |states| == |steps| + 1 && IsRun(states, steps)
    requires Enabled(states[|steps|], step) && next == Apply(states[|steps|], step)
    ensures |states'| == |steps'| + 1 && IsRun(states', steps') && states'[|steps'|] == next
  {
    hide Apply, Enabled;
    states', steps' := states + [next], steps + [step];
  }

  /** Two transactions, the second of which has yet to register its snapshot when the first publishes. */
  function Pair(first: Stage, second: Stage, wrote: seq<Key>, log: seq<CommittedWrite>): State {
    State(4, [Txn(1, {}, [Key("t", 0)], first, 2, Some(3)), Txn(2, {}, wrote, second, 0, None)], log, map[])
  }

  /**
   An interrupted begin: the snapshot was taken before the other commit and is registered after the log was
   cleared, and the update is lost.
   */
  lemma InterruptedBeginLosesUpdate() returns (states: seq<State>, steps: seq<Step>)
    ensures |states| == |steps| + 1 && IsRun(states, steps) && !FirstCommitterWins(states[|steps|])
  {
    hide IsRun, FirstCommitterWins, Locked, Unlocked, Entries;
    var k := Key("t", 0);
    states, steps := FirstPublishes();
    states, steps := Extend(states, steps, Register(1), Pair(Done, Active, [], []));
    assert [] + [k] == [k];
    var s := Pair(Done, Active, [k], []);
    states, steps := Extend(states, steps, Write(1, k), s);
    assert !Refused(s, 1);
    CommitsOverlap(s, 1, 0, k);
    hide Refused, Apply;
    states, steps := Extend(states, steps, Prepare(1), Apply(s, Prepare(1)));
    states, steps := Extend(states, steps, Record(1), Apply(Apply(s, Prepare(1)), Record(1)));
  }

  lemma FirstPublishes() returns (states: seq<State>, steps: seq<Step>)
    ensures |states| == |steps| + 1 && IsRun(states, steps) && states[|steps|] == Pair(Done, Taken, [], [])
  {
    hide IsRun, Oldest, Unlocked, Entries, Keys;
    var k := Key("t", 0);
    var log := [CommittedWrite(0, 3, k)];
    states, steps := FirstPrepares();
    RecordFirst(k);
    states, steps := Extend(states, steps, Record(0), Pair(Recorded, Taken, [], log));
    states, steps := Extend(states, steps, Release(0), Pair(Released, Taken, [], log));
    NoneOldest(Pair(Released, Taken, [], log).txns);
    states, steps := Extend(states, steps, Load(0), Pair(Loaded(None), Taken, [], log));
    states, steps := Extend(states, steps, Prune(0), Pair(Done, Taken, [], []));
  }

  lemma RecordFirst(k: Key)
    requires k == Key("t", 0)
    ensures
      var y := Txn(2, {}, [], Taken, 0, None);
      var s := State(3, [First(Validating, [k], 2), y], [], map[k := 0]);
      Enabled(s, Record(0)) && Apply(s, Record(0)) == Pair(Recorded, Taken, [], [CommittedWrite(0, 3, k)])
  {
    var y := Txn(2, {}, [], Taken, 0, None);
    var s := State(3, [First(Validating, [k], 2), y], [], map[k := 0]);
    assert Unlocked(s.intents, Keys(s.txns[0]), 0) == map[];
    assert [] + Entries(0, 3, [k]) == [CommittedWrite(0, 3, k)];
  }

  lemma {:induction false} NoneOldest(txns: seq<Txn>)
    requires forall t :: 0 <= t < |txns| ==> !Registered(txns[t])
    ensures Oldest(txns) == None
    decreases |txns|
  {
    if txns != [] { NoneOldest(txns[..|txns| - 1]); }
  }

  function First(stage: Stage, writes: seq<Key>, preparedAt: nat): Txn { Txn(1, {}, writes, stage, preparedAt, None) }

  lemma FirstPrepares() returns (states: seq<State>, steps: seq<Step>)
    ensures |states| == |steps| + 1 && IsRun(states, steps)
    ensures
      var k := Key("t", 0);
      states[|steps|] == State(3, [First(Validating, [k], 2), Txn(2, {}, [], Taken, 0, None)], [], map[k := 0])
  {
    var k := Key("t", 0);
    states, steps := [Init()], [];
    hide IsRun;
    states, steps := Extend(states, steps, Take, State(2, [First(Taken, [], 0)], [], map[]));
    states, steps := Extend(states, steps, Register(0), State(2, [First(Active, [], 0)], [], map[]));
    assert [] + [k] == [k];
    var s := State(2, [First(Active, [k], 0)], [], map[]);
    states, steps := Extend(states, steps, Write(0, k), s);
    assert !Refused(s, 0);
    assert Locked(map[], Keys(s.txns[0]), 0) == map[k := 0];
    states, steps := Extend(states, steps, Prepare(0), State(2, [First(Validating, [k], 2)], [], map[k := 0]));
    states, steps :=
      Extend(states, steps, Take, State(3, [First(Validating, [k], 2), Txn(2, {}, [], Taken, 0, None)], [],
          map[k := 0]));
  }

  /**
   Two transactions that each recorded a read of what the other writes pass validation one after the other and
   both commit.
   */
  lemma OverlappingWindowsSkew(s: State, t: nat, u: nat)
    requires Inv(s) && t < |s.txns| && u < |s.txns| && t != u
    requires s.txns[t].stage.Active? && s.txns[u].stage.Active? && s.txns[t].writes != [] && s.txns[u].writes != []
    requires Reread(s.txns[t], s.txns[u]) && Reread(s.txns[u], s.txns[t])
    requires Keys(s.txns[t]) !! Keys(s.txns[u]) && !Refused(s, t) && !Refused(s, u)
    ensures
      var s1 := Apply(s, Prepare(t));
      && Enabled(s1, Prepare(u))
      && var s2 := Apply(s1, Prepare(u));
        && Enabled(s2, Record(t))
        && var s3 := Apply(s2, Record(t));
          && Enabled(s3, Record(u))
          && var s4 := Apply(s3, Record(u));
            Skewed(s4.txns[t], s4.txns[u])
  {
    assert TimesOk(s, s.txns[t]) && TimesOk(s, s.txns[u]);
    SecondPasses(s, t, u);
    hide Inv, Reread, Keys, Skewed, TimesOk;
    SkewOf(s.txns[t], s.txns[u], s.clock);
    PreparePasses(s, t);
    var s1 := Apply(s, Prepare(t));
    PreparePasses(s1, u);
    hide Refused;
    RecordShape(Apply(s1, Prepare(u)), t);
    RecordShape(Apply(Apply(s1, Prepare(u)), Record(t)), u);
    hide Apply;
  }

  lemma SkewOf(x: Txn, y: Txn, clock: nat)
    requires x.ts < clock && y.ts < clock && x.writes != [] && y.writes != [] && Reread(x, y) && Reread(y, x)
    ensures
      Skewed(x.(stage := Recorded, preparedAt := clock, committed := Some(clock)),
             y.(stage := Recorded, preparedAt := clock, committed := Some(clock + 1)))
  {
    var x' := x.(stage := Recorded, preparedAt := clock, committed := Some(clock));
    var y' := y.(stage := Recorded, preparedAt := clock, committed := Some(clock + 1));
    SameAccesses(x, x', y, y');
  }

  lemma PreparePasses(s: State, t: nat)
    requires Enabled(s, Prepare(t)) && !Refused(s, t)
    ensures
      var s' := Apply(s, Prepare(t));
      s'.clock == s.clock && s'.txns == s.txns[t := s.txns[t].(stage := Validating, preparedAt := s.clock)]
  {
    hide Refused, Locked;
  }

  lemma RecordShape(s: State, t: nat)
    requires Enabled(s, Record(t))
    ensures
      var s' := Apply(s, Record(t));
      s'.clock == s.clock + 1 && s'.txns == s.txns[t := s.txns[t].(stage := Recorded, committed := Some(s.clock))]
  {
    hide Unlocked, Entries;
  }

  lemma SameAccesses(x: Txn, x': Txn, y: Txn, y': Txn)
    requires x.readSet == x'.readSet && x.writes == x'.writes && y.readSet == y'.readSet && y.writes == y'.writes
    ensures Reread(x, y) == Reread(x', y') && Reread(y, x) == Reread(y', x')
  {
  }

  lemma SecondPasses(s: State, t: nat, u: nat)
    requires t < |s.txns| && u < |s.txns| && t != u && s.txns[t].stage.Active? && s.txns[u].stage.Active?
    requires Keys(s.txns[t]) !! Keys(s.txns[u]) && !Refused(s, t) && !Refused(s, u)
    ensures
      var s1 := Apply(s, Prepare(t));
      s1.txns[u] == s.txns[u] && !Refused(s1, u)
  {
    hide Conflicts;
  }
}

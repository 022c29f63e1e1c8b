/**
 The optimistic conflict detector of the transaction manager: the log of committed writes, the
 write intents, and the check a transaction has to pass before it may commit.
 */
module ConflictDetector {

  datatype Key = Key(table: string, row: nat)

  datatype CommittedWrite = CommittedWrite(txn: nat, ts: nat, key: Key)

  datatype Verdict =
    | NoConflict
    | ReadWriteConflict(key: Key, txn: nat)
    | WriteWriteConflict(key: Key, txn: nat)

  /** Another transaction committed a write to the key after the snapshot. */
  predicate Overwrites(e: CommittedWrite, id: nat, ts: nat, key: Key) {
    e.key == key && e.ts > ts && e.txn != id
  }

  predicate KeyConflicts(log: seq<CommittedWrite>, id: nat, ts: nat, key: Key) {
    exists i :: 0 <= i < |log| && Overwrites(log[i], id, ts, key)
  }

  predicate Conflicts(log: seq<CommittedWrite>, id: nat, ts: nat, keys: set<Key>) {
    exists k :: k in keys && KeyConflicts(log, id, ts, k)
  }

  /** No other transaction holds an intent on one of the keys. */
  predicate Free(intents: map<Key, nat>, keys: set<Key>, id: nat) {
    forall k :: k in keys && k in intents ==> intents[k] == id
  }

  function Locked(intents: map<Key, nat>, keys: set<Key>, id: nat): map<Key, nat> {
    intents + map k | k in keys :: id
  }

  function Unlocked(intents: map<Key, nat>, keys: set<Key>, id: nat): map<Key, nat> {
    map k | k in intents && !(k in keys && intents[k] == id) :: intents[k]
  }

  function Entries(id: nat, ts: nat, writes: seq<Key>): (es: seq<CommittedWrite>)
    ensures |es| == |writes| && forall i :: 0 <= i < |es| ==> es[i] == CommittedWrite(id, ts, writes[i])
  {
    seq(|writes|, i requires 0 <= i < |writes| => CommittedWrite(id, ts, writes[i]))
  }

  /** The entries at or above the watermark, in their order. */
  function Retained(log: seq<CommittedWrite>, watermark: nat): seq<CommittedWrite> {
    if log == [] then []
    else
      Retained(log[..|log| - 1], watermark)
      + if log[|log| - 1].ts >= watermark then [log[|log| - 1]] else []
  }

  class Detector {
    var log: seq<CommittedWrite>
    var intents: map<Key, nat>

    constructor ()
      ensures log == [] && intents == map[]
    {
      log, intents := [], map[];
    }

    /**
     `validate`: passes exactly when nothing read or written was overwritten since the snapshot; a lost read is
     reported first.
     */
    method Validate(id: nat, ts: nat, readSet: seq<Key>, keys: set<Key>) returns (v: Verdict)
      ensures v.NoConflict? <==> !Conflicts(log, id, ts, keys + set k | k in readSet)
      ensures v.ReadWriteConflict? ==>
        v.key in readSet && exists i :: 0 <= i < |log| && log[i].txn == v.txn && Overwrites(log[i], id, ts, v.key)
      ensures v.WriteWriteConflict? ==>
        && v.key in keys && !Conflicts(log, id, ts, set k | k in readSet)
        && exists i :: 0 <= i < |log| && log[i].txn == v.txn && Overwrites(log[i], id, ts, v.key)
    {
      for i := 0 to |readSet|
        invariant forall j :: 0 <= j < i ==> !KeyConflicts(log, id, ts, readSet[j])
      {
        var found, txn := Find(id, ts, readSet[i]);
        if found { return ReadWriteConflict(readSet[i], txn); }
      }
      var left := keys;
      while left != {}
        invariant left <= keys && forall k :: k in keys && k !in left ==> !KeyConflicts(log, id, ts, k)
      {
        var k :| k in left;
        var found, txn := Find(id, ts, k);
        if found { return WriteWriteConflict(k, txn); }
        left := left - {k};
      }
      v := NoConflict;
    }

    /** The inner loop of `validate` over the log. */
    method Find(id: nat, ts: nat, key: Key) returns (found: bool, txn: nat)
      ensures found <==> KeyConflicts(log, id, ts, key)
      ensures found ==> exists i :: 0 <= i < |log| && log[i].txn == txn && Overwrites(log[i], id, ts, key)
    {
      for i := 0 to |log|
        invariant forall j :: 0 <= j < i ==> !Overwrites(log[j], id, ts, key)
      {
        if Overwrites(log[i], id, ts, key) { return true, log[i].txn; }
      }
      found, txn := false, 0;
    }

    /** `acquire_write_intent`: takes all the keys or none. */
    method AcquireWriteIntent(id: nat, keys: set<Key>) returns (v: Verdict)
      modifies this`intents
      ensures v.NoConflict? <==> Free(old(intents), keys, id)
      ensures intents == if v.NoConflict? then Locked(old(intents), keys, id) else old(intents)
      ensures !v.NoConflict? ==>
        v.WriteWriteConflict? && v.key in keys && v.key in old(intents) && old(intents)[v.key] == v.txn != id
    {
      v := FindHeld(id, keys);
      if !v.NoConflict? { return; }
      var left := keys;
      while left != {}
        invariant left <= keys && intents == Locked(old(intents), keys - left, id)
      {
        var k :| k in left;
        intents := intents[k := id];
        left := left - {k};
      }
    }

    /** The first loop of `acquire_write_intent`. */
    method FindHeld(id: nat, keys: set<Key>) returns (v: Verdict)
      ensures v.NoConflict? <==> Free(intents, keys, id)
      ensures !v.NoConflict? ==>
        v.WriteWriteConflict? && v.key in keys && v.key in intents && intents[v.key] == v.txn != id
    {
      var left := keys;
      while left != {}
        invariant left <= keys && Free(intents, keys - left, id)
      {
        var k :| k in left;
        if k in intents && intents[k] != id { return WriteWriteConflict(k, intents[k]); }
        left := left - {k};
      }
      v := NoConflict;
    }

    /** `record_prepared_commit`: logs every write and gives the intents back. */
    method RecordPreparedCommit(id: nat, writes: seq<Key>, keys: set<Key>, ts: nat)
      modifies this
      ensures log == old(log) + Entries(id, ts, writes)
      ensures intents == Unlocked(old(intents), keys, id)
    {
      for i := 0 to |writes|
        invariant log == old(log) + Entries(id, ts, writes)[..i] && intents == old(intents)
      {
        log := log + [CommittedWrite(id, ts, writes[i])];
      }
      ReleaseIntents(id, keys);
    }

    /** `record_abort`, and the end of `record_prepared_commit`. */
    method ReleaseIntents(id: nat, keys: set<Key>)
      modifies this`intents
      ensures intents == Unlocked(old(intents), keys, id)
    {
      var left := keys;
      while left != {}
        invariant left <= keys && intents == Unlocked(old(intents), keys - left, id)
      {
        var k :| k in left;
        if k in intents && intents[k] == id { intents := intents - {k}; }
        left := left - {k};
      }
    }

    /** `advance_watermark` */
    method AdvanceWatermark(watermark: nat)
      modifies this`log
      ensures log == Retained(old(log), watermark)
    {
      var kept: seq<CommittedWrite> := [];
      for i := 0 to |log|
        invariant log == old(log) && kept == Retained(log[..i], watermark)
      {
        assert log[..i + 1][..i] == log[..i];
        if log[i].ts >= watermark { kept := kept + [log[i]]; }
      }
      assert log[..|log|] == log;
      log := kept;
    }
  }

  // ----- facts about the pieces -----

  predicate InLog(log: seq<CommittedWrite>, e: CommittedWrite) { exists i :: 0 <= i < |log| && log[i] == e }

  /** Retaining drops exactly the entries below the watermark. */
  lemma {:induction false} RetainedIs(log: seq<CommittedWrite>, watermark: nat, e: CommittedWrite)
    ensures InLog(Retained(log, watermark), e) <==> InLog(log, e) && e.ts >= watermark
    decreases |log|
  {
    if log != [] {
      var rest, last := log[..|log| - 1], log[|log| - 1];
      assert log == rest + [last];
      RetainedIs(rest, watermark, e);
      InLogAppend(rest, [last], e);
      InLogAppend(Retained(rest, watermark), if last.ts >= watermark then [last] else [], e);
      InLogOne(last, e);
    }
  }

  lemma InLogOne(last: CommittedWrite, e: CommittedWrite)
    ensures InLog([last], e) <==> e == last
    ensures !InLog([], e)
  {
    assert [last][0] == last;
  }

  lemma InLogAppend(a: seq<CommittedWrite>, b: seq<CommittedWrite>, e: CommittedWrite)
    ensures InLog(a + b, e) <==> InLog(a, e) || InLog(b, e)
  {
    var c := a + b;
    if InLog(a, e) {
      var i :| 0 <= i < |a| && a[i] == e;
      assert c[i] == e;
    }
    if InLog(b, e) {
      var i :| 0 <= i < |b| && b[i] == e;
      assert c[|a| + i] == e;
    }
  }

  lemma EntriesAre(id: nat, ts: nat, writes: seq<Key>, e: CommittedWrite)
    ensures InLog(Entries(id, ts, writes), e) <==> e.txn == id && e.ts == ts && e.key in writes
  {
    var es := Entries(id, ts, writes);
    if e.txn == id && e.ts == ts && e.key in writes {
      var i :| 0 <= i < |writes| && writes[i] == e.key;
      assert es[i] == e;
    }
  }

  lemma ConflictsByEntry(log: seq<CommittedWrite>, id: nat, ts: nat, keys: set<Key>)
    ensures Conflicts(log, id, ts, keys) <==> exists e :: InLog(log, e) && e.key in keys && e.ts > ts && e.txn != id
  {
    if Conflicts(log, id, ts, keys) {
      var k :| k in keys && KeyConflicts(log, id, ts, k);
      var i :| 0 <= i < |log| && Overwrites(log[i], id, ts, k);
      assert InLog(log, log[i]);
    }
    if e :| InLog(log, e) && e.key in keys && e.ts > ts && e.txn != id {
      var i :| 0 <= i < |log| && log[i] == e;
      assert KeyConflicts(log, id, ts, e.key);
    }
  }
}

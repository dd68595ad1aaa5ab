/** Properties of the cache that relate several operations: overwriting,
    idempotence, the Absent/Present life of a table, what a table holds
    after any sequence of writes, and the behaviour of IsExist inside a
    read-only transaction. */
module CacheProperties {
  import opened Bolt
  import opened Cache

  /** Get after a successful Set returns exactly the bytes that were set. */
  lemma GetAfterSet(t: Tables, name: Bytes, key: Bytes, val: Bytes, create: Step, write: Step)
    requires Upsert(t, name, key, val, create, write).out == Pass
    ensures Read(Upsert(t, name, key, val, create, write).tables, name, key) == val
  {
  }

  /** A second Set of the same key leaves no trace of the first value: the
      store is as if only the second Set had run. */
  lemma SetOverwrites(t: Tables, name: Bytes, key: Bytes, v1: Bytes, v2: Bytes, c1: Step, w1: Step, c2: Step, w2: Step)
    requires Upsert(t, name, key, v1, c1, w1).out == Pass
    requires Upsert(t, name, key, v2, c2, w2).out == Pass
    ensures Upsert(Upsert(t, name, key, v1, c1, w1).tables, name, key, v2, c2, w2)
         == Upsert(t, name, key, v2, c2, w2)
  {
    var once := Upsert(t, name, key, v1, c1, w1).tables;
    var bucket := if name in t then t[name] else map[];
    assert once[name] == bucket[key := v1];
    assert once[name][key := v2] == bucket[key := v2];
  }

  /** Setting a key that had no entry in a present table and deleting it
      again restores the store exactly. */
  lemma SetThenDeleteRestores(t: Tables, name: Bytes, key: Bytes, val: Bytes, create: Step, write: Step, del: Step)
    requires name in t && key !in t[name]
    requires Upsert(t, name, key, val, create, write).out == Pass
    requires del.Done?
    ensures Remove(Upsert(t, name, key, val, create, write).tables, name, key, del) == Effect(t, Pass)
  {
    var once := Upsert(t, name, key, val, create, write).tables;
    assert once[name] - {key} == t[name];
  }

  /** A second Delete of the same key succeeds and changes nothing more. */
  lemma DeleteIdempotent(t: Tables, name: Bytes, key: Bytes, w1: Step, w2: Step)
    requires Remove(t, name, key, w1).out == Pass
    requires w2.Done?
    ensures Remove(Remove(t, name, key, w1).tables, name, key, w2) == Remove(t, name, key, w1)
  {
  }

  /** Once a Flush has succeeded, every further Flush succeeds and changes
      nothing, whatever the engine's verdict. */
  lemma FlushIdempotent(t: Tables, name: Bytes, w1: Step, w2: Step)
    requires Drop(t, name, w1).out == Pass
    ensures Drop(Drop(t, name, w1).tables, name, w2) == Drop(t, name, w1)
  {
  }

  /** Delete on a table that was never created, or that was flushed, fails
      and leaves the store unchanged. */
  lemma DeleteAfterFlushFails(t: Tables, name: Bytes, key: Bytes, flush: Step, del: Step)
    requires Drop(t, name, flush).out == Pass
    ensures Remove(Drop(t, name, flush).tables, name, key, del) == Effect(Drop(t, name, flush).tables, Fail(NilBucket))
  {
  }

  // ---------------------------------------------------------------------
  // IsExist inside View

  /** IsExist, as written, acquires its bucket with CreateBucketIfNotExists
      inside a read-only transaction, which the engine refuses; so it
      answers false for every store and every key. */
  lemma IsExistInViewAlwaysFalse(t: Tables, name: Bytes, key: Bytes)
    ensures !Exists(t, name, key, CanCreateBucket(ReadOnly))
  {
  }

  /** The counterexample: right after a successful Set the key has an entry
      and Get returns its value, yet IsExist as written answers false. */
  lemma IsExistFalseAfterSet(t: Tables, name: Bytes, key: Bytes, val: Bytes, create: Step, write: Step)
    requires Upsert(t, name, key, val, create, write).out == Pass
    ensures Entry(Upsert(t, name, key, val, create, write).tables, name, key) == Some(val)
    ensures !Exists(Upsert(t, name, key, val, create, write).tables, name, key, CanCreateBucket(ReadOnly))
  {
    IsExistInViewAlwaysFalse(Upsert(t, name, key, val, create, write).tables, name, key);
  }

  // ---------------------------------------------------------------------
  // Sequences of writes on one table

  /** A write-side call made through the cache bound to a table, with the
      engine's verdicts on its steps. */
  datatype Op =
    | SetOp(key: Bytes, val: Bytes, create: Step, write: Step)
    | DeleteOp(key: Bytes, write: Step)
    | FlushOp(write: Step)

  /** A successful Set. */
  predicate Writes(op: Op)
  {
    op.SetOp? && op.create.Done? && op.write.Done?
  }

  function Apply(t: Tables, name: Bytes, op: Op): Effect
  {
    match op
    case SetOp(k, v, c, w) => Upsert(t, name, k, v, c, w)
    case DeleteOp(k, w) => Remove(t, name, k, w)
    case FlushOp(w) => Drop(t, name, w)
  }

  /** The store after the calls in ops, made one after another. */
  function Run(t: Tables, name: Bytes, ops: seq<Op>): Tables
    decreases |ops|
  {
    if ops == [] then t
    else Apply(Run(t, name, ops[..|ops| - 1]), name, ops[|ops| - 1]).tables
  }

  /** Reference definition of a key's entry after ops: the most recent call
      that settles it decides (a successful Set gives its value; a Delete or
      a Flush that the engine let through gives nothing); with no such call,
      the entry the table started with. */
  function Latest(t: Tables, name: Bytes, ops: seq<Op>, key: Bytes): Option<Bytes>
    decreases |ops|
  {
    if ops == [] then Entry(t, name, key)
    else
      var front, op := ops[..|ops| - 1], ops[|ops| - 1];
      match op
      case SetOp(k, v, c, w) =>
        if k == key && c.Done? && w.Done? then Some(v) else Latest(t, name, front, key)
      case DeleteOp(k, w) =>
        if k == key && w.Done? then None else Latest(t, name, front, key)
      case FlushOp(w) =>
        if w.Done? then None else Latest(t, name, front, key)
  }

  /** Reference definition of the table's state (Present or Absent) after
      ops: a successful Set makes it Present, a Flush the engine let through
      makes it Absent, a Delete never changes it. */
  function LatestPresent(t: Tables, name: Bytes, ops: seq<Op>): bool
    decreases |ops|
  {
    if ops == [] then name in t
    else
      var front, op := ops[..|ops| - 1], ops[|ops| - 1];
      if Writes(op) then true
      else if op.FlushOp? && op.write.Done? then false
      else LatestPresent(t, name, front)
  }

  /** Every key's entry after a sequence of calls is the one the most
      recent settling call gave it. */
  lemma {:induction false} RunMatchesLatest(t: Tables, name: Bytes, ops: seq<Op>, key: Bytes)
    ensures Entry(Run(t, name, ops), name, key) == Latest(t, name, ops, key)
    decreases |ops|
  {
    if ops != [] {
      RunMatchesLatest(t, name, ops[..|ops| - 1], key);
    }
  }

  /** The table is Present after a sequence of calls exactly when its most
      recent state-changing call was a successful Set (or, with none, when
      it was Present to begin with). */
  lemma {:induction false} RunPresence(t: Tables, name: Bytes, ops: seq<Op>)
    ensures (name in Run(t, name, ops)) == LatestPresent(t, name, ops)
    decreases |ops|
  {
    if ops != [] {
      RunPresence(t, name, ops[..|ops| - 1]);
    }
  }

  /** Calls through one cache never touch another table. */
  lemma {:induction false} RunIsolation(t: Tables, name: Bytes, ops: seq<Op>)
    ensures Run(t, name, ops) - {name} == t - {name}
    decreases |ops|
  {
    if ops != [] {
      RunIsolation(t, name, ops[..|ops| - 1]);
    }
  }

  /** A table that starts Absent and is never successfully Set stays
      Absent: Get answers empty for every key, and Flush succeeds. */
  lemma {:induction false} UnwrittenTableStaysAbsent(t: Tables, name: Bytes, ops: seq<Op>, key: Bytes, w: Step)
    requires name !in t
    requires forall i :: 0 <= i < |ops| ==> !Writes(ops[i])
    ensures name !in Run(t, name, ops)
    ensures Read(Run(t, name, ops), name, key) == []
    ensures Drop(Run(t, name, ops), name, w).out == Pass
    decreases |ops|
  {
    if ops != [] {
      UnwrittenTableStaysAbsent(t, name, ops[..|ops| - 1], key, w);
    }
  }

  // ---------------------------------------------------------------------
  // Two caches on one store

  /** A store shared by a "session" cache and an "unused" cache: the
      session key round-trips through Set, Get, Contains and Delete, and
      the unused table can be flushed without ever having been created. */
  method SharedStoreScenario()
  {
    var session: Bytes := [0x73, 0x65, 0x73, 0x73, 0x69, 0x6f, 0x6e];
    var unused: Bytes := [0x75, 0x6e, 0x75, 0x73, 0x65, 0x64];
    var user42: Bytes := [0x75, 0x73, 0x65, 0x72, 0x3a, 0x34, 0x32];
    var db := new Store.Open();
    var sessions := new Cache.New(db, session);
    var idle := new Cache.New(db, unused);

    var err := sessions.Set(user42, [0x01, 0x02], Done, Done);
    assert err == Pass;
    var got := sessions.Get(user42);
    assert got == [0x01, 0x02];
    var has := sessions.Contains(user42);
    assert has;
    var seen := sessions.IsExist(user42, CanCreateBucket(ReadOnly));
    assert !seen;

    err := sessions.Delete(user42, Done);
    assert err == Pass;
    got := sessions.Get(user42);
    assert got == [];
    has := sessions.Contains(user42);
    assert !has;

    err := idle.Flush(Done);
    assert err == Pass;
    err := idle.Delete(user42, Done);
    assert err == Fail(NilBucket);
    assert session in db.tables;
  }
}

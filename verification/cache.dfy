/** The name-scoped cache: a view over one bucket ("table") of a shared
    store. Every operation is one transaction on the store; the cache keeps
    no state of its own beyond the store handle and the table name.

    The first half of the module gives each transaction's effect as a
    function of the store's buckets (the specification); the class Cache
    then performs the same steps on the shared Store object and is proved
    against those functions. */
module Cache {
  import opened Bolt

  /** What the table holds for a key: nothing when the table is absent or
      the key has no entry, the stored bytes otherwise. */
  function Entry(t: Tables, name: Bytes, key: Bytes): Option<Bytes>
  {
    if name in t && key in t[name] then Some(t[name][key]) else None
  }

  /** What Get hands back: the stored bytes, or the empty string for both
      "no table" and "no key". */
  function Read(t: Tables, name: Bytes, key: Bytes): Bytes
  {
    match Entry(t, name, key)
    case Some(v) => v
    case None => []
  }

  /** What IsExist answers, given whether its bucket acquisition succeeded.
      A bucket it created inside its own transaction would be empty. */
  function Exists(t: Tables, name: Bytes, key: Bytes, acquired: bool): bool
  {
    acquired && Entry(t, name, key).Some?
  }

  /** The store after a write transaction, and what the call returned. */
  datatype Effect = Effect(tables: Tables, out: Outcome)

  /** Set's transaction: create the table if missing, then put the entry.
      A failed creation is returned without attempting the put; any
      failure rolls the whole transaction back. */
  function Upsert(t: Tables, name: Bytes, key: Bytes, val: Bytes, create: Step, write: Step): (r: Effect)
    ensures r.out == Pass <==> create.Done? && write.Done?
    ensures create.Fault? ==> r == Effect(t, Fail(Engine(create.code)))
    ensures create.Done? && write.Fault? ==> r == Effect(t, Fail(Engine(write.code)))
    ensures r.out == Pass ==>
      && name in r.tables
      && Entry(r.tables, name, key) == Some(val)
      && (forall k :: k != key ==> Entry(r.tables, name, k) == Entry(t, name, k))
      && r.tables - {name} == t - {name}
  {
    if create.Fault? then
      Effect(t, Fail(Engine(create.code)))
    else if write.Fault? then
      Effect(t, Fail(Engine(write.code)))
    else
      var bucket := if name in t then t[name] else map[];
      Effect(t[name := bucket[key := val]], Pass)
  }

  /** Delete's transaction: look the table up (never create it) and delete
      the key from it. An absent table yields a nil handle, which fails. */
  function Remove(t: Tables, name: Bytes, key: Bytes, write: Step): (r: Effect)
    ensures name !in t ==> r == Effect(t, Fail(NilBucket))
    ensures name in t && write.Fault? ==> r == Effect(t, Fail(Engine(write.code)))
    ensures r.out == Pass <==> name in t && write.Done?
    ensures r.out.Fail? ==> r.tables == t
    ensures name in r.tables <==> name in t
    ensures r.tables - {name} == t - {name}
    ensures r.out == Pass ==>
      && Entry(r.tables, name, key) == None
      && (forall k :: k != key ==> Entry(r.tables, name, k) == Entry(t, name, k))
    ensures r.out == Pass && Entry(t, name, key) == None ==> r.tables == t
  {
    if name !in t then
      Effect(t, Fail(NilBucket))
    else if write.Fault? then
      Effect(t, Fail(Engine(write.code)))
    else
      // deleting a key that has no entry leaves the bucket as it was
      assert key !in t[name] ==> t[name] - {key} == t[name];
      Effect(t[name := t[name] - {key}], Pass)
  }

  /** Flush's transaction: drop the whole table. The engine reports an
      absent table as BucketNotFound, which Flush turns into success. */
  function Drop(t: Tables, name: Bytes, write: Step): (r: Effect)
    ensures name !in t ==> r == Effect(t, Pass)
    ensures name in t ==> (r.out == Pass <==> write.Done?)
    ensures r.out.Fail? ==> r.tables == t && r.out == Fail(Engine(write.code))
    ensures r.out == Pass ==>
      && name !in r.tables
      && r.tables == t - {name}
      && (forall k :: Entry(r.tables, name, k) == None)
  {
    var res :=
      if name !in t then Effect(t, Fail(BucketNotFound))
      else if write.Fault? then Effect(t, Fail(Engine(write.code)))
      else Effect(t - {name}, Pass);
    if res.out == Fail(BucketNotFound) then Effect(res.tables, Pass) else res
  }

  /** A cache bound, for its whole life, to one store and one table name. */
  class Cache {
    const store: Store
    const table: Bytes

    /** Binds the given store and table name; no transaction is opened. */
    constructor New(db: Store, name: Bytes)
      ensures store == db && table == name
    {
      store := db;
      table := name;
    }

    /** Reads the key's value in a read-only transaction. */
    method Get(key: Bytes) returns (res: Bytes)
      ensures res == Read(store.tables, table, key)
      ensures table !in store.tables ==> res == []
      ensures table in store.tables && key !in store.tables[table] ==> res == []
      ensures table in store.tables && key in store.tables[table] ==> res == store.tables[table][key]
    {
      res := [];
      var snapshot := store.tables;
      if table !in snapshot {
        // no table: the read transaction ends without an answer
        return;
      }
      var bucket := snapshot[table];
      if key in bucket {
        res := bucket[key];
      }
    }

    /** Upserts the key in a write transaction, creating the table first if
        it is absent; create and write are the engine's verdicts on bucket
        creation and on the put with its commit. */
    method Set(key: Bytes, val: Bytes, create: Step, write: Step) returns (err: Outcome)
      modifies store
      ensures Effect(store.tables, err) == Upsert(old(store.tables), table, key, val, create, write)
    {
      var snapshot := store.tables;
      if create.Fault? {
        err := Fail(Engine(create.code));
        return;
      }
      var bucket := if table in snapshot then snapshot[table] else map[];
      if write.Fault? {
        // the transaction rolls back: the store keeps its snapshot
        err := Fail(Engine(write.code));
        return;
      }
      store.tables := snapshot[table := bucket[key := val]];
      err := Pass;
    }

    /** Tells whether the key has an entry, in a read-only transaction.
        acquired is the outcome of the bucket acquisition that opens it
        (CreateBucketIfNotExists); a failed acquisition reads as false. */
    method IsExist(key: Bytes, acquired: bool) returns (r: bool)
      ensures r == Exists(store.tables, table, key, acquired)
      ensures !acquired ==> !r
      ensures acquired ==> (r <==> table in store.tables && key in store.tables[table])
    {
      var snapshot := store.tables;
      var failed: bool;
      if !acquired {
        // "bucket not exists"
        failed := true;
      } else {
        // a bucket created inside the read transaction is empty and is
        // never committed
        var bucket := if table in snapshot then snapshot[table] else map[];
        failed := key !in bucket;
      }
      r := !failed;
    }

    /** The existence check as evidently intended: look the table up in a
        read-only transaction, without trying to create it. */
    method Contains(key: Bytes) returns (r: bool)
      ensures r <==> Entry(store.tables, table, key).Some?
    {
      var snapshot := store.tables;
      if table !in snapshot {
        return false;
      }
      r := key in snapshot[table];
    }

    /** Deletes the key from the table in a write transaction; write is the
        engine's verdict on the delete with its commit. */
    method Delete(key: Bytes, write: Step) returns (err: Outcome)
      modifies store
      ensures Effect(store.tables, err) == Remove(old(store.tables), table, key, write)
    {
      var snapshot := store.tables;
      if table !in snapshot {
        // the bucket handle is nil
        err := Fail(NilBucket);
        return;
      }
      if write.Fault? {
        err := Fail(Engine(write.code));
        return;
      }
      store.tables := snapshot[table := snapshot[table] - {key}];
      err := Pass;
    }

    /** Drops the whole table in a write transaction; write is the engine's
        verdict on DeleteBucket with its commit. */
    method Flush(write: Step) returns (err: Outcome)
      modifies store
      ensures Effect(store.tables, err) == Drop(old(store.tables), table, write)
    {
      var res: Outcome;
      if table !in store.tables {
        res := Fail(BucketNotFound);
      } else if write.Fault? {
        res := Fail(Engine(write.code));
      } else {
        store.tables := store.tables - {table};
        res := Pass;
      }
      if res == Fail(BucketNotFound) {
        err := Pass;
      } else {
        err := res;
      }
    }
  }
}

/** The embedded transactional key-value engine (bbolt) that every cache is
    bound to, reduced to what the cache layer can observe: a set of named
    buckets, each a map from byte keys to byte values. A transaction is one
    atomic step on that map; the engine's own verdicts (I/O failure, refused
    keys, a failed commit) enter as parameters of type Step. */
module Bolt {

  type Bytes = seq<bv8>

  /** One bucket: keys are unique, each with one value. */
  type Bucket = map<Bytes, Bytes>

  /** All buckets of one store, by name. A name that is not a key is an
      absent bucket; a key mapped to the empty map is a present, empty one. */
  type Tables = map<Bytes, Bucket>

  datatype Option<T> = None | Some(value: T)

  /** The engine's verdict on one step of a transaction: the step went
      through, or the engine refused it or failed (code identifies which). */
  datatype Step = Done | Fault(code: nat)

  /** Errors that reach the cache layer. BucketNotFound is what the engine
      returns for DeleteBucket on an absent bucket; NilBucket stands for
      calling Delete on the nil bucket handle that Bucket returns for an
      absent bucket; Engine carries any other failure verbatim. */
  datatype Error = BucketNotFound | NilBucket | Engine(code: nat)

  /** The result of a write-side call: nil error, or an error. */
  datatype Outcome = Pass | Fail(error: Error)

  /** A transaction is opened either by View (read-only) or by Update. */
  datatype TxMode = ReadOnly | Writable

  /** The engine allows a bucket to be created only in a writable
      transaction; in a read-only one CreateBucketIfNotExists is refused. */
  predicate CanCreateBucket(mode: TxMode)
  {
    mode == Writable
  }

  /** The store handle that the application opens once and shares between
      every cache. */
  class Store {
    var tables: Tables

    /** A freshly opened store whose file holds no bucket yet. */
    constructor Open()
      ensures tables == map[]
    {
      tables := map[];
    }
  }
}

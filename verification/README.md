# Name-scoped key-value cache over an embedded store

This project models the cache of `src/common/cache/cache.go`: a `Cache`
bound to a shared bbolt store and to one table (bucket) name, with the
operations `New`, `Get`, `Set`, `IsExist`, `Delete` and `Flush`.

- `bolt.dfy` (module `Bolt`) is the store as the cache sees it: a `Store`
  object holding `tables: map<Bytes, map<Bytes, Bytes>>`. A name missing
  from the map is an Absent table; a name mapped to a map, possibly empty,
  is a Present table. The engine's verdict on a transaction step is a
  parameter of type `Step` (`Done` or `Fault(code)`). It covers I/O
  failures, a failed commit, and the engine's refusals of a key or a name.
- `cache.dfy` (module `Cache`) gives each transaction's effect as a function
  of the tables: `Upsert` for `Set`, `Remove` for `Delete`, `Drop` for
  `Flush`, and `Entry`/`Read`/`Exists` for the reads. The `Cache` class
  then performs each call as one atomic step on the shared `Store`. It has
  two `const` fields, so its table name never changes. Each method is proved
  equal to its function.
- `cache_properties.dfy` (module `CacheProperties`) relates several calls.
  It covers overwriting, idempotence of `Delete` and `Flush`, `Delete`
  after `Flush`, and the `IsExist` finding below. It also replays any
  sequence of writes through one cache (`Run`) and compares the result with
  reference definitions. `Latest` gives what a key holds after the most
  recent call that settles it. `LatestPresent` gives whether the table is
  Absent or Present. A scenario method drives two caches over one store.

The table name, keys and values are byte sequences. Go's string↔[]byte
conversions are taken as the identity.

`IsExist` might be expected to create the table, as `Set` does. It calls
`CreateBucketIfNotExists` inside `View`, a read-only transaction, so it never
creates anything. The model follows the code: `IsExist` changes nothing.
Whether the bucket acquisition succeeds is the explicit parameter `acquired`.

## Model

| member | source | states |
|---|---|---|
| `Cache.Cache.New` | src/common/cache/cache.go:9-15 | the cache is bound to exactly the given store and table name; both fields are constant, so the table name never changes |
| `Cache.Cache.Get` | src/common/cache/cache.go:17-33 | returns the stored bytes when the table is present and the key has an entry; returns empty when the table is absent and when the key has no entry; changes nothing |
| `Cache.Upsert` | src/common/cache/cache.go:35-43 | succeeds iff bucket creation and the put both go through; a failed creation returns its own error and no put is attempted; any failure leaves the store unchanged; on success the table is present, the key holds exactly the new value, every other key of the table and every other table are unchanged |
| `Cache.Cache.Set` | src/common/cache/cache.go:35-43 | the new store and the returned error are those of `Upsert` on the old store |
| `Cache.Cache.IsExist` | src/common/cache/cache.go:45-59 | a failed bucket acquisition always answers false; after a successful acquisition the answer is true iff the table is present and the key has an entry; changes nothing |
| `Cache.Cache.Contains` | src/common/cache/cache.go:45-59 | the intended existence check: true iff the table is present and the key has an entry; changes nothing |
| `Cache.Remove` | src/common/cache/cache.go:61-66 | on an absent table fails with the nil-bucket error and changes nothing; on a present table an engine fault is returned verbatim and changes nothing; otherwise succeeds iff the engine lets the delete through; afterwards the key has no entry, all other keys and tables are unchanged, the table stays present, and deleting a missing key changes nothing |
| `Cache.Cache.Delete` | src/common/cache/cache.go:61-66 | the new store and the returned error are those of `Remove` on the old store |
| `Cache.Drop` | src/common/cache/cache.go:68-76 | an absent table gives success and no change; a present table is removed, and no key of it has an entry any more, iff the engine lets the drop through; other tables are untouched; any other failure is returned and changes nothing |
| `Cache.Cache.Flush` | src/common/cache/cache.go:68-76 | the new store and the returned error are those of `Drop` on the old store |
| `CacheProperties.GetAfterSet` | src/common/cache/cache.go:17-43 | after a successful Set, Get returns exactly the bytes that were set |
| `CacheProperties.SetOverwrites` | src/common/cache/cache.go:35-43 | two successful Sets of one key leave the store as the second Set alone would: an upsert, not a failure |
| `CacheProperties.SetThenDeleteRestores` | src/common/cache/cache.go:35-66 | on a present table, setting a key that had no entry and then deleting it restores the store exactly |
| `CacheProperties.DeleteIdempotent` | src/common/cache/cache.go:61-66 | a second Delete of the same key succeeds and changes nothing |
| `CacheProperties.FlushIdempotent` | src/common/cache/cache.go:68-76 | after a successful Flush, any further Flush succeeds and changes nothing |
| `CacheProperties.DeleteAfterFlushFails` | src/common/cache/cache.go:61-76 | Delete on a flushed table fails with the nil-bucket error and changes nothing |
| `CacheProperties.IsExistInViewAlwaysFalse` | src/common/cache/cache.go:45-59 | with the bucket acquisition made in a read-only transaction, IsExist answers false for every store and every key |
| `CacheProperties.IsExistFalseAfterSet` | src/common/cache/cache.go:45-59 | with the bucket acquisition made in a read-only transaction, IsExist answers false right after a successful Set, although the key holds the value just set |
| `CacheProperties.RunMatchesLatest` | src/common/cache/cache.go:17-76 | after any sequence of Set, Delete and Flush calls, a key's entry is the value of the latest successful Set of it, or nothing if a later successful Delete of it or Flush came after, or the initial entry if no call settled it |
| `CacheProperties.RunPresence` | src/common/cache/cache.go:35-76 | after any sequence of calls the table is Present iff its latest state-changing call was a successful Set and not a later successful Flush; Delete never changes it |
| `CacheProperties.RunIsolation` | src/common/cache/cache.go:9-76 | calls through one cache never change any other table of the shared store |
| `CacheProperties.UnwrittenTableStaysAbsent` | src/common/cache/cache.go:17-76 | a table that starts Absent and is never successfully Set stays Absent; Get answers empty for every key and Flush succeeds |

## Findings

| source | as written | input that shows it | evidently intended | confidence | as-written member | corrected member |
|---|---|---|---|---|---|---|
| src/common/cache/cache.go:45-59 | `IsExist` acquires its bucket with `CreateBucketIfNotExists` inside `View`. bbolt refuses bucket creation in a read-only transaction with ErrTxNotWritable, so the closure always fails and `IsExist` always answers false | `Set("user:42", [0x01, 0x02])` succeeds, then `IsExist("user:42")` | true iff the table is present and the key has an entry: look the bucket up with `Bucket` and treat nil as false | medium: rests on the engine's rule for read-only transactions, not executed | `CacheProperties.IsExistFalseAfterSet` | `Cache.Cache.Contains` |

`Cache.Cache.IsExist` keeps the acquisition outcome as a parameter, so both
readings of the code can be stated. The reference definitions `Latest` and
`LatestPresent` describe the existence check as intended. An entry is
present when `Contains` says so.

## Left out

- Durability, the page file, mmap and the engine's internal key and value
  validation (empty key, empty table name, size limits) are not modelled.
  A refusal of this kind is one of the faults the `Step` parameters stand for.
- Concurrency: writer serialisation and snapshot isolation are not modelled.
  Each `View` or `Update` is one atomic step on the store, and calls are
  sequential.
- `Delete` on an absent table dereferences a nil bucket. In Go this panics
  and the panic propagates through `Update`. The model returns the error
  `NilBucket` and leaves the store unchanged, because the transaction rolls
  back.
- Opening and closing the store belong to the application and are not part
  of this model. `Bolt.Store.Open` only gives a store with no tables.
- `Cache.Cache.Get` does not tell a missing key from a key stored with an
  empty value, and neither does the source. `IsExist` treats any stored
  value as non-nil, including an empty one. The engine's own nil-versus-empty
  behaviour for zero-length values is not modelled.
- `src/server/server.go` is application bootstrap over third-party
  frameworks (ORM, HTTP server, routes, sessions, templates, logging). It
  is not part of this model.

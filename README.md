# Union store of a transactional key-value layer

This project models the transaction-local union store of the `kv` package
(`kv/union_store.go`). A union store puts a mutable write buffer (`WBuffer`)
on top of a read-only snapshot of committed data.

- Reads ask the buffer first. They fall back to the snapshot only when the
  buffer reports not-found.
- A zero-length buffered value is a deletion marker (tombstone). It hides the
  key whatever the snapshot holds.
- `Delete` writes such a tombstone when the key currently resolves to a
  non-empty value.
- `Close` releases both layers and hands the buffer back to a pool.

Layout:

- `kv.dfy`, module `Kv`: the vocabulary the store is written against.
  - Byte-string keys and values.
  - Go errors as `Nil | Err(kind, frames)`. `errors.Trace` keeps the kind and
    adds a frame. `terror.ErrorEqual` compares kinds only.
  - The buffer (`MemBuffer`) and the snapshot (`Snapshot`) as datatypes. Each
    holds a finite map of entries plus the keys whose reads fail. The buffer
    also holds the keys whose writes fail. Failure codes come from the backing
    implementations, so they are part of the data and not computed.
  - Bytewise key order (`KeyLeq`, proved reflexive, transitive and total).
  - The cursors an ordered iterator positions at a start key.
- `union_store.dfy`, module `Union`:
  - `IsErrNotFound`.
  - `Visible`, the reference definition of the key space a transaction sees.
  - A `BufferPool` that records the buffers handed back to it.
  - The class `UnionStore`:
    - The buffer is a field that `Set` and `Delete` reassign.
    - The snapshot and the pool are constant.
    - `Get` is a function of the current state.
    - `Seek` builds the two cursors.
    - `Close` sets ghost release flags and puts the buffer back.
  - A client method `OverlayScenario`. It runs a short transaction over
    `{a: "1", b: "2", c: "3"}` and asserts what each step leaves behind.

Two behaviours of the code that the model keeps as written:

- When the buffer misses, `Delete` does not report a snapshot read that
  fails with an error other than not-found (kv/union_store.go:94-104). This
  differs from the buffer path, where such an error is treated as "something
  wrong" and returned (kv/union_store.go:89-90). After a failed snapshot read,
  control falls through to the length check on whatever value came back. An
  empty value gives `ErrNotExist`. A non-empty value is overwritten with a
  tombstone, and the result is that of the buffer write, usually nil.
  `Union.UnionStore.Delete` states both outcomes.
- `Close` returns nil unconditionally (kv/union_store.go:114).

A snapshot that holds an empty value is read back by `Get` verbatim as
`([], nil)`, while `Delete` treats the same key as absent. Committed data
carries no tombstones (`Snapshot.HoldsNoTombstones`). The lemmas that compare
`Get` and `Delete` with `Visible` assume this.

## Model

| member | source | states |
|---|---|---|
| `Kv.Trace` | kv/union_store.go:62 | errors.Trace keeps nil as nil; any other error keeps its kind and is no longer the identical value, so a traced error differs from one returned verbatim |
| `Union.IsErrNotFound` | kv/union_store.go:28-35 | true exactly when the error is of the not-found kind, however often it was traced; nil and every other kind give false |
| `Kv.MemBuffer.Set` | kv/union_store.go:74 | the buffer write succeeds exactly when the backing store does not fail for the key; a failed write changes nothing and is not a not-found error; after a successful write the key reads back the written value unless reads of the key fail, and every other key reads as before |
| `Union.UnionStore.NewUnionStore` | kv/union_store.go:44-51 | the new store wraps the given snapshot and the buffer taken from the pool, both unreleased |
| `Union.UnionStore.Get` | kv/union_store.go:54-70 | a failing buffer read is passed on traced, with a nil value and its kind; a buffer miss returns the snapshot's (value, error) pair exactly; a live buffered value is returned with nil error whatever the snapshot holds; a tombstone gives exactly a nil value and the traced not-found error, whatever the snapshot holds |
| `Union.UnionStore.Set` | kv/union_store.go:72-75 | the buffer becomes what its own Set makes of it; the snapshot and every other key read as before; unless reads of the key fail, a successful non-empty write reads back and an empty one reads as not-found; the visible key space gains the key, loses it (empty value) or is unchanged (failed write) |
| `Union.UnionStore.Seek` | kv/union_store.go:77-82 | returns nil error and a cursor on each layer, both positioned at the given key, each holding exactly that layer's entries at or after the key, so an entry for the key itself is included; the store is not changed |
| `Union.UnionStore.Delete` | kv/union_store.go:84-107 | a buffer read failure is propagated and nothing is written; a tombstone or a miss in both layers gives not-found and writes nothing; a resolved non-empty value is replaced by a tombstone and the buffer write's result returned; on a buffer miss only the snapshot's value decides, so a failing snapshot read with a value is swallowed; after success the key reads as not-found; with healthy reads the visible key space loses the key and success means the key was visible |
| `Union.UnionStore.Close` | kv/union_store.go:109-115 | returns nil, marks snapshot and buffer released, keeps the buffer contents and appends the buffer to the pool's returned buffers |
| `Union.BufferPool.Put` | kv/union_store.go:113 | the buffer is appended to the buffers handed back |
| `Union.Visible` | kv/union_store.go:54-70 | a key is visible exactly when the buffer holds a non-empty value for it, or the buffer has no entry and the snapshot holds a non-empty value; its value is the buffer's when buffered, the snapshot's otherwise |
| `Union.VisibleAfterWrite` | kv/union_store.go:106 | writing a value into the buffer shows it in the visible key space; writing the empty value removes the key from view and changes nothing else |
| `Union.VisibleWithoutWrites` | kv/union_store.go:57-60 | with an empty buffer, a tombstone-free snapshot is seen exactly as it is |
| `Union.GetAgreesWithView` | kv/union_store.go:54-70 | when both reads of a key succeed, Get returns the visible value with nil error if the key is visible, and a nil value with a not-found error if it is not |
| `Kv.AtOrAfter` | kv/union_store.go:79-80 | an iterator started at a key holds only entries of its layer, with their values; it includes the entry for the start key itself; started at the empty key it holds the whole layer |
| `Kv.SeekLaterYieldsSubset` | kv/union_store.go:79-80 | an iterator started at a later key holds a subset of the keys of one started at an earlier key |
| `Kv.KeyLeqTransitive` | kv/union_store.go:79-80 | bytewise key order is transitive, so an iterator started later holds a subset of the keys |
| `Kv.KeyLeqTotal` | kv/union_store.go:79-80 | any two keys are comparable under bytewise order, so iterators started at any two keys nest |
| `Kv.KeyLeqReflexive` | kv/union_store.go:79-80 | every key sorts at or after itself, so an iterator's start key is in its range |
| `Kv.SeekCursorsNest` | kv/union_store.go:79-80 | any two iterators over one layer nest: one holds a subset of the other's keys |

## Left out

- The merge iterator: `newUnionIter` (kv/union_store.go:81) is not part of this model. `Seek` returns the pair of cursors it would be built from, and no merge or tie-break order is assumed.
- The buffer pool's policy: `pool.NewCache` (kv/union_store.go:22-26) comes from a foreign library. Its capacity of 100, its factory and its locking are not modelled. The buffer the pool hands out is a parameter of `NewUnionStore`, and the pool only records what is put back.
- `NewCacheSnapshot` and its `opts` (kv/union_store.go:49): the caching snapshot layer is not part of this model. The store reads the given snapshot directly.
- `Snapshot.Release` and `MemBuffer.Release` (kv/union_store.go:111-112): their effects are not shown. They are modelled as ghost flags, and the buffer's contents are kept as they are.
- The `txn` argument of `Seek` (kv/union_store.go:78) is unused by the code and is not modelled.
- `errors.Trace` keeps only a frame count. Stack and context details are left out.
- The buffer's and snapshot's own behaviour is modelled as maps with injectable per-key failures. The `MemDbBuffer` implementation is not part of this model.
- `ddl/column_test.go` is an integration test of schema-change jobs. It needs a real store and a lease-driven job scheduler. It is not modelled.
- Repeated `Get` calls with no write in between return the same result. No lemma states this, because `Get` is a function of the store's state.
- Use after `Close`: the source does not guard against `Get`, `Set`, `Delete`, `Seek` or a second `Close` after `Close`, and neither does the model. The ghost release flags are recorded but no operation reads them.
- Aliasing of the pooled buffer: `MemBuffer` is a value, so the pool keeps a copy of the buffer as it was at `Close`. In the code, `p.Put(us.WBuffer)` (kv/union_store.go:113) hands over the same object the store still holds. Later writes through the closed store would reach the pooled buffer, and the model does not capture that.

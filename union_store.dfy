/**
  The transaction-local union store: a write buffer stacked on a read-only
  snapshot. Reads consult the buffer first and fall back to the snapshot
  only on a buffer miss; an empty buffered value is a tombstone that hides
  whatever the snapshot holds; deletion writes such a tombstone.
 */
module Union {
  import opened Kv

  /** IsErrNotFound: whether `err` is the not-found error, traced or not. */
  function IsErrNotFound(err: Error): (notFound: bool)
    ensures notFound <==> err.Err? && err.kind == NotExist
    ensures notFound ==> err != Nil
  {
    ErrorEqual(err, ErrNotExist)
  }

  /**
    The key space a transaction observes: a buffered entry shadows the
    committed one for the same key, and a buffered tombstone hides the key.
   */
  function Visible(buffered: map<Key, Value>, committed: map<Key, Value>): (v: map<Key, Value>)
    ensures forall k :: k in v <==>
      if k in buffered then buffered[k] != [] else k in committed && committed[k] != []
    ensures forall k :: k in v ==> v[k] == if k in buffered then buffered[k] else committed[k]
  {
    var merged := committed + buffered;
    map k | k in merged && merged[k] != [] :: merged[k]
  }

  /** Writing a value shows it; writing the empty value deletes the key from view. */
  lemma VisibleAfterWrite(buffered: map<Key, Value>, committed: map<Key, Value>, k: Key, x: Value)
    ensures Visible(buffered[k := x], committed) ==
      if x == [] then Visible(buffered, committed) - {k} else Visible(buffered, committed)[k := x]
  {
  }

  /** With nothing buffered, a snapshot free of tombstones is seen exactly as it is. */
  lemma VisibleWithoutWrites(s: Snapshot)
    requires s.HoldsNoTombstones()
    ensures Visible(map[], s.entries) == s.entries
  {
  }

  /** The pool buffers are handed back to; its caching policy is not modelled. */
  class BufferPool {
    /** Every buffer put back, oldest first. */
    ghost var returned: seq<MemBuffer>

    constructor ()
      ensures returned == []
    {
      returned := [];
    }

    method Put(b: MemBuffer)
      modifies this
      ensures returned == old(returned) + [b]
    {
      returned := returned + [b];
    }
  }

  /** The iterator Seek builds: one cursor on the buffer, one on the snapshot. */
  datatype UnionIter = UnionIter(bufferIt: Cursor, cacheIt: Cursor)

  class UnionStore {
    var wbuffer: MemBuffer
    const snapshot: Snapshot
    const pool: BufferPool
    ghost var snapshotReleased: bool
    ghost var bufferReleased: bool

    /** NewUnionStore: `acquired` is the buffer the pool handed out. */
    constructor NewUnionStore(snapshot: Snapshot, pool: BufferPool, acquired: MemBuffer)
      ensures this.snapshot == snapshot && this.pool == pool && wbuffer == acquired
      ensures !snapshotReleased && !bufferReleased
    {
      this.snapshot := snapshot;
      this.pool := pool;
      wbuffer := acquired;
      snapshotReleased, bufferReleased := false, false;
    }

    /** The key space this store shows to its transaction. */
    ghost function View(): map<Key, Value>
      reads this
    {
      Visible(wbuffer.entries, snapshot.entries)
    }

    /** The lookups of `k` in both layers succeed and the committed value, if any, is not a tombstone. */
    ghost predicate ReadsSucceedAt(k: Key)
      reads this
    {
      k !in wbuffer.readFaults && k !in snapshot.faults && (k in snapshot.entries ==> snapshot.entries[k] != [])
    }

    /** Get: the buffer decides unless it misses; only a miss reaches the snapshot. */
    function Get(key: Key): (r: Reply)
      reads this
      // a failing buffer read is passed on, with no value
      ensures key in wbuffer.readFaults ==>
        r == Reply([], Trace(Err(Other(wbuffer.readFaults[key]), 0))) && r.err.kind == Other(wbuffer.readFaults[key])
      // a buffer miss returns the snapshot's pair exactly, errors included
      ensures key !in wbuffer.readFaults && key !in wbuffer.entries ==> r == snapshot.Get(key)
      // a live buffered value wins, whatever the snapshot holds
      ensures key !in wbuffer.readFaults && key in wbuffer.entries && wbuffer.entries[key] != [] ==>
        r == Reply(wbuffer.entries[key], Nil)
      // a tombstone reads as not-found
      ensures key !in wbuffer.readFaults && key in wbuffer.entries && wbuffer.entries[key] == [] ==>
        r == Reply([], Trace(ErrNotExist)) && IsErrNotFound(r.err)
    {
      var b := wbuffer.Get(key);
      if IsErrNotFound(b.err) then snapshot.Get(key)
      else if b.err != Nil then Reply([], Trace(b.err))
      else if |b.value| == 0 then Reply([], Trace(ErrNotExist))
      else Reply(b.value, Nil)
    }

    /** Set: writes through to the buffer only. */
    method Set(key: Key, value: Value) returns (err: Error)
      modifies this
      ensures (wbuffer, err) == old(wbuffer).Set(key, value)
      ensures snapshotReleased == old(snapshotReleased) && bufferReleased == old(bufferReleased)
      ensures forall k :: k != key ==> Get(k) == old(Get(k))
      ensures err == Nil && key !in wbuffer.readFaults ==>
        if value == [] then IsErrNotFound(Get(key).err) else Get(key) == Reply(value, Nil)
      ensures View() == if err != Nil then old(View())
                        else if value == [] then old(View()) - {key}
                        else old(View())[key := value]
    {
      var outcome := wbuffer.Set(key, value);
      wbuffer, err := outcome.0, outcome.1;
      VisibleAfterWrite(old(wbuffer).entries, snapshot.entries, key, value);
    }

    /** Seek: a cursor on each layer, both from `key`; the merge itself is not modelled. */
    method Seek(key: Key) returns (it: UnionIter, err: Error)
      ensures err == Nil
      ensures it.bufferIt.start == key && it.cacheIt.start == key
      ensures it.bufferIt.pending == AtOrAfter(wbuffer.entries, key)
      ensures it.cacheIt.pending == AtOrAfter(snapshot.entries, key)
      ensures key in wbuffer.entries ==> key in it.bufferIt.pending
      ensures key in snapshot.entries ==> key in it.cacheIt.pending
      ensures forall k :: k in it.bufferIt.pending <==> k in wbuffer.entries && KeyLeq(key, k)
      ensures forall k :: k in it.cacheIt.pending <==> k in snapshot.entries && KeyLeq(key, k)
      ensures forall k :: k in it.bufferIt.pending ==> it.bufferIt.pending[k] == wbuffer.entries[k]
      ensures forall k :: k in it.cacheIt.pending ==> it.cacheIt.pending[k] == snapshot.entries[k]
    {
      var bufferIt := wbuffer.NewIterator(key);
      var cacheIt := snapshot.NewIterator(key);
      return UnionIter(bufferIt, cacheIt), Nil;
    }

    /** Delete: writes a tombstone when the key currently resolves to a non-empty value. */
    method Delete(k: Key) returns (err: Error)
      modifies this
      ensures wbuffer == old(wbuffer) || (wbuffer, err) == old(wbuffer).Set(k, [])
      ensures snapshotReleased == old(snapshotReleased) && bufferReleased == old(bufferReleased)
      // a failing buffer read is propagated and nothing is written
      ensures k in old(wbuffer).readFaults ==>
        err == Trace(old(wbuffer).Get(k).err) && wbuffer == old(wbuffer)
      // a live buffered value is replaced by a tombstone
      ensures k !in old(wbuffer).readFaults && k in old(wbuffer).entries && old(wbuffer).entries[k] != [] ==>
        (wbuffer, err) == old(wbuffer).Set(k, [])
      // a key already deleted in the buffer stays as it is
      ensures k !in old(wbuffer).readFaults && k in old(wbuffer).entries && old(wbuffer).entries[k] == [] ==>
        err == Trace(ErrNotExist) && wbuffer == old(wbuffer)
      // on a buffer miss only the snapshot's value decides, not its error
      ensures k !in old(wbuffer).readFaults && k !in old(wbuffer).entries ==>
        if snapshot.Get(k).value == [] then err == Trace(ErrNotExist) && wbuffer == old(wbuffer)
        else (wbuffer, err) == old(wbuffer).Set(k, [])
      // so a failing snapshot read that still hands back a value is swallowed
      ensures (k !in old(wbuffer).readFaults && k !in old(wbuffer).entries && k !in wbuffer.writeFaults &&
               k in snapshot.faults && snapshot.faults[k].value != []) ==> err == Nil
      // after a successful delete the key reads as not-found
      ensures err == Nil ==> Get(k).value == [] && IsErrNotFound(Get(k).err)
      // against the visible key space
      ensures old(ReadsSucceedAt(k)) && k !in wbuffer.writeFaults ==>
        View() == old(View()) - {k} && (err == Nil <==> k in old(View()))
      ensures old(ReadsSucceedAt(k)) && err != Nil ==> IsErrNotFound(err) || k in wbuffer.writeFaults
    {
      var r := wbuffer.Get(k);
      var val, e := r.value, r.err;
      if e != Nil {
        if !IsErrNotFound(e) {
          return Trace(e);
        }
        var s := snapshot.Get(k);
        val, e := s.value, s.err;
        if e != Nil {
          if IsErrNotFound(e) {
            return Trace(ErrNotExist);
          }
        }
      }
      if |val| == 0 {
        return Trace(ErrNotExist);
      }
      var outcome := wbuffer.Set(k, []);
      wbuffer, err := outcome.0, outcome.1;
      VisibleAfterWrite(old(wbuffer).entries, snapshot.entries, k, []);
    }

    /** Close: releases both layers, hands the buffer back to the pool, and never fails. */
    method Close() returns (err: Error)
      modifies this, pool
      ensures err == Nil
      ensures snapshotReleased && bufferReleased
      ensures wbuffer == old(wbuffer)
      ensures pool.returned == old(pool.returned) + [wbuffer]
    {
      snapshotReleased := true;
      bufferReleased := true;
      pool.Put(wbuffer);
      err := Nil;
    }
  }

  /** Get agrees with the visible key space whenever both reads succeed. */
  lemma GetAgreesWithView(us: UnionStore, k: Key)
    requires us.ReadsSucceedAt(k)
    ensures k in us.View() ==> us.Get(k) == Reply(us.View()[k], Nil)
    ensures k !in us.View() ==> us.Get(k).value == [] && IsErrNotFound(us.Get(k).err)
  {
  }

  /**
    A transaction over the committed data {a: "1", b: "2", c: "3"} that
    overwrites b and deletes a.
   */
  method OverlayScenario()
  {
    var a, b, c: Key := [97], [98], [99];
    var committed := Snapshot(map[a := [49], b := [50], c := [51]], map[]);
    var pool := new BufferPool();
    var us := new UnionStore.NewUnionStore(committed, pool, MemBuffer(map[], map[], map[]));
    var e := us.Set(b, [50, 48]);
    assert e == Nil;
    e := us.Delete(a);
    assert e == Nil;
    assert IsErrNotFound(us.Get(a).err);
    assert us.Get(b) == Reply([50, 48], Nil);
    assert us.Get(c) == Reply([51], Nil);
    e := us.Delete(a);
    assert IsErrNotFound(e);
    e := us.Close();
    assert pool.returned == [us.wbuffer];
  }
}

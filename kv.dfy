/**
  The vocabulary the union store is written against: byte-string keys and
  values, Go error values, and the two layers it stacks (a mutable write
  buffer and a read-only snapshot), each seen only through the operations
  the union store calls on it.
 */
module Kv {

  newtype byte = x: int | 0 <= x < 256

  /** Keys are opaque byte strings, ordered by bytewise comparison. */
  type Key = seq<byte>

  /** Values are opaque byte strings; the empty one is the deletion marker. */
  type Value = seq<byte>

  datatype ErrorKind = NotExist | Other(code: nat)

  /**
    A Go `error`: nil, or an error of some kind that errors.Trace has
    wrapped `frames` times. Only the kind is ever compared.
   */
  datatype Error = Nil | Err(kind: ErrorKind, frames: nat)

  /** The package's not-found error, as the layers hand it out. */
  const ErrNotExist: Error := Err(NotExist, 0)

  /** errors.Trace: nil stays nil; any other error keeps its kind and gains a frame. */
  function Trace(e: Error): (t: Error)
    ensures t.Nil? <==> e.Nil?
    ensures t.Err? ==> t.kind == e.kind && t != e
  {
    if e.Nil? then Nil else Err(e.kind, e.frames + 1)
  }

  /**
    terror.ErrorEqual as the union store uses it: both nil, or both errors
    of the same kind, however deeply either has been traced.
   */
  predicate ErrorEqual(a: Error, b: Error)
  {
    match (a, b)
    case (Nil, Nil) => true
    case (Err(k1, _), Err(k2, _)) => k1 == k2
    case _ => false
  }

  /** What a layer's Get returns: Go's `(value []byte, err error)` pair. */
  datatype Reply = Reply(value: Value, err: Error)

  /** A failed snapshot read: the value handed back beside the error, and the error's code. */
  datatype Fault = Fault(value: Value, code: nat)

  /**
    An ordered iterator positioned at `start`: the entries it will yield,
    all at or after `start` in key order.
   */
  datatype Cursor = Cursor(start: Key, pending: map<Key, Value>)

  /**
    The write buffer: its entries (an empty value is a tombstone), plus the
    keys whose reads and writes fail in the backing implementation.
   */
  datatype MemBuffer = MemBuffer(entries: map<Key, Value>, readFaults: map<Key, nat>, writeFaults: map<Key, nat>)
  {
    /** MemBuffer.Get: a failure, the stored value (tombstones included), or not-found. */
    function Get(k: Key): Reply
    {
      if k in readFaults then Reply([], Err(Other(readFaults[k]), 0))
      else if k in entries then Reply(entries[k], Nil)
      else Reply([], ErrNotExist)
    }

    /** MemBuffer.Set: stores `v` under `k` unless the write fails, which changes nothing. */
    function Set(k: Key, v: Value): (r: (MemBuffer, Error))
      ensures r.1 == Nil <==> k !in writeFaults
      ensures r.1 != Nil ==> r.0 == this && r.1.Err? && r.1.kind != NotExist
      ensures r.0.readFaults == readFaults && r.0.writeFaults == writeFaults
      ensures r.1 == Nil && k !in readFaults ==> r.0.Get(k) == Reply(v, Nil)
      ensures forall j :: j != k ==> r.0.Get(j) == Get(j)
    {
      if k in writeFaults then (this, Err(Other(writeFaults[k]), 0))
      else (this.(entries := entries[k := v]), Nil)
    }

    /** MemBuffer.NewIterator: a cursor over the buffered entries (tombstones included) from `start` on. */
    function NewIterator(start: Key): Cursor
    {
      Cursor(start, AtOrAfter(entries, start))
    }
  }

  /** The read-only snapshot of committed data, with the keys whose reads fail. */
  datatype Snapshot = Snapshot(entries: map<Key, Value>, faults: map<Key, Fault>)
  {
    /** Snapshot.Get: a failure with whatever value came back, the committed value, or not-found. */
    function Get(k: Key): Reply
    {
      if k in faults then Reply(faults[k].value, Err(Other(faults[k].code), 0))
      else if k in entries then Reply(entries[k], Nil)
      else Reply([], ErrNotExist)
    }

    /** Snapshot.NewIterator: a cursor over the committed entries from `start` on. */
    function NewIterator(start: Key): Cursor
    {
      Cursor(start, AtOrAfter(entries, start))
    }

    /** Committed data carries no deletion markers. */
    predicate HoldsNoTombstones()
    {
      forall k :: k in entries ==> entries[k] != []
    }
  }

  /** Bytewise lexicographic order on keys: a proper prefix sorts first. */
  predicate KeyLeq(a: Key, b: Key)
  {
    a == [] || (b != [] && (a[0] < b[0] || (a[0] == b[0] && KeyLeq(a[1..], b[1..]))))
  }

  lemma {:induction false} KeyLeqTransitive(a: Key, b: Key, c: Key)
    requires KeyLeq(a, b) && KeyLeq(b, c)
    ensures KeyLeq(a, c)
  {
    if a != [] && a[0] == b[0] && b[0] == c[0] {
      KeyLeqTransitive(a[1..], b[1..], c[1..]);
    }
  }

  lemma {:induction false} KeyLeqTotal(a: Key, b: Key)
    ensures KeyLeq(a, b) || KeyLeq(b, a)
  {
    if a != [] && b != [] && a[0] == b[0] {
      KeyLeqTotal(a[1..], b[1..]);
    }
  }

  lemma {:induction false} KeyLeqReflexive(a: Key)
    ensures KeyLeq(a, a)
  {
    if a != [] {
      KeyLeqReflexive(a[1..]);
    }
  }

  /** The entries of `m` whose keys sort at or after `start`. */
  function AtOrAfter(m: map<Key, Value>, start: Key): (r: map<Key, Value>)
    // only entries of the layer, with their values
    ensures forall k :: k in r ==> k in m && r[k] == m[k]
    // positioned at the start key itself: its own entry is included
    ensures start in m ==> start in r && r[start] == m[start]
    // started at the empty key: the whole layer
    ensures start == [] ==> r == m
  {
    KeyLeqReflexive(start);
    map k | k in m && KeyLeq(start, k) :: m[k]
  }

  /** Positioning further on never brings an entry back: a later start yields a subset. */
  lemma SeekLaterYieldsSubset(m: map<Key, Value>, from: Key, later: Key)
    requires KeyLeq(from, later)
    ensures AtOrAfter(m, later).Keys <= AtOrAfter(m, from).Keys
  {
    forall k | k in AtOrAfter(m, later)
      ensures k in AtOrAfter(m, from)
    {
      KeyLeqTransitive(from, later, k);
    }
  }

  /** Any two iterators over one layer nest: the one started later holds a subset of the other's keys. */
  lemma SeekCursorsNest(m: map<Key, Value>, a: Key, b: Key)
    ensures AtOrAfter(m, a).Keys <= AtOrAfter(m, b).Keys || AtOrAfter(m, b).Keys <= AtOrAfter(m, a).Keys
  {
    KeyLeqTotal(a, b);
    if KeyLeq(a, b) {
      SeekLaterYieldsSubset(m, a, b);
    } else {
      SeekLaterYieldsSubset(m, b, a);
    }
  }
}

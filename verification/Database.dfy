// A key-value database: ordered half-open range iteration over a snapshot, and
// batches that take effect atomically when written.

module Databases {
  import opened Wrappers
  import opened Bytes

  datatype BatchOp<V> = Put(key: Key, value: V) | Delete(key: Key)

  function ApplyOp<V>(data: map<Key, V>, op: BatchOp<V>): map<Key, V> {
    match op
    case Put(k, v) => data[k := v]
    case Delete(k) => data - {k}
  }

  function Apply<V>(data: map<Key, V>, ops: seq<BatchOp<V>>): map<Key, V> {
    if ops == [] then data
    else ApplyOp(Apply(data, ops[..|ops| - 1]), ops[|ops| - 1])
  }

  lemma {:induction false} ApplyAppend<V>(data: map<Key, V>, ops: seq<BatchOp<V>>, op: BatchOp<V>)
    ensures Apply(data, ops + [op]) == ApplyOp(Apply(data, ops), op)
  {
    assert (ops + [op])[..|ops|] == ops;
  }

  /** The keys of [start, end), the range every engine iterates. */
  function InRange(keys: set<Key>, start: Key, end: Key): set<Key> {
    set k | k in keys && Within(start, k, end)
  }

  class Database<V> {
    var data: map<Key, V>
    // Every state the disk went through, one per completed write.
    ghost var written: seq<map<Key, V>>

    constructor (contents: map<Key, V>)
      ensures data == contents && written == []
    {
      data := contents;
      written := [];
    }

    method Get(key: Key) returns (value: Option<V>)
      ensures value == if key in data then Some(data[key]) else None
    {
      value := if key in data then Some(data[key]) else None;
    }

    /** The keys of [start, end) in ascending order. */
    method Iterator(start: Key, end: Key) returns (keys: seq<Key>)
      ensures StrictlySorted(keys)
      ensures Elements(keys) == InRange(data.Keys, start, end)
    {
      keys := SortedKeys(InRange(data.Keys, start, end));
      SortedKeysProperties(InRange(data.Keys, start, end));
    }

    method Write(batch: seq<BatchOp<V>>)
      modifies this
      ensures data == Apply(old(data), batch)
      ensures written == old(written) + [data]
    {
      data := Apply(data, batch);
      written := written + [data];
    }
  }
}

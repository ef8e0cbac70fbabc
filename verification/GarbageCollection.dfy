// cmd/pruner.go gcDB: copy the live data of a database into a scratch database,
// then put the copy in the original's place.

module GarbageCollection {
  import opened Bytes
  import opened Databases

  const BATCH_SIZE: nat := 10_000

  function LivePath(name: string): string {
    name + ".db"
  }

  function ScratchPath(name: string): (p: string)
    ensures p != LivePath(name)
  {
    assert |name + "_gc.db"| != |LivePath(name)|;
    name + "_gc.db"
  }

  type Contents<V> = map<Key, V>
  type Dir<V> = map<string, Contents<V>>

  function At<V>(dbs: Dir<V>, path: string): Contents<V> {
    if path in dbs then dbs[path] else map[]
  }

  /** A data directory: the databases in it by path, and every state it went through. */
  class DataDir<V> {
    var dbs: Dir<V>
    ghost var seen: seq<Dir<V>>

    constructor (contents: Dir<V>)
      ensures dbs == contents && seen == []
    {
      dbs := contents;
      seen := [];
    }

    /** Opening a database that does not exist creates an empty one. */
    method Open(path: string) returns (data: Contents<V>)
      modifies this
      ensures data == At(old(dbs), path)
      ensures dbs == old(dbs)[path := data]
      ensures seen == old(seen) + [dbs]
    {
      data := if path in dbs then dbs[path] else map[];
      dbs := dbs[path := data];
      seen := seen + [dbs];
    }

    method Store(path: string, data: Contents<V>)
      modifies this
      ensures dbs == old(dbs)[path := data]
      ensures seen == old(seen) + [dbs]
    {
      dbs := dbs[path := data];
      seen := seen + [dbs];
    }

    method RemoveAll(path: string)
      modifies this
      ensures dbs == old(dbs) - {path}
      ensures seen == old(seen) + [dbs]
    {
      dbs := dbs - {path};
      seen := seen + [dbs];
    }

    method Rename(from: string, to: string)
      requires from in dbs && from != to
      modifies this
      ensures dbs == (old(dbs) - {from})[to := old(dbs)[from]]
      ensures seen == old(seen) + [dbs]
    {
      dbs := (dbs - {from})[to := dbs[from]];
      seen := seen + [dbs];
    }
  }

  /** The directory gcDB leaves. A number of entries that is a multiple of the batch
      size makes the code take the copy for empty and keep the original. */
  function Collected<V>(dbs: Dir<V>, live: string, scratch: string): Dir<V> {
    if |At(dbs, live)| % BATCH_SIZE == 0 then dbs - {scratch}
    else (dbs - {scratch})[live := At(dbs, scratch) + At(dbs, live)]
  }

  ghost predicate Holds<V>(db: Contents<V>, data: Contents<V>) {
    forall k :: k in data ==> k in db && db[k] == data[k]
  }

  /** One of the two paths holds all the data; the scratch path may hold leftovers besides. */
  ghost predicate NothingLost<V>(data: Contents<V>, dbs: Dir<V>, live: string, scratch: string) {
    Holds(At(dbs, live), data) || Holds(At(dbs, scratch), data)
  }

  ghost predicate NeverLost<V>(data: Contents<V>, seen: seq<Dir<V>>, live: string, scratch: string) {
    forall i :: 0 <= i < |seen| ==> NothingLost(data, seen[i], live, scratch)
  }

  function CopyOf<V>(data: Contents<V>, keys: seq<Key>): Contents<V> {
    map k | k in keys && k in data :: data[k]
  }

  lemma CopyOneMore<V>(stale: Contents<V>, data: Contents<V>, keys: seq<Key>, i: nat,
                       flushed: Contents<V>, batch: seq<BatchOp<V>>)
    requires i < |keys| && keys[i] in data
    requires Apply(flushed, batch) == stale + CopyOf(data, keys[..i])
    ensures Apply(flushed, batch + [Put(keys[i], data[keys[i]])]) == stale + CopyOf(data, keys[..i + 1])
  {
    ApplyAppend(flushed, batch, Put(keys[i], data[keys[i]]));
    assert keys[..i + 1] == keys[..i] + [keys[i]];
  }

  lemma CopyOfAll<V>(data: Contents<V>, keys: seq<Key>)
    requires StrictlySorted(keys) && Elements(keys) == data.Keys
    ensures CopyOf(data, keys) == data
    ensures |keys| == |data|
  {
    assert forall k :: k in keys <==> k in Elements(keys);
    SortedKeysProperties(data.Keys);
    SortedUnique(keys, SortedKeys(data.Keys));
  }

  /** What the copy loop keeps: flushed entries plus the pending batch are the leftovers
      overwritten by the entries iterated so far. */
  ghost predicate Copying<V>(dir: DataDir<V>, before: Dir<V>, live: string, scratch: string,
                             data: Contents<V>, batch: seq<BatchOp<V>>, done: seq<Key>)
    reads dir
  {
    && dir.dbs == before[scratch := At(dir.dbs, scratch)]
    && Apply(At(dir.dbs, scratch), batch) == At(before, scratch) + CopyOf(data, done)
    && NeverLost(data, dir.seen, live, scratch)
  }

  /** Writing the pending batch. */
  method Flush<V>(dir: DataDir<V>, ghost before: Dir<V>, ghost live: string, scratch: string,
                  ghost data: Contents<V>, batch: seq<BatchOp<V>>, ghost done: seq<Key>)
    requires live != scratch && live in before && before[live] == data
    requires Copying(dir, before, live, scratch, data, batch, done)
    modifies dir
    ensures Copying(dir, before, live, scratch, data, [], done)
  {
    dir.Store(scratch, Apply(At(dir.dbs, scratch), batch));
    assert At(dir.dbs, live) == data;
  }

  lemma CopyStep<V>(dir: DataDir<V>, before: Dir<V>, live: string, scratch: string,
                    data: Contents<V>, batch: seq<BatchOp<V>>, keys: seq<Key>, i: nat)
    requires i < |keys| && Elements(keys) == data.Keys
    requires Copying(dir, before, live, scratch, data, batch, keys[..i])
    ensures keys[i] in data
    ensures Copying(dir, before, live, scratch, data, batch + [Put(keys[i], data[keys[i]])], keys[..i + 1])
  {
    assert keys[i] in Elements(keys);
    CopyOneMore(At(before, scratch), data, keys, i, At(dir.dbs, scratch), batch);
  }

  lemma StartCopying<V>(dir: DataDir<V>, live: string, scratch: string, data: Contents<V>)
    requires scratch in dir.dbs && NeverLost(data, dir.seen, live, scratch)
    ensures Copying(dir, dir.dbs, live, scratch, data, [], [])
  {
    assert CopyOf(data, []) == map[];
    assert At(dir.dbs, scratch) + CopyOf(data, []) == At(dir.dbs, scratch);
  }

  /** The copy loop; `count` is what the last batch holds. */
  method CopyLive<V>(dir: DataDir<V>, live: string, scratch: string, data: Contents<V>,
                     keys: seq<Key>) returns (count: nat)
    requires Elements(keys) == data.Keys
    requires live != scratch && live in dir.dbs && dir.dbs[live] == data && scratch in dir.dbs
    requires NeverLost(data, dir.seen, live, scratch)
    modifies dir
    ensures count == |keys| % BATCH_SIZE
    ensures Copying(dir, old(dir.dbs), live, scratch, data, [], keys)
  {
    ghost var before := dir.dbs;
    StartCopying(dir, live, scratch, data);
    var batch: seq<BatchOp<V>> := [];
    count := 0;
    var i := 0;
    assert keys[..0] == [];
    while i < |keys|
      invariant 0 <= i <= |keys|
      invariant count == |batch| && count < BATCH_SIZE && (i - count) % BATCH_SIZE == 0
      invariant Copying(dir, before, live, scratch, data, batch, keys[..i])
    {
      CopyStep(dir, before, live, scratch, data, batch, keys, i);
      batch := batch + [Put(keys[i], data[keys[i]])];
      count := count + 1;
      i := i + 1;
      if count >= BATCH_SIZE {
        Flush(dir, before, live, scratch, data, batch, keys[..i]);
        batch := [];
        count := 0;
      }
    }
    assert keys[..i] == keys;
    if count > 0 {
      Flush(dir, before, live, scratch, data, batch, keys);
    }
  }

  /** Replacing the live database by the scratch one. */
  method Swap<V>(dir: DataDir<V>, live: string, scratch: string, ghost data: Contents<V>)
    requires live != scratch && scratch in dir.dbs && Holds(dir.dbs[scratch], data)
    requires NeverLost(data, dir.seen, live, scratch)
    modifies dir
    ensures dir.dbs == (old(dir.dbs) - {scratch})[live := old(dir.dbs)[scratch]]
    ensures NeverLost(data, dir.seen, live, scratch)
  {
    ghost var copy := dir.dbs[scratch];
    dir.RemoveAll(live);
    assert At(dir.dbs, scratch) == copy;
    dir.Rename(scratch, live);
    assert At(dir.dbs, live) == copy;
    assert dir.dbs == (old(dir.dbs) - {scratch})[live := copy];
  }

  lemma Copied<V>(before: Dir<V>, now: Dir<V>, live: string, scratch: string, data: Contents<V>)
    requires live != scratch && live in before && before[live] == data
    requires now == before[scratch := At(before, scratch)][scratch := At(before, scratch) + data]
    ensures now - {scratch} == before - {scratch}
    ensures At(now, live) == data && scratch in now && Holds(now[scratch], data)
    ensures (now - {scratch})[live := now[scratch]] == (before - {scratch})[live := At(before, scratch) + data]
  {
  }

  method Collect<V>(dir: DataDir<V>, live: string, scratch: string)
    requires live in dir.dbs && live != scratch && dir.seen == []
    modifies dir
    ensures dir.dbs == Collected(old(dir.dbs), live, scratch)
    ensures NeverLost(old(dir.dbs)[live], dir.seen, live, scratch)
  {
    ghost var before := dir.dbs;
    var data := dir.dbs[live];
    var stale := dir.Open(scratch);
    var keys := SortedKeys(data.Keys);
    SortedKeysProperties(data.Keys);
    CopyOfAll(data, keys);
    assert At(dir.dbs, live) == data;
    var count := CopyLive(dir, live, scratch, data, keys);
    Copied(before, dir.dbs, live, scratch, data);
    if count == 0 {
      dir.RemoveAll(scratch);
      assert At(dir.dbs, live) == data;
    } else {
      Swap(dir, live, scratch, data);
    }
  }

  /** cmd/pruner.go gcDB. At no moment is the live data missing from both paths. */
  method GcDB<V>(dir: DataDir<V>, dbName: string)
    requires LivePath(dbName) in dir.dbs && dir.seen == []
    modifies dir
    ensures dir.dbs == Collected(old(dir.dbs), LivePath(dbName), ScratchPath(dbName))
    ensures NeverLost(old(dir.dbs)[LivePath(dbName)], dir.seen, LivePath(dbName), ScratchPath(dbName))
  {
    Collect(dir, LivePath(dbName), ScratchPath(dbName));
  }

  lemma StaleKeysDecide<V>(stale: Contents<V>, data: Contents<V>)
    ensures stale + data == data <==> stale.Keys <= data.Keys
  {
    if stale.Keys <= data.Keys {
      assert stale + data == data;
    } else {
      assert (stale + data).Keys == stale.Keys + data.Keys;
    }
  }

  /** The copy is never left behind. */
  lemma ScratchIsGone<V>(dbs: Dir<V>, live: string, scratch: string)
    requires live != scratch
    ensures scratch !in Collected(dbs, live, scratch)
  {
  }

  /** The collection preserves the contents exactly when the copy is thrown away or no
      earlier run left a scratch database with keys the live one does not have. */
  lemma ContentsPreservedIff<V>(dbs: Dir<V>, live: string, scratch: string)
    requires live in dbs && live != scratch
    ensures At(Collected(dbs, live, scratch), live) == dbs[live]
       <==> |dbs[live]| % BATCH_SIZE == 0 || At(dbs, scratch).Keys <= dbs[live].Keys
    ensures scratch !in Collected(dbs, live, scratch)
  {
    StaleKeysDecide(At(dbs, scratch), dbs[live]);
    ScratchIsGone(dbs, live, scratch);
  }

  /** The other databases of the directory are not touched. */
  lemma OthersUntouched<V>(dbs: Dir<V>, live: string, scratch: string, other: string)
    requires other != live && other != scratch
    ensures At(Collected(dbs, live, scratch), other) == At(dbs, other)
    ensures other in Collected(dbs, live, scratch) <==> other in dbs
  {
  }

  /** An example: a scratch database with one stale entry, left by an earlier run, adds
      that entry to a live database with another one. */
  lemma StaleEntryIsMerged(live: string, scratch: string)
    requires live != scratch
    ensures var dbs := map[live := map[[1] := 1], scratch := map[[2] := 2]];
            At(Collected(dbs, live, scratch), live) == map[[1] := 1, [2] := 2]
  {
    var dbs: Dir<int> := map[live := map[[1] := 1], scratch := map[[2] := 2]];
    assert |At(dbs, live)| == 1;
  }

  /** An entry only an old copy has gets into the database unless the number of live
      entries is a multiple of 10,000. */
  lemma StaleEntryIsMergedIff<V>(dbs: Dir<V>, live: string, scratch: string, k: Key)
    requires live != scratch && k in At(dbs, scratch) && k !in At(dbs, live)
    ensures k in At(Collected(dbs, live, scratch), live) <==> |At(dbs, live)| % 10_000 != 0
  {
  }
}

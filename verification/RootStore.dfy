// internal/rootmulti/store.go: the root store as an object. Each method is proved
// against the functions of MultiStores, MultiStoreLoading and MultiStoreSnapshots.

module RootStores {
  import opened Wrappers
  import opened Bytes
  import opened Databases
  import opened Iavl
  import opened MultiStores
  import opened MultiStoreLoading
  import opened MultiStoreSnapshots

  /** One pass over a map: its keys in an unspecified order. */
  method AnyOrder(all: set<StoreKey>) returns (keys: seq<StoreKey>)
    ensures Enumerates(keys, all)
  {
    keys := [];
    var todo := all;
    while todo != {}
      invariant todo <= all
      invariant forall k :: k in keys <==> k in all && k !in todo
      invariant forall i, j :: 0 <= i < j < |keys| ==> keys[i] != keys[j]
    {
      var k :| k in todo;
      todo := todo - {k};
      keys := keys + [k];
    }
  }

  lemma FirstStays(seen: set<StoreKey>, k: StoreKey, first: StoreKey)
    requires Less(k.name, first.name) && forall s :: s in seen ==> !Less(s.name, first.name)
    ensures forall s :: s in seen || s == k ==> !Less(s.name, k.name)
  {
    LessIrreflexive(k.name);
    forall s | s in seen
      ensures !Less(s.name, k.name)
    {
      if Less(s.name, k.name) { LessTransitive(s.name, k.name, first.name); }
    }
  }

  method FirstByName(keys: set<StoreKey>) returns (first: StoreKey)
    requires keys != {}
    ensures first in keys && forall k :: k in keys ==> !Less(k.name, first.name)
  {
    var x :| x in keys;
    first := x;
    LessIrreflexive(first.name);
    var todo := keys - {x};
    while todo != {}
      invariant todo <= keys && first in keys
      invariant forall k :: k in keys && k !in todo ==> !Less(k.name, first.name)
    {
      var k :| k in todo;
      if Less(k.name, first.name) {
        FirstStays(keys - todo, k, first);
        first := k;
      }
      todo := todo - {k};
    }
  }

  /** keysFromStoreKeyMap: the keys sorted by name; with different names there is only
      one result, whatever order the map is visited in. */
  method KeysFromStoreKeyMap(all: set<StoreKey>) returns (keys: seq<StoreKey>)
    ensures InNameOrder(keys, all)
    ensures NamesDiffer(all) ==> forall other :: InNameOrder(other, all) ==> other == keys
  {
    keys := [];
    var todo := all;
    while todo != {}
      invariant todo <= all
      invariant forall k :: k in keys <==> k in all && k !in todo
      invariant forall i, j :: 0 <= i < j < |keys| ==> keys[i] != keys[j] && !Less(keys[j].name, keys[i].name)
      invariant forall i, k :: 0 <= i < |keys| && k in todo ==> !Less(k.name, keys[i].name)
    {
      var k := FirstByName(todo);
      todo := todo - {k};
      keys := keys + [k];
    }
    if NamesDiffer(all) {
      forall other | InNameOrder(other, all)
        ensures other == keys
      {
        NameOrderUnique(other, keys, all);
      }
    }
  }

  /** All these stores load, and what they drop is marked for removal. */
  ghost predicate LoadedUpTo(lib: Library, view: View, infos: seq<StoreInfo>, ver: nat, up: Upgrades,
                             keys: seq<StoreKey>, removal: set<StoreKey>)
    requires forall k :: k in keys ==> k in view.params
  {
    && (forall k :: k in keys ==> LoadKey(lib, view.data, infos, ver, up, k, view.params[k]).Some?)
    && removal == view.removal + DroppedAll(up, keys)
  }

  ghost predicate LoadStoppedAt(lib: Library, view: View, infos: seq<StoreInfo>, ver: nat, up: Upgrades,
                                keys: seq<StoreKey>, removal: set<StoreKey>)
    requires forall k :: k in keys ==> k in view.params
  {
    exists n ::
      && 0 <= n < |keys| && LoadKey(lib, view.data, infos, ver, up, keys[n], view.params[keys[n]]) == None
      && LoadedUpTo(lib, view, infos, ver, up, keys[..n], removal)
  }

  /** A load stopped at some store it could not load, having marked for removal what the
      stores before it drop, or at once for want of the commit info. */
  ghost predicate LoadStopped(lib: Library, view: View, ver: nat, up: Upgrades, keys: seq<StoreKey>,
                              removal: set<StoreKey>)
    requires forall k :: k in keys ==> k in view.params
  {
    match InfoToLoad(view.data, ver)
    case None => removal == view.removal
    case Some(info) => LoadStoppedAt(lib, view, info.storeInfos, ver, up, keys, removal)
  }

  /** The loop of commitStores stopped at some store, having committed those before it. */
  ghost predicate CommitStopped(lib: Library, c: Commits, removal: set<StoreKey>, version: nat, keys: seq<StoreKey>,
                                data: Data, stores: Stores)
  {
    exists n, infos ::
      && 0 <= n < |keys| && CommitAll(lib, c, removal, version, keys[..n]) == Some(Commits(data, stores, infos))
      && CommitAll(lib, c, removal, version, keys[..n + 1]) == None
  }

  /** The loop of RollbackToVersion stopped at some store, having cut back those before it. */
  ghost predicate RollbackStopped(r: Rolling, target: nat, keys: seq<StoreKey>, data: Data, stores: Stores) {
    exists n ::
      && 0 <= n < |keys| && RollbackAll(r, target, keys[..n]) == Some(Rolling(data, stores))
      && RollbackAll(r, target, keys[..n + 1]) == None
  }

  /** Or it cut back all of them and wrote the metadata, which then did not load. */
  ghost predicate RollbackWritten(lib: Library, r: Rolling, target: nat, keys: seq<StoreKey>, named: seq<StoreKey>,
                                  data: Data, stores: Stores)
  {
    && RollbackAll(r, target, keys).Some? && (forall k :: k in named ==> k in stores)
    && var s := RollbackAll(r, target, keys).value;
    && s.stores == stores
    && data == Flushed(s.data, target, CommitInfo(target, BuiltInfos(lib, stores, named)))
  }

  ghost predicate RestoreStoppedAt(start: Restoring, byName: map<Key, StoreKey>, height: nat, items: seq<SnapshotItem>,
                                   n: nat, data: Data, stores: Stores)
    requires n <= OwnItems(items)
  {
    && RestoreItems(start, byName, height, items[..n]).Some?
    && var r := RestoreItems(start, byName, height, items[..n]).value;
       if n < OwnItems(items) then
         && RestoreItems(start, byName, height, items[..n + 1]) == None
         && (|| (data == r.data && stores == r.stores)
             || CloseImport(r, height) == Some(Restoring(data, stores, None)))
       else CloseImport(r, height) == None && data == r.data && stores == r.stores
  }

  /** Restore stopped at some item it could not take, which may have ended the import that
      was open, or could not end the last import. */
  ghost predicate RestoreStopped(start: Restoring, byName: map<Key, StoreKey>, height: nat, items: seq<SnapshotItem>,
                                 data: Data, stores: Stores)
  {
    exists n: nat :: n <= OwnItems(items) && RestoreStoppedAt(start, byName, height, items, n, data, stores)
  }

  lemma LastImportStopped(start: Restoring, byName: map<Key, StoreKey>, height: nat, items: seq<SnapshotItem>,
                          r: Restoring)
    requires RestoreItems(start, byName, height, items[..OwnItems(items)]) == Some(r)
    requires CloseImport(r, height) == None
    ensures RestoreStopped(start, byName, height, items, r.data, r.stores)
  {
    assert RestoreStoppedAt(start, byName, height, items, OwnItems(items), r.data, r.stores);
  }

  /** Or it imported every store and wrote the metadata, which then did not load. */
  ghost predicate RestoreWritten(lib: Library, c: Option<Restoring>, height: nat, named: seq<StoreKey>,
                                 data: Data, stores: Stores)
  {
    && c.Some? && (forall k :: k in named ==> k in stores) && c.value.stores == stores
    && data == Flushed(c.value.data, height, CommitInfo(height, BuiltInfos(lib, stores, named)))
  }

  /** A snapshot stopped at some store, having written the items of those before it. */
  ghost predicate SnapshotStopped(data: Data, stores: Stores, height: nat, keys: seq<StoreKey>,
                                  written: seq<SnapshotItem>)
    requires forall k :: k in keys ==> k in stores
  {
    exists n ::
      && 0 <= n < |keys| && SnapshotItems(data, stores, height, keys[..n]) == Some(written)
      && SnapshotItems(data, stores, height, keys[..n + 1]) == None
  }

  /** The stores among `done` have the new initial version. */
  ghost predicate PartlySet(before: Stores, now: Stores, version: nat, done: seq<StoreKey>) {
    && now.Keys == before.Keys
    && forall k :: k in now ==>
         now[k] == if k in done && before[k].IavlStore? then before[k].(initialVersion := version) else before[k]
  }

  lemma PartlySetStep(before: Stores, now: Stores, version: nat, keys: seq<StoreKey>, i: nat)
    requires Enumerates(keys, before.Keys) && i < |keys| && PartlySet(before, now, version, keys[..i])
    ensures keys[i] in now && now[keys[i]] == before[keys[i]]
    ensures PartlySet(before,
                      if now[keys[i]].IavlStore? then now[keys[i] := now[keys[i]].(initialVersion := version)] else now,
                      version, keys[..i + 1])
  {
    assert keys[i] in keys && keys[i] !in keys[..i];
    assert keys[..i + 1] == keys[..i] + [keys[i]];
  }

  lemma RemovedTwice<K, V>(m: map<K, V>, a: set<K>, b: set<K>)
    ensures (m - a) - b == m - (a + b)
  {
  }

  lemma OneMoreName(gone: set<StoreKey>, sk: StoreKey)
    ensures NamesOf(gone + {sk}) == NamesOf(gone) + {sk.name}
  {
  }

  /** The stores under these keys have left the three maps. */
  ghost predicate Forgotten(before: View, now: View, gone: set<StoreKey>) {
    now == before.(stores := before.stores - gone, params := before.params - gone,
                   byName := before.byName - NamesOf(gone))
  }

  lemma OneMoreForgotten(before: View, now: View, gone: set<StoreKey>, sk: StoreKey)
    requires Forgotten(before, now, gone)
    ensures Forgotten(before, now.(stores := now.stores - {sk}, params := now.params - {sk},
                                   byName := now.byName - {sk.name}), gone + {sk})
  {
    OneMoreName(gone, sk);
    RemovedTwice(before.stores, gone, {sk});
    RemovedTwice(before.params, gone, {sk});
    RemovedTwice(before.byName, NamesOf(gone), {sk.name});
  }

  method Ascending(s: set<nat>) returns (r: seq<nat>)
    ensures forall v :: v in r <==> v in s
    ensures forall i, j :: 0 <= i < j < |r| ==> r[i] < r[j]
  {
    r := [];
    var todo := s;
    while todo != {}
      invariant todo <= s
      invariant forall v :: v in r <==> v in s && v !in todo
      invariant forall i, j :: 0 <= i < j < |r| ==> r[i] < r[j]
      invariant forall i, v :: 0 <= i < |r| && v in todo ==> v < r[i]
    {
      var m := MaxVersion(todo);
      todo := todo - {m};
      r := [m] + r;
    }
  }

  // A loop that fails on one item fails as a whole.

  lemma {:induction false} LoadFailsOnce(lib: Library, data: Data, infos: seq<StoreInfo>, ver: nat, up: Upgrades,
                                         params: map<StoreKey, StoreType>, l: Loading, keys: seq<StoreKey>, n: nat)
    requires n <= |keys| && forall k :: k in keys ==> k in params
    requires LoadAll(lib, data, infos, ver, up, params, l, keys[..n]) == None
    ensures LoadAll(lib, data, infos, ver, up, params, l, keys) == None
  {
    if n == |keys| {
      assert keys[..n] == keys;
    } else {
      assert keys[..|keys| - 1][..n] == keys[..n];
      LoadFailsOnce(lib, data, infos, ver, up, params, l, keys[..|keys| - 1], n);
    }
  }

  /** The loop of loadVersion has gone through these stores, and `now` is where it stands. */
  ghost predicate LoadingTo(lib: Library, view: View, infos: seq<StoreInfo>, ver: nat, up: Upgrades,
                            keys: seq<StoreKey>, now: Loading)
    requires forall k :: k in keys ==> k in view.params
  {
    && LoadAll(lib, view.data, infos, ver, up, view.params, Loading(map[], view.removal), keys) == Some(now)
    && LoadedUpTo(lib, view, infos, ver, up, keys, now.removal)
  }

  lemma LoadedUpToOneMore(lib: Library, view: View, infos: seq<StoreInfo>, ver: nat, up: Upgrades,
                          init: seq<StoreKey>, last: StoreKey, removal: set<StoreKey>)
    requires last in view.params && forall k :: k in init ==> k in view.params
    requires LoadedUpTo(lib, view, infos, ver, up, init, removal)
    requires LoadKey(lib, view.data, infos, ver, up, last, view.params[last]).Some?
    ensures LoadedUpTo(lib, view, infos, ver, up, init + [last], removal + Dropped(up, last))
  {
    DroppedOneMore(up, init, last);
  }

  lemma LoadAllOneMore(lib: Library, view: View, infos: seq<StoreInfo>, ver: nat, up: Upgrades, init: seq<StoreKey>,
                       last: StoreKey, start: Loading, now: Loading)
    requires last in view.params && forall k :: k in init ==> k in view.params
    requires LoadAll(lib, view.data, infos, ver, up, view.params, start, init) == Some(now)
    ensures LoadAll(lib, view.data, infos, ver, up, view.params, start, init + [last])
         == LoadOne(lib, view.data, infos, ver, up, view.params, now, last)
  {
    assert (init + [last])[..|init|] == init;
  }

  lemma LoadedOneMore(lib: Library, view: View, infos: seq<StoreInfo>, ver: nat, up: Upgrades,
                      keys: seq<StoreKey>, n: nat, now: Loading)
    requires n < |keys| && forall k :: k in keys ==> k in view.params
    requires LoadingTo(lib, view, infos, ver, up, keys[..n], now)
    requires LoadOne(lib, view.data, infos, ver, up, view.params, now, keys[n]).Some?
    ensures LoadingTo(lib, view, infos, ver, up, keys[..n + 1],
                      LoadOne(lib, view.data, infos, ver, up, view.params, now, keys[n]).value)
  {
    assert keys[..n + 1] == keys[..n] + [keys[n]];
    LoadAllOneMore(lib, view, infos, ver, up, keys[..n], keys[n], Loading(map[], view.removal), now);
    LoadedUpToOneMore(lib, view, infos, ver, up, keys[..n], keys[n], now.removal);
  }

  lemma LoadStopsHere(lib: Library, view: View, infos: seq<StoreInfo>, ver: nat, up: Upgrades,
                      keys: seq<StoreKey>, n: nat, now: Loading)
    requires n < |keys| && forall k :: k in keys ==> k in view.params
    requires LoadingTo(lib, view, infos, ver, up, keys[..n], now)
    requires LoadOne(lib, view.data, infos, ver, up, view.params, now, keys[n]) == None
    ensures LoadAll(lib, view.data, infos, ver, up, view.params, Loading(map[], view.removal), keys) == None
    ensures LoadStoppedAt(lib, view, infos, ver, up, keys, now.removal)
  {
    assert keys[..n + 1][..n] == keys[..n] && keys[..n + 1][n] == keys[n];
    LoadFailsOnce(lib, view.data, infos, ver, up, view.params, Loading(map[], view.removal), keys, n + 1);
  }

  lemma CommitOneMore(lib: Library, start: Commits, now: Commits, removal: set<StoreKey>, version: nat,
                      keys: seq<StoreKey>, i: nat)
    requires i < |keys| && CommitAll(lib, start, removal, version, keys[..i]) == Some(now)
    ensures CommitAll(lib, start, removal, version, keys[..i + 1]) == CommitOne(lib, now, removal, version, keys[i])
    ensures CommitOne(lib, now, removal, version, keys[i]).Some? ==>
              CommitOne(lib, now, removal, version, keys[i]).value.stores.Keys == now.stores.Keys
  {
    assert keys[..i + 1][..i] == keys[..i] && keys[..i + 1][i] == keys[i];
  }

  lemma {:induction false} CommitFailsOnce(lib: Library, c: Commits, removal: set<StoreKey>, version: nat,
                                           keys: seq<StoreKey>, n: nat)
    requires n <= |keys| && CommitAll(lib, c, removal, version, keys[..n]) == None
    ensures CommitAll(lib, c, removal, version, keys) == None
  {
    if n == |keys| {
      assert keys[..n] == keys;
    } else {
      assert keys[..|keys| - 1][..n] == keys[..n];
      CommitFailsOnce(lib, c, removal, version, keys[..|keys| - 1], n);
    }
  }

  lemma {:induction false} RollbackFailsOnce(r: Rolling, target: nat, keys: seq<StoreKey>, n: nat)
    requires n <= |keys| && RollbackAll(r, target, keys[..n]) == None
    ensures RollbackAll(r, target, keys) == None
  {
    if n == |keys| {
      assert keys[..n] == keys;
    } else {
      assert keys[..|keys| - 1][..n] == keys[..n];
      RollbackFailsOnce(r, target, keys[..|keys| - 1], n);
    }
  }

  lemma {:induction false} SnapshotFailsOnce(data: Data, stores: Stores, height: nat, keys: seq<StoreKey>, n: nat)
    requires n <= |keys| && forall k :: k in keys ==> k in stores
    requires SnapshotItems(data, stores, height, keys[..n]) == None
    ensures SnapshotItems(data, stores, height, keys) == None
  {
    if n == |keys| {
      assert keys[..n] == keys;
    } else {
      assert keys[..|keys| - 1][..n] == keys[..n];
      SnapshotFailsOnce(data, stores, height, keys[..|keys| - 1], n);
    }
  }

  lemma RestoreFailsOnce(r: Restoring, byName: map<Key, StoreKey>, height: nat, items: seq<SnapshotItem>,
                         prefix: seq<SnapshotItem>)
    requires prefix <= items && RestoreItems(r, byName, height, prefix) == None
    ensures RestoreItems(r, byName, height, items) == None
  {
    RestoreItemsAppend(r, byName, height, prefix, items[|prefix|..]);
    assert prefix + items[|prefix|..] == items;
  }

  lemma {:induction false} OwnItemsAtLeast(items: seq<SnapshotItem>, n: nat)
    requires n <= |items| && forall i :: 0 <= i < n ==> !items[i].OtherItem?
    ensures OwnItems(items) >= n
  {
    if n > 0 {
      OwnItemsAtLeast(items[1..], n - 1);
    }
  }

  lemma OwnItemsExactly(items: seq<SnapshotItem>, n: nat)
    requires n <= |items| && (forall i :: 0 <= i < n ==> !items[i].OtherItem?)
    requires n < |items| ==> items[n].OtherItem?
    ensures OwnItems(items) == n
  {
    OwnItemsAtLeast(items, n);
  }

  /** Only an IAVL store can be at or above a positive version. */
  lemma AtOrAbove(lib: Library, store: SubStore, version: nat)
    ensures AlreadyThere(store, version) <==> store.IavlStore? && LastCommitIDOf(lib, store).version >= version
  {
  }

  class RootStore {
    const lib: Library
    const db: Database<Record>
    var lastCommitInfo: Option<CommitInfo>
    var storesParams: map<StoreKey, StoreType>
    var stores: Stores
    var keysByName: map<Key, StoreKey>
    var initialVersion: nat
    var removalMap: set<StoreKey>

    ghost function V(): View
      reads this, db
    {
      View(db.data, lastCommitInfo, storesParams, stores, keysByName, initialVersion, removalMap)
    }

    constructor (lib: Library, db: Database<Record>)
      ensures this.lib == lib && this.db == db && V() == NewView(db.data)
    {
      this.lib := lib;
      this.db := db;
      lastCommitInfo := None;
      storesParams, stores, keysByName := map[], map[], map[];
      initialVersion := 0;
      removalMap := {};
    }

    /** MountStoreWithDB; it panics (ok is false) on a key or a name already mounted. */
    method MountStoreWithDB(key: StoreKey, typ: StoreType) returns (ok: bool)
      modifies this
      ensures ok <==> key !in old(storesParams) && key.name !in old(keysByName)
      ensures V()
           == if ok then old(V()).(params := old(storesParams)[key := typ], byName := old(keysByName)[key.name := key])
                     else old(V())
    {
      if key in storesParams || key.name in keysByName {
        return false;
      }
      storesParams := storesParams[key := typ];
      keysByName := keysByName[key.name := key];
      ok := true;
    }

    method SetInitialVersion(version: nat)
      modifies this
      ensures V() == InitialVersionSet(old(V()), version)
    {
      initialVersion := version;
      ghost var before := stores;
      var keys := AnyOrder(stores.Keys);
      var i := 0;
      while i < |keys|
        invariant 0 <= i <= |keys|
        invariant V() == old(V()).(initialVersion := version, stores := stores)
        invariant PartlySet(before, stores, version, keys[..i])
      {
        var key := keys[i];
        assert key in keys;
        PartlySetStep(before, stores, version, keys, i);
        if stores[key].IavlStore? {
          stores := stores[key := stores[key].(initialVersion := version)];
        }
        i := i + 1;
      }
      assert keys[..i] == keys;
    }

    // Loading

    /** deleteKVStore: first the keys, then the deletions. */
    method DeleteKVStore(kv: SubStore) returns (r: SubStore)
      ensures r == Emptied(lib, kv)
    {
      match kv {
        case IavlStore(_, _, working, _) =>
          var t := RemoveEach(working, KeysOfStore(kv));
          r := kv.(working := t);
        case TransientStore(_) => r := TransientStore(map[]);
        case MemoryStore(_) => r := MemoryStore(map[]);
        case DBAdapter => r := DBAdapter;
      }
    }

    method RemoveEach(working: Tree, keys: seq<Key>) returns (t: Tree)
      ensures t == RemoveKeys(lib, working, keys)
    {
      t := working;
      var i := 0;
      while i < |keys|
        invariant 0 <= i <= |keys|
        invariant t == RemoveKeys(lib, working, keys[..i])
      {
        assert keys[..i + 1][..i] == keys[..i];
        t := lib.remove(t, keys[i]);
        i := i + 1;
      }
      assert keys[..i] == keys;
    }

    method SetEach(working: Tree, data: map<Key, Value>, keys: seq<Key>) returns (t: Tree)
      requires forall k :: k in keys ==> k in data
      ensures t == SetKeys(lib, working, data, keys)
    {
      t := working;
      var i := 0;
      while i < |keys|
        invariant 0 <= i <= |keys|
        invariant forall k :: k in keys[..i] ==> k in data
        invariant t == SetKeys(lib, working, data, keys[..i])
      {
        assert keys[i] in keys;
        assert keys[..i + 1][..i] == keys[..i];
        t := lib.set_(t, keys[i], data[keys[i]]);
        i := i + 1;
      }
      assert keys[..i] == keys;
    }

    /** moveKVStoreData: copy, then delete the source. */
    method MoveKVStoreData(from: SubStore, to: SubStore) returns (emptied: SubStore, filled: SubStore)
      ensures emptied == Emptied(lib, from) && filled == Filled(lib, from, to)
    {
      match to {
        case IavlStore(_, _, working, _) =>
          var t := SetEach(working, ItemsOf(from), KeysOfStore(from));
          filled := to.(working := t);
        case TransientStore(items) => filled := TransientStore(items + ItemsOf(from));
        case MemoryStore(items) => filled := MemoryStore(items + ItemsOf(from));
        case DBAdapter => filled := DBAdapter;
      }
      emptied := DeleteKVStore(from);
    }

    /** One round of the loop of loadVersion. */
    method LoadMounted(key: StoreKey, typ: StoreType, infos: seq<StoreInfo>, ver: nat,
                       up: Upgrades) returns (r: Option<Loaded>)
      ensures r == LoadKey(lib, db.data, infos, ver, up, key, typ)
    {
      var commitID := GetCommitID(infos, key.name);
      var storeInitialVersion := 0;
      if key.name in up.added || RenamedFrom(up, key.name) != [] {
        storeInitialVersion := ver + 1;
      } else if commitID.version != ver && typ == TypeIAVL {
        return None;
      }
      var store := LoadStore(db.data, key, commitID, typ, storeInitialVersion);
      if store == None {
        return None;
      }
      var oldName := RenamedFrom(up, key.name);
      if key.name in up.deleted {
        var emptied := DeleteKVStore(store.value);
        return Some(Loaded(emptied, None));
      } else if oldName != [] {
        var oldStore := LoadStore(db.data, DetachedKey(up, key), GetCommitID(infos, oldName), typ, 0);
        if oldStore == None {
          return None;
        }
        var emptied, filled := MoveKVStoreData(oldStore.value, store.value);
        return Some(Loaded(filled, Some(emptied)));
      }
      return Some(Loaded(store.value, None));
    }

    /** loadVersion. A failed load changes nothing but the removal map, which may keep
        what the stores loaded before the failure added to it. */
    method LoadVersion(ver: nat, up: Upgrades) returns (ok: bool, ghost order: seq<StoreKey>)
      modifies this
      ensures Enumerates(order, old(storesParams).Keys)
      ensures ok <==> LoadView(lib, old(V()), ver, up, order).Some?
      ensures ok ==> V() == LoadView(lib, old(V()), ver, up, order).value
      ensures !ok ==>
                && V() == old(V()).(removal := removalMap)
                && LoadStopped(lib, old(V()), ver, up, order, removalMap)
    {
      var keys := [];
      if up == NO_UPGRADES {
        keys := AnyOrder(storesParams.Keys);
      } else {
        keys := KeysFromStoreKeyMap(storesParams.Keys);
        NameOrderEnumerates(keys, storesParams.Keys);
      }
      order := keys;
      var cInfo := InfoToLoad(db.data, ver);
      if cInfo == None {
        return false, order;
      }
      var loaded := LoadStores(keys, cInfo.value.storeInfos, ver, up);
      if loaded == None {
        return false, order;
      }
      lastCommitInfo := cInfo;
      stores := loaded.value;
      ok := true;
    }

    /** One store of the loop of loadVersion, with the one it is renamed from. */
    method LoadNext(loading: Stores, key: StoreKey, infos: seq<StoreInfo>, ver: nat, up: Upgrades)
      returns (r: Option<Stores>)
      requires key in storesParams
      modifies this`removalMap
      ensures LoadOne(lib, db.data, infos, ver, up, storesParams, Loading(loading, old(removalMap)), key)
           == if r == None then None else Some(Loading(r.value, removalMap))
      ensures r == None ==> removalMap == old(removalMap)
    {
      var loaded := LoadMounted(key, storesParams[key], infos, ver, up);
      if loaded == None {
        return None;
      }
      var newStores := loading[key := loaded.value.sub];
      if loaded.value.moved.Some? {
        newStores := newStores[DetachedKey(up, key) := loaded.value.moved.value];
      }
      removalMap := removalMap + Dropped(up, key);
      r := Some(newStores);
    }

    /** The loop of loadVersion over the mounted stores. */
    method LoadStores(keys: seq<StoreKey>, infos: seq<StoreInfo>, ver: nat, up: Upgrades) returns (r: Option<Stores>)
      requires forall k :: k in keys ==> k in storesParams
      modifies this`removalMap
      ensures var l := LoadAll(lib, db.data, infos, ver, up, storesParams, Loading(map[], old(removalMap)), keys);
              && (r == None <==> l == None)
              && (r.Some? ==> l == Some(Loading(r.value, removalMap)))
      ensures r == None ==> LoadStoppedAt(lib, old(V()), infos, ver, up, keys, removalMap)
    {
      var newStores: Stores := map[];
      ghost var before := V();
      var i := 0;
      while i < |keys|
        invariant 0 <= i <= |keys|
        invariant LoadingTo(lib, before, infos, ver, up, keys[..i], Loading(newStores, removalMap))
      {
        var key := keys[i];
        assert key in keys;
        ghost var now := Loading(newStores, removalMap);
        var loaded := LoadNext(newStores, key, infos, ver, up);
        if loaded == None {
          LoadStopsHere(lib, before, infos, ver, up, keys, i, now);
          return None;
        }
        LoadedOneMore(lib, before, infos, ver, up, keys, i, now);
        newStores := loaded.value;
        i := i + 1;
      }
      assert keys[..i] == keys;
      r := Some(newStores);
    }

    method LoadLatestVersion() returns (ok: bool, ghost order: seq<StoreKey>)
      modifies this
      ensures Enumerates(order, old(storesParams).Keys)
      ensures ok <==> LoadView(lib, old(V()), GetLatestVersion(db.data), NO_UPGRADES, order).Some?
      ensures ok ==> V() == LoadView(lib, old(V()), GetLatestVersion(db.data), NO_UPGRADES, order).value
      ensures !ok ==> V() == old(V())
    {
      ok, order := LoadVersion(GetLatestVersion(db.data), NO_UPGRADES);
      assert forall n :: 0 <= n <= |order| ==> DroppedAll(NO_UPGRADES, order[..n]) == {};
    }

    // Committing

    method FlushMetadata(version: nat, cInfo: CommitInfo)
      modifies db
      ensures db.data == Flushed(old(db.data), version, cInfo)
      ensures db.written == old(db.written) + [db.data]
    {
      FlushBatch(db.data, version, cInfo);
      db.Write(MetadataBatch(version, cInfo));
    }

    method SaveVersions(name: Key, history: History)
      modifies db
      ensures db.data == SaveHistory(old(db.data), name, history)
      ensures SameMetadata(old(db.data), db.data)
      ensures db.written == old(db.written) + [db.data]
    {
      var batch := [Put(TreeKey(name), Versions(history))];
      assert batch == [] + [batch[0]];
      ApplyAppend(db.data, [], batch[0]);
      AfterSaveEverywhere(db.data, name, history);
      db.Write(batch);
    }

    /** One round of the loop of commitStores: false when saving the tree fails, which
        makes the source panic. */
    method CommitStore(key: StoreKey, version: nat, infos: seq<StoreInfo>) returns (ok: bool, more: seq<StoreInfo>)
      requires key in stores && version >= 1
      modifies db, this`stores
      ensures var d := CommitOne(lib, Commits(old(db.data), old(stores), infos), removalMap, version, key);
              && ok == d.Some?
              && (ok ==> d.value == Commits(db.data, stores, more))
              && (!ok ==> db.data == old(db.data) && stores == old(stores))
      ensures SameMetadata(old(db.data), db.data)
    {
      var store := stores[key];
      var history := HistoryOf(db.data, key.name);
      var last := LastCommitIDOf(lib, store);
      var commitID := last;
      if last.version >= version {
        AtOrAbove(lib, store, version);
        commitID := last.(version := version);
      } else {
        if store.IavlStore? && !CanSave(lib, history, store) {
          return false, infos;
        }
        var committed := CommittedStore(history, store, version);
        if store.IavlStore? {
          SaveVersions(key.name, SavedHistory(history, store));
        }
        stores := stores[key := committed];
        commitID := LastCommitIDOf(lib, committed);
      }
      more := infos;
      if IsPersistent(store) && key !in removalMap {
        more := more + [StoreInfo(key.name, commitID)];
      }
      assert stores == old(stores)[key := CommittedStore(history, store, version)];
      ok := true;
    }

    /** commitStores, in name order; the list of entries is then in name order too, so
        the sort that follows in the source leaves it as it is. */
    method CommitStores(version: nat, keys: seq<StoreKey>) returns (r: Option<CommitInfo>)
      requires InNameOrder(keys, stores.Keys) && version >= 1
      modifies db, this`stores
      ensures var d := CommitAll(lib, Commits(old(db.data), old(stores), []), removalMap, version, keys);
              && (r == None <==> d == None)
              && (r.Some? ==>
                    && r == Some(CommitInfo(version, d.value.infos))
                    && db.data == d.value.data && stores == d.value.stores)
      ensures stores.Keys == old(stores).Keys && SameMetadata(old(db.data), db.data)
      ensures r == None ==> CommitStopped(lib, Commits(old(db.data), old(stores), []),
                                          removalMap, version, keys, db.data, stores)
    {
      var infos: seq<StoreInfo> := [];
      ghost var start := Commits(db.data, stores, []);
      var i := 0;
      while i < |keys|
        invariant 0 <= i <= |keys|
        invariant CommitAll(lib, start, removalMap, version, keys[..i]) == Some(Commits(db.data, stores, infos))
        invariant stores.Keys == start.stores.Keys && SameMetadata(start.data, db.data)
      {
        var key := keys[i];
        assert key in keys;
        CommitOneMore(lib, start, Commits(db.data, stores, infos), removalMap, version, keys, i);
        var ok, more := CommitStore(key, version, infos);
        if !ok {
          CommitFailsOnce(lib, start, removalMap, version, keys, i + 1);
          return None;
        }
        infos := more;
        i := i + 1;
      }
      assert keys[..i] == keys;
      r := Some(CommitInfo(version, infos));
    }

    /** Commit, with the pruning manager's default of pruning nothing. A panic while
        saving a substore (None) leaves the substores before it committed and the
        metadata, on disk and in memory, alone. */
    method Commit() returns (r: Option<CommitID>, ghost named: seq<StoreKey>)
      requires NextVersion(V()) >= 1
      modifies this, db
      ensures InNameOrder(named, old(stores).Keys)
      ensures r == None <==> CommitView(lib, old(V()), named) == None
      ensures r == None ==>
                && SameMetadata(old(db.data), db.data)
                && V() == old(V()).(data := db.data, stores := stores)
                && CommitStopped(lib, Commits(old(db.data), old(stores), []), old(removalMap),
                                 NextVersion(old(V())), named, db.data, stores)
      ensures r.Some? ==>
                && V() == CommitView(lib, old(V()), named).value
                && r.value == CommitID(NextVersion(old(V())), InfoHash(lib, lastCommitInfo.value))
    {
      var version := if InfoVersion(lastCommitInfo) == 0 && initialVersion > 1 then initialVersion
                     else InfoVersion(lastCommitInfo) + 1;
      var keys := KeysFromStoreKeyMap(stores.Keys);
      named := keys;
      var committed := CommitStores(version, keys);
      if committed == None {
        return None, named;
      }
      lastCommitInfo := committed;
      ForgetRemoved();
      FlushMetadata(version, committed.value);
      r := Some(CommitID(version, InfoHash(lib, committed.value)));
    }

    /** Removing the remnants of removed stores. */
    method ForgetRemoved()
      modifies this
      ensures var gone := old(removalMap) * old(stores).Keys;
              V() == old(V()).(stores := old(stores) - gone, params := old(storesParams) - gone,
                               byName := old(keysByName) - NamesOf(gone), removal := {})
    {
      var keys := AnyOrder(removalMap);
      ghost var gone: set<StoreKey> := {};
      var i := 0;
      while i < |keys|
        invariant 0 <= i <= |keys|
        invariant forall k :: k in gone <==> k in keys[..i] && k in old(stores)
        invariant Forgotten(old(V()), V(), gone)
      {
        var sk := keys[i];
        assert keys[..i + 1] == keys[..i] + [sk];
        if sk in stores {
          OneMoreForgotten(old(V()), V(), gone, sk);
          stores, storesParams, keysByName := stores - {sk}, storesParams - {sk}, keysByName - {sk.name};
          gone := gone + {sk};
        }
        i := i + 1;
      }
      assert keys[..i] == keys;
      assert gone == old(removalMap) * old(stores).Keys;
      removalMap := {};
    }

    method WorkingHash() returns (hash: Hash, ghost visited: seq<StoreKey>)
      ensures InNameOrder(visited, stores.Keys)
      ensures hash == lib.root(HashesOf(WorkingInfos(lib, stores, removalMap, visited)))
      ensures NamesDiffer(stores.Keys) ==>
                forall keys :: InNameOrder(keys, stores.Keys) ==>
                  hash == lib.root(HashesOf(WorkingInfos(lib, stores, removalMap, keys)))
    {
      var keys := KeysFromStoreKeyMap(stores.Keys);
      visited := keys;
      var infos: seq<StoreInfo> := [];
      var i := 0;
      while i < |keys|
        invariant 0 <= i <= |keys|
        invariant forall k :: k in keys[..i] ==> k in stores
        invariant infos == WorkingInfos(lib, stores, removalMap, keys[..i])
      {
        assert keys[i] in keys;
        assert keys[..i + 1][..i] == keys[..i];
        if stores[keys[i]].IavlStore? && keys[i] !in removalMap {
          infos := infos + [StoreInfo(keys[i].name, CommitID(0, lib.hash(Pending(stores[keys[i]]))))];
        }
        i := i + 1;
      }
      assert keys[..i] == keys;
      hash := lib.root(HashesOf(infos));
    }

    // History

    /** The versions of some IAVL store, in ascending order; which one is up to the map. */
    method GetAllVersions() returns (versions: seq<nat>, ghost chosen: Option<StoreKey>)
      ensures chosen == None ==> versions == [] && forall k :: k in stores ==> !stores[k].IavlStore?
      ensures chosen.Some? ==>
                && chosen.value in stores && stores[chosen.value].IavlStore?
                && (forall v :: v in versions <==> v in HistoryOf(db.data, chosen.value.name))
                && (forall i, j :: 0 <= i < j < |versions| ==> versions[i] < versions[j])
    {
      var keys := AnyOrder(stores.Keys);
      var i := 0;
      while i < |keys|
        invariant 0 <= i <= |keys|
        invariant forall k :: k in keys[..i] ==> k in stores && !stores[k].IavlStore?
      {
        var key := keys[i];
        assert key in keys;
        if stores[key].IavlStore? {
          chosen := Some(key);
          versions := Ascending(HistoryOf(db.data, key.name).Keys);
          return;
        }
        i := i + 1;
      }
      assert keys[..i] == keys;
      versions, chosen := [], None;
    }

    /** PruneStores. Errors of single stores are logged and skipped. */
    method PruneStores(pruningHeight: int) returns (ghost order: seq<StoreKey>)
      modifies db
      ensures Enumerates(order, stores.Keys)
      ensures V() == old(V()).(data := PruneAll(old(db.data), stores, pruningHeight, order))
    {
      var keys := AnyOrder(stores.Keys);
      order := keys;
      if pruningHeight <= 0 {
        return;
      }
      var i := 0;
      while i < |keys|
        invariant 0 <= i <= |keys|
        invariant db.data == PruneAll(old(db.data), stores, pruningHeight, keys[..i])
      {
        var key := keys[i];
        assert key in keys;
        assert keys[..i + 1][..i] == keys[..i];
        if stores[key].IavlStore? {
          SaveVersions(key.name, DeleteVersionsTo(HistoryOf(db.data, key.name), pruningHeight));
        }
        i := i + 1;
      }
      assert keys[..i] == keys;
    }

    method BuildCommitInfo(version: nat) returns (info: CommitInfo, ghost named: seq<StoreKey>)
      ensures InNameOrder(named, stores.Keys)
      ensures info == CommitInfo(version, BuiltInfos(lib, stores, named))
      ensures NamesDiffer(stores.Keys) ==>
                forall keys :: InNameOrder(keys, stores.Keys) ==>
                  info == CommitInfo(version, BuiltInfos(lib, stores, keys))
    {
      var keys := KeysFromStoreKeyMap(stores.Keys);
      named := keys;
      var infos: seq<StoreInfo> := [];
      var i := 0;
      while i < |keys|
        invariant 0 <= i <= |keys|
        invariant forall k :: k in keys[..i] ==> k in stores
        invariant infos == BuiltInfos(lib, stores, keys[..i])
      {
        assert keys[i] in keys;
        assert keys[..i + 1][..i] == keys[..i];
        if IsPersistent(stores[keys[i]]) {
          infos := infos + [StoreInfo(keys[i].name, LastCommitIDOf(lib, stores[keys[i]]))];
        }
        i := i + 1;
      }
      assert keys[..i] == keys;
      info := CommitInfo(version, infos);
    }

    /** The loop of RollbackToVersion. */
    method RollbackStores(target: nat, keys: seq<StoreKey>) returns (ok: bool)
      requires forall k :: k in keys ==> k in stores
      modifies db, this`stores
      ensures ok == RollbackAll(Rolling(old(db.data), old(stores)), target, keys).Some?
      ensures ok ==> RollbackAll(Rolling(old(db.data), old(stores)), target, keys) == Some(Rolling(db.data, stores))
      ensures stores.Keys == old(stores).Keys && SameMetadata(old(db.data), db.data)
      ensures !ok ==> RollbackStopped(Rolling(old(db.data), old(stores)), target, keys, db.data, stores)
    {
      ghost var start := Rolling(db.data, stores);
      var i := 0;
      while i < |keys|
        invariant 0 <= i <= |keys|
        invariant RollbackAll(start, target, keys[..i]) == Some(Rolling(db.data, stores))
        invariant stores.Keys == start.stores.Keys && SameMetadata(start.data, db.data)
      {
        var key := keys[i];
        assert key in keys;
        assert keys[..i + 1][..i] == keys[..i];
        if stores[key].IavlStore? {
          var h, iv := HistoryOf(db.data, key.name), stores[key].initialVersion;
          var loaded := LoadTree(h, target, iv);
          if loaded == None {
            RollbackFailsOnce(start, target, keys, i + 1);
            return false;
          }
          SaveVersions(key.name, DeleteVersionsAfter(h, target));
          stores := stores[key := IavlStore(loaded.value.0, loaded.value.1, loaded.value.1, iv)];
        }
        i := i + 1;
      }
      assert keys[..i] == keys;
      ok := true;
    }

    method RollbackToVersion(target: int) returns (ok: bool, ghost order: seq<StoreKey>, ghost named: seq<StoreKey>,
                             ghost mounted: seq<StoreKey>)
      modifies this, db
      ensures (forall k :: k in named ==> k in old(stores)) && forall k :: k in mounted ==> k in old(storesParams)
      ensures ok <==> target > 0 && RollbackView(lib, old(V()), target, order, named, mounted).Some?
      ensures ok ==>
                && InNameOrder(named, old(stores).Keys) && Enumerates(mounted, old(storesParams).Keys)
                && RollbackView(lib, old(V()), target, order, named, mounted) == Some(V())
      ensures target <= 0 ==> !ok && V() == old(V())
      ensures target > 0 ==> Enumerates(order, old(stores).Keys)
      // A failure before the metadata is written leaves it alone; after that it names the target.
      ensures !ok ==> SameMetadata(old(db.data), db.data) || GetLatestVersion(db.data) == target
      ensures !ok && target > 0 ==>
                var start := Rolling(old(db.data), old(stores));
                || RollbackStopped(start, target, order, db.data, stores)
                || (&& InNameOrder(named, old(stores).Keys) && Enumerates(mounted, old(storesParams).Keys)
                    && RollbackWritten(lib, start, target, order, named, db.data, stores))
    {
      order, named, mounted := [], [], [];
      if target <= 0 {
        return false, order, named, mounted;
      }
      var keys := AnyOrder(stores.Keys);
      order := keys;
      ok := RollbackStores(target, keys);
      if !ok {
        return;
      }
      var info;
      info, named := BuildCommitInfo(target);
      FlushMetadata(target, info);
      ok, mounted := LoadLatestVersion();
    }

    // Snapshots

    /** The collection of the stores to snapshot: false on a store of a kind that cannot be. */
    method CheckSnapshot(keys: seq<StoreKey>) returns (ok: bool)
      requires forall k :: k in keys ==> k in stores
      ensures ok <==> CanSnapshot(stores, keys)
    {
      ok := true;
      var i := 0;
      while i < |keys|
        invariant 0 <= i <= |keys|
        invariant ok <==> CanSnapshot(stores, keys[..i])
      {
        assert keys[..i + 1] == keys[..i] + [keys[i]];
        if stores[keys[i]].DBAdapter? {
          ok := false;
        }
        i := i + 1;
      }
      assert keys[..i] == keys;
    }

    /** Snapshot: all items, or None for an error, after some were written. */
    method Snapshot(height: nat)
      returns (items: Option<seq<SnapshotItem>>, ghost named: seq<StoreKey>, ghost written: seq<SnapshotItem>)
      ensures InNameOrder(named, stores.Keys)
      ensures items.Some? ==> items == Some(written)
      ensures items == None ==>
                if height == 0 || height > GetLatestVersion(db.data) || !CanSnapshot(stores, named) then written == []
                else SnapshotStopped(db.data, stores, height, named, written)
      ensures items == SnapshotOf(V(), height, named)
      ensures NamesDiffer(stores.Keys) ==>
                forall keys :: InNameOrder(keys, stores.Keys) ==> items == SnapshotOf(V(), height, keys)
    {
      var keys := KeysFromStoreKeyMap(stores.Keys);
      named, written := keys, [];
      if height == 0 || height > GetLatestVersion(db.data) {
        return None, named, written;
      }
      var ok := CheckSnapshot(keys);
      if !ok {
        return None, named, written;
      }
      items, written := WriteStores(height, keys);
    }

    /** The loop over the stores of a snapshot. */
    method WriteStores(height: nat, keys: seq<StoreKey>)
      returns (items: Option<seq<SnapshotItem>>, ghost written: seq<SnapshotItem>)
      requires forall k :: k in keys ==> k in stores
      ensures items == SnapshotItems(db.data, stores, height, keys)
      ensures if items.Some? then items == Some(written) else SnapshotStopped(db.data, stores, height, keys, written)
    {
      var stream: seq<SnapshotItem> := [];
      written := [];
      var i := 0;
      while i < |keys|
        invariant 0 <= i <= |keys|
        invariant forall k :: k in keys[..i] ==> k in stores
        invariant SnapshotItems(db.data, stores, height, keys[..i]) == Some(stream)
        invariant written == stream
      {
        assert keys[i] in keys;
        assert keys[..i + 1][..i] == keys[..i];
        var more := WriteStore(height, keys[i]);
        if more == None {
          SnapshotFailsOnce(db.data, stores, height, keys, i + 1);
          return None, written;
        }
        stream := stream + more.value;
        written := stream;
        i := i + 1;
      }
      assert keys[..i] == keys;
      items := Some(stream);
    }

    /** The items of one store: a store item, then a node item for each exported node. */
    method WriteStore(height: nat, key: StoreKey) returns (items: Option<seq<SnapshotItem>>)
      requires key in stores
      ensures items == StoreItems(db.data, stores[key], height, key.name)
    {
      if !stores[key].IavlStore? {
        return Some([]);
      }
      if height !in HistoryOf(db.data, key.name) {
        return None;
      }
      var nodes := Export(HistoryOf(db.data, key.name)[height]);
      var written: seq<SnapshotItem> := [];
      var nodeCount := 0;
      while nodeCount < |nodes|
        invariant 0 <= nodeCount <= |nodes|
        invariant written == NodeItems(nodes[..nodeCount])
      {
        assert nodes[..nodeCount + 1][..nodeCount] == nodes[..nodeCount];
        written := written + [NodeItem(nodes[nodeCount])];
        nodeCount := nodeCount + 1;
      }
      assert nodes[..nodeCount] == nodes;
      items := Some([StoreItem(key.name)] + written);
    }

    /** Importer.Commit, for the import that is open, if one is. */
    method CommitImporter(open: Option<Import>, height: nat) returns (ok: bool)
      modifies db, this`stores
      ensures var c := CloseImport(Restoring(old(db.data), old(stores), open), height);
              && ok == c.Some?
              && (ok ==> c == Some(Restoring(db.data, stores, None)))
      ensures stores.Keys == old(stores).Keys && SameMetadata(old(db.data), db.data)
      ensures !ok ==> db.data == old(db.data) && stores == old(stores)
    {
      if open == None {
        return true;
      }
      var key := open.value.key;
      if key !in stores || !stores[key].IavlStore? || height < stores[key].initialVersion {
        return false;
      }
      var tree := CommitImport(open.value.stack);
      if tree == None {
        return false;
      }
      SaveVersions(key.name, map[height := tree.value]);
      stores := stores[key := IavlStore(height, tree.value, tree.value, stores[key].initialVersion)];
      ok := true;
    }

    /** One item of the read loop of Restore. */
    method ImportItem(open: Option<Import>, height: nat, item: SnapshotItem) returns (ok: bool, more: Option<Import>)
      modifies db, this`stores
      ensures var s := RestoreItem(Restoring(old(db.data), old(stores), open), keysByName, height, item);
              && ok == s.Some?
              && (ok ==> s == Some(Restoring(db.data, stores, more)))
      ensures stores.Keys == old(stores).Keys && SameMetadata(old(db.data), db.data)
      ensures !ok ==>
                || (db.data == old(db.data) && stores == old(stores))
                || CloseImport(Restoring(old(db.data), old(stores), open), height)
                   == Some(Restoring(db.data, stores, None))
    {
      more := open;
      match item {
        case StoreItem(name) =>
          ok := CommitImporter(open, height);
          if !ok {
            return false, open;
          }
          if !AcceptsImport(Restoring(db.data, stores, None), keysByName, name) {
            return false, open;
          }
          more := Some(Import(keysByName[name], []));
        case NodeItem(node) =>
          if open == None || node.height > MAX_HEIGHT {
            return false, open;
          }
          var stack := AddNode(open.value.stack, node, height);
          if stack == None {
            return false, open;
          }
          ok := true;
          more := Some(Import(open.value.key, stack.value));
        case OtherItem(_) =>
          ok := false;
      }
    }

    /** The read loop of Restore, up to the end of the stream or an item of another kind. */
    method ImportItems(height: nat, items: seq<SnapshotItem>) returns (ok: bool, open: Option<Import>, next: nat)
      modifies db, this`stores
      ensures var r := RestoreItems(Restoring(old(db.data), old(stores), None),
                                    keysByName, height, items[..OwnItems(items)]);
              && ok == r.Some?
              && (ok ==> next == OwnItems(items) && r == Some(Restoring(db.data, stores, open)))
      ensures stores.Keys == old(stores).Keys && SameMetadata(old(db.data), db.data)
      ensures !ok ==> RestoreStopped(Restoring(old(db.data), old(stores), None), keysByName,
                                     height, items, db.data, stores)
    {
      ghost var start := Restoring(db.data, stores, None);
      open := None;
      next := 0;
      while next < |items| && !items[next].OtherItem?
        invariant 0 <= next <= |items|
        invariant forall i :: 0 <= i < next ==> !items[i].OtherItem?
        invariant RestoreItems(start, keysByName, height, items[..next]) == Some(Restoring(db.data, stores, open))
        invariant stores.Keys == start.stores.Keys && SameMetadata(start.data, db.data)
        decreases |items| - next
      {
        assert items[..next + 1][..next] == items[..next];
        ok, open := ImportItem(open, height, items[next]);
        OwnItemsAtLeast(items, next + 1);
        if !ok {
          RestoreFailsOnce(start, keysByName, height, items[..OwnItems(items)], items[..next + 1]);
          assert RestoreStoppedAt(start, keysByName, height, items, next, db.data, stores);
          return;
        }
        next := next + 1;
      }
      OwnItemsExactly(items, next);
      ok := true;
    }

    /** The read loop and the end of the last import. */
    method ImportStores(height: nat, items: seq<SnapshotItem>) returns (ok: bool, next: nat)
      modifies db, this`stores
      ensures var c := Imported(old(V()), height, items);
              && ok == c.Some?
              && (ok ==> next == OwnItems(items) && c == Some(Restoring(db.data, stores, None)))
      ensures stores.Keys == old(stores).Keys && SameMetadata(old(db.data), db.data)
      ensures !ok ==> RestoreStopped(Restoring(old(db.data), old(stores), None), keysByName,
                                     height, items, db.data, stores)
    {
      var open;
      ok, open, next := ImportItems(height, items);
      if ok {
        ghost var r := Restoring(db.data, stores, open);
        ok := CommitImporter(open, height);
        if !ok { LastImportStopped(Restoring(old(db.data), old(stores), None), keysByName, height, items, r); }
      }
    }

    /** Restore: the item that ended the stream, if one did. */
    method Restore(height: nat, items: seq<SnapshotItem>)
      returns (ok: bool, nextItem: Option<SnapshotItem>, ghost named: seq<StoreKey>, ghost mounted: seq<StoreKey>)
      modifies this, db
      ensures (forall k :: k in named ==> k in old(stores)) && forall k :: k in mounted ==> k in old(storesParams)
      ensures ok <==> RestoreView(lib, old(V()), height, items, named, mounted).Some?
      ensures ok ==>
                && InNameOrder(named, old(stores).Keys) && Enumerates(mounted, old(storesParams).Keys)
                && RestoreView(lib, old(V()), height, items, named, mounted) == Some(V())
                && nextItem == if OwnItems(items) < |items| then Some(items[OwnItems(items)]) else None
      ensures !ok ==> SameMetadata(old(db.data), db.data) || GetLatestVersion(db.data) == height
      ensures !ok ==>
                || RestoreStopped(Restoring(old(db.data), old(stores), None), old(keysByName),
                                  height, items, db.data, stores)
                || (&& InNameOrder(named, old(stores).Keys) && Enumerates(mounted, old(storesParams).Keys)
                    && RestoreWritten(lib, Imported(old(V()), height, items), height, named, db.data, stores))
    {
      nextItem, named, mounted := None, [], [];
      var next;
      ok, next := ImportStores(height, items);
      if !ok {
        return;
      }
      if next < |items| {
        nextItem := Some(items[next]);
      }
      var info;
      info, named := BuildCommitInfo(height);
      FlushMetadata(height, info);
      ok, mounted := LoadLatestVersion();
    }
  }
}

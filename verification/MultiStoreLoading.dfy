// loadVersion as a fold over the mounted stores, with the upgrades that add,
// rename and delete stores, and RollbackToVersion.

module MultiStoreLoading {
  import opened Wrappers
  import opened Bytes
  import opened Iavl
  import opened MultiStores

  /** StoreUpgrades; `renamed` maps a new name to the old one. */
  datatype Upgrades = Upgrades(added: set<Key>, renamed: map<Key, Key>, deleted: set<Key>)

  const NO_UPGRADES := Upgrades({}, map[], {})

  /** The empty name stands for "not renamed". */
  function RenamedFrom(up: Upgrades, name: Key): Key {
    if name in up.renamed then up.renamed[name] else []
  }

  predicate IsNew(up: Upgrades, name: Key) {
    name in up.added || RenamedFrom(up, name) != []
  }

  /** loadCommitStoreFromParams */
  function LoadStore(data: Data, key: StoreKey, id: CommitID, typ: StoreType, initialVersion: nat): Option<SubStore> {
    match typ
    case TypeIAVL =>
      (match LoadTree(HistoryOf(data, key.name), id.version, initialVersion)
       case None => None
       case Some((v, t)) => Some(IavlStore(v, t, t, initialVersion)))
    case TypeDB => Some(DBAdapter)
    case TypeTransient => if key.Mounted? && key.kind == TransientKind then Some(TransientStore(map[])) else None
    case TypeMemory => if key.Mounted? && key.kind == MemoryKind then Some(MemoryStore(map[])) else None
  }

  // Moving and deleting the data of a substore

  function RemoveKeys(lib: Library, t: Tree, keys: seq<Key>): Tree {
    if keys == [] then t
    else lib.remove(RemoveKeys(lib, t, keys[..|keys| - 1]), keys[|keys| - 1])
  }

  function SetKeys(lib: Library, t: Tree, data: map<Key, Value>, keys: seq<Key>): Tree
    requires forall k :: k in keys ==> k in data
  {
    if keys == [] then t
    else
      var k := keys[|keys| - 1];
      lib.set_(SetKeys(lib, t, data, keys[..|keys| - 1]), k, data[k])
  }

  lemma {:induction false} RemoveKeysContents(lib: Library, t: Tree, keys: seq<Key>)
    requires lib.Lawful()
    ensures Contents(RemoveKeys(lib, t, keys)) == Contents(t) - Elements(keys)
  {
    if keys != [] {
      var init, k := keys[..|keys| - 1], keys[|keys| - 1];
      RemoveKeysContents(lib, t, init);
      assert lib.RemoveLaw(RemoveKeys(lib, t, init), k);
      assert keys == init + [k];
      assert Elements(keys) == Elements(init) + {k};
    }
  }

  lemma OneMoreEntry(base: map<Key, Value>, data: map<Key, Value>, init: seq<Key>, k: Key, keys: seq<Key>)
    requires keys == init + [k] && forall n :: n in keys ==> n in data
    ensures (base + map n | n in init :: data[n])[k := data[k]] == base + map n | n in keys :: data[n]
  {
  }

  lemma {:induction false} SetKeysContents(lib: Library, t: Tree, data: map<Key, Value>, keys: seq<Key>)
    requires lib.Lawful() && forall k :: k in keys ==> k in data
    ensures Contents(SetKeys(lib, t, data, keys)) == Contents(t) + (map k | k in keys :: data[k])
  {
    if keys != [] {
      var init, k := keys[..|keys| - 1], keys[|keys| - 1];
      SetKeysContents(lib, t, data, init);
      assert lib.SetLaw(SetKeys(lib, t, data, init), k, data[k]);
      OneMoreEntry(Contents(t), data, init, k, keys);
    }
  }

  function ItemsOf(sub: SubStore): map<Key, Value> {
    match sub
    case IavlStore(_, _, w, _) => Contents(w)
    case TransientStore(items) => items
    case MemoryStore(items) => items
    case DBAdapter => map[]
  }

  function KeysOfStore(sub: SubStore): (keys: seq<Key>)
    ensures forall k :: k in keys ==> k in ItemsOf(sub)
  {
    SortedKeysProperties(ItemsOf(sub).Keys);
    assert forall k :: k in SortedKeys(ItemsOf(sub).Keys) ==> k in Elements(SortedKeys(ItemsOf(sub).Keys));
    SortedKeys(ItemsOf(sub).Keys)
  }

  /** deleteKVStore */
  function Emptied(lib: Library, sub: SubStore): SubStore {
    match sub
    case IavlStore(_, _, w, _) => sub.(working := RemoveKeys(lib, w, KeysOfStore(sub)))
    case TransientStore(_) => TransientStore(map[])
    case MemoryStore(_) => MemoryStore(map[])
    case DBAdapter => DBAdapter
  }

  /** The first half of moveKVStoreData: everything in `from` is set in `to`. */
  function Filled(lib: Library, from: SubStore, to: SubStore): SubStore {
    match to
    case IavlStore(_, _, w, _) => to.(working := SetKeys(lib, w, ItemsOf(from), KeysOfStore(from)))
    case TransientStore(items) => TransientStore(items + ItemsOf(from))
    case MemoryStore(items) => MemoryStore(items + ItemsOf(from))
    case DBAdapter => DBAdapter
  }

  lemma KeysOfStoreAll(sub: SubStore)
    ensures Elements(KeysOfStore(sub)) == ItemsOf(sub).Keys
  {
    SortedKeysProperties(ItemsOf(sub).Keys);
  }

  /** deleteKVStore leaves nothing. */
  lemma EmptiedIsEmpty(lib: Library, sub: SubStore)
    requires lib.Lawful()
    ensures ItemsOf(Emptied(lib, sub)) == map[]
  {
    if sub.IavlStore? {
      KeysOfStoreAll(sub);
      RemoveKeysContents(lib, sub.working, KeysOfStore(sub));
    }
  }

  /** moveKVStoreData overrides what the new store has with what the old one had. */
  lemma FilledHasAll(lib: Library, from: SubStore, to: SubStore)
    requires lib.Lawful() && !to.DBAdapter?
    ensures ItemsOf(Filled(lib, from, to)) == ItemsOf(to) + ItemsOf(from)
  {
    if to.IavlStore? {
      KeysOfStoreAll(from);
      var keys := KeysOfStore(from);
      SetKeysContents(lib, to.working, ItemsOf(from), keys);
      assert forall k :: k in keys <==> k in Elements(keys);
      assert (map k | k in keys :: ItemsOf(from)[k]) == ItemsOf(from);
    }
  }

  // One mounted store

  /** What loading one mounted store yields: the store, and the store it takes its data from. */
  datatype Loaded = Loaded(sub: SubStore, moved: Option<SubStore>)

  function DetachedKey(up: Upgrades, key: StoreKey): StoreKey {
    Detached(RenamedFrom(up, key.name), key.name)
  }

  function LoadKey(lib: Library, data: Data, infos: seq<StoreInfo>, ver: nat, up: Upgrades,
                   key: StoreKey, typ: StoreType): Option<Loaded>
  {
    var id := GetCommitID(infos, key.name);
    var isNew := IsNew(up, key.name);
    if !isNew && id.version != ver && typ == TypeIAVL then None
    else
      match LoadStore(data, key, id, typ, if isNew then ver + 1 else 0)
      case None => None
      case Some(sub) =>
        if key.name in up.deleted then Some(Loaded(Emptied(lib, sub), None))
        else if RenamedFrom(up, key.name) != [] then
          match LoadStore(data, DetachedKey(up, key), GetCommitID(infos, RenamedFrom(up, key.name)), typ, 0)
          case None => None
          case Some(from) => Some(Loaded(Filled(lib, from, sub), Some(Emptied(lib, from))))
        else Some(Loaded(sub, None))
  }

  /** Keys whose stores are dropped at the next Commit because of this one. */
  function Dropped(up: Upgrades, key: StoreKey): set<StoreKey> {
    if key.name in up.deleted then {key}
    else if RenamedFrom(up, key.name) != [] then {DetachedKey(up, key)}
    else {}
  }

  // All mounted stores

  datatype Loading = Loading(stores: Stores, removal: set<StoreKey>)

  function LoadOne(lib: Library, data: Data, infos: seq<StoreInfo>, ver: nat, up: Upgrades,
                   params: map<StoreKey, StoreType>, l: Loading, key: StoreKey): Option<Loading>
    requires key in params
  {
    match LoadKey(lib, data, infos, ver, up, key, params[key])
    case None => None
    case Some(ld) =>
      var stores := l.stores[key := ld.sub];
      Some(Loading(if ld.moved.Some? then stores[DetachedKey(up, key) := ld.moved.value] else stores,
                   l.removal + Dropped(up, key)))
  }

  function LoadAll(lib: Library, data: Data, infos: seq<StoreInfo>, ver: nat, up: Upgrades,
                   params: map<StoreKey, StoreType>, l: Loading, keys: seq<StoreKey>): Option<Loading>
    requires forall k :: k in keys ==> k in params
  {
    if keys == [] then Some(l)
    else
      match LoadAll(lib, data, infos, ver, up, params, l, keys[..|keys| - 1])
      case None => None
      case Some(m) => LoadOne(lib, data, infos, ver, up, params, m, keys[|keys| - 1])
  }

  ghost predicate AllMounted(keys: seq<StoreKey>) {
    forall k :: k in keys ==> k.Mounted?
  }

  /** The outcome of the loop, store by store. */
  ghost predicate LoadsEach(lib: Library, data: Data, infos: seq<StoreInfo>, ver: nat, up: Upgrades,
                            params: map<StoreKey, StoreType>, keys: seq<StoreKey>, m: Stores)
    requires forall k :: k in keys ==> k in params
  {
    && (forall k :: k in keys ==>
          var ld := LoadKey(lib, data, infos, ver, up, k, params[k]);
          && ld.Some? && k in m && m[k] == ld.value.sub
          && (ld.value.moved.Some? ==> DetachedKey(up, k) in m && m[DetachedKey(up, k)] == ld.value.moved.value))
    && (forall d :: d in m ==>
          || d in keys
          || exists k :: k in keys && d == DetachedKey(up, k) && k.name !in up.deleted && RenamedFrom(up, k.name) != [])
  }

  function DroppedAll(up: Upgrades, keys: seq<StoreKey>): set<StoreKey> {
    set k, d | k in keys && d in Dropped(up, k) :: d
  }

  /** What the loop of loadVersion does with these keys. */
  ghost predicate LoadAllOutcome(lib: Library, data: Data, infos: seq<StoreInfo>, ver: nat, up: Upgrades,
                                 params: map<StoreKey, StoreType>, l: Loading, keys: seq<StoreKey>)
    requires forall k :: k in keys ==> k in params
  {
    var m := LoadAll(lib, data, infos, ver, up, params, l, keys);
    && (m.Some? <==> forall k :: k in keys ==> LoadKey(lib, data, infos, ver, up, k, params[k]).Some?)
    && (m.Some? ==>
          && LoadsEach(lib, data, infos, ver, up, params, keys, m.value.stores)
          && m.value.removal == l.removal + DroppedAll(up, keys))
  }

  lemma DroppedOneMore(up: Upgrades, init: seq<StoreKey>, last: StoreKey)
    ensures DroppedAll(up, init + [last]) == DroppedAll(up, init) + Dropped(up, last)
  {
  }

  lemma OneMoreLoaded(lib: Library, data: Data, infos: seq<StoreInfo>, ver: nat, up: Upgrades,
                      params: map<StoreKey, StoreType>, m: Loading, init: seq<StoreKey>, last: StoreKey)
    requires last in params && last.Mounted? && AllMounted(init)
    requires forall k :: k in init ==> k in params && k.name != last.name
    requires LoadsEach(lib, data, infos, ver, up, params, init, m.stores)
    requires LoadOne(lib, data, infos, ver, up, params, m, last).Some?
    ensures LoadsEach(lib, data, infos, ver, up, params, init + [last],
                      LoadOne(lib, data, infos, ver, up, params, m, last).value.stores)
  {
    var e := LoadOne(lib, data, infos, ver, up, params, m, last).value;
    var keys := init + [last];
    forall d | d in e.stores
      ensures d in keys
         || exists k :: k in keys && d == DetachedKey(up, k) && k.name !in up.deleted && RenamedFrom(up, k.name) != []
    {
      if d == DetachedKey(up, last) && d !in m.stores {
        assert last in keys;
      } else if d in m.stores && d !in init {
        var k :| k in init && d == DetachedKey(up, k) && k.name !in up.deleted && RenamedFrom(up, k.name) != [];
        assert k in keys;
      }
    }
  }

  /** What the loop needs of its keys. */
  ghost predicate LoadableKeys(params: map<StoreKey, StoreType>, keys: seq<StoreKey>) {
    DistinctNames(keys) && AllMounted(keys) && forall k :: k in keys ==> k in params
  }

  lemma LoadableInit(params: map<StoreKey, StoreType>, keys: seq<StoreKey>)
    requires keys != [] && LoadableKeys(params, keys)
    ensures LoadableKeys(params, keys[..|keys| - 1])
  {
    DistinctInit(keys);
  }

  lemma LoadAllSnoc(lib: Library, data: Data, infos: seq<StoreInfo>, ver: nat, up: Upgrades,
                    params: map<StoreKey, StoreType>, l: Loading, init: seq<StoreKey>, keys: seq<StoreKey>)
    requires keys != [] && init == keys[..|keys| - 1] && LoadableKeys(params, keys) && LoadableKeys(params, init)
    requires LoadAllOutcome(lib, data, infos, ver, up, params, l, init)
    ensures LoadAllOutcome(lib, data, infos, ver, up, params, l, keys)
  {
    var last := keys[|keys| - 1];
    DistinctInit(keys);
    assert keys == init + [last];
    if LoadAll(lib, data, infos, ver, up, params, l, keys).Some? {
      var m := LoadAll(lib, data, infos, ver, up, params, l, init).value;
      OneMoreLoaded(lib, data, infos, ver, up, params, m, init, last);
      DroppedOneMore(up, init, last);
    }
  }

  lemma NothingLoaded(lib: Library, data: Data, infos: seq<StoreInfo>, ver: nat, up: Upgrades,
                      params: map<StoreKey, StoreType>, l: Loading)
    requires l.stores == map[]
    ensures LoadAllOutcome(lib, data, infos, ver, up, params, l, [])
  {
    assert l.removal + DroppedAll(up, []) == l.removal;
  }

  /** Loading stores with different names: it succeeds exactly when each store can be
      loaded, and then treats each one independently. */
  lemma {:induction false} LoadAllLoadsEach(lib: Library, data: Data, infos: seq<StoreInfo>, ver: nat, up: Upgrades,
                                            params: map<StoreKey, StoreType>, l: Loading, keys: seq<StoreKey>)
    requires DistinctNames(keys) && AllMounted(keys) && forall k :: k in keys ==> k in params
    requires l.stores == map[]
    ensures LoadAllOutcome(lib, data, infos, ver, up, params, l, keys)
  {
    if keys == [] {
      NothingLoaded(lib, data, infos, ver, up, params, l);
    } else {
      var init := keys[..|keys| - 1];
      LoadableInit(params, keys);
      LoadAllLoadsEach(lib, data, infos, ver, up, params, l, init);
      LoadAllSnoc(lib, data, infos, ver, up, params, l, init, keys);
    }
  }

  // The whole operation

  /** The commit info loadVersion starts from; version 0 has an empty one. */
  function InfoToLoad(data: Data, ver: nat): Option<CommitInfo> {
    if ver == 0 then Some(CommitInfo(0, [])) else GetCommitInfo(data, ver)
  }

  /** What loadVersion leaves when it goes through the mounted stores in the order `keys`. */
  function LoadView(lib: Library, view: View, ver: nat, up: Upgrades, keys: seq<StoreKey>): Option<View>
    requires forall k :: k in keys ==> k in view.params
  {
    match InfoToLoad(view.data, ver)
    case None => None
    case Some(info) =>
      match LoadAll(lib, view.data, info.storeInfos, ver, up, view.params, Loading(map[], view.removal), keys)
      case None => None
      case Some(m) => Some(view.(lastInfo := Some(info), stores := m.stores, removal := m.removal))
  }

  /** keys lists every key of a set once. */
  ghost predicate Enumerates(keys: seq<StoreKey>, all: set<StoreKey>) {
    && (forall k :: k in keys <==> k in all)
    && (forall i, j :: 0 <= i < j < |keys| ==> keys[i] != keys[j])
  }

  lemma EnumeratedNamesDistinct(keys: seq<StoreKey>, all: set<StoreKey>)
    requires Enumerates(keys, all) && NamesDiffer(all)
    ensures DistinctNames(keys)
  {
  }

  lemma NameOrderEnumerates(keys: seq<StoreKey>, all: set<StoreKey>)
    requires InNameOrder(keys, all)
    ensures Enumerates(keys, all)
  {
  }

  // RollbackToVersion

  datatype Rolling = Rolling(data: Data, stores: Stores)

  function RollbackOne(r: Rolling, target: nat, key: StoreKey): Option<Rolling> {
    if key !in r.stores then None
    else if !r.stores[key].IavlStore? then Some(r)
    else
      var h, iv := HistoryOf(r.data, key.name), r.stores[key].initialVersion;
      match LoadTree(h, target, iv)
      case None => None
      case Some((v, t)) =>
        Some(Rolling(SaveHistory(r.data, key.name, DeleteVersionsAfter(h, target)),
                     r.stores[key := IavlStore(v, t, t, iv)]))
  }

  function RollbackAll(r: Rolling, target: nat, keys: seq<StoreKey>): Option<Rolling> {
    if keys == [] then Some(r)
    else
      match RollbackAll(r, target, keys[..|keys| - 1])
      case None => None
      case Some(s) => RollbackOne(s, target, keys[|keys| - 1])
  }

  ghost predicate RollsBackEach(r: Rolling, s: Rolling, target: nat, keys: seq<StoreKey>) {
    && s.stores.Keys == r.stores.Keys
    && (forall k :: k in r.stores && (k !in keys || !r.stores[k].IavlStore?) ==> s.stores[k] == r.stores[k])
    && (forall k :: k in keys ==> k in r.stores)
    && (forall k :: k in keys && r.stores[k].IavlStore? ==>
          var h, iv := HistoryOf(r.data, k.name), r.stores[k].initialVersion;
          && LoadTree(h, target, iv).Some?
          && s.stores[k] == IavlStore(LoadTree(h, target, iv).value.0, LoadTree(h, target, iv).value.1,
                                      LoadTree(h, target, iv).value.1, iv)
          && HistoryOf(s.data, k.name) == DeleteVersionsAfter(h, target))
    && (forall name :: (forall k :: k in keys && r.stores[k].IavlStore? ==> k.name != name) ==>
          HistoryOf(s.data, name) == HistoryOf(r.data, name))
    && GetLatestVersion(s.data) == GetLatestVersion(r.data)
    && (forall v :: GetCommitInfo(s.data, v) == GetCommitInfo(r.data, v))
  }

  /** The target can be loaded from the store, if it is an IAVL store. */
  predicate HasTarget(r: Rolling, target: nat, k: StoreKey)
    requires k in r.stores
  {
    r.stores[k].IavlStore? ==> LoadTree(HistoryOf(r.data, k.name), target, r.stores[k].initialVersion).Some?
  }

  lemma OneMoreRolledBack(r: Rolling, s: Rolling, target: nat, init: seq<StoreKey>, last: StoreKey, keys: seq<StoreKey>)
    requires keys == init + [last] && last in r.stores && forall k :: k in init ==> k.name != last.name
    requires RollsBackEach(r, s, target, init)
    ensures RollbackOne(s, target, last).Some? <==> HasTarget(r, target, last)
    ensures RollbackOne(s, target, last).Some? ==> RollsBackEach(r, RollbackOne(s, target, last).value, target, keys)
  {
    AfterSaveEverywhere(s.data, last.name, DeleteVersionsAfter(HistoryOf(s.data, last.name), target));
    assert last !in init;
  }

  /** The loop of RollbackToVersion succeeds exactly when every IAVL store has the target,
      and then cuts each one back independently and touches no metadata. */
  lemma {:induction false} RollbackAllRollsBackEach(r: Rolling, target: nat, keys: seq<StoreKey>)
    requires DistinctNames(keys) && forall k :: k in keys ==> k in r.stores
    ensures RollbackAll(r, target, keys).Some? <==> forall k :: k in keys ==> HasTarget(r, target, k)
    ensures RollbackAll(r, target, keys).Some? ==>
              RollsBackEach(r, RollbackAll(r, target, keys).value, target, keys)
  {
    if keys != [] {
      var init, last := keys[..|keys| - 1], keys[|keys| - 1];
      DistinctInit(keys);
      RollbackAllRollsBackEach(r, target, init);
      if RollbackAll(r, target, init).Some? {
        OneMoreRolledBack(r, RollbackAll(r, target, init).value, target, init, last, keys);
      }
    }
  }

  /** What RollbackToVersion leaves: each IAVL store cut back to the target, metadata
      rebuilt from the stores, and the latest version loaded again. */
  function RollbackView(lib: Library, view: View, target: nat, order: seq<StoreKey>, named: seq<StoreKey>,
                        mounted: seq<StoreKey>): Option<View>
    requires forall k :: k in mounted ==> k in view.params
    requires forall k :: k in named ==> k in view.stores
  {
    if target == 0 then None
    else
      match RollbackAll(Rolling(view.data, view.stores), target, order)
      case None => None
      case Some(s) =>
        if s.stores.Keys != view.stores.Keys then None
        else
          var info := CommitInfo(target, BuiltInfos(lib, s.stores, named));
          var mid := view.(data := Flushed(s.data, target, info), stores := s.stores);
          LoadView(lib, mid, GetLatestVersion(mid.data), NO_UPGRADES, mounted)
  }

  // PruneStores

  /** DeleteVersionsTo on one store; the error for the newest version is only logged. */
  function PruneOne(data: Data, stores: Stores, height: int, key: StoreKey): Data {
    if key in stores && stores[key].IavlStore?
    then SaveHistory(data, key.name, DeleteVersionsTo(HistoryOf(data, key.name), height)) else data
  }

  function PruneAll(data: Data, stores: Stores, height: int, keys: seq<StoreKey>): Data {
    if height <= 0 || keys == [] then data
    else PruneOne(PruneAll(data, stores, height, keys[..|keys| - 1]), stores, height, keys[|keys| - 1])
  }

  ghost predicate PrunesEach(data: Data, pruned: Data, stores: Stores, height: int, keys: seq<StoreKey>) {
    && GetLatestVersion(pruned) == GetLatestVersion(data)
    && (forall v :: GetCommitInfo(pruned, v) == GetCommitInfo(data, v))
    && (forall k :: k in keys && k in stores && stores[k].IavlStore? ==>
          HistoryOf(pruned, k.name) == DeleteVersionsTo(HistoryOf(data, k.name), height))
    && (forall name :: (forall k :: k in keys && k in stores && stores[k].IavlStore? ==> k.name != name) ==>
          HistoryOf(pruned, name) == HistoryOf(data, name))
  }

  /** PruneStores prunes each IAVL store independently and touches no metadata. */
  lemma {:induction false} PruneAllPrunesEach(data: Data, stores: Stores, height: int, keys: seq<StoreKey>)
    requires DistinctNames(keys) && height > 0
    ensures PrunesEach(data, PruneAll(data, stores, height, keys), stores, height, keys)
  {
    if keys != [] {
      var init, last := keys[..|keys| - 1], keys[|keys| - 1];
      DistinctInit(keys);
      PruneAllPrunesEach(data, stores, height, init);
      var d := PruneAll(data, stores, height, init);
      AfterSaveEverywhere(d, last.name, DeleteVersionsTo(HistoryOf(d, last.name), height));
      assert keys == init + [last];
    }
  }
}

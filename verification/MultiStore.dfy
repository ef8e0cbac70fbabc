// internal/rootmulti/store.go as functions: what is on disk, what a substore is,
// and the loops over substores as folds over a sequence of store keys.

module MultiStores {
  import opened Wrappers
  import opened Bytes
  import opened Decimal
  import opened Databases
  import opened Iavl
  import BlockStores

  // On disk

  datatype CommitID = CommitID(version: int, hash: Hash)

  datatype StoreInfo = StoreInfo(name: Key, commitID: CommitID)

  datatype CommitInfo = CommitInfo(version: int, storeInfos: seq<StoreInfo>)

  /** A decoded record of the application database. */
  datatype Record =
    | Raw(bytes: seq<Byte>)
    | LatestVersion(version: nat)
    | Info(info: CommitInfo)
    | Versions(history: History)

  type Data = map<Key, Record>

  const LATEST_KEY: Key := [115, 47, 108, 97, 116, 101, 115, 116]  // "s/latest"

  /** "s/<version>" */
  function InfoKey(version: nat): Key {
    BlockStores.S + Dec(version)
  }

  /** "s/k:<name>/": where the versions of a substore live. */
  function TreeKey(name: Key): Key {
    [115, 47, 107, 58] + name + [47]
  }

  function GetLatestVersion(data: Data): nat {
    if LATEST_KEY in data && data[LATEST_KEY].LatestVersion? then data[LATEST_KEY].version else 0
  }

  function GetCommitInfo(data: Data, version: nat): Option<CommitInfo> {
    if InfoKey(version) in data && data[InfoKey(version)].Info? then Some(data[InfoKey(version)].info) else None
  }

  function HistoryOf(data: Data, name: Key): History {
    if TreeKey(name) in data && data[TreeKey(name)].Versions? then data[TreeKey(name)].history else map[]
  }

  function SaveHistory(data: Data, name: Key, h: History): Data {
    data[TreeKey(name) := Versions(h)]
  }

  /** flushMetadata: the commit info and the latest version in one batch. */
  function MetadataBatch(version: nat, info: CommitInfo): seq<BatchOp<Record>> {
    [Put(InfoKey(version), Info(info)), Put(LATEST_KEY, LatestVersion(version))]
  }

  function Flushed(data: Data, version: nat, info: CommitInfo): Data {
    data[InfoKey(version) := Info(info)][LATEST_KEY := LatestVersion(version)]
  }

  lemma FlushBatch(data: Data, version: nat, info: CommitInfo)
    ensures Apply(data, MetadataBatch(version, info)) == Flushed(data, version, info)
  {
    var batch := MetadataBatch(version, info);
    assert batch == [] + [batch[0]] + [batch[1]];
    ApplyAppend(data, [], batch[0]);
    ApplyAppend(data, [] + [batch[0]], batch[1]);
  }

  /** The three kinds of keys never collide. */
  lemma KeysApart(version: nat, other: nat, name: Key, name2: Key)
    ensures InfoKey(version) != LATEST_KEY
    ensures TreeKey(name) != LATEST_KEY
    ensures TreeKey(name) != InfoKey(version)
    ensures InfoKey(version) == InfoKey(other) ==> version == other
    ensures TreeKey(name) == TreeKey(name2) ==> name == name2
  {
    assert InfoKey(version)[2] == Dec(version)[0];
    assert TreeKey(name)[2] == 107 && LATEST_KEY[2] == 108;
    assert InfoKey(version)[2..] == Dec(version) && InfoKey(other)[2..] == Dec(other);
    assert TreeKey(name)[4..|TreeKey(name)| - 1] == name;
    assert TreeKey(name2)[4..|TreeKey(name2)| - 1] == name2;
    if Dec(version) == Dec(other) { DecInjective(version, other); }
  }

  lemma AfterFlush(data: Data, version: nat, info: CommitInfo, other: nat, name: Key)
    ensures var d := Flushed(data, version, info);
            && GetLatestVersion(d) == version
            && GetCommitInfo(d, other) == (if other == version then Some(info) else GetCommitInfo(data, other))
            && HistoryOf(d, name) == HistoryOf(data, name)
  {
    KeysApart(version, other, name, name);
    KeysApart(other, version, name, name);
  }

  lemma AfterSave(data: Data, name: Key, h: History, version: nat, other: Key)
    ensures var d := SaveHistory(data, name, h);
            && GetLatestVersion(d) == GetLatestVersion(data)
            && GetCommitInfo(d, version) == GetCommitInfo(data, version)
            && HistoryOf(d, other) == if other == name then h else HistoryOf(data, other)
  {
    KeysApart(version, version, name, other);
  }

  lemma AfterSaveEverywhere(data: Data, name: Key, h: History)
    ensures GetLatestVersion(SaveHistory(data, name, h)) == GetLatestVersion(data)
    ensures forall v :: GetCommitInfo(SaveHistory(data, name, h), v) == GetCommitInfo(data, v)
    ensures forall other ::
              HistoryOf(SaveHistory(data, name, h), other) == if other == name then h else HistoryOf(data, other)
  {
    forall v: nat
      ensures GetCommitInfo(SaveHistory(data, name, h), v) == GetCommitInfo(data, v)
    {
      AfterSave(data, name, h, v, name);
    }
    forall other: Key
      ensures HistoryOf(SaveHistory(data, name, h), other) == if other == name then h else HistoryOf(data, other)
    {
      AfterSave(data, name, h, 0, other);
    }
    AfterSave(data, name, h, 0, name);
  }

  /** The latest version and every commit info are the same. */
  ghost predicate SameMetadata(before: Data, after: Data) {
    && GetLatestVersion(after) == GetLatestVersion(before)
    && forall v :: GetCommitInfo(after, v) == GetCommitInfo(before, v)
  }

  // In memory

  datatype StoreType = TypeIAVL | TypeTransient | TypeMemory | TypeDB

  datatype KeyKind = KVKind | TransientKind | MemoryKind

  /** Mounted keys are told apart by name. A rename also needs an unregistered key,
      made while loading, for the store whose data moves to the store `movedTo`. */
  datatype StoreKey =
    | Mounted(name: Key, kind: KeyKind)
    | Detached(name: Key, movedTo: Key)

  /** An IAVL substore has the version it last loaded or saved, that tree, and a
      working tree. An adapter writes straight to its database. */
  datatype SubStore =
    | IavlStore(version: nat, saved: Tree, working: Tree, initialVersion: nat)
    | TransientStore(items: map<Key, Value>)
    | MemoryStore(items: map<Key, Value>)
    | DBAdapter

  type Stores = map<StoreKey, SubStore>

  const FAKE_HASH: Hash := [70, 65, 75, 69, 95, 72, 65, 83, 72]  // "FAKE_HASH"

  predicate IsPersistent(sub: SubStore) {
    sub.IavlStore? || sub.DBAdapter?
  }

  function LastCommitIDOf(lib: Library, sub: SubStore): CommitID {
    match sub
    case IavlStore(v, saved, _, _) => CommitID(v, lib.hash(saved))
    case DBAdapter => CommitID(-1, FAKE_HASH)
    case _ => CommitID(0, [])
  }

  function WorkingVersion(sub: SubStore): nat
    requires sub.IavlStore?
  {
    if sub.version == 0 && sub.initialVersion > 0 then sub.initialVersion else sub.version + 1
  }

  /** The tree that saving the working tree would store. */
  function Pending(sub: SubStore): Tree
    requires sub.IavlStore?
  {
    Stamp(sub.working, WorkingVersion(sub))
  }

  /** SaveVersion fails when the version is already saved with another hash. */
  predicate CanSave(lib: Library, h: History, sub: SubStore)
    requires sub.IavlStore?
  {
    WorkingVersion(sub) in h ==> lib.hash(h[WorkingVersion(sub)]) == lib.hash(Pending(sub))
  }

  function SavedHistory(h: History, sub: SubStore): History
    requires sub.IavlStore?
  {
    var v := WorkingVersion(sub);
    if v in h then h else h[v := Pending(sub)]
  }

  function SavedStore(h: History, sub: SubStore): SubStore
    requires sub.IavlStore?
  {
    var v := WorkingVersion(sub);
    var t := SavedHistory(h, sub)[v];
    IavlStore(v, t, t, sub.initialVersion)
  }

  // commitStores, one substore at a time

  /** Whether commitStores leaves the substore alone because it already has the version. */
  predicate AlreadyThere(sub: SubStore, version: nat) {
    sub.IavlStore? && sub.version >= version
  }

  predicate CanCommit(lib: Library, h: History, sub: SubStore, version: nat) {
    sub.IavlStore? && !AlreadyThere(sub, version) ==> CanSave(lib, h, sub)
  }

  function CommittedStore(h: History, sub: SubStore, version: nat): SubStore {
    match sub
    case IavlStore(_, _, _, _) => if AlreadyThere(sub, version) then sub else SavedStore(h, sub)
    case TransientStore(_) => TransientStore(map[])
    case _ => sub
  }

  function CommittedHistory(h: History, sub: SubStore, version: nat): History {
    if sub.IavlStore? && !AlreadyThere(sub, version) then SavedHistory(h, sub) else h
  }

  function CommittedID(lib: Library, h: History, sub: SubStore, version: nat): CommitID {
    if AlreadyThere(sub, version) then CommitID(version, lib.hash(sub.saved))
    else LastCommitIDOf(lib, CommittedStore(h, sub, version))
  }

  datatype Commits = Commits(data: Data, stores: Stores, infos: seq<StoreInfo>)

  /** The entry of a substore in the commit info, if it has one. */
  function Listed(lib: Library, h: History, sub: SubStore, removal: set<StoreKey>, version: nat,
                  key: StoreKey): seq<StoreInfo> {
    if IsPersistent(sub) && key !in removal then [StoreInfo(key.name, CommittedID(lib, h, sub, version))] else []
  }

  function CommitOne(lib: Library, c: Commits, removal: set<StoreKey>, version: nat, key: StoreKey): Option<Commits> {
    if key !in c.stores then None
    else
      var sub, h := c.stores[key], HistoryOf(c.data, key.name);
      if !CanCommit(lib, h, sub, version) then None
      else
        Some(Commits(
               if sub.IavlStore? && !AlreadyThere(sub, version)
               then SaveHistory(c.data, key.name, SavedHistory(h, sub)) else c.data,
               c.stores[key := CommittedStore(h, sub, version)],
               c.infos + Listed(lib, h, sub, removal, version, key)))
  }

  function CommitAll(lib: Library, c: Commits, removal: set<StoreKey>, version: nat,
                     keys: seq<StoreKey>): Option<Commits> {
    if keys == [] then Some(c)
    else
      match CommitAll(lib, c, removal, version, keys[..|keys| - 1])
      case None => None
      case Some(d) => CommitOne(lib, d, removal, version, keys[|keys| - 1])
  }

  ghost predicate DistinctNames(keys: seq<StoreKey>) {
    forall i, j :: 0 <= i < j < |keys| ==> keys[i].name != keys[j].name
  }

  function ListedAll(lib: Library, c: Commits, removal: set<StoreKey>, version: nat,
                     keys: seq<StoreKey>): seq<StoreInfo>
    requires forall k :: k in keys ==> k in c.stores
  {
    if keys == [] then []
    else
      var k := keys[|keys| - 1];
      ListedAll(lib, c, removal, version, keys[..|keys| - 1])
      + Listed(lib, HistoryOf(c.data, k.name), c.stores[k], removal, version, k)
  }

  /** The outcome of the loop, substore by substore: each is committed against its own
      history, whatever the others did. */
  ghost predicate CommitsEach(lib: Library, c: Commits, d: Commits, version: nat, keys: seq<StoreKey>) {
    && d.stores.Keys == c.stores.Keys
    && GetLatestVersion(d.data) == GetLatestVersion(c.data)
    && (forall v :: GetCommitInfo(d.data, v) == GetCommitInfo(c.data, v))
    && (forall k :: k in keys ==>
          && k in c.stores
          && CanCommit(lib, HistoryOf(c.data, k.name), c.stores[k], version)
          && d.stores[k] == CommittedStore(HistoryOf(c.data, k.name), c.stores[k], version)
          && HistoryOf(d.data, k.name) == CommittedHistory(HistoryOf(c.data, k.name), c.stores[k], version))
    && (forall k :: k in c.stores && k !in keys ==> d.stores[k] == c.stores[k])
    && (forall name :: (forall k :: k in keys ==> k.name != name) ==>
          HistoryOf(d.data, name) == HistoryOf(c.data, name))
  }

  lemma CommitOneKeepsRest(lib: Library, d: Commits, removal: set<StoreKey>, version: nat, key: StoreKey)
    requires key in d.stores
    ensures CommitOne(lib, d, removal, version, key).Some?
       <==> CanCommit(lib, HistoryOf(d.data, key.name), d.stores[key], version)
    ensures CommitOne(lib, d, removal, version, key).Some? ==>
              var e := CommitOne(lib, d, removal, version, key).value;
              && GetLatestVersion(e.data) == GetLatestVersion(d.data)
              && (forall v :: GetCommitInfo(e.data, v) == GetCommitInfo(d.data, v))
              && (forall name :: HistoryOf(e.data, name)
                    == if name == key.name then CommittedHistory(HistoryOf(d.data, name), d.stores[key], version)
                       else HistoryOf(d.data, name))
  {
    var sub, h := d.stores[key], HistoryOf(d.data, key.name);
    AfterSaveEverywhere(d.data, key.name, if sub.IavlStore? then SavedHistory(h, sub) else h);
  }

  lemma DistinctInit(keys: seq<StoreKey>)
    requires keys != [] && DistinctNames(keys)
    ensures DistinctNames(keys[..|keys| - 1])
    ensures forall k :: k in keys[..|keys| - 1] ==> k.name != keys[|keys| - 1].name
    ensures forall k :: k in keys <==> k in keys[..|keys| - 1] || k == keys[|keys| - 1]
  {
    assert keys == keys[..|keys| - 1] + [keys[|keys| - 1]];
  }

  /** What the loop does with these keys. */
  ghost predicate CommitAllOutcome(lib: Library, c: Commits, removal: set<StoreKey>, version: nat, keys: seq<StoreKey>)
    requires forall k :: k in keys ==> k in c.stores
  {
    var d := CommitAll(lib, c, removal, version, keys);
    && (d.Some? <==> forall k :: k in keys ==> CanCommit(lib, HistoryOf(c.data, k.name), c.stores[k], version))
    && (d.Some? ==>
          && CommitsEach(lib, c, d.value, version, keys)
          && d.value.infos == c.infos + ListedAll(lib, c, removal, version, keys))
  }

  lemma OneMoreCommitted(lib: Library, c: Commits, d: Commits, removal: set<StoreKey>, version: nat,
                         init: seq<StoreKey>, last: StoreKey)
    requires CommitsEach(lib, c, d, version, init)
    requires last in c.stores && forall k :: k in init ==> k.name != last.name
    ensures CommitOne(lib, d, removal, version, last).Some?
       <==> CanCommit(lib, HistoryOf(c.data, last.name), c.stores[last], version)
    ensures CommitOne(lib, d, removal, version, last).Some? ==>
              var e := CommitOne(lib, d, removal, version, last).value;
              && CommitsEach(lib, c, e, version, init + [last])
              && e.infos == d.infos + Listed(lib, HistoryOf(c.data, last.name), c.stores[last], removal, version, last)
  {
    CommitOneKeepsRest(lib, d, removal, version, last);
    assert last !in init;
  }

  lemma CommitAllSnoc(lib: Library, c: Commits, removal: set<StoreKey>, version: nat, init: seq<StoreKey>,
                      last: StoreKey, keys: seq<StoreKey>)
    requires keys == init + [last] && last in c.stores
    requires forall k :: k in init ==> k in c.stores && k.name != last.name
    requires CommitAllOutcome(lib, c, removal, version, init)
    ensures CommitAllOutcome(lib, c, removal, version, keys)
  {
    assert keys[..|init|] == init;
    if CommitAll(lib, c, removal, version, init).Some? {
      OneMoreCommitted(lib, c, CommitAll(lib, c, removal, version, init).value, removal, version, init, last);
    }
  }

  /** commitStores on substores with different names: it succeeds exactly when each
      substore can be committed, and then treats each one independently. */
  lemma {:induction false} CommitAllCommitsEach(lib: Library, c: Commits, removal: set<StoreKey>, version: nat,
                                                keys: seq<StoreKey>)
    requires DistinctNames(keys) && forall k :: k in keys ==> k in c.stores
    ensures CommitAllOutcome(lib, c, removal, version, keys)
  {
    if keys == [] {
      assert c.infos + [] == c.infos;
    } else {
      var init, last := keys[..|keys| - 1], keys[|keys| - 1];
      DistinctInit(keys);
      CommitAllCommitsEach(lib, c, removal, version, init);
      CommitAllSnoc(lib, c, removal, version, init, last, keys);
    }
  }

  // Looking up entries of a commit info

  /** Entries as a map from names, later ones winning. */
  function FindInfo(infos: seq<StoreInfo>, name: Key): Option<CommitID> {
    if infos == [] then None
    else if infos[|infos| - 1].name == name then Some(infos[|infos| - 1].commitID)
    else FindInfo(infos[..|infos| - 1], name)
  }

  /** getCommitID: the zero id stands for an absent entry. */
  function GetCommitID(infos: seq<StoreInfo>, name: Key): CommitID {
    match FindInfo(infos, name)
    case Some(id) => id
    case None => CommitID(0, [])
  }

  lemma FindInfoSnoc(infos: seq<StoreInfo>, more: seq<StoreInfo>, name: Key)
    requires |more| <= 1
    ensures FindInfo(infos + more, name)
         == if more != [] && more[0].name == name then Some(more[0].commitID) else FindInfo(infos, name)
  {
    if more == [] {
      assert infos + more == infos;
    } else {
      assert (infos + more)[..|infos + more| - 1] == infos;
    }
  }

  function ListedID(lib: Library, h: History, sub: SubStore, removal: set<StoreKey>, version: nat,
                    key: StoreKey): Option<CommitID> {
    if IsPersistent(sub) && key !in removal then Some(CommittedID(lib, h, sub, version)) else None
  }

  /** Every persistent substore that is not being removed is listed under its own id. */
  lemma {:induction false} ListedAllFind(lib: Library, c: Commits, removal: set<StoreKey>, version: nat,
                                         keys: seq<StoreKey>, name: Key)
    requires DistinctNames(keys) && forall k :: k in keys ==> k in c.stores
    ensures var infos := ListedAll(lib, c, removal, version, keys);
            && (forall k :: k in keys && k.name == name ==>
                  FindInfo(infos, name) == ListedID(lib, HistoryOf(c.data, name), c.stores[k], removal, version, k))
            && ((forall k :: k in keys ==> k.name != name) ==> FindInfo(infos, name) == None)
  {
    if keys != [] {
      var init, last := keys[..|keys| - 1], keys[|keys| - 1];
      DistinctInit(keys);
      ListedAllFind(lib, c, removal, version, init, name);
      FindInfoSnoc(ListedAll(lib, c, removal, version, init),
                   Listed(lib, HistoryOf(c.data, last.name), c.stores[last], removal, version, last), name);
    }
  }

  /** The names and hashes a commit info is hashed over. */
  function HashesOf(infos: seq<StoreInfo>): map<Key, Hash> {
    if infos == [] then map[]
    else HashesOf(infos[..|infos| - 1])[infos[|infos| - 1].name := infos[|infos| - 1].commitID.hash]
  }

  /** A commit info is hashed over the names of its entries, each with the hash found under it. */
  lemma {:induction false} HashesOfExactly(infos: seq<StoreInfo>, name: Key)
    ensures name in HashesOf(infos) <==> exists i :: 0 <= i < |infos| && infos[i].name == name
    ensures name in HashesOf(infos) <==> FindInfo(infos, name).Some?
    ensures name in HashesOf(infos) ==> HashesOf(infos)[name] == FindInfo(infos, name).value.hash
  {
    if infos != [] {
      var n := |infos| - 1;
      HashesOfExactly(infos[..n], name);
      if infos[n].name == name { assert infos[n].name == name; }
    }
  }

  function InfoHash(lib: Library, info: CommitInfo): Hash {
    lib.root(HashesOf(info.storeInfos))
  }

  /** The entries WorkingHash hashes. */
  function WorkingInfos(lib: Library, stores: Stores, removal: set<StoreKey>, keys: seq<StoreKey>): seq<StoreInfo>
    requires forall k :: k in keys ==> k in stores
  {
    if keys == [] then []
    else
      var k := keys[|keys| - 1];
      WorkingInfos(lib, stores, removal, keys[..|keys| - 1])
      + if stores[k].IavlStore? && k !in removal
        then [StoreInfo(k.name, CommitID(0, lib.hash(Pending(stores[k]))))] else []
  }

  /** The entries buildCommitInfo writes. */
  function BuiltInfos(lib: Library, stores: Stores, keys: seq<StoreKey>): seq<StoreInfo>
    requires forall k :: k in keys ==> k in stores
  {
    if keys == [] then []
    else
      var k := keys[|keys| - 1];
      BuiltInfos(lib, stores, keys[..|keys| - 1])
      + if IsPersistent(stores[k]) then [StoreInfo(k.name, LastCommitIDOf(lib, stores[k]))] else []
  }

  lemma {:induction false} BuiltInfosFind(lib: Library, stores: Stores, keys: seq<StoreKey>, name: Key)
    requires DistinctNames(keys) && forall k :: k in keys ==> k in stores
    ensures var infos := BuiltInfos(lib, stores, keys);
            && (forall k :: k in keys && k.name == name ==>
                  FindInfo(infos, name)
                  == (if IsPersistent(stores[k]) then Some(LastCommitIDOf(lib, stores[k])) else None))
            && ((forall k :: k in keys ==> k.name != name) ==> FindInfo(infos, name) == None)
  {
    if keys != [] {
      var init, last := keys[..|keys| - 1], keys[|keys| - 1];
      DistinctInit(keys);
      BuiltInfosFind(lib, stores, init, name);
      FindInfoSnoc(BuiltInfos(lib, stores, init),
                   if IsPersistent(stores[last])
                     then [StoreInfo(last.name, LastCommitIDOf(lib, stores[last]))] else [], name);
    }
  }

  // The root store

  /** Everything a root store knows, together with its database. */
  datatype View = View(
    data: Data,
    lastInfo: Option<CommitInfo>,
    params: map<StoreKey, StoreType>,
    stores: Stores,
    byName: map<Key, StoreKey>,
    initialVersion: nat,
    removal: set<StoreKey>)

  /** NewStore */
  function NewView(data: Data): View {
    View(data, None, map[], map[], map[], 0, {})
  }

  /** SetInitialVersion */
  function InitialVersionSet(view: View, version: nat): View {
    view.(initialVersion := version,
          stores := map k | k in view.stores ::
                      if view.stores[k].IavlStore? then view.stores[k].(initialVersion := version) else view.stores[k])
  }

  function InfoVersion(info: Option<CommitInfo>): int {
    if info.Some? then info.value.version else 0
  }

  /** The version the next Commit produces. */
  function NextVersion(view: View): int {
    if InfoVersion(view.lastInfo) == 0 && view.initialVersion > 1 then view.initialVersion
    else InfoVersion(view.lastInfo) + 1
  }

  function NamesOf(keys: set<StoreKey>): set<Key> {
    set k | k in keys :: k.name
  }

  /** What Commit leaves when commitStores went through `keys`, which it visits in name order. */
  function CommitView(lib: Library, view: View, keys: seq<StoreKey>): Option<View> {
    var version := NextVersion(view);
    if version < 1 then None
    else
      match CommitAll(lib, Commits(view.data, view.stores, []), view.removal, version, keys)
      case None => None
      case Some(c) =>
        var info := CommitInfo(version, c.infos);
        var gone := view.removal * view.stores.Keys;
        Some(View(Flushed(c.data, version, info), Some(info), view.params - gone, c.stores - gone,
                  view.byName - NamesOf(gone), view.initialVersion, {}))
  }

  /** keys lists every store key once, in the order of the names. */
  ghost predicate InNameOrder(keys: seq<StoreKey>, all: set<StoreKey>) {
    && (forall k :: k in keys <==> k in all)
    && (forall i, j :: 0 <= i < j < |keys| ==> keys[i] != keys[j] && !Less(keys[j].name, keys[i].name))
  }

  ghost predicate NamesDiffer(all: set<StoreKey>) {
    forall a, b :: a in all && b in all && a.name == b.name ==> a == b
  }

  function Names(keys: seq<StoreKey>): seq<Key> {
    seq(|keys|, i requires 0 <= i < |keys| => keys[i].name)
  }

  lemma NamesSorted(a: seq<StoreKey>, all: set<StoreKey>)
    requires InNameOrder(a, all) && NamesDiffer(all)
    ensures StrictlySorted(Names(a))
  {
    forall i, j | 0 <= i < j < |a|
      ensures Less(a[i].name, a[j].name)
    {
      assert a[i] in all && a[j] in all;
      LessTotal(a[i].name, a[j].name);
    }
  }

  /** With different names there is only one name order. */
  lemma NameOrderUnique(a: seq<StoreKey>, b: seq<StoreKey>, all: set<StoreKey>)
    requires InNameOrder(a, all) && InNameOrder(b, all) && NamesDiffer(all)
    ensures a == b
  {
    NamesSorted(a, all);
    NamesSorted(b, all);
    forall n
      ensures n in Names(a) <==> n in Names(b)
    {
      if i :| 0 <= i < |a| && a[i].name == n {
        assert a[i] in b;
        var j :| 0 <= j < |b| && b[j] == a[i];
        assert Names(b)[j] == n;
      }
      if i :| 0 <= i < |b| && b[i].name == n {
        assert b[i] in a;
        var j :| 0 <= j < |a| && a[j] == b[i];
        assert Names(a)[j] == n;
      }
    }
    SortedUnique(Names(a), Names(b));
    forall i | 0 <= i < |a|
      ensures a[i] == b[i]
    {
      assert Names(a)[i] == Names(b)[i];
      assert a[i] in all && b[i] in all;
    }
  }

  lemma OrderedKeysDistinct(keys: seq<StoreKey>, all: set<StoreKey>)
    requires InNameOrder(keys, all) && NamesDiffer(all)
    ensures DistinctNames(keys)
  {
  }
}

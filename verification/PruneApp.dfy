// cmd/pruner.go PruneAppState, the pruning of the commit infos that follows it, and
// what both together leave of the application database: a state that still loads.

module PruneApps {
  import opened Wrappers
  import opened Bytes
  import opened Decimal
  import opened Databases
  import opened HeightRanges
  import opened HeightRangesExact
  import opened BlockStores
  import opened Iavl
  import opened MultiStores
  import opened MultiStoreLoading
  import opened MultiStoreTheorems
  import opened RootStores

  // Loading the latest version

  function MountKey(name: Key): StoreKey {
    Mounted(name, KVKind)
  }

  function MountKeys(names: set<Key>): set<StoreKey> {
    set n | n in names :: MountKey(n)
  }

  /** The IAVL stores with the given names, mounted. */
  function KVMounts(names: set<Key>): map<StoreKey, StoreType> {
    map k | k in MountKeys(names) :: TypeIAVL
  }

  /** Every named store has, on disk, the version the metadata names. */
  ghost predicate Loadable(data: Data, names: set<Key>) {
    var v := GetLatestVersion(data);
    && v >= 1
    && GetCommitInfo(data, v).Some?
    && forall n :: n in names ==>
         GetCommitID(GetCommitInfo(data, v).value.storeInfos, n).version == v && v in HistoryOf(data, n)
  }

  /** A store on which only those names are mounted. */
  ghost predicate Mounts(view: View, names: set<Key>) {
    view.params == KVMounts(names)
  }

  lemma KVMountsFacts(names: set<Key>)
    ensures forall k :: k in KVMounts(names) <==> k.Mounted? && k.kind == KVKind && k.name in names
    ensures forall n :: n in names ==> MountKey(n) in KVMounts(names)
    ensures NamesDiffer(KVMounts(names).Keys)
  {
  }

  ghost predicate LoadsNamedIff(lib: Library, data: Data, infos: seq<StoreInfo>, v: nat, n: Key) {
    var ld := LoadKey(lib, data, infos, v, NO_UPGRADES, MountKey(n), TypeIAVL);
    && (ld.Some? <==> GetCommitID(infos, n).version == v && v in HistoryOf(data, n))
    && (ld.Some? ==> ld.value == Loaded(IavlStore(v, HistoryOf(data, n)[v], HistoryOf(data, n)[v], 0), None))
  }

  lemma NamedStoreLoads(lib: Library, data: Data, infos: seq<StoreInfo>, v: nat, n: Key)
    requires v >= 1
    ensures LoadsNamedIff(lib, data, infos, v, n)
  {
  }

  /** LoadLatestVersion succeeds exactly when the disk is loadable, and then each store
      has its tree of the latest version. */
  lemma LoadsIff(lib: Library, view: View, names: set<Key>, keys: seq<StoreKey>)
    requires Mounts(view, names) && Enumerates(keys, view.params.Keys) && GetLatestVersion(view.data) >= 1
    ensures LoadView(lib, view, GetLatestVersion(view.data), NO_UPGRADES, keys).Some? <==> Loadable(view.data, names)
    ensures Loadable(view.data, names) ==>
              var after, v := LoadView(lib, view, GetLatestVersion(view.data), NO_UPGRADES,
                                       keys).value, GetLatestVersion(view.data);
              && after.lastInfo == GetCommitInfo(view.data, v)
              && after.data == view.data && after.params == view.params
              && (forall k :: k in after.stores <==> k in view.params)
              && forall n :: n in names ==>
                   after.stores[MountKey(n)] == IavlStore(v, HistoryOf(view.data, n)[v], HistoryOf(view.data, n)[v], 0)
  {
    var v := GetLatestVersion(view.data);
    KVMountsFacts(names);
    EnumeratedNamesDistinct(keys, view.params.Keys);
    if GetCommitInfo(view.data, v).Some? {
      var infos := GetCommitInfo(view.data, v).value.storeInfos;
      forall k | k in keys
        ensures k == MountKey(k.name) && k.name in names && view.params[k] == TypeIAVL
      {
      }
      LoadAllLoadsEach(lib, view.data, infos, v, NO_UPGRADES, view.params, Loading(map[], view.removal), keys);
      forall n | n in names
        ensures MountKey(n) in keys && LoadsNamedIff(lib, view.data, infos, v, n)
      {
        NamedStoreLoads(lib, view.data, infos, v, n);
      }
    }
  }

  // PruneAppState

  /** The stores worth pruning: those with a hash. */
  function NamedStores(infos: seq<StoreInfo>): seq<Key> {
    if infos == [] then []
    else
      var last := infos[|infos| - 1];
      NamedStores(infos[..|infos| - 1]) + if last.commitID.hash != [] then [last.name] else []
  }

  function NamesToMount(data: Data): seq<Key> {
    var v := GetLatestVersion(data);
    if v >= 1 && GetCommitInfo(data, v).Some? then NamedStores(GetCommitInfo(data, v).value.storeInfos) else []
  }

  function MountedNames(data: Data): set<Key> {
    Elements(NamesToMount(data))
  }

  lemma {:induction false} NamedExactly(infos: seq<StoreInfo>, n: Key)
    ensures n in NamedStores(infos)
       <==> exists i :: 0 <= i < |infos| && infos[i].name == n && |infos[i].commitID.hash| >= 1
  {
    if infos != [] {
      var last := |infos| - 1;
      NamedExactly(infos[..last], n);
      if infos[last].name == n && |infos[last].commitID.hash| >= 1 { assert n in NamedStores(infos); }
    }
  }

  /** The stores that are mounted to be pruned: those the latest commit info lists with a
      hash that is not empty. */
  lemma MountedExactly(data: Data, n: Key)
    requires GetLatestVersion(data) >= 1 && GetCommitInfo(data, GetLatestVersion(data)).Some?
    ensures var infos := GetCommitInfo(data, GetLatestVersion(data)).value.storeInfos;
            n in MountedNames(data)
            <==> exists i :: 0 <= i < |infos| && infos[i].name == n && |infos[i].commitID.hash| >= 1
  {
    NamedExactly(GetCommitInfo(data, GetLatestVersion(data)).value.storeInfos, n);
  }

  /** NewKVStoreKeys panics when a name is a prefix of another, or occurs twice. */
  predicate PrefixFree(names: seq<Key>) {
    forall i, j :: 0 <= i < |names| && 0 <= j < |names| && i != j ==> !(names[i] <= names[j])
  }

  lemma {:induction false} PrefixComesFirst(a: Key, b: Key)
    requires a <= b
    ensures a == b || Less(a, b)
  {
    if a == [] {
    } else {
      PrefixComesFirst(a[1..], b[1..]);
      assert a == [a[0]] + a[1..] && b == [b[0]] + b[1..];
    }
  }

  lemma {:induction false} PrefixOfBetween(a: Key, b: Key, c: Key)
    requires a <= b && !Less(c, a) && !Less(b, c)
    ensures a <= c
  {
    if a != [] {
      PrefixOfBetween(a[1..], b[1..], c[1..]);
      assert a == [a[0]] + a[1..] && c == [c[0]] + c[1..];
    }
  }

  /** In the byte order of the names, in which a commit info lists them, it is enough to
      compare neighbours. */
  lemma PrefixFreeIff(names: seq<Key>)
    requires forall i, j :: 0 <= i < j < |names| ==> !Less(names[j], names[i])
    ensures PrefixFree(names) <==> forall i :: 0 < i < |names| ==> !(names[i - 1] <= names[i])
  {
    if !PrefixFree(names) {
      var i, j :| 0 <= i < |names| && 0 <= j < |names| && i != j && names[i] <= names[j];
      LessIrreflexive(names[j]);
      if i < j {
        PrefixOfBetween(names[i], names[j], names[i + 1]);
        assert names[i + 1 - 1] <= names[i + 1];
      } else {
        PrefixComesFirst(names[i], names[j]);
        PrefixOfBetween(names[j], names[i], names[j + 1]);
        assert names[j + 1 - 1] <= names[j + 1];
      }
    }
  }

  datatype Outcome =
    | Done(target: Option<int>)  // the height pruned up to, if there was anything to prune
    | Failed
    | KeyCollision               // NewKVStoreKeys panics
    | IndexOutOfRange            // the version to prune up to is looked up past the end

  /** The index of the version below which to prune: the larger of two numbers, the first
      computed in signed 64-bit arithmetic from an unsigned flag. */
  function PruneIndex(versions: nat, keepVersions: nat): int {
    var idx := ToInt64(versions - ToInt64(keepVersions));
    if idx > versions - 1 then idx else versions - 1
  }

  predicate KeepVersionsFit(versions: nat, keepVersions: nat) {
    1 <= keepVersions <= 0x8000_0000_0000_0000 + versions
  }

  /** The index is in range exactly for a flag from 1 to 2^63 plus the number of versions,
      and then always that of the newest version, whatever the flag. */
  lemma KeepVersionsIsIgnored(versions: nat, keepVersions: nat)
    requires 1 <= versions <= MAX_INT64 && keepVersions <= MAX_UINT64
    ensures 0 <= PruneIndex(versions, keepVersions) < versions <==> KeepVersionsFit(versions, keepVersions)
    ensures KeepVersionsFit(versions, keepVersions) ==> PruneIndex(versions, keepVersions) == versions - 1
    ensures PruneIndex(versions, keepVersions) >= versions - 1
  {
    if keepVersions <= MAX_INT64 {
      assert ToInt64(keepVersions) == keepVersions;
    } else {
      assert ToInt64(keepVersions) == keepVersions - 0x1_0000_0000_0000_0000;
    }
  }

  /** A flag of 0, and one of 2^64-1, which is taken for -1, index past the end. */
  lemma KeepVersionsPastTheEnd(versions: nat)
    requires 1 <= versions < MAX_INT64
    ensures PruneIndex(versions, 0) == versions
    ensures PruneIndex(versions, MAX_UINT64) == versions + 1
  {
    assert ToInt64(MAX_UINT64) == -1;
  }

  /** An int can hold the number of versions of every store. */
  ghost predicate VersionsFit(data: Data) {
    forall n :: |HistoryOf(data, n)| <= MAX_INT64
  }

  /** The store after mounting those names on a new one. */
  function MountedView(data: Data, names: set<Key>): View {
    NewView(data).(params := KVMounts(names), byName := map n | n in names :: MountKey(n))
  }

  lemma OneMoreMount(data: Data, names: set<Key>, n: Key)
    ensures MountedView(data, {}) == NewView(data)
    ensures n !in names ==> MountKey(n) !in MountedView(data, names).params && n !in MountedView(data, names).byName
    ensures MountedView(data, names + {n}).params == MountedView(data, names).params[MountKey(n) := TypeIAVL]
    ensures MountedView(data, names + {n}).byName == MountedView(data, names).byName[n := MountKey(n)]
  {
    KVMountsFacts(names);
    KVMountsFacts(names + {n});
    assert KVMounts({}) == map[] && (map m: Key | m in {} :: MountKey(m)) == map[];
  }

  method MountOne(store: RootStore, ghost mounted: set<Key>, n: Key)
    requires n !in mounted && store.V() == MountedView(store.db.data, mounted)
    modifies store
    ensures store.V() == MountedView(store.db.data, mounted + {n})
  {
    OneMoreMount(store.db.data, mounted, n);
    var ok := store.MountStoreWithDB(MountKey(n), TypeIAVL);
  }

  method MountAll(store: RootStore, names: set<Key>)
    requires store.V() == NewView(store.db.data)
    modifies store
    ensures store.V() == MountedView(store.db.data, names)
  {
    var todo := names;
    ghost var mounted := {};
    OneMoreMount(store.db.data, {}, []);
    while todo != {}
      invariant mounted !! todo && mounted + todo == names
      invariant store.V() == MountedView(store.db.data, mounted)
    {
      var n :| n in todo;
      MountOne(store, mounted, n);
      mounted := mounted + {n};
      todo := todo - {n};
    }
    assert mounted == names;
  }

  method CollectNames(infos: seq<StoreInfo>) returns (names: seq<Key>)
    ensures names == NamedStores(infos)
  {
    names := [];
    var i := 0;
    while i < |infos|
      invariant 0 <= i <= |infos|
      invariant names == NamedStores(infos[..i])
    {
      assert infos[..i + 1][..i] == infos[..i];
      if |infos[i].commitID.hash| > 0 {
        names := names + [infos[i].name];
      }
      i := i + 1;
    }
    assert infos[..i] == infos;
  }

  /** The stores of a root store on which those names are mounted and loaded. */
  ghost predicate LoadedStores(stores: Stores, names: set<Key>) {
    && (forall k :: k in stores <==> k in KVMounts(names))
    && forall k :: k in stores ==> stores[k].IavlStore?
  }

  lemma FirstIsListed(keys: seq<StoreKey>, all: set<StoreKey>)
    requires keys != [] && Enumerates(keys, all)
    ensures keys[0] in all
  {
  }

  lemma NothingMounted(view: View, keys: seq<StoreKey>)
    requires Mounts(view, {}) && Enumerates(keys, view.params.Keys)
    ensures keys == []
  {
    KVMountsFacts({});
    if keys != [] { FirstIsListed(keys, view.params.Keys); }
  }

  /** The latest version of the named stores, loaded: always for version 0, when none is mounted. */
  lemma LatestLoaded(lib: Library, view: View, names: set<Key>, keys: seq<StoreKey>)
    requires Mounts(view, names) && Enumerates(keys, view.params.Keys)
    requires GetLatestVersion(view.data) == 0 ==> names == {}
    ensures var v := GetLatestVersion(view.data);
            && (LoadView(lib, view, v, NO_UPGRADES, keys).Some? <==> v == 0 || Loadable(view.data, names))
            && (LoadView(lib, view, v, NO_UPGRADES, keys).Some? ==>
                  LoadedStores(LoadView(lib, view, v, NO_UPGRADES, keys).value.stores, names))
  {
    KVMountsFacts(names);
    if GetLatestVersion(view.data) >= 1 {
      LoadsIff(lib, view, names, keys);
    } else {
      NothingMounted(view, keys);
    }
  }

  /** The versions of one store, in ascending order. */
  ghost predicate Ascends(s: seq<nat>, h: History) {
    && (forall v :: v in s <==> v in h)
    && (forall i, j :: 0 <= i < j < |s| ==> s[i] < s[j])
  }

  lemma LastIsLatest(versions: seq<nat>, h: History)
    requires |versions| > 0 && Ascends(versions, h)
    ensures versions[|versions| - 1] == Latest(h)
  {
    assert versions[0] in h;
    assert h.Keys != {};
    assert Latest(h) in h;
    var i :| 0 <= i < |versions| && versions[i] == Latest(h);
    assert versions[|versions| - 1] in versions;
  }

  lemma {:induction false} AscendingSize(s: seq<nat>, all: set<nat>)
    requires forall v :: v in s <==> v in all
    requires forall i, j :: 0 <= i < j < |s| ==> s[i] < s[j]
    ensures |s| == |all|
  {
    if s == [] {
      assert all == {};
    } else {
      var init, last := s[..|s| - 1], s[|s| - 1];
      assert s == init + [last];
      AscendingSize(init, all - {last});
    }
  }

  /** What is known of the versions found, and that some are found if any store is mounted. */
  lemma VersionsOfSome(data: Data, names: set<Key>, stores: Stores, versions: seq<nat>, key: Option<StoreKey>)
    requires LoadedStores(stores, names)
    requires key == None ==> versions == [] && forall k :: k in stores ==> !stores[k].IavlStore?
    requires key.Some? ==> key.value in stores && Ascends(versions, HistoryOf(data, key.value.name))
    ensures Loadable(data, names) && versions == [] ==> names == {}
    ensures versions != [] ==>
              && key.Some? && key.value.name in names
              && |versions| == |HistoryOf(data, key.value.name)|
              && versions[|versions| - 1] == Latest(HistoryOf(data, key.value.name))
  {
    KVMountsFacts(names);
    assert forall n :: n in names ==> MountKey(n) in stores;
    if versions != [] {
      LastIsLatest(versions, HistoryOf(data, key.value.name));
      AscendingSize(versions, HistoryOf(data, key.value.name).Keys);
    }
  }

  /** PruneAppState: the latest version is loaded, and what precedes the newest version of
      one store, the one that was chosen for its versions, is pruned from all of them. */
  method PruneAppState(lib: Library, db: Database<Record>, keepVersions: nat)
    returns (r: Outcome, ghost chosen: Key, ghost stores: Stores, ghost order: seq<StoreKey>)
    requires keepVersions <= MAX_UINT64 && VersionsFit(db.data)
    modifies db
    ensures r == KeyCollision <==> !PrefixFree(NamesToMount(old(db.data)))
    ensures GetLatestVersion(old(db.data)) == 0 ==> r == Done(None)
    ensures GetLatestVersion(old(db.data)) >= 1 && PrefixFree(NamesToMount(old(db.data))) ==>
              (r == Failed <==> !Loadable(old(db.data), MountedNames(old(db.data))))
    ensures GetLatestVersion(old(db.data)) >= 1 && r == Done(None) ==> MountedNames(old(db.data)) == {}
    ensures r == IndexOutOfRange || (r.Done? && r.target.Some?) ==>
              && chosen in MountedNames(old(db.data))
              && (r.Done? <==> KeepVersionsFit(|HistoryOf(old(db.data), chosen)|, keepVersions))
    ensures !(r.Done? && r.target.Some?) ==> db.data == old(db.data)
    ensures r.Done? && r.target.Some? ==>
              && r.target.value == Latest(HistoryOf(old(db.data), chosen)) - 1
              && LoadedStores(stores, MountedNames(old(db.data))) && Enumerates(order, stores.Keys)
              && db.data == PruneAll(old(db.data), stores, r.target.value, order)
  {
    chosen, stores, order := [], map[], [];
    var appStore := new RootStore(lib, db);
    var ver := GetLatestVersion(db.data);
    var storeNames: seq<Key> := [];
    if ver != 0 {
      var cInfo := GetCommitInfo(db.data, ver);
      if cInfo == None {
        return Failed, chosen, stores, order;
      }
      storeNames := CollectNames(cInfo.value.storeInfos);
    }
    if !PrefixFree(storeNames) {
      return KeyCollision, chosen, stores, order;
    }
    ghost var names := Elements(storeNames);
    MountAll(appStore, Elements(storeNames));
    ghost var mounted := appStore.V();
    var ok, loadOrder := appStore.LoadLatestVersion();
    LatestLoaded(lib, mounted, names, loadOrder);
    if !ok {
      return Failed, chosen, stores, order;
    }
    stores := appStore.stores;
    var versions, key := appStore.GetAllVersions();
    r := Done(None);
    VersionsOfSome(db.data, names, stores, versions, key);
    if |versions| > 0 {
      chosen := key.value.name;
      KeepVersionsIsIgnored(|versions|, keepVersions);
      var idx := PruneIndex(|versions|, keepVersions);
      if idx >= |versions| {
        return IndexOutOfRange, chosen, stores, order;
      }
      var targetHeight := versions[idx] - 1;
      order := appStore.PruneStores(targetHeight);
      r := Done(Some(targetHeight));
    }
  }

  lemma {:induction false} AscendingExists(all: set<nat>) returns (s: seq<nat>)
    ensures forall v :: v in s <==> v in all
    ensures forall i, j :: 0 <= i < j < |s| ==> s[i] < s[j]
  {
    s := [];
    if all != {} {
      var top := MaxVersion(all);
      var init := AscendingExists(all - {top});
      assert forall i :: 0 <= i < |init| ==> init[i] in all - {top};
      s := init + [top];
    }
  }

  // What pruning keeps

  /** After PruneStores(target) the latest version is still there exactly when the target
      is below it, or the store has nothing newer than the target either. */
  lemma LatestSurvivesIff(h: History, v: nat, target: int)
    requires v in h
    ensures v in DeleteVersionsTo(h, target) <==> target < v || Latest(h) <= target
    ensures v in DeleteVersionsTo(h, target) ==> DeleteVersionsTo(h, target)[v] == h[v]
  {
  }

  /** What the metadata names: the commit info and, in each store, the tree. */
  ghost predicate SameState(before: Data, after: Data, names: set<Key>) {
    var v := GetLatestVersion(before);
    && GetLatestVersion(after) == v
    && GetCommitInfo(after, v) == GetCommitInfo(before, v)
    && forall n :: n in names ==>
         v in HistoryOf(before, n) && v in HistoryOf(after, n) && HistoryOf(after, n)[v] == HistoryOf(before, n)[v]
  }

  lemma StoresPruned(data: Data, names: set<Key>, stores: Stores, target: int, order: seq<StoreKey>)
    requires target > 0 && Enumerates(order, stores.Keys) && LoadedStores(stores, names)
    ensures var pruned := PruneAll(data, stores, target, order);
            && GetLatestVersion(pruned) == GetLatestVersion(data)
            && (forall v :: GetCommitInfo(pruned, v) == GetCommitInfo(data, v))
            && (forall n :: n in names ==> HistoryOf(pruned, n) == DeleteVersionsTo(HistoryOf(data, n), target))
  {
    KVMountsFacts(names);
    assert NamesDiffer(stores.Keys);
    EnumeratedNamesDistinct(order, stores.Keys);
    PruneAllPrunesEach(data, stores, target, order);
    forall n | n in names
      ensures HistoryOf(PruneAll(data, stores, target, order), n) == DeleteVersionsTo(HistoryOf(data, n), target)
    {
      assert MountKey(n) in order;
    }
  }

  /** Pruning the versions of the mounted stores keeps the state the metadata names exactly
      when each of them keeps it. */
  lemma PruneStoresKeepsStateIff(data: Data, names: set<Key>, stores: Stores, target: int, order: seq<StoreKey>)
    requires Loadable(data, names) && target > 0
    requires LoadedStores(stores, names) && Enumerates(order, stores.Keys)
    ensures SameState(data, PruneAll(data, stores, target, order), names)
       <==> forall n :: n in names ==> target < GetLatestVersion(data) || Latest(HistoryOf(data, n)) <= target
  {
    StoresPruned(data, names, stores, target, order);
    forall n | n in names
      ensures GetLatestVersion(data) in DeleteVersionsTo(HistoryOf(data, n), target)
         <==> target < GetLatestVersion(data) || Latest(HistoryOf(data, n)) <= target
    {
      LatestSurvivesIff(HistoryOf(data, n), GetLatestVersion(data), target);
    }
  }

  lemma LatestIsLast(h: History, v: nat)
    requires v in h
    ensures v <= Latest(h) && Latest(h) in h
  {
    assert h.Keys != {};
  }

  /** PruneAppState keeps that state exactly when the store it chose has nothing newer. */
  lemma ChosenStoreDecides(data: Data, names: set<Key>, stores: Stores, chosen: Key, order: seq<StoreKey>)
    requires Loadable(data, names) && chosen in names
    requires LoadedStores(stores, names) && Enumerates(order, stores.Keys)
    ensures SameState(data, PruneAll(data, stores, Latest(HistoryOf(data, chosen)) - 1, order), names)
       <==> Latest(HistoryOf(data, chosen)) == GetLatestVersion(data)
  {
    var target := Latest(HistoryOf(data, chosen)) - 1;
    LatestIsLast(HistoryOf(data, chosen), GetLatestVersion(data));
    if target > 0 {
      PruneStoresKeepsStateIff(data, names, stores, target, order);
    }
  }

  /** The latest version is the newest of every mounted store: no commit was interrupted. */
  ghost predicate NothingAhead(data: Data, names: set<Key>) {
    forall n :: n in names ==> Latest(HistoryOf(data, n)) == GetLatestVersion(data)
  }

  /** Whichever store is chosen, PruneAppState keeps the state the metadata names: exactly
      when no store is ahead of the metadata. */
  lemma EveryChoiceKeepsStateIff(data: Data, names: set<Key>, stores: Stores, order: seq<StoreKey>)
    requires Loadable(data, names) && LoadedStores(stores, names) && Enumerates(order, stores.Keys)
    ensures (forall n :: n in names ==>
               SameState(data, PruneAll(data, stores, Latest(HistoryOf(data, n)) - 1, order), names))
       <==> NothingAhead(data, names)
  {
    forall n | n in names
      ensures SameState(data, PruneAll(data, stores, Latest(HistoryOf(data, n)) - 1, order), names)
         <==> Latest(HistoryOf(data, n)) == GetLatestVersion(data)
    {
      ChosenStoreDecides(data, names, stores, n, order);
    }
  }

  const ONE_STORE: Key := [97]

  /** One store that saved version 2 before Commit could write the metadata of version 2. */
  function InterruptedData(): Data {
    map[LATEST_KEY := LatestVersion(1),
        InfoKey(1) := Info(CommitInfo(1, [StoreInfo(ONE_STORE, CommitID(1, [1]))])),
        TreeKey(ONE_STORE) := Versions(map[1 := Empty, 2 := Empty])]
  }

  /** After an interrupted commit the database still loads, but pruning up to one below
      the newest version of the store deletes the version the metadata names. */
  lemma InterruptedCommitLosesState(stores: Stores)
    requires LoadedStores(stores, {ONE_STORE}) && Enumerates([MountKey(ONE_STORE)], stores.Keys)
    ensures var data, order := InterruptedData(), [MountKey(ONE_STORE)];
            && Loadable(data, {ONE_STORE})
            && Latest(HistoryOf(data, ONE_STORE)) - 1 == 1
            && !Loadable(PruneAll(data, stores, 1, order), {ONE_STORE})
  {
    var data, order := InterruptedData(), [MountKey(ONE_STORE)];
    KeysApart(1, 1, ONE_STORE, ONE_STORE);
    var h := HistoryOf(data, ONE_STORE);
    assert h == map[1 := Empty, 2 := Empty];
    assert 2 in h.Keys && h.Keys == {1, 2};
    KVMountsFacts({ONE_STORE});
    StoresPruned(data, {ONE_STORE}, stores, 1, order);
    assert 1 !in DeleteVersionsTo(h, 1);
  }

  /** No key of the current state is a commit info up to the pruned height. */
  lemma StateKeysUntouchable(e: nat, v: nat, name: Key)
    requires v > e
    ensures var jobs := [PlainJob(S, e)];
            && !Touchable(jobs, LATEST_KEY) && !Touchable(jobs, InfoKey(v)) && !Touchable(jobs, TreeKey(name))
  {
    var job := PlainJob(S, e);
    assert LATEST_KEY[|S|..][0] == 108;
    assert TreeKey(name)[|S|..][0] == 107;
    assert InfoKey(v)[|S|..] == Dec(v);
    ValueOfDec(v);
    assert !job.Prunable(LATEST_KEY) && !job.Prunable(TreeKey(name)) && !job.Prunable(InfoKey(v));
  }

  /** pruneAppStore removes commit infos below the pruned height and nothing else, so with
      a height up to the latest version the latest state is untouched. */
  lemma PruneAppStoreKeepsState(data: Data, pruned: Data, pruneHeight: nat)
    requires 1 <= pruneHeight <= GetLatestVersion(data)
    requires KeepsUntouchable(data, pruned, AppJobs(pruneHeight))
    ensures GetLatestVersion(pruned) == GetLatestVersion(data)
    ensures GetCommitInfo(pruned, GetLatestVersion(data)) == GetCommitInfo(data, GetLatestVersion(data))
    ensures forall n :: HistoryOf(pruned, n) == HistoryOf(data, n)
  {
    var v := GetLatestVersion(data);
    StateKeysUntouchable(pruneHeight - 1, v, []);
    forall n
      ensures HistoryOf(pruned, n) == HistoryOf(data, n)
    {
      StateKeysUntouchable(pruneHeight - 1, v, n);
    }
  }

  /** What is left of each store: its newest version and, from version 2 on, nothing else,
      however many versions were to be kept. */
  ghost predicate OnlyNewestLeft(after: Data, names: set<Key>) {
    var v := GetLatestVersion(after);
    v >= 2 ==> forall n :: n in names ==> HistoryOf(after, n).Keys == {v}
  }

  ghost predicate EndIsIn(s: seq<nat>, keep: nat, h: History) {
    forall i :: 0 <= i < |s| && |s| - keep <= i ==> s[i] in h
  }

  /** The newest `keep` versions of each store, counted in its list of versions, are left. */
  ghost predicate NewestLeft(before: Data, after: Data, names: set<Key>, keep: nat) {
    forall n, s :: n in names && Ascends(s, HistoryOf(before, n)) ==> EndIsIn(s, keep, HistoryOf(after, n))
  }

  lemma NewestAlone(h: History, left: History, v: nat)
    requires v in h && Latest(h) == v >= 1 && left == DeleteVersionsTo(h, v - 1)
    ensures left.Keys == {v}
  {
  }

  lemma PruningNothingAhead(before: Data, after: Data, names: set<Key>, stores: Stores, order: seq<StoreKey>, v: nat)
    requires Loadable(before, names) && NothingAhead(before, names) && v == GetLatestVersion(before)
    requires LoadedStores(stores, names) && Enumerates(order, stores.Keys)
    requires after == PruneAll(before, stores, v - 1, order)
    ensures OnlyNewestLeft(after, names)
  {
    if v >= 2 {
      StoresPruned(before, names, stores, v - 1, order);
      forall n | n in names
        ensures HistoryOf(after, n).Keys == {v}
      {
        NewestAlone(HistoryOf(before, n), HistoryOf(after, n), v);
      }
    }
  }

  /** The versions from `since` on. */
  function Since(all: set<nat>, since: nat): set<nat> {
    set u | u in all && u >= since
  }

  /** The newest `keep` versions of the store, or all if it has fewer, are no older than the
      newest version of the chosen store; or everything it has is older. */
  predicate Honours(h: History, chosenLatest: nat, keep: nat) {
    Latest(h) < chosenLatest || |Since(h.Keys, chosenLatest)| >= Min(keep, |h|)
  }

  lemma PrunedHistory(before: Data, after: Data, names: set<Key>, stores: Stores, chosenLatest: nat,
                      order: seq<StoreKey>, n: Key)
    requires Loadable(before, names) && PositiveVersions(before) && chosenLatest >= 1 && n in names
    requires LoadedStores(stores, names) && Enumerates(order, stores.Keys)
    requires after == PruneAll(before, stores, chosenLatest - 1, order)
    ensures HistoryOf(before, n) != map[] && 0 !in HistoryOf(before, n)
    ensures HistoryOf(after, n)
         == if chosenLatest > 1 then DeleteVersionsTo(HistoryOf(before, n), chosenLatest - 1) else HistoryOf(before, n)
  {
    if chosenLatest > 1 { StoresPruned(before, names, stores, chosenLatest - 1, order); }
  }

  /** Of a list whose last m elements are in h: the last `keep` are exactly if there are not more. */
  lemma EndIff(s: seq<nat>, keep: nat, h: History, m: nat)
    requires m <= |s| && forall i :: 0 <= i < |s| ==> (s[i] in h <==> i >= |s| - m)
    ensures EndIsIn(s, keep, h) <==> m >= Min(keep, |s|)
  {
    if m < |s| {
      assert s[|s| - m - 1] !in h;
    }
  }

  lemma SinceOneMore(all: set<nat>, last: nat, since: nat)
    requires last in all && forall v :: v in all ==> v <= last
    ensures last >= since ==> |Since(all, since)| == |Since(all - {last}, since)| + 1
    ensures last < since ==> Since(all, since) == Since(all - {last}, since) == {}
  {
    if last >= since {
      assert Since(all, since) == Since(all - {last}, since) + {last};
    }
  }

  /** In the list of versions those from `since` on come last. */
  lemma {:induction false} SinceIsTheEnd(s: seq<nat>, all: set<nat>, since: nat)
    requires forall v :: v in s <==> v in all
    requires forall i, j :: 0 <= i < j < |s| ==> s[i] < s[j]
    ensures |Since(all, since)| <= |s|
    ensures forall i :: 0 <= i < |s| ==> (s[i] >= since <==> i >= |s| - |Since(all, since)|)
  {
    if s == [] {
      assert Since(all, since) == {};
    } else {
      var init, last := s[..|s| - 1], s[|s| - 1];
      assert s == init + [last];
      assert last !in init;
      SinceIsTheEnd(init, all - {last}, since);
      SinceOneMore(all, last, since);
    }
  }

  lemma EndLeftIff(h: History, left: History, chosenLatest: nat, s: seq<nat>, keep: nat)
    requires Ascends(s, h) && h != map[] && 0 !in h && chosenLatest >= 1
    requires left == if chosenLatest > 1 then DeleteVersionsTo(h, chosenLatest - 1) else h
    ensures EndIsIn(s, keep, left) <==> Honours(h, chosenLatest, keep)
  {
    AscendingSize(s, h.Keys);
    assert |h| == |h.Keys|;
    SinceIsTheEnd(s, h.Keys, chosenLatest);
    forall i | 0 <= i < |s|
      ensures s[i] in left <==> Latest(h) < chosenLatest || s[i] >= chosenLatest
    {
      assert s[i] in s;
    }
    EndIff(s, keep, left, if Latest(h) < chosenLatest then |s| else |Since(h.Keys, chosenLatest)|);
  }

  /** The promise to keep that many versions of every store is met exactly when each store
      honours it, which the database shows beforehand. */
  lemma KeepVersionsHonouredIff(before: Data, after: Data, names: set<Key>, stores: Stores, chosenLatest: nat,
                                order: seq<StoreKey>, keep: nat)
    requires Loadable(before, names) && PositiveVersions(before) && chosenLatest >= 1
    requires LoadedStores(stores, names) && Enumerates(order, stores.Keys)
    requires after == PruneAll(before, stores, chosenLatest - 1, order)
    ensures NewestLeft(before, after, names, keep)
       <==> forall n :: n in names ==> Honours(HistoryOf(before, n), chosenLatest, keep)
  {
    forall n, s | n in names && Ascends(s, HistoryOf(before, n))
      ensures EndIsIn(s, keep, HistoryOf(after, n)) <==> Honours(HistoryOf(before, n), chosenLatest, keep)
    {
      PrunedHistory(before, after, names, stores, chosenLatest, order, n);
      EndLeftIff(HistoryOf(before, n), HistoryOf(after, n), chosenLatest, s, keep);
    }
    forall n | n in names
      ensures exists s :: Ascends(s, HistoryOf(before, n))
    {
      var s := AscendingExists(HistoryOf(before, n).Keys);
      assert Ascends(s, HistoryOf(before, n));
    }
  }

  /** With no store ahead of the metadata: no more than one is to be kept, or no store has more. */
  lemma HonoursIfNothingAhead(h: History, v: nat, keep: nat)
    requires v in h && Latest(h) == v
    ensures Honours(h, v, keep) <==> keep <= 1 || |h| == 1
  {
    assert Since(h.Keys, v) == {v};
    assert |h| == |h.Keys - {v}| + 1;
  }

  /** A database that loads, mounted without a collision, and a height up to its latest version. */
  ghost predicate Startable(data: Data, pruneHeight: nat) {
    && Loadable(data, MountedNames(data)) && PrefixFree(NamesToMount(data))
    && 1 <= pruneHeight <= GetLatestVersion(data)
  }

  /** What PruneAppState did before the commit infos were pruned. */
  ghost predicate StatesPruned(before: Data, mid: Data, names: set<Key>, target: Option<int>, chosen: Key,
                               stores: Stores, order: seq<StoreKey>)
  {
    match target
    case None => mid == before && names == {}
    case Some(t) =>
      && chosen in names && t == Latest(HistoryOf(before, chosen)) - 1
      && LoadedStores(stores, names) && Enumerates(order, stores.Keys)
      && mid == PruneAll(before, stores, t, order)
  }

  lemma StatePrunedIff(before: Data, mid: Data, names: set<Key>, target: Option<int>, chosen: Key,
                       stores: Stores, order: seq<StoreKey>)
    requires Loadable(before, names) && StatesPruned(before, mid, names, target, chosen, stores, order)
    ensures GetLatestVersion(mid) == GetLatestVersion(before)
    ensures SameState(before, mid, names)
       <==> names == {} || Latest(HistoryOf(before, chosen)) == GetLatestVersion(before)
  {
    if target.Some? {
      ChosenStoreDecides(before, names, stores, chosen, order);
      if target.value > 0 { StoresPruned(before, names, stores, target.value, order); }
    }
  }

  lemma PrunedToNewest(before: Data, mid: Data, names: set<Key>, target: Option<int>, chosen: Key,
                       stores: Stores, order: seq<StoreKey>)
    requires Loadable(before, names) && StatesPruned(before, mid, names, target, chosen, stores, order)
    requires NothingAhead(before, names)
    ensures SameState(before, mid, names) && OnlyNewestLeft(mid, names)
  {
    StatePrunedIff(before, mid, names, target, chosen, stores, order);
    if target.Some? {
      PruningNothingAhead(before, mid, names, stores, order, GetLatestVersion(before));
    }
  }

  lemma PrunedKeeping(before: Data, mid: Data, names: set<Key>, target: Option<int>, chosen: Key,
                      stores: Stores, order: seq<StoreKey>, keep: nat)
    requires Loadable(before, names) && StatesPruned(before, mid, names, target, chosen, stores, order)
    requires PositiveVersions(before) && names != {}
    ensures NewestLeft(before, mid, names, keep)
       <==> forall n :: n in names ==> Honours(HistoryOf(before, n), Latest(HistoryOf(before, chosen)), keep)
  {
    LatestIsLast(HistoryOf(before, chosen), GetLatestVersion(before));
    KeepVersionsHonouredIff(before, mid, names, stores, Latest(HistoryOf(before, chosen)), order, keep);
  }

  lemma SameHistoriesSameLeft(before: Data, mid: Data, after: Data, names: set<Key>, keep: nat)
    requires forall n :: HistoryOf(after, n) == HistoryOf(mid, n)
    ensures NewestLeft(before, after, names, keep) <==> NewestLeft(before, mid, names, keep)
  {
  }

  /** Pruning the commit infos afterwards changes none of this. */
  lemma InfosPruned(before: Data, mid: Data, after: Data, names: set<Key>, pruneHeight: nat, keep: nat)
    requires GetLatestVersion(mid) == GetLatestVersion(before) && 1 <= pruneHeight <= GetLatestVersion(before)
    requires KeepsUntouchable(mid, after, AppJobs(pruneHeight))
    ensures SameState(before, after, names) <==> SameState(before, mid, names)
    ensures OnlyNewestLeft(after, names) <==> OnlyNewestLeft(mid, names)
    ensures NewestLeft(before, after, names, keep) <==> NewestLeft(before, mid, names, keep)
  {
    PruneAppStoreKeepsState(mid, after, pruneHeight);
    SameHistoriesSameLeft(before, mid, after, names, keep);
  }

  /** Pruning the application: the states of the stores, then the commit infos. From a
      loadable database the latest state stays, with the same commit info and the same
      trees, exactly when the chosen store has nothing newer; no older state stays. */
  method PruneApplication(lib: Library, db: Database<Record>, keepVersions: nat, pruneHeight: nat)
    returns (r: Outcome, ghost chosen: Key)
    requires keepVersions <= MAX_UINT64 && pruneHeight <= MAX_UINT64 && VersionsFit(db.data)
    modifies db
    ensures Startable(old(db.data), pruneHeight) ==>
      var before, names := old(db.data), MountedNames(old(db.data));
      && (names != {} ==> chosen in names)
      && (r.Done? <==> names == {} || KeepVersionsFit(|HistoryOf(before, chosen)|, keepVersions))
      && (r.Done? ==> (SameState(before, db.data, names)
                       <==> names == {} || Latest(HistoryOf(before, chosen)) == GetLatestVersion(before)))
      && (r.Done? && NothingAhead(before, names) ==>
            SameState(before, db.data, names) && Loadable(db.data, names) && OnlyNewestLeft(db.data, names))
      && (r.Done? && PositiveVersions(before) && names != {} ==>
            (NewestLeft(before, db.data, names, keepVersions)
             <==> forall n :: n in names ==>
                    Honours(HistoryOf(before, n), Latest(HistoryOf(before, chosen)), keepVersions)))
  {
    ghost var before, names := db.data, MountedNames(db.data);
    ghost var stores, order;
    r, chosen, stores, order := PruneAppState(lib, db, keepVersions);
    if !r.Done? {
      return;
    }
    ghost var mid := db.data;
    ghost var states := PruneAppStore(db, pruneHeight);
    if Startable(before, pruneHeight) {
      StatePrunedIff(before, mid, names, r.target, chosen, stores, order);
      if NothingAhead(before, names) { PrunedToNewest(before, mid, names, r.target, chosen, stores, order); }
      if PositiveVersions(before) && names != {} {
        PrunedKeeping(before, mid, names, r.target, chosen, stores, order, keepVersions);
      }
      InfosPruned(before, mid, db.data, names, pruneHeight, keepVersions);
    }
  }

  lemma {:induction false} NamedIsFound(infos: seq<StoreInfo>, name: Key)
    requires name in NamedStores(infos)
    ensures FindInfo(infos, name).Some?
  {
    if infos[|infos| - 1].name != name {
      NamedIsFound(infos[..|infos| - 1], name);
    }
  }

  /** A name in the commit info that Commit wrote is that of a kept persistent store. */
  lemma ListedIsKept(lib: Library, view: View, keys: seq<StoreKey>, after: View, name: Key) returns (k: StoreKey)
    requires NamesDiffer(view.stores.Keys) && InNameOrder(keys, view.stores.Keys)
    requires CommitView(lib, view, keys) == Some(after)
    requires after.lastInfo.Some? && FindInfo(after.lastInfo.value.storeInfos, name).Some?
    ensures k in view.stores && k !in view.removal && k.name == name && IsPersistent(view.stores[k])
  {
    var c := CommitViewParts(lib, view, keys);
    OrderedKeysDistinct(keys, view.stores.Keys);
    ListedAllFind(lib, Commits(view.data, view.stores, []), view.removal, NextVersion(view), keys, name);
    k :| k in keys && k.name == name;
  }

  /** The stores are IAVL stores or live in memory, and none has a version above the next. */
  ghost predicate Prunable(view: View) {
    forall k :: k in view.stores && k !in view.removal ==>
      && !view.stores[k].DBAdapter?
      && forall v :: v in HistoryOf(view.data, k.name) ==> v <= NextVersion(view)
  }

  lemma CommittedName(lib: Library, view: View, keys: seq<StoreKey>, after: View, name: Key, v: int)
    requires Healthy(view) && InNameOrder(keys, view.stores.Keys) && Prunable(view)
    requires CommitView(lib, view, keys) == Some(after) && v == NextVersion(view)
    requires after.lastInfo.Some? && FindInfo(after.lastInfo.value.storeInfos, name).Some?
    ensures GetCommitID(after.lastInfo.value.storeInfos, name).version == v
    ensures v in HistoryOf(after.data, name) && Latest(HistoryOf(after.data, name)) == v
  {
    var k := ListedIsKept(lib, view, keys, after, name);
    OneCommittedProperly(lib, view, keys, k);
    CommitKeepsStore(lib, view, keys, k);
    var h := HistoryOf(after.data, name);
    assert h.Keys != {};
    assert Latest(h) in h;
  }

  /** What an ordinary Commit leaves on disk is what PruneApplication starts from: a
      loadable database without an interrupted commit. */
  lemma CommittedIsPrunable(lib: Library, view: View, keys: seq<StoreKey>, after: View)
    requires Healthy(view) && InNameOrder(keys, view.stores.Keys) && Prunable(view)
    requires CommitView(lib, view, keys) == Some(after)
    ensures GetLatestVersion(after.data) == NextVersion(view) >= 1
    ensures Loadable(after.data, MountedNames(after.data)) && NothingAhead(after.data, MountedNames(after.data))
  {
    CommitKeepsLockstep(lib, view, keys);
    var infos := after.lastInfo.value.storeInfos;
    forall n | n in MountedNames(after.data)
      ensures GetCommitID(infos, n).version == NextVersion(view)
      ensures NextVersion(view) in HistoryOf(after.data, n) && Latest(HistoryOf(after.data, n)) == NextVersion(view)
    {
      NamedIsFound(infos, n);
      CommittedName(lib, view, keys, after, n, NextVersion(view));
    }
  }

  lemma {:induction false} FoundEntry(infos: seq<StoreInfo>, name: Key)
    requires FindInfo(infos, name).Some?
    ensures exists i :: 0 <= i < |infos| && infos[i].name == name && Some(infos[i].commitID) == FindInfo(infos, name)
  {
    var n := |infos| - 1;
    if infos[n].name != name {
      FoundEntry(infos[..n], name);
      var i :| 0 <= i < n && infos[..n][i].name == name && Some(infos[..n][i].commitID) == FindInfo(infos[..n], name);
      assert infos[i] == infos[..n][i];
    }
  }

  /** After a Commit that hashes no substore to the empty hash, the stores mounted to be
      pruned are exactly the kept ones that are not in memory. */
  lemma CommittedAreMounted(lib: Library, view: View, keys: seq<StoreKey>, after: View, n: Key)
    requires Healthy(view) && InNameOrder(keys, view.stores.Keys) && CommitView(lib, view, keys) == Some(after)
    requires forall k :: k in after.stores && after.stores[k].IavlStore? ==> |lib.hash(after.stores[k].saved)| >= 1
    ensures n in MountedNames(after.data)
       <==> exists k :: k in view.stores && k !in view.removal && k.name == n
                        && !view.stores[k].TransientStore? && !view.stores[k].MemoryStore?
  {
    CommitKeepsLockstep(lib, view, keys);
    var infos := after.lastInfo.value.storeInfos;
    MountedExactly(after.data, n);
    NamedExactly(infos, n);
    if n in MountedNames(after.data) {
      NamedIsFound(infos, n);
      var k := ListedIsKept(lib, view, keys, after, n);
    }
    if k :| k in view.stores && k !in view.removal && k.name == n
            && !view.stores[k].TransientStore? && !view.stores[k].MemoryStore? {
      CommitKeepsStore(lib, view, keys, k);
      FoundEntry(infos, n);
    }
  }

  lemma SameStores(lib: Library, data: Data, data2: Data, infos: seq<StoreInfo>, v: nat, params: map<StoreKey,
                   StoreType>, a: seq<StoreKey>, b: seq<StoreKey>, m: Stores, n: Stores)
    requires Enumerates(a, params.Keys) && Enumerates(b, params.Keys)
    requires forall k :: k in params ==>
               LoadKey(lib, data2, infos, v, NO_UPGRADES, k, params[k])
               == LoadKey(lib, data, infos, v, NO_UPGRADES, k, params[k])
    requires LoadsEach(lib, data, infos, v, NO_UPGRADES, params, a, m)
    requires LoadsEach(lib, data2, infos, v, NO_UPGRADES, params, b, n)
    ensures m == n
  {
    forall k | k in params
      ensures k in m && k in n && m[k] == n[k]
    {
      assert k in a && k in b;
    }
    assert m.Keys == params.Keys && n.Keys == params.Keys;
  }

  /** When every store loads the same from two databases, so do all together, in any order. */
  lemma SameLoads(lib: Library, data: Data, data2: Data, infos: seq<StoreInfo>, v: nat, params: map<StoreKey,
                  StoreType>, removal: set<StoreKey>, a: seq<StoreKey>, b: seq<StoreKey>)
    requires Enumerates(a, params.Keys) && Enumerates(b, params.Keys) && NamesDiffer(params.Keys)
    requires forall k :: k in params ==> k.Mounted?
    requires forall k :: k in params ==>
               LoadKey(lib, data2, infos, v, NO_UPGRADES, k, params[k])
               == LoadKey(lib, data, infos, v, NO_UPGRADES, k, params[k])
    ensures LoadAll(lib, data2, infos, v, NO_UPGRADES, params, Loading(map[], removal), b)
         == LoadAll(lib, data, infos, v, NO_UPGRADES, params, Loading(map[], removal), a)
  {
    var start := Loading(map[], removal);
    EnumeratedNamesDistinct(a, params.Keys);
    EnumeratedNamesDistinct(b, params.Keys);
    LoadAllLoadsEach(lib, data, infos, v, NO_UPGRADES, params, start, a);
    LoadAllLoadsEach(lib, data2, infos, v, NO_UPGRADES, params, start, b);
    var m := LoadAll(lib, data, infos, v, NO_UPGRADES, params, start, a);
    var n := LoadAll(lib, data2, infos, v, NO_UPGRADES, params, start, b);
    if m.Some? && n.Some? {
      SameStores(lib, data, data2, infos, v, params, a, b, m.value.stores, n.value.stores);
      assert DroppedAll(NO_UPGRADES, a) == {} && DroppedAll(NO_UPGRADES, b) == {};
    }
  }

  /** A node on the pruned database, with whatever transient and memory stores it mounts
      besides IAVL stores among the named ones, loads what it would have loaded before. */
  lemma SameStateSameLoad(lib: Library, before: View, after: View, names: set<Key>, a: seq<StoreKey>, b: seq<StoreKey>)
    requires SameState(before.data, after.data, names) && GetLatestVersion(before.data) >= 1
    requires after == before.(data := after.data) && NamesDiffer(before.params.Keys)
    requires forall k :: k in before.params ==> k.Mounted? && (before.params[k] == TypeIAVL ==> k.name in names)
    requires Enumerates(a, before.params.Keys) && Enumerates(b, after.params.Keys)
    ensures var v := GetLatestVersion(before.data);
            var x, y := LoadView(lib, before, v, NO_UPGRADES, a), LoadView(lib, after, GetLatestVersion(after.data),
                                 NO_UPGRADES, b);
            && (x.Some? <==> y.Some?)
            && (x.Some? ==> y.value == x.value.(data := after.data))
  {
    var v := GetLatestVersion(before.data);
    if GetCommitInfo(before.data, v).Some? {
      var infos := GetCommitInfo(before.data, v).value.storeInfos;
      forall k | k in before.params
        ensures LoadKey(lib, after.data, infos, v, NO_UPGRADES, k, before.params[k])
             == LoadKey(lib, before.data, infos, v, NO_UPGRADES, k, before.params[k])
      {
      }
      SameLoads(lib, before.data, after.data, infos, v, before.params, before.removal, a, b);
    }
  }
}

// When Commit, a load and a rollback succeed, and what each kind of substore is afterwards,
// read off the commit info, the histories and the fields of the substores alone.

module MultiStoreOutcomes {
  import opened Wrappers
  import opened Bytes
  import opened Iavl
  import opened MultiStores
  import opened MultiStoreLoading
  import opened MultiStoreTheorems

  // Commit

  /** Commit succeeds exactly when no substore that is still behind has another tree, by
      its hash, saved under the version it is about to save. */
  lemma CommitSucceedsIff(lib: Library, view: View, keys: seq<StoreKey>)
    requires NamesDiffer(view.stores.Keys) && InNameOrder(keys, view.stores.Keys)
    ensures CommitView(lib, view, keys).Some?
       <==> && NextVersion(view) >= 1
            && forall k :: k in view.stores && view.stores[k].IavlStore? ==>
                 var sub, h := view.stores[k], HistoryOf(view.data, k.name);
                 sub.version < NextVersion(view) && WorkingVersion(sub) in h ==>
                   lib.hash(h[WorkingVersion(sub)]) == lib.hash(Pending(sub))
  {
    OrderedKeysDistinct(keys, view.stores.Keys);
    if NextVersion(view) >= 1 {
      CommitAllCommitsEach(lib, Commits(view.data, view.stores, []), view.removal, NextVersion(view), keys);
    }
  }

  /** So a Commit whose versions are all new succeeds, on empty stores as well. */
  lemma CommitOfNewVersionsSucceeds(lib: Library, view: View, keys: seq<StoreKey>)
    requires Healthy(view) && InNameOrder(keys, view.stores.Keys)
    requires forall k :: k in view.stores && view.stores[k].IavlStore? ==>
               WorkingVersion(view.stores[k]) !in HistoryOf(view.data, k.name)
    ensures CommitView(lib, view, keys).Some?
  {
    CommitSucceedsIff(lib, view, keys);
  }

  /** What Commit makes of a substore and of its saved versions. */
  ghost predicate CommittedTo(sub: SubStore, h: History, next: int, after: SubStore, h2: History) {
    && (sub.TransientStore? ==> after == TransientStore(map[]) && h2 == h)
    && (sub.MemoryStore? || sub.DBAdapter? ==> after == sub && h2 == h)
    && (sub.IavlStore? && sub.version >= next ==> after == sub && h2 == h)
    && (sub.IavlStore? && sub.version < next ==>
          var n := if sub.version == 0 && sub.initialVersion > 0 then sub.initialVersion else sub.version + 1;
          && h2.Keys == h.Keys + {n}
          && (forall u :: u in h ==> h2[u] == h[u])
          && (n !in h ==> h2[n] == Stamp(sub.working, n))
          && after == IavlStore(n, h2[n], h2[n], sub.initialVersion))
  }

  /** The entry of a substore in the commit info of `next`: the in-memory kinds have none,
      and a substore that is ahead is listed as if it were at `next`. */
  ghost predicate ListedAs(lib: Library, sub: SubStore, next: int, after: SubStore, entry: Option<CommitID>) {
    && (sub.TransientStore? || sub.MemoryStore? ==> entry == None)
    && (sub.DBAdapter? ==> entry == Some(CommitID(-1, FAKE_HASH)))
    && (sub.IavlStore? ==>
          && after.IavlStore?
          && entry == Some(CommitID(if sub.version > next then next else after.version, lib.hash(after.saved))))
  }

  /** Commit, kept store by kept store. */
  lemma CommitOutcome(lib: Library, view: View, keys: seq<StoreKey>, after: View, k: StoreKey)
    requires NamesDiffer(view.stores.Keys) && InNameOrder(keys, view.stores.Keys)
    requires CommitView(lib, view, keys) == Some(after)
    requires k in view.stores && k !in view.removal
    ensures k in after.stores && after.lastInfo.Some?
    ensures CommittedTo(view.stores[k], HistoryOf(view.data, k.name), NextVersion(view),
                        after.stores[k], HistoryOf(after.data, k.name))
    ensures ListedAs(lib, view.stores[k], NextVersion(view), after.stores[k],
                     FindInfo(after.lastInfo.value.storeInfos, k.name))
  {
    CommitKeepsStore(lib, view, keys, k);
  }

  /** Commit forgets the stores that were to be removed, with their mounts and names, and
      nothing else: what is not kept has no entry, and the initial version stays. */
  lemma CommitForgetsRemoved(lib: Library, view: View, keys: seq<StoreKey>, after: View)
    requires NamesDiffer(view.stores.Keys) && InNameOrder(keys, view.stores.Keys)
    requires CommitView(lib, view, keys) == Some(after)
    ensures after.removal == {} && after.initialVersion == view.initialVersion
    ensures forall k :: k in after.stores <==> k in view.stores && k !in view.removal
    ensures forall k :: k in after.params <==> k in view.params && !(k in view.stores && k in view.removal)
    ensures forall k :: k in after.params ==> after.params[k] == view.params[k]
    ensures forall n :: n in after.byName
                   <==> n in view.byName && forall k :: k in view.stores && k in view.removal ==> k.name != n
    ensures forall n :: n in after.byName ==> after.byName[n] == view.byName[n]
    ensures after.lastInfo.Some?
    ensures forall n :: (forall k :: k in after.stores ==> k.name != n) ==>
                          FindInfo(after.lastInfo.value.storeInfos, n) == None
  {
    OrderedKeysDistinct(keys, view.stores.Keys);
    var c := CommitViewParts(lib, view, keys);
    var from := Commits(view.data, view.stores, []);
    forall n | forall k :: k in after.stores ==> k.name != n
      ensures FindInfo(c.infos, n) == None
    {
      ListedAllFind(lib, from, view.removal, NextVersion(view), keys, n);
      if k :| k in keys && k.name == n { assert k in view.removal; }
    }
  }

  // Loading

  ghost predicate IsRenamed(up: Upgrades, name: Key) {
    name in up.renamed && up.renamed[name] != []
  }

  /** What loading one mounted store needs. An IAVL store is listed with the version to
      load, or is added or renamed and has only later versions; what is listed is on disk,
      under the old name too. The in-memory kinds need a key of their kind, and do not move. */
  ghost predicate CanLoad(data: Data, infos: seq<StoreInfo>, ver: nat, up: Upgrades, k: StoreKey, typ: StoreType) {
    var moves := k.name !in up.deleted && IsRenamed(up, k.name);
    match typ
    case TypeIAVL =>
      var id, h := GetCommitID(infos, k.name), HistoryOf(data, k.name);
      && (if k.name in up.added || IsRenamed(up, k.name) then forall u :: u in h ==> u > ver else id.version == ver)
      && (id.version > 0 ==> id.version in h)
      && (moves ==>
            var oldID, hOld := GetCommitID(infos, up.renamed[k.name]), HistoryOf(data, up.renamed[k.name]);
            oldID.version > 0 ==> oldID.version in hOld)
    case TypeDB => true
    case TypeTransient => k.Mounted? && k.kind == TransientKind && !moves
    case TypeMemory => k.Mounted? && k.kind == MemoryKind && !moves
  }

  lemma KeyLoadsIff(lib: Library, data: Data, infos: seq<StoreInfo>, ver: nat, up: Upgrades, k: StoreKey,
                    typ: StoreType)
    ensures LoadKey(lib, data, infos, ver, up, k, typ).Some? <==> CanLoad(data, infos, ver, up, k, typ)
  {
  }

  /** A load succeeds exactly when the commit info is there and each mounted store can be loaded. */
  lemma LoadSucceedsIff(lib: Library, view: View, ver: nat, up: Upgrades, keys: seq<StoreKey>)
    requires Enumerates(keys, view.params.Keys) && NamesDiffer(view.params.Keys)
    requires forall k :: k in view.params ==> k.Mounted?
    ensures LoadView(lib, view, ver, up, keys).Some?
       <==> && (ver >= 1 ==> GetCommitInfo(view.data, ver).Some?)
            && var infos := if ver == 0 then [] else GetCommitInfo(view.data, ver).value.storeInfos;
               forall k :: k in view.params ==> CanLoad(view.data, infos, ver, up, k, view.params[k])
  {
    EnumeratedNamesDistinct(keys, view.params.Keys);
    if ver == 0 || GetCommitInfo(view.data, ver).Some? {
      var infos := if ver == 0 then [] else GetCommitInfo(view.data, ver).value.storeInfos;
      LoadAllLoadsEach(lib, view.data, infos, ver, up, view.params, Loading(map[], view.removal), keys);
      forall k | k in keys
        ensures LoadKey(lib, view.data, infos, ver, up, k, view.params[k]).Some?
           <==> CanLoad(view.data, infos, ver, up, k, view.params[k])
      {
        KeyLoadsIff(lib, view.data, infos, ver, up, k, view.params[k]);
      }
    }
  }

  /** What a mounted store is right after a load without upgrades: an IAVL store has the
      version asked for, or its newest if that is 0; the in-memory kinds are empty. */
  ghost predicate LoadedAs(data: Data, ver: nat, k: StoreKey, typ: StoreType, sub: SubStore) {
    match typ
    case TypeIAVL =>
      var h := HistoryOf(data, k.name);
      && sub.IavlStore? && sub.working == sub.saved && sub.initialVersion == 0
      && (ver >= 1 ==> sub.version == ver)
      && (if h == map[] then sub.version == 0 && sub.saved == Empty
          else && sub.version in h && sub.saved == h[sub.version]
               && (ver == 0 ==> forall u :: u in h ==> u <= sub.version))
    case TypeDB => sub == DBAdapter
    case TypeTransient => sub == TransientStore(map[])
    case TypeMemory => sub == MemoryStore(map[])
  }

  lemma KeyLoadedAs(lib: Library, data: Data, infos: seq<StoreInfo>, ver: nat, k: StoreKey, typ: StoreType)
    requires LoadKey(lib, data, infos, ver, NO_UPGRADES, k, typ).Some? && (ver == 0 ==> infos == [])
    ensures LoadedAs(data, ver, k, typ, LoadKey(lib, data, infos, ver, NO_UPGRADES, k, typ).value.sub)
  {
    var h := HistoryOf(data, k.name);
    if h != map[] { assert h.Keys != {}; }
    assert forall u :: u in h <==> u in h.Keys;
  }

  /** A load without upgrades leaves exactly the mounted stores, each of its kind, and
      changes nothing else but the commit info. */
  lemma LoadOutcome(lib: Library, view: View, ver: nat, keys: seq<StoreKey>, after: View)
    requires Enumerates(keys, view.params.Keys) && NamesDiffer(view.params.Keys)
    requires forall k :: k in view.params ==> k.Mounted?
    requires LoadView(lib, view, ver, NO_UPGRADES, keys) == Some(after)
    ensures after == view.(lastInfo := after.lastInfo, stores := after.stores)
    ensures after.lastInfo == if ver == 0 then Some(CommitInfo(0, [])) else GetCommitInfo(view.data, ver)
    ensures after.stores.Keys == view.params.Keys
    ensures forall k :: k in view.params ==> LoadedAs(view.data, ver, k, view.params[k], after.stores[k])
  {
    var info := LoadViewParts(lib, view, ver, NO_UPGRADES, keys);
    assert DroppedAll(NO_UPGRADES, keys) == {};
    forall k | k in view.params
      ensures k in after.stores && LoadedAs(view.data, ver, k, view.params[k], after.stores[k])
    {
      assert k in keys;
      KeyLoadedAs(lib, view.data, info.storeInfos, ver, k, view.params[k]);
    }
  }

  predicate SameKind(a: SubStore, b: SubStore) {
    && (a.IavlStore? <==> b.IavlStore?) && (a.TransientStore? <==> b.TransientStore?)
    && (a.MemoryStore? <==> b.MemoryStore?) && (a.DBAdapter? <==> b.DBAdapter?)
  }

  /** After a load, any writes and a Commit a kept transient store is empty, and a kept
      memory store has the entries it had before the Commit. */
  lemma InMemoryStoresAcrossCommit(lib: Library, view: View, ver: nat, keys: seq<StoreKey>, loaded: View, v: View,
                                   named: seq<StoreKey>, after: View, k: StoreKey)
    requires Enumerates(keys, view.params.Keys) && NamesDiffer(view.params.Keys)
    requires forall m :: m in view.params ==> m.Mounted?
    requires LoadView(lib, view, ver, NO_UPGRADES, keys) == Some(loaded)
    requires v.stores.Keys == loaded.stores.Keys
    requires forall m :: m in v.stores ==> SameKind(v.stores[m], loaded.stores[m])
    requires Healthy(v) && InNameOrder(named, v.stores.Keys) && CommitView(lib, v, named) == Some(after)
    requires k in view.params && k !in v.removal
    ensures k in v.stores && k in after.stores
    ensures view.params[k] == TypeTransient ==> v.stores[k].TransientStore? && after.stores[k] == TransientStore(map[])
    ensures view.params[k] == TypeMemory ==> v.stores[k].MemoryStore? && after.stores[k] == v.stores[k]
  {
    LoadOutcome(lib, view, ver, keys, loaded);
    CommitOutcome(lib, v, named, after, k);
  }

  // Rolling back

  /** The entry of a store that was cut back to the target names the target. */
  lemma CutBackIsListed(lib: Library, view: View, s: Rolling, target: nat, order: seq<StoreKey>, named: seq<StoreKey>,
                        k: StoreKey)
    requires Enumerates(order, view.stores.Keys) && InNameOrder(named, view.stores.Keys)
    requires NamesDiffer(view.stores.Keys) && target >= 1
    requires RollsBackEach(Rolling(view.data, view.stores), s, target, order)
    requires k in view.stores && view.stores[k].IavlStore?
    ensures GetCommitID(BuiltInfos(lib, s.stores, named), k.name).version == target
    ensures target in HistoryOf(s.data, k.name)
  {
    OrderedKeysDistinct(named, view.stores.Keys);
    BuiltInfosFind(lib, s.stores, named, k.name);
    assert k in order && k in named;
  }

  lemma RolledBackLoads(lib: Library, view: View, s: Rolling, target: nat, order: seq<StoreKey>, named: seq<StoreKey>,
                        mounted: seq<StoreKey>, mid: View)
    requires MountsMatch(view.params, view.stores) && NamesDiffer(view.stores.Keys) && target >= 1
    requires Enumerates(order, view.stores.Keys) && InNameOrder(named, view.stores.Keys)
    requires Enumerates(mounted, view.params.Keys)
    requires RollsBackEach(Rolling(view.data, view.stores), s, target, order)
    requires var info := CommitInfo(target, BuiltInfos(lib, s.stores, named));
             mid == view.(data := Flushed(s.data, target, info), stores := s.stores)
    ensures LoadView(lib, mid, GetLatestVersion(mid.data), NO_UPGRADES, mounted).Some?
  {
    var infos := BuiltInfos(lib, s.stores, named);
    HistoriesAfterFlush(s.data, target, CommitInfo(target, infos));
    forall k | k in mid.params
      ensures CanLoad(mid.data, infos, target, NO_UPGRADES, k, mid.params[k])
    {
      if mid.params[k] == TypeIAVL { CutBackIsListed(lib, view, s, target, order, named, k); }
    }
    LoadSucceedsIff(lib, mid, target, NO_UPGRADES, mounted);
  }

  /** A rollback succeeds exactly when the target is positive and every IAVL store has it
      and no version before its initial one. */
  lemma RollbackSucceedsIff(lib: Library, view: View, target: nat, order: seq<StoreKey>, named: seq<StoreKey>,
                            mounted: seq<StoreKey>)
    requires Healthy(view) && MountsMatch(view.params, view.stores)
    requires Enumerates(order, view.stores.Keys) && InNameOrder(named, view.stores.Keys)
    requires Enumerates(mounted, view.params.Keys)
    ensures RollbackView(lib, view, target, order, named, mounted).Some?
       <==> && target >= 1
            && forall k :: k in view.stores && view.stores[k].IavlStore? ==>
                 && target in HistoryOf(view.data, k.name)
                 && forall u :: u in HistoryOf(view.data, k.name) ==> u >= view.stores[k].initialVersion
  {
    if target >= 1 {
      EnumeratedNamesDistinct(order, view.stores.Keys);
      var r := Rolling(view.data, view.stores);
      RollbackAllRollsBackEach(r, target, order);
      if RollbackAll(r, target, order).Some? {
        var s := RollbackAll(r, target, order).value;
        var info := CommitInfo(target, BuiltInfos(lib, s.stores, named));
        RolledBackLoads(lib, view, s, target, order, named, mounted,
                        view.(data := Flushed(s.data, target, info), stores := s.stores));
      }
    }
  }
}

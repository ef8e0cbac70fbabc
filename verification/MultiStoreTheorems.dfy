// Versions in lockstep: when Commit keeps every substore at the version of the root
// store, that the metadata then names a state that loads again, and that this holds
// over every run of loads, upgrades, writes, commits, rollbacks and crashes.

module MultiStoreTheorems {
  import opened Wrappers
  import opened Bytes
  import opened Iavl
  import opened MultiStores
  import opened MultiStoreLoading

  /** Versions are saved from 1 on. */
  ghost predicate PositiveVersions(data: Data) {
    forall name :: 0 !in HistoryOf(data, name)
  }

  /** A substore's saved tree is the one on disk under its version. */
  ghost predicate BackedByDisk(data: Data, name: Key, sub: SubStore) {
    sub.IavlStore? ==>
      if sub.version == 0 then sub.saved == Empty
      else sub.version in HistoryOf(data, name) && HistoryOf(data, name)[sub.version] == sub.saved
  }

  ghost predicate AllBacked(data: Data, stores: Stores) {
    forall k :: k in stores ==> BackedByDisk(data, k.name, stores[k])
  }

  /** A substore that the next Commit brings, or has already brought, to version `next`. */
  predicate ReadyFor(sub: SubStore, next: int) {
    sub.IavlStore? ==> sub.version == next || WorkingVersion(sub) == next
  }

  ghost predicate AllReady(view: View) {
    forall k :: k in view.stores && k !in view.removal ==> ReadyFor(view.stores[k], NextVersion(view))
  }

  /** What every step of a run keeps. */
  ghost predicate Healthy(view: View) {
    && NextVersion(view) >= 1 && InfoVersion(view.lastInfo) >= 0
    && NamesDiffer(view.stores.Keys) && NamesDiffer(view.params.Keys)
    && (forall k :: k in view.params ==> k.Mounted?)
    && PositiveVersions(view.data) && AllBacked(view.data, view.stores)
    && AllReady(view)
  }

  /** Every IAVL substore is at the version of the last commit info. */
  ghost predicate VersionsInLockstep(view: View) {
    view.lastInfo.Some? &&
    forall k :: k in view.stores && view.stores[k].IavlStore? ==> view.stores[k].version == view.lastInfo.value.version
  }

  /** Besides, the metadata names that version, records that commit info, and the
      commit info lists every IAVL substore with the hash of its saved tree. */
  ghost predicate Lockstep(lib: Library, view: View) {
    && VersionsInLockstep(view)
    && var v := view.lastInfo.value.version;
    && v >= 1
    && GetLatestVersion(view.data) == v
    && GetCommitInfo(view.data, v) == view.lastInfo
    && AllBacked(view.data, view.stores)
    && forall k :: k in view.stores && view.stores[k].IavlStore? ==>
         FindInfo(view.lastInfo.value.storeInfos, k.name) == Some(CommitID(v, lib.hash(view.stores[k].saved)))
  }

  // Commit

  /** What CommitView computes, in terms of the outcome of commitStores. */
  lemma CommitViewParts(lib: Library, view: View, keys: seq<StoreKey>) returns (c: Commits)
    requires CommitView(lib, view, keys).Some?
    requires NamesDiffer(view.stores.Keys) && InNameOrder(keys, view.stores.Keys)
    ensures NextVersion(view) >= 0
    ensures CommitAll(lib, Commits(view.data, view.stores, []), view.removal, NextVersion(view), keys) == Some(c)
    ensures CommitsEach(lib, Commits(view.data, view.stores, []), c, NextVersion(view), keys)
    ensures c.infos == ListedAll(lib, Commits(view.data, view.stores, []), view.removal, NextVersion(view), keys)
    ensures var after := CommitView(lib, view, keys).value;
            var info := CommitInfo(NextVersion(view), c.infos);
            && after.data == Flushed(c.data, NextVersion(view), info)
            && after.lastInfo == Some(info)
            && after.stores == c.stores - (view.removal * view.stores.Keys)
            && after.params == view.params - (view.removal * view.stores.Keys)
            && after.byName == view.byName - NamesOf(view.removal * view.stores.Keys)
            && after.removal == {}
  {
    OrderedKeysDistinct(keys, view.stores.Keys);
    c := CommitAll(lib, Commits(view.data, view.stores, []), view.removal, NextVersion(view), keys).value;
    CommitAllCommitsEach(lib, Commits(view.data, view.stores, []), view.removal, NextVersion(view), keys);
    assert [] + ListedAll(lib, Commits(view.data, view.stores, []), view.removal, NextVersion(view), keys) == c.infos;
  }

  /** One store across a Commit. */
  lemma CommitKeepsStore(lib: Library, view: View, keys: seq<StoreKey>, k: StoreKey)
    requires CommitView(lib, view, keys).Some?
    requires NamesDiffer(view.stores.Keys) && InNameOrder(keys, view.stores.Keys)
    requires k in view.stores && k !in view.removal
    ensures var after, h := CommitView(lib, view, keys).value, HistoryOf(view.data, k.name);
            && k in after.stores
            && after.stores[k] == CommittedStore(h, view.stores[k], NextVersion(view))
            && HistoryOf(after.data, k.name) == CommittedHistory(h, view.stores[k], NextVersion(view))
            && CanCommit(lib, h, view.stores[k], NextVersion(view))
            && FindInfo(after.lastInfo.value.storeInfos, k.name)
               == ListedID(lib, h, view.stores[k], view.removal, NextVersion(view), k)
  {
    var c := CommitViewParts(lib, view, keys);
    OrderedKeysDistinct(keys, view.stores.Keys);
    ListedAllFind(lib, Commits(view.data, view.stores, []), view.removal, NextVersion(view), keys, k.name);
    AfterFlush(c.data, NextVersion(view), CommitInfo(NextVersion(view), c.infos), 0, k.name);
  }

  lemma ReadyStoreArrives(lib: Library, view: View, keys: seq<StoreKey>, k: StoreKey, after: View)
    requires CommitView(lib, view, keys) == Some(after)
    requires NamesDiffer(view.stores.Keys) && InNameOrder(keys, view.stores.Keys)
    requires k in view.stores && k !in view.removal
    ensures k in after.stores
    ensures view.stores[k].IavlStore? <==> after.stores[k].IavlStore?
    ensures view.stores[k].IavlStore? ==>
              (after.stores[k].version == NextVersion(view) <==> ReadyFor(view.stores[k], NextVersion(view)))
  {
    CommitKeepsStore(lib, view, keys, k);
  }

  /** Commit leaves every kept IAVL substore at the new version exactly when each was
      ready for it; otherwise some substore is ahead of, or behind, the root store. */
  lemma CommitLockstepIff(lib: Library, view: View, keys: seq<StoreKey>)
    requires CommitView(lib, view, keys).Some?
    requires NamesDiffer(view.stores.Keys) && InNameOrder(keys, view.stores.Keys)
    ensures VersionsInLockstep(CommitView(lib, view, keys).value) <==> AllReady(view)
  {
    var after := CommitView(lib, view, keys).value;
    var c := CommitViewParts(lib, view, keys);
    forall k | k in view.stores && k !in view.removal
      ensures k in after.stores
      ensures view.stores[k].IavlStore? <==> after.stores[k].IavlStore?
      ensures view.stores[k].IavlStore? ==>
                (after.stores[k].version == NextVersion(view) <==> ReadyFor(view.stores[k], NextVersion(view)))
    {
      ReadyStoreArrives(lib, view, keys, k, after);
    }
  }

  ghost predicate CommittedProperly(lib: Library, after: View, k: StoreKey, v: int)
    requires k in after.stores && after.lastInfo.Some?
  {
    && BackedByDisk(after.data, k.name, after.stores[k])
    && (after.stores[k].IavlStore? ==>
          && after.stores[k].version == v
          && FindInfo(after.lastInfo.value.storeInfos, k.name) == Some(CommitID(v, lib.hash(after.stores[k].saved))))
  }

  lemma OneCommittedProperly(lib: Library, view: View, keys: seq<StoreKey>, k: StoreKey)
    requires Healthy(view) && InNameOrder(keys, view.stores.Keys) && CommitView(lib, view, keys).Some?
    requires k in view.stores && k !in view.removal
    ensures k in CommitView(lib, view, keys).value.stores
    ensures CommitView(lib, view, keys).value.lastInfo.Some?
    ensures CommittedProperly(lib, CommitView(lib, view, keys).value, k, NextVersion(view))
  {
    CommitKeepsStore(lib, view, keys, k);
    var sub, h := view.stores[k], HistoryOf(view.data, k.name);
    assert BackedByDisk(view.data, k.name, sub) && ReadyFor(sub, NextVersion(view));
    if sub.IavlStore? && !AlreadyThere(sub, NextVersion(view)) {
      assert WorkingVersion(sub) == NextVersion(view);
    }
  }

  lemma HealthyAgain(lib: Library, after: View, v: int)
    requires v >= 1 && after.lastInfo.Some? && after.lastInfo.value.version == v
    requires NamesDiffer(after.stores.Keys) && NamesDiffer(after.params.Keys)
    requires forall k :: k in after.params ==> k.Mounted?
    requires PositiveVersions(after.data)
    requires forall k :: k in after.stores ==> CommittedProperly(lib, after, k, v)
    ensures Healthy(after)
  {
  }

  lemma CommitKeepsPositive(lib: Library, view: View, keys: seq<StoreKey>)
    requires Healthy(view) && InNameOrder(keys, view.stores.Keys) && CommitView(lib, view, keys).Some?
    ensures PositiveVersions(CommitView(lib, view, keys).value.data)
  {
    var after := CommitView(lib, view, keys).value;
    var c := CommitViewParts(lib, view, keys);
    forall name
      ensures 0 !in HistoryOf(after.data, name)
    {
      AfterFlush(c.data, NextVersion(view), CommitInfo(NextVersion(view), c.infos), 0, name);
      if k :| k in keys && k.name == name {
        assert HistoryOf(c.data, name)
               == CommittedHistory(HistoryOf(view.data, name), view.stores[k], NextVersion(view));
      }
    }
  }

  /** Commit on a healthy store: everything is in lockstep, the metadata included, and
      the store is healthy again. */
  lemma CommitKeepsLockstep(lib: Library, view: View, keys: seq<StoreKey>)
    requires Healthy(view) && InNameOrder(keys, view.stores.Keys) && CommitView(lib, view, keys).Some?
    ensures Lockstep(lib, CommitView(lib, view, keys).value)
    ensures Healthy(CommitView(lib, view, keys).value)
    ensures CommitView(lib, view, keys).value.lastInfo.value.version == NextVersion(view)
  {
    var after := CommitView(lib, view, keys).value;
    var c := CommitViewParts(lib, view, keys);
    var v := NextVersion(view);
    AfterFlush(c.data, v, CommitInfo(v, c.infos), v, []);
    forall k | k in after.stores
      ensures CommittedProperly(lib, after, k, v)
    {
      assert k in view.stores && k !in view.removal;
      OneCommittedProperly(lib, view, keys, k);
    }
    CommitKeepsPositive(lib, view, keys);
    HealthyAgain(lib, after, v);
  }

  // Load

  /** The version a mounted IAVL store gets: the one in the commit info, or else its newest. */
  function VersionToLoad(data: Data, id: CommitID, name: Key): int {
    if id.version > 0 then id.version else Latest(HistoryOf(data, name))
  }

  /** A loaded version from which the next Commit leads to `next`. */
  predicate LeadsTo(loaded: int, ver: nat, next: int) {
    if loaded == 0 then next == ver + 1 else loaded == next || loaded + 1 == next
  }

  function NextAfterLoad(view: View, ver: nat): int {
    if ver == 0 && view.initialVersion > 1 then view.initialVersion else ver + 1
  }

  /** What a caller can check before loading: each kept IAVL store will get a version
      that suits the next Commit. */
  ghost predicate SuitsLoading(view: View, ver: nat, up: Upgrades, info: CommitInfo) {
    forall k :: k in view.params && view.params[k] == TypeIAVL && k !in view.removal && k.name !in up.deleted ==>
      LeadsTo(VersionToLoad(view.data, GetCommitID(info.storeInfos, k.name), k.name), ver, NextAfterLoad(view, ver))
  }

  /** No mounted store, and no other rename, uses a name that is renamed away. */
  ghost predicate RenamesApart(params: map<StoreKey, StoreType>, up: Upgrades) {
    && (forall k, m :: k in params && m in params && k.name !in up.deleted && RenamedFrom(up, k.name) != [] ==>
          RenamedFrom(up, k.name) != m.name)
    && (forall k, m :: k in params && m in params && k != m && RenamedFrom(up, k.name) != [] ==>
          RenamedFrom(up, k.name) != RenamedFrom(up, m.name))
  }

  lemma LoadViewParts(lib: Library, view: View, ver: nat, up: Upgrades, keys: seq<StoreKey>) returns (info: CommitInfo)
    requires Enumerates(keys, view.params.Keys) && NamesDiffer(view.params.Keys)
    requires forall k :: k in view.params ==> k.Mounted?
    requires LoadView(lib, view, ver, up, keys).Some?
    ensures InfoToLoad(view.data, ver) == Some(info)
    ensures var after := LoadView(lib, view, ver, up, keys).value;
            && LoadsEach(lib, view.data, info.storeInfos, ver, up, view.params, keys, after.stores)
            && after == view.(lastInfo := Some(info), stores := after.stores,
                              removal := view.removal + DroppedAll(up, keys))
  {
    info := InfoToLoad(view.data, ver).value;
    EnumeratedNamesDistinct(keys, view.params.Keys);
    LoadAllLoadsEach(lib, view.data, info.storeInfos, ver, up, view.params, Loading(map[], view.removal), keys);
  }

  /** A loaded IAVL store is backed by disk, and its version is the one asked for. */
  lemma LoadedStoreFacts(lib: Library, data: Data, infos: seq<StoreInfo>, ver: nat, up: Upgrades, k: StoreKey,
                         typ: StoreType)
    requires PositiveVersions(data)
    requires LoadKey(lib, data, infos, ver, up, k, typ).Some?
    ensures var ld := LoadKey(lib, data, infos, ver, up, k, typ).value;
            && (ld.sub.IavlStore? <==> typ == TypeIAVL)
            && BackedByDisk(data, k.name, ld.sub)
            && (ld.moved.Some? <==> k.name !in up.deleted && RenamedFrom(up, k.name) != [])
            && (ld.moved.Some? ==> BackedByDisk(data, RenamedFrom(up, k.name), ld.moved.value))
            && (typ == TypeIAVL ==>
                  var id, h := GetCommitID(infos, k.name), HistoryOf(data, k.name);
                  && ld.sub.initialVersion == (if IsNew(up, k.name) then ver + 1 else 0)
                  && ld.sub.version == VersionToLoad(data, id, k.name)
                  && (IsNew(up, k.name) || id.version == ver)
                  && (IsNew(up, k.name) ==> forall v :: v in h ==> v >= ver + 1))
  {
  }

  lemma LoadedIsReady(lib: Library, view: View, ver: nat, up: Upgrades, info: CommitInfo, k: StoreKey)
    requires PositiveVersions(view.data) && k in view.params && k.name !in up.deleted
    requires LoadKey(lib, view.data, info.storeInfos, ver, up, k, view.params[k]).Some?
    ensures ReadyFor(LoadKey(lib, view.data, info.storeInfos, ver, up, k, view.params[k]).value.sub,
                     NextAfterLoad(view, ver))
       <==> (view.params[k] == TypeIAVL ==>
               LeadsTo(VersionToLoad(view.data, GetCommitID(info.storeInfos, k.name), k.name),
                       ver, NextAfterLoad(view, ver)))
  {
    LoadedStoreFacts(lib, view.data, info.storeInfos, ver, up, k, view.params[k]);
  }

  lemma OnlyDeletedDropped(up: Upgrades, keys: seq<StoreKey>, k: StoreKey)
    requires k.Mounted? && k in keys && DistinctNames(keys)
    ensures k in DroppedAll(up, keys) <==> k.name in up.deleted
  {
    if k in DroppedAll(up, keys) {
      var m :| m in keys && k in Dropped(up, m);
    }
    if k.name in up.deleted {
      assert k in Dropped(up, k);
    }
  }

  /** After a successful load the store is ready for the next Commit exactly when the
      caller's check passed. */
  lemma LoadReadyIff(lib: Library, view: View, ver: nat, up: Upgrades, keys: seq<StoreKey>, info: CommitInfo)
    requires Enumerates(keys, view.params.Keys) && NamesDiffer(view.params.Keys)
    requires forall k :: k in view.params ==> k.Mounted?
    requires PositiveVersions(view.data) && InfoToLoad(view.data, ver) == Some(info)
    requires info.version == ver
    requires LoadView(lib, view, ver, up, keys).Some?
    ensures (forall k :: k in view.params && k !in LoadView(lib, view, ver, up, keys).value.removal ==>
               && k in LoadView(lib, view, ver, up, keys).value.stores
               && ReadyFor(LoadView(lib, view, ver, up, keys).value.stores[k],
                           NextVersion(LoadView(lib, view, ver, up, keys).value)))
       <==> SuitsLoading(view, ver, up, info)
  {
    var after := LoadView(lib, view, ver, up, keys).value;
    var i := LoadViewParts(lib, view, ver, up, keys);
    EnumeratedNamesDistinct(keys, view.params.Keys);
    forall k | k in view.params
      ensures k in after.stores
      ensures k in after.removal <==> k in view.removal || k.name in up.deleted
      ensures k !in after.removal ==>
        (ReadyFor(after.stores[k], NextVersion(after))
         <==> (view.params[k] == TypeIAVL ==>
                 LeadsTo(VersionToLoad(view.data, GetCommitID(info.storeInfos, k.name), k.name),
                         ver, NextAfterLoad(view, ver))))
    {
      assert k in keys;
      if k.name !in up.deleted { LoadedIsReady(lib, view, ver, up, info, k); }
      OnlyDeletedDropped(up, keys, k);
    }
  }

  /** A store in memory after a load is a mounted one, or one whose data is moving. */
  lemma LoadedOrDetached(lib: Library, view: View, ver: nat, up: Upgrades, keys: seq<StoreKey>, info: CommitInfo,
                         d: StoreKey)
    requires Enumerates(keys, view.params.Keys) && NamesDiffer(view.params.Keys)
    requires forall k :: k in view.params ==> k.Mounted?
    requires PositiveVersions(view.data) && InfoToLoad(view.data, ver) == Some(info)
    requires LoadView(lib, view, ver, up, keys).Some?
    requires d in LoadView(lib, view, ver, up, keys).value.stores
    ensures var after := LoadView(lib, view, ver, up, keys).value;
            && BackedByDisk(after.data, d.name, after.stores[d])
            && (d.Mounted? <==> d in view.params)
            && (d.Detached? ==> d in after.removal)
  {
    var after := LoadView(lib, view, ver, up, keys).value;
    var i := LoadViewParts(lib, view, ver, up, keys);
    if d in keys {
      LoadedStoreFacts(lib, view.data, info.storeInfos, ver, up, d, view.params[d]);
    } else {
      var k :| k in keys && d == DetachedKey(up, k) && k.name !in up.deleted && RenamedFrom(up, k.name) != [];
      LoadedStoreFacts(lib, view.data, info.storeInfos, ver, up, k, view.params[k]);
      assert d in Dropped(up, k);
    }
  }

  lemma LoadedNamesDiffer(lib: Library, view: View, ver: nat, up: Upgrades, keys: seq<StoreKey>, info: CommitInfo,
                          m: Stores)
    requires Enumerates(keys, view.params.Keys) && NamesDiffer(view.params.Keys)
    requires RenamesApart(view.params, up)
    requires LoadsEach(lib, view.data, info.storeInfos, ver, up, view.params, keys, m)
    ensures NamesDiffer(m.Keys)
  {
    forall d, k | d in m && d !in keys && k in keys
      ensures d.name != k.name
    {
      var n :| n in keys && d == DetachedKey(up, n) && n.name !in up.deleted && RenamedFrom(up, n.name) != [];
      assert n in view.params && k in view.params;
    }
    forall a, b | a in m && b in m && a.name == b.name && a !in keys && b !in keys
      ensures a == b
    {
      var k :| k in keys && a == DetachedKey(up, k) && k.name !in up.deleted && RenamedFrom(up, k.name) != [];
      var n :| n in keys && b == DetachedKey(up, n) && n.name !in up.deleted && RenamedFrom(up, n.name) != [];
      assert k == n;
    }
  }

  /** A successful load that suits the next Commit leaves the store healthy. */
  lemma LoadKeepsHealthy(lib: Library, view: View, ver: nat, up: Upgrades, keys: seq<StoreKey>, info: CommitInfo)
    requires Enumerates(keys, view.params.Keys) && NamesDiffer(view.params.Keys)
    requires forall k :: k in view.params ==> k.Mounted?
    requires PositiveVersions(view.data) && InfoToLoad(view.data, ver) == Some(info) && info.version == ver
    requires LoadView(lib, view, ver, up, keys).Some?
    requires SuitsLoading(view, ver, up, info) && RenamesApart(view.params, up)
    ensures Healthy(LoadView(lib, view, ver, up, keys).value)
  {
    var after := LoadView(lib, view, ver, up, keys).value;
    var i := LoadViewParts(lib, view, ver, up, keys);
    EnumeratedNamesDistinct(keys, view.params.Keys);
    LoadReadyIff(lib, view, ver, up, keys, info);
    forall d | d in after.stores
      ensures BackedByDisk(after.data, d.name, after.stores[d])
      ensures d.Detached? ==> d in after.removal
    {
      LoadedOrDetached(lib, view, ver, up, keys, info, d);
    }
    LoadedNamesDiffer(lib, view, ver, up, keys, info, after.stores);
  }

  // Reloading

  /** Mounted stores that suit the stores in memory: each IAVL mount has its substore there,
      and keys of the in-memory kinds have the right type. */
  ghost predicate MountsMatch(params: map<StoreKey, StoreType>, stores: Stores) {
    && NamesDiffer(params.Keys)
    && (forall k :: k in params ==> k.Mounted?)
    && (forall k :: k in params && params[k] == TypeIAVL ==> k in stores && stores[k].IavlStore?)
    && (forall k :: k in params && params[k] == TypeTransient ==> k.kind == TransientKind)
    && (forall k :: k in params && params[k] == TypeMemory ==> k.kind == MemoryKind)
  }

  /** The metadata of a store in lockstep names a state that loads again, with the same
      commit info and in each IAVL substore the same saved tree. */
  lemma LockstepReloads(lib: Library, view: View, reloaded: View, keys: seq<StoreKey>)
    requires Lockstep(lib, view) && reloaded.data == view.data
    requires MountsMatch(reloaded.params, view.stores) && Enumerates(keys, reloaded.params.Keys)
    ensures LoadView(lib, reloaded, GetLatestVersion(reloaded.data), NO_UPGRADES, keys).Some?
    ensures var after := LoadView(lib, reloaded, GetLatestVersion(reloaded.data), NO_UPGRADES, keys).value;
            && after.lastInfo == view.lastInfo
            && forall k :: k in reloaded.params && reloaded.params[k] == TypeIAVL ==>
                 k in after.stores
                 && after.stores[k]
                    == IavlStore(view.lastInfo.value.version, view.stores[k].saved, view.stores[k].saved, 0)
  {
    var v := view.lastInfo.value.version;
    var infos := view.lastInfo.value.storeInfos;
    EnumeratedNamesDistinct(keys, reloaded.params.Keys);
    forall k | k in keys
      ensures LoadKey(lib, reloaded.data, infos, v, NO_UPGRADES, k, reloaded.params[k]).Some?
      ensures reloaded.params[k] == TypeIAVL ==>
                LoadKey(lib, reloaded.data, infos, v, NO_UPGRADES, k, reloaded.params[k]).value.sub
                == IavlStore(v, view.stores[k].saved, view.stores[k].saved, 0)
    {
      if reloaded.params[k] == TypeIAVL {
        assert BackedByDisk(view.data, k.name, view.stores[k]);
      }
    }
    LoadAllLoadsEach(lib, reloaded.data, infos, v, NO_UPGRADES, reloaded.params, Loading(map[], reloaded.removal),
                     keys);
  }

  // Rollback

  /** What RollbackToVersion goes through on the way to its reload. */
  lemma RollbackParts(lib: Library, view: View, target: nat, order: seq<StoreKey>, named: seq<StoreKey>,
                      mounted: seq<StoreKey>)
    returns (s: Rolling, mid: View)
    requires Enumerates(order, view.stores.Keys) && InNameOrder(named, view.stores.Keys)
    requires Enumerates(mounted, view.params.Keys)
    requires NamesDiffer(view.stores.Keys)
    requires RollbackView(lib, view, target, order, named, mounted).Some?
    ensures target >= 1
    ensures RollsBackEach(Rolling(view.data, view.stores), s, target, order)
    ensures var info := CommitInfo(target, BuiltInfos(lib, s.stores, named));
            mid == view.(data := Flushed(s.data, target, info), stores := s.stores)
    ensures GetLatestVersion(mid.data) == target
    ensures GetCommitInfo(mid.data, target) == Some(CommitInfo(target, BuiltInfos(lib, s.stores, named)))
    ensures forall name :: HistoryOf(mid.data, name) == HistoryOf(s.data, name)
    ensures LoadView(lib, mid, target, NO_UPGRADES, mounted) == RollbackView(lib, view, target, order, named, mounted)
  {
    EnumeratedNamesDistinct(order, view.stores.Keys);
    RollbackAllRollsBackEach(Rolling(view.data, view.stores), target, order);
    s := RollbackAll(Rolling(view.data, view.stores), target, order).value;
    var info := CommitInfo(target, BuiltInfos(lib, s.stores, named));
    mid := view.(data := Flushed(s.data, target, info), stores := s.stores);
    forall name
      ensures HistoryOf(mid.data, name) == HistoryOf(s.data, name)
    {
      AfterFlush(s.data, target, info, target, name);
    }
    AfterFlush(s.data, target, info, target, []);
  }

  ghost predicate RolledBack(lib: Library, view: View, after: View, k: StoreKey, target: nat, info: CommitInfo)
    requires k in after.stores && after.stores[k].IavlStore?
  {
    && target in HistoryOf(view.data, k.name)
    && after.stores[k]
       == IavlStore(target, HistoryOf(view.data, k.name)[target], HistoryOf(view.data, k.name)[target], 0)
    && HistoryOf(after.data, k.name) == DeleteVersionsAfter(HistoryOf(view.data, k.name), target)
    && FindInfo(info.storeInfos, k.name) == Some(CommitID(target, lib.hash(after.stores[k].saved)))
  }

  /** An entry of the rebuilt commit info: its store was cut back to the target. */
  lemma RolledEntry(lib: Library, view: View, s: Rolling, target: nat, order: seq<StoreKey>, named: seq<StoreKey>,
                    name: Key)
    requires Enumerates(order, view.stores.Keys) && InNameOrder(named, view.stores.Keys)
    requires NamesDiffer(view.stores.Keys)
    requires RollsBackEach(Rolling(view.data, view.stores), s, target, order)
    requires target >= 1 && GetCommitID(BuiltInfos(lib, s.stores, named), name).version == target
    ensures target in HistoryOf(view.data, name)
    ensures HistoryOf(s.data, name) == DeleteVersionsAfter(HistoryOf(view.data, name), target)
    ensures FindInfo(BuiltInfos(lib, s.stores, named), name)
         == Some(CommitID(target, lib.hash(HistoryOf(view.data, name)[target])))
  {
    OrderedKeysDistinct(named, view.stores.Keys);
    BuiltInfosFind(lib, s.stores, named, name);
    var n :| n in named && n.name == name;
    assert s.stores[n].IavlStore?;
  }

  lemma OneRolledBack(lib: Library, view: View, s: Rolling, mid: View, after: View, target: nat,
                      order: seq<StoreKey>, named: seq<StoreKey>, k: StoreKey)
    requires Enumerates(order, view.stores.Keys) && InNameOrder(named, view.stores.Keys)
    requires NamesDiffer(view.stores.Keys)
    requires PositiveVersions(mid.data) && target >= 1
    requires RollsBackEach(Rolling(view.data, view.stores), s, target, order)
    requires forall name :: HistoryOf(mid.data, name) == HistoryOf(s.data, name)
    requires forall name :: HistoryOf(after.data, name) == HistoryOf(mid.data, name)
    requires k in mid.params && k in after.stores && after.stores[k].IavlStore?
    requires var ld := LoadKey(lib, mid.data, BuiltInfos(lib, s.stores, named), target, NO_UPGRADES, k, mid.params[k]);
             ld.Some? && ld.value.sub == after.stores[k]
    ensures RolledBack(lib, view, after, k, target, CommitInfo(target, BuiltInfos(lib, s.stores, named)))
  {
    var infos := BuiltInfos(lib, s.stores, named);
    OrderedKeysDistinct(named, view.stores.Keys);
    LoadedStoreFacts(lib, mid.data, infos, target, NO_UPGRADES, k, mid.params[k]);
    RolledEntry(lib, view, s, target, order, named, k.name);
  }

  lemma EachRolledBack(lib: Library, view: View, s: Rolling, mid: View, after: View, target: nat, order: seq<StoreKey>,
                       named: seq<StoreKey>, mounted: seq<StoreKey>, info: CommitInfo)
    requires Healthy(view) && Enumerates(order, view.stores.Keys) && InNameOrder(named, view.stores.Keys)
    requires Enumerates(mounted, view.params.Keys) && target >= 1
    requires RollsBackEach(Rolling(view.data, view.stores), s, target, order)
    requires info == CommitInfo(target, BuiltInfos(lib, s.stores, named))
    requires GetCommitInfo(mid.data, target) == Some(info)
    requires mid.params == view.params && PositiveVersions(s.data)
    requires forall name :: HistoryOf(mid.data, name) == HistoryOf(s.data, name)
    requires LoadView(lib, mid, target, NO_UPGRADES, mounted) == Some(after)
    ensures PositiveVersions(mid.data)
    ensures forall k :: k in after.stores ==>
              k in mounted && (after.stores[k].IavlStore? ==> RolledBack(lib, view, after, k, target, info))
    ensures forall k :: k in mid.params && mid.params[k] == TypeIAVL ==>
              GetCommitID(info.storeInfos, k.name).version == target
  {
    assert PositiveVersions(mid.data);
    EnumeratedNamesDistinct(mounted, view.params.Keys);
    var i := LoadViewParts(lib, mid, target, NO_UPGRADES, mounted);
    forall k | k in after.stores
      ensures k in mounted
      ensures after.stores[k].IavlStore? ==> RolledBack(lib, view, after, k, target, info)
    {
      if after.stores[k].IavlStore? {
        OneRolledBack(lib, view, s, mid, after, target, order, named, k);
      }
    }
    forall k | k in mid.params && mid.params[k] == TypeIAVL
      ensures GetCommitID(info.storeInfos, k.name).version == target
    {
      assert k in mounted;
      LoadedStoreFacts(lib, mid.data, info.storeInfos, target, NO_UPGRADES, k, mid.params[k]);
    }
  }

  lemma RollbackKeepsPositive(view: View, s: Rolling, target: nat, order: seq<StoreKey>)
    requires PositiveVersions(view.data) && RollsBackEach(Rolling(view.data, view.stores), s, target, order)
    ensures PositiveVersions(s.data)
  {
    forall name
      ensures 0 !in HistoryOf(s.data, name)
    {
      assert 0 !in HistoryOf(view.data, name);
      if k :| k in order && view.stores[k].IavlStore? && k.name == name {
        assert HistoryOf(s.data, k.name) == DeleteVersionsAfter(HistoryOf(view.data, k.name), target);
      }
    }
  }

  lemma SuitsAfterRollback(mid: View, target: nat, mounted: seq<StoreKey>, info: CommitInfo)
    requires target >= 1 && Enumerates(mounted, mid.params.Keys)
    requires forall k :: k in mid.params && mid.params[k] == TypeIAVL ==>
               GetCommitID(info.storeInfos, k.name).version == target
    ensures SuitsLoading(mid, target, NO_UPGRADES, info)
    ensures RenamesApart(mid.params, NO_UPGRADES)
  {
  }

  /** After a successful rollback every IAVL store is at the target with the tree it had
      there, no newer version is left, the metadata agrees, and the next Commit makes
      the version after the target. */
  lemma RollbackRestoresTarget(lib: Library, view: View, target: nat, order: seq<StoreKey>, named: seq<StoreKey>,
                               mounted: seq<StoreKey>)
    requires Enumerates(order, view.stores.Keys) && InNameOrder(named, view.stores.Keys)
    requires Enumerates(mounted, view.params.Keys)
    requires Healthy(view)
    requires RollbackView(lib, view, target, order, named, mounted).Some?
    ensures var after := RollbackView(lib, view, target, order, named, mounted).value;
            && Lockstep(lib, after) && Healthy(after)
            && after.lastInfo.value.version == target && NextVersion(after) == target + 1
            && forall k :: k in after.stores && after.stores[k].IavlStore? ==>
                 && target in HistoryOf(view.data, k.name)
                 && after.stores[k].saved == after.stores[k].working == HistoryOf(view.data, k.name)[target]
                 && HistoryOf(after.data, k.name) == DeleteVersionsAfter(HistoryOf(view.data, k.name), target)
  {
    var s, mid := RollbackParts(lib, view, target, order, named, mounted);
    var after := RollbackView(lib, view, target, order, named, mounted).value;
    var info := CommitInfo(target, BuiltInfos(lib, s.stores, named));
    RollbackKeepsPositive(view, s, target, order);
    EachRolledBack(lib, view, s, mid, after, target, order, named, mounted, info);
    SuitsAfterRollback(mid, target, mounted, info);
    LoadKeepsHealthy(lib, mid, target, NO_UPGRADES, mounted, info);
  }

  lemma HistoriesAfterFlush(data: Data, v: nat, info: CommitInfo)
    ensures forall name :: HistoryOf(Flushed(data, v, info), name) == HistoryOf(data, name)
    ensures GetLatestVersion(Flushed(data, v, info)) == v
    ensures GetCommitInfo(Flushed(data, v, info), v) == Some(info)
  {
    forall name
      ensures HistoryOf(Flushed(data, v, info), name) == HistoryOf(data, name)
    {
      AfterFlush(data, v, info, v, name);
    }
    AfterFlush(data, v, info, v, []);
  }

  lemma OneRebuilt(lib: Library, view: View, v: nat, named: seq<StoreKey>, mid: View, k: StoreKey)
    requires InNameOrder(named, view.stores.Keys) && NamesDiffer(view.stores.Keys)
    requires PositiveVersions(view.data) && AllBacked(view.data, view.stores) && v >= 1
    requires forall name :: HistoryOf(mid.data, name) == HistoryOf(view.data, name)
    requires k in mid.params && mid.params[k] == TypeIAVL
    requires LoadKey(lib, mid.data, BuiltInfos(lib, view.stores, named), v, NO_UPGRADES, k, TypeIAVL).Some?
    ensures var sub := LoadKey(lib, mid.data, BuiltInfos(lib, view.stores, named),
                               v, NO_UPGRADES, k, TypeIAVL).value.sub;
            && sub.IavlStore? && sub.version == v
            && FindInfo(BuiltInfos(lib, view.stores, named), k.name) == Some(CommitID(v, lib.hash(sub.saved)))
  {
    var infos := BuiltInfos(lib, view.stores, named);
    OrderedKeysDistinct(named, view.stores.Keys);
    LoadedStoreFacts(lib, mid.data, infos, v, NO_UPGRADES, k, TypeIAVL);
    BuiltInfosFind(lib, view.stores, named, k.name);
    var n :| n in named && n.name == k.name;
    assert BackedByDisk(view.data, n.name, view.stores[n]);
  }

  /** Rebuilding the metadata from substores backed by disk, then loading the latest
      version, ends in lockstep if the load succeeds. */
  lemma RebuiltMetadataLoads(lib: Library, view: View, v: nat, named: seq<StoreKey>, mounted: seq<StoreKey>, mid: View,
                             after: View)
    requires InNameOrder(named, view.stores.Keys) && NamesDiffer(view.stores.Keys)
    requires Enumerates(mounted, view.params.Keys) && NamesDiffer(view.params.Keys)
    requires forall k :: k in view.params ==> k.Mounted?
    requires PositiveVersions(view.data) && AllBacked(view.data, view.stores) && v >= 1
    requires mid == view.(data := Flushed(view.data, v, CommitInfo(v, BuiltInfos(lib, view.stores, named))))
    requires LoadView(lib, mid, v, NO_UPGRADES, mounted) == Some(after)
    ensures Lockstep(lib, after) && Healthy(after) && after.lastInfo.value.version == v
  {
    var info := CommitInfo(v, BuiltInfos(lib, view.stores, named));
    HistoriesAfterFlush(view.data, v, info);
    var i := LoadViewParts(lib, mid, v, NO_UPGRADES, mounted);
    forall k | k in mid.params && mid.params[k] == TypeIAVL
      ensures GetCommitID(info.storeInfos, k.name).version == v
      ensures k in after.stores && after.stores[k].IavlStore? && after.stores[k].version == v
           && FindInfo(info.storeInfos, k.name) == Some(CommitID(v, lib.hash(after.stores[k].saved)))
    {
      assert k in mounted;
      OneRebuilt(lib, view, v, named, mid, k);
    }
    SuitsAfterRollback(mid, v, mounted, info);
    LoadKeepsHealthy(lib, mid, v, NO_UPGRADES, mounted, info);
    forall k | k in after.stores
      ensures k in mid.params && (after.stores[k].IavlStore? <==> mid.params[k] == TypeIAVL)
    {
      LoadedOrDetached(lib, mid, v, NO_UPGRADES, mounted, info, k);
      assert k in mounted;
      LoadedStoreFacts(lib, mid.data, info.storeInfos, v, NO_UPGRADES, k, mid.params[k]);
    }
  }
}

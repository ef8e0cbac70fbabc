// Three promises of Commit: a commit that was interrupted is completed by its replay,
// the working hash is the hash Commit will return, and upgrades carry the data over.

module MultiStoreReplay {
  import opened Wrappers
  import opened Iavl
  import opened MultiStores
  import opened MultiStoreLoading
  import opened MultiStoreTheorems

  // Interrupted commits

  /** Substores of the same kind, IAVL ones with the same version and trees. */
  predicate SameTrees(a: SubStore, b: SubStore) {
    && (a.IavlStore? <==> b.IavlStore?) && (a.DBAdapter? <==> b.DBAdapter?)
    && (a.IavlStore? ==>
          && a.version == b.version && a.saved == b.saved && a.working == b.working
          && WorkingVersion(a) == WorkingVersion(b))
  }

  /** Substores of the same kind, IAVL ones with the same version and saved tree. */
  predicate SameSaved(a: SubStore, b: SubStore) {
    && (a.IavlStore? <==> b.IavlStore?) && (a.DBAdapter? <==> b.DBAdapter?)
    && (a.IavlStore? ==> a.version == b.version && a.saved == b.saved)
  }

  /** How an interrupted commit of `version` may have left a substore, once it is reloaded
      and the block is replayed: not saved, or saved on disk, but back where the commit
      found it; or at the new version, with whatever the replay wrote on top. */
  ghost predicate Interrupted(h: History, sub: SubStore, h2: History, sub2: SubStore, version: nat) {
    || ((h2 == h || h2 == CommittedHistory(h, sub, version)) && SameTrees(sub2, sub))
    || (h2 == CommittedHistory(h, sub, version) && AlreadyThere(sub2, version)
        && SameSaved(sub2, CommittedStore(h, sub, version)))
  }

  /** Committing such a substore again yields what the uninterrupted commit yields. */
  lemma ReplayOne(lib: Library, h: History, sub: SubStore, h2: History, sub2: SubStore, version: nat)
    requires Interrupted(h, sub, h2, sub2, version)
    requires CanCommit(lib, h, sub, version) && ReadyFor(sub, version)
    ensures CanCommit(lib, h2, sub2, version)
    ensures SameSaved(CommittedStore(h2, sub2, version), CommittedStore(h, sub, version))
    ensures !AlreadyThere(sub2, version) || SameTrees(sub2, CommittedStore(h, sub, version)) ==>
              SameTrees(CommittedStore(h2, sub2, version), CommittedStore(h, sub, version))
    ensures CommittedHistory(h2, sub2, version) == CommittedHistory(h, sub, version)
    ensures IsPersistent(sub2) == IsPersistent(sub)
    ensures CommittedID(lib, h2, sub2, version) == CommittedID(lib, h, sub, version)
  {
  }

  /** The substore under k, before the commit and before its replay. */
  ghost predicate InterruptedAt(c: Commits, d: Commits, version: nat, k: StoreKey)
    requires k in c.stores && k in d.stores
  {
    && ReadyFor(c.stores[k], version)
    && Interrupted(HistoryOf(c.data, k.name), c.stores[k], HistoryOf(d.data, k.name), d.stores[k], version)
  }

  /** Kept substores are as an interrupted commit may leave them; of dropped ones it only
      matters that they can be committed. */
  ghost predicate InterruptedAll(lib: Library, c: Commits, d: Commits, removal: set<StoreKey>, version: nat,
                                 keys: seq<StoreKey>)
  {
    forall k :: k in keys ==>
      && k in c.stores && k in d.stores
      && (k in removal ==> CanCommit(lib, HistoryOf(d.data, k.name), d.stores[k], version))
      && (k !in removal ==> InterruptedAt(c, d, version, k))
  }

  /** After the replay: the kind, version, saved tree and history of the uninterrupted
      commit; its working tree too, unless the replay wrote to a store at the version. */
  ghost predicate Completed(once: SubStore, h: History, sub2: SubStore, again: SubStore, h2: History, version: nat) {
    && SameSaved(again, once) && h2 == h
    && (!AlreadyThere(sub2, version) || SameTrees(sub2, once) ==> SameTrees(again, once))
  }

  /** One substore through both commits. */
  lemma ReplayAt(lib: Library, c: Commits, d: Commits, version: nat, k: StoreKey)
    requires k in c.stores && k in d.stores && InterruptedAt(c, d, version, k)
    requires CanCommit(lib, HistoryOf(c.data, k.name), c.stores[k], version)
    ensures CanCommit(lib, HistoryOf(d.data, k.name), d.stores[k], version)
    ensures var h, h2 := HistoryOf(c.data, k.name), HistoryOf(d.data, k.name);
            && Completed(CommittedStore(h, c.stores[k], version), CommittedHistory(h, c.stores[k], version),
                         d.stores[k], CommittedStore(h2, d.stores[k], version),
                         CommittedHistory(h2, d.stores[k], version), version)
            && IsPersistent(d.stores[k]) == IsPersistent(c.stores[k])
            && CommittedID(lib, h2, d.stores[k], version) == CommittedID(lib, h, c.stores[k], version)
  {
    ReplayOne(lib, HistoryOf(c.data, k.name), c.stores[k], HistoryOf(d.data, k.name), d.stores[k], version);
  }

  lemma {:induction false} ListedTheSame(lib: Library, c: Commits, d: Commits, removal: set<StoreKey>, version: nat,
                                         keys: seq<StoreKey>)
    requires InterruptedAll(lib, c, d, removal, version, keys)
    requires forall k :: k in keys ==> CanCommit(lib, HistoryOf(c.data, k.name), c.stores[k], version)
    ensures ListedAll(lib, d, removal, version, keys) == ListedAll(lib, c, removal, version, keys)
  {
    if keys != [] {
      var k := keys[|keys| - 1];
      ListedTheSame(lib, c, d, removal, version, keys[..|keys| - 1]);
      if k !in removal { ReplayAt(lib, c, d, version, k); }
    }
  }

  /** If any of the substores already committed the version, the replay commits the
      others, leaves those alone, and returns the same entries as an uninterrupted run. */
  lemma InterruptedCommitReplays(lib: Library, c: Commits, d: Commits, removal: set<StoreKey>, version: nat,
                                 keys: seq<StoreKey>)
    requires DistinctNames(keys) && InterruptedAll(lib, c, d, removal, version, keys) && c.infos == d.infos
    requires CommitAll(lib, c, removal, version, keys).Some?
    ensures CommitAll(lib, d, removal, version, keys).Some?
    ensures var once, again := CommitAll(lib, c, removal, version, keys).value,
                               CommitAll(lib, d, removal, version, keys).value;
            && again.infos == once.infos
            && (forall k :: k in keys ==> k in again.stores && k in once.stores)
            && (forall k :: k in keys && InterruptedAt(c, d, version, k) ==>
                  Completed(once.stores[k], HistoryOf(once.data, k.name),
                            d.stores[k], again.stores[k], HistoryOf(again.data, k.name), version))
            && (forall k :: k in keys && AlreadyThere(d.stores[k], version) ==>
                  again.stores[k] == d.stores[k] && HistoryOf(again.data, k.name) == HistoryOf(d.data, k.name))
  {
    CommitAllCommitsEach(lib, c, removal, version, keys);
    forall k | k in keys
      ensures CanCommit(lib, HistoryOf(d.data, k.name), d.stores[k], version)
    {
      if k !in removal { ReplayAt(lib, c, d, version, k); }
    }
    CommitAllCommitsEach(lib, d, removal, version, keys);
    ListedTheSame(lib, c, d, removal, version, keys);
    forall k | k in keys && InterruptedAt(c, d, version, k)
      ensures var once, again := CommitAll(lib, c, removal, version, keys).value,
                                 CommitAll(lib, d, removal, version, keys).value;
              Completed(once.stores[k], HistoryOf(once.data, k.name),
                        d.stores[k], again.stores[k], HistoryOf(again.data, k.name), version)
    {
      ReplayAt(lib, c, d, version, k);
    }
  }

  // Working hash

  lemma {:induction false} HashesSnoc(infos: seq<StoreInfo>, more: seq<StoreInfo>)
    requires |more| <= 1
    ensures HashesOf(infos + more)
         == if more == [] then HashesOf(infos) else HashesOf(infos)[more[0].name := more[0].commitID.hash]
  {
    if more == [] {
      assert infos + more == infos;
    } else {
      assert (infos + more)[..|infos + more| - 1] == infos;
    }
  }

  predicate Predictable(sub: SubStore, version: nat) {
    !sub.DBAdapter? && !AlreadyThere(sub, version)
  }

  lemma {:induction false} WorkingHashesAreCommitted(lib: Library, c: Commits, removal: set<StoreKey>, version: nat,
                                                     keys: seq<StoreKey>)
    requires forall k :: k in keys ==> k in c.stores && CanCommit(lib, HistoryOf(c.data, k.name), c.stores[k], version)
    requires forall k :: k in keys && k !in removal ==> Predictable(c.stores[k], version)
    ensures HashesOf(WorkingInfos(lib, c.stores, removal, keys)) == HashesOf(ListedAll(lib, c, removal, version, keys))
  {
    if keys != [] {
      var init, k := keys[..|keys| - 1], keys[|keys| - 1];
      var sub, h := c.stores[k], HistoryOf(c.data, k.name);
      WorkingHashesAreCommitted(lib, c, removal, version, init);
      HashesSnoc(ListedAll(lib, c, removal, version, init), Listed(lib, h, sub, removal, version, k));
      HashesSnoc(WorkingInfos(lib, c.stores, removal, init),
                 if sub.IavlStore? && k !in removal
                   then [StoreInfo(k.name, CommitID(0, lib.hash(Pending(sub))))] else []);
    }
  }

  /** WorkingHash before a Commit is the hash the Commit returns, in whatever order the
      stores are visited, if no kept store is a database adapter or already committed. */
  lemma WorkingHashPredictsCommit(lib: Library, view: View, keys: seq<StoreKey>, visited: seq<StoreKey>)
    requires CommitView(lib, view, keys).Some?
    requires NamesDiffer(view.stores.Keys) && InNameOrder(keys, view.stores.Keys)
    requires InNameOrder(visited, view.stores.Keys)
    requires NextVersion(view) >= 0
    requires forall k :: k in view.stores && k !in view.removal ==> Predictable(view.stores[k], NextVersion(view))
    ensures lib.root(HashesOf(WorkingInfos(lib, view.stores, view.removal, visited)))
         == InfoHash(lib, CommitView(lib, view, keys).value.lastInfo.value)
  {
    var c := CommitViewParts(lib, view, keys);
    NameOrderUnique(keys, visited, view.stores.Keys);
    WorkingHashesAreCommitted(lib, Commits(view.data, view.stores, []), view.removal, NextVersion(view), keys);
  }

  // Upgrades

  /** The tree a store had when it was loaded. */
  function TreeAtLoad(data: Data, key: StoreKey, id: CommitID, initialVersion: nat): Tree {
    match LoadStore(data, key, id, TypeIAVL, initialVersion)
    case Some(sub) => sub.saved
    case None => Empty
  }

  /** Saving a version keeps the working contents, if the version does not exist yet or
      the hash, which is compared when it does, has no collisions. */
  lemma CommitKeepsContents(lib: Library, h: History, sub: SubStore, version: nat)
    requires sub.IavlStore? && !AlreadyThere(sub, version) && CanSave(lib, h, sub)
    requires WorkingVersion(sub) !in h || lib.CollisionFree()
    ensures Contents(CommittedStore(h, sub, version).saved) == ItemsOf(sub)
    ensures WorkingVersion(sub) in CommittedHistory(h, sub, version)
    ensures Contents(CommittedHistory(h, sub, version)[WorkingVersion(sub)]) == ItemsOf(sub)
  {
    StampKeepsContents(sub.working, WorkingVersion(sub));
  }

  /** Commit saves what a kept store holds. */
  lemma CommitSavesContents(lib: Library, view: View, named: seq<StoreKey>, after: View, k: StoreKey, next: nat)
    requires NamesDiffer(view.stores.Keys) && InNameOrder(named, view.stores.Keys)
    requires CommitView(lib, view, named) == Some(after) && NextVersion(view) == next
    requires k in view.stores && k !in view.removal && view.stores[k].IavlStore?
    requires view.stores[k].version < next && WorkingVersion(view.stores[k]) == next
    requires next !in HistoryOf(view.data, k.name) || lib.CollisionFree()
    ensures k in after.stores && after.stores[k].IavlStore? && after.stores[k].version == next
    ensures Contents(after.stores[k].saved) == ItemsOf(view.stores[k])
  {
    CommitKeepsStore(lib, view, named, k);
    CommitKeepsContents(lib, HistoryOf(view.data, k.name), view.stores[k], next);
  }

  /** A store in the removal map that was loaded leaves no trace after Commit. */
  lemma RemovedIsGone(lib: Library, view: View, keys: seq<StoreKey>, d: StoreKey)
    requires NamesDiffer(view.stores.Keys) && InNameOrder(keys, view.stores.Keys) && CommitView(lib, view, keys).Some?
    requires d in view.stores && d in view.removal
    ensures var after := CommitView(lib, view, keys).value;
            && d !in after.stores && d !in after.params && d.name !in after.byName
            && FindInfo(after.lastInfo.value.storeInfos, d.name) == None
            && HistoryOf(after.data, d.name)
               == CommittedHistory(HistoryOf(view.data, d.name), view.stores[d], NextVersion(view))
            && CanCommit(lib, HistoryOf(view.data, d.name), view.stores[d], NextVersion(view))
  {
    var c := CommitViewParts(lib, view, keys);
    OrderedKeysDistinct(keys, view.stores.Keys);
    ListedAllFind(lib, Commits(view.data, view.stores, []), view.removal, NextVersion(view), keys, d.name);
    AfterFlush(c.data, NextVersion(view), CommitInfo(NextVersion(view), c.infos), 0, d.name);
    assert d in view.removal * view.stores.Keys;
  }

  /** Commit saves what a dropped store holds too, before forgetting the store. */
  lemma DropSavesContents(lib: Library, view: View, named: seq<StoreKey>, after: View, d: StoreKey, next: nat)
    requires NamesDiffer(view.stores.Keys) && InNameOrder(named, view.stores.Keys)
    requires CommitView(lib, view, named) == Some(after) && NextVersion(view) == next
    requires d in view.stores && d in view.removal && view.stores[d].IavlStore?
    requires view.stores[d].version < next && WorkingVersion(view.stores[d]) == next
    requires next !in HistoryOf(view.data, d.name) || lib.CollisionFree()
    ensures d !in after.stores && d !in after.params && d.name !in after.byName
    ensures after.lastInfo.Some? && FindInfo(after.lastInfo.value.storeInfos, d.name) == None
    ensures next in HistoryOf(after.data, d.name)
    ensures Contents(HistoryOf(after.data, d.name)[next]) == ItemsOf(view.stores[d])
  {
    RemovedIsGone(lib, view, named, d);
    CommitKeepsContents(lib, HistoryOf(view.data, d.name), view.stores[d], next);
  }

  /** A load of version `ver` with upgrades that leads from view to `loaded`, and the
      Commit that follows it and leads to `after`. */
  ghost predicate Upgraded(lib: Library, view: View, ver: nat, up: Upgrades, order: seq<StoreKey>, named: seq<StoreKey>,
                           info: CommitInfo, loaded: View, after: View)
  {
    && Enumerates(order, view.params.Keys) && NamesDiffer(view.params.Keys)
    && (forall m :: m in view.params ==> m.Mounted?)
    && PositiveVersions(view.data) && ver >= 1 && InfoToLoad(view.data, ver) == Some(info) && info.version == ver
    && RenamesApart(view.params, up) && SuitsLoading(view, ver, up, info)
    && LoadView(lib, view, ver, up, order) == Some(loaded)
    && InNameOrder(named, loaded.stores.Keys) && CommitView(lib, loaded, named) == Some(after)
  }

  lemma LoadedForUpgrade(lib: Library, view: View, ver: nat, up: Upgrades, order: seq<StoreKey>, named: seq<StoreKey>,
                         info: CommitInfo, loaded: View, after: View, k: StoreKey)
    requires Upgraded(lib, view, ver, up, order, named, info, loaded, after)
    requires k in view.params && view.params[k] == TypeIAVL
    ensures Healthy(loaded) && NextVersion(loaded) == ver + 1 && loaded.data == view.data
    ensures LoadKey(lib, view.data, info.storeInfos, ver, up, k, TypeIAVL).Some?
    ensures k in loaded.stores
         && loaded.stores[k] == LoadKey(lib, view.data, info.storeInfos, ver, up, k, TypeIAVL).value.sub
    ensures k in loaded.removal <==> k in view.removal || k.name in up.deleted
    ensures RenamedFrom(up, k.name) != [] && k.name !in up.deleted ==>
              && DetachedKey(up, k) in loaded.stores && DetachedKey(up, k) in loaded.removal
              && LoadKey(lib, view.data, info.storeInfos, ver, up, k, TypeIAVL).value.moved
                 == Some(loaded.stores[DetachedKey(up, k)])
  {
    var i := LoadViewParts(lib, view, ver, up, order);
    LoadKeepsHealthy(lib, view, ver, up, order, info);
    EnumeratedNamesDistinct(order, view.params.Keys);
    OnlyDeletedDropped(up, order, k);
    assert k in order;
    LoadedStoreFacts(lib, view.data, info.storeInfos, ver, up, k, TypeIAVL);
    if RenamedFrom(up, k.name) != [] && k.name !in up.deleted {
      assert DetachedKey(up, k) in Dropped(up, k);
    }
  }

  lemma CommittedHoldsSaved(lib: Library, view: View, named: seq<StoreKey>, after: View, k: StoreKey)
    requires NamesDiffer(view.stores.Keys) && InNameOrder(named, view.stores.Keys)
    requires CommitView(lib, view, named) == Some(after)
    requires k in view.stores && k !in view.removal && view.stores[k].IavlStore?
    requires !AlreadyThere(view.stores[k], NextVersion(view))
    ensures k in after.stores && after.stores[k].IavlStore?
    ensures ItemsOf(after.stores[k]) == Contents(after.stores[k].saved)
  {
    CommitKeepsStore(lib, view, named, k);
  }

  /** A store added or renamed at `ver` starts from nothing, or from a version above. */
  lemma NewStoreVersion(lib: Library, data: Data, infos: seq<StoreInfo>, ver: nat, up: Upgrades, k: StoreKey)
    requires PositiveVersions(data) && IsNew(up, k.name)
    requires LoadKey(lib, data, infos, ver, up, k, TypeIAVL).Some?
    ensures var sub := LoadKey(lib, data, infos, ver, up, k, TypeIAVL).value.sub;
            && sub.IavlStore? && sub.initialVersion == ver + 1
            && (sub.version == 0 <==> HistoryOf(data, k.name) == map[])
            && (sub.version != 0 ==> sub.version >= ver + 1)
  {
    LoadedStoreFacts(lib, data, infos, ver, up, k, TypeIAVL);
    var h := HistoryOf(data, k.name);
    if h != map[] { assert h.Keys != {}; assert Latest(h) in h; }
  }

  /** In memory the renamed store has what the old one had, over what it had itself, and
      the old one has nothing. */
  lemma MovedContents(lib: Library, data: Data, infos: seq<StoreInfo>, ver: nat, up: Upgrades, k: StoreKey)
    requires lib.Lawful() && PositiveVersions(data)
    requires k.name !in up.deleted && RenamedFrom(up, k.name) != []
    requires LoadKey(lib, data, infos, ver, up, k, TypeIAVL).Some?
    ensures var ld := LoadKey(lib, data, infos, ver, up, k, TypeIAVL).value;
            && ld.sub.IavlStore? && ld.moved.Some?
            && ItemsOf(ld.sub)
               == Contents(TreeAtLoad(data, k, GetCommitID(infos, k.name), ver + 1))
                  + Contents(TreeAtLoad(data, DetachedKey(up, k), GetCommitID(infos, RenamedFrom(up, k.name)), 0))
            && ItemsOf(ld.moved.value) == map[]
            && (HistoryOf(data, k.name) == map[] ==>
                  TreeAtLoad(data, k, GetCommitID(infos, k.name), ver + 1) == Empty
                  && ld.sub.version == 0 && WorkingVersion(ld.sub) == ver + 1)
  {
    var own := LoadStore(data, k, GetCommitID(infos, k.name), TypeIAVL, ver + 1).value;
    var from := LoadStore(data, DetachedKey(up, k), GetCommitID(infos, RenamedFrom(up, k.name)), TypeIAVL, 0).value;
    FilledHasAll(lib, from, own);
    EmptiedIsEmpty(lib, from);
  }

  /** Between the load and the Commit the renamed store already holds these entries, in a
      store that is new or, after an interrupted commit of this very version, at it. */
  lemma RenamedInMemory(lib: Library, view: View, ver: nat, up: Upgrades, order: seq<StoreKey>, named: seq<StoreKey>,
                        info: CommitInfo, loaded: View, after: View, k: StoreKey)
    requires lib.Lawful() && Upgraded(lib, view, ver, up, order, named, info, loaded, after)
    requires k in view.params && view.params[k] == TypeIAVL && k !in view.removal
    requires k.name !in up.deleted && RenamedFrom(up, k.name) != []
    ensures Healthy(loaded) && NextVersion(loaded) == ver + 1 && loaded.data == view.data
    ensures k in loaded.stores && k !in loaded.removal && loaded.stores[k].IavlStore?
    ensures loaded.stores[k].version == ver + 1
         || (loaded.stores[k].version == 0 && WorkingVersion(loaded.stores[k]) == ver + 1
             && HistoryOf(view.data, k.name) == map[])
    ensures HistoryOf(view.data, k.name) == map[] ==>
              && loaded.stores[k].version == 0
              && TreeAtLoad(view.data, k, GetCommitID(info.storeInfos, k.name), ver + 1) == Empty
    ensures DetachedKey(up, k) in loaded.stores && DetachedKey(up, k) in loaded.removal
    ensures var id := GetCommitID(info.storeInfos, k.name);
            var oldID := GetCommitID(info.storeInfos, RenamedFrom(up, k.name));
            ItemsOf(loaded.stores[k])
            == Contents(TreeAtLoad(view.data, k, id, ver + 1))
               + Contents(TreeAtLoad(view.data, DetachedKey(up, k), oldID, 0))
  {
    LoadedForUpgrade(lib, view, ver, up, order, named, info, loaded, after, k);
    MovedContents(lib, view.data, info.storeInfos, ver, up, k);
    NewStoreVersion(lib, view.data, info.storeInfos, ver, up, k);
  }

  /** A rename, then Commit: the new store, at the new version, has its own entries
      overridden by every entry of the old one, and the old store is gone from the stores,
      the names and the commit info. */
  lemma RenameMovesData(lib: Library, view: View, ver: nat, up: Upgrades, order: seq<StoreKey>, named: seq<StoreKey>,
                        info: CommitInfo, loaded: View, after: View, k: StoreKey)
    requires lib.Lawful() && Upgraded(lib, view, ver, up, order, named, info, loaded, after)
    requires k in view.params && view.params[k] == TypeIAVL && k !in view.removal
    requires k.name !in up.deleted && RenamedFrom(up, k.name) != []
    ensures var oldName := RenamedFrom(up, k.name);
            && k in after.stores && after.stores[k].IavlStore? && after.stores[k].version == ver + 1
            && ItemsOf(after.stores[k])
               == Contents(TreeAtLoad(view.data, k, GetCommitID(info.storeInfos, k.name), ver + 1))
                  + Contents(TreeAtLoad(view.data, DetachedKey(up, k), GetCommitID(info.storeInfos, oldName), 0))
            && DetachedKey(up, k) !in after.stores && oldName !in after.byName
            && FindInfo(after.lastInfo.value.storeInfos, oldName) == None
  {
    RenamedInMemory(lib, view, ver, up, order, named, info, loaded, after, k);
    if AlreadyThere(loaded.stores[k], ver + 1) {
      CommitKeepsStore(lib, loaded, named, k);
    } else {
      CommitSavesContents(lib, loaded, named, after, k, ver + 1);
      CommittedHoldsSaved(lib, loaded, named, after, k);
    }
    RemovedIsGone(lib, loaded, named, DetachedKey(up, k));
  }

  /** Commit leaves a store that has the version already, on disk as well. */
  lemma LeftAsSaved(lib: Library, view: View, named: seq<StoreKey>, after: View, k: StoreKey, next: nat)
    requires Healthy(view) && InNameOrder(named, view.stores.Keys)
    requires CommitView(lib, view, named) == Some(after) && NextVersion(view) == next
    requires k in view.stores && k !in view.removal && view.stores[k].IavlStore? && view.stores[k].version == next
    ensures k in after.stores && after.stores[k] == view.stores[k]
    ensures next in HistoryOf(view.data, k.name) && HistoryOf(view.data, k.name)[next] == view.stores[k].saved
    ensures HistoryOf(after.data, k.name) == HistoryOf(view.data, k.name)
  {
    CommitKeepsStore(lib, view, named, k);
    assert BackedByDisk(view.data, k.name, view.stores[k]);
  }

  /** A new store is saved with what it holds, unless it is already at the version. */
  lemma NewOrLeft(lib: Library, view: View, named: seq<StoreKey>, after: View, k: StoreKey, next: nat)
    requires Healthy(view) && InNameOrder(named, view.stores.Keys)
    requires CommitView(lib, view, named) == Some(after) && NextVersion(view) == next
    requires k in view.stores && k !in view.removal && view.stores[k].IavlStore?
    requires var sub := view.stores[k];
             sub.version == next
             || (sub.version == 0 && WorkingVersion(sub) == next && HistoryOf(view.data, k.name) == map[])
    ensures k in after.stores && after.stores[k].IavlStore? && after.stores[k].version == next
    ensures view.stores[k].version == 0 ==> Contents(after.stores[k].saved) == ItemsOf(view.stores[k])
    ensures HistoryOf(view.data, k.name) != map[] ==>
              && next in HistoryOf(view.data, k.name)
              && after.stores[k].saved == HistoryOf(view.data, k.name)[next]
              && HistoryOf(after.data, k.name) == HistoryOf(view.data, k.name)
  {
    if view.stores[k].version == next {
      LeftAsSaved(lib, view, named, after, k, next);
    } else {
      CommitSavesContents(lib, view, named, after, k, next);
    }
  }

  /** What the new name has on disk after that Commit: what the old one held, or, if an
      interrupted Commit of this upgrade had already saved the version, that version. */
  lemma RenameSavesData(lib: Library, view: View, ver: nat, up: Upgrades, order: seq<StoreKey>, named: seq<StoreKey>,
                        info: CommitInfo, loaded: View, after: View, k: StoreKey)
    requires lib.Lawful() && Upgraded(lib, view, ver, up, order, named, info, loaded, after)
    requires k in view.params && view.params[k] == TypeIAVL && k !in view.removal
    requires k.name !in up.deleted && RenamedFrom(up, k.name) != []
    ensures k in after.stores && after.stores[k].IavlStore? && after.stores[k].version == ver + 1
    ensures HistoryOf(view.data, k.name) == map[] ==>
              Contents(after.stores[k].saved)
              == Contents(TreeAtLoad(view.data, DetachedKey(up, k),
                                     GetCommitID(info.storeInfos, RenamedFrom(up, k.name)), 0))
    ensures HistoryOf(view.data, k.name) != map[] ==>
              && ver + 1 in HistoryOf(view.data, k.name)
              && after.stores[k].saved == HistoryOf(view.data, k.name)[ver + 1]
              && HistoryOf(after.data, k.name) == HistoryOf(view.data, k.name)
  {
    RenamedInMemory(lib, view, ver, up, order, named, info, loaded, after, k);
    NewOrLeft(lib, loaded, named, after, k, ver + 1);
  }

  /** After the same Commit the old name has, on disk, an empty version: the data moved. */
  lemma RenameEmptiesOldName(lib: Library, view: View, ver: nat, up: Upgrades, order: seq<StoreKey>,
                             named: seq<StoreKey>, info: CommitInfo, loaded: View, after: View, k: StoreKey)
    requires lib.Lawful() && Upgraded(lib, view, ver, up, order, named, info, loaded, after)
    requires k in view.params && view.params[k] == TypeIAVL
    requires k.name !in up.deleted && RenamedFrom(up, k.name) != []
    requires GetCommitID(info.storeInfos, RenamedFrom(up, k.name)).version == ver
    requires ver + 1 !in HistoryOf(view.data, RenamedFrom(up, k.name)) || lib.CollisionFree()
    ensures ver + 1 in HistoryOf(after.data, RenamedFrom(up, k.name))
    ensures Contents(HistoryOf(after.data, RenamedFrom(up, k.name))[ver + 1]) == map[]
  {
    LoadedForUpgrade(lib, view, ver, up, order, named, info, loaded, after, k);
    MovedContents(lib, view.data, info.storeInfos, ver, up, k);
    DropSavesContents(lib, loaded, named, after, DetachedKey(up, k), ver + 1);
  }

  /** Loading a store that is neither added nor renamed. */
  lemma PlainLoad(lib: Library, data: Data, infos: seq<StoreInfo>, ver: nat, up: Upgrades, k: StoreKey)
    requires PositiveVersions(data) && ver >= 1 && !IsNew(up, k.name)
    requires LoadKey(lib, data, infos, ver, up, k, TypeIAVL).Some?
    ensures var sub := LoadKey(lib, data, infos, ver, up, k, TypeIAVL).value.sub;
            && sub.IavlStore? && sub.version == ver && WorkingVersion(sub) == ver + 1
            && ver in HistoryOf(data, k.name) && sub.saved == HistoryOf(data, k.name)[ver]
            && (k.name !in up.deleted ==> ItemsOf(sub) == Contents(sub.saved))
            && (k.name in up.deleted && lib.Lawful() ==> ItemsOf(sub) == map[])
  {
    LoadedStoreFacts(lib, data, infos, ver, up, k, TypeIAVL);
    if k.name in up.deleted && lib.Lawful() {
      EmptiedIsEmpty(lib, LoadStore(data, k, GetCommitID(infos, k.name), TypeIAVL, 0).value);
    }
  }

  /** A deleted store, after Commit: no trace in memory or in the commit info, and what it
      saved last is empty. */
  lemma DeleteLeavesNothing(lib: Library, view: View, ver: nat, up: Upgrades, order: seq<StoreKey>,
                            named: seq<StoreKey>, info: CommitInfo, loaded: View, after: View, k: StoreKey)
    requires lib.Lawful() && Upgraded(lib, view, ver, up, order, named, info, loaded, after)
    requires k in view.params && view.params[k] == TypeIAVL && k.name in up.deleted && !IsNew(up, k.name)
    requires ver + 1 !in HistoryOf(view.data, k.name) || lib.CollisionFree()
    ensures && k !in after.stores && k !in after.params && k.name !in after.byName
            && FindInfo(after.lastInfo.value.storeInfos, k.name) == None
            && ver + 1 in HistoryOf(after.data, k.name)
            && Contents(HistoryOf(after.data, k.name)[ver + 1]) == map[]
  {
    LoadedForUpgrade(lib, view, ver, up, order, named, info, loaded, after, k);
    PlainLoad(lib, view.data, info.storeInfos, ver, up, k);
    DropSavesContents(lib, loaded, named, after, k, ver + 1);
  }

  /** A store that no upgrade names keeps its contents across the upgrade and the Commit. */
  lemma UpgradeLeavesOthersAlone(lib: Library, view: View, ver: nat, up: Upgrades, order: seq<StoreKey>,
                                 named: seq<StoreKey>, info: CommitInfo, loaded: View, after: View, k: StoreKey)
    requires Upgraded(lib, view, ver, up, order, named, info, loaded, after)
    requires k in view.params && view.params[k] == TypeIAVL && k !in view.removal
    requires k.name !in up.deleted && !IsNew(up, k.name)
    requires ver + 1 !in HistoryOf(view.data, k.name) || lib.CollisionFree()
    ensures && k in after.stores && after.stores[k].IavlStore? && after.stores[k].version == ver + 1
            && ver in HistoryOf(view.data, k.name)
            && Contents(after.stores[k].saved) == Contents(HistoryOf(view.data, k.name)[ver])
  {
    LoadedForUpgrade(lib, view, ver, up, order, named, info, loaded, after, k);
    PlainLoad(lib, view.data, info.storeInfos, ver, up, k);
    CommitSavesContents(lib, loaded, named, after, k, ver + 1);
  }

  /** After the upgrade and the Commit, opening the database with the new mounts loads the
      same commit info and trees. */
  lemma UpgradeReloads(lib: Library, view: View, ver: nat, up: Upgrades, order: seq<StoreKey>, named: seq<StoreKey>,
                       info: CommitInfo, loaded: View, after: View, reopened: View, keys: seq<StoreKey>)
    requires Upgraded(lib, view, ver, up, order, named, info, loaded, after)
    requires reopened.data == after.data && MountsMatch(reopened.params, after.stores)
    requires Enumerates(keys, reopened.params.Keys)
    ensures GetLatestVersion(after.data) == ver + 1
    ensures LoadView(lib, reopened, ver + 1, NO_UPGRADES, keys).Some?
    ensures var again := LoadView(lib, reopened, ver + 1, NO_UPGRADES, keys).value;
            && again.lastInfo == after.lastInfo
            && forall k :: k in reopened.params && reopened.params[k] == TypeIAVL ==>
                 && k in again.stores
                 && again.stores[k] == IavlStore(ver + 1, after.stores[k].saved, after.stores[k].saved, 0)
  {
    LoadKeepsHealthy(lib, view, ver, up, order, info);
    CommitKeepsLockstep(lib, loaded, named);
    LockstepReloads(lib, after, reopened, keys);
  }
}

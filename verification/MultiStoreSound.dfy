// Over every run all trees are sound: what a snapshot relies on when it exports one.

module MultiStoreSound {
  import opened Wrappers
  import opened Bytes
  import opened Iavl
  import opened MultiStores
  import opened MultiStoreLoading
  import opened MultiStoreTheorems
  import opened MultiStoreSnapshots
  import opened MultiStoreRuns

  ghost predicate SoundHistory(h: History) {
    forall u :: u in h ==> SoundVersion(h[u], u)
  }

  ghost predicate SoundData(data: Data) {
    forall name :: SoundHistory(HistoryOf(data, name))
  }

  predicate SoundStore(sub: SubStore) {
    sub.IavlStore? ==> SoundVersion(sub.saved, sub.version) && SoundVersion(sub.working, sub.version)
  }

  ghost predicate SoundStores(stores: Stores) {
    forall k :: k in stores ==> SoundStore(stores[k])
  }

  ghost predicate SoundView(view: View) {
    SoundData(view.data) && SoundStores(view.stores)
  }

  // Loading

  lemma {:induction false} RemoveKeysSound(lib: Library, t: Tree, keys: seq<Key>, n: nat)
    requires lib.KeepsSound() && SoundVersion(t, n)
    ensures SoundVersion(RemoveKeys(lib, t, keys), n)
  {
    if keys != [] {
      RemoveKeysSound(lib, t, keys[..|keys| - 1], n);
    }
  }

  lemma {:induction false} SetKeysSound(lib: Library, t: Tree, data: map<Key, Value>, keys: seq<Key>, n: nat)
    requires lib.KeepsSound() && SoundVersion(t, n) && forall k :: k in keys ==> k in data
    ensures SoundVersion(SetKeys(lib, t, data, keys), n)
  {
    if keys != [] {
      SetKeysSound(lib, t, data, keys[..|keys| - 1], n);
    }
  }

  lemma LoadStoreSound(data: Data, key: StoreKey, id: CommitID, typ: StoreType, initialVersion: nat)
    requires SoundData(data) && LoadStore(data, key, id, typ, initialVersion).Some?
    ensures SoundStore(LoadStore(data, key, id, typ, initialVersion).value)
  {
    var h := HistoryOf(data, key.name);
    assert SoundHistory(h);
    if h != map[] {
      assert h.Keys != {};
      assert Latest(h) in h;
    }
  }

  lemma EmptiedSound(lib: Library, sub: SubStore)
    requires lib.KeepsSound() && SoundStore(sub)
    ensures SoundStore(Emptied(lib, sub))
  {
    if sub.IavlStore? { RemoveKeysSound(lib, sub.working, KeysOfStore(sub), sub.version); }
  }

  lemma FilledSound(lib: Library, from: SubStore, to: SubStore)
    requires lib.KeepsSound() && SoundStore(to)
    ensures SoundStore(Filled(lib, from, to))
  {
    if to.IavlStore? { SetKeysSound(lib, to.working, ItemsOf(from), KeysOfStore(from), to.version); }
  }

  lemma LoadKeySound(lib: Library, data: Data, infos: seq<StoreInfo>, ver: nat, up: Upgrades, key: StoreKey,
                     typ: StoreType)
    requires lib.KeepsSound() && SoundData(data) && LoadKey(lib, data, infos, ver, up, key, typ).Some?
    ensures var ld := LoadKey(lib, data, infos, ver, up, key, typ).value;
            SoundStore(ld.sub) && (ld.moved.Some? ==> SoundStore(ld.moved.value))
  {
    var iv := if IsNew(up, key.name) then ver + 1 else 0;
    var sub := LoadStore(data, key, GetCommitID(infos, key.name), typ, iv).value;
    LoadStoreSound(data, key, GetCommitID(infos, key.name), typ, iv);
    if key.name in up.deleted {
      EmptiedSound(lib, sub);
    } else if RenamedFrom(up, key.name) != [] {
      var id := GetCommitID(infos, RenamedFrom(up, key.name));
      var from := LoadStore(data, DetachedKey(up, key), id, typ, 0).value;
      LoadStoreSound(data, DetachedKey(up, key), id, typ, 0);
      EmptiedSound(lib, from);
      FilledSound(lib, from, sub);
    }
  }

  lemma LoadedSound(lib: Library, data: Data, infos: seq<StoreInfo>, ver: nat, up: Upgrades,
                    params: map<StoreKey, StoreType>, keys: seq<StoreKey>, stores: Stores)
    requires lib.KeepsSound() && SoundData(data) && forall k :: k in keys ==> k in params
    requires LoadsEach(lib, data, infos, ver, up, params, keys, stores)
    ensures SoundStores(stores)
  {
    forall d | d in stores
      ensures SoundStore(stores[d])
    {
      var k :| && k in keys
               && (d == k || (d == DetachedKey(up, k) && k.name !in up.deleted && RenamedFrom(up, k.name) != []));
      LoadKeySound(lib, data, infos, ver, up, k, params[k]);
    }
  }

  lemma LoadViewSound(lib: Library, view: View, ver: nat, up: Upgrades, order: seq<StoreKey>, after: View)
    requires lib.KeepsSound() && SoundData(view.data)
    requires Enumerates(order, view.params.Keys) && NamesDiffer(view.params.Keys)
    requires forall k :: k in view.params ==> k.Mounted?
    requires LoadView(lib, view, ver, up, order) == Some(after)
    ensures SoundView(after)
  {
    var info := LoadViewParts(lib, view, ver, up, order);
    LoadedSound(lib, view.data, info.storeInfos, ver, up, view.params, order, after.stores);
  }

  // Committing

  lemma CommittedSound(lib: Library, h: History, sub: SubStore, version: nat)
    requires SoundHistory(h) && SoundStore(sub)
    ensures SoundHistory(CommittedHistory(h, sub, version)) && SoundStore(CommittedStore(h, sub, version))
  {
    if sub.IavlStore? && sub.working != Empty {
      StampIsSound(sub.working, sub.version, WorkingVersion(sub));
    }
  }

  lemma CommitsEachSound(lib: Library, c: Commits, d: Commits, version: nat, keys: seq<StoreKey>)
    requires SoundData(c.data) && SoundStores(c.stores) && CommitsEach(lib, c, d, version, keys)
    ensures SoundData(d.data) && SoundStores(d.stores)
  {
    forall name
      ensures SoundHistory(HistoryOf(d.data, name))
    {
      assert SoundHistory(HistoryOf(c.data, name));
      if k :| k in keys && k.name == name {
        CommittedSound(lib, HistoryOf(c.data, k.name), c.stores[k], version);
      }
    }
    forall k | k in d.stores
      ensures SoundStore(d.stores[k])
    {
      assert SoundHistory(HistoryOf(c.data, k.name));
      if k in keys { CommittedSound(lib, HistoryOf(c.data, k.name), c.stores[k], version); }
    }
  }

  lemma SameHistoriesSound(data: Data, later: Data)
    requires SoundData(data) && forall name :: HistoryOf(later, name) == HistoryOf(data, name)
    ensures SoundData(later)
  {
  }

  lemma CommitSound(lib: Library, view: View, keys: seq<StoreKey>, after: View)
    requires NamesDiffer(view.stores.Keys) && InNameOrder(keys, view.stores.Keys)
    requires SoundView(view) && CommitView(lib, view, keys) == Some(after)
    ensures SoundView(after)
  {
    var c := CommitViewParts(lib, view, keys);
    CommitsEachSound(lib, Commits(view.data, view.stores, []), c, NextVersion(view), keys);
    HistoriesAfterFlush(c.data, NextVersion(view), CommitInfo(NextVersion(view), c.infos));
    SameHistoriesSound(c.data, after.data);
  }

  // Cutting histories back, and importing

  lemma RollsBackSound(r: Rolling, s: Rolling, target: nat, keys: seq<StoreKey>)
    requires SoundData(r.data) && RollsBackEach(r, s, target, keys)
    ensures SoundData(s.data)
  {
    forall name
      ensures SoundHistory(HistoryOf(s.data, name))
    {
      assert SoundHistory(HistoryOf(r.data, name));
      if k :| k in keys && r.stores[k].IavlStore? && k.name == name {
        assert HistoryOf(s.data, k.name) == DeleteVersionsAfter(HistoryOf(r.data, k.name), target);
      }
    }
  }

  lemma PrunesEachSound(data: Data, pruned: Data, stores: Stores, height: int, keys: seq<StoreKey>)
    requires SoundData(data) && PrunesEach(data, pruned, stores, height, keys)
    ensures SoundData(pruned)
  {
    forall name
      ensures SoundHistory(HistoryOf(pruned, name))
    {
      assert SoundHistory(HistoryOf(data, name));
      if k :| k in keys && k in stores && stores[k].IavlStore? && k.name == name {
        assert HistoryOf(pruned, k.name) == DeleteVersionsTo(HistoryOf(data, k.name), height);
      }
    }
  }

  /** The trees an importer has on its stack are sound. */
  ghost predicate SoundRestoring(r: Restoring, height: nat) {
    && SoundData(r.data) && SoundStores(r.stores)
    && (r.open.Some? ==> forall t :: t in r.open.value.stack ==> Sound(t, height))
  }

  lemma CloseSound(r: Restoring, height: nat)
    requires SoundRestoring(r, height) && CloseImport(r, height).Some?
    ensures SoundRestoring(CloseImport(r, height).value, height)
  {
    if r.open.Some? {
      var key, t := r.open.value.key, CommitImport(r.open.value.stack).value;
      assert SoundVersion(t, height);
      AfterSaveEverywhere(r.data, key.name, map[height := t]);
      forall name
        ensures SoundHistory(HistoryOf(SaveHistory(r.data, key.name, map[height := t]), name))
      {
        assert SoundHistory(HistoryOf(r.data, name));
      }
    }
  }

  lemma AddNodeSound(stack: seq<Tree>, node: ExportNode, height: nat)
    requires (forall t :: t in stack ==> Sound(t, height)) && AddNode(stack, node, height).Some?
    ensures forall t :: t in AddNode(stack, node, height).value ==> Sound(t, height)
  {
    var n := |stack|;
    if node.height > 0 {
      assert stack[n - 1] in stack && stack[n - 2] in stack;
      assert forall t :: t in stack[..n - 2] ==> t in stack;
    }
  }

  lemma {:induction false} RestoreItemsSound(r: Restoring, byName: map<Key, StoreKey>, height: nat,
                                             items: seq<SnapshotItem>)
    requires SoundRestoring(r, height) && RestoreItems(r, byName, height, items).Some?
    ensures SoundRestoring(RestoreItems(r, byName, height, items).value, height)
  {
    if items != [] {
      var init, item := items[..|items| - 1], items[|items| - 1];
      RestoreItemsSound(r, byName, height, init);
      var s := RestoreItems(r, byName, height, init).value;
      if item.StoreItem? {
        CloseSound(s, height);
      } else if item.NodeItem? {
        AddNodeSound(s.open.value.stack, item.node, height);
      }
    }
  }

  lemma RestoreSound(lib: Library, v: View, height: nat, items: seq<SnapshotItem>, named: seq<StoreKey>,
                     mounted: seq<StoreKey>, w: View)
    requires lib.KeepsSound() && SoundView(v) && Healthy(v) && height >= 1
    requires InNameOrder(named, v.stores.Keys) && Enumerates(mounted, v.params.Keys)
    requires RestoreView(lib, v, height, items, named, mounted) == Some(w)
    ensures SoundView(w)
  {
    var start, own := Restoring(v.data, v.stores, None), items[..OwnItems(items)];
    RestoreItemsSound(start, v.byName, height, own);
    var r := RestoreItems(start, v.byName, height, own).value;
    CloseSound(r, height);
    var c := CloseImport(r, height).value;
    var info := CommitInfo(height, BuiltInfos(lib, c.stores, named));
    var mid := v.(data := Flushed(c.data, height, info), stores := c.stores);
    HistoriesAfterFlush(c.data, height, info);
    SameHistoriesSound(c.data, mid.data);
    LoadViewSound(lib, mid, height, NO_UPGRADES, mounted, w);
  }

  lemma RollbackSound(lib: Library, v: View, target: nat, order: seq<StoreKey>, named: seq<StoreKey>,
                      mounted: seq<StoreKey>, w: View)
    requires lib.KeepsSound() && SoundView(v) && Healthy(v)
    requires Enumerates(order, v.stores.Keys) && InNameOrder(named, v.stores.Keys) && Enumerates(mounted, v.params.Keys)
    requires RollbackView(lib, v, target, order, named, mounted) == Some(w)
    ensures SoundView(w)
  {
    var s, mid := RollbackParts(lib, v, target, order, named, mounted);
    RollsBackSound(Rolling(v.data, v.stores), s, target, order);
    SameHistoriesSound(s.data, mid.data);
    LoadViewSound(lib, mid, target, NO_UPGRADES, mounted, w);
  }

  // Runs

  lemma StepKeepsSound(lib: Library, v: View, step: Step, w: View)
    requires lib.KeepsSound() && Healthy(v) && SoundView(v) && Takes(lib, v, step, w)
    ensures SoundView(w)
  {
    match step
    case Write(key, k, value) =>
      assert SoundStore(Written(lib, v.stores[key], k, value));
    case Mount(_, _) =>
    case Load(version, up, order) =>
      LoadViewSound(lib, v, version, up, order, w);
    case Commit(named) =>
      CommitSound(lib, v, named, w);
    case Rollback(target, order, named, mounted) =>
      RollbackSound(lib, v, target, order, named, mounted, w);
    case Restore(height, items, named, mounted) =>
      RestoreSound(lib, v, height, items, named, mounted, w);
    case Prune(height, order) =>
      if height > 0 {
        EnumeratedNamesDistinct(order, v.stores.Keys);
        PruneAllPrunesEach(v.data, v.stores, height, order);
        PrunesEachSound(v.data, w.data, v.stores, height, order);
      }
    case SetInitialVersion(_) =>
    case CrashInCommit(named, saved) =>
      var c := CommitsSome(lib, v, named, saved);
      CommitsEachSound(lib, Commits(v.data, v.stores, []), c, NextVersion(v), named[..saved]);
    case CrashInRollback(target, order, cut) =>
      var s := RollsBackSome(v, target, order, cut);
      RollsBackSound(Rolling(v.data, v.stores), s, target, order[..cut]);
    case CrashInRestore(height, items, closed) =>
      RestoreItemsSound(Restoring(v.data, v.stores, None), v.byName, height, items);
      if closed { CloseSound(RestoreItems(Restoring(v.data, v.stores, None), v.byName, height, items).value, height); }
  }

  /** At every moment of a run from a sound store, every tree on disk and in memory is sound. */
  lemma {:induction false} RunsStaySound(lib: Library, states: seq<View>, steps: seq<Step>, i: nat)
    requires lib.KeepsSound() && IsRun(lib, states, steps) && Running(states[0]) && SoundView(states[0]) && i < |states|
    ensures SoundView(states[i])
  {
    if i > 0 {
      RunsStaySound(lib, states, steps, i - 1);
      RunsStayInLockstep(lib, states, steps, i - 1);
      StepOfRun(lib, states, steps, i);
      StepKeepsSound(lib, states[i - 1], steps[i - 1], states[i]);
    }
  }

  /** So of a store of a run every height can be snapshot that each IAVL store has, with
      no node higher than 127, which is all a snapshot item can say, unless an adapter is among the stores. */
  lemma RunsCanBeSnapshot(lib: Library, states: seq<View>, steps: seq<Step>, i: nat, height: nat, keys: seq<StoreKey>)
    requires lib.KeepsSound() && IsRun(lib, states, steps) && Running(states[0]) && SoundView(states[0]) && i < |states|
    requires forall k :: k in keys ==>
               && k in states[i].stores && !states[i].stores[k].DBAdapter?
               && (states[i].stores[k].IavlStore? ==>
                     && height in HistoryOf(states[i].data, k.name)
                     && forall node :: node in Export(HistoryOf(states[i].data, k.name)[height]) ==> node.height <= 127)
    ensures Exportable(states[i].data, states[i].stores, height, keys)
  {
    RunsStaySound(lib, states, steps, i);
    forall k | k in keys && states[i].stores[k].IavlStore?
      ensures SoundVersion(HistoryOf(states[i].data, k.name)[height], height)
    {
      assert SoundHistory(HistoryOf(states[i].data, k.name));
    }
  }
}

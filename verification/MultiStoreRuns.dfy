// Every run of a root store and its restarts.

module MultiStoreRuns {
  import opened Wrappers
  import opened Bytes
  import opened Iavl
  import opened MultiStores
  import opened MultiStoreLoading
  import opened MultiStoreTheorems
  import opened MultiStoreSnapshots

  /** One operation; the sequences say in which order it visits the stores. */
  datatype Step =
    | Write(key: StoreKey, k: Key, value: Option<Value>)  // None deletes the entry
    | Mount(key: StoreKey, typ: StoreType)
    | Load(version: nat, up: Upgrades, order: seq<StoreKey>)
    | Commit(named: seq<StoreKey>)
    | Rollback(target: nat, order: seq<StoreKey>, named: seq<StoreKey>, mounted: seq<StoreKey>)
    | Restore(height: nat, items: seq<SnapshotItem>, named: seq<StoreKey>, mounted: seq<StoreKey>)
    | Prune(height: nat, order: seq<StoreKey>)
    | SetInitialVersion(version: nat)
    // The process dies inside Commit, after some substores were saved, and a new one starts.
    | CrashInCommit(named: seq<StoreKey>, saved: nat)
    // The process dies inside RollbackToVersion, after some substores were cut back.
    | CrashInRollback(target: nat, order: seq<StoreKey>, cut: nat)
    // The process dies inside Restore, after these items and perhaps the last import's end.
    | CrashInRestore(height: nat, items: seq<SnapshotItem>, closed: bool)

  /** The steps that write metadata. */
  predicate Rewrites(step: Step) {
    step.Commit? || step.Rollback? || step.Restore?
  }

  function Written(lib: Library, sub: SubStore, k: Key, value: Option<Value>): SubStore {
    match sub
    case IavlStore(_, _, t, _) => sub.(working := if value.Some? then lib.set_(t, k, value.value) else lib.remove(t, k))
    case TransientStore(items) => TransientStore(if value.Some? then items[k := value.value] else items - {k})
    case MemoryStore(items) => MemoryStore(if value.Some? then items[k := value.value] else items - {k})
    case DBAdapter => DBAdapter
  }

  /** A write changes one entry, and not the kind of the store or what it has saved. */
  lemma WrittenOutcome(lib: Library, sub: SubStore, k: Key, value: Option<Value>)
    requires lib.Lawful()
    ensures !sub.DBAdapter? ==>
              ItemsOf(Written(lib, sub, k, value))
              == if value.Some? then ItemsOf(sub)[k := value.value] else ItemsOf(sub) - {k}
    ensures sub.IavlStore? ==>
              Written(lib, sub, k, value) == sub.(working := Written(lib, sub, k, value).working)
    ensures sub.TransientStore? ==> Written(lib, sub, k, value).TransientStore?
    ensures sub.MemoryStore? ==> Written(lib, sub, k, value).MemoryStore?
    ensures sub.DBAdapter? ==> Written(lib, sub, k, value) == sub
  {
    if sub.IavlStore? {
      assert value.Some? ==> lib.SetLaw(sub.working, k, value.value);
      assert value.None? ==> lib.RemoveLaw(sub.working, k);
    }
  }

  /** Pruning up to a height leaves this version: it is above, or all is at or below the
      height, which DeleteVersionsTo refuses. */
  predicate Survives(h: History, version: nat, height: nat) {
    height < version || Latest(h) <= height
  }

  /** The process dies inside a Commit of v that has saved some substores; w is a new one. */
  ghost predicate DiesInCommit(lib: Library, v: View, named: seq<StoreKey>, saved: nat, w: View) {
    && InNameOrder(named, v.stores.Keys) && saved <= |named| && NextVersion(v) >= 1
    && var c := CommitAll(lib, Commits(v.data, v.stores, []), v.removal, NextVersion(v), named[..saved]);
    && c.Some? && w == NewView(c.value.data)
  }

  /** A successful step from v to w. Loads must suit the next Commit, renames stay apart
      from other names, pruning keeps the versions in use, and the initial version is set
      before the first version or after every store has one. A rollback may die without a
      loss only if it does not go behind the version the metadata names. */
  ghost predicate Takes(lib: Library, v: View, step: Step, w: View) {
    match step
    case Write(key, k, value) =>
      && key in v.stores
      && w == v.(stores := v.stores[key := Written(lib, v.stores[key], k, value)])
    case Mount(key, typ) =>
      && key.Mounted? && (forall k :: k in v.params ==> k.name != key.name)
      && w == v.(params := v.params[key := typ], byName := v.byName[key.name := key])
    case Load(version, up, order) =>
      && Enumerates(order, v.params.Keys)
      && LoadView(lib, v, version, up, order) == Some(w)
      && RenamesApart(v.params, up)
      && SuitsLoading(v, version, up, InfoToLoad(v.data, version).value)
    case Commit(named) =>
      InNameOrder(named, v.stores.Keys) && CommitView(lib, v, named) == Some(w)
    case Rollback(target, order, named, mounted) =>
      && Enumerates(order, v.stores.Keys) && InNameOrder(named, v.stores.Keys) && Enumerates(mounted, v.params.Keys)
      && RollbackView(lib, v, target, order, named, mounted) == Some(w)
    case Restore(height, items, named, mounted) =>
      && InNameOrder(named, v.stores.Keys) && Enumerates(mounted, v.params.Keys) && height >= 1
      && RestoreView(lib, v, height, items, named, mounted) == Some(w)
    case Prune(height, order) =>
      && Enumerates(order, v.stores.Keys)
      && (forall k :: k in v.stores && v.stores[k].IavlStore? ==>
            var h := HistoryOf(v.data, k.name);
            && (v.stores[k].version in h ==> Survives(h, v.stores[k].version, height))
            && (GetLatestVersion(v.data) in h ==> Survives(h, GetLatestVersion(v.data), height)))
      && w == v.(data := PruneAll(v.data, v.stores, height, order))
    case SetInitialVersion(version) =>
      && (forall k :: k in v.stores && k !in v.removal && v.stores[k].IavlStore? ==>
            (v.stores[k].version == 0 <==> InfoVersion(v.lastInfo) == 0))
      && w == InitialVersionSet(v, version)
    case CrashInCommit(named, saved) =>
      DiesInCommit(lib, v, named, saved, w)
    case CrashInRollback(target, order, cut) =>
      && Enumerates(order, v.stores.Keys) && cut <= |order| && target >= GetLatestVersion(v.data)
      && var s := RollbackAll(Rolling(v.data, v.stores), target, order[..cut]);
      && s.Some? && w == NewView(s.value.data)
    case CrashInRestore(height, items, closed) =>
      && height >= 1
      && var r := RestoreItems(Restoring(v.data, v.stores, None), v.byName, height, items);
      && r.Some? && (closed ==> CloseImport(r.value, height).Some?)
      && w == NewView(if closed then CloseImport(r.value, height).value.data else r.value.data)
  }

  /** Every commit info is recorded under its own version. */
  ghost predicate InfosLabelled(data: Data) {
    forall n :: GetCommitInfo(data, n).Some? ==> GetCommitInfo(data, n).value.version == n
  }

  /** The invariant of a run. */
  ghost predicate Running(view: View) {
    Healthy(view) && InfosLabelled(view.data)
  }

  lemma FlushKeepsLabels(before: Data, data: Data, version: nat, infos: seq<StoreInfo>)
    requires InfosLabelled(before) && SameMetadata(before, data)
    ensures InfosLabelled(Flushed(data, version, CommitInfo(version, infos)))
  {
    forall n
      ensures var i := GetCommitInfo(Flushed(data, version, CommitInfo(version, infos)), n);
              i.Some? ==> i.value.version == n
    {
      AfterFlush(data, version, CommitInfo(version, infos), n, []);
    }
  }

  lemma CommittedVersionsPositive(lib: Library, c: Commits, d: Commits, version: nat, keys: seq<StoreKey>)
    requires PositiveVersions(c.data) && CommitsEach(lib, c, d, version, keys)
    ensures PositiveVersions(d.data)
  {
    forall name
      ensures 0 !in HistoryOf(d.data, name)
    {
      assert 0 !in HistoryOf(c.data, name);
      if k :| k in keys && k.name == name {
        assert HistoryOf(d.data, k.name) == CommittedHistory(HistoryOf(c.data, k.name), c.stores[k], version);
      }
    }
  }

  /** What a Commit that dies has done. */
  lemma CommitsSome(lib: Library, v: View, named: seq<StoreKey>, saved: nat) returns (c: Commits)
    requires Healthy(v) && InNameOrder(named, v.stores.Keys) && saved <= |named|
    requires CommitAll(lib, Commits(v.data, v.stores, []), v.removal, NextVersion(v), named[..saved]).Some?
    ensures c == CommitAll(lib, Commits(v.data, v.stores, []), v.removal, NextVersion(v), named[..saved]).value
    ensures CommitsEach(lib, Commits(v.data, v.stores, []), c, NextVersion(v), named[..saved])
    ensures PositiveVersions(c.data) && SameMetadata(v.data, c.data)
  {
    var keys := named[..saved];
    OrderedKeysDistinct(named, v.stores.Keys);
    assert forall k :: k in keys ==> k in named;
    CommitAllCommitsEach(lib, Commits(v.data, v.stores, []), v.removal, NextVersion(v), keys);
    c := CommitAll(lib, Commits(v.data, v.stores, []), v.removal, NextVersion(v), keys).value;
    CommittedVersionsPositive(lib, Commits(v.data, v.stores, []), c, NextVersion(v), keys);
  }

  /** What a rollback that dies has done. */
  lemma RollsBackSome(v: View, target: nat, order: seq<StoreKey>, cut: nat) returns (s: Rolling)
    requires Healthy(v) && Enumerates(order, v.stores.Keys) && cut <= |order|
    requires RollbackAll(Rolling(v.data, v.stores), target, order[..cut]).Some?
    ensures s == RollbackAll(Rolling(v.data, v.stores), target, order[..cut]).value
    ensures RollsBackEach(Rolling(v.data, v.stores), s, target, order[..cut])
    ensures PositiveVersions(s.data) && SameMetadata(v.data, s.data)
  {
    var keys := order[..cut];
    EnumeratedNamesDistinct(order, v.stores.Keys);
    assert forall k :: k in keys ==> k in order;
    RollbackAllRollsBackEach(Rolling(v.data, v.stores), target, keys);
    s := RollbackAll(Rolling(v.data, v.stores), target, keys).value;
    RollbackKeepsPositive(v, s, target, keys);
  }

  /** What a restore that dies has done. */
  lemma RestoresSome(v: View, height: nat, items: seq<SnapshotItem>, closed: bool, data: Data)
    requires Healthy(v) && height >= 1
    requires var r := RestoreItems(Restoring(v.data, v.stores, None), v.byName, height, items);
             && r.Some? && (closed ==> CloseImport(r.value, height).Some?)
             && data == if closed then CloseImport(r.value, height).value.data else r.value.data
    ensures PositiveVersions(data) && OnlyFreshFilled(v.data, data)
  {
    var start := Restoring(v.data, v.stores, None);
    RestoreKeepsBacked(start, v.byName, height, items);
    RestoreFillsFresh(start, v.byName, height, items);
    if closed {
      var r := RestoreItems(start, v.byName, height, items).value;
      CloseKeepsBacked(r, height);
      CloseFillsFresh(r, height);
      FreshTransitive(v.data, r.data, data);
    }
  }

  lemma PruneKeepsHealthy(v: View, height: nat, order: seq<StoreKey>)
    requires Healthy(v) && Enumerates(order, v.stores.Keys)
    requires forall k :: k in v.stores && v.stores[k].IavlStore? && v.stores[k].version in HistoryOf(v.data, k.name) ==>
               Survives(HistoryOf(v.data, k.name), v.stores[k].version, height)
    ensures Healthy(v.(data := PruneAll(v.data, v.stores, height, order)))
  {
    if height > 0 {
      var data := PruneAll(v.data, v.stores, height, order);
      EnumeratedNamesDistinct(order, v.stores.Keys);
      PruneAllPrunesEach(v.data, v.stores, height, order);
      forall k | k in v.stores
        ensures BackedByDisk(data, k.name, v.stores[k])
      {
        assert BackedByDisk(v.data, k.name, v.stores[k]);
      }
      forall name
        ensures 0 !in HistoryOf(data, name)
      {
        assert 0 !in HistoryOf(v.data, name);
        if k :| k in order && v.stores[k].IavlStore? && k.name == name {
          assert HistoryOf(data, k.name) == DeleteVersionsTo(HistoryOf(v.data, k.name), height);
        }
      }
    }
  }

  lemma CommitKeepsLabels(lib: Library, v: View, named: seq<StoreKey>, w: View)
    requires Running(v) && InNameOrder(named, v.stores.Keys) && CommitView(lib, v, named) == Some(w)
    ensures InfosLabelled(w.data)
  {
    var c := CommitViewParts(lib, v, named);
    FlushKeepsLabels(v.data, c.data, NextVersion(v), c.infos);
  }

  lemma RollbackKeepsLabels(lib: Library, v: View, target: nat, order: seq<StoreKey>, named: seq<StoreKey>,
                            mounted: seq<StoreKey>, w: View)
    requires Running(v) && Enumerates(order, v.stores.Keys) && InNameOrder(named, v.stores.Keys)
    requires Enumerates(mounted, v.params.Keys) && RollbackView(lib, v, target, order, named, mounted) == Some(w)
    ensures InfosLabelled(w.data)
  {
    var s, mid := RollbackParts(lib, v, target, order, named, mounted);
    FlushKeepsLabels(v.data, s.data, target, BuiltInfos(lib, s.stores, named));
  }

  lemma RestoreKeepsLabels(lib: Library, v: View, height: nat, items: seq<SnapshotItem>, named: seq<StoreKey>,
                           mounted: seq<StoreKey>, w: View)
    requires Running(v) && height >= 1 && InNameOrder(named, v.stores.Keys) && Enumerates(mounted, v.params.Keys)
    requires RestoreView(lib, v, height, items, named, mounted) == Some(w)
    ensures InfosLabelled(w.data)
  {
    var start, own := Restoring(v.data, v.stores, None), items[..OwnItems(items)];
    var c := CloseImport(RestoreItems(start, v.byName, height, own).value, height).value;
    RestoresSome(v, height, own, true, c.data);
    FlushKeepsLabels(v.data, c.data, height, BuiltInfos(lib, c.stores, named));
  }

  lemma RewritingStep(lib: Library, v: View, step: Step, w: View)
    requires Running(v) && Takes(lib, v, step, w) && Rewrites(step)
    ensures Running(w) && Lockstep(lib, w)
  {
    if step.Commit? {
      CommitKeepsLockstep(lib, v, step.named);
      CommitKeepsLabels(lib, v, step.named, w);
    } else if step.Rollback? {
      RollbackRestoresTarget(lib, v, step.target, step.order, step.named, step.mounted);
      RollbackKeepsLabels(lib, v, step.target, step.order, step.named, step.mounted, w);
    } else {
      RestoreEndsInLockstep(lib, v, step.height, step.items, step.named, step.mounted);
      RestoreKeepsLabels(lib, v, step.height, step.items, step.named, step.mounted, w);
    }
  }

  lemma WriteKeepsHealthy(lib: Library, v: View, key: StoreKey, k: Key, value: Option<Value>)
    requires Healthy(v) && key in v.stores
    ensures Healthy(v.(stores := v.stores[key := Written(lib, v.stores[key], k, value)]))
  {
    assert BackedByDisk(v.data, key.name, v.stores[key]);
  }

  lemma MountKeepsHealthy(v: View, key: StoreKey, typ: StoreType)
    requires Healthy(v) && key.Mounted? && forall k :: k in v.params ==> k.name != key.name
    ensures Healthy(v.(params := v.params[key := typ], byName := v.byName[key.name := key]))
  {
  }

  lemma InitialVersionKeepsHealthy(v: View, version: nat)
    requires Healthy(v)
    requires forall k :: k in v.stores && k !in v.removal && v.stores[k].IavlStore? ==>
               (v.stores[k].version == 0 <==> InfoVersion(v.lastInfo) == 0)
    ensures Healthy(InitialVersionSet(v, version))
  {
    var w := InitialVersionSet(v, version);
    forall k | k in w.stores
      ensures BackedByDisk(w.data, k.name, w.stores[k])
    {
      assert BackedByDisk(v.data, k.name, v.stores[k]);
    }
  }

  lemma OtherStep(lib: Library, v: View, step: Step, w: View)
    requires Running(v) && Takes(lib, v, step, w) && !Rewrites(step)
    ensures Healthy(w)
  {
    if step.Write? {
      WriteKeepsHealthy(lib, v, step.key, step.k, step.value);
    } else if step.Mount? {
      MountKeepsHealthy(v, step.key, step.typ);
    } else if step.Load? {
      LoadKeepsHealthy(lib, v, step.version, step.up, step.order, InfoToLoad(v.data, step.version).value);
    } else if step.Prune? {
      PruneKeepsHealthy(v, step.height, step.order);
    } else if step.CrashInCommit? {
      var c := CommitsSome(lib, v, step.named, step.saved);
    } else if step.CrashInRollback? {
      var s := RollsBackSome(v, step.target, step.order, step.cut);
    } else if step.CrashInRestore? {
      RestoresSome(v, step.height, step.items, step.closed, w.data);
    } else if step.SetInitialVersion? {
      InitialVersionKeepsHealthy(v, step.version);
    }
  }

  lemma OtherStepKeepsMetadata(lib: Library, v: View, step: Step, w: View)
    requires Running(v) && Takes(lib, v, step, w) && !Rewrites(step)
    ensures SameMetadata(v.data, w.data)
  {
    match step
    case Write(_, _, _) =>
    case Mount(_, _) =>
    case Load(_, _, _) =>
    case SetInitialVersion(_) =>
    case Prune(height, order) =>
      EnumeratedNamesDistinct(order, v.stores.Keys);
      if height > 0 { PruneAllPrunesEach(v.data, v.stores, height, order); }
    case CrashInCommit(named, saved) =>
      var c := CommitsSome(lib, v, named, saved);
    case CrashInRollback(target, order, cut) =>
      var s := RollsBackSome(v, target, order, cut);
    case CrashInRestore(height, items, closed) =>
      RestoresSome(v, height, items, closed, w.data);
  }

  /** Each step keeps the invariant; Commit, Rollback and Restore end in lockstep. */
  lemma StepKeepsHealthy(lib: Library, v: View, step: Step, w: View)
    requires Running(v) && Takes(lib, v, step, w)
    ensures Running(w)
    ensures Rewrites(step) ==> Lockstep(lib, w)
  {
    if Rewrites(step) {
      RewritingStep(lib, v, step, w);
    } else {
      OtherStep(lib, v, step, w);
      OtherStepKeepsMetadata(lib, v, step, w);
    }
  }

  /** states[i+1] follows states[i] by steps[i]. */
  ghost predicate IsRun(lib: Library, states: seq<View>, steps: seq<Step>) {
    && |states| == |steps| + 1
    && forall i :: 0 <= i < |steps| ==> Takes(lib, states[i], steps[i], states[i + 1])
  }

  lemma StepOfRun(lib: Library, states: seq<View>, steps: seq<Step>, i: nat)
    requires IsRun(lib, states, steps) && 0 < i < |states|
    ensures Takes(lib, states[i - 1], steps[i - 1], states[i])
  {
    assert Takes(lib, states[i - 1], steps[i - 1], states[i - 1 + 1]);
  }

  /** Whatever a store goes through, after each Commit, Rollback and Restore all IAVL
      substores are at the version of the last commit info, which the metadata names
      and records with the hash of every substore. */
  lemma {:induction false} RunsStayInLockstep(lib: Library, states: seq<View>, steps: seq<Step>, i: nat)
    requires IsRun(lib, states, steps) && Running(states[0]) && i < |states|
    ensures Running(states[i])
    ensures i > 0 && Rewrites(steps[i - 1]) ==> Lockstep(lib, states[i])
  {
    if i > 0 {
      RunsStayInLockstep(lib, states, steps, i - 1);
      StepOfRun(lib, states, steps, i);
      StepKeepsHealthy(lib, states[i - 1], steps[i - 1], states[i]);
    }
  }

  /** A new, empty store is healthy. */
  lemma EmptyStoreIsHealthy()
    ensures Running(NewView(map[]))
  {
  }

  // What stays on disk

  /** The state the most recent Commit, Rollback or Restore before states[i] ended in. */
  ghost function MostRecent(states: seq<View>, steps: seq<Step>, i: nat): Option<View>
    requires |states| == |steps| + 1 && i < |states|
  {
    if i == 0 then None
    else if Rewrites(steps[i - 1]) then Some(states[i])
    else MostRecent(states, steps, i - 1)
  }

  /** The trees that state saved are on disk, under the version its metadata names. */
  ghost predicate OnDisk(lib: Library, recent: View, data: Data) {
    Lockstep(lib, recent.(data := data))
  }

  /** It is still on disk when the metadata is the same and its trees have survived. */
  lemma StillOnDisk(lib: Library, recent: View, data: Data, later: Data)
    requires OnDisk(lib, recent, data) && SameMetadata(data, later)
    requires forall name, u :: u == GetLatestVersion(data) && u in HistoryOf(data, name) ==>
               u in HistoryOf(later, name) && HistoryOf(later, name)[u] == HistoryOf(data, name)[u]
    ensures OnDisk(lib, recent, later)
  {
    var v := recent.lastInfo.value.version;
    forall k | k in recent.stores
      ensures BackedByDisk(later, k.name, recent.stores[k])
    {
      assert BackedByDisk(data, k.name, recent.stores[k]);
    }
  }

  lemma PruningKeepsLatest(v: View, height: nat, order: seq<StoreKey>, later: Data)
    requires PrunesEach(v.data, later, v.stores, height, order) && Enumerates(order, v.stores.Keys)
    requires forall k :: k in v.stores && v.stores[k].IavlStore? ==>
               var h := HistoryOf(v.data, k.name);
               GetLatestVersion(v.data) in h ==> Survives(h, GetLatestVersion(v.data), height)
    ensures forall name, u :: u == GetLatestVersion(v.data) && u in HistoryOf(v.data, name) ==>
              u in HistoryOf(later, name) && HistoryOf(later, name)[u] == HistoryOf(v.data, name)[u]
  {
    forall name, u | u == GetLatestVersion(v.data) && u in HistoryOf(v.data, name)
      ensures u in HistoryOf(later, name) && HistoryOf(later, name)[u] == HistoryOf(v.data, name)[u]
    {
      if k :| k in order && k in v.stores && v.stores[k].IavlStore? && k.name == name {
        assert HistoryOf(later, k.name) == DeleteVersionsTo(HistoryOf(v.data, k.name), height);
      }
    }
  }

  lemma CommittingKeepsLatest(lib: Library, c: Commits, d: Commits, version: nat, keys: seq<StoreKey>)
    requires CommitsEach(lib, c, d, version, keys)
    ensures forall name, u :: u == GetLatestVersion(c.data) && u in HistoryOf(c.data, name) ==>
              u in HistoryOf(d.data, name) && HistoryOf(d.data, name)[u] == HistoryOf(c.data, name)[u]
  {
    forall name, u | u == GetLatestVersion(c.data) && u in HistoryOf(c.data, name)
      ensures u in HistoryOf(d.data, name) && HistoryOf(d.data, name)[u] == HistoryOf(c.data, name)[u]
    {
      if k :| k in keys && k.name == name {
        assert HistoryOf(d.data, k.name) == CommittedHistory(HistoryOf(c.data, k.name), c.stores[k], version);
      }
    }
  }

  lemma CuttingKeepsLatest(r: Rolling, s: Rolling, target: nat, keys: seq<StoreKey>)
    requires RollsBackEach(r, s, target, keys) && target >= GetLatestVersion(r.data)
    ensures forall name, u :: u == GetLatestVersion(r.data) && u in HistoryOf(r.data, name) ==>
              u in HistoryOf(s.data, name) && HistoryOf(s.data, name)[u] == HistoryOf(r.data, name)[u]
  {
    forall name, u | u == GetLatestVersion(r.data) && u in HistoryOf(r.data, name)
      ensures u in HistoryOf(s.data, name) && HistoryOf(s.data, name)[u] == HistoryOf(r.data, name)[u]
    {
      if k :| k in keys && r.stores[k].IavlStore? && k.name == name {
        assert HistoryOf(s.data, k.name) == DeleteVersionsAfter(HistoryOf(r.data, k.name), target);
      }
    }
  }

  lemma OtherStepsKeepDisk(lib: Library, v: View, step: Step, w: View, recent: View)
    requires Healthy(v) && Takes(lib, v, step, w) && !Rewrites(step) && OnDisk(lib, recent, v.data)
    ensures OnDisk(lib, recent, w.data)
  {
    match step
    case Write(_, _, _) =>
    case Mount(_, _) =>
    case Load(_, _, _) =>
    case SetInitialVersion(_) =>
    case Prune(height, order) =>
      if height > 0 {
        EnumeratedNamesDistinct(order, v.stores.Keys);
        PruneAllPrunesEach(v.data, v.stores, height, order);
        PruningKeepsLatest(v, height, order, w.data);
        StillOnDisk(lib, recent, v.data, w.data);
      }
    case CrashInCommit(named, saved) =>
      var c := CommitsSome(lib, v, named, saved);
      CommittingKeepsLatest(lib, Commits(v.data, v.stores, []), c, NextVersion(v), named[..saved]);
      StillOnDisk(lib, recent, v.data, w.data);
    case CrashInRollback(target, order, cut) =>
      var s := RollsBackSome(v, target, order, cut);
      CuttingKeepsLatest(Rolling(v.data, v.stores), s, target, order[..cut]);
      StillOnDisk(lib, recent, v.data, w.data);
    case CrashInRestore(height, items, closed) =>
      RestoresSome(v, height, items, closed, w.data);
      StillOnDisk(lib, recent, v.data, w.data);
  }

  /** At every moment of a run, crashes included, the disk holds the state of the most
      recent Commit, Rollback or Restore: its trees, its commit info, and metadata that
      names it. A rollback never lets a record above its target come back. */
  lemma {:induction false} MostRecentIsOnDisk(lib: Library, states: seq<View>, steps: seq<Step>, i: nat)
    requires IsRun(lib, states, steps) && Running(states[0]) && i < |states|
    ensures MostRecent(states, steps, i).Some? ==> OnDisk(lib, MostRecent(states, steps, i).value, states[i].data)
  {
    if i > 0 {
      RunsStayInLockstep(lib, states, steps, i);
      RunsStayInLockstep(lib, states, steps, i - 1);
      MostRecentIsOnDisk(lib, states, steps, i - 1);
      StepOfRun(lib, states, steps, i);
      if Rewrites(steps[i - 1]) {
        assert states[i].(data := states[i].data) == states[i];
      } else if MostRecent(states, steps, i - 1).Some? {
        OtherStepsKeepDisk(lib, states[i - 1], steps[i - 1], states[i], MostRecent(states, steps, i - 1).value);
      }
    }
  }

  /** So the metadata always is the one of the most recent Commit, Rollback or Restore. */
  lemma MetadataIsMostRecent(lib: Library, states: seq<View>, steps: seq<Step>, i: nat)
    requires IsRun(lib, states, steps) && Running(states[0]) && i < |states|
    requires MostRecent(states, steps, i).Some?
    ensures var info := MostRecent(states, steps, i).value.lastInfo;
            && info.Some? && GetLatestVersion(states[i].data) == info.value.version
            && GetCommitInfo(states[i].data, GetLatestVersion(states[i].data)) == info
  {
    MostRecentIsOnDisk(lib, states, steps, i);
  }

  /** And at every moment a new process that mounts the stores of that state loads it. */
  lemma EveryMomentReloads(lib: Library, states: seq<View>, steps: seq<Step>, i: nat, reopened: View,
                           keys: seq<StoreKey>)
    requires IsRun(lib, states, steps) && Running(states[0]) && i < |states|
    requires MostRecent(states, steps, i).Some? && reopened.data == states[i].data
    requires MountsMatch(reopened.params, MostRecent(states, steps, i).value.stores)
    requires Enumerates(keys, reopened.params.Keys)
    ensures LoadView(lib, reopened, GetLatestVersion(reopened.data), NO_UPGRADES, keys).Some?
    ensures var again := LoadView(lib, reopened, GetLatestVersion(reopened.data), NO_UPGRADES, keys).value;
            var recent := MostRecent(states, steps, i).value;
            && recent.lastInfo.Some? && again.lastInfo == recent.lastInfo
            && forall k :: k in reopened.params && reopened.params[k] == TypeIAVL ==>
                 && k in again.stores && k in recent.stores && recent.stores[k].IavlStore?
                 && recent.lastInfo.value.version >= 0
                 && again.stores[k]
                    == IavlStore(recent.lastInfo.value.version, recent.stores[k].saved, recent.stores[k].saved, 0)
  {
    MostRecentIsOnDisk(lib, states, steps, i);
    var recent := MostRecent(states, steps, i).value;
    LockstepReloads(lib, recent.(data := states[i].data), reopened, keys);
  }
}

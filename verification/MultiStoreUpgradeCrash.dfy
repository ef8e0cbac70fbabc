// A Commit that follows a load with upgrades, or is the first one of a store, and dies:
// what the same load finds afterwards, and when the replayed block completes the commit.

module MultiStoreUpgradeCrash {
  import opened Wrappers
  import opened Bytes
  import opened Iavl
  import opened MultiStores
  import opened MultiStoreLoading
  import opened MultiStoreTheorems
  import opened MultiStoreReplay
  import opened MultiStoreRuns
  import opened MultiStoreCrash

  // One history

  /** An IAVL store opened from its saved versions. */
  function OpenStore(h: History, id: int, initialVersion: nat): Option<SubStore> {
    match LoadTree(h, id, initialVersion)
    case None => None
    case Some((n, t)) => Some(IavlStore(n, t, t, initialVersion))
  }

  /** What a Commit that died left on disk of a store: the version it was to save, or not. */
  ghost predicate SavedOrKept(h: History, v: SubStore, h2: History, next: nat) {
    h2 == h || h2 == CommittedHistory(h, v, next)
  }

  /** The version was saved, is the newest one, and is the one that was opened. */
  ghost predicate Advanced(h: History, v: SubStore, h2: History, next: nat, own: SubStore) {
    && v.IavlStore? && !AlreadyThere(v, next) && own.IavlStore?
    && var n := WorkingVersion(v);
    && n !in h && h2 == h[n := Pending(v)] && (forall u :: u in h2 ==> u <= n)
    && own.version == n && own.saved == Pending(v)
  }

  /** A store the commit info lists opens as before; another one opens at what was saved. */
  lemma Reopens(h: History, id: int, initialVersion: nat, v: SubStore, next: nat, h2: History)
    requires 0 !in h && v.IavlStore?
    requires OpenStore(h, id, initialVersion).Some? && OpenStore(h, id, initialVersion).value.version == v.version
    requires initialVersion <= 1 || v.initialVersion == initialVersion
    requires SavedOrKept(h, v, h2, next)
    ensures OpenStore(h2, id, initialVersion).Some?
    ensures var own := OpenStore(h2, id, initialVersion).value;
            && own.working == own.saved
            && (own == OpenStore(h, id, initialVersion).value || (id <= 0 && Advanced(h, v, h2, next, own)))
            && (id <= 0 && h2 == CommittedHistory(h, v, next) && !AlreadyThere(v, next) ==>
                  Advanced(h, v, h2, next, own))
  {
    var n := WorkingVersion(v);
    if h != map[] { assert Latest(h) in h.Keys; }
    if h2 != h && id <= 0 {
      assert forall u :: u in h ==> u <= Latest(h);
      assert n in h2.Keys;
      assert Latest(h2) == n;
    }
  }

  // One mounted store

  /** What the commit info, and the upgrades, say about a store at its load. */
  function OwnStore(data: Data, infos: seq<StoreInfo>, ver: nat, up: Upgrades, k: StoreKey): Option<SubStore> {
    OpenStore(HistoryOf(data, k.name), GetCommitID(infos, k.name).version, if IsNew(up, k.name) then ver + 1 else 0)
  }

  /** The store a renamed one takes its data from. */
  function OldStore(data: Data, infos: seq<StoreInfo>, up: Upgrades, k: StoreKey): Option<SubStore> {
    var name := RenamedFrom(up, k.name);
    OpenStore(HistoryOf(data, name), GetCommitID(infos, name).version, 0)
  }

  predicate Moves(up: Upgrades, k: StoreKey) {
    k.name !in up.deleted && RenamedFrom(up, k.name) != []
  }

  function LoadedFrom(lib: Library, up: Upgrades, k: StoreKey, own: SubStore, source: Option<SubStore>): Loaded {
    if k.name in up.deleted then Loaded(Emptied(lib, own), None)
    else if RenamedFrom(up, k.name) == [] || source == None then Loaded(own, None)
    else Loaded(Filled(lib, source.value, own), Some(Emptied(lib, source.value)))
  }

  /** A load of one IAVL store, in these terms. */
  lemma LoadKeyParts(lib: Library, data: Data, infos: seq<StoreInfo>, ver: nat, up: Upgrades, k: StoreKey)
    ensures LoadKey(lib, data, infos, ver, up, k, TypeIAVL).Some?
       <==> && (IsNew(up, k.name) || GetCommitID(infos, k.name).version == ver)
            && OwnStore(data, infos, ver, up, k).Some? && (Moves(up, k) ==> OldStore(data, infos, up, k).Some?)
    ensures LoadKey(lib, data, infos, ver, up, k, TypeIAVL).Some? ==>
              LoadKey(lib, data, infos, ver, up, k, TypeIAVL).value
              == LoadedFrom(lib, up, k, OwnStore(data, infos, ver, up, k).value, OldStore(data, infos, up, k))
  {
  }

  /** Between a load and the Commit a store keeps its kind, version and saved tree; its
      initial version changes only before the first version. */
  ghost predicate SameBase(first: SubStore, v: SubStore, ver: nat) {
    && (first.IavlStore? <==> v.IavlStore?) && (first.DBAdapter? <==> v.DBAdapter?)
    && (first.IavlStore? ==>
          && v.version == first.version && v.saved == first.saved
          && (ver >= 1 ==> v.initialVersion == first.initialVersion))
  }

  /** What the same load gives after the crash for a store that was `first` when loaded
      and `v` when the Commit began: the same store; or one that already has the new
      version, with that version saved; or, if it is about to be dropped, one at the
      newest version it has. */
  ghost predicate ReloadedAs(first: SubStore, v: SubStore, l: SubStore, h: History, h2: History, next: nat,
                             dropped: bool) {
    || (l == first && SavedOrKept(h, v, h2, next))
    || (AlreadyThere(l, next) && h2 == CommittedHistory(h, v, next) && SameSaved(l, CommittedStore(h, v, next)))
    || (dropped && l.IavlStore? && l.version > 0 && forall u :: u in h2 ==> u <= l.version)
  }

  lemma AdvancedIsSaved(h: History, v: SubStore, h2: History, next: nat, own: SubStore, l: SubStore)
    requires Advanced(h, v, h2, next, own) && l.IavlStore? && l.version == own.version && l.saved == own.saved
    ensures l.version > 0 && forall u :: u in h2 ==> u <= l.version
    ensures ReadyFor(v, next) ==>
              AlreadyThere(l, next) && h2 == CommittedHistory(h, v, next) && SameSaved(l, CommittedStore(h, v, next))
  {
  }

  /** A store whose name does not change. */
  lemma PlainReloads(lib: Library, data: Data, data2: Data, infos: seq<StoreInfo>, ver: nat, up: Upgrades, k: StoreKey,
                     next: nat, v: SubStore, h: History, h2: History)
    requires h == HistoryOf(data, k.name) && h2 == HistoryOf(data2, k.name) && 0 !in h
    requires LoadKey(lib, data, infos, ver, up, k, TypeIAVL).Some? && !Moves(up, k)
    requires SameBase(LoadKey(lib, data, infos, ver, up, k, TypeIAVL).value.sub, v, ver)
    requires SavedOrKept(h, v, h2, next) && (k.name !in up.deleted ==> ReadyFor(v, next))
    ensures LoadKey(lib, data2, infos, ver, up, k, TypeIAVL).Some?
    ensures ReloadedAs(LoadKey(lib, data, infos, ver, up, k, TypeIAVL).value.sub, v,
                       LoadKey(lib, data2, infos, ver, up, k, TypeIAVL).value.sub, h, h2, next, k.name in up.deleted)
  {
    LoadKeyParts(lib, data, infos, ver, up, k);
    LoadKeyParts(lib, data2, infos, ver, up, k);
    var own, id, iv := OwnStore(data, infos, ver, up, k).value, GetCommitID(infos, k.name).version,
                       if IsNew(up, k.name) then ver + 1 else 0;
    Reopens(h, id, iv, v, next, h2);
    var own2 := OwnStore(data2, infos, ver, up, k).value;
    if own2 != own {
      AdvancedIsSaved(h, v, h2, next, own2, LoadKey(lib, data2, infos, ver, up, k, TypeIAVL).value.sub);
    }
  }

  /** A store that moves to a new name, and will be dropped. */
  lemma OldReloads(lib: Library, data: Data, data2: Data, infos: seq<StoreInfo>, up: Upgrades, k: StoreKey,
                   ver: nat, next: nat, v: SubStore, h: History, h2: History)
    requires h == HistoryOf(data, RenamedFrom(up, k.name)) && h2 == HistoryOf(data2, RenamedFrom(up, k.name)) && 0 !in h
    requires OldStore(data, infos, up, k).Some? && SameBase(OldStore(data, infos, up, k).value, v, ver)
    requires SavedOrKept(h, v, h2, next)
    ensures OldStore(data2, infos, up, k).Some?
    ensures var from, from2 := OldStore(data, infos, up, k).value, OldStore(data2, infos, up, k).value;
            && from2.IavlStore? && from2.working == from2.saved
            && (from2 == from
                || (GetCommitID(infos, RenamedFrom(up, k.name)).version <= 0 && Advanced(h, v, h2, next, from2)))
            && ReloadedAs(Emptied(lib, from), v, Emptied(lib, from2), h, h2, next, true)
  {
    Reopens(h, GetCommitID(infos, RenamedFrom(up, k.name)).version, 0, v, next, h2);
    var from, from2 := OldStore(data, infos, up, k).value, OldStore(data2, infos, up, k).value;
    if from2 != from {
      AdvancedIsSaved(h, v, h2, next, from2, Emptied(lib, from2));
    }
  }

  lemma NoElements(keys: seq<Key>)
    ensures Elements(keys) == {} ==> keys == []
  {
    if keys != [] { assert keys[0] in Elements(keys); }
  }

  /** Nothing is moved from a store without entries. */
  lemma FilledFromNothing(lib: Library, from: SubStore, to: SubStore)
    requires to.IavlStore? && ItemsOf(from) == map[]
    ensures Filled(lib, from, to) == to
  {
    KeysOfStoreAll(from);
    var keys := KeysOfStore(from);
    NoElements(keys);
  }

  /** After the crash a store that moves away, and was saved, is found empty. */
  lemma SourceFoundEmpty(lib: Library, from: SubStore, v: SubStore, h: History, h2: History, next: nat, from2: SubStore)
    requires lib.Lawful() && from.IavlStore? && v.IavlStore? && v.working == Emptied(lib, from).working
    requires Advanced(h, v, h2, next, from2) && from2.working == from2.saved
    ensures ItemsOf(from2) == map[]
  {
    EmptiedIsEmpty(lib, from);
    StampKeepsContents(v.working, WorkingVersion(v));
  }

  /** A store at a new name: it is found as before if its source is, or if both sources
      have no entries; or it already has the new version. */
  lemma RenamedReloads(lib: Library, data: Data, data2: Data, infos: seq<StoreInfo>, ver: nat, up: Upgrades,
                       k: StoreKey, next: nat, v: SubStore, h: History, h2: History)
    requires h == HistoryOf(data, k.name) && h2 == HistoryOf(data2, k.name) && 0 !in h && Moves(up, k)
    requires LoadKey(lib, data, infos, ver, up, k, TypeIAVL).Some?
    requires SameBase(LoadKey(lib, data, infos, ver, up, k, TypeIAVL).value.sub, v, ver)
    requires SavedOrKept(h, v, h2, next) && ReadyFor(v, next)
    requires OldStore(data2, infos, up, k).Some?
    requires var from, from2 := OldStore(data, infos, up, k), OldStore(data2, infos, up, k);
             || from2 == from || (ItemsOf(from2.value) == map[] && from.Some? && ItemsOf(from.value) == map[])
             || AlreadyThere(v, next)
             || (GetCommitID(infos, k.name).version <= 0 && h2 == CommittedHistory(h, v, next))
    ensures LoadKey(lib, data2, infos, ver, up, k, TypeIAVL).Some?
    ensures ReloadedAs(LoadKey(lib, data, infos, ver, up, k, TypeIAVL).value.sub, v,
                       LoadKey(lib, data2, infos, ver, up, k, TypeIAVL).value.sub, h, h2, next, false)
  {
    LoadKeyParts(lib, data, infos, ver, up, k);
    LoadKeyParts(lib, data2, infos, ver, up, k);
    var own, id := OwnStore(data, infos, ver, up, k).value, GetCommitID(infos, k.name).version;
    Reopens(h, id, ver + 1, v, next, h2);
    var own2 := OwnStore(data2, infos, ver, up, k).value;
    var from, from2 := OldStore(data, infos, up, k).value, OldStore(data2, infos, up, k).value;
    if own2 != own || (id <= 0 && h2 == CommittedHistory(h, v, next) && !AlreadyThere(v, next)) {
      AdvancedIsSaved(h, v, h2, next, own2, Filled(lib, from2, own2));
    } else if from2 != from && !AlreadyThere(v, next) {
      FilledFromNothing(lib, from, own);
      FilledFromNothing(lib, from2, own);
    }
  }

  /** What a caller can check of a rename before the Commit: the commit info lists the
      old store, or it has no entries, or it comes later in the name order, or one of the
      two already has the new version. */
  predicate RenameSafe(data: Data, infos: seq<StoreInfo>, up: Upgrades, k: StoreKey, first: SubStore, next: nat) {
    || GetCommitID(infos, RenamedFrom(up, k.name)).version > 0
    || (OldStore(data, infos, up, k).Some? &&
        (|| ItemsOf(OldStore(data, infos, up, k).value) == map[]
         || AlreadyThere(OldStore(data, infos, up, k).value, next)))
    || Less(k.name, RenamedFrom(up, k.name))
    || AlreadyThere(first, next)
  }

  /** A store that moves, and the store it moves from, after the crash. */
  lemma MovesAgain(lib: Library, data: Data, data2: Data, infos: seq<StoreInfo>, ver: nat, up: Upgrades, k: StoreKey,
                   next: nat, ld: Loaded, v: SubStore, vd: SubStore, h: History, h2: History, hd: History, hd2: History)
    requires lib.Lawful() && Moves(up, k) && LoadKey(lib, data, infos, ver, up, k, TypeIAVL) == Some(ld)
    requires h == HistoryOf(data, k.name) && h2 == HistoryOf(data2, k.name) && 0 !in h && SavedOrKept(h, v, h2, next)
    requires hd == HistoryOf(data, RenamedFrom(up, k.name)) && hd2 == HistoryOf(data2, RenamedFrom(up, k.name))
    requires 0 !in hd
    requires ld.moved.Some? && SameBase(ld.sub, v, ver) && SameBase(ld.moved.value, vd, ver) && ReadyFor(v, next)
    requires vd.IavlStore? ==> vd.working == ld.moved.value.working
    requires SavedOrKept(hd, vd, hd2, next)
    requires RenameSafe(data, infos, up, k, ld.sub, next)
    requires Less(k.name, RenamedFrom(up, k.name)) && hd2 != hd ==> h2 == CommittedHistory(h, v, next)
    requires GetCommitID(infos, k.name).version > 0 ==> AlreadyThere(ld.sub, next)
    ensures LoadKey(lib, data2, infos, ver, up, k, TypeIAVL).Some?
    ensures var ld2 := LoadKey(lib, data2, infos, ver, up, k, TypeIAVL).value;
            && ReloadedAs(ld.sub, v, ld2.sub, h, h2, next, false)
            && ld2.moved.Some? && ReloadedAs(ld.moved.value, vd, ld2.moved.value, hd, hd2, next, true)
  {
    LoadKeyParts(lib, data, infos, ver, up, k);
    LoadKeyParts(lib, data2, infos, ver, up, k);
    OldReloads(lib, data, data2, infos, up, k, ver, next, vd, hd, hd2);
    var from, from2 := OldStore(data, infos, up, k).value, OldStore(data2, infos, up, k).value;
    if from2 != from { SourceFoundEmpty(lib, from, vd, hd, hd2, next, from2); }
    RenamedReloads(lib, data, data2, infos, ver, up, k, next, v, h, h2);
  }

  // The whole store

  /** A new process has loaded version `ver` with upgrades; version 0 is a store without one. */
  ghost predicate LoadedFresh(lib: Library, view: View, ver: nat, up: Upgrades, order: seq<StoreKey>,
                              info: CommitInfo, first: View)
  {
    && Enumerates(order, view.params.Keys) && NamesDiffer(view.params.Keys)
    && (forall k :: k in view.params ==> k.Mounted?)
    && view.removal == {} && PositiveVersions(view.data)
    && InfoToLoad(view.data, ver) == Some(info) && info.version == ver
    && LoadView(lib, view, ver, up, order) == Some(first)
  }

  /** v is the loaded store after any writes. A key made while loading is not registered,
      so nothing writes to its store. */
  ghost predicate WrittenFrom(first: View, v: View, ver: nat) {
    && v == first.(stores := v.stores, initialVersion := v.initialVersion)
    && v.stores.Keys == first.stores.Keys
    && forall k :: k in v.stores ==>
         && SameBase(first.stores[k], v.stores[k], ver)
         && (k.Detached? && v.stores[k].IavlStore? ==> v.stores[k].working == first.stores[k].working)
  }

  /** Writes to mounted stores lead there, and so does an initial version set before the
      first one. */
  lemma WritesLeadThere(lib: Library, first: View, v: View, ver: nat, step: Step, w: View)
    requires WrittenFrom(first, v, ver) && Takes(lib, v, step, w)
    requires (step.Write? && step.key.Mounted?) || (step.SetInitialVersion? && ver == 0)
    ensures WrittenFrom(first, w, ver)
  {
  }

  /** From a fresh load, over writes, into a Commit that dies and leaves w. */
  ghost predicate Dies(lib: Library, view: View, ver: nat, up: Upgrades, order: seq<StoreKey>, info: CommitInfo,
                       first: View, v: View, named: seq<StoreKey>, saved: nat, w: View)
  {
    && LoadedFresh(lib, view, ver, up, order, info, first) && WrittenFrom(first, v, ver) && Healthy(v)
    && DiesInCommit(lib, v, named, saved, w)
  }

  /** The store found under k, next to what it was when loaded and when the Commit began. */
  ghost predicate FoundAs(first: View, v: View, w: Data, k: StoreKey, l: SubStore)
    requires k in first.stores && k in v.stores && NextVersion(v) >= 0
  {
    ReloadedAs(first.stores[k], v.stores[k], l, HistoryOf(v.data, k.name), HistoryOf(w, k.name), NextVersion(v),
               k in v.removal)
  }

  /** Stores are saved in name order. */
  lemma SavedInOrder(lib: Library, v: View, c: Commits, named: seq<StoreKey>, saved: nat, k: StoreKey, d: StoreKey)
    requires InNameOrder(named, v.stores.Keys) && NamesDiffer(v.stores.Keys) && saved <= |named| && NextVersion(v) >= 0
    requires CommitsEach(lib, Commits(v.data, v.stores, []), c, NextVersion(v), named[..saved])
    requires k in v.stores && d in v.stores && Less(k.name, d.name)
    requires HistoryOf(c.data, d.name) != HistoryOf(v.data, d.name)
    ensures HistoryOf(c.data, k.name) == CommittedHistory(HistoryOf(v.data, k.name), v.stores[k], NextVersion(v))
  {
    var j :| 0 <= j < saved && named[..saved][j].name == d.name;
    assert named[j] in v.stores.Keys;
    var i :| 0 <= i < |named| && named[i] == k;
    LessIrreflexive(d.name);
    assert i <= j;
    assert named[..saved][i] == k;
  }

  /** What a load leaves under one mounted key, and under the key its data moves from. */
  lemma LoadedUnder(lib: Library, view: View, ver: nat, up: Upgrades, order: seq<StoreKey>, l: View, info: CommitInfo,
                    k: StoreKey)
    requires Enumerates(order, view.params.Keys) && NamesDiffer(view.params.Keys)
    requires forall m :: m in view.params ==> m.Mounted?
    requires InfoToLoad(view.data, ver) == Some(info) && LoadView(lib, view, ver, up, order) == Some(l)
    requires k in view.params
    ensures l.data == view.data && l.lastInfo == Some(info) && l.params == view.params
    ensures l.initialVersion == view.initialVersion && l.byName == view.byName
    ensures LoadKey(lib, view.data, info.storeInfos, ver, up, k, view.params[k]).Some?
    ensures var ld := LoadKey(lib, view.data, info.storeInfos, ver, up, k, view.params[k]).value;
            && k in l.stores && l.stores[k] == ld.sub
            && (ld.moved.Some? ==> DetachedKey(up, k) in l.stores && l.stores[DetachedKey(up, k)] == ld.moved.value)
            && (ld.moved.Some? <==> Moves(up, k))
    ensures k in l.removal <==> k in view.removal || k.name in up.deleted
    ensures Moves(up, k) ==> DetachedKey(up, k) in l.removal
  {
    var i := LoadViewParts(lib, view, ver, up, order);
    EnumeratedNamesDistinct(order, view.params.Keys);
    OnlyDeletedDropped(up, order, k);
    assert k in order;
    if Moves(up, k) { assert DetachedKey(up, k) in Dropped(up, k); }
  }

  /** On disk each store has its new version or what it had, and names are saved in order. */
  lemma DiskAfter(lib: Library, v: View, named: seq<StoreKey>, saved: nat, w: View, k: StoreKey)
    requires Healthy(v) && DiesInCommit(lib, v, named, saved, w) && k in v.stores
    ensures SavedOrKept(HistoryOf(v.data, k.name), v.stores[k], HistoryOf(w.data, k.name), NextVersion(v))
    ensures forall d ::
              d in v.stores && Less(k.name, d.name) && HistoryOf(w.data, d.name) != HistoryOf(v.data, d.name) ==>
              HistoryOf(w.data, k.name) == CommittedHistory(HistoryOf(v.data, k.name), v.stores[k], NextVersion(v))
  {
    var c := CommitsSome(lib, v, named, saved);
    OrderedKeysDistinct(named, v.stores.Keys);
    assert k in named;
    SavedOrNot(lib, v, c, named, saved, k);
    forall d | d in v.stores && Less(k.name, d.name) && HistoryOf(w.data, d.name) != HistoryOf(v.data, d.name)
      ensures HistoryOf(w.data, k.name) == CommittedHistory(HistoryOf(v.data, k.name), v.stores[k], NextVersion(v))
    {
      SavedInOrder(lib, v, c, named, saved, k, d);
    }
  }

  /** A new store that the commit info lists is already at the new version. */
  lemma ListedNewStore(lib: Library, view: View, ver: nat, up: Upgrades, info: CommitInfo, k: StoreKey)
    requires InfoToLoad(view.data, ver) == Some(info) && IsNew(up, k.name)
    requires LoadKey(lib, view.data, info.storeInfos, ver, up, k, TypeIAVL).Some?
    requires GetCommitID(info.storeInfos, k.name).version > 0
    ensures ver >= 1 && AlreadyThere(LoadKey(lib, view.data, info.storeInfos, ver, up, k, TypeIAVL).value.sub, ver + 1)
  {
    LoadKeyParts(lib, view.data, info.storeInfos, ver, up, k);
  }

  ghost predicate StandsAt(first: View, v: View, w: Data, ver: nat, k: StoreKey) {
    && k in first.stores && k in v.stores && NextVersion(v) >= 0
    && SameBase(first.stores[k], v.stores[k], ver)
    && 0 !in HistoryOf(v.data, k.name)
    && SavedOrKept(HistoryOf(v.data, k.name), v.stores[k], HistoryOf(w, k.name), NextVersion(v))
  }

  /** How things stand with one mounted key, and with the key its data moves from, when a
      Commit of v has died and left w. */
  ghost predicate Stands(lib: Library, infos: seq<StoreInfo>, ver: nat, up: Upgrades, first: View, v: View, w: Data,
                         k: StoreKey, typ: StoreType)
  {
    && StandsAt(first, v, w, ver, k)
    && var ld := LoadKey(lib, v.data, infos, ver, up, k, typ);
    && ld.Some? && ld.value.sub == first.stores[k] && (ld.value.moved.Some? <==> Moves(up, k))
    && (k in v.removal <==> k.name in up.deleted)
    && (k !in v.removal ==> ReadyFor(v.stores[k], NextVersion(v)))
    && (typ == TypeIAVL && IsNew(up, k.name) && GetCommitID(infos, k.name).version > 0 ==>
          AlreadyThere(first.stores[k], NextVersion(v)))
    && (Moves(up, k) ==>
          var d := DetachedKey(up, k);
          && StandsAt(first, v, w, ver, d) && d in v.removal && ld.value.moved.value == first.stores[d]
          && (v.stores[d].IavlStore? ==> v.stores[d].working == first.stores[d].working)
          && (Less(k.name, d.name) && HistoryOf(w, d.name) != HistoryOf(v.data, d.name) ==>
                HistoryOf(w, k.name) == CommittedHistory(HistoryOf(v.data, k.name), v.stores[k], NextVersion(v))))
  }

  lemma StandsAfterCrash(lib: Library, view: View, ver: nat, up: Upgrades, order: seq<StoreKey>, info: CommitInfo,
                         first: View, v: View, named: seq<StoreKey>, saved: nat, w: View, k: StoreKey)
    requires Dies(lib, view, ver, up, order, info, first, v, named, saved, w) && k in view.params
    ensures v.data == view.data
    ensures Stands(lib, info.storeInfos, ver, up, first, v, w.data, k, view.params[k])
  {
    LoadedUnder(lib, view, ver, up, order, first, info, k);
    DiskAfter(lib, v, named, saved, w, k);
    if Moves(up, k) { DiskAfter(lib, v, named, saved, w, DetachedKey(up, k)); }
    if view.params[k] == TypeIAVL && IsNew(up, k.name) && GetCommitID(info.storeInfos, k.name).version > 0 {
      ListedNewStore(lib, view, ver, up, info, k);
    }
  }

  /** What the same load finds under one mounted key, and under the key its data moves from. */
  ghost predicate KeyFound(lib: Library, infos: seq<StoreInfo>, ver: nat, up: Upgrades, first: View, v: View, w: Data,
                           k: StoreKey, typ: StoreType)
    requires StandsAt(first, v, w, ver, k) && (Moves(up, k) ==> StandsAt(first, v, w, ver, DetachedKey(up, k)))
  {
    var ld := LoadKey(lib, w, infos, ver, up, k, typ);
    && ld.Some? && FoundAs(first, v, w, k, ld.value.sub)
    && (ld.value.moved.Some? <==> Moves(up, k))
    && (Moves(up, k) ==> FoundAs(first, v, w, DetachedKey(up, k), ld.value.moved.value))
  }

  lemma MovingReloads(lib: Library, infos: seq<StoreInfo>, ver: nat, up: Upgrades, first: View, v: View, w: Data,
                      k: StoreKey)
    requires lib.Lawful() && Stands(lib, infos, ver, up, first, v, w, k, TypeIAVL) && Moves(up, k)
    requires RenameSafe(v.data, infos, up, k, first.stores[k], NextVersion(v))
    ensures KeyFound(lib, infos, ver, up, first, v, w, k, TypeIAVL)
  {
    var d := DetachedKey(up, k);
    var ld := LoadKey(lib, v.data, infos, ver, up, k, TypeIAVL).value;
    MovesAgain(lib, v.data, w, infos, ver, up, k, NextVersion(v), ld, v.stores[k], v.stores[d],
               HistoryOf(v.data, k.name), HistoryOf(w, k.name), HistoryOf(v.data, d.name), HistoryOf(w, d.name));
  }

  /** Other kinds of stores do not depend on what was saved. */
  lemma OtherTypeReloads(lib: Library, data: Data, data2: Data, infos: seq<StoreInfo>, ver: nat, up: Upgrades,
                         k: StoreKey, typ: StoreType)
    requires typ != TypeIAVL
    ensures LoadKey(lib, data2, infos, ver, up, k, typ) == LoadKey(lib, data, infos, ver, up, k, typ)
    ensures LoadKey(lib, data, infos, ver, up, k, typ).Some? ==>
              var ld := LoadKey(lib, data, infos, ver, up, k, typ).value;
              && !ld.sub.IavlStore? && (ld.moved.Some? <==> Moves(up, k))
              && (ld.moved.Some? ==> !ld.moved.value.IavlStore?)
  {
  }

  lemma NothingMoved(lib: Library, data: Data, infos: seq<StoreInfo>, ver: nat, up: Upgrades, k: StoreKey)
    requires LoadKey(lib, data, infos, ver, up, k, TypeIAVL).Some? && !Moves(up, k)
    ensures LoadKey(lib, data, infos, ver, up, k, TypeIAVL).value.moved == None
  {
  }

  /** A store whose name does not change. */
  lemma UnmovedReloads(lib: Library, infos: seq<StoreInfo>, ver: nat, up: Upgrades, first: View, v: View, w: Data,
                       k: StoreKey, typ: StoreType)
    requires Stands(lib, infos, ver, up, first, v, w, k, typ) && (typ != TypeIAVL || !Moves(up, k))
    ensures KeyFound(lib, infos, ver, up, first, v, w, k, typ)
  {
    if typ == TypeIAVL {
      PlainReloads(lib, v.data, w, infos, ver, up, k, NextVersion(v), v.stores[k], HistoryOf(v.data, k.name),
                   HistoryOf(w, k.name));
      NothingMoved(lib, w, infos, ver, up, k);
    } else {
      OtherTypeReloads(lib, v.data, w, infos, ver, up, k, typ);
    }
  }

  /** Every rename is safe. */
  predicate RenamesSafe(view: View, up: Upgrades, info: CommitInfo, first: View, next: nat) {
    forall k :: k in view.params && view.params[k] == TypeIAVL && Moves(up, k) && k in first.stores ==>
      RenameSafe(view.data, info.storeInfos, up, k, first.stores[k], next)
  }

  lemma KeyReloads(lib: Library, infos: seq<StoreInfo>, ver: nat, up: Upgrades, first: View, v: View, w: Data,
                   k: StoreKey, typ: StoreType)
    requires lib.Lawful() && Stands(lib, infos, ver, up, first, v, w, k, typ)
    requires typ == TypeIAVL && Moves(up, k) ==> RenameSafe(v.data, infos, up, k, first.stores[k], NextVersion(v))
    ensures KeyFound(lib, infos, ver, up, first, v, w, k, typ)
  {
    if typ == TypeIAVL && Moves(up, k) {
      MovingReloads(lib, infos, ver, up, first, v, w, k);
    } else {
      UnmovedReloads(lib, infos, ver, up, first, v, w, k, typ);
    }
  }

  lemma MountedAreLoaded(lib: Library, view: View, ver: nat, up: Upgrades, order: seq<StoreKey>, info: CommitInfo,
                         first: View)
    requires LoadedFresh(lib, view, ver, up, order, info, first)
    ensures view.params.Keys <= first.stores.Keys
    ensures forall d :: d in first.stores ==>
              d in view.params || exists k :: k in view.params && Moves(up, k) && d == DetachedKey(up, k)
  {
    var i := LoadViewParts(lib, view, ver, up, order);
    forall d | d in first.stores && d !in view.params
      ensures exists k :: k in view.params && Moves(up, k) && d == DetachedKey(up, k)
    {
      var k :| k in order && d == DetachedKey(up, k) && k.name !in up.deleted && RenamedFrom(up, k.name) != [];
      assert Moves(up, k);
    }
  }

  lemma LoadedRest(lib: Library, view: View, ver: nat, up: Upgrades, order: seq<StoreKey>, info: CommitInfo,
                   first: View)
    requires LoadedFresh(lib, view, ver, up, order, info, first)
    ensures first.data == view.data && first.lastInfo == Some(info) && first.initialVersion == view.initialVersion
    ensures first.removal == DroppedAll(up, order)
  {
    var i := LoadViewParts(lib, view, ver, up, order);
  }

  lemma DroppedTheSame(up: Upgrades, a: seq<StoreKey>, b: seq<StoreKey>)
    requires forall k :: k in a <==> k in b
    ensures DroppedAll(up, a) == DroppedAll(up, b)
  {
  }

  lemma SameInfoAfterCrash(lib: Library, v: View, named: seq<StoreKey>, saved: nat, w: View, ver: nat, info: CommitInfo,
                           data: Data)
    requires Healthy(v) && DiesInCommit(lib, v, named, saved, w) && v.data == data
    requires InfoToLoad(data, ver) == Some(info)
    ensures InfoToLoad(w.data, ver) == Some(info) && PositiveVersions(w.data)
  {
    var c := CommitsSome(lib, v, named, saved);
  }

  /** The process that opens the database after the crash, with the same mounts. */
  ghost predicate Reopened(view: View, w: View, reopened: View, again: seq<StoreKey>) {
    && reopened.data == w.data && reopened.params == view.params && reopened.removal == {}
    && Enumerates(again, view.params.Keys)
  }

  lemma LoadsAgain(lib: Library, view: View, ver: nat, up: Upgrades, order: seq<StoreKey>, info: CommitInfo,
                   first: View, v: View, named: seq<StoreKey>, saved: nat, w: View,
                   reopened: View, again: seq<StoreKey>) returns (l: View)
    requires lib.Lawful() && Dies(lib, view, ver, up, order, info, first, v, named, saved, w)
    requires RenamesSafe(view, up, info, first, NextVersion(v))
    requires Reopened(view, w, reopened, again)
    ensures LoadedFresh(lib, reopened, ver, up, again, info, l)
  {
    forall k | k in view.params
      ensures LoadKey(lib, w.data, info.storeInfos, ver, up, k, view.params[k]).Some?
    {
      StandsAfterCrash(lib, view, ver, up, order, info, first, v, named, saved, w, k);
      KeyReloads(lib, info.storeInfos, ver, up, first, v, w.data, k, view.params[k]);
    }
    EnumeratedNamesDistinct(again, view.params.Keys);
    SameInfoAfterCrash(lib, v, named, saved, w, ver, info, view.data);
    LoadAllLoadsEach(lib, w.data, info.storeInfos, ver, up, view.params, Loading(map[], {}), again);
    l := LoadView(lib, reopened, ver, up, again).value;
  }

  /** Two loads with the same mounts and upgrades hold stores under the same keys. */
  lemma SameKeysLoaded(lib: Library, view: View, ver: nat, up: Upgrades, order: seq<StoreKey>, info: CommitInfo,
                       first: View, reopened: View, again: seq<StoreKey>, l: View, d: StoreKey)
    requires LoadedFresh(lib, view, ver, up, order, info, first) && LoadedFresh(lib, reopened, ver, up, again, info, l)
    requires reopened.params == view.params && d in first.stores
    ensures d in l.stores
    ensures d in view.params || exists k :: k in view.params && Moves(up, k) && d == DetachedKey(up, k)
  {
    MountedAreLoaded(lib, view, ver, up, order, info, first);
    MountedAreLoaded(lib, reopened, ver, up, again, info, l);
    if d !in view.params {
      var k :| k in view.params && Moves(up, k) && d == DetachedKey(up, k);
      LoadedUnder(lib, reopened, ver, up, again, l, info, k);
    }
  }

  lemma AllKeysLoaded(lib: Library, view: View, ver: nat, up: Upgrades, order: seq<StoreKey>, info: CommitInfo,
                      first: View, reopened: View, again: seq<StoreKey>, l: View)
    requires LoadedFresh(lib, view, ver, up, order, info, first) && LoadedFresh(lib, reopened, ver, up, again, info, l)
    requires reopened.params == view.params
    ensures first.stores.Keys <= l.stores.Keys
    ensures first.removal == l.removal
  {
    forall d | d in first.stores
      ensures d in l.stores
    {
      SameKeysLoaded(lib, view, ver, up, order, info, first, reopened, again, l, d);
    }
    LoadedRest(lib, view, ver, up, order, info, first);
    LoadedRest(lib, reopened, ver, up, again, info, l);
    DroppedTheSame(up, order, again);
  }

  /** What the load after the crash gives. */
  ghost predicate FoundAll(first: View, v: View, w: View, l: View) {
    && l.data == w.data && l.lastInfo == v.lastInfo && l.removal == v.removal
    && l.stores.Keys == v.stores.Keys && first.stores.Keys == v.stores.Keys && NextVersion(v) >= 0
    && forall d :: d in v.stores ==> FoundAs(first, v, w.data, d, l.stores[d])
  }

  lemma SameRest(lib: Library, view: View, ver: nat, up: Upgrades, order: seq<StoreKey>, info: CommitInfo,
                 first: View, v: View, w: View, reopened: View, again: seq<StoreKey>, l: View)
    requires LoadedFresh(lib, view, ver, up, order, info, first) && WrittenFrom(first, v, ver)
    requires Reopened(view, w, reopened, again) && LoadedFresh(lib, reopened, ver, up, again, info, l)
    ensures l.data == w.data && l.lastInfo == v.lastInfo && l.removal == v.removal
    ensures l.stores.Keys == v.stores.Keys && first.stores.Keys == v.stores.Keys
  {
    AllKeysLoaded(lib, view, ver, up, order, info, first, reopened, again, l);
    AllKeysLoaded(lib, reopened, ver, up, again, info, l, view, order, first);
    LoadedRest(lib, view, ver, up, order, info, first);
    LoadedRest(lib, reopened, ver, up, again, info, l);
  }

  lemma FindsAll(lib: Library, view: View, ver: nat, up: Upgrades, order: seq<StoreKey>, info: CommitInfo,
                 first: View, v: View, named: seq<StoreKey>, saved: nat, w: View,
                 reopened: View, again: seq<StoreKey>, l: View)
    requires lib.Lawful() && Dies(lib, view, ver, up, order, info, first, v, named, saved, w)
    requires RenamesSafe(view, up, info, first, NextVersion(v))
    requires Reopened(view, w, reopened, again) && LoadedFresh(lib, reopened, ver, up, again, info, l)
    ensures FoundAll(first, v, w, l)
  {
    SameRest(lib, view, ver, up, order, info, first, v, w, reopened, again, l);
    forall d | d in v.stores
      ensures FoundAs(first, v, w.data, d, l.stores[d])
    {
      SameKeysLoaded(lib, view, ver, up, order, info, first, reopened, again, l, d);
      var k := if d in view.params then d else var m :| m in view.params && Moves(up, m) && d == DetachedKey(up, m); m;
      StandsAfterCrash(lib, view, ver, up, order, info, first, v, named, saved, w, k);
      KeyReloads(lib, info.storeInfos, ver, up, first, v, w.data, k, view.params[k]);
      LoadedUnder(lib, reopened, ver, up, again, l, info, k);
    }
  }

  /** After a Commit that died, the same load succeeds again, and finds each store as it
      was when loaded, or already at the new version, or about to be dropped. */
  lemma CrashedUpgradeReloads(lib: Library, view: View, ver: nat, up: Upgrades, order: seq<StoreKey>, info: CommitInfo,
                              first: View, v: View, named: seq<StoreKey>, saved: nat, w: View,
                              reopened: View, again: seq<StoreKey>)
    requires lib.Lawful() && Dies(lib, view, ver, up, order, info, first, v, named, saved, w)
    requires RenamesSafe(view, up, info, first, NextVersion(v))
    requires Reopened(view, w, reopened, again)
    ensures LoadView(lib, reopened, ver, up, again).Some?
    ensures FoundAll(first, v, w, LoadView(lib, reopened, ver, up, again).value)
  {
    var l := LoadsAgain(lib, view, ver, up, order, info, first, v, named, saved, w, reopened, again);
    FindsAll(lib, view, ver, up, order, info, first, v, named, saved, w, reopened, again, l);
  }

  // The replay

  ghost predicate ReplayedStore(first: SubStore, v: SubStore, l: SubStore, again: SubStore, next: nat) {
    && (again.IavlStore? <==> l.IavlStore?) && (again.DBAdapter? <==> l.DBAdapter?)
    && (l.IavlStore? ==> again.version == l.version && again.saved == l.saved)
    && (l == first && l.IavlStore? && v.IavlStore? && !AlreadyThere(l, next) ==>
          again.working == v.working && WorkingVersion(again) == WorkingVersion(v))
  }

  /** `again` is the reloaded l after the replayed block: initial version as before, and in
      every store that was found as when it was loaded the writes that led to v. Stores
      that already have the new version may get any writes. */
  ghost predicate Replayed(first: View, v: View, l: View, again: View) {
    && l.stores.Keys == v.stores.Keys == first.stores.Keys && NextVersion(v) >= 0
    && again == l.(stores := again.stores, initialVersion := v.initialVersion)
    && again.stores.Keys == l.stores.Keys
    && forall k :: k in v.stores ==>
         ReplayedStore(first.stores[k], v.stores[k], l.stores[k], again.stores[k], NextVersion(v))
  }

  /** A kept store is then as an interrupted commit may leave it; one to be dropped can be
      committed. */
  lemma ReplayedIsInterrupted(lib: Library, first: SubStore, v: SubStore, l: SubStore, again: SubStore,
                              h: History, h2: History, ver: nat, next: nat, dropped: bool)
    requires ReloadedAs(first, v, l, h, h2, next, dropped) && ReplayedStore(first, v, l, again, next)
    requires SameBase(first, v, ver) && CanCommit(lib, h, v, next)
    ensures dropped ==> CanCommit(lib, h2, again, next)
    ensures !dropped ==> Interrupted(h, v, h2, again, next)
  {
  }

  lemma ReplayedAllInterrupted(lib: Library, first: View, v: View, named: seq<StoreKey>, w: View, l: View, again: View,
                               ver: nat)
    requires Healthy(v) && WrittenFrom(first, v, ver) && InNameOrder(named, v.stores.Keys)
    requires CommitView(lib, v, named).Some?
    requires FoundAll(first, v, w, l) && Replayed(first, v, l, again)
    ensures InterruptedAll(lib, Commits(v.data, v.stores, []),
                           Commits(w.data, again.stores, []), v.removal, NextVersion(v), named)
  {
    var c := CommitViewParts(lib, v, named);
    forall k | k in named
      ensures k in v.removal ==> CanCommit(lib, HistoryOf(w.data, k.name), again.stores[k], NextVersion(v))
      ensures k !in v.removal ==>
                && ReadyFor(v.stores[k], NextVersion(v))
                && Interrupted(HistoryOf(v.data, k.name), v.stores[k],
                               HistoryOf(w.data, k.name), again.stores[k], NextVersion(v))
    {
      ReplayedIsInterrupted(lib, first.stores[k], v.stores[k], l.stores[k], again.stores[k],
                            HistoryOf(v.data, k.name), HistoryOf(w.data, k.name), ver, NextVersion(v), k in v.removal);
    }
  }

  lemma FoundReplays(lib: Library, first: View, v: View, named: seq<StoreKey>, w: View, l: View, again: View,
                     ver: nat, once: View)
    requires Healthy(v) && WrittenFrom(first, v, ver) && InNameOrder(named, v.stores.Keys)
    requires CommitView(lib, v, named) == Some(once)
    requires FoundAll(first, v, w, l) && Replayed(first, v, l, again)
    ensures InNameOrder(named, again.stores.Keys)
    ensures CommitView(lib, again, named).Some?
    ensures SameCommit(CommitView(lib, again, named).value, once)
  {
    ReplayedAllInterrupted(lib, first, v, named, w, l, again, ver);
    ReplayCommits(lib, v, named, again, once);
  }

  /** Whatever the Commit had saved when it died, and whatever the replay wrote to stores
      that already have the version: the Commit of the replay succeeds, with the commit info,
      the saved trees and the versions on disk of a Commit that did not die. */
  lemma CrashedUpgradeReplays(lib: Library, view: View, ver: nat, up: Upgrades, order: seq<StoreKey>, info: CommitInfo,
                              first: View, v: View, named: seq<StoreKey>, saved: nat, w: View, once: View,
                              reopened: View, order2: seq<StoreKey>, l: View, again: View)
    requires lib.Lawful() && Dies(lib, view, ver, up, order, info, first, v, named, saved, w)
    requires RenamesSafe(view, up, info, first, NextVersion(v))
    requires CommitView(lib, v, named) == Some(once)
    requires Reopened(view, w, reopened, order2) && LoadView(lib, reopened, ver, up, order2) == Some(l)
    requires Replayed(first, v, l, again)
    ensures InNameOrder(named, again.stores.Keys)
    ensures CommitView(lib, again, named).Some?
    ensures SameCommit(CommitView(lib, again, named).value, once)
  {
    CrashedUpgradeReloads(lib, view, ver, up, order, info, first, v, named, saved, w, reopened, order2);
    FoundReplays(lib, first, v, named, w, l, again, ver, once);
  }

  /** What the commit leaves alone it does not undo either: the working tree of a store is
      the one of a Commit that did not die exactly when the store did not have the version
      yet, or the replay wrote to it nothing that changes it. Other writes stay, and the
      next Commit saves them. */
  lemma ReplayedWritesStayIff(lib: Library, first: View, v: View, named: seq<StoreKey>, w: View, l: View, again: View,
                              ver: nat, once: View, k: StoreKey)
    requires Healthy(v) && WrittenFrom(first, v, ver) && InNameOrder(named, v.stores.Keys)
    requires CommitView(lib, v, named) == Some(once)
    requires FoundAll(first, v, w, l) && Replayed(first, v, l, again)
    requires k in v.stores && k !in v.removal && v.stores[k].IavlStore?
    ensures CommitView(lib, again, named).Some? && k in once.stores && once.stores[k].IavlStore?
    ensures var twice := CommitView(lib, again, named).value;
            && k in twice.stores && twice.stores[k].IavlStore?
            && (twice.stores[k].working == once.stores[k].working
                <==> || !AlreadyThere(again.stores[k], NextVersion(v))
                     || again.stores[k].working == once.stores[k].working)
  {
    ReplayedAllInterrupted(lib, first, v, named, w, l, again, ver);
    ReplayCommits(lib, v, named, again, once);
    assert k in named;
    CommitKeepsStore(lib, v, named, k);
    CommitKeepsStore(lib, again, named, k);
  }

  // Renames that are not safe

  /** A Commit that succeeds gets through any number of stores first. */
  lemma {:induction false} PrefixCommits(lib: Library, c: Commits, removal: set<StoreKey>, version: nat,
                                         keys: seq<StoreKey>, n: nat)
    requires n <= |keys| && CommitAll(lib, c, removal, version, keys).Some?
    ensures CommitAll(lib, c, removal, version, keys[..n]).Some?
  {
    if n == |keys| {
      assert keys[..n] == keys;
    } else {
      PrefixCommits(lib, c, removal, version, keys[..|keys| - 1], n);
      assert keys[..|keys| - 1][..n] == keys[..n];
    }
  }

  lemma DiesAt(lib: Library, v: View, named: seq<StoreKey>, saved: nat) returns (w: View)
    requires Healthy(v) && InNameOrder(named, v.stores.Keys) && CommitView(lib, v, named).Some? && saved <= |named|
    ensures DiesInCommit(lib, v, named, saved, w)
    ensures forall k :: k in v.stores && k in named[..saved] ==>
              HistoryOf(w.data, k.name) == CommittedHistory(HistoryOf(v.data, k.name), v.stores[k], NextVersion(v))
    ensures forall k :: k in v.stores && k !in named[..saved] ==> HistoryOf(w.data, k.name) == HistoryOf(v.data, k.name)
  {
    PrefixCommits(lib, Commits(v.data, v.stores, []), v.removal, NextVersion(v), named, saved);
    var c := CommitsSome(lib, v, named, saved);
    w := NewView(c.data);
    forall k | k in v.stores && k !in named[..saved]
      ensures HistoryOf(w.data, k.name) == HistoryOf(v.data, k.name)
    {
      forall d | d in named[..saved]
        ensures d.name != k.name
      {
        assert d in named && d in v.stores.Keys;
      }
    }
  }

  /** The stores up to the one whose name comes first. */
  lemma EarlierFirst(named: seq<StoreKey>, all: set<StoreKey>, d: StoreKey, k: StoreKey) returns (n: nat)
    requires InNameOrder(named, all) && NamesDiffer(all) && d in all && k in all && d != k && !Less(k.name, d.name)
    ensures n <= |named| && d in named[..n] && k !in named[..n]
  {
    assert d in named;
    var i :| 0 <= i < |named| && named[i] == d;
    n := i + 1;
    assert named[..n][i] == d;
    LessTotal(k.name, d.name);
  }

  lemma LosesData(lib: Library, data: Data, data2: Data, infos: seq<StoreInfo>, ver: nat, up: Upgrades, k: StoreKey,
                  next: nat, ld: Loaded, v: SubStore, vd: SubStore, h: History, hd: History, hd2: History)
    requires lib.Lawful() && Moves(up, k) && LoadKey(lib, data, infos, ver, up, k, TypeIAVL) == Some(ld)
    requires h == HistoryOf(data, k.name) == HistoryOf(data2, k.name) && 0 !in h
    requires hd == HistoryOf(data, RenamedFrom(up, k.name)) && hd2 == HistoryOf(data2, RenamedFrom(up, k.name))
    requires 0 !in hd
    requires ld.moved.Some? && SameBase(ld.sub, v, ver) && SameBase(ld.moved.value, vd, ver) && ReadyFor(v, next)
    requires vd.IavlStore? ==> vd.working == ld.moved.value.working
    requires hd2 == CommittedHistory(hd, vd, next) && next == ver + 1
    requires !RenameSafe(data, infos, up, k, ld.sub, next)
    requires GetCommitID(infos, k.name).version > 0 ==> AlreadyThere(ld.sub, next)
    ensures ItemsOf(ld.sub) != map[]
    ensures LoadKey(lib, data2, infos, ver, up, k, TypeIAVL).Some?
    ensures var ld2 := LoadKey(lib, data2, infos, ver, up, k, TypeIAVL).value;
            && ld2.sub.IavlStore? && ld2.sub.version == 0 && ItemsOf(ld2.sub) == map[]
            && ld2.moved.Some? && ItemsOf(ld2.moved.value) == map[]
  {
    LoadKeyParts(lib, data, infos, ver, up, k);
    LoadKeyParts(lib, data2, infos, ver, up, k);
    OldReloads(lib, data, data2, infos, up, k, ver, next, vd, hd, hd2);
    var from, from2 := OldStore(data, infos, up, k).value, OldStore(data2, infos, up, k).value;
    Reopens(hd, GetCommitID(infos, RenamedFrom(up, k.name)).version, 0, vd, next, hd2);
    SourceFoundEmpty(lib, from, vd, hd, hd2, next, from2);
    var own := OwnStore(data, infos, ver, up, k).value;
    FilledHasAll(lib, from, own);
    FilledFromNothing(lib, from2, own);
    EmptiedIsEmpty(lib, from2);
  }

  /** A rename that is not safe: if the process dies after the old store was saved, the
      same load finds neither store with the data. */
  lemma UnsafeRenameLosesData(lib: Library, view: View, ver: nat, up: Upgrades, order: seq<StoreKey>, info: CommitInfo,
                              first: View, v: View, named: seq<StoreKey>, k: StoreKey) returns (saved: nat, w: View)
    requires lib.Lawful() && LoadedFresh(lib, view, ver, up, order, info, first) && WrittenFrom(first, v, ver)
    requires Healthy(v)
    requires InNameOrder(named, v.stores.Keys) && CommitView(lib, v, named).Some? && ver >= 1
    requires k in view.params && view.params[k] == TypeIAVL && Moves(up, k) && k in first.stores
    requires !RenameSafe(view.data, info.storeInfos, up, k, first.stores[k], NextVersion(v))
    ensures DiesInCommit(lib, v, named, saved, w)
    ensures ItemsOf(first.stores[k]) != map[]
    ensures LoadKey(lib, w.data, info.storeInfos, ver, up, k, TypeIAVL).Some?
    ensures var ld := LoadKey(lib, w.data, info.storeInfos, ver, up, k, TypeIAVL).value;
            && ld.sub.IavlStore? && ld.sub.version == 0 && ItemsOf(ld.sub) == map[]
            && ld.moved.Some? && ItemsOf(ld.moved.value) == map[]
  {
    var d, infos, next := DetachedKey(up, k), info.storeInfos, NextVersion(v);
    LoadedUnder(lib, view, ver, up, order, first, info, k);
    saved := EarlierFirst(named, v.stores.Keys, d, k);
    w := DiesAt(lib, v, named, saved);
    if GetCommitID(infos, k.name).version > 0 { ListedNewStore(lib, view, ver, up, info, k); }
    LosesData(lib, view.data, w.data, infos, ver, up, k, next,
              LoadKey(lib, view.data, infos, ver, up, k, TypeIAVL).value,
              v.stores[k], v.stores[d], HistoryOf(view.data, k.name),
              HistoryOf(view.data, d.name), HistoryOf(w.data, d.name));
  }

  /** A load finds the store as it was loaded before, or as the Commit saved it. */
  ghost predicate FoundOrSaved(ld: Option<Loaded>, first: SubStore, v: SubStore, h: History, next: nat) {
    && ld.Some? && ld.value.sub.IavlStore?
    && (|| ld.value.sub == first
        || (AlreadyThere(ld.value.sub, next) && SameSaved(ld.value.sub, CommittedStore(h, v, next))))
  }

  /** Wherever the Commit dies, the same load finds the renamed store again. */
  ghost predicate RenameSurvives(lib: Library, info: CommitInfo, ver: nat, up: Upgrades, first: View, v: View,
                                 named: seq<StoreKey>, k: StoreKey)
    requires k in first.stores && k in v.stores && NextVersion(v) >= 0
  {
    forall saved, w :: DiesInCommit(lib, v, named, saved, w) ==>
      FoundOrSaved(LoadKey(lib, w.data, info.storeInfos, ver, up, k, TypeIAVL), first.stores[k], v.stores[k],
                   HistoryOf(v.data, k.name), NextVersion(v))
  }

  lemma SafeRenameFound(lib: Library, infos: seq<StoreInfo>, ver: nat, up: Upgrades, first: View, v: View, w: Data,
                        k: StoreKey)
    requires lib.Lawful() && Stands(lib, infos, ver, up, first, v, w, k, TypeIAVL) && Moves(up, k)
    requires RenameSafe(v.data, infos, up, k, first.stores[k], NextVersion(v))
    ensures FoundOrSaved(LoadKey(lib, w, infos, ver, up, k, TypeIAVL), first.stores[k], v.stores[k],
                         HistoryOf(v.data, k.name), NextVersion(v))
  {
    MovingReloads(lib, infos, ver, up, first, v, w, k);
    LoadKeyParts(lib, w, infos, ver, up, k);
  }

  /** A rename survives every crash of its Commit exactly when it is safe. */
  lemma RenameSurvivesIff(lib: Library, view: View, ver: nat, up: Upgrades, order: seq<StoreKey>, info: CommitInfo,
                          first: View, v: View, named: seq<StoreKey>, k: StoreKey)
    requires lib.Lawful() && LoadedFresh(lib, view, ver, up, order, info, first) && WrittenFrom(first, v, ver)
    requires Healthy(v)
    requires InNameOrder(named, v.stores.Keys) && CommitView(lib, v, named).Some? && ver >= 1
    requires k in view.params && view.params[k] == TypeIAVL && Moves(up, k) && k in first.stores && k in v.stores
    ensures RenameSurvives(lib, info, ver, up, first, v, named, k)
       <==> RenameSafe(view.data, info.storeInfos, up, k, first.stores[k], NextVersion(v))
  {
    if RenameSafe(view.data, info.storeInfos, up, k, first.stores[k], NextVersion(v)) {
      forall saved, w | DiesInCommit(lib, v, named, saved, w)
        ensures FoundOrSaved(LoadKey(lib, w.data, info.storeInfos, ver, up, k, TypeIAVL), first.stores[k], v.stores[k],
                             HistoryOf(v.data, k.name), NextVersion(v))
      {
        StandsAfterCrash(lib, view, ver, up, order, info, first, v, named, saved, w, k);
        SafeRenameFound(lib, info.storeInfos, ver, up, first, v, w.data, k);
      }
    } else {
      var saved, w := UnsafeRenameLosesData(lib, view, ver, up, order, info, first, v, named, k);
    }
  }
}

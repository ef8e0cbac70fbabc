// What a new process finds after one that died inside Commit or RollbackToVersion, and
// how it completes the commit.

module MultiStoreCrash {
  import opened Wrappers
  import opened Iavl
  import opened MultiStores
  import opened MultiStoreLoading
  import opened MultiStoreTheorems
  import opened MultiStoreReplay
  import opened MultiStoreRuns

  // Commit

  /** After a Commit that died at any point the database still loads, to the state before
      that Commit and the writes that led to it. */
  lemma CrashedCommitReloads(lib: Library, v: View, named: seq<StoreKey>, saved: nat, w: View,
                             reopened: View, order: seq<StoreKey>)
    requires Healthy(v) && Lockstep(lib, v) && DiesInCommit(lib, v, named, saved, w)
    requires reopened.data == w.data && MountsMatch(reopened.params, v.stores)
    requires Enumerates(order, reopened.params.Keys)
    ensures LoadView(lib, reopened, GetLatestVersion(w.data), NO_UPGRADES, order).Some?
    ensures var l := LoadView(lib, reopened, GetLatestVersion(w.data), NO_UPGRADES, order).value;
            && l.lastInfo == v.lastInfo
            && forall k :: k in reopened.params && reopened.params[k] == TypeIAVL ==>
                 && k in l.stores
                 && l.stores[k] == IavlStore(v.lastInfo.value.version, v.stores[k].saved, v.stores[k].saved, 0)
  {
    assert v.(data := v.data) == v;
    OtherStepsKeepDisk(lib, v, CrashInCommit(named, saved), w, v);
    LockstepReloads(lib, v.(data := w.data), reopened, order);
  }

  /** The same stores are mounted as the ones in memory. */
  ghost predicate SameMounts(params: map<StoreKey, StoreType>, stores: Stores) {
    && MountsMatch(params, stores) && params.Keys == stores.Keys
    && forall k :: k in params ==>
         (params[k] == TypeIAVL <==> stores[k].IavlStore?) && (params[k] == TypeDB <==> stores[k].DBAdapter?)
  }

  /** `again` is what replaying the block on the reloaded `l` gives: the writes that led from
      the saved trees to the working trees of v lead there again. */
  ghost predicate SameWrites(l: View, v: View, again: View)
    requires l.stores.Keys == v.stores.Keys
  {
    && again == l.(stores := again.stores) && again.stores.Keys == l.stores.Keys
    && forall k :: k in l.stores ==>
         && (l.stores[k].IavlStore? ==>
               v.stores[k].IavlStore? && again.stores[k] == l.stores[k].(working := v.stores[k].working))
         && (!l.stores[k].IavlStore? ==>
               !again.stores[k].IavlStore? && (again.stores[k].DBAdapter? <==> l.stores[k].DBAdapter?))
  }

  lemma LoadedKind(lib: Library, data: Data, infos: seq<StoreInfo>, version: nat, k: StoreKey, typ: StoreType)
    requires LoadKey(lib, data, infos, version, NO_UPGRADES, k, typ).Some?
    ensures var sub := LoadKey(lib, data, infos, version, NO_UPGRADES, k, typ).value.sub;
            (sub.IavlStore? <==> typ == TypeIAVL) && (sub.DBAdapter? <==> typ == TypeDB)
  {
  }

  lemma LoadedKinds(lib: Library, data: Data, infos: seq<StoreInfo>, version: nat, params: map<StoreKey, StoreType>,
                    order: seq<StoreKey>, stores: Stores)
    requires Enumerates(order, params.Keys) && LoadsEach(lib, data, infos, version, NO_UPGRADES, params, order, stores)
    ensures stores.Keys == params.Keys
    ensures forall k :: k in stores ==>
              (stores[k].IavlStore? <==> params[k] == TypeIAVL) && (stores[k].DBAdapter? <==> params[k] == TypeDB)
  {
    forall k | k in params
      ensures k in stores && (stores[k].IavlStore? <==> params[k] == TypeIAVL)
      ensures (stores[k].DBAdapter? <==> params[k] == TypeDB)
    {
      assert k in order;
      LoadedKind(lib, data, infos, version, k, params[k]);
    }
    forall k | k in stores
      ensures k in params
    {
      assert k in order;
    }
  }

  /** The reloaded store, store by store. */
  lemma ReloadedKinds(lib: Library, reopened: View, version: nat, order: seq<StoreKey>, l: View)
    requires Enumerates(order, reopened.params.Keys) && NamesDiffer(reopened.params.Keys)
    requires forall k :: k in reopened.params ==> k.Mounted?
    requires LoadView(lib, reopened, version, NO_UPGRADES, order) == Some(l)
    ensures l.data == reopened.data && l.removal == reopened.removal && l.stores.Keys == reopened.params.Keys
    ensures forall k :: k in l.stores ==>
              && (l.stores[k].IavlStore? <==> reopened.params[k] == TypeIAVL)
              && (l.stores[k].DBAdapter? <==> reopened.params[k] == TypeDB)
  {
    var info := LoadViewParts(lib, reopened, version, NO_UPGRADES, order);
    assert DroppedAll(NO_UPGRADES, order) == {};
    LoadedKinds(lib, reopened.data, info.storeInfos, version, reopened.params, order, l.stores);
  }

  lemma WritesAgain(l: View, v: View, again: View, k: StoreKey)
    requires l.stores.Keys == v.stores.Keys && SameWrites(l, v, again) && k in v.stores
    requires VersionsInLockstep(v) && v.lastInfo.value.version >= 1
    requires (l.stores[k].IavlStore? <==> v.stores[k].IavlStore?)
    requires (l.stores[k].DBAdapter? <==> v.stores[k].DBAdapter?)
    requires v.stores[k].IavlStore? ==>
               l.stores[k] == IavlStore(v.lastInfo.value.version, v.stores[k].saved, v.stores[k].saved, 0)
    ensures k in again.stores && SameTrees(again.stores[k], v.stores[k])
  {
  }

  /** On disk a substore has the new version, or what it had. */
  lemma SavedOrNot(lib: Library, v: View, c: Commits, named: seq<StoreKey>, saved: nat, k: StoreKey)
    requires DistinctNames(named) && saved <= |named| && k in named && k in v.stores && NextVersion(v) >= 0
    requires CommitsEach(lib, Commits(v.data, v.stores, []), c, NextVersion(v), named[..saved])
    ensures var h := HistoryOf(v.data, k.name);
            || HistoryOf(c.data, k.name) == h
            || HistoryOf(c.data, k.name) == CommittedHistory(h, v.stores[k], NextVersion(v))
  {
    if k !in named[..saved] {
      var i :| 0 <= i < |named| && named[i] == k;
      forall j | 0 <= j < saved
        ensures named[j].name != k.name
      {
        assert named[..saved][j] == named[j];
        assert j != i;
      }
    }
  }

  /** A commit that died, the reload, and the same writes leave each substore as an
      interrupted commit may. */
  lemma CrashInterrupts(lib: Library, v: View, named: seq<StoreKey>, saved: nat, w: View, l: View, again: View)
    requires Healthy(v) && Lockstep(lib, v) && v.removal == {} && DiesInCommit(lib, v, named, saved, w)
    requires l.data == w.data && l.stores.Keys == v.stores.Keys && SameWrites(l, v, again)
    requires forall k :: k in v.stores ==>
               && (l.stores[k].IavlStore? <==> v.stores[k].IavlStore?)
               && (l.stores[k].DBAdapter? <==> v.stores[k].DBAdapter?)
               && (v.stores[k].IavlStore? ==>
                     l.stores[k] == IavlStore(v.lastInfo.value.version, v.stores[k].saved, v.stores[k].saved, 0))
    ensures NextVersion(v) >= 1
    ensures again.stores.Keys == v.stores.Keys
    ensures InterruptedAll(lib, Commits(v.data, v.stores, []),
                           Commits(again.data, again.stores, []), v.removal, NextVersion(v), named)
    ensures forall k :: k in v.stores ==> k in again.stores && !AlreadyThere(again.stores[k], NextVersion(v))
  {
    var c := CommitsSome(lib, v, named, saved);
    OrderedKeysDistinct(named, v.stores.Keys);
    forall k | k in named
      ensures ReadyFor(v.stores[k], NextVersion(v))
      ensures Interrupted(HistoryOf(v.data, k.name), v.stores[k],
                          HistoryOf(w.data, k.name), again.stores[k], NextVersion(v))
      ensures !AlreadyThere(again.stores[k], NextVersion(v))
    {
      SavedOrNot(lib, v, c, named, saved, k);
      WritesAgain(l, v, again, k);
    }
  }

  /** Two commits with the same commit info, the same stores, and for each of them the same
      saved tree and the same versions on disk. */
  ghost predicate SameCommit(twice: View, once: View) {
    && twice.lastInfo == once.lastInfo && twice.removal == once.removal && twice.stores.Keys == once.stores.Keys
    && forall k :: k in once.stores ==>
         && SameSaved(twice.stores[k], once.stores[k])
         && HistoryOf(twice.data, k.name) == HistoryOf(once.data, k.name)
  }

  /** A Commit in terms of what the loop over the stores made. */
  lemma CommitEnds(lib: Library, v: View, named: seq<StoreKey>, after: View) returns (c: Commits)
    requires NamesDiffer(v.stores.Keys) && InNameOrder(named, v.stores.Keys) && CommitView(lib, v, named) == Some(after)
    requires NextVersion(v) >= 0
    ensures CommitAll(lib, Commits(v.data, v.stores, []), v.removal, NextVersion(v), named) == Some(c)
    ensures after.lastInfo == Some(CommitInfo(NextVersion(v), c.infos)) && after.removal == {}
    ensures after.stores == c.stores - v.removal && c.stores.Keys == v.stores.Keys
    ensures forall name :: HistoryOf(after.data, name) == HistoryOf(c.data, name)
  {
    c := CommitViewParts(lib, v, named);
    HistoriesAfterFlush(c.data, NextVersion(v), CommitInfo(NextVersion(v), c.infos));
    assert c.stores - (v.removal * v.stores.Keys) == c.stores - v.removal;
  }

  /** The Commit of a replay, next to one that did not die. */
  lemma CommitsSame(lib: Library, v: View, again: View, named: seq<StoreKey>, once: View, one: Commits, two: Commits)
    requires NamesDiffer(v.stores.Keys) && InNameOrder(named, v.stores.Keys) && CommitView(lib, v, named) == Some(once)
    requires again.removal == v.removal && NextVersion(again) == NextVersion(v) >= 1
    requires again.stores.Keys == v.stores.Keys
    requires CommitAll(lib, Commits(v.data, v.stores, []), v.removal, NextVersion(v), named) == Some(one)
    requires CommitAll(lib, Commits(again.data, again.stores, []), v.removal, NextVersion(v), named) == Some(two)
    requires two.infos == one.infos
    requires forall k :: k in named && k !in v.removal ==>
               && k in two.stores && k in one.stores
               && Completed(one.stores[k], HistoryOf(one.data, k.name), again.stores[k], two.stores[k],
                            HistoryOf(two.data, k.name), NextVersion(v))
    ensures CommitView(lib, again, named).Some?
    ensures SameCommit(CommitView(lib, again, named).value, once) && once.stores.Keys == v.stores.Keys - v.removal
    ensures forall k :: k in once.stores && !AlreadyThere(again.stores[k], NextVersion(v)) ==>
              SameTrees(CommitView(lib, again, named).value.stores[k], once.stores[k])
  {
    var c := CommitEnds(lib, v, named, once);
    var d := CommitEnds(lib, again, named, CommitView(lib, again, named).value);
  }

  /** The Commit of a replay on interrupted stores. */
  lemma ReplayCommits(lib: Library, v: View, named: seq<StoreKey>, again: View, once: View)
    requires NamesDiffer(v.stores.Keys) && InNameOrder(named, v.stores.Keys) && CommitView(lib, v, named) == Some(once)
    requires again.stores.Keys == v.stores.Keys && again.removal == v.removal
    requires NextVersion(again) == NextVersion(v) >= 1
    requires InterruptedAll(lib, Commits(v.data, v.stores, []), Commits(again.data, again.stores, []), v.removal,
                            NextVersion(v), named)
    ensures CommitView(lib, again, named).Some?
    ensures SameCommit(CommitView(lib, again, named).value, once) && once.stores.Keys == v.stores.Keys - v.removal
    ensures forall k :: k in once.stores && !AlreadyThere(again.stores[k], NextVersion(v)) ==>
              SameTrees(CommitView(lib, again, named).value.stores[k], once.stores[k])
  {
    OrderedKeysDistinct(named, v.stores.Keys);
    var one := CommitEnds(lib, v, named, once);
    var c, d := Commits(v.data, v.stores, []), Commits(again.data, again.stores, []);
    InterruptedCommitReplays(lib, c, d, v.removal, NextVersion(v), named);
    CommitsSame(lib, v, again, named, once, one, CommitAll(lib, d, v.removal, NextVersion(v), named).value);
  }

  /** And with the same working trees. */
  ghost predicate SameOutcome(twice: View, once: View) {
    SameCommit(twice, once) && forall k :: k in once.stores ==> SameTrees(twice.stores[k], once.stores[k])
  }

  /** The replay is ready to commit, and no store has the version yet. */
  ghost predicate ReadyToReplay(lib: Library, v: View, named: seq<StoreKey>, again: View) {
    && again.stores.Keys == v.stores.Keys && again.removal == v.removal && NextVersion(again) == NextVersion(v) >= 1
    && InterruptedAll(lib, Commits(v.data, v.stores, []), Commits(again.data, again.stores, []), v.removal,
                      NextVersion(v), named)
    && forall k :: k in v.stores ==> !AlreadyThere(again.stores[k], NextVersion(v))
  }

  lemma ReplayCommitsAll(lib: Library, v: View, named: seq<StoreKey>, again: View, once: View)
    requires NamesDiffer(v.stores.Keys) && InNameOrder(named, v.stores.Keys) && CommitView(lib, v, named) == Some(once)
    requires ReadyToReplay(lib, v, named, again) && v.removal == {}
    ensures CommitView(lib, again, named).Some?
    ensures SameOutcome(CommitView(lib, again, named).value, once) && once.stores.Keys == v.stores.Keys
  {
    ReplayCommits(lib, v, named, again, once);
  }

  lemma CrashLeadsToReplay(lib: Library, v: View, named: seq<StoreKey>, saved: nat, w: View,
                           reopened: View, order: seq<StoreKey>, l: View, again: View)
    requires Healthy(v) && Lockstep(lib, v) && v.removal == {} && DiesInCommit(lib, v, named, saved, w)
    requires reopened.data == w.data && reopened.removal == {} && SameMounts(reopened.params, v.stores)
    requires Enumerates(order, reopened.params.Keys)
    requires LoadView(lib, reopened, GetLatestVersion(w.data), NO_UPGRADES, order) == Some(l)
    requires l.stores.Keys == v.stores.Keys && SameWrites(l, v, again)
    ensures ReadyToReplay(lib, v, named, again)
  {
    CrashedCommitReloads(lib, v, named, saved, w, reopened, order);
    ReloadedKinds(lib, reopened, GetLatestVersion(w.data), order, l);
    CrashInterrupts(lib, v, named, saved, w, l, again);
  }

  /** Whatever a Commit had saved when it died: after the reload and the same writes, Commit
      gives the commit info, the trees and the versions on disk of one that did not die. */
  lemma CrashedCommitReplays(lib: Library, v: View, named: seq<StoreKey>, saved: nat, w: View,
                             reopened: View, order: seq<StoreKey>, l: View, again: View, once: View)
    requires Healthy(v) && Lockstep(lib, v) && v.removal == {}
    requires DiesInCommit(lib, v, named, saved, w) && CommitView(lib, v, named) == Some(once)
    requires reopened.data == w.data && reopened.removal == {} && SameMounts(reopened.params, v.stores)
    requires Enumerates(order, reopened.params.Keys)
    requires LoadView(lib, reopened, GetLatestVersion(w.data), NO_UPGRADES, order) == Some(l)
    requires l.stores.Keys == v.stores.Keys && SameWrites(l, v, again)
    ensures InNameOrder(named, again.stores.Keys)
    ensures CommitView(lib, again, named).Some?
    ensures SameOutcome(CommitView(lib, again, named).value, once) && once.stores.Keys == v.stores.Keys
  {
    CrashLeadsToReplay(lib, v, named, saved, w, reopened, order, l, again);
    ReplayCommitsAll(lib, v, named, again, once);
  }

  // RollbackToVersion

  /** Some store that has been cut back is an IAVL store. */
  predicate CutsSome(v: View, order: seq<StoreKey>, cut: nat)
    requires cut <= |order|
  {
    exists k :: k in order[..cut] && k in v.stores && v.stores[k].IavlStore?
  }

  /** A load fails if one of the mounted IAVL stores does not have the version. */
  lemma CannotLoad(lib: Library, reopened: View, version: nat, keys: seq<StoreKey>, k: StoreKey)
    requires version >= 1 && Enumerates(keys, reopened.params.Keys) && NamesDiffer(reopened.params.Keys)
    requires forall m :: m in reopened.params ==> m.Mounted?
    requires k in reopened.params && reopened.params[k] == TypeIAVL && version !in HistoryOf(reopened.data, k.name)
    ensures LoadView(lib, reopened, version, NO_UPGRADES, keys) == None
  {
    if GetCommitInfo(reopened.data, version).Some? {
      var infos := GetCommitInfo(reopened.data, version).value.storeInfos;
      EnumeratedNamesDistinct(keys, reopened.params.Keys);
      LoadAllLoadsEach(lib, reopened.data, infos, version, NO_UPGRADES, reopened.params,
                       Loading(map[], reopened.removal), keys);
      assert k in keys;
    }
  }

  /** After a rollback that died the database still loads exactly when it did not go behind
      the version the metadata names, or no store had been cut back yet. */
  lemma CrashedRollbackLoadsIff(lib: Library, v: View, target: nat, order: seq<StoreKey>, cut: nat, s: Rolling,
                                reopened: View, keys: seq<StoreKey>)
    requires Healthy(v) && Lockstep(lib, v) && Enumerates(order, v.stores.Keys) && cut <= |order|
    requires RollbackAll(Rolling(v.data, v.stores), target, order[..cut]) == Some(s)
    requires reopened.data == s.data && SameMounts(reopened.params, v.stores) && Enumerates(keys, reopened.params.Keys)
    ensures LoadView(lib, reopened, GetLatestVersion(s.data), NO_UPGRADES, keys).Some?
       <==> GetLatestVersion(v.data) <= target || !CutsSome(v, order, cut)
  {
    var r := RollsBackSome(v, target, order, cut);
    var latest := GetLatestVersion(v.data);
    if latest <= target {
      CuttingKeepsLatest(Rolling(v.data, v.stores), s, target, order[..cut]);
    }
    if latest <= target || !CutsSome(v, order, cut) {
      assert v.(data := v.data) == v;
      StillOnDisk(lib, v, v.data, s.data);
      LockstepReloads(lib, v.(data := s.data), reopened, keys);
    } else {
      var k :| k in order[..cut] && k in v.stores && v.stores[k].IavlStore?;
      assert latest !in HistoryOf(s.data, k.name);
      CannotLoad(lib, reopened, latest, keys, k);
    }
  }

  // The smallest such rollback

  const ONE_KEY := Mounted([97], KVKind)

  /** One store "a" with versions 1 and 2, loaded at version 2. */
  function TwoVersions(lib: Library): View {
    var info := CommitInfo(2, [StoreInfo(ONE_KEY.name, CommitID(2, lib.hash(Empty)))]);
    var data := Flushed(SaveHistory(map[], ONE_KEY.name, map[1 := Empty, 2 := Empty]), 2, info);
    View(data, Some(info), map[ONE_KEY := TypeIAVL], map[ONE_KEY := IavlStore(2, Empty, Empty, 0)],
         map[ONE_KEY.name := ONE_KEY], 0, {})
  }

  lemma TwoVersionsFacts(lib: Library)
    ensures var v := TwoVersions(lib); Healthy(v) && Lockstep(lib, v) && GetLatestVersion(v.data) == 2
    ensures HistoryOf(TwoVersions(lib).data, ONE_KEY.name) == map[1 := Empty, 2 := Empty]
  {
    var v, h := TwoVersions(lib), map[1 := Empty, 2 := Empty];
    var data := SaveHistory(map[], ONE_KEY.name, h);
    AfterFlush(data, 2, v.lastInfo.value, 2, ONE_KEY.name);
    AfterSave(map[], ONE_KEY.name, h, 0, ONE_KEY.name);
    forall name
      ensures 0 !in HistoryOf(v.data, name)
    {
      AfterFlush(data, 2, v.lastInfo.value, 2, name);
      AfterSave(map[], ONE_KEY.name, h, 0, name);
    }
    FindInfoSnoc([], v.lastInfo.value.storeInfos, ONE_KEY.name);
    assert [] + v.lastInfo.value.storeInfos == v.lastInfo.value.storeInfos;
  }

  lemma RollbackDies(lib: Library) returns (s: Rolling)
    ensures RollbackAll(Rolling(TwoVersions(lib).data, TwoVersions(lib).stores), 1, [ONE_KEY]) == Some(s)
  {
    var v := TwoVersions(lib);
    TwoVersionsFacts(lib);
    RollbackAllRollsBackEach(Rolling(v.data, v.stores), 1, [ONE_KEY]);
    s := RollbackAll(Rolling(v.data, v.stores), 1, [ONE_KEY]).value;
  }

  lemma OneStoreRollback(lib: Library, v: View, s: Rolling)
    requires Healthy(v) && Lockstep(lib, v) && GetLatestVersion(v.data) == 2
    requires v.stores.Keys == {ONE_KEY} && v.stores[ONE_KEY].IavlStore? && v.params == map[ONE_KEY := TypeIAVL]
    requires RollbackAll(Rolling(v.data, v.stores), 1, [ONE_KEY]) == Some(s)
    ensures GetLatestVersion(s.data) == 2
    ensures LoadView(lib, NewView(s.data).(params := v.params), 2, NO_UPGRADES, [ONE_KEY]) == None
  {
    var order := [ONE_KEY];
    assert order[..1] == order;
    var r := RollsBackSome(v, 1, order, 1);
    assert ONE_KEY in order[..1];
    CrashedRollbackLoadsIff(lib, v, 1, order, 1, s, NewView(s.data).(params := v.params), order);
  }

  /** The process dies in a rollback to version 1, before the metadata is rewritten: the
      store has lost version 2, which the metadata still names. */
  lemma DiedRollbackDoesNotLoad(lib: Library)
    ensures var v := TwoVersions(lib);
            var s := RollbackAll(Rolling(v.data, v.stores), 1, [ONE_KEY]);
            && s.Some? && GetLatestVersion(s.value.data) == 2
            && LoadView(lib, NewView(s.value.data).(params := v.params), 2, NO_UPGRADES, [ONE_KEY]) == None
  {
    TwoVersionsFacts(lib);
    var s := RollbackDies(lib);
    OneStoreRollback(lib, TwoVersions(lib), s);
  }
}

// cmd/pruner.go PruneCmtData up to its optional garbage collection: which height is
// pruned, which layout the chain has, and that the blocks to keep are kept.

module CmtPruning {
  import opened Bytes
  import opened Decimal
  import opened Floats
  import opened Databases
  import opened HeightRanges
  import opened HeightRangesExact
  import opened HeightRangeTheorems
  import opened BlockStores
  import opened BlockStoreTheorems
  import opened SeiStores
  import opened MultiStores

  /** What DbState reads from the state database. */
  datatype LatestState = LatestState(chainID: string, lastBlockHeight: int)

  /** uint64(LastBlockHeight) - keepBlocks, with its wrap-around. */
  function PruneHeight(latest: LatestState, keepBlocks: nat): nat {
    (latest.lastBlockHeight - keepBlocks) % 0x1_0000_0000_0000_0000
  }

  predicate IsSei(latest: LatestState) {
    latest.chainID == "pacific-1" || latest.chainID == "atlantic-2"
  }

  /** The pruned height stays at or below the last block exactly when no more blocks
      are to be kept than there are; otherwise it wraps around to beyond every block. */
  lemma PruneHeightBelowTipIff(latest: LatestState, keepBlocks: nat)
    requires 0 <= latest.lastBlockHeight <= MAX_INT64 && keepBlocks <= MAX_UINT64
    ensures PruneHeight(latest, keepBlocks) <= latest.lastBlockHeight <==> keepBlocks <= latest.lastBlockHeight
    ensures keepBlocks <= latest.lastBlockHeight ==>
              PruneHeight(latest, keepBlocks) == latest.lastBlockHeight - keepBlocks
  {
    if keepBlocks > latest.lastBlockHeight {
      var wrapped := latest.lastBlockHeight - keepBlocks + 0x1_0000_0000_0000_0000;
      assert PruneHeight(latest, keepBlocks) == wrapped;
    }
  }

  /** pruneBlockAndStateStore. The three databases are pruned concurrently in the source;
      they are distinct, so one after the other is an order they may take. */
  method PruneBlockAndStateStore<V>(blockStoreDB: Database<BlockRecord>, stateStoreDB: Database<V>,
                                    appStore: Database<Record>, pruneHeight: nat)
    returns (ok: bool)
    requires (blockStoreDB as object) != stateStoreDB && (blockStoreDB as object) != appStore
    requires (stateStoreDB as object) != appStore
    requires pruneHeight <= MAX_UINT64
    modifies blockStoreDB, stateStoreDB, appStore
    ensures ok <==> DecodeState(Lookup(old(blockStoreDB.data), BLOCK_STORE)).Some?
    ensures ok ==>
      && BlockStorePruned(old(blockStoreDB.data), blockStoreDB.data, pruneHeight)
      && stateStoreDB.data.Keys == AfterJobs(old(stateStoreDB.data).Keys, StateJobs(pruneHeight))
      && appStore.data.Keys == AfterJobs(old(appStore.data).Keys, AppJobs(pruneHeight))
    ensures !ok ==> blockStoreDB.data == old(blockStoreDB.data)
    ensures KeepsUntouchable(old(stateStoreDB.data), stateStoreDB.data, StateJobs(pruneHeight))
    ensures KeepsUntouchable(old(appStore.data), appStore.data, AppJobs(pruneHeight))
  {
    ghost var blockWrites;
    ok, blockWrites := PruneBlockStore(blockStoreDB, pruneHeight);
    if ok {
      ghost var stateWrites := PruneStateStore(stateStoreDB, pruneHeight);
      ghost var appWrites := PruneAppStore(appStore, pruneHeight);
    }
  }

  /** The pruning half of PruneCmtData; false when the tool panics. */
  method PruneCmtData<V>(latest: LatestState, keepBlocks: nat, blockStoreDB: Database<BlockRecord>,
                         stateStoreDB: Database<V>, appStoreDB: Database<Record>)
    returns (ok: bool)
    requires (blockStoreDB as object) != stateStoreDB && (blockStoreDB as object) != appStoreDB
    requires (stateStoreDB as object) != appStoreDB
    modifies blockStoreDB, stateStoreDB, appStoreDB
    ensures latest.chainID !in {"pacific-1", "atlantic-2"} ==>
      var e := PruneHeight(latest, keepBlocks);
      && (ok <==> DecodeState(Lookup(old(blockStoreDB.data), BLOCK_STORE)).Some?)
      && (ok ==> BlockStorePruned(old(blockStoreDB.data), blockStoreDB.data, e))
      && (!ok ==> blockStoreDB.data == old(blockStoreDB.data))
      && (ok ==> stateStoreDB.data.Keys == AfterJobs(old(stateStoreDB.data).Keys, StateJobs(e)))
      && (ok ==> appStoreDB.data.Keys == AfterJobs(old(appStoreDB.data).Keys, AppJobs(e)))
      && KeepsUntouchable(old(stateStoreDB.data), stateStoreDB.data, StateJobs(e))
      && KeepsUntouchable(old(appStoreDB.data), appStoreDB.data, AppJobs(e))
    ensures latest.chainID in {"pacific-1", "atlantic-2"} ==>
      var end := ToInt64(PruneHeight(latest, keepBlocks));
      var blocks := AfterPrefixes(old(blockStoreDB.data).Keys, BLOCK_PREFIXES, end);
      var states := AfterPrefixes(old(stateStoreDB.data).Keys, STATE_PREFIXES, end);
      && blockStoreDB.data.Keys == blocks.keys && KeepsValues(old(blockStoreDB.data), blockStoreDB.data)
      && stateStoreDB.data.Keys == (if blocks.panicked then old(stateStoreDB.data).Keys else states.keys)
      && KeepsValues(old(stateStoreDB.data), stateStoreDB.data)
      && appStoreDB.data == old(appStoreDB.data)
      && (ok <==> !blocks.panicked && !states.panicked)
  {
    var pruneHeight := PruneHeight(latest, keepBlocks);
    if !IsSei(latest) {
      ok := PruneBlockAndStateStore(blockStoreDB, stateStoreDB, appStoreDB, pruneHeight);
    } else {
      ok := PruneSeiBlockAndStateStore(blockStoreDB, stateStoreDB, pruneHeight);
    }
  }

  // The blocks to keep are kept

  lemma {:induction false} UntouchableStays(keys: set<Key>, jobs: seq<Job>, k: Key)
    requires k in keys && !Touchable(jobs, k)
    ensures k in AfterJobs(keys, jobs)
  {
    if jobs != [] {
      var init, last := jobs[..|jobs| - 1], jobs[|jobs| - 1];
      forall i | 0 <= i < |init|
        ensures !init[i].Prunable(k)
      {
        assert init[i] == jobs[i];
      }
      UntouchableStays(keys, init, k);
      OnlyPrunableDeleted(last, AfterJobs(keys, init), last.MaxDigits());
    }
  }

  /** A pruned block database has every entry of every block above pruneHeight. */
  lemma KeptBlocksStay(before: map<Key, BlockRecord>, after: map<Key, BlockRecord>, pruneHeight: nat, p: Key, n: nat,
                       part: Key)
    requires DecodeState(Lookup(before, BLOCK_STORE)).Some? && BlockStorePruned(before, after, pruneHeight)
    requires n > pruneHeight && (IsPlainPrefix(p) || p == P)
    ensures var k := if p == P then PartKey(P, n, part) else HeightKey(p, n);
            Lookup(after, k) == Lookup(before, k)
  {
    var k := if p == P then PartKey(P, n, part) else HeightKey(p, n);
    KeptBlocksUntouchable(pruneHeight, p, n, part);
    BlockKeyspacesDoNotInterfere(before.Keys, pruneHeight);
    assert k != BLOCK_STORE by {
      assert k[0] == p[0];
    }
    if k in before {
      UntouchableStays(before.Keys, BlockJobs(pruneHeight), k);
    }
  }

  lemma AboveIsUntouchable(jobs: seq<Job>, p: Key, n: nat)
    requires forall i :: 0 <= i < |jobs| ==>
               && jobs[i].parse == AsciiHeight && jobs[i].endHeight < n
               && (jobs[i].prefix == p || !(jobs[i].prefix <= HeightKey(p, n)))
    ensures !Touchable(jobs, HeightKey(p, n))
  {
    if n > 0 { ValueAboveIsNotParsedBelow(n, n - 1, []); }
    ValueOfDec(n);
    assert HeightKey(p, n)[|p|..] == Dec(n);
  }

  /** So does the state database, and the application database keeps the commit info
      of pruneHeight itself too. */
  lemma KeptStatesUntouchable(pruneHeight: nat, n: nat)
    requires n > pruneHeight
    ensures !Touchable(StateJobs(pruneHeight), HeightKey(ABCI_RESPONSES, n))
    ensures !Touchable(StateJobs(pruneHeight), HeightKey(CONSENSUS_PARAMS, n))
    ensures pruneHeight >= 1 ==> !Touchable(AppJobs(pruneHeight), InfoKey(n - 1))
  {
    var jobs := StateJobs(pruneHeight);
    assert HeightKey(ABCI_RESPONSES, n)[0] == 97 && HeightKey(CONSENSUS_PARAMS, n)[0] == 99;
    assert ABCI_RESPONSES[0] == 97 && CONSENSUS_PARAMS[0] == 99;
    AboveIsUntouchable(jobs, ABCI_RESPONSES, n);
    AboveIsUntouchable(jobs, CONSENSUS_PARAMS, n);
    if pruneHeight >= 1 {
      AboveIsUntouchable(AppJobs(pruneHeight), S, n - 1);
    }
  }

  /** Some application database loses the commit info of version n. */
  ghost predicate MayLoseInfo(pruneHeight: nat, n: nat) {
    exists keys: set<Key> :: InfoKey(n) in keys && InfoKey(n) !in AfterJobs(keys, AppJobs(pruneHeight))
  }

  function HeightsUpTo(e: nat): (s: set<nat>)
    ensures forall h :: h in s <==> 1 <= h <= e
  {
    if e == 0 then {} else HeightsUpTo(e - 1) + {e}
  }

  lemma OneJob(keys: set<Key>, job: Job)
    ensures AfterJobs(keys, [job]) == job.Result(keys)
  {
    assert [job][..0] == [];
    assert AfterJobs(keys, [job][..0]) == keys;
  }

  lemma LostIsDoomed(prefix: Key, e: nat, keys: set<Key>, n: nat)
    requires 1 <= e <= MAX_EXACT
    requires HeightKey(prefix, n) in keys && HeightKey(prefix, n) !in PlainJob(prefix, e).Result(keys)
    ensures IsDoomed(e, n)
  {
    EarlyExitDeletesLess(PlainJob(prefix, e), keys, Digits(e));
    FullLoopDeletesAllButOne(prefix, e, keys);
    var m :| m in Doomed(e) && HeightKey(prefix, n) == HeightKey(prefix, m);
    HeightKeyInjective(prefix, n, m);
  }

  lemma DoomedIsLost(prefix: Key, e: nat, keys: set<Key>, n: nat)
    requires 1 <= e <= MAX_EXACT && e != Pow10(Digits(e) - 1) && IsDoomed(e, n)
    requires keys == HeightKeys(prefix, HeightsUpTo(e))
    ensures HeightKey(prefix, n) in keys && HeightKey(prefix, n) !in PlainJob(prefix, e).Result(keys)
  {
    forall h: nat
      ensures HeightKey(prefix, h) in keys <==> 1 <= h <= e
    {
      if HeightKey(prefix, h) in keys {
        var m :| m in HeightsUpTo(e) && HeightKey(prefix, h) == HeightKey(prefix, m);
        HeightKeyInjective(prefix, h, m);
      }
    }
    assert Pow10(0) == 1;
    ConsecutiveHeightsDeleted(prefix, e, keys, 1, e);
  }

  /** A commit info is in danger exactly when its version is from 1 to pruneHeight-1, other
      than the spared one, and that bound is no power of ten. */
  lemma CommitInfoLostIff(pruneHeight: nat, n: nat)
    requires 1 <= pruneHeight <= MAX_EXACT + 1
    ensures MayLoseInfo(pruneHeight, n)
       <==> var e := pruneHeight - 1; 1 <= n <= e && n != Spared(e) && e != Pow10(Digits(e) - 1)
  {
    var e := pruneHeight - 1;
    if e == 0 || e == Pow10(Digits(e) - 1) {
      forall keys: set<Key>
        ensures AfterJobs(keys, AppJobs(pruneHeight)) == keys
      {
        PowerOfTenIsIdle(S, e, keys);
        OneJob(keys, PlainJob(S, e));
      }
    } else {
      if MayLoseInfo(pruneHeight, n) {
        var keys: set<Key> :| InfoKey(n) in keys && InfoKey(n) !in AfterJobs(keys, AppJobs(pruneHeight));
        OneJob(keys, PlainJob(S, e));
        LostIsDoomed(S, e, keys, n);
      }
      if IsDoomed(e, n) {
        var keys := HeightKeys(S, HeightsUpTo(e));
        DoomedIsLost(S, e, keys, n);
        OneJob(keys, PlainJob(S, e));
        assert InfoKey(n) in keys && InfoKey(n) !in AfterJobs(keys, AppJobs(pruneHeight));
      }
    }
  }

  /** After pruning with no more blocks to keep than there are, on a chain that is not
      Sei, every entry of the last keepBlocks blocks has its value; if there is a block
      more, so has the commit info of each of them and of the one before. */
  lemma LastBlocksStay<V>(latest: LatestState, keepBlocks: nat,
                          blocks: map<Key, BlockRecord>, blocks2: map<Key, BlockRecord>,
                          states: map<Key, V>, states2: map<Key, V>, app: Data, app2: Data, n: nat, part: Key)
    requires keepBlocks <= latest.lastBlockHeight <= MAX_INT64
    requires latest.lastBlockHeight - keepBlocks < n <= latest.lastBlockHeight
    requires var e := PruneHeight(latest, keepBlocks);
             && DecodeState(Lookup(blocks, BLOCK_STORE)).Some? && BlockStorePruned(blocks, blocks2, e)
             && KeepsUntouchable(states, states2, StateJobs(e)) && KeepsUntouchable(app, app2, AppJobs(e))
    ensures forall p :: IsPlainPrefix(p) ==> Lookup(blocks2, HeightKey(p, n)) == Lookup(blocks, HeightKey(p, n))
    ensures Lookup(blocks2, PartKey(P, n, part)) == Lookup(blocks, PartKey(P, n, part))
    ensures Lookup(states2, HeightKey(ABCI_RESPONSES, n)) == Lookup(states, HeightKey(ABCI_RESPONSES, n))
    ensures Lookup(states2, HeightKey(CONSENSUS_PARAMS, n)) == Lookup(states, HeightKey(CONSENSUS_PARAMS, n))
    ensures keepBlocks < latest.lastBlockHeight ==>
              GetCommitInfo(app2, n) == GetCommitInfo(app, n) && GetCommitInfo(app2, n - 1) == GetCommitInfo(app, n - 1)
  {
    var e := PruneHeight(latest, keepBlocks);
    PruneHeightBelowTipIff(latest, keepBlocks);
    forall p | IsPlainPrefix(p)
      ensures Lookup(blocks2, HeightKey(p, n)) == Lookup(blocks, HeightKey(p, n))
    {
      KeptBlocksStay(blocks, blocks2, e, p, n, part);
    }
    KeptBlocksStay(blocks, blocks2, e, P, n, part);
    KeptStatesUntouchable(e, n);
    KeptStatesUntouchable(e, n + 1);
  }

  lemma NotBelow(keys: set<Key>, prefixes: seq<nat>, end: nat, i: nat, n: nat, k: Key)
    requires AllWellFormed(keys, prefixes) && i < |prefixes| && IsSeiKey(prefixes[i], n, k) && n >= end
    ensures k !in AllBelow(keys, prefixes, end)
  {
    assert prefixes[i] < 64;
    RangeIsNumeric(prefixes[i], n, end, k);
    if k in AllBelow(keys, prefixes, end) {
      var j, h: nat :| 0 <= j < |prefixes| && h < end && IsSeiKey(prefixes[j], h, k);
      assert prefixes[j] < 64;
      RangeIsNumeric(prefixes[j], h, end, k);
    }
  }

  /** On a well-formed Sei database the heights from pruneHeight on stay, whatever the prefix. */
  lemma LastSeiBlocksStay(keys: set<Key>, prefixes: seq<nat>, latest: LatestState, keepBlocks: nat, i: nat, n: nat,
                          k: Key)
    requires keepBlocks <= latest.lastBlockHeight <= MAX_INT64 && AllWellFormed(keys, prefixes)
    requires i < |prefixes| && IsSeiKey(prefixes[i], n, k) && k in keys && n >= latest.lastBlockHeight - keepBlocks
    ensures k in AfterPrefixes(keys, prefixes, ToInt64(PruneHeight(latest, keepBlocks))).keys
  {
    PruneHeightBelowTipIff(latest, keepBlocks);
    var end := latest.lastBlockHeight - keepBlocks;
    assert ToInt64(end) == end;
    PrefixesAreFiltered(keys, prefixes, end);
    NotBelow(keys, prefixes, end, i, n, k);
  }
}

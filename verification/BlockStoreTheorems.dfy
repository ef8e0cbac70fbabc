// What pruneBlockStore, pruneStateStore and pruneAppStore leave behind.

module BlockStoreTheorems {
  import opened Bytes
  import opened Decimal
  import opened Floats
  import opened HeightRanges
  import opened HeightRangesExact
  import opened HeightRangeTheorems
  import opened BlockPartTheorems
  import opened BlockStores

  /** The keyspaces that hold one key per height. */
  predicate IsPlainPrefix(p: Key) {
    p == H || p == C || p == EC || p == SC
  }

  function JobOf(p: Key, pruneHeight: nat): (job: Job)
    requires IsPlainPrefix(p) || p == P
  {
    if p == P then PartsJob(p, pruneHeight) else PlainJob(p, pruneHeight)
  }

  lemma JobOfIsListed(p: Key, pruneHeight: nat) returns (i: nat)
    requires IsPlainPrefix(p) || p == P
    ensures i < 5 && BlockJobs(pruneHeight)[i] == JobOf(p, pruneHeight)
  {
    i := if p == H then 0 else if p == C then 1 else if p == EC then 2 else if p == SC then 3 else 4;
  }

  /** Each keyspace ends up as if its own job alone had run on the original keys;
      all BH: keys go, whatever height they belong to; every other key stays. */
  lemma BlockKeyspacesDoNotInterfere(keys: set<Key>, pruneHeight: nat)
    ensures var after := PrunedBlockKeys(keys, pruneHeight);
            && after <= keys
            && Under(after, BH) == {}
            && (forall p :: IsPlainPrefix(p) || p == P ==>
                  Under(after, p) == Under(JobOf(p, pruneHeight).Result(keys), p))
            && (forall k :: k in keys && !(BH <= k) ==>
                  (forall i :: 0 <= i < 5 ==> !BlockJobs(pruneHeight)[i].Owns(k)) ==> k in after)
  {
    var jobs := BlockJobs(pruneHeight);
    var left, after := AfterJobs(keys, jobs), PrunedBlockKeys(keys, pruneHeight);
    BlockKeyspaces(pruneHeight);
    IndependentJobs(keys, jobs);
    forall p | IsPlainPrefix(p) || p == P
      ensures Under(after, p) == Under(JobOf(p, pruneHeight).Result(keys), p)
    {
      var i := JobOfIsListed(p, pruneHeight);
      assert forall k :: jobs[i].Owns(k) <==> p <= k;
      assert Under(after, p) == Under(left, p);
    }
  }

  /** On a store that holds exactly the blocks b..t, with pruneHeight no power of ten:
      the plain keyspaces keep the heights above pruneHeight and one more, the block
      parts keep those and the runs of nines, and no BH: key is left. */
  lemma WholeBlockStore(keys: set<Key>, e: nat, b: nat, t: nat)
    requires 1 <= b < e <= t && e <= MAX_EXACT && e != Pow10(Digits(e) - 1)
    requires forall p :: IsPlainPrefix(p) ==> Consecutive(keys, p, b, t)
    requires ConsecutiveParts(keys, P, b, t) && NoPlainHeights(P, e, keys)
    ensures var after := PrunedBlockKeys(keys, e);
            && (forall p, h: nat :: IsPlainPrefix(p) ==>
                  (HeightKey(p, h) in after <==> b <= h <= t && (h > e || h == Spared(e))))
            && (forall n: nat, part: Key ::
                  (PartKey(P, n, part) in after <==> PartKey(P, n, part) in keys && (n > e || SparedParts(e, n))))
            && (forall k :: k in after ==> !(BH <= k))
  {
    var after := PrunedBlockKeys(keys, e);
    BlockKeyspacesDoNotInterfere(keys, e);
    forall k | k in after
      ensures !(BH <= k)
    {
      assert k in Under(after, BH) <==> BH <= k;
    }
    forall p, h: nat | IsPlainPrefix(p)
      ensures HeightKey(p, h) in after <==> b <= h <= t && (h > e || h == Spared(e))
    {
      ConsecutiveHeightsDeleted(p, e, keys, b, t);
      assert HeightKey(p, h) in after <==> HeightKey(p, h) in Under(after, p);
    }
    ConsecutivePartsDeleted(P, e, keys, b, t);
    forall n: nat, part: Key
      ensures PartKey(P, n, part) in after <==> PartKey(P, n, part) in keys && (n > e || SparedParts(e, n))
    {
      assert PartKey(P, n, part) in after <==> PartKey(P, n, part) in Under(after, P);
    }
  }

  lemma {:induction false} IdleJobs(keys: set<Key>, jobs: seq<Job>)
    requires forall i :: 0 <= i < |jobs| ==> jobs[i].Result(keys) == keys
    ensures AfterJobs(keys, jobs) == keys
  {
    if jobs != [] {
      IdleJobs(keys, jobs[..|jobs| - 1]);
    }
  }

  /** With a power of ten nothing but the BH: keys goes, although the recorded base
      moves past pruneHeight all the same. */
  lemma WholeBlockStoreAtPowerOfTen(keys: set<Key>, e: nat)
    requires e <= MAX_EXACT && (e == 0 || e == Pow10(Digits(e) - 1))
    ensures PrunedBlockKeys(keys, e) == keys - Under(keys, BH)
  {
    PowerOfTenIsIdle(H, e, keys);
    PowerOfTenIsIdle(C, e, keys);
    PowerOfTenIsIdle(EC, e, keys);
    PowerOfTenIsIdle(SC, e, keys);
    PowerOfTenIsIdle(P, e, keys);
    var jobs := BlockJobs(e);
    IdleJobs(keys, jobs);
  }

  lemma {:induction false} ValueAboveIsNotParsedBelow(n: nat, e: nat, part: Key)
    requires n > e
    ensures AsciiHeight(Dec(n)).Some? ==> AsciiHeight(Dec(n)).value > e
    ensures var s := Dec(n) + ([COLON] + part);
            AsciiHeightTwoParts(s).Some? ==> AsciiHeightTwoParts(s).value > e
  {
    ValueOfDec(n);
    BeforeColonOf(Dec(n), part);
  }

  lemma OwnerIsUnique(jobs: seq<Job>, i: nat, k: Key)
    requires Independent(jobs) && i < |jobs| && jobs[i].Owns(k) && !jobs[i].Prunable(k)
    ensures !Touchable(jobs, k)
  {
    forall j | 0 <= j < |jobs|
      ensures !jobs[j].Prunable(k)
    {
      if j != i && jobs[j].Owns(k) {
        PrefixesOfOneKey(jobs[i].prefix, jobs[j].prefix, k);
      }
    }
  }

  /** Nothing pruneBlockStore deletes on its way belongs to a block above pruneHeight. */
  lemma KeptBlocksUntouchable(pruneHeight: nat, p: Key, n: nat, part: Key)
    requires n > pruneHeight
    requires IsPlainPrefix(p) || p == P
    ensures var k := if p == P then PartKey(P, n, part) else HeightKey(p, n);
            !Touchable(BlockJobs(pruneHeight), k) && !(BH <= k)
  {
    var jobs := BlockJobs(pruneHeight);
    var k := if p == P then PartKey(P, n, part) else HeightKey(p, n);
    var i := JobOfIsListed(p, pruneHeight);
    BlockKeyspaces(pruneHeight);
    ValueAboveIsNotParsedBelow(n, pruneHeight, part);
    assert k[|p|..] == if p == P then Dec(n) + ([COLON] + part) else Dec(n);
    assert jobs[i].Owns(k);
    OwnerIsUnique(jobs, i, k);
  }

  lemma BlockStoreRecordUntouchable(pruneHeight: nat)
    ensures !Touchable(BlockJobs(pruneHeight), BLOCK_STORE) && !(BH <= BLOCK_STORE)
  {
    var jobs := BlockJobs(pruneHeight);
    BlockKeyspaces(pruneHeight);
    forall i | 0 <= i < |jobs|
      ensures !jobs[i].Prunable(BLOCK_STORE)
    {
      assert jobs[i].Owns(BLOCK_STORE) <==> jobs[i].prefix <= BLOCK_STORE;
    }
  }

  /** In every state the disk goes through, before the last write of pruneBlockStore,
      each entry of a block above pruneHeight is intact and the blockStore record is
      still the old one. */
  lemma CrashLosesNoKeptBlock(before: map<Key, BlockRecord>, state: map<Key, BlockRecord>, pruneHeight: nat, n: nat)
    requires SafeOnTheWay(before, state, pruneHeight) && n > pruneHeight
    ensures forall p :: IsPlainPrefix(p) ==> Lookup(state, HeightKey(p, n)) == Lookup(before, HeightKey(p, n))
    ensures forall part: Key :: Lookup(state, PartKey(P, n, part)) == Lookup(before, PartKey(P, n, part))
    ensures Lookup(state, BLOCK_STORE) == Lookup(before, BLOCK_STORE)
  {
    forall p | IsPlainPrefix(p)
      ensures Lookup(state, HeightKey(p, n)) == Lookup(before, HeightKey(p, n))
    {
      KeptBlocksUntouchable(pruneHeight, p, n, []);
    }
    forall part: Key
      ensures Lookup(state, PartKey(P, n, part)) == Lookup(before, PartKey(P, n, part))
    {
      KeptBlocksUntouchable(pruneHeight, P, n, part);
    }
    BlockStoreRecordUntouchable(pruneHeight);
  }

  /** The two keyspaces of the state database do not interfere either. */
  lemma StateKeyspacesDoNotInterfere(keys: set<Key>, pruneHeight: nat)
    ensures var after := AfterJobs(keys, StateJobs(pruneHeight));
            && after <= keys
            && Under(after, ABCI_RESPONSES) == Under(PlainJob(ABCI_RESPONSES, pruneHeight).Result(keys), ABCI_RESPONSES)
            && Under(after, CONSENSUS_PARAMS)
               == Under(PlainJob(CONSENSUS_PARAMS, pruneHeight).Result(keys), CONSENSUS_PARAMS)
            && forall k :: k in keys && !(ABCI_RESPONSES <= k) && !(CONSENSUS_PARAMS <= k) ==> k in after
  {
    var jobs := StateJobs(pruneHeight);
    assert jobs[0].prefix[0] == 97 && jobs[1].prefix[0] == 99;
    assert Independent(jobs);
    IndependentJobs(keys, jobs);
    assert jobs[0] == PlainJob(ABCI_RESPONSES, pruneHeight) && jobs[1] == PlainJob(CONSENSUS_PARAMS, pruneHeight);
    forall k | k in keys && !(ABCI_RESPONSES <= k) && !(CONSENSUS_PARAMS <= k)
      ensures forall i :: 0 <= i < |jobs| ==> !jobs[i].Owns(k)
    {
    }
  }
}

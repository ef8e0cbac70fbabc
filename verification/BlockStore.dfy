// cmd/generic_chain.go: pruning the block, state and application databases, each
// with several height ranges that share one keyspace.

module BlockStores {
  import opened Wrappers
  import opened Bytes
  import opened Decimal
  import opened Databases
  import opened HeightRanges
  import opened HeightRangesExact

  const H: Key := [72, 58]                                        // "H:"
  const C: Key := [67, 58]                                        // "C:"
  const EC: Key := [69, 67, 58]                                   // "EC:"
  const SC: Key := [83, 67, 58]                                   // "SC:"
  const P: Key := [80, 58]                                        // "P:"
  const BH: Key := [66, 72, 58]                                   // "BH:"
  const BLOCK_STORE: Key := [98, 108, 111, 99, 107, 83, 116, 111, 114, 101]  // "blockStore"
  const ABCI_RESPONSES: Key :=                                    // "abciResponsesKey:"
    [97, 98, 99, 105, 82, 101, 115, 112, 111, 110, 115, 101, 115, 75, 101, 121, 58]
  const CONSENSUS_PARAMS: Key :=                                  // "consensusParamsKey:"
    [99, 111, 110, 115, 101, 110, 115, 117, 115, 80, 97, 114, 97, 109, 115, 75, 101, 121, 58]
  const S: Key := [115, 47]                                       // "s/"

  function BlockJobs(pruneHeight: nat): seq<Job> {
    [PlainJob(H, pruneHeight), PlainJob(C, pruneHeight), PlainJob(EC, pruneHeight), PlainJob(SC, pruneHeight),
     PartsJob(P, pruneHeight)]
  }

  function StateJobs(pruneHeight: nat): seq<Job> {
    [PlainJob(ABCI_RESPONSES, pruneHeight), PlainJob(CONSENSUS_PARAMS, pruneHeight)]
  }

  /** pruneHeight-1 in uint64 arithmetic: 0 wraps around to the largest height. */
  function Predecessor(pruneHeight: nat): nat {
    if pruneHeight == 0 then MAX_UINT64 else pruneHeight - 1
  }

  /** It is the unsigned 64-bit number whose successor, with the carry lost, is pruneHeight. */
  lemma PredecessorWraps(pruneHeight: nat, n: nat)
    requires pruneHeight <= MAX_UINT64
    ensures n == Predecessor(pruneHeight)
       <==> n < 0x1_0000_0000_0000_0000 && (n + 1) % 0x1_0000_0000_0000_0000 == pruneHeight
  {
    if n < MAX_UINT64 {
      assert (n + 1) % 0x1_0000_0000_0000_0000 == n + 1;
    }
  }

  function AppJobs(pruneHeight: nat): seq<Job> {
    [PlainJob(S, Predecessor(pruneHeight))]
  }

  // Several jobs, one after the other

  function AfterJobs(keys: set<Key>, jobs: seq<Job>): set<Key> {
    if jobs == [] then keys
    else jobs[|jobs| - 1].Result(AfterJobs(keys, jobs[..|jobs| - 1]))
  }

  ghost predicate Touchable(jobs: seq<Job>, k: Key) {
    exists i :: 0 <= i < |jobs| && jobs[i].Prunable(k)
  }

  /** Values never change, and only keys some job may prune disappear. */
  ghost predicate KeepsUntouchable<V>(before: map<Key, V>, after: map<Key, V>, jobs: seq<Job>) {
    && (forall k :: k in after ==> k in before && after[k] == before[k])
    && (forall k :: k in before && !Touchable(jobs, k) ==> k in after)
  }

  ghost predicate AllKeepUntouchable<V>(before: map<Key, V>, states: seq<map<Key, V>>, jobs: seq<Job>) {
    forall i :: 0 <= i < |states| ==> KeepsUntouchable(before, states[i], jobs)
  }

  /** The state after the first i jobs. */
  ghost predicate JobsDone<V>(before: map<Key, V>, states: seq<map<Key, V>>, now: map<Key, V>, jobs: seq<Job>, i: nat)
    requires i <= |jobs|
  {
    && now.Keys == AfterJobs(before.Keys, jobs[..i])
    && KeepsUntouchable(before, now, jobs)
    && AllKeepUntouchable(before, states, jobs)
  }

  /** The job of a call with startHeight 0, as all calls are. */
  ghost predicate FromZero(job: Job) {
    job == JobFor(job.prefix, job.parse, 0, job.endHeight)
  }

  lemma StatesStillKeep<V>(before: map<Key, V>, states: seq<map<Key, V>>, now: map<Key, V>,
                           more: seq<map<Key, V>>, next: map<Key, V>, jobs: seq<Job>, i: nat)
    requires i < |jobs|
    requires KeepsUntouchable(before, now, jobs) && AllKeepUntouchable(before, states, jobs)
    requires KeepsAllBut(now, next, jobs[i]) && AllKeep(now, more, jobs[i])
    ensures KeepsUntouchable(before, next, jobs)
    ensures AllKeepUntouchable(before, states + more, jobs)
  {
    forall k | jobs[i].Prunable(k)
      ensures Touchable(jobs, k)
    {
    }
    forall j | 0 <= j < |more|
      ensures KeepsUntouchable(before, more[j], jobs)
    {
      assert KeepsAllBut(now, more[j], jobs[i]);
    }
  }

  method PruneKey<V>(db: Database<V>, jobs: seq<Job>, i: nat, ghost before: map<Key, V>, ghost states: seq<map<Key, V>>)
    returns (ghost more: seq<map<Key, V>>)
    requires i < |jobs| && FromZero(jobs[i]) && JobsDone(before, states, db.data, jobs, i)
    modifies db
    ensures JobsDone(before, states + more, db.data, jobs, i + 1)
    ensures db.written == old(db.written) + more
  {
    var job := jobs[i];
    var count;
    count, more := DeleteHeightRange(db, job.prefix, 0, job.endHeight, job.parse);
    StatesStillKeep(before, states, old(db.data), more, db.data, jobs, i);
    assert jobs[..i + 1][..i] == jobs[..i];
  }

  /** pruneKeys: every job in turn. */
  method PruneKeys<V>(db: Database<V>, jobs: seq<Job>) returns (ghost states: seq<map<Key, V>>)
    requires forall i :: 0 <= i < |jobs| ==> FromZero(jobs[i])
    modifies db
    ensures db.data.Keys == AfterJobs(old(db.data).Keys, jobs)
    ensures KeepsUntouchable(old(db.data), db.data, jobs)
    ensures AllKeepUntouchable(old(db.data), states, jobs)
    ensures db.written == old(db.written) + states
  {
    states := [];
    ghost var before := db.data;
    var i := 0;
    while i < |jobs|
      invariant 0 <= i <= |jobs|
      invariant JobsDone(before, states, db.data, jobs, i)
      invariant db.written == old(db.written) + states
    {
      ghost var more := PruneKey(db, jobs, i, before, states);
      states := states + more;
      i := i + 1;
    }
    assert jobs[..i] == jobs;
  }

  /** No job's prefix is a prefix of another's. */
  ghost predicate Independent(jobs: seq<Job>) {
    forall i, j :: 0 <= i < |jobs| && 0 <= j < |jobs| && i != j ==> !(jobs[i].prefix <= jobs[j].prefix)
  }

  function Under(keys: set<Key>, prefix: Key): set<Key> {
    set k | k in keys && prefix <= k
  }

  /** A job sees only the keys under its prefix. */
  lemma JobSeesItsPrefix(job: Job, keys: set<Key>)
    ensures job.Result(keys) == job.Result(Under(keys, job.prefix)) + (keys - Under(keys, job.prefix))
    ensures job.Result(Under(keys, job.prefix)) <= Under(keys, job.prefix)
  {
    var mine := Under(keys, job.prefix);
    OtherKeysDoNotMatter(job, mine, keys - mine, job.MaxDigits());
    OnlyPrunableDeleted(job, mine, job.MaxDigits());
    assert mine + (keys - mine) == keys;
  }

  lemma PrefixesOfOneKey(p: Key, q: Key, k: Key)
    requires p <= k && q <= k
    ensures p <= q || q <= p
  {
    assert p == k[..|p|] && q == k[..|q|];
  }

  lemma LastPrefixUntouched(keys: set<Key>, jobs: seq<Job>)
    requires jobs != [] && Independent(jobs)
    requires var init := jobs[..|jobs| - 1];
             && AfterJobs(keys, init) <= keys
             && forall k :: k in keys && (forall i :: 0 <= i < |init| ==> !init[i].Owns(k)) ==>
                  k in AfterJobs(keys, init)
    ensures var last := jobs[|jobs| - 1];
            Under(AfterJobs(keys, jobs[..|jobs| - 1]), last.prefix) == Under(keys, last.prefix)
  {
    var init, last := jobs[..|jobs| - 1], jobs[|jobs| - 1];
    forall k, i | k in keys && last.prefix <= k && 0 <= i < |init|
      ensures !init[i].Owns(k)
    {
      assert init[i] == jobs[i];
      if init[i].prefix <= k { PrefixesOfOneKey(init[i].prefix, last.prefix, k); }
    }
  }

  lemma DisjointPrefixes(keys: set<Key>, p: Key, q: Key)
    requires !(p <= q) && !(q <= p)
    ensures Under(keys, p) !! Under(keys, q)
  {
    forall k | k in Under(keys, p)
      ensures k !in Under(keys, q)
    {
      if q <= k { PrefixesOfOneKey(p, q, k); }
    }
  }

  /** Independent jobs do not interfere: under each prefix the outcome is what that
      job alone would have left of the original keys, and other keys stay. */
  lemma {:induction false} IndependentJobs(keys: set<Key>, jobs: seq<Job>)
    requires Independent(jobs)
    ensures AfterJobs(keys, jobs) <= keys
    ensures forall i :: 0 <= i < |jobs| ==>
              Under(AfterJobs(keys, jobs), jobs[i].prefix) == Under(jobs[i].Result(keys), jobs[i].prefix)
    ensures forall k :: k in keys && (forall i :: 0 <= i < |jobs| ==> !jobs[i].Owns(k)) ==> k in AfterJobs(keys, jobs)
  {
    if jobs != [] {
      var n := |jobs| - 1;
      var init, last := jobs[..n], jobs[n];
      var mid := AfterJobs(keys, init);
      IndependentJobs(keys, init);
      JobSeesItsPrefix(last, mid);
      JobSeesItsPrefix(last, keys);
      assert Under(mid, last.prefix) == Under(keys, last.prefix) by {
        LastPrefixUntouched(keys, jobs);
      }
      forall i | 0 <= i < |jobs|
        ensures Under(last.Result(mid), jobs[i].prefix) == Under(jobs[i].Result(keys), jobs[i].prefix)
      {
        if i < n {
          assert init[i] == jobs[i];
          DisjointPrefixes(mid, jobs[i].prefix, last.prefix);
        }
      }
    }
  }

  // deleteAllByPrefix

  function NextByte(b: Byte): Byte {
    if b == 255 then 0 else b + 1
  }

  /** The key with its last byte incremented, in byte arithmetic. */
  function PrefixEnd(prefix: Key): Key
    requires prefix != []
  {
    prefix[..|prefix| - 1] + [NextByte(prefix[|prefix| - 1])]
  }

  lemma InPrefixRange(init: Key, last: Byte, k: Key)
    ensures Within(init + [last], k, init + [NextByte(last)]) <==> last != 255 && init + [last] <= k
  {
    if init <= k {
      var u := k[|init|..];
      assert k == init + u;
      LessUnderPrefix(init, u, [last]);
      LessUnderPrefix(init, u, [NextByte(last)]);
      assert [last][1..] == [] && [NextByte(last)][1..] == [];
      assert init + [last] <= k <==> u != [] && u[0] == last;
    } else {
      assert !(init + [last] <= k);
      if Within(init + [last], k, init + [NextByte(last)]) {
        BetweenSharesPrefix(init, [last], [NextByte(last)], k);
      }
    }
  }

  /** The range from a prefix to its end holds exactly the keys with that prefix,
      unless the last byte is 255: then it is empty. */
  lemma PrefixRange(keys: set<Key>, prefix: Key)
    requires prefix != []
    ensures InRange(keys, prefix, PrefixEnd(prefix))
         == if prefix[|prefix| - 1] == 255 then {} else Under(keys, prefix)
  {
    forall k | k in keys
      ensures Within(prefix, k, PrefixEnd(prefix)) <==> prefix[|prefix| - 1] != 255 && prefix <= k
    {
      InPrefixRange(prefix[..|prefix| - 1], prefix[|prefix| - 1], k);
      assert prefix == prefix[..|prefix| - 1] + [prefix[|prefix| - 1]];
    }
  }

  /** The batch deletes the first `count` keys. */
  ghost predicate Deleting<V>(data: map<Key, V>, batch: seq<BatchOp<V>>, keys: seq<Key>, count: nat)
    requires count <= |keys|
  {
    Apply(data, batch) == data - Elements(keys[..count]) && |Elements(keys[..count])| == count
  }

  lemma DeletingStep<V>(data: map<Key, V>, batch: seq<BatchOp<V>>, keys: seq<Key>, count: nat)
    requires StrictlySorted(keys) && count < |keys| && Deleting(data, batch, keys, count)
    ensures Deleting(data, batch + [BatchOp.Delete(keys[count])], keys, count + 1)
  {
    NextKeyIsNew(keys, count);
    ApplyAppend(data, batch, BatchOp.Delete(keys[count]));
    RemovingOneMore(data, Elements(keys[..count]), keys[count]);
  }

  method DeleteBatch<V>(keys: seq<Key>, ghost data: map<Key, V>) returns (batch: seq<BatchOp<V>>, count: nat)
    requires StrictlySorted(keys)
    ensures Apply(data, batch) == data - Elements(keys)
    ensures count == |Elements(keys)|
  {
    batch, count := [], 0;
    while count < |keys|
      invariant 0 <= count <= |keys|
      invariant Deleting(data, batch, keys, count)
    {
      DeletingStep(data, batch, keys, count);
      batch := batch + [BatchOp.Delete(keys[count])];
      count := count + 1;
    }
    assert keys[..count] == keys;
  }

  method DeleteAllByPrefix<V>(db: Database<V>, key: Key) returns (count: nat)
    requires key != []
    modifies db
    ensures db.data == old(db.data) - (if key[|key| - 1] == 255 then {} else Under(old(db.data).Keys, key))
    ensures count == |old(db.data)| - |db.data|
    ensures db.written == old(db.written) + [db.data]
  {
    var keys := db.Iterator(key, PrefixEnd(key));
    PrefixRange(db.data.Keys, key);
    var batch;
    batch, count := DeleteBatch(keys, db.data);
    RemovingKeys(db.data, Elements(keys));
    db.Write(batch);
  }

  // pruneBlockStore

  /** A record of the block database; under "blockStore" a decoded BlockStoreState. */
  datatype BlockRecord = Opaque(bytes: seq<Byte>) | StoreState(base: int, height: int)

  /** Conversion to a signed 64-bit integer, with its wrap-around. */
  function ToInt64(n: int): int {
    (n + 0x8000_0000_0000_0000) % 0x1_0000_0000_0000_0000 - 0x8000_0000_0000_0000
  }

  /** Unmarshalling the stored state: an absent record is the zero state. */
  function DecodeState(stored: Option<BlockRecord>): Option<BlockRecord> {
    match stored
    case None => Some(StoreState(0, 0))
    case Some(StoreState(b, h)) => Some(StoreState(b, h))
    case Some(Opaque(_)) => None
  }

  function Lookup<V>(data: map<Key, V>, k: Key): Option<V> {
    if k in data then Some(data[k]) else None
  }

  function PrunedBlockKeys(keys: set<Key>, pruneHeight: nat): set<Key> {
    var left := AfterJobs(keys, BlockJobs(pruneHeight));
    left - Under(left, BH)
  }

  /** A state on the way: it still has the original blockStore record, no value has
      changed, and only prunable height keys and BH: keys may be missing. */
  ghost predicate SafeOnTheWay(before: map<Key, BlockRecord>, state: map<Key, BlockRecord>, pruneHeight: nat) {
    && (forall k :: k in state ==> k in before && state[k] == before[k])
    && (forall k :: k in before && !Touchable(BlockJobs(pruneHeight), k) && !(BH <= k) ==> k in state)
  }

  ghost predicate AllSafe(before: map<Key, BlockRecord>, states: seq<map<Key, BlockRecord>>, pruneHeight: nat) {
    forall i :: 0 <= i < |states| ==> SafeOnTheWay(before, states[i], pruneHeight)
  }

  lemma AppendOne<T>(a: seq<T>, b: seq<T>, x: T)
    ensures (a + b) + [x] == a + (b + [x])
  {
  }

  lemma SafeStates(before: map<Key, BlockRecord>, states: seq<map<Key, BlockRecord>>,
                   pruned: map<Key, BlockRecord>, last: map<Key, BlockRecord>, pruneHeight: nat)
    requires AllKeepUntouchable(before, states, BlockJobs(pruneHeight))
    requires KeepsUntouchable(before, pruned, BlockJobs(pruneHeight))
    requires last == pruned - Under(pruned.Keys, BH)
    ensures SafeOnTheWay(before, last, pruneHeight)
    ensures AllSafe(before, states + [last], pruneHeight)
  {
    forall i | 0 <= i < |states|
      ensures SafeOnTheWay(before, states[i], pruneHeight)
    {
      assert KeepsUntouchable(before, states[i], BlockJobs(pruneHeight));
    }
  }

  /** The deletions of pruneBlockStore: the five height ranges, then the BH: keys. */
  method PruneBlockKeys(db: Database<BlockRecord>, pruneHeight: nat) returns (ghost states: seq<map<Key, BlockRecord>>)
    modifies db
    ensures db.data.Keys == PrunedBlockKeys(old(db.data).Keys, pruneHeight)
    ensures SafeOnTheWay(old(db.data), db.data, pruneHeight)
    ensures AllSafe(old(db.data), states, pruneHeight)
    ensures db.written == old(db.written) + states
  {
    ghost var before, earlier := db.data, db.written;
    states := PruneKeys(db, BlockJobs(pruneHeight));
    ghost var pruned := db.data;
    var count := DeleteAllByPrefix(db, BH);
    SafeStates(before, states, pruned, db.data, pruneHeight);
    AppendOne(earlier, states, db.data);
    states := states + [db.data];
  }

  /** The outcome of pruneBlockStore: the keys the jobs and the BH: deletion leave, with
      their values, and a blockStore record whose base is the height after pruneHeight. */
  ghost predicate BlockStorePruned(before: map<Key, BlockRecord>, after: map<Key, BlockRecord>, pruneHeight: nat)
    requires DecodeState(Lookup(before, BLOCK_STORE)).Some?
  {
    && after.Keys == PrunedBlockKeys(before.Keys, pruneHeight) + {BLOCK_STORE}
    && (forall k :: k in after && k != BLOCK_STORE ==> k in before && after[k] == before[k])
    && after[BLOCK_STORE] == StoreState(ToInt64(ToInt64(pruneHeight) + 1),
                                        DecodeState(Lookup(before, BLOCK_STORE)).value.height)
  }

  lemma NextInt64(n: nat)
    requires n <= MAX_UINT64
    ensures ToInt64(ToInt64(n) + 1) == if n < 0x7FFF_FFFF_FFFF_FFFF then n + 1 else n - 0xFFFF_FFFF_FFFF_FFFF
  {
  }

  /** The record after pruning: the height after pruneHeight in signed 64-bit arithmetic, and
      the height that was stored, 0 if there was no record. */
  lemma RecordAfterPruning(before: map<Key, BlockRecord>, after: map<Key, BlockRecord>, pruneHeight: nat)
    requires pruneHeight <= MAX_UINT64 && (BLOCK_STORE in before ==> before[BLOCK_STORE].StoreState?)
    requires BlockStorePruned(before, after, pruneHeight)
    ensures after[BLOCK_STORE].StoreState?
    ensures after[BLOCK_STORE].base
         == if pruneHeight < 0x7FFF_FFFF_FFFF_FFFF then pruneHeight + 1 else pruneHeight - 0xFFFF_FFFF_FFFF_FFFF
    ensures after[BLOCK_STORE].height == if BLOCK_STORE in before then before[BLOCK_STORE].height else 0
  {
    NextInt64(pruneHeight);
  }

  method PruneBlockStore(db: Database<BlockRecord>, pruneHeight: nat) returns (ok: bool, ghost states: seq<map<Key,
                         BlockRecord>>)
    requires pruneHeight <= MAX_UINT64
    modifies db
    // A record that does not decode makes the tool panic before it changes anything.
    ensures ok <==> DecodeState(Lookup(old(db.data), BLOCK_STORE)).Some?
    ensures ok <==> (BLOCK_STORE in old(db.data) ==> old(db.data)[BLOCK_STORE].StoreState?)
    ensures !ok ==> db.data == old(db.data) && db.written == old(db.written)
    ensures ok ==>
      && BlockStorePruned(old(db.data), db.data, pruneHeight)
      && db.written == old(db.written) + (states + [db.data])
      && AllSafe(old(db.data), states, pruneHeight)
  {
    states := [];
    var stored := db.Get(BLOCK_STORE);
    var decoded := DecodeState(stored);
    if decoded == None {
      return false, states;
    }
    ok := true;
    ghost var earlier := db.written;
    states := PruneBlockKeys(db, pruneHeight);
    var bsj := StoreState(ToInt64(ToInt64(pruneHeight) + 1), decoded.value.height);
    ApplyAppend(db.data, [], Put(BLOCK_STORE, bsj));
    assert [Put(BLOCK_STORE, bsj)] == [] + [Put(BLOCK_STORE, bsj)];
    db.Write([Put(BLOCK_STORE, bsj)]);
    AppendOne(earlier, states, db.data);
  }

  const FIRST_BYTES: seq<Byte> := [72, 67, 69, 83, 80]

  lemma FirstByte(p: Key, k: Key)
    requires p != [] && p <= k
    ensures k != [] && k[0] == p[0]
  {
  }

  lemma OwnedStartsWith(pruneHeight: nat, i: nat, k: Key)
    requires i < 5 && BlockJobs(pruneHeight)[i].Owns(k)
    ensures k != [] && k[0] == FIRST_BYTES[i] != BH[0]
    ensures forall j :: 0 <= j < 5 && j != i ==> FIRST_BYTES[j] != FIRST_BYTES[i]
    ensures k[0] != BLOCK_STORE[0]
  {
    assert i == 0 || i == 1 || i == 2 || i == 3 || i == 4;
    FirstByte(BlockJobs(pruneHeight)[i].prefix, k);
  }

  /** The first byte already tells the keyspaces of the block database apart. */
  lemma BlockKeyspaces(pruneHeight: nat)
    ensures var jobs := BlockJobs(pruneHeight);
            && Independent(jobs)
            && (forall i, k :: 0 <= i < |jobs| && jobs[i].Owns(k) ==> !(BH <= k) && k != BLOCK_STORE)
    ensures !(BH <= BLOCK_STORE)
  {
    var jobs := BlockJobs(pruneHeight);
    forall i, k | 0 <= i < |jobs| && jobs[i].Owns(k)
      ensures !(BH <= k) && k != BLOCK_STORE
    {
      OwnedStartsWith(pruneHeight, i, k);
      if BH <= k { FirstByte(BH, k); }
    }
    assert BH[0] != BLOCK_STORE[0];
    forall i, j | 0 <= i < |jobs| && 0 <= j < |jobs| && i != j
      ensures !(jobs[i].prefix <= jobs[j].prefix)
    {
      OwnedStartsWith(pruneHeight, j, jobs[j].prefix);
      if jobs[i].Owns(jobs[j].prefix) { OwnedStartsWith(pruneHeight, i, jobs[j].prefix); }
    }
  }

  method PruneStateStore<V>(db: Database<V>, pruneHeight: nat) returns (ghost states: seq<map<Key, V>>)
    requires pruneHeight <= MAX_UINT64
    modifies db
    ensures db.data.Keys == AfterJobs(old(db.data).Keys, StateJobs(pruneHeight))
    ensures KeepsUntouchable(old(db.data), db.data, StateJobs(pruneHeight))
    ensures AllKeepUntouchable(old(db.data), states, StateJobs(pruneHeight))
    ensures db.written == old(db.written) + states
  {
    states := PruneKeys(db, StateJobs(pruneHeight));
  }

  method PruneAppStore<V>(db: Database<V>, pruneHeight: nat) returns (ghost states: seq<map<Key, V>>)
    requires pruneHeight <= MAX_UINT64
    modifies db
    ensures db.data.Keys == AfterJobs(old(db.data).Keys, AppJobs(pruneHeight))
    ensures KeepsUntouchable(old(db.data), db.data, AppJobs(pruneHeight))
    ensures AllKeepUntouchable(old(db.data), states, AppJobs(pruneHeight))
    ensures db.written == old(db.written) + states
  {
    states := PruneKeys(db, AppJobs(pruneHeight));
  }
}

// cmd/generic_chain.go: pruning the keys <prefix><decimal height>[:<part>] of a
// database that is ordered by bytes, not by height.

module HeightRanges {
  import opened Wrappers
  import opened Bytes
  import opened Decimal
  import opened Floats
  import opened Databases

  type HeightParser = Key -> Option<nat>

  function AsciiHeight(numberPart: Key): Option<nat> {
    ParseUint(numberPart)
  }

  function AsciiHeightTwoParts(numberPart: Key): Option<nat> {
    ParseUint(BeforeColon(numberPart))
  }

  /** math.Pow10(digits)-1, before the difference is rounded. */
  function PowerMinusOne(digits: nat): nat {
    Float64(Pow10(digits)) - 1
  }

  function Min(a: nat, b: nat): nat { if a < b then a else b }

  function Max(a: nat, b: nat): nat { if a < b then b else a }

  /** The bounds of one scan, the upper one excluded. */
  datatype Scan = Scan(start: nat, end: nat)

  /** The bounds of the scan for the heights with that many digits, which the source
      computes in floating point. */
  function ScanFor(startHeight: nat, endHeight: nat, digits: nat): Scan
    requires digits >= 1
  {
    Scan(ToUint64(Max(Float64(startHeight), Float64(Pow10(digits - 1)))),
         ToUint64(Min(Float64(endHeight), Float64(PowerMinusOne(digits)))))
  }

  /** One call: what to prune, how to read a height off a key, and the scans by digit length. */
  datatype Job = Job(prefix: Key, parse: HeightParser, endHeight: nat, scans: seq<Scan>) {

    function MaxDigits(): nat {
      |scans|
    }

    /** Digit lengths whose scan is not skipped. */
    predicate Active(digits: nat) {
      1 <= digits <= |scans| && scans[digits - 1].start <= scans[digits - 1].end
    }

    function StartKey(digits: nat): Key
      requires 1 <= digits <= |scans|
    {
      prefix + PaddedDec(digits, scans[digits - 1].start)
    }

    function EndKey(digits: nat): Key
      requires 1 <= digits <= |scans|
    {
      prefix + PaddedDec(digits, scans[digits - 1].end)
    }

    predicate Owns(k: Key) {
      prefix <= k
    }

    /** Keys whose number part denotes a height up to endHeight. */
    predicate Prunable(k: Key) {
      prefix <= k && parse(k[|prefix|..]).Some? && parse(k[|prefix|..]).value <= endHeight
    }

    /** The keys the scan for one digit length deletes. */
    predicate Hit(digits: nat, k: Key) {
      Active(digits) && Within(StartKey(digits), k, EndKey(digits)) && Prunable(k)
    }

    function Pass(keys: set<Key>, digits: nat): set<Key> {
      set k | k in keys && Hit(digits, k)
    }

    /** The keys left by the loop from `digits` downwards, which stops after a
        scan that deleted nothing. */
    function Survivors(keys: set<Key>, digits: nat): set<Key> {
      if digits == 0 then keys
      else if !Active(digits) then Survivors(keys, digits - 1)
      else if Pass(keys, digits) == {} then keys
      else Survivors(keys - Pass(keys, digits), digits - 1)
    }

    /** The keys left by the same loop without the early exit. */
    function SurvivorsOfAllPasses(keys: set<Key>, digits: nat): set<Key> {
      if digits == 0 then keys
      else SurvivorsOfAllPasses(keys - Pass(keys, digits), digits - 1)
    }

    /** The keys left by one call. */
    function Result(keys: set<Key>): set<Key> {
      Survivors(keys, MaxDigits())
    }

    predicate HitBelow(digits: nat, k: Key) {
      exists d :: 1 <= d <= digits && Hit(d, k)
    }
  }

  function JobFor(prefix: Key, parse: HeightParser, startHeight: nat, endHeight: nat): Job {
    Job(prefix, parse, endHeight,
        seq(Digits(endHeight), i requires 0 <= i < Digits(endHeight) => ScanFor(startHeight, endHeight, i + 1)))
  }

  // What one call can and cannot delete, whatever its scans and whatever the database holds

  /** A call deletes only keys under its prefix that parse to a height up to endHeight. */
  lemma {:induction false} OnlyPrunableDeleted(job: Job, keys: set<Key>, digits: nat)
    ensures job.Survivors(keys, digits) <= keys
    ensures forall k :: k in keys && !job.Prunable(k) ==> k in job.Survivors(keys, digits)
  {
    if digits == 0 {
    } else if !job.Active(digits) {
      OnlyPrunableDeleted(job, keys, digits - 1);
    } else if job.Pass(keys, digits) != {} {
      OnlyPrunableDeleted(job, keys - job.Pass(keys, digits), digits - 1);
    }
  }

  /** Every key a scan yields starts with the prefix, so slicing it off is safe. */
  lemma ScannedKeyHasPrefix(job: Job, digits: nat, k: Key)
    requires 1 <= digits <= job.MaxDigits()
    requires Within(job.StartKey(digits), k, job.EndKey(digits))
    ensures job.prefix <= k
  {
    var scan := job.scans[digits - 1];
    BetweenSharesPrefix(job.prefix, PaddedDec(digits, scan.start), PaddedDec(digits, scan.end), k);
  }

  lemma {:induction false} AllPassesDeleteHits(job: Job, keys: set<Key>, digits: nat)
    ensures job.SurvivorsOfAllPasses(keys, digits) == set k | k in keys && !job.HitBelow(digits, k)
  {
    if digits > 0 {
      var rest := keys - job.Pass(keys, digits);
      AllPassesDeleteHits(job, rest, digits - 1);
      forall k | k in keys
        ensures job.HitBelow(digits, k) <==> job.Hit(digits, k) || job.HitBelow(digits - 1, k)
      {
        if job.HitBelow(digits, k) {
          var d :| 1 <= d <= digits && job.Hit(d, k);
          assert d == digits || job.HitBelow(digits - 1, k);
        }
      }
    }
  }

  /** The early exit never deletes more than the full loop. */
  lemma {:induction false} EarlyExitDeletesLess(job: Job, keys: set<Key>, digits: nat)
    ensures job.SurvivorsOfAllPasses(keys, digits) <= job.Survivors(keys, digits)
  {
    AllPassesDeleteHits(job, keys, digits);
    if digits > 0 {
      var rest := keys - job.Pass(keys, digits);
      EarlyExitDeletesLess(job, rest, digits - 1);
      if !job.Active(digits) {
        assert rest == keys;
      }
    }
  }

  /** A second identical call deletes nothing, even when the first one left its loop early. */
  lemma {:induction false} SecondCallIsIdle(job: Job, keys: set<Key>, digits: nat)
    ensures job.Survivors(job.Survivors(keys, digits), digits) == job.Survivors(keys, digits)
  {
    if digits == 0 {
    } else if !job.Active(digits) {
      SecondCallIsIdle(job, keys, digits - 1);
    } else if job.Pass(keys, digits) != {} {
      var rest := keys - job.Pass(keys, digits);
      var left := job.Survivors(rest, digits - 1);
      OnlyPrunableDeleted(job, rest, digits - 1);
      assert job.Pass(left, digits) == {};
    }
  }

  lemma {:induction false} NothingToHit(job: Job, keys: set<Key>, digits: nat)
    requires forall k, d :: k in keys && 1 <= d <= digits ==> !job.Hit(d, k)
    ensures job.Survivors(keys, digits) == keys
  {
    if digits > 0 {
      assert job.Pass(keys, digits) == {};
      NothingToHit(job, keys, digits - 1);
    }
  }

  /** One of the two scans for the longest digit lengths deletes k. */
  ghost predicate OnTop(job: Job, k: Key) {
    && job.MaxDigits() >= 1
    && (job.Hit(job.MaxDigits(), k) || (job.MaxDigits() >= 2 && job.Hit(job.MaxDigits() - 1, k)))
  }

  /** Of the given keys the scans delete these and no others, and the two scans for the
      longest digit lengths already delete them all. */
  ghost predicate TopTwoScansHit(job: Job, keys: set<Key>, doomed: set<Key>)
    requires job.MaxDigits() >= 1
  {
    && doomed <= keys
    && (forall k, d :: k in keys && 1 <= d <= job.MaxDigits() && job.Hit(d, k) ==> k in doomed)
    && (forall k :: k in doomed ==> OnTop(job, k))
  }

  /** Then the early exit costs nothing exactly when there is nothing to delete or the
      first scan finds something. */
  lemma TopTwoScansSuffice(job: Job, keys: set<Key>, doomed: set<Key>)
    requires job.Active(job.MaxDigits()) && TopTwoScansHit(job, keys, doomed)
    ensures job.Result(keys) == keys - doomed <==> doomed == {} || job.Pass(keys, job.MaxDigits()) != {}
  {
    var m := job.MaxDigits();
    if job.Pass(keys, m) == {} {
      assert job.Result(keys) == keys;
    } else {
      var rest := keys - job.Pass(keys, m);
      assert job.Result(keys) == job.Survivors(rest, m - 1);
      forall k | k in doomed
        ensures k in job.Pass(keys, m) || k in job.Pass(rest, m - 1)
      {
      }
      if m == 1 || job.Pass(rest, m - 1) == {} {
        assert rest == keys - doomed;
        NothingToHit(job, rest, m - 1);
      } else {
        var left := rest - job.Pass(rest, m - 1);
        assert left == keys - doomed;
        NothingToHit(job, left, m - 2);
      }
    }
  }

  /** What a call does under its prefix does not depend on the keys elsewhere. */
  lemma {:induction false} OtherKeysDoNotMatter(job: Job, keys: set<Key>, others: set<Key>, digits: nat)
    requires forall k :: k in others ==> !(job.prefix <= k)
    ensures job.Survivors(keys + others, digits) == job.Survivors(keys, digits) + others
  {
    if digits > 0 {
      assert job.Pass(keys + others, digits) == job.Pass(keys, digits);
      var gone := job.Pass(keys, digits);
      assert gone !! others;
      assert (keys + others) - gone == (keys - gone) + others;
      if !job.Active(digits) {
        OtherKeysDoNotMatter(job, keys, others, digits - 1);
      } else if gone != {} {
        OtherKeysDoNotMatter(job, keys - gone, others, digits - 1);
      }
    }
  }

  // The loops themselves

  /** A state that lost no key except ones the job may prune, and changed no value. */
  ghost predicate KeepsAllBut<V>(before: map<Key, V>, after: map<Key, V>, job: Job) {
    && (forall k :: k in after ==> k in before && after[k] == before[k])
    && (forall k :: k in before && !job.Prunable(k) ==> k in after)
  }

  ghost predicate AllKeep<V>(before: map<Key, V>, states: seq<map<Key, V>>, job: Job) {
    forall i :: 0 <= i < |states| ==> KeepsAllBut(before, states[i], job)
  }

  function PrunableOf(keys: seq<Key>, job: Job): set<Key> {
    set k | k in keys && job.Prunable(k)
  }

  lemma NextKeyIsNew(keys: seq<Key>, i: nat)
    requires StrictlySorted(keys) && i < |keys|
    ensures keys[i] !in Elements(keys[..i])
    ensures Elements(keys[..i + 1]) == Elements(keys[..i]) + {keys[i]}
  {
    LessIrreflexive(keys[i]);
    forall x
      ensures x in keys[..i + 1] <==> x in keys[..i] || x == keys[i]
    {
      assert keys[..i + 1] == keys[..i] + [keys[i]];
    }
  }

  lemma PrunableStep(keys: seq<Key>, i: nat, job: Job)
    requires StrictlySorted(keys) && i < |keys|
    ensures keys[i] !in PrunableOf(keys[..i], job)
    ensures PrunableOf(keys[..i + 1], job)
         == PrunableOf(keys[..i], job) + if job.Prunable(keys[i]) then {keys[i]} else {}
  {
    NextKeyIsNew(keys, i);
    assert keys[..i + 1] == keys[..i] + [keys[i]];
  }

  lemma RemovingOneMore<V>(data: map<Key, V>, gone: set<Key>, k: Key)
    ensures (data - gone) - {k} == data - (gone + {k})
  {
  }

  lemma CollectStep<V>(keys: seq<Key>, i: nat, job: Job, data: map<Key, V>, batch: seq<BatchOp<V>>)
    requires StrictlySorted(keys) && i < |keys|
    requires Apply(data, batch) == data - PrunableOf(keys[..i], job)
    ensures job.Prunable(keys[i]) ==>
              && Apply(data, batch + [BatchOp.Delete(keys[i])]) == data - PrunableOf(keys[..i + 1], job)
              && |PrunableOf(keys[..i + 1], job)| == |PrunableOf(keys[..i], job)| + 1
    ensures !job.Prunable(keys[i]) ==> PrunableOf(keys[..i + 1], job) == PrunableOf(keys[..i], job)
  {
    var done, k := PrunableOf(keys[..i], job), keys[i];
    PrunableStep(keys, i, job);
    if job.Prunable(k) {
      ApplyAppend(data, batch, BatchOp.Delete(k));
      RemovingOneMore(data, done, k);
    }
  }

  /** The inner loop: a batch that deletes every prunable key of one scan, and their number. */
  method CollectBatch<V>(keys: seq<Key>, job: Job, ghost data: map<Key, V>)
    returns (batch: seq<BatchOp<V>>, count: nat)
    requires StrictlySorted(keys)
    requires forall k :: k in keys ==> job.prefix <= k
    ensures Apply(data, batch) == data - PrunableOf(keys, job)
    ensures count == |PrunableOf(keys, job)|
  {
    batch, count := [], 0;
    var i := 0;
    while i < |keys|
      invariant 0 <= i <= |keys|
      invariant Apply(data, batch) == data - PrunableOf(keys[..i], job)
      invariant count == |PrunableOf(keys[..i], job)|
    {
      var k := keys[i];
      assert k in keys;
      CollectStep(keys, i, job, data, batch);
      var number := job.parse(k[|job.prefix|..]);
      if number.Some? && number.value <= job.endHeight {
        count := count + 1;
        batch := batch + [BatchOp.Delete(k)];
      }
      i := i + 1;
    }
    assert keys[..i] == keys;
  }

  /** What the loop knows after a turn that started from `before` and ended with `after`. */
  ghost predicate Turn<V>(before: map<Key, V>, after: map<Key, V>, job: Job, digits: nat) {
    && after == before - job.Pass(before.Keys, digits)
    && after.Keys == before.Keys - job.Pass(before.Keys, digits)
  }

  /** The invariant of the outer loop: `states` were written since `before`, the
      last one left `now`, and the digit lengths up to `digits` are still to come. */
  ghost predicate Progress<V>(before: map<Key, V>, states: seq<map<Key, V>>, now: map<Key, V>, job: Job, digits: nat) {
    && job.Survivors(now.Keys, digits) == job.Result(before.Keys)
    && KeepsAllBut(before, now, job)
    && AllKeep(before, states, job)
  }

  lemma RemovingKeys<V>(data: map<Key, V>, gone: set<Key>)
    requires gone <= data.Keys
    ensures |data - gone| == |data| - |gone|
    ensures (data - gone).Keys == data.Keys - gone
  {
    assert (data - gone).Keys == data.Keys - gone;
    assert |data| == |data.Keys| && |data - gone| == |(data - gone).Keys|;
  }

  lemma TurnAdvances<V>(before: map<Key, V>, states: seq<map<Key, V>>, now: map<Key, V>, next: map<Key, V>,
                        job: Job, digits: nat)
    requires job.Active(digits)
    requires Progress(before, states, now, job, digits)
    requires Turn(now, next, job, digits)
    ensures Progress(before, states + [next], next, job, if |now| == |next| then 0 else digits - 1)
  {
    var gone := job.Pass(now.Keys, digits);
    RemovingKeys(now, gone);
    if gone == {} {
      assert next == now;
    }
    assert KeepsAllBut(before, next, job);
  }

  lemma SkipAdvances<V>(before: map<Key, V>, states: seq<map<Key, V>>, now: map<Key, V>, job: Job, digits: nat)
    requires digits >= 1 && !job.Active(digits)
    requires Progress(before, states, now, job, digits)
    ensures Progress(before, states, now, job, digits - 1)
  {
  }

  lemma ScanIsPass(job: Job, all: set<Key>, keys: seq<Key>, digits: nat)
    requires job.Active(digits)
    requires Elements(keys) == InRange(all, job.StartKey(digits), job.EndKey(digits))
    ensures forall k :: k in keys ==> job.prefix <= k
    ensures PrunableOf(keys, job) == job.Pass(all, digits)
  {
    forall k | k in keys
      ensures job.prefix <= k
    {
      assert k in Elements(keys);
      ScannedKeyHasPrefix(job, digits, k);
    }
    assert forall k :: k in keys <==> k in Elements(keys);
  }

  /** One turn of the outer loop: scan, collect, write. */
  method PrunePass<V>(db: Database<V>, job: Job, digits: nat,
                      ghost before: map<Key, V>, ghost earlier: seq<map<Key, V>>, ghost states: seq<map<Key, V>>)
    returns (count: nat)
    requires job.Active(digits)
    requires db.written == earlier + states
    requires Progress(before, states, db.data, job, digits)
    modifies db
    ensures Progress(before, states + [db.data], db.data, job, if count == 0 then 0 else digits - 1)
    ensures count == |old(db.data)| - |db.data|
    ensures db.written == earlier + (states + [db.data])
  {
    var scan := job.scans[digits - 1];
    var startKey := job.prefix + PaddedDec(digits, scan.start);
    var endKey := job.prefix + PaddedDec(digits, scan.end);
    var keys := db.Iterator(startKey, endKey);
    ScanIsPass(job, db.data.Keys, keys, digits);
    var batch;
    batch, count := CollectBatch(keys, job, db.data);
    RemovingKeys(db.data, PrunableOf(keys, job));
    db.Write(batch);
    TurnAdvances(before, states, old(db.data), db.data, job, digits);
  }

  /** The loop starts with everything still to come. */
  lemma NothingDoneYet<V>(before: map<Key, V>, job: Job)
    ensures Progress(before, [], before, job, |job.scans|)
  {
  }

  lemma Finished<V>(before: map<Key, V>, states: seq<map<Key, V>>, now: map<Key, V>, job: Job)
    requires Progress(before, states, now, job, 0)
    ensures now.Keys == job.Result(before.Keys)
  {
  }

  lemma ScanIsActive(key: Key, parse: HeightParser, startHeight: nat, endHeight: nat, digits: nat)
    requires 1 <= digits <= Digits(endHeight)
    ensures var scan := ScanFor(startHeight, endHeight, digits);
            JobFor(key, parse, startHeight, endHeight).Active(digits) <==> scan.start <= scan.end
  {
  }

  /** cmd/generic_chain.go deleteHeightRange: the database keeps exactly the
      survivors of the specification, with their values; `states` are the
      contents after each batch. */
  method DeleteHeightRange<V>(db: Database<V>, key: Key, startHeight: nat, endHeight: nat, heightParser: HeightParser)
    returns (pruned: nat, ghost states: seq<map<Key, V>>)
    modifies db
    ensures Progress(old(db.data), states, db.data, JobFor(key, heightParser, startHeight, endHeight), 0)
    ensures db.data.Keys == JobFor(key, heightParser, startHeight, endHeight).Result(old(db.data).Keys)
    ensures pruned == |old(db.data)| - |db.data|
    ensures db.written == old(db.written) + states
  {
    var job := JobFor(key, heightParser, startHeight, endHeight);
    ghost var before := db.data;
    pruned, states := 0, [];
    var prunedLastBatch := 0;
    var digits: nat := |Dec(endHeight)|;
    NothingDoneYet(before, job);
    while digits >= 1
      invariant prunedLastBatch == 0 && digits <= Digits(endHeight)
      invariant Progress(before, states, db.data, job, digits)
      invariant pruned == |before| - |db.data|
      invariant db.written == old(db.written) + states
      decreases digits
    {
      var scan := ScanFor(startHeight, endHeight, digits);
      ScanIsActive(key, heightParser, startHeight, endHeight, digits);
      if scan.start > scan.end {
        SkipAdvances(before, states, db.data, job, digits);
        digits := digits - 1;
        continue;
      }
      var count := PrunePass(db, job, digits, before, old(db.written), states);
      states := states + [db.data];
      pruned, prunedLastBatch := pruned + count, prunedLastBatch + count;
      if prunedLastBatch == 0 {
        break;
      }
      prunedLastBatch := 0;
      digits := digits - 1;
    }
    Finished(before, states, db.data, job);
  }
}

// deleteHeightRange with the two-part parser, on the keys P:<height>:<part>.

module BlockPartTheorems {
  import opened Bytes
  import opened Decimal
  import opened Floats
  import opened HeightRanges
  import opened HeightRangesExact
  import opened HeightRangeTheorems

  /** A part key of some height up to e that is not spared. */
  ghost predicate IsDoomedPart(prefix: Key, e: nat, k: Key)
    requires e >= 1
  {
    exists n: nat, part: Key :: 1 <= n <= e && !SparedParts(e, n) && k == PartKey(prefix, n, part)
  }

  ghost function DoomedParts(prefix: Key, e: nat, keys: set<Key>): set<Key>
    requires e >= 1
  {
    set k | k in keys && IsDoomedPart(prefix, e, k)
  }

  lemma PartKeyInjective(prefix: Key, m: nat, v: Key, n: nat, w: Key)
    requires PartKey(prefix, m, v) == PartKey(prefix, n, w)
    ensures m == n && v == w
  {
    var s, t := Dec(m) + ([COLON] + v), Dec(n) + ([COLON] + w);
    assert s == t by {
      assert PartKey(prefix, m, v)[|prefix|..] == s && PartKey(prefix, n, w)[|prefix|..] == t;
    }
    BeforeColonOf(Dec(m), v);
    BeforeColonOf(Dec(n), w);
    DecInjective(m, n);
    assert s[|Dec(m)| + 1..] == v && t[|Dec(n)| + 1..] == w;
  }

  /** One of the scans for the two longest digit lengths, the longer one being `de`, deletes k. */
  ghost predicate HitNearTop(prefix: Key, e: nat, de: nat, k: Key)
    requires e >= 1
  {
    PartsJob(prefix, e).Hit(de, k) || (de >= 2 && PartsJob(prefix, e).Hit(de - 1, k))
  }

  lemma ReachedPartIsHit(prefix: Key, e: nat, n: nat, part: Key, de: nat)
    requires 1 <= n <= e <= MAX_EXACT && de == Digits(e)
    requires ReachesParts(e, de, n) || (de >= 2 && ReachesParts(e, de - 1, n))
    ensures HitNearTop(prefix, e, de, PartKey(prefix, n, part))
  {
    HitsPart(prefix, e, de, n, part);
    if de >= 2 { HitsPart(prefix, e, de - 1, n, part); }
  }

  lemma UnsparedPartIsHit(prefix: Key, e: nat, n: nat, part: Key, de: nat)
    requires 1 <= n <= e <= MAX_EXACT && !SparedParts(e, n) && de == Digits(e)
    ensures HitNearTop(prefix, e, de, PartKey(prefix, n, part))
  {
    UnsparedPartIsReached(e, n, de);
    ReachedPartIsHit(prefix, e, n, part, de);
  }

  lemma DoomedPartIsHit(prefix: Key, e: nat, k: Key)
    requires 1 <= e <= MAX_EXACT && IsDoomedPart(prefix, e, k)
    ensures HitNearTop(prefix, e, Digits(e), k)
  {
    var n: nat, part: Key :| 1 <= n <= e && !SparedParts(e, n) && k == PartKey(prefix, n, part);
    UnsparedPartIsHit(prefix, e, n, part, Digits(e));
  }

  lemma HeightHitIsDoomed(prefix: Key, e: nat, d: nat, n: nat)
    requires 1 <= n <= e <= MAX_EXACT && 1 <= d <= Digits(e) && PartsJob(prefix, e).Hit(d, HeightKey(prefix, n))
    ensures HeightKey(prefix, n) in HeightKeys(prefix, Doomed(e))
  {
    HitsHeight(prefix, e, d, n);
    SparedIsUnreached(e, d, Spared(e));
    assert n in Doomed(e);
  }

  lemma HitIsDoomed(prefix: Key, e: nat, d: nat, k: Key)
    requires 1 <= e <= MAX_EXACT && 1 <= d <= Digits(e) && PartsJob(prefix, e).Hit(d, k)
    ensures k in HeightKeys(prefix, Doomed(e)) || IsDoomedPart(prefix, e, k)
  {
    var n, part := HitIsHeightOrPart(prefix, e, d, k);
    if k == HeightKey(prefix, n) {
      HeightHitIsDoomed(prefix, e, d, n);
    } else {
      HitsPart(prefix, e, d, n, part);
      if SparedParts(e, n) { SparedPartIsUnreached(e, d, n); }
    }
  }

  /** Without the early exit the two-part parser deletes, whatever the database
      holds, the part keys of every height up to e except 9, 99, 999, ... and, when
      all its digits but the last are nines, e itself. */
  lemma FullLoopOnParts(prefix: Key, e: nat, keys: set<Key>)
    requires 1 <= e <= MAX_EXACT
    ensures PartsJob(prefix, e).SurvivorsOfAllPasses(keys, Digits(e))
         == keys - HeightKeys(prefix, Doomed(e)) - DoomedParts(prefix, e, keys)
  {
    var job := PartsJob(prefix, e);
    AllPassesDeleteHits(job, keys, Digits(e));
    forall k | k in keys
      ensures job.HitBelow(Digits(e), k)
         <==> k in HeightKeys(prefix, Doomed(e)) || IsDoomedPart(prefix, e, k)
    {
      if job.HitBelow(Digits(e), k) {
        var d :| 1 <= d <= Digits(e) && job.Hit(d, k);
        HitIsDoomed(prefix, e, d, k);
      }
      if IsDoomedPart(prefix, e, k) {
        DoomedPartIsHit(prefix, e, k);
      }
      if k in HeightKeys(prefix, Doomed(e)) {
        var n :| n in Doomed(e) && k == HeightKey(prefix, n);
        UnsparedIsReached(e, n);
        HitsHeight(prefix, e, ReachingScan(e, n), n);
      }
    }
  }

  ghost predicate NoPlainHeights(prefix: Key, e: nat, keys: set<Key>) {
    forall n: nat :: 1 <= n <= e ==> HeightKey(prefix, n) !in keys
  }

  lemma HitIsDoomedPart(prefix: Key, e: nat, keys: set<Key>, d: nat, k: Key)
    requires 1 <= e <= MAX_EXACT && 1 <= d <= Digits(e) && NoPlainHeights(prefix, e, keys) && k in keys
    requires PartsJob(prefix, e).Hit(d, k)
    ensures k in DoomedParts(prefix, e, keys)
  {
    HitIsDoomed(prefix, e, d, k);
  }

  lemma NearTopIsOnTop(job: Job, prefix: Key, e: nat, de: nat, k: Key)
    requires 1 <= e && de == Digits(e) && job == PartsJob(prefix, e) && HitNearTop(prefix, e, de, k)
    ensures OnTop(job, k)
  {
  }

  lemma DoomedPartIsOnTop(job: Job, prefix: Key, e: nat, k: Key)
    requires 1 <= e <= MAX_EXACT && IsDoomedPart(prefix, e, k) && job == PartsJob(prefix, e)
    ensures OnTop(job, k)
  {
    DoomedPartIsHit(prefix, e, k);
    NearTopIsOnTop(job, prefix, e, Digits(e), k);
  }

  /** Each key that some scan deletes is a doomed part, and the first two scans delete them all. */
  lemma DoomedPartsAreHit(job: Job, prefix: Key, e: nat, keys: set<Key>)
    requires 1 <= e <= MAX_EXACT && NoPlainHeights(prefix, e, keys) && job == PartsJob(prefix, e)
    ensures job.MaxDigits() == Digits(e)
    ensures TopTwoScansHit(job, keys, DoomedParts(prefix, e, keys))
  {
    forall k, d | k in keys && 1 <= d <= job.MaxDigits() && job.Hit(d, k)
      ensures k in DoomedParts(prefix, e, keys)
    {
      HitIsDoomedPart(prefix, e, keys, d, k);
    }
    forall k | k in DoomedParts(prefix, e, keys)
      ensures OnTop(job, k)
    {
      DoomedPartIsOnTop(job, prefix, e, k);
    }
  }

  /** On part keys the first two scans do everything, so the early exit matters only
      when the first scan finds nothing. */
  lemma EarlyExitOnPartsIff(prefix: Key, e: nat, keys: set<Key>)
    requires 1 <= e <= MAX_EXACT && NoPlainHeights(prefix, e, keys)
    ensures PartsJob(prefix, e).Result(keys) == keys - DoomedParts(prefix, e, keys)
       <==> DoomedParts(prefix, e, keys) == {} || PartsJob(prefix, e).Pass(keys, Digits(e)) != {}
  {
    var job := PartsJob(prefix, e);
    ScanKeys(prefix, AsciiHeightTwoParts, e, Digits(e));
    DoomedPartsAreHit(job, prefix, e, keys);
    TopTwoScansSuffice(job, keys, DoomedParts(prefix, e, keys));
  }

  ghost predicate HasPart(keys: set<Key>, prefix: Key, n: nat) {
    exists part: Key :: PartKey(prefix, n, part) in keys
  }

  /** Every height from b to t, and no other, has at least one part. */
  ghost predicate ConsecutiveParts(keys: set<Key>, prefix: Key, b: nat, t: nat) {
    forall n: nat :: HasPart(keys, prefix, n) <==> b <= n <= t
  }

  lemma FirstScanFindsPart(prefix: Key, e: nat, keys: set<Key>, b: nat, t: nat)
    requires 1 <= b < e <= t && e <= MAX_EXACT && e != Pow10(Digits(e) - 1)
    requires ConsecutiveParts(keys, prefix, b, t)
    ensures PartsJob(prefix, e).Pass(keys, Digits(e)) != {}
  {
    JustBelowIsReached(e);
    assert HasPart(keys, prefix, e - 1);
    var part: Key :| PartKey(prefix, e - 1, part) in keys;
    HitsPart(prefix, e, Digits(e), e - 1, part);
    assert PartKey(prefix, e - 1, part) in PartsJob(prefix, e).Pass(keys, Digits(e));
  }

  lemma DoomedPartIff(prefix: Key, e: nat, n: nat, w: Key)
    requires e >= 1
    ensures IsDoomedPart(prefix, e, PartKey(prefix, n, w)) <==> 1 <= n <= e && !SparedParts(e, n)
  {
    if IsDoomedPart(prefix, e, PartKey(prefix, n, w)) {
      var m: nat, v: Key :| 1 <= m <= e && !SparedParts(e, m) && PartKey(prefix, n, w) == PartKey(prefix, m, v);
      PartKeyInjective(prefix, n, w, m, v);
    }
  }

  /** On consecutive heights b..t around endHeight, which is no power of ten, every
      part of every height up to endHeight goes, except the spared heights' parts. */
  lemma ConsecutivePartsDeleted(prefix: Key, e: nat, keys: set<Key>, b: nat, t: nat)
    requires 1 <= b < e <= t && e <= MAX_EXACT && e != Pow10(Digits(e) - 1)
    requires NoPlainHeights(prefix, e, keys) && ConsecutiveParts(keys, prefix, b, t)
    ensures PartsJob(prefix, e).Result(keys) == keys - DoomedParts(prefix, e, keys)
    ensures forall n: nat, part: Key ::
              (PartKey(prefix, n, part) in PartsJob(prefix, e).Result(keys)
               <==> PartKey(prefix, n, part) in keys && (n > e || SparedParts(e, n)))
  {
    FirstScanFindsPart(prefix, e, keys, b, t);
    EarlyExitOnPartsIff(prefix, e, keys);
    forall n: nat, w: Key | PartKey(prefix, n, w) in keys
      ensures IsDoomedPart(prefix, e, PartKey(prefix, n, w)) <==> n <= e && !SparedParts(e, n)
    {
      assert HasPart(keys, prefix, n);
      DoomedPartIff(prefix, e, n, w);
    }
  }

  /** No part of a height from 0 to endHeight is left. */
  ghost predicate ClosedRangeOfPartsGone(keys: set<Key>, prefix: Key, e: nat) {
    forall n: nat, part: Key :: n <= e ==> PartKey(prefix, n, part) !in keys
  }

  /** The parts that no scan can reach: those of height 0 and of the spared heights. */
  ghost predicate NoUnreachableParts(keys: set<Key>, prefix: Key, e: nat)
    requires e >= 1
  {
    forall n: nat, part: Key :: n == 0 || (n <= e && SparedParts(e, n)) ==> PartKey(prefix, n, part) !in keys
  }

  lemma OnlyDoomedPartsGo(prefix: Key, e: nat, keys: set<Key>)
    requires 1 <= e <= MAX_EXACT && NoPlainHeights(prefix, e, keys)
    ensures keys - DoomedParts(prefix, e, keys) <= PartsJob(prefix, e).Result(keys) <= keys
  {
    var job := PartsJob(prefix, e);
    EarlyExitDeletesLess(job, keys, Digits(e));
    FullLoopOnParts(prefix, e, keys);
    OnlyPrunableDeleted(job, keys, Digits(e));
    assert keys !! HeightKeys(prefix, Doomed(e));
  }

  lemma PartsLeft(prefix: Key, e: nat, keys: set<Key>, left: set<Key>)
    requires e >= 1 && keys - DoomedParts(prefix, e, keys) <= left <= keys
    ensures ClosedRangeOfPartsGone(left, prefix, e)
       <==> NoUnreachableParts(keys, prefix, e) && left == keys - DoomedParts(prefix, e, keys)
  {
    forall n: nat, part: Key
      ensures IsDoomedPart(prefix, e, PartKey(prefix, n, part)) <==> 1 <= n <= e && !SparedParts(e, n)
    {
      DoomedPartIff(prefix, e, n, part);
    }
    if ClosedRangeOfPartsGone(left, prefix, e) {
      forall k | k in DoomedParts(prefix, e, keys)
        ensures k !in left
      {
        var n: nat, part: Key :| 1 <= n <= e && !SparedParts(e, n) && k == PartKey(prefix, n, part);
      }
    }
  }

  /** The closed range of the comment is gone exactly when no unreachable part was there
      and there was nothing to delete or the first scan found something. */
  lemma PartsPromiseMetIff(prefix: Key, e: nat, keys: set<Key>)
    requires 1 <= e <= MAX_EXACT && NoPlainHeights(prefix, e, keys)
    ensures ClosedRangeOfPartsGone(PartsJob(prefix, e).Result(keys), prefix, e)
       <==> && NoUnreachableParts(keys, prefix, e)
            && (DoomedParts(prefix, e, keys) == {} || PartsJob(prefix, e).Pass(keys, Digits(e)) != {})
  {
    var left, doomed := PartsJob(prefix, e).Result(keys), DoomedParts(prefix, e, keys);
    EarlyExitOnPartsIff(prefix, e, keys);
    OnlyDoomedPartsGo(prefix, e, keys);
    PartsLeft(prefix, e, keys, left);
  }
}

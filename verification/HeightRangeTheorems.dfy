// What deleteHeightRange leaves behind, for every database content: first for the
// loop without its early exit, then exactly when the early exit makes a difference,
// then for the contents a node has (consecutive heights), and finally measured
// against the closed range the function's own comment promises.

module HeightRangeTheorems {
  import opened Bytes
  import opened Decimal
  import opened Floats
  import opened HeightRanges
  import opened HeightRangesExact

  // Plain heights

  predicate IsDoomed(e: nat, n: nat)
    requires e >= 1
  {
    1 <= n <= e && n != Spared(e)
  }

  function Doomed(e: nat): set<nat>
    requires e >= 1
  {
    set n: nat | n <= e && IsDoomed(e, n)
  }

  lemma HitIsDoomedHeight(prefix: Key, e: nat, d: nat, k: Key) returns (n: nat)
    requires 1 <= e <= MAX_EXACT && 1 <= d <= Digits(e) && PlainJob(prefix, e).Hit(d, k)
    ensures 1 <= n <= e && IsDoomed(e, n) && k == HeightKey(prefix, n) && Reaches(e, d, n)
  {
    n := HitIsHeight(prefix, e, d, k);
    HitsHeight(prefix, e, d, n);
    SparedIsUnreached(e, d, Spared(e));
  }

  lemma DoomedHeightIsHit(prefix: Key, e: nat, n: nat)
    requires 1 <= e <= MAX_EXACT && IsDoomed(e, n)
    ensures PlainJob(prefix, e).HitBelow(Digits(e), HeightKey(prefix, n))
  {
    UnsparedIsReached(e, n);
    HitsHeight(prefix, e, ReachingScan(e, n), n);
  }

  /** Without the early exit, every height from 1 to e is deleted except one,
      and nothing else is, whatever the database holds. */
  lemma FullLoopDeletesAllButOne(prefix: Key, e: nat, keys: set<Key>)
    requires 1 <= e <= MAX_EXACT
    ensures PlainJob(prefix, e).SurvivorsOfAllPasses(keys, Digits(e)) == keys - HeightKeys(prefix, Doomed(e))
  {
    var job := PlainJob(prefix, e);
    AllPassesDeleteHits(job, keys, Digits(e));
    forall k
      ensures job.HitBelow(Digits(e), k) <==> k in HeightKeys(prefix, Doomed(e))
    {
      if job.HitBelow(Digits(e), k) {
        var d :| 1 <= d <= Digits(e) && job.Hit(d, k);
        var n := HitIsDoomedHeight(prefix, e, d, k);
        assert n in Doomed(e);
      }
      if k in HeightKeys(prefix, Doomed(e)) {
        var n :| n in Doomed(e) && k == HeightKey(prefix, n);
        DoomedHeightIsHit(prefix, e, n);
      }
    }
  }

  lemma HeightKeyInjective(prefix: Key, m: nat, n: nat)
    requires HeightKey(prefix, m) == HeightKey(prefix, n)
    ensures m == n
  {
    assert HeightKey(prefix, m)[|prefix|..] == Dec(m) && HeightKey(prefix, n)[|prefix|..] == Dec(n);
    DecInjective(m, n);
  }

  lemma ReachedIsPassed(prefix: Key, e: nat, keys: set<Key>, d: nat, n: nat)
    requires 1 <= n <= e <= MAX_EXACT && 1 <= d <= Digits(e)
    requires HeightKey(prefix, n) in keys && Reaches(e, d, n)
    ensures HeightKey(prefix, n) in PlainJob(prefix, e).Pass(keys, d)
  {
    HitsHeight(prefix, e, d, n);
  }

  /** A scan deletes the keys of the present heights it reaches. */
  lemma PassIsReach(prefix: Key, e: nat, keys: set<Key>, d: nat)
    requires 1 <= e <= MAX_EXACT && 1 <= d <= Digits(e)
    ensures PlainJob(prefix, e).Pass(keys, d)
         == HeightKeys(prefix, set n | n in HeightsIn(keys, prefix, e) && Reaches(e, d, n))
  {
    var reached := set n | n in HeightsIn(keys, prefix, e) && Reaches(e, d, n);
    forall k
      ensures k in PlainJob(prefix, e).Pass(keys, d) <==> k in HeightKeys(prefix, reached)
    {
      if k in PlainJob(prefix, e).Pass(keys, d) {
        var n := HitIsDoomedHeight(prefix, e, d, k);
        assert n in reached;
      }
      if k in HeightKeys(prefix, reached) {
        var n :| n in reached && k == HeightKey(prefix, n);
        ReachedIsPassed(prefix, e, keys, d, n);
      }
    }
  }

  lemma HeightsAfterRemoval(prefix: Key, e: nat, keys: set<Key>, gone: set<nat>)
    ensures HeightsIn(keys - HeightKeys(prefix, gone), prefix, e) == HeightsIn(keys, prefix, e) - gone
  {
    forall n: nat
      ensures HeightKey(prefix, n) in HeightKeys(prefix, gone) <==> n in gone
    {
      if HeightKey(prefix, n) in HeightKeys(prefix, gone) {
        var m :| m in gone && HeightKey(prefix, n) == HeightKey(prefix, m);
        HeightKeyInjective(prefix, n, m);
      }
    }
  }

  function Reached(heights: set<nat>, e: nat, d: nat): set<nat>
    requires d >= 1
  {
    set n | n in heights && Reaches(e, d, n)
  }

  /** The loop seen through the heights that are present: what the scans from `d`
      digits downwards leave, when a scan that reaches nothing ends the loop. */
  function LoopOnHeights(heights: set<nat>, e: nat, d: nat): set<nat> {
    if d == 0 then heights
    else
      var gone := Reached(heights, e, d);
      if gone == {} then heights else LoopOnHeights(heights - gone, e, d - 1)
  }

  lemma SomeHeightKey(prefix: Key, heights: set<nat>)
    requires heights != {}
    ensures HeightKeys(prefix, heights) != {}
  {
    var n :| n in heights;
    assert HeightKey(prefix, n) in HeightKeys(prefix, heights);
  }

  lemma HeightKeysUnion(prefix: Key, a: set<nat>, b: set<nat>)
    ensures HeightKeys(prefix, a + b) == HeightKeys(prefix, a) + HeightKeys(prefix, b)
  {
  }

  lemma RemovalsAddUp(prefix: Key, keys: set<Key>, gone: set<nat>, heights: set<nat>, left: set<nat>)
    requires gone <= heights && left <= heights - gone
    ensures keys - HeightKeys(prefix, gone) - HeightKeys(prefix, (heights - gone) - left)
         == keys - HeightKeys(prefix, heights - left)
  {
    assert heights - left == gone + ((heights - gone) - left);
    HeightKeysUnion(prefix, gone, (heights - gone) - left);
  }

  lemma {:induction false} LoopRefinesHeights(prefix: Key, e: nat, keys: set<Key>, d: nat)
    requires 1 <= e <= MAX_EXACT && d <= Digits(e)
    ensures var heights := HeightsIn(keys, prefix, e);
            && LoopOnHeights(heights, e, d) <= heights
            && PlainJob(prefix, e).Survivors(keys, d)
               == keys - HeightKeys(prefix, heights - LoopOnHeights(heights, e, d))
  {
    var heights := HeightsIn(keys, prefix, e);
    if d > 0 {
      var gone := Reached(heights, e, d);
      PassIsReach(prefix, e, keys, d);
      ScanKeys(prefix, AsciiHeight, e, d);
      if gone == {} {
        assert heights - LoopOnHeights(heights, e, d) == {};
      } else {
        var rest, left := keys - HeightKeys(prefix, gone), LoopOnHeights(heights - gone, e, d - 1);
        SomeHeightKey(prefix, gone);
        HeightsAfterRemoval(prefix, e, keys, gone);
        LoopRefinesHeights(prefix, e, rest, d - 1);
        RemovalsAddUp(prefix, keys, gone, heights, left);
        assert LoopOnHeights(heights, e, d) == left;
      }
    }
  }

  /** The smallest height with a given number of digits. */
  function Shortest(digits: nat): nat
    requires digits >= 1
  {
    Pow10(digits - 1)
  }

  lemma SecondScanMisses(e: nat, n: nat)
    requires n >= 1 && Digits(n) + 2 <= Digits(e) && !Reaches(e, Digits(e) - 1, n)
    ensures n == Shortest(Digits(n))
  {
    DropPow10(Digits(e) - 1, Digits(e) - 1 - Digits(n));
    DigitsBounds(n);
  }

  /** The only heights left for the later scans are powers of ten, one for each. */
  lemma LeftAfterTwoScans(e: nat, n: nat)
    requires e >= 1 && IsDoomed(e, n)
    requires !Reaches(e, Digits(e), n) && (Digits(e) >= 2 ==> !Reaches(e, Digits(e) - 1, n))
    ensures Digits(n) + 2 <= Digits(e) && n == Shortest(Digits(n))
  {
    DigitsMonotone(n, e);
    UnsparedIsReached(e, n);
    assert ReachingScan(e, n) + 2 <= Digits(e);
    SecondScanMisses(e, n);
  }

  lemma ShortestIsReached(e: nat, d: nat, i: nat)
    requires 1 <= i <= d && d + 2 <= Digits(e)
    ensures Digits(Shortest(i)) == i
    ensures Reaches(e, d, Shortest(i)) <==> i == d
  {
    DigitsOfPow10(i - 1);
    DropOne(Pow10(i - 1));
  }

  /** The powers of ten that are present form an unbroken run up to d digits. */
  ghost predicate PowersUnbroken(heights: set<nat>, d: int) {
    forall i: nat :: 1 <= i < d && Shortest(i) in heights ==> Shortest(i + 1) in heights
  }

  lemma {:induction false} RunReachesTop(heights: set<nat>, i: nat, d: nat)
    requires PowersUnbroken(heights, d) && 1 <= i <= d && Shortest(i) in heights
    ensures Shortest(d) in heights
    decreases d - i
  {
    if i < d {
      RunReachesTop(heights, i + 1, d);
    }
  }

  ghost predicate OnlyPowersLeft(heights: set<nat>, e: nat, d: nat)
    requires e >= 1
  {
    forall n :: n in heights && n != Spared(e) ==> 1 <= Digits(n) <= d && n == Shortest(Digits(n))
  }

  lemma ScanOfOnePower(e: nat, heights: set<nat>, d: nat)
    requires 1 <= e && 1 <= d && d + 2 <= Digits(e) && OnlyPowersLeft(heights, e, d)
    ensures Reached(heights, e, d) == if Shortest(d) in heights then {Shortest(d)} else {}
  {
    forall n | n in heights
      ensures Reaches(e, d, n) <==> n == Shortest(d)
    {
      ShortestIsReached(e, d, d);
      if n == Spared(e) {
        SparedIsUnreached(e, d, n);
      } else {
        ShortestIsReached(e, d, Digits(n));
      }
    }
  }

  lemma FewerUnbroken(heights: set<nat>, d: nat, top: nat)
    requires d >= 1 && top == Shortest(d) && top in heights
    ensures PowersUnbroken(heights - {top}, d - 1) <==> PowersUnbroken(heights, d)
  {
    forall i: nat | 1 <= i < d
      ensures Shortest(i) in heights - {top} <==> Shortest(i) in heights
    {
      Pow10Monotone(i - 1, d - 1);
    }
  }

  lemma OneFewerPower(e: nat, heights: set<nat>, d: nat)
    requires 1 <= e && 1 <= d && d + 2 <= Digits(e) && OnlyPowersLeft(heights, e, d) && Shortest(d) in heights
    ensures OnlyPowersLeft(heights - {Shortest(d)}, e, d - 1)
    ensures PowersUnbroken(heights - {Shortest(d)}, d - 1) <==> PowersUnbroken(heights, d)
  {
    FewerUnbroken(heights, d, Shortest(d));
  }

  lemma SparedIsNoPower(e: nat, i: nat)
    requires 1 <= i && i + 2 <= Digits(e)
    ensures Shortest(i) != Spared(e)
  {
    SparedDigits(e);
    DigitsOfPow10(i - 1);
  }

  lemma NothingWithoutTop(e: nat, heights: set<nat>, d: nat)
    requires 1 <= e && 1 <= d && d + 2 <= Digits(e) && OnlyPowersLeft(heights, e, d) && Shortest(d) !in heights
    ensures heights <= {Spared(e)} <==> PowersUnbroken(heights, d)
  {
    if PowersUnbroken(heights, d) {
      forall n | n in heights
        ensures n == Spared(e)
      {
        if n != Spared(e) { RunReachesTop(heights, Digits(n), d); }
      }
    }
    if heights <= {Spared(e)} {
      forall i: nat | 1 <= i < d
        ensures Shortest(i) !in heights
      {
        ShortestIsReached(e, d, i);
        if Shortest(i) in heights { SparedIsNoPower(e, i); }
      }
    }
  }

  /** Once only powers of ten are left, the loop removes them all exactly when the
      present ones are consecutive from the next digit length down. */
  lemma {:induction false} LaterScans(e: nat, heights: set<nat>, d: nat)
    requires e >= 1 && d + 2 <= Digits(e) && OnlyPowersLeft(heights, e, d)
    ensures LoopOnHeights(heights, e, d) <= {Spared(e)} <==> PowersUnbroken(heights, d)
  {
    if d > 0 {
      var top := Shortest(d);
      ScanOfOnePower(e, heights, d);
      if top in heights {
        OneFewerPower(e, heights, d);
        LaterScans(e, heights - {top}, d - 1);
      } else {
        assert heights <= {Spared(e)} <==> PowersUnbroken(heights, d) by {
          NothingWithoutTop(e, heights, d);
        }
      }
    }
  }

  /** Heights that only the second scan reaches. */
  function SecondBand(heights: set<nat>, e: nat): set<nat> {
    if Digits(e) < 2 then {}
    else Reached(heights - Reached(heights, e, Digits(e)), e, Digits(e) - 1)
  }

  /** When leaving the loop early costs nothing: the first scan must find something
      if there is anything to delete, so must the second if the first left anything,
      and the remaining powers of ten must be consecutive. */
  ghost predicate ExitHarmless(heights: set<nat>, e: nat)
    requires e >= 1
  {
    var first := Reached(heights, e, Digits(e));
    && (heights <= {Spared(e)} || first != {})
    && (heights - first <= {Spared(e)} || SecondBand(heights, e) != {})
    && PowersUnbroken(heights, Digits(e) - 2)
  }

  lemma ShortestDigits(d: nat, p: nat)
    requires 1 <= d && p == Shortest(d)
    ensures Digits(p) == d && p < Pow10(d) - 1
  {
    DigitsOfPow10(d - 1);
    Pow10Monotone(d - 1, d);
  }

  /** A scan does not reach a power of ten that is shorter than its digit length. */
  lemma ShorterPowerUnreached(e: nat, d: nat, i: nat, p: nat)
    requires 1 <= i < d && p == Shortest(i)
    ensures !Reaches(e, d, p)
  {
    ShortestDigits(i, p);
  }

  lemma PowerOutlastsTwoScans(heights: set<nat>, e: nat, i: nat, p: nat)
    requires 1 <= i && i + 2 <= Digits(e) && p == Shortest(i)
    ensures p in heights - Reached(heights, e, Digits(e)) - SecondBand(heights, e) <==> p in heights
    ensures p != Spared(e)
  {
    ShorterPowerUnreached(e, Digits(e), i, p);
    ShorterPowerUnreached(e, Digits(e) - 1, i, p);
    SparedIsNoPower(e, i);
  }

  lemma SamePowers(heights: set<nat>, last: set<nat>, d: int, spared: nat)
    requires forall i: nat :: 1 <= i <= d ==> (Shortest(i) in last <==> Shortest(i) in heights) && Shortest(i) != spared
    ensures last <= {spared} ==> PowersUnbroken(heights, d)
    ensures PowersUnbroken(last, d) <==> PowersUnbroken(heights, d)
  {
  }

  /** The first two scans leave the powers of ten with two digits fewer than e, or less, alone. */
  lemma PowersComeLast(heights: set<nat>, e: nat)
    requires e >= 1
    ensures var last := heights - Reached(heights, e, Digits(e)) - SecondBand(heights, e);
            && (last <= {Spared(e)} ==> PowersUnbroken(heights, Digits(e) - 2))
            && (PowersUnbroken(last, Digits(e) - 2) <==> PowersUnbroken(heights, Digits(e) - 2))
  {
    var last := heights - Reached(heights, e, Digits(e)) - SecondBand(heights, e);
    forall i: nat | 1 <= i && i + 2 <= Digits(e)
      ensures Shortest(i) in last <==> Shortest(i) in heights
      ensures Shortest(i) != Spared(e)
    {
      PowerOutlastsTwoScans(heights, e, i, Shortest(i));
    }
    SamePowers(heights, last, Digits(e) - 2, Spared(e));
  }

  lemma LoopRemovesAllIff(e: nat, heights: set<nat>)
    requires e >= 1
    requires forall n :: n in heights ==> 1 <= n <= e
    ensures LoopOnHeights(heights, e, Digits(e)) <= {Spared(e)} <==> ExitHarmless(heights, e)
  {
    var first := Reached(heights, e, Digits(e));
    var rest := heights - first;
    if first == {} {
      PowersComeLast(heights, e);
    } else if Digits(e) == 1 {
      forall n | n in rest
        ensures n == Spared(e)
      {
        if n != Spared(e) { LeftAfterTwoScans(e, n); }
      }
      assert LoopOnHeights(heights, e, 1) == LoopOnHeights(rest, e, 0) == rest;
    } else {
      var second := SecondBand(heights, e);
      assert LoopOnHeights(heights, e, Digits(e)) == LoopOnHeights(rest, e, Digits(e) - 1);
      PowersComeLast(heights, e);
      if second != {} {
        var last := rest - second;
        forall n | n in last && n != Spared(e)
          ensures 1 <= Digits(n) <= Digits(e) - 2 && n == Shortest(Digits(n))
        {
          LeftAfterTwoScans(e, n);
        }
        LaterScans(e, last, Digits(e) - 2);
      }
    }
  }

  lemma DeletedSame(prefix: Key, e: nat, keys: set<Key>, left: set<nat>)
    requires e >= 1
    requires left <= HeightsIn(keys, prefix, e)
    requires keys - HeightKeys(prefix, Doomed(e)) <= keys - HeightKeys(prefix, HeightsIn(keys, prefix, e) - left)
    ensures keys - HeightKeys(prefix, HeightsIn(keys, prefix, e) - left) == keys - HeightKeys(prefix, Doomed(e))
       <==> left <= {Spared(e)}
  {
    var heights := HeightsIn(keys, prefix, e);
    HeightsAfterRemoval(prefix, e, keys, heights - left);
    HeightsAfterRemoval(prefix, e, keys, Doomed(e));
    if left <= {Spared(e)} {
      forall n | n in Doomed(e) && HeightKey(prefix, n) in keys
        ensures HeightKey(prefix, n) in HeightKeys(prefix, heights - left)
      {
        assert n in heights - left;
      }
    } else {
      var n :| n in left && n != Spared(e);
      assert n in Doomed(e);
      assert n !in heights - left;
      assert n in HeightsIn(keys - HeightKeys(prefix, heights - left), prefix, e);
      assert HeightKey(prefix, n) in HeightKeys(prefix, Doomed(e));
    }
  }

  /** The early exit leaves the same database as the full loop exactly when it is harmless. */
  lemma EarlyExitRefinesFullLoopIff(prefix: Key, e: nat, keys: set<Key>)
    requires 1 <= e <= MAX_EXACT
    ensures PlainJob(prefix, e).Result(keys) == PlainJob(prefix, e).SurvivorsOfAllPasses(keys, Digits(e))
       <==> ExitHarmless(HeightsIn(keys, prefix, e), e)
  {
    var job, heights := PlainJob(prefix, e), HeightsIn(keys, prefix, e);
    var left := LoopOnHeights(heights, e, Digits(e));
    LoopRefinesHeights(prefix, e, keys, Digits(e));
    FullLoopDeletesAllButOne(prefix, e, keys);
    EarlyExitDeletesLess(job, keys, Digits(e));
    LoopRemovesAllIff(e, heights);
    DeletedSame(prefix, e, keys, left);
  }

  /** When endHeight is zero or a power of ten, the first scan is empty and the call does nothing. */
  lemma PowerOfTenIsIdle(prefix: Key, e: nat, keys: set<Key>)
    requires e == 0 || e == Pow10(Digits(e) - 1)
    requires e <= MAX_EXACT
    ensures PlainJob(prefix, e).Result(keys) == keys
    ensures PartsJob(prefix, e).Result(keys) == keys
  {
    if e == 0 {
      assert Digits(e) == 1 && Pow10(0) == 1;
      assert !PlainJob(prefix, e).Active(1) && !PartsJob(prefix, e).Active(1);
      assert PlainJob(prefix, e).Survivors(keys, 1) == PlainJob(prefix, e).Survivors(keys, 0);
      assert PartsJob(prefix, e).Survivors(keys, 1) == PartsJob(prefix, e).Survivors(keys, 0);
    } else {
      ScanKeys(prefix, AsciiHeight, e, Digits(e));
      ScanKeys(prefix, AsciiHeightTwoParts, e, Digits(e));
      assert PlainJob(prefix, e).Pass(keys, Digits(e)) == {};
      assert PartsJob(prefix, e).Pass(keys, Digits(e)) == {};
    }
  }

  /** The heights under the prefix are exactly the consecutive ones from b to t. */
  ghost predicate Consecutive(keys: set<Key>, prefix: Key, b: nat, t: nat) {
    forall h: nat :: HeightKey(prefix, h) in keys <==> b <= h <= t
  }

  lemma ShortestReach(e: nat, d: nat, p: nat)
    requires 1 <= d && d + 1 == Digits(e) && Digits(p) == d && p == Shortest(d) && p < Pow10(d) - 1
    ensures !Reaches(e, Digits(e), p) && Reaches(e, d, p)
  {
    DropOne(p);
  }

  lemma ShortOfTop(e: nat, n: nat, p: nat)
    requires 1 <= n <= e && Digits(n) + 2 <= Digits(e) && n == Shortest(Digits(n))
    requires p == Shortest(Digits(e) - 1)
    ensures n <= p <= e
    ensures !Reaches(e, Digits(e), p) && Reaches(e, Digits(e) - 1, p)
  {
    var d := Digits(e) - 1;
    Pow10Monotone(Digits(n) - 1, d - 1);
    Pow10Monotone(d - 1, d);
    DigitsBounds(e);
    ShortestDigits(d, p);
    ShortestReach(e, d, p);
  }

  lemma SecondBandFindsSome(e: nat, heights: set<nat>, b: nat, n: nat)
    requires 1 <= b < e && forall m :: m in heights <==> b <= m <= e
    requires n in heights - Reached(heights, e, Digits(e)) && n != Spared(e)
    ensures SecondBand(heights, e) != {}
  {
    if n !in SecondBand(heights, e) {
      LeftAfterTwoScans(e, n);
      ShortOfTop(e, n, Shortest(Digits(e) - 1));
      assert Shortest(Digits(e) - 1) in SecondBand(heights, e);
    }
  }

  lemma NextPowerFits(e: nat, i: nat)
    requires 1 <= i && i + 2 < Digits(e)
    ensures Shortest(i) <= Shortest(i + 1) <= e
  {
    Pow10Monotone(i - 1, i);
    Pow10Monotone(i, Digits(e) - 1);
    DigitsBounds(e);
  }

  /** The first scan reaches the height below endHeight, unless endHeight is a power of ten. */
  lemma JustBelowIsReached(e: nat)
    requires e >= 2 && e != Pow10(Digits(e) - 1)
    ensures Digits(e - 1) == Digits(e)
    ensures Reaches(e, Digits(e), e - 1)
  {
    DigitsBounds(e);
    DigitsUnique(e - 1, Digits(e));
    DropOne(e - 1);
  }

  lemma ConsecutiveIsHarmless(e: nat, heights: set<nat>, b: nat)
    requires 1 <= b < e && e != Pow10(Digits(e) - 1)
    requires forall n :: n in heights <==> b <= n <= e
    ensures ExitHarmless(heights, e)
  {
    var de := Digits(e);
    var first := Reached(heights, e, de);
    JustBelowIsReached(e);
    assert e - 1 in first;
    forall n | n in heights - first && n != Spared(e)
      ensures SecondBand(heights, e) != {}
    {
      SecondBandFindsSome(e, heights, b, n);
    }
    forall i: nat | 1 <= i && i + 2 < de && Shortest(i) in heights
      ensures Shortest(i + 1) in heights
    {
      NextPowerFits(e, i);
    }
  }

  /** On consecutive heights b..t around endHeight, which is no power of ten, the call
      deletes every height from b to endHeight except the spared one, and nothing else. */
  lemma ConsecutiveHeightsDeleted(prefix: Key, e: nat, keys: set<Key>, b: nat, t: nat)
    requires 1 <= b < e <= t && e <= MAX_EXACT && e != Pow10(Digits(e) - 1)
    requires Consecutive(keys, prefix, b, t)
    ensures PlainJob(prefix, e).Result(keys) == keys - HeightKeys(prefix, Doomed(e))
    ensures forall h: nat :: HeightKey(prefix, h) in PlainJob(prefix, e).Result(keys)
                        <==> b <= h <= t && (h > e || h == Spared(e))
  {
    ConsecutiveIsHarmless(e, HeightsIn(keys, prefix, e), b);
    EarlyExitRefinesFullLoopIff(prefix, e, keys);
    FullLoopDeletesAllButOne(prefix, e, keys);
    forall h: nat
      ensures HeightKey(prefix, h) in HeightKeys(prefix, Doomed(e)) <==> h in Doomed(e)
    {
      if HeightKey(prefix, h) in HeightKeys(prefix, Doomed(e)) {
        var m :| m in Doomed(e) && HeightKey(prefix, h) == HeightKey(prefix, m);
        HeightKeyInjective(prefix, h, m);
      }
    }
  }

  /** What the comment on deleteHeightRange promises: no height from 0 to endHeight is left. */
  ghost predicate ClosedRangeGone(keys: set<Key>, prefix: Key, e: nat) {
    forall h: nat :: h <= e ==> HeightKey(prefix, h) !in keys
  }

  lemma {:induction false} SparedStays(e: nat, heights: set<nat>, d: nat)
    requires e >= 1 && d <= Digits(e)
    ensures Spared(e) in heights ==> Spared(e) in LoopOnHeights(heights, e, d)
  {
    if d > 0 {
      SparedIsUnreached(e, d, Spared(e));
      SparedStays(e, heights - Reached(heights, e, d), d - 1);
    }
  }

  /** The code meets that promise exactly when height 0 and the spared height were
      never there and the early exit is harmless. */
  lemma PromiseMetIff(prefix: Key, e: nat, keys: set<Key>)
    requires 1 <= e <= MAX_EXACT
    ensures ClosedRangeGone(PlainJob(prefix, e).Result(keys), prefix, e)
       <==> && HeightKey(prefix, 0) !in keys
            && HeightKey(prefix, Spared(e)) !in keys
            && ExitHarmless(HeightsIn(keys, prefix, e), e)
  {
    var heights := HeightsIn(keys, prefix, e);
    var left := LoopOnHeights(heights, e, Digits(e));
    LoopRefinesHeights(prefix, e, keys, Digits(e));
    LoopRemovesAllIff(e, heights);
    SparedDigits(e);
    forall h: nat | h <= e
      ensures HeightKey(prefix, h) in PlainJob(prefix, e).Result(keys)
         <==> HeightKey(prefix, h) in keys && (h == 0 || h in left)
    {
      if HeightKey(prefix, h) in HeightKeys(prefix, heights - left) {
        var m :| m in heights - left && HeightKey(prefix, h) == HeightKey(prefix, m);
        HeightKeyInjective(prefix, h, m);
      }
    }
    SparedStays(e, heights, Digits(e));
  }

  /** The comment's own example: with endHeight 1000 nothing at all is deleted. */
  lemma CommentExampleIsIdle(keys: set<Key>)
    ensures var prefix := [116, 101, 115, 116, 58];  // "test:"
            PlainJob(prefix, 1000).Result(keys) == keys
  {
    assert Digits(1000) == 4 && Pow10(3) == 1000;
    PowerOfTenIsIdle([116, 101, 115, 116, 58], 1000, keys);
  }

  /** A gap the early exit leaves behind: alone in the database, height 5 is not reached
      by the first scan for endHeight 25, and no second scan is made. */
  lemma LonelyHeightIsLeft(prefix: Key)
    ensures IsDoomed(25, 5)
    ensures PlainJob(prefix, 25).Result({HeightKey(prefix, 5)}) == {HeightKey(prefix, 5)}
  {
    var keys := {HeightKey(prefix, 5)};
    assert Digits(25) == 2 && Pow10(1) == 10;
    DropOne(25);
    HitsHeight(prefix, 25, 2, 5);
    ScanKeys(prefix, AsciiHeight, 25, 2);
    assert PlainJob(prefix, 25).Pass(keys, 2) == {};
  }
}

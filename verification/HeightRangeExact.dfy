// The exact set of heights that deleteHeightRange removes.
//
// The scans compare bytes, so which heights a scan reaches is a question about
// the leading digits of a numeral. The lemmas below answer it with arithmetic,
// first scan by scan, then for the whole loop, then for the loop with its early exit.

module HeightRangesExact {
  import opened Bytes
  import opened Decimal
  import opened Floats
  import opened HeightRanges

  function PlainJob(prefix: Key, endHeight: nat): Job {
    JobFor(prefix, AsciiHeight, 0, endHeight)
  }

  function PartsJob(prefix: Key, endHeight: nat): Job {
    JobFor(prefix, AsciiHeightTwoParts, 0, endHeight)
  }

  function HeightKey(prefix: Key, n: nat): Key {
    prefix + Dec(n)
  }

  function PartKey(prefix: Key, n: nat, part: Key): Key {
    prefix + (Dec(n) + ([COLON] + part))
  }

  function HeightKeys(prefix: Key, heights: set<nat>): set<Key> {
    set n | n in heights :: HeightKey(prefix, n)
  }

  /** The heights from 1 to endHeight that have a key. */
  function HeightsIn(keys: set<Key>, prefix: Key, endHeight: nat): set<nat> {
    set n: nat | 1 <= n <= endHeight && HeightKey(prefix, n) in keys
  }

  /** The excluded upper bound of the scan for d digits. */
  function Bound(e: nat, d: nat): nat
    requires d >= 1
  {
    if d < Digits(e) then Pow10(d) - 1 else e
  }

  // One scan

  lemma BoundDigits(e: nat, d: nat)
    requires e >= 1 && 1 <= d <= Digits(e)
    ensures Digits(Pow10(d - 1)) == d && Digits(Bound(e, d)) == d
    ensures Pow10(d - 1) <= Bound(e, d) <= e
    ensures Bound(e, d) == Min(e, Pow10(d) - 1)
  {
    DigitsOfPow10(d - 1);
    DigitsBounds(e);
    if d < Digits(e) {
      DigitsOfPow10(d);
      Pow10Monotone(d - 1, d);
      Pow10Monotone(d, Digits(e) - 1);
    }
  }

  lemma RoundedPower(d: nat, p: nat, e: nat)
    requires 1 <= d && p == Pow10(d) && e <= MAX_EXACT
    ensures Min(e, Float64(PowerMinusOne(d))) == Min(e, p - 1)
  {
    if p > MAX_EXACT {
      assert p == 2 * (5 * Pow10(d - 1));
      assert Float64(p) >= MAX_EXACT + 2;
    }
  }

  /** Up to 2^53 the bounds computed in floating point are exact. */
  lemma ExactBounds(e: nat, d: nat)
    requires 1 <= e <= MAX_EXACT && 1 <= d <= Digits(e)
    ensures ScanFor(0, e, d) == Scan(Pow10(d - 1), Bound(e, d))
  {
    BoundDigits(e, d);
    RoundedPower(d, Pow10(d), e);
  }

  /** So they are with a start above 0, which raises the lower bound. */
  lemma ExactBoundsFrom(start: nat, e: nat, d: nat)
    requires 1 <= e <= MAX_EXACT && start <= MAX_EXACT && 1 <= d <= Digits(e)
    ensures ScanFor(start, e, d) == Scan(if start > Pow10(d - 1) then start else Pow10(d - 1), Bound(e, d))
  {
    BoundDigits(e, d);
    RoundedPower(d, Pow10(d), e);
  }

  ghost predicate AllBoundsExact(e: nat) {
    forall d :: 1 <= d <= Digits(e) ==> ScanFor(0, e, d) == Scan(Pow10(d - 1), Bound(e, d))
  }

  lemma PowersOfTen()
    ensures Pow10(15) == 1_000_000_000_000_000 && Pow10(16) == 10_000_000_000_000_000
  {
    assert Pow10(4) == 10_000;
    assert Pow10(8) == 100_000_000;
    assert Pow10(12) == 1_000_000_000_000;
  }

  /** 10^16-1 rounds to 10^16. */
  lemma TenToThe16()
    ensures Float64(PowerMinusOne(16)) == 10_000_000_000_000_000
  {
    PowersOfTen();
    assert Rounded(9_999_999_999_999_999, false, false) == 2 * Rounded(4_999_999_999_999_999, true, false);
  }

  lemma BoundsBelowTop(e: nat, d: nat)
    requires MAX_EXACT < e < Pow10(16) && 1 <= d <= 16
    ensures ScanFor(0, e, d) == Scan(Pow10(d - 1), if d < 16 then Pow10(d) - 1 else Float64(e))
  {
    PowersOfTen();
    Pow10Monotone(d - 1, 15);
    if d < 16 {
      Pow10Monotone(d, 15);
    } else {
      TenToThe16();
    }
  }

  lemma TopFloatIff(e: nat)
    requires MAX_EXACT < e < Pow10(16)
    ensures Float64(e) == e <==> e % 2 == 0
  {
    PowersOfTen();
  }

  lemma BoundsExactIffEven(e: nat)
    requires MAX_EXACT < e < Pow10(16)
    ensures AllBoundsExact(e) <==> e % 2 == 0
  {
    PowersOfTen();
    DigitsUnique(e, 16);
    forall d | 1 <= d <= 16
      ensures ScanFor(0, e, d) == Scan(Pow10(d - 1), if d < 16 then Pow10(d) - 1 else Float64(e))
    {
      BoundsBelowTop(e, d);
    }
    TopFloatIff(e);
    assert ScanFor(0, e, 16) == Scan(Pow10(15), Bound(e, 16)) <==> Float64(e) == e;
  }

  lemma TopBoundIsEven(e: nat)
    requires e >= Pow10(16)
    ensures ScanFor(0, e, 16).end % 2 == 0 && (Pow10(16) - 1) % 2 == 1
  {
    PowersOfTen();
    TenToThe16();
  }

  lemma BoundAtSixteen(e: nat)
    requires e >= Pow10(16)
    ensures Digits(e) > 16 && Bound(e, 16) == Pow10(16) - 1
  {
    DigitsUnique(Pow10(16), 17);
    DigitsMonotone(Pow10(16), e);
  }

  lemma NoTopBoundExact(e: nat)
    requires e >= Pow10(16)
    ensures !AllBoundsExact(e)
  {
    BoundAtSixteen(e);
    TopBoundIsEven(e);
    assert ScanFor(0, e, 16).end != Bound(e, 16);
  }

  /** Of all 64-bit heights those have exact bounds that are at most 2^53, or even and below 10^16. */
  lemma BoundsExactIff(e: nat)
    requires 1 <= e <= MAX_UINT64
    ensures AllBoundsExact(e) <==> e <= MAX_EXACT || (e < Pow10(16) && e % 2 == 0)
  {
    if e <= MAX_EXACT {
      forall d | 1 <= d <= Digits(e)
        ensures ScanFor(0, e, d) == Scan(Pow10(d - 1), Bound(e, d))
      {
        ExactBounds(e, d);
      }
    } else if e < Pow10(16) {
      BoundsExactIffEven(e);
    } else {
      NoTopBoundExact(e);
    }
  }

  /** An example: the bound of the 16-digit scan has a digit too many. */
  lemma InexactBound()
    ensures ScanFor(0, 2 * Pow10(16), 16) == Scan(Pow10(15), Pow10(16))
  {
    PowersOfTen();
    TenToThe16();
    assert Rounded(20_000_000_000_000_000, false, false) == 2 * Rounded(10_000_000_000_000_000, false, false);
  }

  lemma ExactScan(e: nat, d: nat)
    requires e >= 1 && 1 <= d <= Digits(e)
    ensures Pow10(d - 1) <= Bound(e, d)
    ensures PaddedDec(d, Pow10(d - 1)) == Dec(Pow10(d - 1)) && PaddedDec(d, Bound(e, d)) == Dec(Bound(e, d))
  {
    BoundDigits(e, d);
    PaddingIsIdle(d, Pow10(d - 1));
    PaddingIsIdle(d, Bound(e, d));
  }

  lemma ScanKeys(prefix: Key, parse: HeightParser, e: nat, d: nat)
    requires 1 <= e <= MAX_EXACT && 1 <= d <= Digits(e)
    ensures var job := JobFor(prefix, parse, 0, e);
            && job.Active(d)
            && job.StartKey(d) == prefix + Dec(Pow10(d - 1))
            && job.EndKey(d) == prefix + Dec(Bound(e, d))
  {
    ExactBounds(e, d);
    assert JobFor(prefix, parse, 0, e).scans[d - 1] == ScanFor(0, e, d);
    ExactScan(e, d);
  }

  /** Whether the scan for d digits reaches the key of height n. */
  predicate Reaches(e: nat, d: nat, n: nat)
    requires d >= 1
  {
    if Digits(n) >= d then Drop(n, Digits(n) - d) < Bound(e, d)
    else Pow10(Digits(n) - 1) < n <= Drop(Bound(e, d), d - Digits(n))
  }

  /** Whether the scan for d digits reaches the part keys of height n. */
  predicate ReachesParts(e: nat, d: nat, n: nat)
    requires d >= 1
  {
    if Digits(n) >= d then Drop(n, Digits(n) - d) < Bound(e, d)
    else n < Drop(Bound(e, d), d - Digits(n))
  }

  lemma LeadingDigits(n: nat, d: nat)
    requires n >= 1 && 1 <= d <= Digits(n)
    ensures Pow10(d - 1) <= Drop(n, Digits(n) - d) < Pow10(d)
  {
    DropDigits(n, Digits(n) - d);
    DigitsBounds(Drop(n, Digits(n) - d));
  }

  lemma NumeralAboveStart(d: nat, n: nat)
    requires 1 <= n && 1 <= d
    ensures Less(Dec(n), Dec(Pow10(d - 1))) <==> Digits(n) < d && n <= Pow10(Digits(n) - 1)
  {
    DigitsOfPow10(d - 1);
    if Digits(n) >= d {
      LeadingDigits(n, d);
      assert Dec(n) + [] == Dec(n);
      LongerOrder(n, [], Pow10(d - 1));
    } else {
      DropPow10(d - 1, d - Digits(n));
      ShorterOrder(n, Pow10(d - 1));
    }
  }

  lemma NumeralInScan(e: nat, d: nat, n: nat)
    requires 1 <= n && 1 <= d <= Digits(e) && e >= 1
    ensures Within(Dec(Pow10(d - 1)), Dec(n), Dec(Bound(e, d))) <==> Reaches(e, d, n)
  {
    BoundDigits(e, d);
    NumeralAboveStart(d, n);
    if Digits(n) >= d {
      assert Dec(n) + [] == Dec(n);
      LongerOrder(n, [], Bound(e, d));
    } else {
      ShorterOrder(n, Bound(e, d));
    }
  }

  lemma PartInScan(e: nat, d: nat, n: nat, part: Key)
    requires 1 <= n && 1 <= d <= Digits(e) && e >= 1
    ensures Within(Dec(Pow10(d - 1)), Dec(n) + ([COLON] + part), Dec(Bound(e, d))) <==> ReachesParts(e, d, n)
  {
    BoundDigits(e, d);
    var lo, hi := Pow10(d - 1), Bound(e, d);
    if Digits(n) >= d {
      LeadingDigits(n, d);
      LongerOrder(n, [COLON] + part, lo);
      LongerOrder(n, [COLON] + part, hi);
    } else {
      DropPow10(d - 1, d - Digits(n));
      DigitsBounds(n);
      ShorterOrderColon(n, part, lo);
      ShorterOrderColon(n, part, hi);
    }
  }

  lemma WithinUnderPrefix(prefix: Key, lo: Key, s: Key, hi: Key)
    ensures Within(prefix + lo, prefix + s, prefix + hi) <==> Within(lo, s, hi)
  {
    LessUnderPrefix(prefix, s, lo);
    LessUnderPrefix(prefix, s, hi);
  }

  /** A scan deletes the key of a height exactly when it reaches it. */
  lemma HitsHeight(prefix: Key, e: nat, d: nat, n: nat)
    requires 1 <= n <= e <= MAX_EXACT && 1 <= d <= Digits(e)
    ensures PlainJob(prefix, e).Hit(d, HeightKey(prefix, n)) <==> Reaches(e, d, n)
    ensures PartsJob(prefix, e).Hit(d, HeightKey(prefix, n)) <==> Reaches(e, d, n)
  {
    ScanKeys(prefix, AsciiHeight, e, d);
    ScanKeys(prefix, AsciiHeightTwoParts, e, d);
    WithinUnderPrefix(prefix, Dec(Pow10(d - 1)), Dec(n), Dec(Bound(e, d)));
    NumeralInScan(e, d, n);
    assert HeightKey(prefix, n)[|prefix|..] == Dec(n);
    ParsePrinted(n);
    BeforeColonOf(Dec(n), []);
  }

  lemma HitsPart(prefix: Key, e: nat, d: nat, n: nat, part: Key)
    requires 1 <= n <= e <= MAX_EXACT && 1 <= d <= Digits(e)
    ensures PartsJob(prefix, e).Hit(d, PartKey(prefix, n, part)) <==> ReachesParts(e, d, n)
  {
    ScanKeys(prefix, AsciiHeightTwoParts, e, d);
    var s := Dec(n) + ([COLON] + part);
    WithinUnderPrefix(prefix, Dec(Pow10(d - 1)), s, Dec(Bound(e, d)));
    PartInScan(e, d, n, part);
    assert PartKey(prefix, n, part)[|prefix|..] == s;
    ParsePrinted(n);
    BeforeColonOf(Dec(n), part);
  }

  /** A scanned number part never starts with a zero. */
  lemma NoLeadingZero(prefix: Key, parse: HeightParser, e: nat, d: nat, k: Key)
    requires 1 <= e <= MAX_EXACT && 1 <= d <= Digits(e)
    requires JobFor(prefix, parse, 0, e).Hit(d, k)
    ensures |k| > |prefix| && k[|prefix|] > ZERO
  {
    ScanKeys(prefix, parse, e, d);
    var s := k[|prefix|..];
    assert k == prefix + s;
    WithinUnderPrefix(prefix, Dec(Pow10(d - 1)), s, Dec(Bound(e, d)));
    assert Dec(Pow10(d - 1))[0] > ZERO;
    assert s != [];
    assert s[0] == k[|prefix|];
  }

  /** Whatever the plain parser lets a scan delete is the printed key of a height. */
  lemma HitIsHeight(prefix: Key, e: nat, d: nat, k: Key) returns (n: nat)
    requires 1 <= e <= MAX_EXACT && 1 <= d <= Digits(e)
    requires PlainJob(prefix, e).Hit(d, k)
    ensures 1 <= n <= e && k == HeightKey(prefix, n)
  {
    NoLeadingZero(prefix, AsciiHeight, e, d, k);
    var s := k[|prefix|..];
    PrintParsed(s);
    n := NumeralValue(s);
  }

  /** What the two-part parser accepts, unless it starts with a zero, is a printed height or
      one followed by a colon. */
  lemma PrintedNumberPart(s: Key) returns (n: nat, part: Key)
    requires AsciiHeightTwoParts(s).Some? && s != [] && s[0] > ZERO
    ensures n >= 1 && AsciiHeightTwoParts(s).value == n
    ensures s == Dec(n) || s == Dec(n) + ([COLON] + part)
  {
    var u := BeforeColon(s);
    PrintParsed(u);
    n := NumeralValue(u);
    if u == s {
      part := [];
    } else {
      part := s[|u| + 1..];
      assert s == u + ([COLON] + part);
    }
  }

  /** Whatever the two-part parser lets a scan delete is the key of a height or of one of its parts. */
  lemma HitIsHeightOrPart(prefix: Key, e: nat, d: nat, k: Key) returns (n: nat, part: Key)
    requires 1 <= e <= MAX_EXACT && 1 <= d <= Digits(e)
    requires PartsJob(prefix, e).Hit(d, k)
    ensures 1 <= n <= e && (k == HeightKey(prefix, n) || k == PartKey(prefix, n, part))
  {
    NoLeadingZero(prefix, AsciiHeightTwoParts, e, d, k);
    var s := k[|prefix|..];
    assert k == prefix + s;
    n, part := PrintedNumberPart(s);
  }

  // All scans together

  /** The one height up to e that no scan reaches. */
  function Spared(e: nat): nat
    requires e >= 1
  {
    if e / 10 == Pow10(Digits(e) - 1) - 1 then e else Pow10(Digits(e) - 1) - 1
  }

  predicate AllNines(n: nat) {
    n + 1 == Pow10(Digits(n))
  }

  /** The heights up to e whose part keys no scan reaches. */
  predicate SparedParts(e: nat, n: nat)
    requires e >= 1
  {
    AllNines(n) || (n == e && e / 10 == Pow10(Digits(e) - 1) - 1)
  }

  lemma SparedDigits(e: nat)
    requires e >= 1
    ensures Spared(e) <= e
    ensures Spared(e) == e || (Digits(e) >= 2 && Digits(Spared(e)) == Digits(e) - 1)
  {
    DigitsBounds(e);
    if Digits(e) >= 2 {
      DigitsOfPow10(Digits(e) - 1);
    }
  }

  /** The scan that reaches a given height other than the spared one. */
  function ReachingScan(e: nat, n: nat): nat
    requires e >= 1
  {
    if Digits(n) == Digits(e) then (if n < e then Digits(e) else Digits(e) - 1)
    else if AllNines(n) then Digits(n) + 1
    else Digits(n)
  }

  lemma DropOne(n: nat)
    ensures Drop(n, 1) == n / 10
    ensures Drop(n, 0) == n
  {
    assert Drop(n / 10, 0) == n / 10;
  }

  lemma UnsparedIsReached(e: nat, n: nat)
    requires 1 <= n <= e && n != Spared(e)
    ensures 1 <= ReachingScan(e, n) <= Digits(e)
    ensures Reaches(e, ReachingScan(e, n), n)
  {
    var dn, de := Digits(n), Digits(e);
    DigitsMonotone(n, e);
    DigitsBounds(n);
    DigitsBounds(e);
    DropOne(n);
    DropOne(e);
    if dn == de {
      if n == e {
        if de >= 2 { LeadingDigits(e, de - 1); }
      }
    } else if AllNines(n) {
      if dn + 1 < de {
        DropPow10(dn + 1, 1);
        DropOne(Pow10(dn + 1) - 1);
      } else {
        LeadingDigits(e, dn);
      }
      Pow10Monotone(dn - 1, dn);
    }
  }

  lemma {:induction false} DropTwice(n: nat, j: nat, k: nat)
    ensures Drop(n, j + k) == Drop(Drop(n, j), k)
  {
    if j > 0 {
      DropTwice(n / 10, j - 1, k);
    }
  }

  /** When all digits but the last are nines, so are the leading ones. */
  lemma NinesLead(e: nat, d: nat)
    requires 1 <= d < Digits(e) && e / 10 == Pow10(Digits(e) - 1) - 1
    ensures Drop(e, Digits(e) - d) == Pow10(d) - 1
  {
    DropOne(e);
    DropTwice(e, 1, Digits(e) - d - 1);
    DropPow10(Digits(e) - 1, Digits(e) - 1 - d);
  }

  lemma NinesAreUnreached(e: nat, d: nat, n: nat)
    requires 1 <= d <= Digits(n) && d < Digits(e)
    requires Drop(n, Digits(n) - d) == Pow10(d) - 1
    ensures !Reaches(e, d, n)
  {
  }

  lemma LongRunOfNines(d: nat, m: nat, n: nat)
    requires 1 <= d <= m && n == Pow10(m) - 1
    ensures Digits(n) == m
    ensures Drop(n, m - d) == Pow10(d) - 1
  {
    DigitsOfPow10(m);
    DropPow10(m, m - d);
  }

  lemma TopScanStopsShort(e: nat, n: nat)
    requires e >= 1 && Digits(n) == Digits(e) - 1 && n > e / 10
    ensures !Reaches(e, Digits(e), n)
  {
    DropOne(e);
  }

  lemma ShorterNinesAbove(e: nat)
    requires Digits(e) >= 2 && e / 10 != Pow10(Digits(e) - 1) - 1
    ensures e / 10 < Pow10(Digits(e) - 1) - 1
  {
    DropOne(e);
    LeadingDigits(e, Digits(e) - 1);
  }

  lemma SparedTop(e: nat)
    requires e >= 1 && Spared(e) == e
    ensures e / 10 == Pow10(Digits(e) - 1) - 1
  {
    DigitsBounds(e);
  }

  lemma SparedIsUnreached(e: nat, d: nat, n: nat)
    requires e >= 1 && 1 <= d <= Digits(e) && n == Spared(e)
    ensures !Reaches(e, d, n)
  {
    var m := Digits(e) - 1;
    if n == e {
      if d < Digits(e) {
        SparedTop(e);
        NinesLead(e, d);
        NinesAreUnreached(e, d, n);
      } else {
        DropOne(e);
      }
    } else {
      assert n == Pow10(m) - 1;
      if m > 0 {
        ShorterNinesAbove(e);
        LongRunOfNines(if d < Digits(e) then d else m, m, n);
        if d < Digits(e) {
          NinesAreUnreached(e, d, n);
        } else {
          TopScanStopsShort(e, n);
        }
      }
    }
  }

  /** For part keys the scan of the height's own length, or the one below the top, does it. */
  lemma UnsparedPartIsReached(e: nat, n: nat, de: nat)
    requires 1 <= n <= e && !SparedParts(e, n) && de == Digits(e)
    ensures ReachesParts(e, de, n) || (de >= 2 && ReachesParts(e, de - 1, n))
  {
    var dn := Digits(n);
    DigitsMonotone(n, e);
    DigitsBounds(n);
    DigitsBounds(e);
    DropOne(n);
    if dn == de {
      if n == e && de >= 2 { LeadingDigits(e, de - 1); }
    } else {
      DropPow10(de - 1, de - 1 - dn);
    }
  }

  lemma NinesUnreached(e: nat, d: nat, n: nat)
    requires 1 <= n <= e && AllNines(n) && 1 <= d <= Digits(e)
    ensures !ReachesParts(e, d, n)
  {
    var dn := Digits(n);
    DigitsMonotone(n, e);
    DigitsBounds(e);
    if dn >= d {
      DropPow10(dn, dn - d);
    } else if d < Digits(e) {
      DropPow10(d, d - dn);
    } else {
      LeadingDigits(e, dn);
    }
  }

  lemma SparedPartIsUnreached(e: nat, d: nat, n: nat)
    requires 1 <= n <= e && SparedParts(e, n) && 1 <= d <= Digits(e)
    ensures !ReachesParts(e, d, n)
  {
    if AllNines(n) {
      NinesUnreached(e, d, n);
    } else if d < Digits(e) {
      NinesLead(e, d);
    } else {
      DropOne(e);
    }
  }
}

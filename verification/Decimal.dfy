// Decimal numerals as byte strings: printer, parser, and how the byte order of
// numerals relates to the numeric order of the heights they denote.

module Decimal {
  import opened Wrappers
  import opened Bytes

  const MAX_INT64: nat := 0x7FFF_FFFF_FFFF_FFFF
  const MAX_UINT64: nat := 0xFFFF_FFFF_FFFF_FFFF

  const ZERO: Byte := 48
  const NINE: Byte := 57
  const COLON: Byte := 58

  function Pow10(k: nat): (p: nat)
    ensures p >= 1
    ensures k > 0 ==> p >= 10
  {
    if k == 0 then 1 else 10 * Pow10(k - 1)
  }

  /** The number of decimal digits of n. */
  function Digits(n: nat): (d: nat)
    ensures d >= 1
  {
    if n < 10 then 1 else 1 + Digits(n / 10)
  }

  lemma {:induction false} DigitsBounds(n: nat)
    ensures n < Pow10(Digits(n))
    ensures n >= 1 ==> Pow10(Digits(n) - 1) <= n
  {
    if n < 10 {
      assert Pow10(1) == 10;
    } else {
      DigitsBounds(n / 10);
    }
  }

  /** What fmt.Sprintf("%d", n) prints. */
  function Dec(n: nat): (s: Key)
    ensures |s| == Digits(n)
    ensures forall i :: 0 <= i < |s| ==> ZERO <= s[i] <= NINE
    ensures n >= 1 ==> s[0] > ZERO
  {
    if n < 10 then [ZERO + n] else Dec(n / 10) + [ZERO + n % 10]
  }

  lemma DecSnoc(v: nat, d: nat)
    requires v >= 1 && d < 10
    ensures Dec(10 * v + d) == Dec(v) + [ZERO + d]
  {
    assert (10 * v + d) / 10 == v && (10 * v + d) % 10 == d;
  }

  function Zeros(z: nat): Key {
    seq(z, _ => ZERO)
  }

  /** What fmt.Sprintf("%0*d", width, n) prints. */
  function PaddedDec(width: nat, n: nat): (s: Key)
    ensures |s| == if width < Digits(n) then Digits(n) else width
  {
    Zeros(if width <= Digits(n) then 0 else width - Digits(n)) + Dec(n)
  }

  predicate IsDigit(b: Byte) {
    ZERO <= b <= NINE
  }

  predicate AllDigits(s: Key) {
    forall i :: 0 <= i < |s| ==> IsDigit(s[i])
  }

  function NumeralValue(s: Key): nat
    requires AllDigits(s)
  {
    if s == [] then 0 else 10 * NumeralValue(s[..|s| - 1]) + (s[|s| - 1] - ZERO)
  }

  /** strconv.ParseUint(s, 10, 64): None stands for a syntax or range error. */
  function ParseUint(s: Key): Option<nat> {
    if s == [] || !AllDigits(s) then None
    else
      var v := NumeralValue(s);
      if v > MAX_UINT64 then None else Some(v)
  }

  /** The first part of strings.SplitN(s, ":", 2). */
  function BeforeColon(s: Key): (p: Key)
    ensures p <= s
    ensures COLON !in p
    ensures p == s || s[|p|] == COLON
  {
    if s == [] || s[0] == COLON then [] else [s[0]] + BeforeColon(s[1..])
  }

  // Printer and parser

  lemma {:induction false} ValueOfDec(n: nat)
    ensures NumeralValue(Dec(n)) == n
  {
    if n < 10 {
      assert Dec(n)[..0] == [];
    } else {
      ValueOfDec(n / 10);
      assert Dec(n)[..|Dec(n)| - 1] == Dec(n / 10);
    }
  }

  lemma ParsePrinted(n: nat)
    requires n <= MAX_UINT64
    ensures ParseUint(Dec(n)) == Some(n)
  {
    ValueOfDec(n);
  }

  lemma DecInjective(m: nat, n: nat)
    requires Dec(m) == Dec(n)
    ensures m == n
  {
    ValueOfDec(m);
    ValueOfDec(n);
  }

  /** A numeral that does not start with zero is the one the printer produces. */
  lemma {:induction false} PrintParsed(s: Key)
    requires s != [] && AllDigits(s) && s[0] != ZERO
    ensures Dec(NumeralValue(s)) == s
    ensures NumeralValue(s) >= 1
  {
    var init, last := s[..|s| - 1], s[|s| - 1];
    assert s == init + [last];
    if init == [] {
      assert NumeralValue(init) == 0;
    } else {
      PrintParsed(init);
      DecSnoc(NumeralValue(init), last - ZERO);
    }
  }

  lemma {:induction false} LeadingZero(s: Key)
    requires AllDigits(s)
    ensures AllDigits([ZERO] + s) && NumeralValue([ZERO] + s) == NumeralValue(s)
  {
    if s == [] {
      assert [ZERO][..0] == [];
    } else {
      var n := |s| - 1;
      LeadingZero(s[..n]);
      assert ([ZERO] + s)[..n + 1] == [ZERO] + s[..n];
    }
  }

  lemma OneMoreZero(z: nat, d: Key)
    ensures Zeros(z + 1) + d == [ZERO] + (Zeros(z) + d)
    ensures Zeros(0) + d == d
  {
  }

  lemma {:induction false} PaddedValue(z: nat, n: nat)
    ensures AllDigits(Zeros(z) + Dec(n)) && NumeralValue(Zeros(z) + Dec(n)) == n
  {
    if z == 0 {
      OneMoreZero(0, Dec(n));
      ValueOfDec(n);
    } else {
      PaddedValue(z - 1, n);
      OneMoreZero(z - 1, Dec(n));
      LeadingZero(Zeros(z - 1) + Dec(n));
    }
  }

  lemma {:induction false} NumeralIsPadded(s: Key, n: nat) returns (z: nat)
    requires s != [] && AllDigits(s) && NumeralValue(s) == n
    ensures s == Zeros(z) + Dec(n)
  {
    if s[0] != ZERO || |s| == 1 {
      z := 0;
      OneMoreZero(0, Dec(n));
      if s[0] != ZERO { PrintParsed(s); } else { assert s[..0] == []; }
    } else {
      var t := s[1..];
      assert s == [ZERO] + t;
      LeadingZero(t);
      z := NumeralIsPadded(t, n);
      OneMoreZero(z, Dec(n));
      z := z + 1;
    }
  }

  /** Exactly the prints of the 64-bit numbers are parsed, with any number of zeros before them. */
  lemma ParsedExactly(s: Key, n: nat)
    ensures ParseUint(s) == Some(n)
       <==> n < 0x1_0000_0000_0000_0000 && exists z: nat :: s == Zeros(z) + Dec(n)
  {
    if s != [] && AllDigits(s) && NumeralValue(s) == n {
      var z := NumeralIsPadded(s, n);
    }
    if z: nat :| s == Zeros(z) + Dec(n) {
      PaddedValue(z, n);
    }
  }

  lemma {:induction false} BeforeColonOf(u: Key, w: Key)
    requires COLON !in u
    ensures BeforeColon(u) == u
    ensures BeforeColon(u + ([COLON] + w)) == u
  {
    if u == [] {
    } else {
      assert (u + ([COLON] + w))[1..] == u[1..] + ([COLON] + w);
      assert COLON !in u[1..];
      BeforeColonOf(u[1..], w);
    }
  }

  // Dropping trailing digits

  function Drop(n: nat, k: nat): nat {
    if k == 0 then n else Drop(n / 10, k - 1)
  }

  lemma {:induction false} DropDigits(n: nat, k: nat)
    requires k < Digits(n)
    ensures Digits(Drop(n, k)) == Digits(n) - k
    ensures n >= 1 ==> Drop(n, k) >= 1
    ensures Drop(n, k) <= n
    ensures Dec(n)[..Digits(n) - k] == Dec(Drop(n, k))
  {
    if k > 0 {
      DropDigits(n / 10, k - 1);
      assert Dec(n)[..Digits(n) - k] == Dec(n / 10)[..Digits(n) - k];
    } else {
      assert Dec(n)[..Digits(n)] == Dec(n);
    }
  }

  lemma {:induction false} DropPow10(d: nat, k: nat)
    requires k <= d
    ensures Drop(Pow10(d), k) == Pow10(d - k)
    ensures Drop(Pow10(d) - 1, k) == Pow10(d - k) - 1
  {
    if k > 0 {
      DropPow10(d - 1, k - 1);
      assert Pow10(d) / 10 == Pow10(d - 1);
      assert (Pow10(d) - 1) / 10 == Pow10(d - 1) - 1;
    }
  }

  lemma {:induction false} Pow10Monotone(a: nat, b: nat)
    requires a <= b
    ensures Pow10(a) <= Pow10(b)
    ensures a < b ==> 10 * Pow10(a) <= Pow10(b)
  {
    if a < b {
      Pow10Monotone(a, b - 1);
    }
  }

  lemma DigitsUnique(n: nat, d: nat)
    requires d >= 1 && Pow10(d - 1) <= n < Pow10(d)
    ensures Digits(n) == d
  {
    DigitsBounds(n);
    if Digits(n) < d {
      Pow10Monotone(Digits(n), d - 1);
    } else if Digits(n) > d {
      Pow10Monotone(d, Digits(n) - 1);
    }
  }

  lemma {:induction false} DigitsMonotone(m: nat, n: nat)
    requires m <= n
    ensures Digits(m) <= Digits(n)
  {
    if n >= 10 {
      DigitsMonotone(m / 10, n / 10);
    }
  }

  lemma DigitsOfPow10(d: nat)
    ensures Digits(Pow10(d)) == d + 1
    ensures d >= 1 ==> Digits(Pow10(d) - 1) == d
  {
    Pow10Monotone(d, d + 1);
    DigitsUnique(Pow10(d), d + 1);
    if d >= 1 {
      Pow10Monotone(d - 1, d);
      DigitsUnique(Pow10(d) - 1, d);
    }
  }

  // Byte order of numerals

  lemma {:induction false} EqualLengthOrder(m: nat, n: nat)
    requires Digits(m) == Digits(n)
    ensures Less(Dec(m), Dec(n)) <==> m < n
  {
    if m >= 10 {
      EqualLengthOrder(m / 10, n / 10);
      LessByHead(Dec(m / 10), [ZERO + m % 10], Dec(n / 10), [ZERO + n % 10]);
      if Dec(m / 10) == Dec(n / 10) {
        DecInjective(m / 10, n / 10);
      }
    }
  }

  /** h is the number the first d digits of r denote. */
  ghost predicate Leads(h: nat, d: nat, r: nat) {
    d <= Digits(r) && Digits(h) == d && Dec(r)[..d] == Dec(h)
  }

  lemma LeadingNumeral(r: nat, d: nat, k: nat, h: nat)
    requires d >= 1 && d + k == Digits(r) && h == Drop(r, k)
    ensures Leads(h, d, r)
  {
    DropDigits(r, k);
  }

  lemma LongerThan(n: nat, tail: Key, r: nat, h: nat)
    requires Leads(h, Digits(r), n)
    ensures Less(Dec(n) + tail, Dec(r)) <==> h < r
  {
    LessLonger(Dec(n), tail, Dec(r));
    EqualLengthOrder(h, r);
  }

  /** Comparing a numeral, followed by anything, with a numeral no longer than it. */
  lemma LongerOrder(n: nat, tail: Key, r: nat)
    requires Digits(n) >= Digits(r)
    ensures Less(Dec(n) + tail, Dec(r)) <==> Drop(n, Digits(n) - Digits(r)) < r
  {
    var k := Digits(n) - Digits(r);
    var h := Drop(n, k);
    LeadingNumeral(n, Digits(r), k, h);
    LongerThan(n, tail, r, h);
  }

  lemma ShorterThan(n: nat, r: nat, h: nat)
    requires Digits(n) < Digits(r) && Leads(h, Digits(n), r)
    ensures Less(Dec(n), Dec(r)) <==> n <= h
  {
    LessShorter(Dec(n), Dec(r));
    EqualLengthOrder(n, h);
    if Dec(n) == Dec(h) { DecInjective(n, h); }
  }

  /** Comparing a numeral with a longer one. */
  lemma ShorterOrder(n: nat, r: nat)
    requires Digits(n) < Digits(r)
    ensures Less(Dec(n), Dec(r)) <==> n <= Drop(r, Digits(r) - Digits(n))
  {
    var k := Digits(r) - Digits(n);
    var h := Drop(r, k);
    LeadingNumeral(r, Digits(n), k, h);
    ShorterThan(n, r, h);
  }

  lemma ShorterThanColon(n: nat, tail: Key, r: nat, h: nat)
    requires Digits(n) < Digits(r) && Leads(h, Digits(n), r)
    ensures Less(Dec(n) + ([COLON] + tail), Dec(r)) <==> n < h
  {
    LessShorterAbove(Dec(n), [COLON] + tail, Dec(r));
    EqualLengthOrder(n, h);
  }

  /** Comparing a numeral followed by ':' with a longer one: ':' sorts above every digit. */
  lemma ShorterOrderColon(n: nat, tail: Key, r: nat)
    requires Digits(n) < Digits(r)
    ensures Less(Dec(n) + ([COLON] + tail), Dec(r)) <==> n < Drop(r, Digits(r) - Digits(n))
  {
    var k := Digits(r) - Digits(n);
    var h := Drop(r, k);
    LeadingNumeral(r, Digits(n), k, h);
    ShorterThanColon(n, tail, r, h);
  }

  /** Zero padding never takes effect on a number that already has the width. */
  lemma PaddingIsIdle(width: nat, n: nat)
    requires width >= 1 && n >= Pow10(width - 1)
    ensures PaddedDec(width, n) == Dec(n)
  {
    DigitsOfPow10(width - 1);
    DigitsMonotone(Pow10(width - 1), n);
  }
}

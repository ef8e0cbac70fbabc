// Natural numbers in 64-bit floating point, through which the bounds of the scans are
// computed: rounding to 53 significant bits, and the conversion back to uint64.

module Floats {
  import opened Decimal

  /** 2^53: up to here every natural number is a float64. */
  const MAX_EXACT: nat := 0x20_0000_0000_0000

  /** What uint64(f) yields when f does not fit; the language leaves it to the platform. */
  const UNREPRESENTABLE: nat

  /** Rounds n to 53 significant bits, to the even one of two equally near numbers. Of
      the bits already dropped, `half` is the highest and `rest` tells of the lower ones. */
  function Rounded(n: nat, half: bool, rest: bool): (f: nat)
    ensures n < MAX_EXACT ==> n <= f <= n + 1
    ensures n >= MAX_EXACT ==> f >= MAX_EXACT
    ensures n >= MAX_EXACT + 2 ==> f >= MAX_EXACT + 2
    ensures n >= MAX_EXACT ==> f % 2 == 0
    ensures MAX_EXACT <= n < 2 * MAX_EXACT && n % 2 == 0 && !half && !rest ==> f == n
  {
    if n >= MAX_EXACT then 2 * Rounded(n / 2, n % 2 == 1, half || rest)
    else if half && (rest || n % 2 == 1) then n + 1
    else n
  }

  /** float64(n) */
  function Float64(n: nat): (f: nat)
    ensures n <= MAX_EXACT ==> f == n
    ensures n >= MAX_EXACT ==> f >= MAX_EXACT
    ensures n >= MAX_EXACT + 2 ==> f >= MAX_EXACT + 2
    ensures n >= MAX_EXACT ==> f % 2 == 0
    ensures n < 2 * MAX_EXACT && n % 2 == 0 ==> f == n
  {
    Rounded(n, false, false)
  }

  ghost predicate IsPowerOfTwo(q: nat) {
    q == 1 || (q >= 2 && q % 2 == 0 && IsPowerOfTwo(q / 2))
  }

  /** m * q is a float64 next to n: none is nearer, and of two equally near ones m is even. */
  ghost predicate Nearest(n: nat, m: nat, q: nat) {
    && m <= MAX_EXACT && (q > 1 ==> m >= MAX_EXACT / 2)
    && var error := if m * q <= n then n - m * q else m * q - n;
       2 * error < q || (2 * error == q && m % 2 == 0)
  }

  /** n is what is left of `all` after dividing by p, r is the remainder, and half and rest tell of r. */
  ghost predicate Divided(n: nat, half: bool, rest: bool, all: nat, p: nat, r: nat) {
    && all == n * p + r && r < p
    && (half <==> 2 * r >= p) && (half && rest <==> 2 * r > p) && (half || rest <==> r > 0)
  }

  lemma DividedOnce(n: nat, half: bool, rest: bool, all: nat, p: nat, r: nat)
    requires Divided(n, half, rest, all, p, r)
    ensures Divided(n / 2, n % 2 == 1, half || rest, all, 2 * p, if n % 2 == 1 then p + r else r)
  {
    var h := n / 2;
    if n % 2 == 1 {
      assert n * p == (2 * h + 1) * p == h * (2 * p) + p;
    } else {
      assert n * p == (2 * h) * p == h * (2 * p);
    }
  }

  lemma LastRounding(n: nat, half: bool, rest: bool, all: nat, p: nat, r: nat)
    requires n < MAX_EXACT && Divided(n, half, rest, all, p, r) && (p > 1 ==> n >= MAX_EXACT / 2)
    ensures Nearest(all, Rounded(n, half, rest), p)
  {
    assert (n + 1) * p == n * p + p;
  }

  /** f * p is m * q, a power of two times the nearest float64 to `all`. */
  ghost predicate RoundsTo(f: nat, p: nat, all: nat, m: nat, q: nat) {
    IsPowerOfTwo(q) && f * p == m * q && Nearest(all, m, q)
  }

  lemma RoundsToDoubled(f: nat, p: nat, p2: nat, all: nat, m: nat, q: nat)
    requires RoundsTo(f, p2, all, m, q) && p2 == 2 * p
    ensures RoundsTo(2 * f, p, all, m, q)
  {
    assert f * (2 * p) == (2 * f) * p;
  }

  lemma DoublePower(p: nat)
    requires IsPowerOfTwo(p)
    ensures IsPowerOfTwo(2 * p)
  {
    assert (2 * p) / 2 == p;
  }

  lemma {:induction false} RoundedIsNearest(n: nat, half: bool, rest: bool, all: nat, p: nat, r: nat)
    returns (m: nat, q: nat)
    requires IsPowerOfTwo(p) && Divided(n, half, rest, all, p, r) && (p > 1 ==> n >= MAX_EXACT / 2)
    ensures RoundsTo(Rounded(n, half, rest), p, all, m, q)
  {
    if n >= MAX_EXACT {
      var p2, r2 := 2 * p, if n % 2 == 1 then p + r else r;
      DividedOnce(n, half, rest, all, p, r);
      DoublePower(p);
      m, q := RoundedIsNearest(n / 2, n % 2 == 1, half || rest, all, p2, r2);
      RoundsToDoubled(Rounded(n / 2, n % 2 == 1, half || rest), p, p2, all, m, q);
    } else {
      m, q := Rounded(n, half, rest), p;
      LastRounding(n, half, rest, all, p, r);
    }
  }

  /** float64(n) is the nearest number with 53 significant bits, the even one if two are. */
  lemma Float64IsNearest(n: nat) returns (m: nat, q: nat)
    ensures IsPowerOfTwo(q) && Float64(n) == m * q && Nearest(n, m, q)
  {
    m, q := RoundedIsNearest(n, false, false, n, 1, 0);
  }

  /** uint64(f) of an integral f */
  function ToUint64(f: nat): nat {
    if f <= MAX_UINT64 then f else UNREPRESENTABLE
  }
}

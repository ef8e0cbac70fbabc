// The order-preserving integer code of the Sei stores: an n-byte code starts with
// n one bits and a zero bit, and holds the number in the remaining 7n-1 bits.
// Negative numbers have the complemented code of their bitwise complement.

module OrderedCode {
  import opened Wrappers
  import opened Bytes

  function Pow256(n: nat): nat {
    if n == 0 then 1 else 256 * Pow256(n - 1)
  }

  /** 2^(7n-1): the numbers an n-byte code can hold. */
  function Limit(n: nat): nat
    requires n >= 1
  {
    if n == 1 then 64 else 128 * Limit(n - 1)
  }

  /** n one bits followed by zeros, as an n-byte number. */
  function Header(n: nat): int
    requires n >= 1
  {
    Pow256(n) - 2 * Limit(n)
  }

  /** The number of bytes of the code of x. */
  function Size(x: nat): (n: nat)
    ensures n >= 1
  {
    if x < 64 then 1 else 1 + Size(x / 128)
  }

  function BigEndian(n: nat, v: nat): (s: Key)
    ensures |s| == n
  {
    if n == 0 then [] else BigEndian(n - 1, v / 256) + [v % 256]
  }

  function Value(s: Key): nat {
    if s == [] then 0 else 256 * Value(s[..|s| - 1]) + s[|s| - 1]
  }

  lemma {:induction false} HeaderPositive(n: nat)
    requires n >= 1
    ensures 0 < Header(n) && Header(n) + Limit(n) < Pow256(n)
  {
    if n > 1 {
      HeaderPositive(n - 1);
    } else {
      assert Pow256(1) == 256 * Pow256(0) == 256;
    }
  }

  function EncodeNat(x: nat): (s: Key)
    ensures |s| == Size(x)
  {
    HeaderPositive(Size(x));
    BigEndian(Size(x), Header(Size(x)) + x)
  }

  function Complement(s: Key): Key {
    seq(|s|, i requires 0 <= i < |s| => 255 - s[i])
  }

  /** orderedcode.Append(nil, x). */
  function Encode(x: int): Key {
    if x >= 0 then EncodeNat(x) else Complement(EncodeNat(-1 - x))
  }

  /** The code that starts at s and takes at least n bytes. */
  function ParseNat(s: Key, n: nat): Option<(nat, Key)>
    requires n >= 1
    decreases 11 - n
  {
    if n > 10 || |s| < n then None
    else if Header(n) <= Value(s[..n]) < Header(n) + Limit(n) then
      Some((Value(s[..n]) - Header(n), s[n..]))
    else ParseNat(s, n + 1)
  }

  /** orderedcode.Parse(s, &number): the number and what follows its code. */
  function Parse(s: Key): Option<(int, Key)> {
    if s == [] then None
    else if s[0] >= 128 then
      match ParseNat(s, 1)
      case Some((x, rest)) => Some((x, rest))
      case None => None
    else
      match ParseNat(Complement(s), 1)
      case Some((x, rest)) => Some((-1 - x, s[|s| - |rest|..]))
      case None => None
  }

  lemma {:induction false} SizeFits(x: nat)
    ensures x < Limit(Size(x))
    ensures Size(x) > 1 ==> x >= Limit(Size(x) - 1)
  {
    if x >= 64 {
      SizeFits(x / 128);
    }
  }

  lemma {:induction false} SizeMonotone(x: nat, y: nat)
    requires x <= y
    ensures Size(x) <= Size(y)
  {
    if x >= 64 {
      SizeMonotone(x / 128, y / 128);
    }
  }

  lemma {:induction false} BigEndianOrder(n: nat, v: nat, w: nat)
    requires v < w < Pow256(n)
    ensures Less(BigEndian(n, v), BigEndian(n, w))
  {
    if v / 256 < w / 256 {
      BigEndianOrder(n - 1, v / 256, w / 256);
    }
    LessByHead(BigEndian(n - 1, v / 256), [v % 256], BigEndian(n - 1, w / 256), [w % 256]);
  }

  lemma {:induction false} ValueOfBigEndian(n: nat, v: nat)
    requires v < Pow256(n)
    ensures Value(BigEndian(n, v)) == v
  {
    if n > 0 {
      ValueOfBigEndian(n - 1, v / 256);
      assert BigEndian(n, v)[..n - 1] == BigEndian(n - 1, v / 256);
    }
  }

  /** Shorter heads of a code of n bytes: numbers with more one bits than a header of their size. */
  lemma {:induction false} HeadOfCode(n: nat, v: nat, m: nat) returns (w: nat)
    requires 1 <= m < n && Header(n) <= v < Pow256(n)
    ensures BigEndian(n, v)[..m] == BigEndian(m, w)
    ensures Header(m) + Limit(m) <= w < Pow256(m)
  {
    assert BigEndian(n, v)[..n - 1] == BigEndian(n - 1, v / 256);
    assert v / 256 >= Pow256(n - 1) - Limit(n - 1);
    if m == n - 1 {
      w := v / 256;
    } else {
      w := HeadOfCode(n - 1, v / 256, m);
      assert BigEndian(n, v)[..m] == BigEndian(n - 1, v / 256)[..m];
    }
  }

  lemma CodeValue(x: nat) returns (v: nat)
    ensures v == Header(Size(x)) + x
    ensures EncodeNat(x) == BigEndian(Size(x), v)
    ensures Header(Size(x)) <= v < Header(Size(x)) + Limit(Size(x)) < Pow256(Size(x))
  {
    HeaderPositive(Size(x));
    SizeFits(x);
    v := Header(Size(x)) + x;
  }

  /** The order of two codes is decided within the length of the shorter one. */
  lemma CodeOrder(x: nat, y: nat)
    requires x < y
    ensures |EncodeNat(x)| <= |EncodeNat(y)|
    ensures Less(EncodeNat(x), EncodeNat(y)[..|EncodeNat(x)|])
  {
    var m, n := Size(x), Size(y);
    SizeMonotone(x, y);
    var v := CodeValue(x);
    var w := CodeValue(y);
    if m == n {
      BigEndianOrder(n, v, w);
      assert EncodeNat(y)[..m] == EncodeNat(y);
    } else {
      w := HeadOfCode(n, w, m);
      BigEndianOrder(m, v, w);
    }
  }

  /** The code preserves order. */
  lemma EncodingPreservesOrder(x: nat, y: nat)
    requires x < y
    ensures Less(EncodeNat(x), EncodeNat(y))
  {
    CodeOrder(x, y);
    if |EncodeNat(x)| < |EncodeNat(y)| {
      LessShorter(EncodeNat(x), EncodeNat(y));
    } else {
      assert EncodeNat(y)[..|EncodeNat(x)|] == EncodeNat(y);
    }
  }

  /** With anything appended on the left, the order against a code still is that of the numbers. */
  lemma CodeAgainstCode(x: nat, tail: Key, y: nat)
    ensures Less(EncodeNat(x) + tail, EncodeNat(y)) <==> x < y
  {
    var a, b := EncodeNat(x), EncodeNat(y);
    if x < y {
      CodeOrder(x, y);
      LessByHead(a, tail, b[..|a|], b[|a|..]);
      assert b == b[..|a|] + b[|a|..];
    } else {
      if y < x { CodeOrder(y, x); LessAsymmetric(b, a[..|b|]); }
      LessLonger(a, tail, b);
      LessIrreflexive(b);
      if x == y { assert a[..|b|] == b; }
    }
  }

  lemma {:induction false} ParseSkips(x: nat, tail: Key, k: nat)
    requires 1 <= k <= Size(x) <= 10
    ensures ParseNat(EncodeNat(x) + tail, k) == Some((x, tail))
    decreases Size(x) - k
  {
    var n := Size(x);
    var s := EncodeNat(x) + tail;
    var v := CodeValue(x);
    assert s[..k] == EncodeNat(x)[..k];
    if k < n {
      var w := HeadOfCode(n, v, k);
      ValueOfBigEndian(k, w);
      ParseSkips(x, tail, k + 1);
    } else {
      ValueOfBigEndian(n, v);
      assert s[..n] == EncodeNat(x) && s[n..] == tail;
    }
  }

  lemma {:induction false} SizeOfInt64(x: nat)
    requires x < 0x8000_0000_0000_0000
    ensures Size(x) <= 10
  {
    SizeMonotone(x, 0x7FFF_FFFF_FFFF_FFFF);
    assert Size(0x7FFF_FFFF_FFFF_FFFF) == 10;
  }

  lemma FirstByteIsHigh(x: nat)
    ensures EncodeNat(x)[0] >= 128
    ensures x < 64 ==> EncodeNat(x) == [128 + x]
  {
    assert EncodeNat(0) == [128] by { assert Pow256(1) == 256 && BigEndian(0, 0) == []; }
    if x > 0 {
      CodeOrder(0, x);
      assert EncodeNat(x)[..1] == [EncodeNat(x)[0]];
    }
    if x < 64 {
      assert BigEndian(1, 128 + x) == BigEndian(0, 0) + [128 + x];
    }
  }

  /** The code is self-delimiting: parsing returns the number and exactly what follows. */
  lemma ParseEncoded(x: nat, tail: Key)
    requires x < 0x8000_0000_0000_0000
    ensures Parse(EncodeNat(x) + tail) == Some((x as int, tail))
  {
    SizeOfInt64(x);
    ParseSkips(x, tail, 1);
    FirstByteIsHigh(x);
  }

  /** A number takes a single byte exactly from -64 to 63. */
  lemma OneByteIff(x: int)
    ensures |Encode(x)| == 1 <==> -64 <= x < 64
  {
  }

  // Negative numbers

  lemma ComplementTwice(s: Key)
    ensures Complement(Complement(s)) == s
  {
  }

  lemma ComplementAppend(a: Key, b: Key)
    ensures Complement(a + b) == Complement(a) + Complement(b)
  {
  }

  lemma {:induction false} ComplementFlips(a: Key, b: Key)
    requires |a| == |b| && Less(a, b)
    ensures Less(Complement(b), Complement(a))
  {
    if a[0] == b[0] {
      ComplementFlips(a[1..], b[1..]);
      assert Complement(a)[1..] == Complement(a[1..]) && Complement(b)[1..] == Complement(b[1..]);
    }
  }

  /** The sign is the first bit. */
  lemma SignBit(x: int)
    ensures |Encode(x)| >= 1
    ensures Encode(x)[0] >= 128 <==> x >= 0
  {
    FirstByteIsHigh(if x >= 0 then x else -1 - x);
  }

  lemma NegativeCodeOrder(x: int, s: Key, y: int, u: Key)
    requires x < y < 0
    ensures Less(Encode(x) + s, Encode(y) + u)
  {
    var a, b := EncodeNat(-1 - y), EncodeNat(-1 - x);
    CodeOrder(-1 - y, -1 - x);
    var head, rest := b[..|a|], b[|a|..];
    assert b == head + rest;
    ComplementAppend(head, rest);
    ComplementFlips(a, head);
    LessByHead(Complement(head), Complement(rest) + s, Complement(a), u);
    assert Complement(b) + s == Complement(head) + (Complement(rest) + s);
  }

  lemma NaturalCodeOrder(x: nat, s: Key, y: nat, u: Key)
    requires x < y
    ensures Less(EncodeNat(x) + s, EncodeNat(y) + u)
  {
    CodeOrder(x, y);
    var a, b := EncodeNat(x), EncodeNat(y);
    LessByHead(a, s, b[..|a|], b[|a|..] + u);
    assert b + u == b[..|a|] + (b[|a|..] + u);
  }

  lemma HeadsDecide(a: Key, s: Key, b: Key, u: Key)
    requires a != [] && b != [] && a[0] < b[0]
    ensures Less(a + s, b + u)
  {
    assert (a + s)[0] == a[0] && (b + u)[0] == b[0];
  }

  lemma SmallerCodeFirst(x: int, s: Key, y: int, u: Key)
    requires x < y
    ensures Less(Encode(x) + s, Encode(y) + u)
  {
    SignBit(x);
    SignBit(y);
    if y < 0 {
      NegativeCodeOrder(x, s, y, u);
    } else if x >= 0 {
      NaturalCodeOrder(x, s, y, u);
    } else {
      HeadsDecide(Encode(x), s, Encode(y), u);
    }
  }

  /** Whatever follows them, two codes are ordered as their numbers are, signs included,
      and the order of two equal numbers is that of what follows. */
  lemma CodesOrderedAsNumbers(x: int, s: Key, y: int, u: Key)
    ensures Less(Encode(x) + s, Encode(y) + u) <==> x < y || (x == y && Less(s, u))
  {
    if x < y {
      SmallerCodeFirst(x, s, y, u);
    } else if y < x {
      SmallerCodeFirst(y, u, x, s);
      LessAsymmetric(Encode(y) + u, Encode(x) + s);
    } else {
      LessUnderPrefix(Encode(x), s, u);
    }
  }

  /** The code of every 64-bit number, negative or not, parses back, with exactly what follows it. */
  lemma ParseEncodedInt(x: int, tail: Key)
    requires -0x8000_0000_0000_0000 <= x < 0x8000_0000_0000_0000
    ensures Parse(Encode(x) + tail) == Some((x, tail))
  {
    SignBit(x);
    if x >= 0 {
      ParseEncoded(x, tail);
    } else {
      var a := EncodeNat(-1 - x);
      SizeOfInt64(-1 - x);
      ComplementAppend(Complement(a), tail);
      ComplementTwice(a);
      ParseSkips(-1 - x, Complement(tail), 1);
      assert (Encode(x) + tail)[|a|..] == tail;
    }
  }

  lemma {:induction false} CutCodeSkips(x: nat, m: nat, k: nat)
    requires m < Size(x) && 1 <= k <= m + 1
    ensures ParseNat(EncodeNat(x)[..m], k) == None
    decreases m + 1 - k
  {
    var s := EncodeNat(x)[..m];
    if k <= m {
      var v := CodeValue(x);
      var w := HeadOfCode(Size(x), v, k);
      assert s[..k] == EncodeNat(x)[..k];
      ValueOfBigEndian(k, w);
      CutCodeSkips(x, m, k + 1);
    }
  }

  /** A code that breaks off does not parse. */
  lemma CutCodeDoesNotParse(x: int, m: nat)
    requires m < |Encode(x)|
    ensures Parse(Encode(x)[..m]) == None
  {
    SignBit(x);
    if x >= 0 {
      CutCodeSkips(x, m, 1);
    } else {
      CutCodeSkips(-1 - x, m, 1);
      var a := EncodeNat(-1 - x);
      assert Complement(Complement(a)[..m]) == a[..m];
    }
  }
}

// Byte strings, their lexicographic order, and ordered enumeration of finite sets of them.
// This is the order in which the database engines keep their keys.

module Wrappers {
  datatype Option<+T> = None | Some(value: T)
}

module Bytes {
  type Byte = x: int | 0 <= x < 256

  type Key = seq<Byte>

  /** Lexicographic order; a proper prefix comes first. */
  predicate Less(a: Key, b: Key) {
    b != [] && (a == [] || a[0] < b[0] || (a[0] == b[0] && Less(a[1..], b[1..])))
  }

  lemma {:induction false} LessIrreflexive(a: Key)
    ensures !Less(a, a)
  {
    if a != [] {
      LessIrreflexive(a[1..]);
    }
  }

  lemma {:induction false} LessTransitive(a: Key, b: Key, c: Key)
    requires Less(a, b) && Less(b, c)
    ensures Less(a, c)
  {
    if a != [] && a[0] == b[0] == c[0] {
      LessTransitive(a[1..], b[1..], c[1..]);
    }
  }

  lemma {:induction false} LessTotal(a: Key, b: Key)
    ensures Less(a, b) || a == b || Less(b, a)
  {
    if a != [] && b != [] && a[0] == b[0] {
      LessTotal(a[1..], b[1..]);
      assert a == [a[0]] + a[1..] && b == [b[0]] + b[1..];
    }
  }

  lemma LessAsymmetric(a: Key, b: Key)
    requires Less(a, b)
    ensures !Less(b, a)
  {
    if Less(b, a) {
      LessTransitive(a, b, a);
      LessIrreflexive(a);
    }
  }

  lemma {:induction false} LessUnderPrefix(p: Key, x: Key, y: Key)
    ensures Less(p + x, p + y) <==> Less(x, y)
  {
    if p == [] {
      assert p + x == x && p + y == y;
    } else {
      assert (p + x)[1..] == p[1..] + x && (p + y)[1..] == p[1..] + y;
      LessUnderPrefix(p[1..], x, y);
    }
  }

  /** Strings of equal length decide a comparison, whatever follows them. */
  lemma {:induction false} LessByHead(x: Key, u: Key, y: Key, v: Key)
    requires |x| == |y|
    ensures Less(x + u, y + v) <==> Less(x, y) || (x == y && Less(u, v))
  {
    if x == [] {
      assert x + u == u && y + v == v;
    } else {
      assert (x + u)[1..] == x[1..] + u && (y + v)[1..] == y[1..] + v;
      LessByHead(x[1..], u, y[1..], v);
      assert x == [x[0]] + x[1..] && y == [y[0]] + y[1..];
      if x[0] == y[0] {
        LessIrreflexive(x);
      }
    }
  }

  /** A string against one no longer than its head. */
  lemma LessLonger(s: Key, tail: Key, y: Key)
    requires |s| >= |y|
    ensures Less(s + tail, y) <==> Less(s[..|y|], y)
  {
    var x, u := s[..|y|], s[|y|..] + tail;
    assert s + tail == x + u;
    assert y == y + [];
    LessByHead(x, u, y, []);
  }

  /** A string against a longer one. */
  lemma LessShorter(x: Key, y: Key)
    requires |x| < |y|
    ensures Less(x, y) <==> Less(x, y[..|x|]) || x == y[..|x|]
  {
    LessByHead(x, [], y[..|x|], y[|x|..]);
    assert x + [] == x && y[..|x|] + y[|x|..] == y;
  }

  /** A string followed by a byte above the one at that place of a longer string. */
  lemma LessShorterAbove(x: Key, u: Key, y: Key)
    requires |x| < |y| && u != [] && u[0] > y[|x|]
    ensures Less(x + u, y) <==> Less(x, y[..|x|])
  {
    LessByHead(x, u, y[..|x|], y[|x|..]);
    assert y[..|x|] + y[|x|..] == y;
  }

  /** A key between two keys with a common prefix has that prefix. */
  lemma {:induction false} BetweenSharesPrefix(p: Key, x: Key, y: Key, k: Key)
    requires !Less(k, p + x) && Less(k, p + y)
    ensures p <= k
  {
    if p != [] {
      assert (p + x)[1..] == p[1..] + x && (p + y)[1..] == p[1..] + y;
      assert k != [] && k[0] == p[0];
      BetweenSharesPrefix(p[1..], x, y, k[1..]);
      assert k == [k[0]] + k[1..] && p == [p[0]] + p[1..];
    }
  }

  /** The half-open interval an iterator over [lo, hi) visits. */
  predicate Within(lo: Key, k: Key, hi: Key) {
    !Less(k, lo) && Less(k, hi)
  }

  predicate StrictlySorted(s: seq<Key>) {
    forall i, j :: 0 <= i < j < |s| ==> Less(s[i], s[j])
  }

  function Elements(s: seq<Key>): set<Key> {
    set k | k in s
  }

  predicate IsLeast(k: Key, s: set<Key>) {
    k in s && forall x :: x in s && x != k ==> Less(k, x)
  }

  lemma {:induction false} LeastExists(s: set<Key>)
    requires s != {}
    ensures exists k :: IsLeast(k, s)
  {
    var x :| x in s;
    if s == {x} {
      assert IsLeast(x, s);
    } else {
      LeastExists(s - {x});
      var m :| IsLeast(m, s - {x});
      LessTotal(m, x);
      if Less(m, x) {
        assert IsLeast(m, s);
      } else {
        forall y | y in s && y != x
          ensures Less(x, y)
        {
          if y != m { LessTransitive(x, m, y); }
        }
        assert IsLeast(x, s);
      }
    }
  }

  lemma LeastUnique(s: set<Key>, a: Key, b: Key)
    requires IsLeast(a, s) && IsLeast(b, s)
    ensures a == b
  {
    if a != b {
      LessAsymmetric(a, b);
    }
  }

  function Least(s: set<Key>): (k: Key)
    requires s != {}
    ensures IsLeast(k, s)
  {
    LeastExists(s);
    assert forall a, b :: IsLeast(a, s) && IsLeast(b, s) ==> a == b by {
      forall a, b | IsLeast(a, s) && IsLeast(b, s)
        ensures a == b
      {
        LeastUnique(s, a, b);
      }
    }
    var k :| k in s && IsLeast(k, s);
    k
  }

  /** The elements of a finite set in ascending order. */
  function SortedKeys(s: set<Key>): seq<Key> {
    if s == {} then [] else [Least(s)] + SortedKeys(s - {Least(s)})
  }

  lemma {:induction false} SortedKeysProperties(s: set<Key>)
    ensures StrictlySorted(SortedKeys(s))
    ensures Elements(SortedKeys(s)) == s
    ensures |SortedKeys(s)| == |s|
  {
    if s != {} {
      var k := Least(s);
      var rest := SortedKeys(s - {k});
      SortedKeysProperties(s - {k});
      var r := [k] + rest;
      forall i, j | 0 <= i < j < |r|
        ensures Less(r[i], r[j])
      {
        assert r[j] in Elements(rest);
      }
      forall x
        ensures x in r <==> x in s
      {
        assert x in r <==> x == k || x in Elements(rest);
      }
    }
  }

  lemma NonemptyElements(b: seq<Key>)
    requires b != []
    ensures Elements(b) != {}
  {
    assert b[0] in Elements(b);
  }

  lemma TailElements(a: seq<Key>)
    requires a != [] && StrictlySorted(a)
    ensures Elements(a[1..]) == Elements(a) - {a[0]}
  {
    forall i | 1 <= i < |a|
      ensures a[i] != a[0]
    {
      LessIrreflexive(a[0]);
    }
    forall k | k in Elements(a) && k != a[0]
      ensures k in a[1..]
    {
      var i :| 0 <= i < |a| && a[i] == k;
      assert a[1..][i - 1] == k;
    }
  }

  /** Ascending enumerations of the same set are equal. */
  lemma {:induction false} SortedUnique(a: seq<Key>, b: seq<Key>)
    requires StrictlySorted(a) && StrictlySorted(b)
    requires Elements(a) == Elements(b)
    ensures a == b
  {
    if a == [] {
      if b != [] { NonemptyElements(b); }
    } else {
      assert a[0] in Elements(a);
      assert b != [];
      assert b[0] in Elements(b);
      if a[0] != b[0] {
        var i :| 0 <= i < |b| && b[i] == a[0];
        var j :| 0 <= j < |a| && a[j] == b[0];
        assert Less(b[0], b[i]) && Less(a[0], a[j]);
        LessAsymmetric(a[0], b[0]);
      }
      TailElements(a);
      TailElements(b);
      SortedUnique(a[1..], b[1..]);
      assert a == [a[0]] + a[1..] && b == [b[0]] + b[1..];
    }
  }
}

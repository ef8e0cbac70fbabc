// cmd/sei.go: pruning a Sei node, whose keys are ordered codes (prefix, height)
// or, for block parts, (prefix, height, part).

module SeiStores {
  import opened Wrappers
  import opened Bytes
  import opened Databases
  import opened OrderedCode
  import opened Decimal
  import HeightRanges
  import BlockStores

  const BLOCK_PART_BYTE: Byte := 0x81

  datatype Outcome = Pruned(count: nat) | UnsupportedKey | LeftoverMaterial

  function BoundKey(key: int, height: int): Key {
    Encode(key) + Encode(height)
  }

  /** The parsed height of a scanned key; its first byte is taken to be the prefix. */
  function ParsedTail(k: Key): Option<(int, Key)> {
    if k == [] then None else Parse(k[1..])
  }

  /** A key on which deleteSeiRange gives up. */
  predicate Puzzling(k: Key) {
    ParsedTail(k).Some? && ParsedTail(k).value.1 != [] && k[0] != BLOCK_PART_BYTE
  }

  predicate InSeiRange(key: int, start: int, end: int, k: Key) {
    Within(BoundKey(key, start), k, BoundKey(key, end))
  }

  predicate SeiPrunable(end: int, k: Key) {
    ParsedTail(k).Some? && ParsedTail(k).value.0 <= end
  }

  function SeiDeleted(keys: set<Key>, key: int, start: int, end: int): set<Key> {
    set k | k in keys && InSeiRange(key, start, end, k) && SeiPrunable(end, k)
  }

  function PrunableIn(keys: seq<Key>, end: int): set<Key> {
    set k | k in keys && SeiPrunable(end, k)
  }

  /** The batch deletes the prunable keys seen so far, and count is their number. */
  ghost predicate SeiCollected<V>(data: map<Key, V>, batch: seq<BatchOp<V>>, count: nat, seen: seq<Key>, end: int) {
    Apply(data, batch) == data - PrunableIn(seen, end) && count == |PrunableIn(seen, end)|
  }

  lemma OneMorePrunable(seen: seq<Key>, k: Key, end: int)
    ensures PrunableIn(seen + [k], end)
         == if SeiPrunable(end, k) then PrunableIn(seen, end) + {k} else PrunableIn(seen, end)
  {
  }

  lemma SeiStep<V>(keys: seq<Key>, i: nat, end: int, data: map<Key, V>, batch: seq<BatchOp<V>>, count: nat)
    requires StrictlySorted(keys) && i < |keys|
    requires SeiCollected(data, batch, count, keys[..i], end)
    ensures SeiPrunable(end, keys[i]) ==>
              SeiCollected(data, batch + [BatchOp.Delete(keys[i])], count + 1, keys[..i + 1], end)
    ensures !SeiPrunable(end, keys[i]) ==> SeiCollected(data, batch, count, keys[..i + 1], end)
  {
    var k := keys[i];
    HeightRanges.NextKeyIsNew(keys, i);
    OneMorePrunable(keys[..i], k, end);
    assert keys[..i + 1] == keys[..i] + [k];
    if SeiPrunable(end, k) {
      ApplyAppend(data, batch, BatchOp.Delete(k));
      HeightRanges.RemovingOneMore(data, PrunableIn(keys[..i], end), k);
    }
  }

  /** The scan of deleteSeiRange: stops at a puzzling key, otherwise collects the prunable ones. */
  method CollectSei<V>(keys: seq<Key>, end: int, ghost data: map<Key, V>)
    returns (stuck: bool, batch: seq<BatchOp<V>>, count: nat)
    requires StrictlySorted(keys)
    requires [] !in keys
    ensures stuck <==> exists k :: k in keys && Puzzling(k)
    ensures !stuck ==> SeiCollected(data, batch, count, keys, end)
  {
    stuck, batch, count := false, [], 0;
    var i := 0;
    while i < |keys|
      invariant 0 <= i <= |keys|
      invariant forall k :: k in keys[..i] ==> !Puzzling(k)
      invariant SeiCollected(data, batch, count, keys[..i], end)
    {
      var k := keys[i];
      assert k in keys;
      assert keys[..i + 1] == keys[..i] + [k];
      SeiStep(keys, i, end, data, batch, count);
      var parsed := Parse(k[1..]);
      if parsed.Some? {
        var (number, remain) := parsed.value;
        if remain != [] && k[0] != BLOCK_PART_BYTE {
          return true, batch, count;
        }
        if number <= end {
          count := count + 1;
          batch := batch + [BatchOp.Delete(k)];
        }
      }
      i := i + 1;
    }
    assert keys[..i] == keys;
  }

  lemma EncodeNonempty(x: int)
    ensures |Encode(x)| >= 1
  {
  }

  lemma ScannedKeys(all: set<Key>, keys: seq<Key>, key: int, start: int, end: int)
    requires Elements(keys) == InRange(all, BoundKey(key, start), BoundKey(key, end))
    ensures [] !in keys
    ensures forall k :: k in keys <==> k in all && InSeiRange(key, start, end, k)
    ensures PrunableIn(keys, end) == SeiDeleted(all, key, start, end)
  {
    assert forall k :: k in keys <==> k in Elements(keys);
    EncodeNonempty(key);
  }

  /** cmd/sei.go deleteSeiRange. */
  method DeleteSeiRange<V>(db: Database<V>, key: int, startHeight: int, endHeight: int) returns (r: Outcome)
    modifies db
    ensures r == UnsupportedKey <==> key < -64 || key > 64
    ensures r == LeftoverMaterial <==>
              && r != UnsupportedKey
              && exists k :: k in old(db.data) && InSeiRange(key, startHeight, endHeight, k) && Puzzling(k)
    ensures !r.Pruned? ==> db.data == old(db.data)
    ensures r.Pruned? ==>
              && db.data == old(db.data) - SeiDeleted(old(db.data).Keys, key, startHeight, endHeight)
              && r.count == |old(db.data)| - |db.data|
  {
    if key < -64 || key > 64 {
      return UnsupportedKey;
    }
    var startKey, endKey := BoundKey(key, startHeight), BoundKey(key, endHeight);
    var keys := db.Iterator(startKey, endKey);
    ScannedKeys(db.data.Keys, keys, key, startHeight, endHeight);
    var stuck, batch, count := CollectSei(keys, endHeight, db.data);
    if stuck {
      return LeftoverMaterial;
    }
    HeightRanges.RemovingKeys(db.data, PrunableIn(keys, endHeight));
    db.Write(batch);
    return Pruned(count);
  }

  // Well-formed contents

  function SeiKey(key: nat, height: nat): Key {
    EncodeNat(key) + EncodeNat(height)
  }

  function SeiPartKey(height: nat, part: nat): Key {
    SeiKey(1, height) + EncodeNat(part)
  }

  /** k is the key of a height under one of the one-byte prefixes. */
  ghost predicate IsSeiKey(key: nat, height: nat, k: Key) {
    && height <= MAX_INT64
    && (k == SeiKey(key, height) || (key == 1 && exists part: nat :: k == SeiPartKey(height, part)))
  }

  /** Every key that starts with the prefix is the key of a height. */
  ghost predicate WellFormed(keys: set<Key>, key: nat) {
    forall k :: k in keys && EncodeNat(key) <= k ==> exists h: nat :: IsSeiKey(key, h, k)
  }

  ghost function HeightsBelow(keys: set<Key>, key: nat, end: nat): set<Key> {
    set k | k in keys && exists h: nat :: h < end && IsSeiKey(key, h, k)
  }

  lemma TailOf(key: nat, height: nat, k: Key) returns (tail: Key)
    requires key < 64 && IsSeiKey(key, height, k)
    ensures k == EncodeNat(key) + (EncodeNat(height) + tail)
    ensures tail != [] ==> key == 1
  {
    if k == SeiKey(key, height) {
      tail := [];
      assert k == EncodeNat(key) + (EncodeNat(height) + tail);
    } else {
      var part: nat :| k == SeiPartKey(height, part);
      tail := EncodeNat(part);
      assert k == EncodeNat(key) + (EncodeNat(height) + tail);
    }
  }

  /** A well-formed key is in the scanned range exactly when its height is in [0, end),
      parses to that height, and never stops the scan. */
  lemma RangeIsNumeric(key: nat, height: nat, end: nat, k: Key)
    requires key < 64 && IsSeiKey(key, height, k)
    ensures InSeiRange(key, 0, end, k) <==> height < end
    ensures ParsedTail(k).Some? && ParsedTail(k).value.0 == height
    ensures !Puzzling(k)
  {
    var tail := TailOf(key, height, k);
    var s := EncodeNat(height) + tail;
    LessUnderPrefix(EncodeNat(key), s, EncodeNat(0));
    LessUnderPrefix(EncodeNat(key), s, EncodeNat(end));
    CodeAgainstCode(height, tail, 0);
    CodeAgainstCode(height, tail, end);
    FirstByteIsHigh(key);
    assert k[1..] == s && k[0] == 128 + key;
    ParseEncoded(height, tail);
  }

  /** On well-formed contents the range delete is the numeric filter: it succeeds,
      deletes the heights below endHeight and nothing else, and keeps endHeight. */
  lemma SeiRangeIsNumericFilter(keys: set<Key>, key: nat, end: nat)
    requires key < 64 && WellFormed(keys, key)
    ensures SeiDeleted(keys, key, 0, end) == HeightsBelow(keys, key, end)
    ensures forall k :: k in keys && InSeiRange(key, 0, end, k) ==> !Puzzling(k) && SeiPrunable(end, k)
  {
    forall k | k in keys && InSeiRange(key, 0, end, k)
      ensures !Puzzling(k) && SeiPrunable(end, k) && k in HeightsBelow(keys, key, end)
    {
      BetweenSharesPrefix(EncodeNat(key), EncodeNat(0), EncodeNat(end), k);
      var h: nat :| IsSeiKey(key, h, k);
      RangeIsNumeric(key, h, end, k);
    }
    forall k | k in HeightsBelow(keys, key, end)
      ensures k in SeiDeleted(keys, key, 0, end)
    {
      var h: nat :| h < end && IsSeiKey(key, h, k);
      RangeIsNumeric(key, h, end, k);
    }
  }

  lemma OneByteCode(key: int)
    requires -64 <= key < 64
    ensures Encode(key) == [128 + key]
  {
    FirstByteIsHigh(if key >= 0 then key else -1 - key);
  }

  lemma HeightIsScanned(key: int, height: int, tail: Key, start: int, end: int)
    ensures InSeiRange(key, start, end, Encode(key) + (Encode(height) + tail)) <==> start <= height < end
  {
    var s := Encode(height) + tail;
    LessUnderPrefix(Encode(key), s, Encode(start));
    LessUnderPrefix(Encode(key), s, Encode(end));
    assert Encode(start) + [] == Encode(start) && Encode(end) + [] == Encode(end);
    CodesOrderedAsNumbers(height, tail, start, []);
    CodesOrderedAsNumbers(height, tail, end, []);
  }

  lemma HeightIsRead(key: int, height: int, tail: Key, end: int)
    requires -64 <= key < 64 && -0x8000_0000_0000_0000 <= height < 0x8000_0000_0000_0000
    ensures Puzzling(Encode(key) + (Encode(height) + tail)) <==> tail != [] && key != 1
    ensures SeiPrunable(end, Encode(key) + (Encode(height) + tail)) <==> height <= end
  {
    var s := Encode(height) + tail;
    OneByteCode(key);
    ParseEncodedInt(height, tail);
    assert ([128 + key] + s)[1..] == s;
  }

  /** Any key of a one-byte prefix and a 64-bit height, with anything after them: the scan
      visits it exactly when its height is in [start, end), gives up on it exactly when
      something follows the height and the prefix is not 1, and deletes it if it reads it. */
  lemma KeyOfHeight(key: int, height: int, tail: Key, start: int, end: int)
    requires -64 <= key < 64 && -0x8000_0000_0000_0000 <= height < 0x8000_0000_0000_0000
    ensures var k := Encode(key) + (Encode(height) + tail);
            && (InSeiRange(key, start, end, k) <==> start <= height < end)
            && (Puzzling(k) <==> tail != [] && key != 1)
            && (SeiPrunable(end, k) <==> height <= end)
  {
    HeightIsScanned(key, height, tail, start, end);
    HeightIsRead(key, height, tail, end);
  }

  /** A key whose height breaks off is neither deleted nor given up on. */
  lemma CutKeyIsSkipped(key: int, height: int, m: nat, end: int)
    requires -64 <= key < 64 && m < |Encode(height)|
    ensures var k := Encode(key) + Encode(height)[..m];
            !Puzzling(k) && !SeiPrunable(end, k)
  {
    OneByteCode(key);
    CutCodeDoesNotParse(height, m);
    assert (Encode(key) + Encode(height)[..m])[1..] == Encode(height)[..m];
  }

  /** The guard that is meant to admit only one-byte prefixes also admits 64, whose
      code has two bytes. */
  lemma GuardAdmitsOneLongPrefix(key: int)
    ensures -64 <= key <= 64 && |Encode(key)| != 1 <==> key == 64
  {
    OneByteIff(key);
  }

  lemma LongPrefixCode()
    ensures Encode(64) == [192, 64] && Encode(-64) == [64]
  {
    assert Pow256(1) == 256 && Pow256(2) == 256 * Pow256(1);
    assert BigEndian(2, 0xC040) == BigEndian(1, 192) + [64] && BigEndian(1, 192) == BigEndian(0, 0) + [192];
    OneByteCode(-64);
  }

  /** Under that prefix the second byte of the prefix is read as the height -64, and the
      height as leftover: the range panics as soon as it holds any key at all. */
  lemma LongPrefixAlwaysPanics(start: int, end: int, k: Key)
    requires InSeiRange(64, start, end, k)
    ensures Puzzling(k)
  {
    LongPrefixCode();
    BetweenSharesPrefix(Encode(64), Encode(start), Encode(end), k);
    var rest := k[2..];
    assert k == Encode(64) + rest;
    SignBit(start);
    LessUnderPrefix(Encode(64), rest, Encode(start));
    assert rest != [];
    ParseEncodedInt(-64, rest);
    assert k[1..] == Encode(-64) + rest;
  }

  // pruneSeiBlockAndStateStore

  const BLOCK_PREFIXES: seq<nat> := [0, 1, 2]
  const STATE_PREFIXES: seq<nat> := [6, 14, 5]

  ghost predicate AllWellFormed(keys: set<Key>, prefixes: seq<nat>) {
    forall i :: 0 <= i < |prefixes| ==> prefixes[i] < 64 && WellFormed(keys, prefixes[i])
  }

  /** A prefix on which deleteSeiRange panics: an unsupported one, or one with a puzzling key in range. */
  ghost predicate Panics(keys: set<Key>, prefix: nat, end: int) {
    prefix > 64 || exists k :: k in keys && InSeiRange(prefix, 0, end, k) && Puzzling(k)
  }

  /** The keys a run over several prefixes leaves, and whether it ended in a panic. */
  datatype Run = Run(keys: set<Key>, panicked: bool)

  ghost function AfterPrefix(keys: set<Key>, prefix: nat, end: int): Run {
    if Panics(keys, prefix, end) then Run(keys, true)
    else Run(keys - SeiDeleted(keys, prefix, 0, end), false)
  }

  ghost function AfterPrefixes(keys: set<Key>, prefixes: seq<nat>, end: int): Run {
    if prefixes == [] then Run(keys, false)
    else
      var r := AfterPrefixes(keys, prefixes[..|prefixes| - 1], end);
      if r.panicked then r else AfterPrefix(r.keys, prefixes[|prefixes| - 1], end)
  }

  lemma {:induction false} PanicEndsRun(keys: set<Key>, prefixes: seq<nat>, end: int, n: nat)
    requires n <= |prefixes| && AfterPrefixes(keys, prefixes[..n], end).panicked
    ensures AfterPrefixes(keys, prefixes, end) == AfterPrefixes(keys, prefixes[..n], end)
  {
    if n == |prefixes| {
      assert prefixes[..n] == prefixes;
    } else {
      assert prefixes[..|prefixes| - 1][..n] == prefixes[..n];
      PanicEndsRun(keys, prefixes[..|prefixes| - 1], end, n);
    }
  }

  ghost predicate KeepsValues<V>(before: map<Key, V>, after: map<Key, V>) {
    forall k :: k in after ==> k in before && after[k] == before[k]
  }

  /** The keys of a list of prefixes, one after the other; a panic ends the run. */
  method PruneSeiKeys<V>(db: Database<V>, prefixes: seq<nat>, endHeight: int) returns (ok: bool)
    modifies db
    ensures Run(db.data.Keys, !ok) == AfterPrefixes(old(db.data).Keys, prefixes, endHeight)
    ensures KeepsValues(old(db.data), db.data)
  {
    var i := 0;
    while i < |prefixes|
      invariant 0 <= i <= |prefixes|
      invariant Run(db.data.Keys, false) == AfterPrefixes(old(db.data).Keys, prefixes[..i], endHeight)
      invariant KeepsValues(old(db.data), db.data)
    {
      ghost var now := db.data;
      var r := DeleteSeiRange(db, prefixes[i], 0, endHeight);
      assert prefixes[..i + 1][..i] == prefixes[..i];
      assert r.Pruned? <==> !Panics(now.Keys, prefixes[i], endHeight);
      if !r.Pruned? {
        PanicEndsRun(old(db.data).Keys, prefixes, endHeight, i + 1);
        return false;
      }
      HeightRanges.RemovingKeys(now, SeiDeleted(now.Keys, prefixes[i], 0, endHeight));
      i := i + 1;
    }
    assert prefixes[..i] == prefixes;
    ok := true;
  }

  ghost function AllBelow(keys: set<Key>, prefixes: seq<nat>, end: nat): set<Key> {
    set k | k in keys && exists i, h: nat :: 0 <= i < |prefixes| && h < end && IsSeiKey(prefixes[i], h, k)
  }

  lemma OneMorePrefix(before: set<Key>, now: set<Key>, prefixes: seq<nat>, i: nat, end: nat)
    requires i < |prefixes|
    requires now == before - AllBelow(before, prefixes[..i], end)
    ensures now - HeightsBelow(now, prefixes[i], end) == before - AllBelow(before, prefixes[..i + 1], end)
  {
    var init, more := prefixes[..i], prefixes[..i + 1];
    assert more == init + [prefixes[i]];
    forall k | k in before
      ensures k in AllBelow(before, more, end)
         <==> k in AllBelow(before, init, end) || exists h: nat :: h < end && IsSeiKey(prefixes[i], h, k)
    {
      if k in AllBelow(before, more, end) {
        var j, h: nat :| 0 <= j < |more| && h < end && IsSeiKey(more[j], h, k);
        assert j < i ==> init[j] == more[j];
      }
      if k in AllBelow(before, init, end) {
        var j, h: nat :| 0 <= j < |init| && h < end && IsSeiKey(init[j], h, k);
        assert init[j] == more[j];
      }
      if h: nat :| h < end && IsSeiKey(prefixes[i], h, k) {
        assert more[i] == prefixes[i];
      }
    }
  }

  /** On well-formed contents the run succeeds and removes, under each prefix, the
      heights below endHeight and nothing else. */
  lemma {:induction false} PrefixesAreFiltered(keys: set<Key>, prefixes: seq<nat>, end: nat)
    requires AllWellFormed(keys, prefixes)
    ensures AfterPrefixes(keys, prefixes, end) == Run(keys - AllBelow(keys, prefixes, end), false)
  {
    if prefixes == [] {
      assert AllBelow(keys, prefixes, end) == {};
    } else {
      var n := |prefixes| - 1;
      var left := keys - AllBelow(keys, prefixes[..n], end);
      PrefixesAreFiltered(keys, prefixes[..n], end);
      assert WellFormed(keys, prefixes[n]);
      SeiRangeIsNumericFilter(left, prefixes[n], end);
      assert prefixes[..n + 1] == prefixes;
      OneMorePrefix(keys, left, prefixes, n, end);
    }
  }

  /** Which key prefix a key has: it tells two well-formed keys apart. */
  lemma PrefixOfSeiKey(p: nat, q: nat, h: nat, n: nat, k: Key)
    requires p < 64 && q < 64 && IsSeiKey(p, h, k) && IsSeiKey(q, n, k)
    ensures p == q && h == n
  {
    var a := TailOf(p, h, k);
    var b := TailOf(q, n, k);
    FirstByteIsHigh(p);
    FirstByteIsHigh(q);
    RangeIsNumeric(p, h, 0, k);
    RangeIsNumeric(q, n, 0, k);
  }

  lemma AfterThreePrefixes(keys: set<Key>, a: nat, b: nat, c: nat, end: nat, k: Key)
    requires a < 64 && b < 64 && c < 64 && WellFormed(keys, a) && WellFormed(keys, b) && WellFormed(keys, c)
    ensures !AfterPrefixes(keys, [a, b, c], end).panicked
    ensures k in AfterPrefixes(keys, [a, b, c], end).keys
       <==> k in keys && forall h: nat :: IsSeiKey(a, h, k) || IsSeiKey(b, h, k) || IsSeiKey(c, h, k) ==> h >= end
  {
    var prefixes := [a, b, c];
    PrefixesAreFiltered(keys, prefixes, end);
    if h: nat :| h < end && (IsSeiKey(a, h, k) || IsSeiKey(b, h, k) || IsSeiKey(c, h, k)) {
      var i := if IsSeiKey(a, h, k) then 0 else if IsSeiKey(b, h, k) then 1 else 2;
      assert IsSeiKey(prefixes[i], h, k);
    }
  }

  /** On well-formed databases exactly the entries of heights below the end go that are
      block metas (0), parts (1) and commits (2), or consensus parameters (6), block
      responses (14) and validators (5). */
  lemma WholeSeiStores(blocks: set<Key>, states: set<Key>, end: nat, k: Key)
    requires WellFormed(blocks, 0) && WellFormed(blocks, 1) && WellFormed(blocks, 2)
    requires WellFormed(states, 6) && WellFormed(states, 14) && WellFormed(states, 5)
    ensures !AfterPrefixes(blocks, BLOCK_PREFIXES, end).panicked && !AfterPrefixes(states, STATE_PREFIXES, end).panicked
    ensures k in AfterPrefixes(blocks, BLOCK_PREFIXES, end).keys
       <==> k in blocks && forall h: nat :: IsSeiKey(0, h, k) || IsSeiKey(1, h, k) || IsSeiKey(2, h, k) ==> h >= end
    ensures k in AfterPrefixes(states, STATE_PREFIXES, end).keys
       <==> k in states && forall h: nat :: IsSeiKey(6, h, k) || IsSeiKey(14, h, k) || IsSeiKey(5, h, k) ==> h >= end
  {
    AfterThreePrefixes(blocks, 0, 1, 2, end, k);
    AfterThreePrefixes(states, 6, 14, 5, end, k);
  }

  /** Entries of another kind stay at every height: seen commits (3), block hashes (4),
      extended commits (13), and in the state database the state (8). */
  lemma OtherSeiKeysStay(blocks: set<Key>, states: set<Key>, end: nat, p: nat, n: nat, k: Key)
    requires WellFormed(blocks, 0) && WellFormed(blocks, 1) && WellFormed(blocks, 2)
    requires WellFormed(states, 6) && WellFormed(states, 14) && WellFormed(states, 5)
    requires p < 64 && IsSeiKey(p, n, k)
    ensures p !in {0, 1, 2} && k in blocks ==> k in AfterPrefixes(blocks, BLOCK_PREFIXES, end).keys
    ensures p !in {5, 6, 14} && k in states ==> k in AfterPrefixes(states, STATE_PREFIXES, end).keys
  {
    WholeSeiStores(blocks, states, end, k);
    forall q: nat, h: nat | q < 64 && IsSeiKey(q, h, k)
      ensures q == p
    {
      PrefixOfSeiKey(p, q, n, h, k);
    }
  }

  /** cmd/sei.go pruneSeiBlockAndStateStore: the application database is left alone, and
      a panic on the block database keeps the state database from being reached. */
  method PruneSeiBlockAndStateStore<V, W>(blockStoreDB: Database<V>, stateStoreDB: Database<W>, pruneHeight: nat)
    returns (ok: bool)
    requires (blockStoreDB as object) != (stateStoreDB as object) && pruneHeight <= MAX_UINT64
    modifies blockStoreDB, stateStoreDB
    ensures var end := BlockStores.ToInt64(pruneHeight);
            var blocks := AfterPrefixes(old(blockStoreDB.data).Keys, BLOCK_PREFIXES, end);
            var states := AfterPrefixes(old(stateStoreDB.data).Keys, STATE_PREFIXES, end);
            && blockStoreDB.data.Keys == blocks.keys
            && stateStoreDB.data.Keys == (if blocks.panicked then old(stateStoreDB.data).Keys else states.keys)
            && (ok <==> !blocks.panicked && !states.panicked)
    ensures KeepsValues(old(blockStoreDB.data), blockStoreDB.data)
    ensures KeepsValues(old(stateStoreDB.data), stateStoreDB.data)
  {
    ok := PruneSeiKeys(blockStoreDB, BLOCK_PREFIXES, BlockStores.ToInt64(pruneHeight));
    if ok {
      ok := PruneSeiKeys(stateStoreDB, STATE_PREFIXES, BlockStores.ToInt64(pruneHeight));
    }
  }
}

// The keys, names and numbers the operations are written in, spelled as the source and the
// formats it reads spell them.

module Layouts {
  import opened Bytes
  import opened Decimal
  import opened Floats
  import opened Iavl
  import opened HeightRangesExact
  import opened BlockStores
  import opened OrderedCode
  import opened SeiStores
  import opened MultiStores
  import opened GarbageCollection

  /** The bytes of an ASCII string. */
  function Ascii(s: string): Key
    requires forall i :: 0 <= i < |s| ==> s[i] < 128 as char
  {
    seq(|s|, i requires 0 <= i < |s| => s[i] as int as Byte)
  }

  /** The key prefixes of the block and state databases, and the record of the block store. */
  lemma BlockKeysSpelled()
    ensures H == Ascii("H:") && C == Ascii("C:") && EC == Ascii("EC:") && SC == Ascii("SC:") && P == Ascii("P:")
    ensures BH == Ascii("BH:") && BLOCK_STORE == Ascii("blockStore")
    ensures ABCI_RESPONSES == Ascii("abciResponsesKey:") && CONSENSUS_PARAMS == Ascii("consensusParamsKey:")
  {
  }

  /** Where the range of a prefix ends: the last byte is incremented, and wraps around. */
  lemma PrefixEndsSpelled()
    ensures PrefixEnd(BH) == Ascii("BH;") && PrefixEnd([7, 255]) == [7, 0]
  {
  }

  /** The entries of block 120: its header, and its part 3. */
  lemma BlockEntriesSpelled()
    ensures HeightKey(H, 120) == Ascii("H:120") && PartKey(P, 120, Ascii("3")) == Ascii("P:120:3")
  {
  }

  /** The keys of the application database. */
  lemma AppKeysSpelled(version: nat, name: Key)
    ensures S == Ascii("s/") && LATEST_KEY == Ascii("s/latest") && FAKE_HASH == Ascii("FAKE_HASH")
    ensures InfoKey(version) == Ascii("s/") + Dec(version)
    ensures TreeKey(name) == Ascii("s/k:") + name + Ascii("/")
    ensures InfoKey(120) == Ascii("s/120") && TreeKey(Ascii("bank")) == Ascii("s/k:bank/")
  {
  }

  /** The paths of a database and of its copy. */
  lemma PathsSpelled()
    ensures LivePath("state") == "state.db" && ScratchPath("state") == "state_gc.db"
  {
  }

  /** The first byte of a Sei key: of block metas, parts and commits, and in the state
      database of validators, consensus parameters and block responses. */
  lemma SeiKeysSpelled()
    ensures EncodeNat(0) == [0x80] && EncodeNat(1) == [0x81] == [BLOCK_PART_BYTE] && EncodeNat(2) == [0x82]
    ensures EncodeNat(5) == [0x85] && EncodeNat(6) == [0x86] && EncodeNat(14) == [0x8e]
    ensures EncodeNat(300) == [0xc1, 0x2c]
  {
  }

  /** The limits: of 64-bit numbers, of exact float64 numbers, of the heights of nodes in a
      snapshot, and of a batch of the collection. */
  lemma LimitsSpelled()
    ensures MAX_UINT64 == 18_446_744_073_709_551_615 && MAX_INT64 == 9_223_372_036_854_775_807
    ensures MAX_EXACT == 9_007_199_254_740_992 && MAX_HEIGHT == 127 && BATCH_SIZE == 10_000
  {
  }
}

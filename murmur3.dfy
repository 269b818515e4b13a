/** engine/utils/murmur3.h: the x86_32 variant of MurmurHash3 over the bytes of an
    array of `data_t`, with `len` counting elements rather than bytes. */
module Murmur3 {
  import Utils

  const C1: bv32 := 0xcc9e2d51
  const C2: bv32 := 0x1b873593

  /** ROTL32(x, r): defined for 0 < r < 32. */
  function Rotl32(x: bv32, r: bv32): bv32
    requires 0 < r < 32
  {
    (x << r) | (x >> (32 - r))
  }

  /** At the two amounts the hash uses, ROTL32 is a left rotation. */
  lemma RotlIsRotation(x: bv32)
    ensures Rotl32(x, 15) == x.RotateLeft(15)
    ensures Rotl32(x, 13) == x.RotateLeft(13)
  {
  }

  /** fmix32: shift-xor 16, multiply by 0x85ebca6b, shift-xor 13, multiply by
      0xc2b2ae35, shift-xor 16, each step reassigning h. */
  function Fmix32(h0: bv32): bv32
  {
    var h1 := h0 ^ (h0 >> 16);
    var h2 := h1 * 0x85ebca6b;
    var h3 := h2 ^ (h2 >> 13);
    var h4 := h3 * 0xc2b2ae35;
    h4 ^ (h4 >> 16)
  }

  // ---------------------------------------------------------------------------
  // Reference MurmurHash3_x86_32 over a byte string

  /** Block i of the body, read as a little-endian uint32 (x86). */
  function Block(bytes: seq<bv8>, i: nat): bv32
    requires 4 * i + 4 <= |bytes|
  {
    Word(bytes[4 * i], bytes[4 * i + 1], bytes[4 * i + 2], bytes[4 * i + 3])
  }

  /** Four bytes read as a little-endian uint32. */
  function Word(b0: bv8, b1: bv8, b2: bv8, b3: bv8): bv32
  {
    (b0 as bv32) | ((b1 as bv32) << 8) | ((b2 as bv32) << 16) | ((b3 as bv32) << 24)
  }

  /** The scrambling of one block (or of the tail word) before it enters h1. */
  function MixK(k0: bv32): bv32
  {
    var k1 := k0 * C1;
    var k2 := Rotl32(k1, 15);
    k2 * C2
  }

  /** One iteration of the body loop: block k mixed into h1. */
  function MixH(h0: bv32, k: bv32): bv32
  {
    var h1 := h0 ^ MixK(k);
    var h2 := Rotl32(h1, 13);
    h2 * 5 + 0xe6546b64
  }

  /** h1 after mixing the first n blocks, in order, into the seed. */
  function Body(bytes: seq<bv8>, seed: bv32, n: nat): bv32
    requires 4 * n <= |bytes|
  {
    if n == 0 then seed else MixH(Body(bytes, seed, n - 1), Block(bytes, n - 1))
  }

  /** The 1-3 trailing bytes, mixed into h1 (the fall-through switch). */
  function Tail(bytes: seq<bv8>, h: bv32): bv32
  {
    var t := bytes[|bytes| / 4 * 4..];
    if |t| == 0 then h
    else
      var k2 := if |t| >= 3 then (t[2] as bv32) << 16 else 0;
      var k1 := if |t| >= 2 then k2 ^ ((t[1] as bv32) << 8) else k2;
      var k0 := k1 ^ (t[0] as bv32);
      h ^ MixK(k0)
  }

  function LengthWord(n: nat): bv32
  {
    (n % 0x1_0000_0000) as bv32
  }

  /** h1 once every block and the tail are mixed in. */
  function Mixed(bytes: seq<bv8>, seed: bv32): bv32
  {
    Tail(bytes, Body(bytes, seed, |bytes| / 4))
  }

  /** Reference MurmurHash3_x86_32 of `bytes` with `seed`. */
  function Murmur3X86_32(bytes: seq<bv8>, seed: bv32): bv32
  {
    Fmix32(Mixed(bytes, seed) ^ LengthWord(|bytes|))
  }

  lemma FmixCongruent(a: bv32, b: bv32)
    requires a == b
    ensures Fmix32(a) == Fmix32(b)
  {
  }

  /** Finalizing h1 once it holds the mixed body and tail xor the byte length
      gives the reference hash. */
  lemma FinalizationOf(bytes: seq<bv8>, seed: bv32, pre: bv32)
    requires pre == Mixed(bytes, seed) ^ LengthWord(|bytes|)
    ensures Fmix32(pre) == Murmur3X86_32(bytes, seed)
  {
    FmixCongruent(pre, Mixed(bytes, seed) ^ LengthWord(|bytes|));
    FinalizationOfMixed(bytes, seed);
  }

  lemma FinalizationOfMixed(bytes: seq<bv8>, seed: bv32)
    ensures Fmix32(Mixed(bytes, seed) ^ LengthWord(|bytes|)) == Murmur3X86_32(bytes, seed)
  {
  }

  lemma MultipleOfFourHasNoTail(bytes: seq<bv8>, elemSize: nat, len: nat, h: bv32)
    requires elemSize % 4 == 0 && |bytes| == len * elemSize
    ensures Tail(bytes, h) == h
  {
    var m := elemSize / 4;
    assert |bytes| == 4 * (len * m);
    Utils.ModOfDecomposition(|bytes|, 4, len * m, 0);
  }

  /** murmur3::hash<data_t>(data, len, seed), with the `len * sizeof(data_t)` bytes
      of the array given as `bytes`. The tail is mixed only when sizeof(data_t) is
      not a multiple of 4; when it is, the byte length is too, so the result is
      always the reference MurmurHash3_x86_32. */
  method Hash(bytes: seq<bv8>, elemSize: nat, len: nat, seed: bv32) returns (h1: bv32)
    requires elemSize > 0 && |bytes| == len * elemSize
    ensures h1 == Murmur3X86_32(bytes, seed)
  {
    var len32 := |bytes| / 4;
    h1 := seed;
    var i := 0;
    while i < len32
      invariant 0 <= i <= len32
      invariant h1 == Body(bytes, seed, i)
    {
      h1 := MixH(h1, Block(bytes, i));
      i := i + 1;
    }
    if elemSize % 4 != 0 {
      h1 := Tail(bytes, h1);
    } else {
      MultipleOfFourHasNoTail(bytes, elemSize, len, h1);
    }
    assert h1 == Mixed(bytes, seed);
    h1 := h1 ^ LengthWord(|bytes|);
    FinalizationOf(bytes, seed, h1);
    h1 := Fmix32(h1);
  }

  // ---------------------------------------------------------------------------
  // Hashing a key of uint32 elements

  function LeBytes(x: bv32): seq<bv8>
  {
    [(x & 0xFF) as bv8, ((x >> 8) & 0xFF) as bv8, ((x >> 16) & 0xFF) as bv8, ((x >> 24) & 0xFF) as bv8]
  }

  /** The in-memory bytes of an array of uint32 on x86. */
  function KeyBytes(key: seq<bv32>): (r: seq<bv8>)
    ensures |r| == 4 * |key|
  {
    if key == [] then [] else LeBytes(key[0]) + KeyBytes(key[1..])
  }

  /** get_hashed_idx before reduction: the key's bytes hashed with the key prefix
      (the type id) as seed. */
  function HashKey(prefix: nat, key: seq<bv32>): bv32
  {
    Murmur3X86_32(KeyBytes(key), (prefix % 0x1_0000_0000) as bv32)
  }

  lemma LeBytesRoundTrip(x: bv32)
    ensures var b := LeBytes(x); Word(b[0], b[1], b[2], b[3]) == x
  {
  }

  lemma {:induction false} KeyBytesAt(key: seq<bv32>, i: nat)
    requires i < |key|
    ensures KeyBytes(key)[4 * i] == LeBytes(key[i])[0]
    ensures KeyBytes(key)[4 * i + 1] == LeBytes(key[i])[1]
    ensures KeyBytes(key)[4 * i + 2] == LeBytes(key[i])[2]
    ensures KeyBytes(key)[4 * i + 3] == LeBytes(key[i])[3]
  {
    if i > 0 {
      KeyBytesAt(key[1..], i - 1);
      assert KeyBytes(key)[4..] == KeyBytes(key[1..]);
    }
  }

  /** Each block of a key's bytes is the key element itself: with 4-byte elements
      `len` elements make exactly `len` blocks and no tail. */
  lemma KeyBlocksAreElements(key: seq<bv32>, i: nat)
    requires i < |key|
    ensures Block(KeyBytes(key), i) == key[i]
  {
    KeyBytesAt(key, i);
    LeBytesRoundTrip(key[i]);
  }
}

/**
 CRC-32 as zlib computes it, and the JFFS2 variant: the way jffs2_crc calls
 zlib cancels both inversions, leaving a register that starts at zero.
 Every step is linear and injective.
 */
module Crc32 {
  import opened Bytes

  predicate Lsb(x: bv32) {
    x & 1 == 1
  }

  function Shr(x: bv32): bv32 {
    x >> 1
  }

  function Xor(x: bv32, y: bv32): bv32 {
    x ^ y
  }

  /** One bit: the reflected polynomial 0xEDB88320. */
  function BitStep(x: bv32): bv32 {
    if Lsb(x) then Xor(Shr(x), 0xEDB88320) else Shr(x)
  }

  function BitSteps(x: bv32, n: nat): bv32
    decreases n, x
  {
    if n == 0 then x else BitSteps(BitStep(x), n - 1)
  }

  function Bits(b: byte): bv32 {
    ToBits(b) as bv32
  }

  function ByteStep(x: bv32, b: bv32): bv32 {
    BitSteps(Xor(x, b), 8)
  }

  function Feed(x: bv32, data: bytes): bv32
    decreases |data|
  {
    if data == [] then x else Feed(ByteStep(x, Bits(data[0])), data[1..])
  }

  /** zlib.crc32(data, start). */
  function Zlib(data: bytes, start: bv32): bv32 {
    Xor(Feed(Xor(start, 0xFFFF_FFFF), data), 0xFFFF_FFFF)
  }

  /** jffs2_crc. */
  function Jffs2(data: bytes): bv32 {
    Xor(Zlib(data, 0xFFFF_FFFF), 0xFFFF_FFFF)
  }

  lemma XorCancels(x: bv32)
    ensures Xor(Xor(x, 0xFFFF_FFFF), 0xFFFF_FFFF) == x && Xor(0xFFFF_FFFF, 0xFFFF_FFFF) == 0
  {
  }

  /** JFFS2's CRC is the bare register started at zero. */
  lemma Jffs2IsBareRegister(data: bytes)
    ensures Jffs2(data) == Feed(0, data)
  {
    hide Xor, Feed;
    XorCancels(Feed(0, data));
  }

  /** Octet k of the register, least significant first. */
  function Octet(x: bv32, k: nat): bv8
    requires k < 4
  {
    if k == 0 then (x & 0xFF) as bv8
    else if k == 1 then ((x >> 8) & 0xFF) as bv8
    else if k == 2 then ((x >> 16) & 0xFF) as bv8
    else ((x >> 24) & 0xFF) as bv8
  }

  /** struct.pack("<I", crc). */
  function Stored(x: bv32): (p: bytes)
    ensures |p| == 4
  {
    [OfBits(Octet(x, 0)), OfBits(Octet(x, 1)), OfBits(Octet(x, 2)), OfBits(Octet(x, 3))]
  }

  lemma OctetsDetermineWord(x: bv32, y: bv32)
    requires forall k :: 0 <= k < 4 ==> Octet(x, k) == Octet(y, k)
    ensures x == y
  {
    assert Octet(x, 0) == Octet(y, 0) && Octet(x, 1) == Octet(y, 1) && Octet(x, 2) == Octet(y, 2)
           && Octet(x, 3) == Octet(y, 3);
  }

  /** The stored bytes determine the register. */
  lemma StoredInjective(x: bv32, y: bv32)
    requires Stored(x) == Stored(y)
    ensures x == y
  {
    hide OfBits, ToBits, Octet;
    var p, q := Stored(x), Stored(y);
    forall k | 0 <= k < 4
      ensures Octet(x, k) == Octet(y, k)
    {
      assert p[k] == OfBits(Octet(x, k)) && q[k] == OfBits(Octet(y, k));
      OfBitsToBits(Octet(x, k));
      OfBitsToBits(Octet(y, k));
    }
    OctetsDetermineWord(x, y);
  }

  // ----- linearity -----

  lemma XorBits(x: bv32, y: bv32)
    ensures Lsb(Xor(x, y)) == (Lsb(x) != Lsb(y)) && Shr(Xor(x, y)) == Xor(Shr(x), Shr(y))
  {
  }

  lemma XorAssociates(a: bv32, b: bv32, c: bv32)
    ensures Xor(Xor(a, b), c) == Xor(a, Xor(b, c))
  {
  }

  lemma XorCommutes(a: bv32, b: bv32)
    ensures Xor(a, b) == Xor(b, a) && Xor(a, a) == 0 && Xor(a, 0) == a
  {
  }

  lemma XorMix(x: bv32, y: bv32, a: bv32, b: bv32)
    ensures Xor(Xor(x, y), Xor(a, b)) == Xor(Xor(x, a), Xor(y, b))
  {
    hide Xor;
    XorAssociates(x, y, Xor(a, b));
    XorAssociates(y, a, b);
    XorCommutes(y, a);
    XorAssociates(a, y, b);
    XorAssociates(x, a, Xor(y, b));
  }

  lemma BitStepLinear(x: bv32, y: bv32)
    ensures BitStep(Xor(x, y)) == Xor(BitStep(x), BitStep(y))
  {
    XorBits(x, y);
    hide Lsb, Shr, Xor;
    var a, b, p := Shr(x), Shr(y), 0xEDB88320;
    XorMix(a, b, p, p);
    XorCommutes(p, p);
    XorCommutes(Xor(a, b), p);
    XorMix(a, b, p, 0);
    XorMix(a, b, 0, p);
    XorCommutes(0, p);
    XorCommutes(a, p);
    XorCommutes(b, p);
  }

  lemma {:induction false} BitStepsLinear(x: bv32, y: bv32, n: nat)
    ensures BitSteps(Xor(x, y), n) == Xor(BitSteps(x, n), BitSteps(y, n))
    decreases n
  {
    hide BitStep, Xor;
    if n > 0 {
      BitStepLinear(x, y);
      BitStepsLinear(BitStep(x), BitStep(y), n - 1);
    }
  }

  /** Bytewise exclusive or. */
  function XorAll(a: bytes, b: bytes): (c: bytes)
    requires |a| == |b|
    ensures |c| == |a|
  {
    seq(|a|, i requires 0 <= i < |a| => OfBits(ToBits(a[i]) ^ ToBits(b[i])))
  }

  lemma BitsXor(a: byte, b: byte)
    ensures Bits(OfBits(ToBits(a) ^ ToBits(b))) == Xor(Bits(a), Bits(b))
  {
    OfBitsToBits(ToBits(a) ^ ToBits(b));
    hide ToBits, OfBits;
  }

  lemma {:induction false} FeedLinear(x: bv32, y: bv32, a: bytes, b: bytes)
    requires |a| == |b|
    ensures Feed(Xor(x, y), XorAll(a, b)) == Xor(Feed(x, a), Feed(y, b))
    decreases |a|
  {
    hide Xor, BitSteps, Bits, ToBits, OfBits;
    if a != [] {
      var p, q := Bits(a[0]), Bits(b[0]);
      BitsXor(a[0], b[0]);
      XorMix(x, y, p, q);
      BitStepsLinear(Xor(x, p), Xor(y, q), 8);
      assert XorAll(a, b)[1..] == XorAll(a[1..], b[1..]);
      FeedLinear(ByteStep(x, p), ByteStep(y, q), a[1..], b[1..]);
    }
  }

  /** JFFS2's CRC of the xor of two strings is the xor of their CRCs. */
  lemma Jffs2Linear(a: bytes, b: bytes)
    requires |a| == |b|
    ensures Jffs2(XorAll(a, b)) == Xor(Jffs2(a), Jffs2(b))
  {
    Jffs2IsBareRegister(a);
    Jffs2IsBareRegister(b);
    Jffs2IsBareRegister(XorAll(a, b));
    FeedLinear(0, 0, a, b);
    assert Xor(0, 0) == 0;
    hide Xor, Feed, Jffs2;
  }

  // ----- injectivity -----

  /** The polynomial has its top bit set, so the bit shifted out can be recovered. */
  lemma BitStepInjective(x: bv32, y: bv32)
    requires BitStep(x) == BitStep(y)
    ensures x == y
  {
  }

  lemma {:induction false} BitStepsInjective(x: bv32, y: bv32, n: nat)
    requires BitSteps(x, n) == BitSteps(y, n)
    ensures x == y
    decreases n
  {
    hide BitStep;
    if n > 0 {
      BitStepsInjective(BitStep(x), BitStep(y), n - 1);
      BitStepInjective(x, y);
    }
  }

  lemma XorInjective(x: bv32, y: bv32, b: bv32)
    requires Xor(x, b) == Xor(y, b)
    ensures x == y
  {
  }

  lemma XorInjectiveRight(x: bv32, b: bv32, c: bv32)
    requires Xor(x, b) == Xor(x, c)
    ensures b == c
  {
  }

  /** A difference in the register survives any further data. */
  lemma {:induction false} FeedInjective(x: bv32, y: bv32, data: bytes)
    requires Feed(x, data) == Feed(y, data)
    ensures x == y
    decreases |data|
  {
    hide Xor, BitSteps, Bits;
    if data != [] {
      var b := Bits(data[0]);
      FeedInjective(ByteStep(x, b), ByteStep(y, b), data[1..]);
      BitStepsInjective(Xor(x, b), Xor(y, b), 8);
      XorInjective(x, y, b);
    }
  }

  lemma BitsInjective(a: byte, b: byte)
    requires Bits(a) == Bits(b)
    ensures a == b
  {
    assert ToBits(a) == ToBits(b);
    hide ToBits, OfBits;
    ToBitsOfBits(a);
    ToBitsOfBits(b);
  }

  lemma {:induction false} FeedAppend(x: bv32, a: bytes, b: bytes)
    ensures Feed(x, a + b) == Feed(Feed(x, a), b)
    decreases |a|
  {
    hide ByteStep, Bits;
    if a == [] {
      assert a + b == b;
    } else {
      assert (a + b)[0] == a[0] && (a + b)[1..] == a[1..] + b;
      FeedAppend(ByteStep(x, Bits(a[0])), a[1..], b);
    }
  }

  /** Two strings that differ in exactly one byte have different stored CRCs. */
  lemma OneByteChangesCrc(pre: bytes, a: byte, b: byte, post: bytes)
    requires a != b
    ensures Stored(Jffs2(pre + [a] + post)) != Stored(Jffs2(pre + [b] + post))
  {
    hide Xor, BitSteps, Bits, Stored, Jffs2;
    var x := Feed(0, pre);
    Jffs2IsBareRegister(pre + [a] + post);
    Jffs2IsBareRegister(pre + [b] + post);
    FeedAppend(0, pre + [a], post);
    FeedAppend(0, pre + [b], post);
    FeedAppend(0, pre, [a]);
    FeedAppend(0, pre, [b]);
    var p, q := ByteStep(x, Bits(a)), ByteStep(x, Bits(b));
    assert [a][1..] == [] && [b][1..] == [];
    assert Feed(x, [a]) == p && Feed(x, [b]) == q;
    if Stored(Jffs2(pre + [a] + post)) == Stored(Jffs2(pre + [b] + post)) {
      StoredInjective(Feed(p, post), Feed(q, post));
      FeedInjective(p, q, post);
      BitStepsInjective(Xor(x, Bits(a)), Xor(x, Bits(b)), 8);
      XorInjectiveRight(x, Bits(a), Bits(b));
      BitsInjective(a, b);
    }
  }
}

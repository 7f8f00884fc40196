/**
 The 16-bit CRC of Linux-mode reports: the register shifts right while the
 polynomial is the non-reflected 0x1021, so one step drops information, yet
 every step keeps the parity of the register.
 */
module Crc16 {
  import opened Bytes

  predicate Lsb(x: bv16) {
    x & 1 == 1
  }

  function Shr(x: bv16): bv16 {
    x >> 1
  }

  function Xor(x: bv16, y: bv16): bv16 {
    x ^ y
  }

  function Bits(b: byte): bv16 {
    ToBits(b) as bv16
  }

  /** One bit of the inner loop. */
  function BitStep(crc: bv16): bv16 {
    if Lsb(crc) then Xor(Shr(crc), 0x1021) else Shr(crc)
  }

  function BitSteps(crc: bv16, n: nat): bv16
    decreases n, crc
  {
    if n == 0 then crc else BitSteps(BitStep(crc), n - 1)
  }

  /** One byte: xor into the low end, then eight bit steps. */
  function ByteStep(crc: bv16, b: byte): bv16 {
    BitSteps(Xor(crc, Bits(b)), 8)
  }

  /** The register after feeding data into a register that starts at crc. */
  function Feed(crc: bv16, data: bytes): bv16
    decreases |data|
  {
    if data == [] then crc else Feed(ByteStep(crc, data[0]), data[1..])
  }

  function Crc(data: bytes): bv16 {
    Feed(0xFFFF, data)
  }

  lemma BitStepsUnfold(crc: bv16, n: nat)
    ensures n == 0 ==> BitSteps(crc, n) == crc
    ensures n > 0 ==> BitSteps(crc, n) == BitSteps(BitStep(crc), n - 1)
  {
  }

  /** The host's crc16_normal: two nested loops over a mutable register. */
  method Crc16Normal(data: bytes) returns (crc: bv16)
    ensures crc == Crc(data)
  {
    hide BitSteps;
    crc := 0xFFFF;
    for i := 0 to |data|
      invariant Feed(crc, data[i..]) == Crc(data)
    {
      ghost var entry := crc;
      crc := crc ^ (ToBits(data[i]) as bv16);
      for bit := 0 to 8
        invariant BitSteps(crc, 8 - bit) == ByteStep(entry, data[i])
      {
        BitStepsUnfold(crc, 8 - bit);
        crc := if crc & 1 == 1 then (crc >> 1) ^ 0x1021 else crc >> 1;
      }
      BitStepsUnfold(crc, 0);
      assert data[i..][1..] == data[i + 1..];
    }
  }

  /** The device's cc2_crc16, which resumes from a given register. */
  method Cc2Crc16(data: bytes, start: bv16) returns (crc: bv16)
    ensures crc == Feed(start, data)
  {
    hide BitSteps;
    crc := start;
    var rest := data;
    while rest != []
      invariant Feed(crc, rest) == Feed(start, data)
      decreases |rest|
    {
      ghost var entry := crc;
      crc := crc ^ (ToBits(rest[0]) as bv16);
      var bit := 0;
      while bit != 8
        invariant 0 <= bit <= 8
        invariant BitSteps(crc, 8 - bit) == ByteStep(entry, rest[0])
      {
        BitStepsUnfold(crc, 8 - bit);
        var oldLsb := crc & 1;
        crc := crc >> 1;
        if oldLsb != 0 {
          crc := crc ^ 0x1021;
        }
        bit := bit + 1;
      }
      BitStepsUnfold(crc, 0);
      rest := rest[1..];
    }
  }

  /** The device feeds header and payload separately; the host feeds their concatenation. */
  lemma {:induction false} FeedAppend(crc: bv16, a: bytes, b: bytes)
    ensures Feed(Feed(crc, a), b) == Feed(crc, a + b)
    decreases |a|
  {
    hide ByteStep;
    if a == [] {
      assert a + b == b;
    } else {
      assert (a + b)[0] == a[0] && (a + b)[1..] == a[1..] + b;
      FeedAppend(ByteStep(crc, a[0]), a[1..], b);
    }
  }

  // ----- parity -----

  /** The number of one bits among the low n bits. */
  function Ones(x: bv16, n: nat): nat
    decreases n
  {
    if n == 0 then 0 else (if Lsb(x) then 1 else 0) + Ones(Shr(x), n - 1)
  }

  /** The number of one bits of a byte string. */
  function OnesOf(data: bytes): nat {
    if data == [] then 0 else Ones(Bits(data[0]), 16) + OnesOf(data[1..])
  }

  /** Parity of the low n bits, without arithmetic. */
  ghost predicate Odd(x: bv16, n: nat)
    decreases n
  {
    n > 0 && Lsb(x) != Odd(Shr(x), n - 1)
  }

  lemma {:induction false} OddIsOnes(x: bv16, n: nat)
    ensures Odd(x, n) == (Ones(x, n) % 2 == 1)
    decreases n
  {
    hide Lsb, Shr;
    if n > 0 {
      OddIsOnes(Shr(x), n - 1);
    }
  }

  lemma XorBits(x: bv16, y: bv16)
    ensures Shr(Xor(x, y)) == Xor(Shr(x), Shr(y))
    ensures Lsb(Xor(x, y)) == (Lsb(x) != Lsb(y))
  {
  }

  lemma {:induction false} OddXor(x: bv16, y: bv16, n: nat)
    ensures Odd(Xor(x, y), n) == (Odd(x, n) != Odd(y, n))
    decreases n
  {
    hide Lsb, Shr, Xor;
    if n > 0 {
      XorBits(x, y);
      OddXor(Shr(x), Shr(y), n - 1);
    }
  }

  lemma OddUnfold(x: bv16, n: nat)
    ensures !Odd(x, 0)
    ensures n > 0 ==> Odd(x, n) == (Lsb(x) != Odd(Shr(x), n - 1))
  {
  }

  function Shr4(x: bv16): bv16 {
    Shr(Shr(Shr(Shr(x))))
  }

  predicate OddLow4(x: bv16) {
    Lsb(x) != (Lsb(Shr(x)) != (Lsb(Shr(Shr(x))) != Lsb(Shr(Shr(Shr(x))))))
  }

  /** Four bits at a time. */
  lemma OddNibble(x: bv16, n: nat)
    requires n >= 4
    ensures Odd(x, n) == (OddLow4(x) != Odd(Shr4(x), n - 4))
  {
    hide Lsb, Shr;
    OddUnfold(x, n);
    OddUnfold(Shr(x), n - 1);
    OddUnfold(Shr(Shr(x)), n - 2);
    OddUnfold(Shr(Shr(Shr(x))), n - 3);
  }

  lemma OddThree(x: bv16)
    requires !Lsb(Shr(Shr(Shr(x))))
    ensures Odd(x, 4) == Odd(x, 3)
  {
    hide Lsb, Shr;
    OddNibble(x, 4);
    OddUnfold(Shr4(x), 0);
    OddUnfold(x, 3);
    OddUnfold(Shr(x), 2);
    OddUnfold(Shr(Shr(x)), 1);
    OddUnfold(Shr(Shr(Shr(x))), 0);
  }

  lemma TopBit(c: bv16)
    ensures !Lsb(Shr(Shr(Shr(Shr4(Shr4(Shr4(Shr(c))))))))
  {
  }

  /** A shifted register has a clear top bit, which does not matter to the parity. */
  lemma OddBelowTop(c: bv16)
    ensures Odd(Shr(c), 16) == Odd(Shr(c), 15)
  {
    TopBit(c);
    hide Odd, OddLow4, Shr, Shr4;
    var x := Shr(c);
    OddNibble(x, 16);
    OddNibble(x, 15);
    OddNibble(Shr4(x), 12);
    OddNibble(Shr4(x), 11);
    OddNibble(Shr4(Shr4(x)), 8);
    OddNibble(Shr4(Shr4(x)), 7);
    OddThree(Shr4(Shr4(Shr4(x))));
  }

  lemma ConstantParities()
    ensures Odd(0x1021, 16) && !Odd(0xFFFF, 16)
  {
    OddNibble(0x1021, 16);
    OddNibble(0x102, 12);
    OddNibble(0x10, 8);
    OddNibble(0x1, 4);
    OddNibble(0xFFFF, 16);
    OddNibble(0xFFF, 12);
    OddNibble(0xFF, 8);
    OddNibble(0xF, 4);
  }

  /** The bit shifted out and the three bits of 0x1021 cancel. */
  lemma BitStepKeepsParity(crc: bv16)
    ensures Odd(BitStep(crc), 16) == Odd(crc, 16)
  {
    hide Odd;
    OddBelowTop(crc);
    OddUnfold(crc, 16);
    OddXor(Shr(crc), 0x1021, 16);
    ConstantParities();
  }

  lemma {:induction false} BitStepsKeepParity(crc: bv16, n: nat)
    ensures Odd(BitSteps(crc, n), 16) == Odd(crc, 16)
    decreases n
  {
    hide BitStep;
    if n > 0 {
      BitStepKeepsParity(crc);
      BitStepsKeepParity(BitStep(crc), n - 1);
    }
  }

  lemma ByteStepParity(crc: bv16, b: byte)
    ensures Odd(ByteStep(crc, b), 16) == (Odd(crc, 16) != Odd(Bits(b), 16))
  {
    hide BitSteps, Bits, Lsb, Shr, Xor;
    BitStepsKeepParity(Xor(crc, Bits(b)), 8);
    OddXor(crc, Bits(b), 16);
  }

  lemma {:induction false} FeedParity(crc: bv16, data: bytes)
    ensures Odd(Feed(crc, data), 16) == (Odd(crc, 16) != (OnesOf(data) % 2 == 1))
    decreases |data|
  {
    hide ByteStep, Bits, Odd, Ones;
    if data != [] {
      ByteStepParity(crc, data[0]);
      OddIsOnes(Bits(data[0]), 16);
      FeedParity(ByteStep(crc, data[0]), data[1..]);
    }
  }

  /** The CRC of any byte string has the parity of that byte string. */
  lemma CrcParity(data: bytes)
    ensures Ones(Crc(data), 16) % 2 == OnesOf(data) % 2
  {
    FeedParity(0xFFFF, data);
    OddIsOnes(Crc(data), 16);
    ConstantParities();
  }

  // ----- the stored form and the number of flipped bits -----

  /** struct.pack("<H", crc). */
  function Stored(crc: bv16): (p: bytes)
    ensures |p| == 2
  {
    [OfBits((crc & 0xFF) as bv8), OfBits((crc >> 8) as bv8)]
  }

  function Low(crc: bv16): bv16 {
    crc & 0xFF
  }

  function High(crc: bv16): bv16 {
    crc >> 8
  }

  lemma StoredBits(crc: bv16)
    ensures Bits(Stored(crc)[0]) == Low(crc) && Bits(Stored(crc)[1]) == High(crc)
  {
    hide OfBits, ToBits;
    OfBitsToBits((crc & 0xFF) as bv8);
    OfBitsToBits((crc >> 8) as bv8);
  }

  lemma LowNibbles(crc: bv16)
    ensures OddLow4(Low(crc)) == OddLow4(crc)
    ensures OddLow4(Shr4(Low(crc))) == OddLow4(Shr4(crc))
    ensures Shr4(Shr4(Low(crc))) == 0
  {
  }

  lemma HighNibbles(crc: bv16)
    ensures High(crc) == Shr4(Shr4(crc)) && Shr4(Shr4(High(crc))) == 0
  {
  }

  lemma {:induction false} OddZero(n: nat)
    ensures !Odd(0, n)
    decreases n
  {
    if n > 0 {
      assert !Lsb(0) && Shr(0) == 0;
      OddZero(n - 1);
    }
  }

  lemma HalvesParity(crc: bv16)
    ensures Odd(crc, 16) == (Odd(Low(crc), 16) != Odd(High(crc), 16))
  {
    LowNibbles(crc);
    HighNibbles(crc);
    hide Odd, OddLow4, Shr4, Low, High;
    var lo, hi := Low(crc), High(crc);
    OddZero(8);
    OddZero(0);
    OddNibble(crc, 16);
    OddNibble(Shr4(crc), 12);
    OddNibble(lo, 16);
    OddNibble(Shr4(lo), 12);
    OddNibble(hi, 16);
    OddNibble(Shr4(hi), 12);
    OddNibble(hi, 8);
    OddNibble(Shr4(hi), 4);
  }

  lemma StoredParity(crc: bv16)
    ensures OnesOf(Stored(crc)) % 2 == Ones(crc, 16) % 2
  {
    hide *;
    StoredBits(crc);
    HalvesParity(crc);
    TwoOnes(Stored(crc));
    OddIsOnes(crc, 16);
    OddIsOnes(Low(crc), 16);
    OddIsOnes(High(crc), 16);
    SumParity(Ones(Low(crc), 16), Ones(High(crc), 16));
  }

  lemma TwoOnes(p: bytes)
    requires |p| == 2
    ensures OnesOf(p) == Ones(Bits(p[0]), 16) + Ones(Bits(p[1]), 16)
  {
    hide Bits, Ones;
    assert p[1..] == [p[1]] && p[1..][1..] == [];
    assert OnesOf(p[1..]) == Ones(Bits(p[1]), 16) + OnesOf([]);
  }

  lemma SumParity(x: nat, y: nat)
    ensures (x + y) % 2 == 1 <==> (x % 2 == 1) != (y % 2 == 1)
  {
  }

  /** How many bits differ between two byte strings of one length. */
  function FlippedBits(a: bytes, b: bytes): nat
    requires |a| == |b|
  {
    if a == [] then 0 else Ones(Xor(Bits(a[0]), Bits(b[0])), 16) + FlippedBits(a[1..], b[1..])
  }

  lemma FlippedByte(x: bv16, y: bv16)
    ensures Ones(Xor(x, y), 16) % 2 == (Ones(x, 16) + Ones(y, 16)) % 2
  {
    hide Xor, Odd, Ones;
    OddXor(x, y, 16);
    OddIsOnes(x, 16);
    OddIsOnes(y, 16);
    OddIsOnes(Xor(x, y), 16);
  }

  lemma {:induction false} FlippedParity(a: bytes, b: bytes)
    requires |a| == |b|
    ensures FlippedBits(a, b) % 2 == (OnesOf(a) + OnesOf(b)) % 2
  {
    hide Bits, Xor, Ones;
    if a != [] {
      FlippedByte(Bits(a[0]), Bits(b[0]));
      FlippedParity(a[1..], b[1..]);
      var x, y := Ones(Bits(a[0]), 16), Ones(Bits(b[0]), 16);
      AddParities(Ones(Xor(Bits(a[0]), Bits(b[0])), 16), x + y, FlippedBits(a[1..], b[1..]),
        OnesOf(a[1..]) + OnesOf(b[1..]));
    }
  }

  lemma AddParities(a: nat, b: nat, c: nat, d: nat)
    requires a % 2 == b % 2 && c % 2 == d % 2
    ensures (a + c) % 2 == (b + d) % 2
  {
  }

  lemma {:induction false} OnesOfAppend(a: bytes, b: bytes)
    ensures OnesOf(a + b) == OnesOf(a) + OnesOf(b)
  {
    hide Ones, Bits;
    if a == [] {
      assert a + b == b;
    } else {
      assert (a + b)[0] == a[0] && (a + b)[1..] == a[1..] + b;
      OnesOfAppend(a[1..], b);
    }
  }
}

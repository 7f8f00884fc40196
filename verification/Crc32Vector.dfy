/** The published check value of CRC-32, which fixes its polynomial, direction, start and final inversion. */
module Crc32Vector {
  import opened Bytes
  import opened Crc32

  function Eight(x: bv32): bv32 {
    BitStep(BitStep(BitStep(BitStep(BitStep(BitStep(BitStep(BitStep(x))))))))
  }

  lemma StepsUnfold(x: bv32, n: nat)
    ensures n == 0 ==> BitSteps(x, n) == x
    ensures n > 0 ==> BitSteps(x, n) == BitSteps(BitStep(x), n - 1)
  {
  }

  lemma EightSteps(x: bv32)
    ensures BitSteps(x, 8) == Eight(x)
  {
    hide BitSteps, BitStep;
    var x1 := BitStep(x);
    var x2 := BitStep(x1);
    var x3 := BitStep(x2);
    var x4 := BitStep(x3);
    var x5 := BitStep(x4);
    var x6 := BitStep(x5);
    var x7 := BitStep(x6);
    StepsUnfold(x, 8);
    StepsUnfold(x1, 7);
    StepsUnfold(x2, 6);
    StepsUnfold(x3, 5);
    StepsUnfold(x4, 4);
    StepsUnfold(x5, 3);
    StepsUnfold(x6, 2);
    StepsUnfold(x7, 1);
    StepsUnfold(BitStep(x7), 0);
  }

  /** One byte moves the register from one value to another. */
  predicate Moves(crc: bv32, b: byte, next: bv32) {
    Eight(Xor(crc, Bits(b))) == next
  }

  /** The register after the first i bytes, started at all ones. */
  predicate At(data: bytes, i: nat, crc: bv32) {
    i <= |data| && Feed(0xFFFF_FFFF, data[..i]) == crc
  }

  lemma FedNone(data: bytes)
    ensures At(data, 0, 0xFFFF_FFFF)
  {
    hide ByteStep;
    assert data[..0] == [];
  }

  lemma {:induction false} FedLast(crc: bv32, a: bytes, b: byte)
    ensures Feed(crc, a + [b]) == ByteStep(Feed(crc, a), Bits(b))
    decreases |a|
  {
    hide ByteStep, Bits;
    if a == [] {
      assert a + [b] == [b] && [b][1..] == [];
    } else {
      assert (a + [b])[0] == a[0] && (a + [b])[1..] == a[1..] + [b];
      FedLast(ByteStep(crc, Bits(a[0])), a[1..], b);
    }
  }

  lemma Fed(data: bytes, i: nat, crc: bv32, b: byte, next: bv32)
    requires At(data, i, crc) && i < |data| && data[i] == b && Moves(crc, b, next)
    ensures At(data, i + 1, next)
  {
    hide BitSteps, Eight, Feed;
    EightSteps(Xor(crc, Bits(b)));
    assert data[..i + 1] == data[..i] + [b];
    FedLast(0xFFFF_FFFF, data[..i], b);
  }

  lemma MovesA()
    ensures Moves(0xFFFF_FFFF, 0x31, 0x7C23_1048)
    ensures Moves(0x7C23_1048, 0x32, 0xB0AC_BB32)
    ensures Moves(0xB0AC_BB32, 0x33, 0x77B7_9C2D)
    ensures Moves(0x77B7_9C2D, 0x34, 0x641C_1F5C)
    ensures Moves(0x641C_1F5C, 0x35, 0x340A_C5E3)
  {
  }

  lemma MovesB()
    ensures Moves(0x340A_C5E3, 0x36, 0xF68D_2C9E)
    ensures Moves(0xF68D_2C9E, 0x37, 0xAFFC_9660)
    ensures Moves(0xAFFC_9660, 0x38, 0x651F_2550)
    ensures Moves(0x651F_2550, 0x39, 0x340B_C6D9)
  {
  }

  lemma FeedsDigits(data: bytes)
    requires |data| == 9 && forall i :: 0 <= i < 9 ==> data[i] == 0x31 + i
    ensures At(data, 9, 0x340B_C6D9)
  {
    hide *;
    FedNone(data);
    MovesA();
    MovesB();
    Fed(data, 0, 0xFFFF_FFFF, 0x31, 0x7C23_1048);
    Fed(data, 1, 0x7C23_1048, 0x32, 0xB0AC_BB32);
    Fed(data, 2, 0xB0AC_BB32, 0x33, 0x77B7_9C2D);
    Fed(data, 3, 0x77B7_9C2D, 0x34, 0x641C_1F5C);
    Fed(data, 4, 0x641C_1F5C, 0x35, 0x340A_C5E3);
    Fed(data, 5, 0x340A_C5E3, 0x36, 0xF68D_2C9E);
    Fed(data, 6, 0xF68D_2C9E, 0x37, 0xAFFC_9660);
    Fed(data, 7, 0xAFFC_9660, 0x38, 0x651F_2550);
    Fed(data, 8, 0x651F_2550, 0x39, 0x340B_C6D9);
  }

  lemma Inverted()
    ensures Xor(0, 0xFFFF_FFFF) == 0xFFFF_FFFF && Xor(0x340B_C6D9, 0xFFFF_FFFF) == 0xCBF4_3926
  {
  }

  /** zlib.crc32 of the nine ASCII digits. */
  lemma CheckValue()
    ensures Zlib(Ascii("123456789"), 0) == 0xCBF4_3926
  {
    hide Feed, Xor;
    var data := Ascii("123456789");
    FeedsDigits(data);
    assert data[..9] == data;
    Inverted();
  }

  lemma FlagMoves()
    ensures Moves(0xFFFF_FFFF, 0x00, 0x2DFD_1072)
    ensures Moves(0x2DFD_1072, 0x01, 0xC921_DD96)
  {
  }

  lemma FlagsInverted()
    ensures Xor(0, 0xFFFF_FFFF) == 0xFFFF_FFFF && Xor(0xC921_DD96, 0xFFFF_FFFF) == 0x36DE_2269
    ensures Stored(0x36DE_2269) == [0x69, 0x22, 0xDE, 0x36]
  {
  }

  /** The CRC of the stream flags that name CRC-32, as it is stored. */
  lemma FlagsValue(data: bytes)
    requires data == [0x00, 0x01]
    ensures Stored(Zlib(data, 0)) == [0x69, 0x22, 0xDE, 0x36]
  {
    hide Feed, Xor, Moves, At, Stored;
    FlagMoves();
    FedNone(data);
    Fed(data, 0, 0xFFFF_FFFF, 0x00, 0x2DFD_1072);
    Fed(data, 1, 0x2DFD_1072, 0x01, 0xC921_DD96);
    FedAll(data, 0xC921_DD96);
    FlagsInverted();
  }

  lemma FedAll(data: bytes, crc: bv32)
    requires At(data, |data|, crc)
    ensures Feed(0xFFFF_FFFF, data) == crc
  {
    hide Feed;
    assert data[..|data|] == data;
  }
}

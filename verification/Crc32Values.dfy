/** Computing CRCs of known bytes: one closed form for a byte, and what a stored CRC does to the register. */
module Crc32Values {
  import opened Bytes
  import opened Crc32

  /** One bit as a single expression. */
  function Bit(x: bv32): bv32 {
    Xor(Shr(x), if Lsb(x) then 0xEDB88320 else 0)
  }

  /** One byte, already mixed into the register. */
  function Octets(x: bv32): bv32 {
    Bit(Bit(Bit(Bit(Bit(Bit(Bit(Bit(x))))))))
  }

  lemma XorZero(y: bv32)
    ensures Xor(y, 0) == y
  {
  }

  lemma BitIsStep(x: bv32)
    ensures BitStep(x) == Bit(x)
  {
    hide Lsb, Shr, Xor;
    XorZero(Shr(x));
  }

  lemma OctetsAreSteps(x: bv32)
    ensures BitSteps(x, 8) == Octets(x)
  {
    hide BitStep, Bit;
    var x1 := Bit(x);
    var x2 := Bit(x1);
    var x3 := Bit(x2);
    var x4 := Bit(x3);
    var x5 := Bit(x4);
    var x6 := Bit(x5);
    var x7 := Bit(x6);
    var x8 := Bit(x7);
    BitIsStep(x);
    BitIsStep(x1);
    BitIsStep(x2);
    BitIsStep(x3);
    BitIsStep(x4);
    BitIsStep(x5);
    BitIsStep(x6);
    BitIsStep(x7);
    assert BitSteps(x8, 0) == x8;
    assert BitSteps(x6, 2) == BitSteps(x7, 1) == BitSteps(x8, 0);
    assert BitSteps(x4, 4) == BitSteps(x5, 3) == BitSteps(x6, 2);
    assert BitSteps(x2, 6) == BitSteps(x3, 5) == BitSteps(x4, 4);
    assert BitSteps(x, 8) == BitSteps(x1, 7) == BitSteps(x2, 6);
  }

  /** Four bytes at once. */
  function Word(x: bv32, a: bv32, b: bv32, c: bv32, d: bv32): bv32 {
    Octets(Xor(Octets(Xor(Octets(Xor(Octets(Xor(x, a)), b)), c)), d))
  }

  lemma FeedByte(x: bv32, a: byte, rest: bytes)
    ensures Feed(x, [a] + rest) == Feed(Octets(Xor(x, Bits(a))), rest)
  {
    hide Octets, BitSteps, Bits, Xor;
    OctetsAreSteps(Xor(x, Bits(a)));
    assert ([a] + rest)[1..] == rest;
  }

  lemma FeedWord(x: bv32, a: byte, b: byte, c: byte, d: byte, rest: bytes)
    ensures Feed(x, [a, b, c, d] + rest) == Feed(Word(x, Bits(a), Bits(b), Bits(c), Bits(d)), rest)
  {
    hide Octets, Bits, Feed, Xor;
    Peel(a, b, c, d, rest);
    FeedByte(x, a, [b] + ([c] + ([d] + rest)));
    var y := Octets(Xor(x, Bits(a)));
    FeedByte(y, b, [c] + ([d] + rest));
    var z := Octets(Xor(y, Bits(b)));
    FeedByte(z, c, [d] + rest);
    FeedByte(Octets(Xor(z, Bits(c))), d, rest);
  }

  lemma Peel(a: byte, b: byte, c: byte, d: byte, rest: bytes)
    ensures [a, b, c, d] + rest == [a] + ([b] + ([c] + ([d] + rest)))
  {
  }

  lemma FeedNothing(x: bv32)
    ensures Feed(x, []) == x
  {
  }

  // ----- the residue -----

  function Down(x: bv32): bv32 {
    x >> 8
  }

  function Lowest(x: bv32): bv32 {
    x & 0xFF
  }

  lemma EvenBit(y: bv32)
    requires !Lsb(y)
    ensures Bit(y) == Shr(y)
  {
    hide Lsb, Shr, Xor;
    XorZero(Shr(y));
  }

  lemma ShiftsAdd(y: bv32)
    ensures Shr(y) == y >> 1 && Shr(y >> 1) == y >> 2 && Shr(y >> 2) == y >> 3 && Shr(y >> 3) == y >> 4
    ensures Shr(y >> 4) == y >> 5 && Shr(y >> 5) == y >> 6 && Shr(y >> 6) == y >> 7 && Shr(y >> 7) == y >> 8
  {
  }

  lemma LowBitsClear(y: bv32)
    requires y & 0xFF == 0
    ensures !Lsb(y) && !Lsb(y >> 1) && !Lsb(y >> 2) && !Lsb(y >> 3)
    ensures !Lsb(y >> 4) && !Lsb(y >> 5) && !Lsb(y >> 6) && !Lsb(y >> 7)
  {
  }

  /** Eight clear bits are shifted out without a reduction. */
  lemma ClearOctet(y: bv32)
    requires y & 0xFF == 0
    ensures Octets(y) == y >> 8
  {
    hide Bit, Shr, Lsb;
    LowBitsClear(y);
    ShiftsAdd(y);
    EvenBit(y);
    EvenBit(y >> 1);
    EvenBit(y >> 2);
    EvenBit(y >> 3);
    EvenBit(y >> 4);
    EvenBit(y >> 5);
    EvenBit(y >> 6);
    EvenBit(y >> 7);
  }

  lemma WithoutLowest(x: bv32)
    ensures Xor(x, Lowest(x)) & 0xFF == 0 && Xor(x, Lowest(x)) >> 8 == Down(x)
  {
  }

  lemma LowOctetShiftsOut(x: bv32)
    ensures Octets(Xor(x, Lowest(x))) == Down(x)
  {
    hide *;
    WithoutLowest(x);
    ClearOctet(Xor(x, Lowest(x)));
  }

  lemma DownFour(x: bv32)
    ensures Down(Down(Down(Down(x)))) == 0
  {
  }

  /** The four stored bytes, least significant first. */
  lemma StoredBits(x: bv32)
    ensures Bits(Stored(x)[0]) == Lowest(x) && Bits(Stored(x)[1]) == Lowest(Down(x))
    ensures Bits(Stored(x)[2]) == Lowest(Down(Down(x))) && Bits(Stored(x)[3]) == Lowest(Down(Down(Down(x))))
  {
    hide OfBits, ToBits;
    OfBitsToBits(Octet(x, 0));
    OfBitsToBits(Octet(x, 1));
    OfBitsToBits(Octet(x, 2));
    OfBitsToBits(Octet(x, 3));
  }

  /** Feeding a register its own stored value leaves nothing. */
  lemma StoredCancels(x: bv32, rest: bytes)
    ensures Feed(x, Stored(x) + rest) == Feed(0, rest)
  {
    hide Bits, Feed, Stored, Octets, Xor, Down, Lowest;
    var p := Stored(x);
    StoredBits(x);
    assert p == [p[0], p[1], p[2], p[3]];
    FeedWord(x, p[0], p[1], p[2], p[3], rest);
    LowOctetShiftsOut(x);
    LowOctetShiftsOut(Down(x));
    LowOctetShiftsOut(Down(Down(x)));
    LowOctetShiftsOut(Down(Down(Down(x))));
    DownFour(x);
  }

  // ----- two values -----

  lemma SmallBits()
    ensures Bits(0) == 0 && Bits(2) == 2 && Bits(7) == 7 && Bits(18) == 18 && Bits(44) == 44 && Bits(0xA4) == 0xA4
            && Bits(0x81) == 0x81
  {
  }

  lemma LetterBits()
    ensures Bits(0x73) == 0x73 && Bits(0x65) == 0x65 && Bits(0x72) == 0x72 && Bits(0x69) == 0x69 && Bits(0x61) == 0x61
    ensures Bits(0x6C) == 0x6C && Bits(0x2E) == 0x2E && Bits(0x63) == 0x63 && Bits(0x66) == 0x66 && Bits(0x67) == 0x67
  {
  }

  lemma FirstValues()
    ensures Word(0x00000000, 7, 0, 0, 0) == 0x9DD738B9
    ensures Word(0x9DD738B9, 2, 0, 0, 0) == 0xA0CCC192
  {
    assert Octets(Xor(0x00000000, 7)) == 0x9E6495A3;
    assert Octets(Xor(0x9E6495A3, 0)) == 0x4F4196C7;
    assert Octets(Xor(0x4F4196C7, 0)) == 0x054F1685;
    assert Octets(Xor(0x054F1685, 0)) == 0x9DD738B9;
    assert Octets(Xor(0x9DD738B9, 2)) == 0x5C2EBD3C;
    assert Octets(Xor(0x5C2EBD3C, 0)) == 0x2F33523A;
    assert Octets(Xor(0x2F33523A, 0)) == 0xC623EAE0;
    assert Octets(Xor(0xC623EAE0, 0)) == 0xA0CCC192;
    hide Octets, Xor;
  }

  lemma FirstWords(rest: bytes)
    ensures Feed(0x00000000, [7, 0, 0, 0] + ([2, 0, 0, 0] + rest)) == Feed(0xA0CCC192, rest)
  {
    hide Word, Feed, Bits;
    SmallBits();
    FirstValues();
    FeedWord(0x00000000, 7, 0, 0, 0, [2, 0, 0, 0] + rest);
    FeedWord(0x9DD738B9, 2, 0, 0, 0, rest);
  }

  lemma SecondValues()
    ensures Word(0xA0CCC192, 0xA4, 0x81, 0, 0) == 0x14431117
    ensures Word(0x14431117, 0, 0, 0, 0) == 0x11A46EDA
  {
    assert Octets(Xor(0xA0CCC192, 0xA4)) == 0xCF1A5958;
    assert Octets(Xor(0xCF1A5958, 0x81)) == 0xFFC07029;
    assert Octets(Xor(0xFFC07029, 0)) == 0x424D581C;
    assert Octets(Xor(0x424D581C, 0)) == 0x14431117;
    assert Octets(Xor(0x14431117, 0)) == 0x83C7C6D6;
    assert Octets(Xor(0x83C7C6D6, 0)) == 0x6F33B027;
    assert Octets(Xor(0x6F33B027, 0)) == 0xA56586DB;
    assert Octets(Xor(0xA56586DB, 0)) == 0x11A46EDA;
    hide Octets, Xor;
  }

  lemma SecondWords(rest: bytes)
    ensures Feed(0xA0CCC192, [0xA4, 0x81, 0, 0] + ([0, 0, 0, 0] + rest)) == Feed(0x11A46EDA, rest)
  {
    hide Word, Feed, Bits;
    SmallBits();
    SecondValues();
    FeedWord(0xA0CCC192, 0xA4, 0x81, 0, 0, [0, 0, 0, 0] + rest);
    FeedWord(0x14431117, 0, 0, 0, 0, rest);
  }

  lemma ThirdValues()
    ensures Word(0x11A46EDA, 44, 0, 0, 0) == 0x419FF64E
    ensures Word(0x419FF64E, 18, 0, 0, 0) == 0xC79058AB
  {
    assert Octets(Xor(0x11A46EDA, 44)) == 0x54CFF347;
    assert Octets(Xor(0x54CFF347, 0)) == 0xE8EC1BC0;
    assert Octets(Xor(0xE8EC1BC0, 0)) == 0x9B8C2EAB;
    assert Octets(Xor(0x9B8C2EAB, 0)) == 0x419FF64E;
    assert Octets(Xor(0x419FF64E, 18)) == 0x629C8229;
    assert Octets(Xor(0x629C8229, 0)) == 0x42D004EE;
    assert Octets(Xor(0x42D004EE, 0)) == 0x47F01F7B;
    assert Octets(Xor(0x47F01F7B, 0)) == 0xC79058AB;
    hide Octets, Xor;
  }

  lemma ThirdWords(rest: bytes)
    ensures Feed(0x11A46EDA, [44, 0, 0, 0] + ([18, 0, 0, 0] + rest)) == Feed(0xC79058AB, rest)
  {
    hide Word, Feed, Bits;
    SmallBits();
    ThirdValues();
    FeedWord(0x11A46EDA, 44, 0, 0, 0, [18, 0, 0, 0] + rest);
    FeedWord(0x419FF64E, 18, 0, 0, 0, rest);
  }

  lemma FourthValues()
    ensures Word(0xC79058AB, 18, 0, 0, 0) == 0x7694A311
    ensures Word(0x7694A311, 18, 0, 0, 0) == 0x65C0D7C0
  {
    assert Octets(Xor(0xC79058AB, 18)) == 0xB27A9B70;
    assert Octets(Xor(0xB27A9B70, 0)) == 0x50B70BA7;
    assert Octets(Xor(0x50B70BA7, 0)) == 0x48E28140;
    assert Octets(Xor(0x48E28140, 0)) == 0x7694A311;
    assert Octets(Xor(0x7694A311, 18)) == 0x997FC519;
    assert Octets(Xor(0x997FC519, 0)) == 0x64F2D705;
    assert Octets(Xor(0x64F2D705, 0)) == 0x700E0658;
    assert Octets(Xor(0x700E0658, 0)) == 0x65C0D7C0;
    hide Octets, Xor;
  }

  lemma FourthWords(rest: bytes)
    ensures Feed(0xC79058AB, [18, 0, 0, 0] + ([18, 0, 0, 0] + rest)) == Feed(0x65C0D7C0, rest)
  {
    hide Word, Feed, Bits;
    SmallBits();
    FourthValues();
    FeedWord(0xC79058AB, 18, 0, 0, 0, [18, 0, 0, 0] + rest);
    FeedWord(0x7694A311, 18, 0, 0, 0, rest);
  }

  lemma FifthValues()
    ensures Word(0x65C0D7C0, 0, 0, 0, 0) == 0x08A98F2A
    ensures Word(0x08A98F2A, 44, 0, 0, 0) == 0xBE1C8CF3
  {
    assert Octets(Xor(0x65C0D7C0, 0)) == 0x9B010267;
    assert Octets(Xor(0x9B010267, 0)) == 0xD34DF5F9;
    assert Octets(Xor(0xD34DF5F9, 0)) == 0xC4B2074D;
    assert Octets(Xor(0xC4B2074D, 0)) == 0x08A98F2A;
    assert Octets(Xor(0x08A98F2A, 44)) == 0xE96B0CBA;
    assert Octets(Xor(0xE96B0CBA, 0)) == 0x2B5D319E;
    assert Octets(Xor(0x2B5D319E, 0)) == 0x179CE372;
    assert Octets(Xor(0x179CE372, 0)) == 0xBE1C8CF3;
    hide Octets, Xor;
  }

  lemma FifthWords(rest: bytes)
    ensures Feed(0x65C0D7C0, [0, 0, 0, 0] + ([44, 0, 0, 0] + rest)) == Feed(0xBE1C8CF3, rest)
  {
    hide Word, Feed, Bits;
    SmallBits();
    FifthValues();
    FeedWord(0x65C0D7C0, 0, 0, 0, 0, [44, 0, 0, 0] + rest);
    FeedWord(0x08A98F2A, 44, 0, 0, 0, rest);
  }

  lemma LastValues()
    ensures Word(0xBE1C8CF3, 44, 0, 0, 0) == 0x5CB688FD
    ensures Word(0x5CB688FD, 0, 0, 0, 0) == 0x4B6890A3
  {
    assert Octets(Xor(0xBE1C8CF3, 44)) == 0x16D2D3C9;
    assert Octets(Xor(0x16D2D3C9, 0)) == 0xE2AEA8C7;
    assert Octets(Xor(0xE2AEA8C7, 0)) == 0x05E2F9BB;
    assert Octets(Xor(0x05E2F9BB, 0)) == 0x5CB688FD;
    assert Octets(Xor(0x5CB688FD, 0)) == 0xC3503829;
    assert Octets(Xor(0xC3503829, 0)) == 0x4271C854;
    assert Octets(Xor(0x4271C854, 0)) == 0x6C44E425;
    assert Octets(Xor(0x6C44E425, 0)) == 0x4B6890A3;
    hide Octets, Xor;
  }

  lemma LastWords(rest: bytes)
    ensures Feed(0xBE1C8CF3, [44, 0, 0, 0] + ([0, 0, 0, 0] + rest)) == Feed(0x4B6890A3, rest)
  {
    hide Word, Feed, Bits;
    SmallBits();
    LastValues();
    FeedWord(0xBE1C8CF3, 44, 0, 0, 0, [0, 0, 0, 0] + rest);
    FeedWord(0x5CB688FD, 0, 0, 0, 0, rest);
  }

  lemma LastLetters()
    ensures Octets(Xor(Octets(Xor(0x3472D72B, 0x66)), 0x67)) == 0x8EB6B6B6
    ensures Word(0, 0x73, 0x65, 0x72, 0x69) == 0x1EF1C431 && Word(0x1EF1C431, 0x61, 0x6C, 0x2E, 0x63) == 0x3472D72B
  {
  }

  /** The register after "serial.cfg". */
  lemma NameValue()
    ensures Feed(0, [0x73, 0x65, 0x72, 0x69, 0x61, 0x6C, 0x2E, 0x63, 0x66, 0x67]) == 0x8EB6B6B6
  {
    hide Word, Feed, Bits, Octets, Xor;
    LetterBits();
    LastLetters();
    var tail: bytes := [0x66, 0x67];
    var name: bytes := [0x73, 0x65, 0x72, 0x69, 0x61, 0x6C, 0x2E, 0x63, 0x66, 0x67];
    assert name == [0x73, 0x65, 0x72, 0x69] + ([0x61, 0x6C, 0x2E, 0x63] + tail);
    FeedWord(0, 0x73, 0x65, 0x72, 0x69, [0x61, 0x6C, 0x2E, 0x63] + tail);
    FeedWord(0x1EF1C431, 0x61, 0x6C, 0x2E, 0x63, tail);
    assert tail == [0x66] + [0x67] && [0x67] + [] == [0x67];
    FeedByte(0x3472D72B, 0x66, [0x67]);
    FeedByte(Octets(Xor(0x3472D72B, 0x66)), 0x67, []);
    FeedNothing(0x8EB6B6B6);
  }

  /** A register with a nonzero top octet is stored with a nonzero last byte. */
  lemma TopByte(x: bv32)
    requires Octet(x, 3) != 0
    ensures Stored(x)[3] >= 1
  {
    hide OfBits, ToBits, Octet;
    OfBitsToBits(Octet(x, 3));
    ZeroBits();
  }

  lemma ZeroBits()
    ensures ToBits(0) == 0
  {
  }
}

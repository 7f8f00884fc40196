/** Published values: the check value of the report CRC, and the report that asks for the update mode. */
module ReportVectors {
  import opened Bytes
  import opened Crc16
  import NormalReport

  function Eight(x: bv16): bv16 {
    BitStep(BitStep(BitStep(BitStep(BitStep(BitStep(BitStep(BitStep(x))))))))
  }

  lemma EightSteps(x: bv16)
    ensures BitSteps(x, 8) == Eight(x)
  {
    hide BitSteps, BitStep;
    var x1 := BitStep(x);
    var x2 := BitStep(x1);
    var x3 := BitStep(x2);
    var x4 := BitStep(x3);
    var x5 := BitStep(x4);
    var x6 := BitStep(x5);
    var x7 := BitStep(x6);
    BitStepsUnfold(x, 8);
    BitStepsUnfold(x1, 7);
    BitStepsUnfold(x2, 6);
    BitStepsUnfold(x3, 5);
    BitStepsUnfold(x4, 4);
    BitStepsUnfold(x5, 3);
    BitStepsUnfold(x6, 2);
    BitStepsUnfold(x7, 1);
    BitStepsUnfold(BitStep(x7), 0);
  }

  /** One byte moves the register from one value to another. */
  predicate Moves(crc: bv16, b: byte, next: bv16) {
    Eight(Xor(crc, Bits(b))) == next
  }

  /** The register after the first i bytes. */
  predicate At(data: bytes, i: nat, crc: bv16) {
    i <= |data| && Crc(data[..i]) == crc
  }

  lemma CrcOfAll(data: bytes, crc: bv16)
    requires At(data, |data|, crc)
    ensures Crc(data) == crc
  {
    hide Crc;
    assert data[..|data|] == data;
  }

  lemma FedNone(data: bytes)
    ensures At(data, 0, 0xFFFF)
  {
    hide ByteStep;
    assert data[..0] == [];
  }

  lemma Fed(data: bytes, i: nat, crc: bv16, b: byte, next: bv16)
    requires At(data, i, crc) && i < |data| && data[i] == b && Moves(crc, b, next)
    ensures At(data, i + 1, next)
  {
    hide BitSteps, Eight;
    EightSteps(Xor(crc, Bits(b)));
    assert data[..i + 1] == data[..i] + [b];
    assert [b][1..] == [];
    FeedAppend(0xFFFF, data[..i], [b]);
  }

  lemma CheckMoves()
    ensures Moves(0xFFFF, 0x31, 0x07B1)
    ensures Moves(0x07B1, 0x32, 0x0837)
    ensures Moves(0x0837, 0x33, 0x1FB6)
    ensures Moves(0x1FB6, 0x34, 0x1FE1)
    ensures Moves(0x1FE1, 0x35, 0x098C)
    ensures Moves(0x098C, 0x36, 0x02CC)
    ensures Moves(0x02CC, 0x37, 0x0D38)
    ensures Moves(0x0D38, 0x38, 0x000D)
    ensures Moves(0x000D, 0x39, 0x1DBA)
  {
  }

  lemma FeedsDigits(data: bytes)
    requires |data| == 9 && forall i :: 0 <= i < 9 ==> data[i] == 0x31 + i
    ensures At(data, 9, 0x1DBA)
  {
    hide *;
    FedNone(data);
    CheckMoves();
    Fed(data, 0, 0xFFFF, 0x31, 0x07B1);
    Fed(data, 1, 0x07B1, 0x32, 0x0837);
    Fed(data, 2, 0x0837, 0x33, 0x1FB6);
    Fed(data, 3, 0x1FB6, 0x34, 0x1FE1);
    Fed(data, 4, 0x1FE1, 0x35, 0x098C);
    Fed(data, 5, 0x098C, 0x36, 0x02CC);
    Fed(data, 6, 0x02CC, 0x37, 0x0D38);
    Fed(data, 7, 0x0D38, 0x38, 0x000D);
    Fed(data, 8, 0x000D, 0x39, 0x1DBA);
  }

  /** The check value of the CRC, over the nine ASCII digits. */
  lemma CheckValue()
    ensures Crc(Ascii("123456789")) == 0x1DBA
  {
    var data := Ascii("123456789");
    FeedsDigits(data);
    assert data[..9] == data;
  }

  lemma UpgradeMovesA()
    ensures Moves(0xFFFF, 0x01, 0x05B5)
    ensures Moves(0x05B5, 0x5A, 0x0CBC)
    ensures Moves(0x0CBC, 0x5A, 0x0444)
    ensures Moves(0x0444, 0x00, 0x078B)
    ensures Moves(0x078B, 0x40, 0x0F39)
    ensures Moves(0x0F39, 0x01, 0x1D34)
    ensures Moves(0x1D34, 0x08, 0x0298)
    ensures Moves(0x0298, 0x00, 0x1121)
    ensures Moves(0x1121, 0x00, 0x0BE6)
    ensures Moves(0x0BE6, 0x00, 0x0443)
  {
  }

  lemma UpgradeMovesB()
    ensures Moves(0x0443, 0x00, 0x0024)
    ensures Moves(0x0024, 0x00, 0x0387)
    ensures Moves(0x0387, 0x54, 0x0E3F)
    ensures Moves(0x0E3F, 0x44, 0x1D15)
    ensures Moves(0x1D15, 0x50, 0x105C)
    ensures Moves(0x105C, 0x55, 0x08E1)
    ensures Moves(0x08E1, 0xA1, 0x1839)
    ensures Moves(0x1839, 0x03, 0x12FC)
    ensures Moves(0x12FC, 0x02, 0x0558)
    ensures Moves(0x0558, 0x01, 0x0EF8)
  {
  }

  /** Header and payload of the report that asks for the update mode. */
  const UPGRADE_COVERED: bytes := [0x01, 0x5A, 0x5A, 0x00, 0x40, 0x01, 0x08, 0x00, 0x00, 0x00, 0x00, 0x00,
                                   0x54, 0x44, 0x50, 0x55, 0xA1, 0x03, 0x02, 0x01]

  lemma FeedsUpgrade(data: bytes)
    requires |data| == 20
    requires data[0] == 0x01 && data[1] == 0x5A && data[2] == 0x5A && data[3] == 0x00 && data[4] == 0x40
             && data[5] == 0x01 && data[6] == 0x08 && data[7] == 0x00 && data[8] == 0x00 && data[9] == 0x00
             && data[10] == 0x00 && data[11] == 0x00 && data[12] == 0x54 && data[13] == 0x44 && data[14] == 0x50
             && data[15] == 0x55 && data[16] == 0xA1 && data[17] == 0x03 && data[18] == 0x02 && data[19] == 0x01
    ensures At(data, 20, 0x0EF8)
  {
    hide *;
    FedNone(data);
    UpgradeMovesA();
    UpgradeMovesB();
    Fed(data, 0, 0xFFFF, 0x01, 0x05B5);
    Fed(data, 1, 0x05B5, 0x5A, 0x0CBC);
    Fed(data, 2, 0x0CBC, 0x5A, 0x0444);
    Fed(data, 3, 0x0444, 0x00, 0x078B);
    Fed(data, 4, 0x078B, 0x40, 0x0F39);
    Fed(data, 5, 0x0F39, 0x01, 0x1D34);
    Fed(data, 6, 0x1D34, 0x08, 0x0298);
    Fed(data, 7, 0x0298, 0x00, 0x1121);
    Fed(data, 8, 0x1121, 0x00, 0x0BE6);
    Fed(data, 9, 0x0BE6, 0x00, 0x0443);
    Fed(data, 10, 0x0443, 0x00, 0x0024);
    Fed(data, 11, 0x0024, 0x00, 0x0387);
    Fed(data, 12, 0x0387, 0x54, 0x0E3F);
    Fed(data, 13, 0x0E3F, 0x44, 0x1D15);
    Fed(data, 14, 0x1D15, 0x50, 0x105C);
    Fed(data, 15, 0x105C, 0x55, 0x08E1);
    Fed(data, 16, 0x08E1, 0xA1, 0x1839);
    Fed(data, 17, 0x1839, 0x03, 0x12FC);
    Fed(data, 18, 0x12FC, 0x02, 0x0558);
    Fed(data, 19, 0x0558, 0x01, 0x0EF8);
  }

  lemma UpgradeCrc()
    ensures Crc(UPGRADE_COVERED) == 0x0EF8
  {
    var data := UPGRADE_COVERED;
    hide Crc, At, Feed;
    FeedsUpgrade(data);
    CrcOfAll(data, 0x0EF8);
  }

  const UPGRADE: NormalReport.Frame :=
    NormalReport.Frame(0x4000, 1, 0, [0x54, 0x44, 0x50, 0x55, 0xA1, 0x03, 0x02, 0x01])

  lemma UpgradeHeader()
    ensures NormalReport.Header(UPGRADE) == UPGRADE_COVERED[..12]
    ensures NormalReport.Checked(UPGRADE) == UPGRADE_COVERED
  {
    assert UPGRADE_COVERED == UPGRADE_COVERED[..12] + UPGRADE.payload;
  }

  /** The request for the update mode, byte by byte. */
  lemma UpgradeReport()
    ensures var r := NormalReport.Report(UPGRADE);
            && |r| == 1024
            && r[..22] == [0x01, 0x5A, 0x5A, 0x00, 0x40, 0x01, 0x08, 0x00, 0x00, 0x00, 0x00, 0x00, 0xF8, 0x0E,
                           0x54, 0x44, 0x50, 0x55, 0xA1, 0x03, 0x02, 0x01]
            && forall i :: 22 <= i < 1024 ==> r[i] == 0
  {
    hide Crc, Stored, NormalReport.Header, NormalReport.Checked;
    UpgradeHeader();
    UpgradeCrc();
    StoredUpgrade();
    var r := NormalReport.Report(UPGRADE);
    assert r[..22] == UPGRADE_COVERED[..12] + [0xF8, 0x0E] + UPGRADE.payload;
  }

  lemma StoredUpgrade()
    ensures Stored(0x0EF8) == [0xF8, 0x0E]
  {
  }
}

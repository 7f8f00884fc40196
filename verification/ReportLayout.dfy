/** Linux-mode reports by offsets: exactly which bytes are parsed to which frame. */
module ReportLayout {
  import opened Bytes
  import Crc16
  import opened NormalReport

  /** The report ID is put back where the transport took it off. */
  function WithId(received: bytes): bytes {
    if |received| == 1023 && received[0] == 0x5A && received[1] == 0x5A then [0x01] + received else received
  }

  /** The header's words, the payload from 14 on, and a CRC over the header, and the payload in types 1 and 2. */
  predicate Carries(r: bytes, f: Frame) {
    && |r| >= 14 && r[0] == 0x01 && r[1] == 0x5A && r[2] == 0x5A
    && f.command as int == r[3] as int + 0x100 * r[4] as int && f.frameType == r[5]
    && |f.payload| == r[6] as int + 0x100 * r[7] as int && 14 + |f.payload| <= |r|
    && f.payload == r[14..14 + |f.payload|]
    && f.status as int == r[8] as int + 0x100 * r[9] as int + 0x1_0000 * r[10] as int + 0x100_0000 * r[11] as int
    && r[12..14] == Crc16.Stored(Crc16.Crc(r[..12] + if r[5] in {1, 2} then f.payload else []))
  }

  lemma ParseExactly(received: bytes, f: Frame)
    ensures Parse(received) == Ok(f) <==> Carries(WithId(received), f)
  {
    hide Crc16.Stored, Crc16.Crc;
    if |received| >= 2 {
      assert received[..2] == [received[0], received[1]];
    }
    var r := WithId(received);
    if |r| >= 3 {
      assert r[1..3] == [r[1], r[2]];
    }
  }

  /** A reply with a payload is read back as it was sent, with type 1; without one it has type 0. */
  lemma ReplyReads(command: u16, status: u32, responseType: byte, payload: bytes)
    requires |payload| <= 1010
    ensures var kept := responseType == 1 && payload != [];
            Parse(Report(ResponseFrame(command, status, responseType, payload))) ==
            Ok(Frame(command, if kept then 1 else 0, status, if kept then payload else []))
  {
    hide Parse, Report;
    ParseReport(ResponseFrame(command, status, responseType, payload));
  }
}

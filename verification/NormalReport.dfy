/**
 Linux-mode HID reports: the host's builder and parser, the device's response
 constructor and the device's acceptance test.
 */
module NormalReport {
  import opened Bytes
  import Crc16

  const REPORT_SIZE := 1024
  const PAYLOAD_OFFSET := 14
  const PAYLOAD_MAX := 1010

  datatype Frame = Frame(command: u16, frameType: byte, status: u32, payload: bytes)

  /** Bytes 0..11 of a report. */
  function Header(f: Frame): (h: bytes)
    requires |f.payload| <= PAYLOAD_MAX
    ensures |h| == 12
  {
    [1, 0x5a, 0x5a] + Pack16(f.command) + [f.frameType] + Pack16(|f.payload|) + Pack32(f.status)
  }

  /** Only frame types 1 and 2 put the payload under the CRC. */
  predicate CoversPayload(frameType: byte) {
    frameType == 1 || frameType == 2
  }

  function Checked(f: Frame): bytes
    requires |f.payload| <= PAYLOAD_MAX
  {
    Header(f) + if CoversPayload(f.frameType) then f.payload else []
  }

  /** The whole report: header, CRC, payload, zero padding. */
  function Report(f: Frame): (r: bytes)
    requires |f.payload| <= PAYLOAD_MAX
    ensures |r| == REPORT_SIZE
  {
    Header(f) + Crc16.Stored(Crc16.Crc(Checked(f))) + f.payload + Repeat(0, PAYLOAD_MAX - |f.payload|)
  }

  /** What the host's parser and the device's dispatcher read from a report. */
  lemma ReportFields(f: Frame)
    requires |f.payload| <= PAYLOAD_MAX
    ensures var r := Report(f);
            && r[0] == 1 && r[1] == 0x5a && r[2] == 0x5a
            && Read16(r, 3) == f.command && r[5] == f.frameType
            && Read16(r, 6) == |f.payload| && Read32(r, 8) == f.status
            && r[..12] == Header(f)
            && r[12..14] == Crc16.Stored(Crc16.Crc(Checked(f)))
            && r[14..14 + |f.payload|] == f.payload
  {
    var r, h := Report(f), Header(f);
    assert r[..12] == h;
    assert h[3..5] == Pack16(f.command) && h[6..8] == Pack16(|f.payload|) && h[8..12] == Pack32(f.status);
    assert r[3..5] == h[3..5] && r[6..8] == h[6..8] && r[8..12] == h[8..12];
    ReadPacked16(r, 3, f.command);
    ReadPacked16(r, 6, |f.payload|);
    ReadPacked32(r, 8, f.status);
    assert r[0] == h[0] && r[1] == h[1] && r[2] == h[2] && r[5] == h[5];
  }

  /** The host's build_normal_report. */
  method BuildNormalReport(command: int, payload: bytes, frameType: int, status: u32) returns (r: Result<bytes>)
    ensures r.Ok? <==> 0 <= command <= 0xFFFF && (frameType == 1 || frameType == 2) && |payload| <= 1010
    ensures r.Ok? ==> r.value == Report(Frame(command, frameType, status, payload))
  {
    hide Header, Report, Crc16.Stored, Crc16.Crc, Pack16, Pack32;
    if !(0 <= command <= 0xFFFF) {
      return Err("normal-mode command must fit in 16 bits");
    }
    if frameType != 1 && frameType != 2 {
      return Err("payload-bearing normal frame type must be 1 or 2");
    }
    if |payload| > PAYLOAD_MAX {
      return Err("normal-mode payload is too large");
    }
    var f := Frame(command, frameType, status, payload);
    var report: array<byte> := new byte[REPORT_SIZE](_ => 0);
    WriteHeader(report, f);
    PutAll(report, PAYLOAD_OFFSET, payload);
    assert report[..12] == Header(f);
    var crc := Crc16.Crc16Normal(report[..12] + payload);
    PutAll(report, 12, Crc16.Stored(crc));
    var built := report[..];
    assert built[..12] == Header(f) && built[12..14] == Crc16.Stored(crc) && built[14..14 + |payload|] == payload;
    assert forall i :: 14 + |payload| <= i < REPORT_SIZE ==> built[i] == 0;
    assert Header(f) + payload == Checked(f);
    LayoutIsReport(built, f);
    return Ok(built);
  }

  method WriteHeader(report: array<byte>, f: Frame)
    requires report.Length == REPORT_SIZE && |f.payload| <= PAYLOAD_MAX
    modifies report
    ensures report[..] == Header(f) + old(report[12..])
  {
    report[0] := 1;
    report[1], report[2] := 0x5a, 0x5a;
    PutU16(report, 3, f.command);
    report[5] := f.frameType;
    PutU16(report, 6, |f.payload|);
    PutU32(report, 8, f.status);
  }

  lemma LayoutIsReport(r: bytes, f: Frame)
    requires |r| == REPORT_SIZE && |f.payload| <= PAYLOAD_MAX
    requires r[..12] == Header(f)
    requires r[12..14] == Crc16.Stored(Crc16.Crc(Checked(f)))
    requires r[14..14 + |f.payload|] == f.payload
    requires forall i :: 14 + |f.payload| <= i < REPORT_SIZE ==> r[i] == 0
    ensures r == Report(f)
  {
    hide Header, Crc16.Stored, Crc16.Crc, Checked;
    assert r == r[..12] + r[12..14] + r[14..14 + |f.payload|] + r[14 + |f.payload|..];
  }

  /** The host's parse_normal_report. */
  function Parse(received: bytes): Result<Frame> {
    var report := if |received| == REPORT_SIZE - 1 && received[..2] == [0x5a, 0x5a] then [1] + received else received;
    if |report| < PAYLOAD_OFFSET then Err("short normal-mode report")
    else if report[0] != 1 then Err("unexpected normal-mode report ID")
    else if report[1..3] != [0x5a, 0x5a] then Err("bad normal-mode magic")
    else
      var frameType, length := report[5], Read16(report, 6);
      if PAYLOAD_OFFSET + length > |report| then Err("normal-mode payload length exceeds report")
      else
        var payload := report[PAYLOAD_OFFSET..PAYLOAD_OFFSET + length];
        var checked := report[..12] + if CoversPayload(frameType) then payload else [];
        if Crc16.Stored(Crc16.Crc(checked)) != report[12..14] then Err("normal-mode CRC mismatch")
        else Ok(Frame(Read16(report, 3), frameType, Read32(report, 8), payload))
  }

  /** Parsing undoes building, for every frame type and with or without the report ID. */
  lemma ParseReport(f: Frame)
    requires |f.payload| <= PAYLOAD_MAX
    ensures Parse(Report(f)) == Ok(f)
    ensures Parse(Report(f)[1..]) == Ok(f)
  {
    ReportFields(f);
    var r := Report(f);
    assert r[1..3] == [0x5a, 0x5a];
    assert r[1..][..2] == r[1..3];
    assert [1] + r[1..] == r;
  }

  datatype Verdict = Accepted | BadReportId | BadMagic | BadCrc

  /** Report ID and magic. */
  predicate Recognised(r: bytes)
    requires |r| >= PAYLOAD_OFFSET
  {
    r[0] == 1 && r[1..3] == [0x5a, 0x5a]
  }

  /** The declared length stays inside the report. */
  predicate Enclosed(r: bytes)
    requires |r| >= PAYLOAD_OFFSET
  {
    PAYLOAD_OFFSET + Read16(r, 6) <= |r|
  }

  /** The bytes under the CRC match the stored one. */
  predicate CrcMatches(r: bytes)
    requires |r| >= PAYLOAD_OFFSET && (CoversPayload(r[5]) ==> Enclosed(r))
  {
    var payload := if CoversPayload(r[5]) then r[PAYLOAD_OFFSET..PAYLOAD_OFFSET + Read16(r, 6)] else [];
    Crc16.Stored(Crc16.Crc(r[..12] + payload)) == r[12..14]
  }

  /** The host's parser goes by the same checks, and by the length. */
  lemma ParseChecks(r: bytes)
    requires |r| == REPORT_SIZE
    ensures Parse(r).Ok? <==> Recognised(r) && Enclosed(r) && CrcMatches(r)
  {
    hide Read16, Read32, Crc16.Stored, Crc16.Crc;
  }

  /**
   dispatch_normal_report up to the command switch. A length that is read has to stay inside the report; where
   no payload is covered it is not read, and the device goes by the header's CRC alone.
   */
  method CheckReport(r: bytes) returns (v: Verdict)
    requires |r| == REPORT_SIZE && (Recognised(r) && CoversPayload(r[5]) ==> Enclosed(r))
    ensures Enclosed(r) ==> (v == Accepted <==> Parse(r).Ok?)
    ensures !Enclosed(r) ==> Parse(r).Err?
    ensures v == Accepted <==> Recognised(r) && CrcMatches(r)
    ensures v == BadReportId <==> r[0] != 1
    ensures v == BadMagic <==> r[0] == 1 && r[1..3] != [0x5a, 0x5a]
  {
    hide Read16, Read32, Parse, Crc16.Stored;
    ParseChecks(r);
    assert r[1..3] == [r[1], r[2]];
    if r[0] != 1 {
      return BadReportId;
    }
    if r[1] != 0x5a || r[2] != 0x5a {
      return BadMagic;
    }
    var computed := Crc16.Cc2Crc16(r[..12], 0xFFFF);
    if r[5] == 1 || r[5] == 2 {
      var payload := r[PAYLOAD_OFFSET..PAYLOAD_OFFSET + Read16(r, 6)];
      computed := Crc16.Cc2Crc16(payload, computed);
      Crc16.FeedAppend(0xFFFF, r[..12], payload);
    } else {
      assert r[..12] + [] == r[..12];
    }
    if Crc16.Stored(computed) != r[12..14] {
      return BadCrc;
    }
    return Accepted;
  }

  /** send_normal_response: the payload is copied only for response type 1. */
  function ResponseFrame(command: u16, status: u32, responseType: byte, payload: bytes): Frame {
    if responseType == 1 && |payload| != 0 then Frame(command, 1, status, payload) else Frame(command, 0, status, [])
  }

  // ----- damage -----

  /** The bytes under the CRC together with the stored CRC: a prefix of the report. */
  function CodewordLength(r: bytes): nat
    requires |r| >= PAYLOAD_OFFSET
  {
    if CoversPayload(r[5]) then PAYLOAD_OFFSET + Read16(r, 6) else PAYLOAD_OFFSET
  }

  /** Every accepted report carries an even number of one bits in its codeword. */
  lemma AcceptedIsEven(r: bytes)
    requires |r| == REPORT_SIZE && Parse(r).Ok?
    ensures CodewordLength(r) <= |r|
    ensures Crc16.OnesOf(r[..CodewordLength(r)]) % 2 == 0
  {
    hide Crc16.OnesOf, Crc16.Ones, Crc16.Stored, Crc16.Crc;
    var n := CodewordLength(r);
    var payload := r[PAYLOAD_OFFSET..n];
    var checked := r[..12] + payload;
    Crc16.CrcParity(checked);
    Crc16.StoredParity(Crc16.Crc(checked));
    assert r[12..14] == Crc16.Stored(Crc16.Crc(checked)) by {
      if !CoversPayload(r[5]) {
        assert payload == [];
      }
    }
    assert r[..n] == r[..12] + (r[12..14] + payload);
    Crc16.OnesOfAppend(r[..12], r[12..14] + payload);
    Crc16.OnesOfAppend(r[12..14], payload);
    Crc16.OnesOfAppend(r[..12], payload);
  }

  /** A corruption that flips an odd number of codeword bits, and leaves type and length alone, is rejected. */
  lemma OddDamageRejected(sent: bytes, received: bytes)
    requires |sent| == |received| == REPORT_SIZE && Parse(sent).Ok?
    requires received[5..8] == sent[5..8]
    requires CodewordLength(sent) <= |sent|
    requires Crc16.FlippedBits(sent[..CodewordLength(sent)], received[..CodewordLength(sent)]) % 2 == 1
    ensures Parse(received).Err?
  {
    hide Crc16.OnesOf, Crc16.FlippedBits;
    var n := CodewordLength(sent);
    assert received[5] == received[5..8][0] && received[6] == received[5..8][1] && received[7] == received[5..8][2];
    assert sent[5] == sent[5..8][0] && sent[6] == sent[5..8][1] && sent[7] == sent[5..8][2];
    assert CodewordLength(received) == n;
    AcceptedIsEven(sent);
    Crc16.FlippedParity(sent[..n], received[..n]);
    if Parse(received).Ok? {
      AcceptedIsEven(received);
    }
  }
}

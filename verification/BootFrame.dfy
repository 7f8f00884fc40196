/** Bootloader frames: a magic, a type, a total length, a payload and an additive checksum. */
module BootFrame {
  import opened Bytes

  const REPORT_SIZE: nat := 3072
  const CAPACITY: nat := 3071

  /** uint8_t addition. */
  function Plus(a: byte, b: byte): byte {
    (a as int + b as int) % 0x100
  }

  lemma PlusWraps(a: byte, b: byte)
    ensures Plus(a, b) as int == if a as int + b as int < 0x100 then a + b else a + b - 0x100
  {
  }

  lemma PlusLaws(a: byte, b: byte, c: byte)
    ensures Plus(Plus(a, b), c) == Plus(a, Plus(b, c)) && Plus(a, 0) == a && Plus(0, a) == a
    ensures Plus(a, c) == Plus(b, c) ==> a == b
    ensures Plus(c, a) == Plus(c, b) ==> a == b
  {
    hide Plus;
    PlusWraps(a, b);
    PlusWraps(Plus(a, b), c);
    PlusWraps(b, c);
    PlusWraps(a, Plus(b, c));
    PlusWraps(a, c);
    PlusWraps(c, a);
    PlusWraps(c, b);
    PlusWraps(a, 0);
    PlusWraps(0, a);
  }

  /** The sum of the bytes modulo 256. */
  function Sum(data: bytes): byte {
    if data == [] then 0 else Plus(Sum(data[..|data| - 1]), data[|data| - 1])
  }

  /** additive_checksum, as an accumulating loop. */
  method AdditiveChecksum(data: bytes) returns (sum: byte)
    ensures sum == Sum(data)
  {
    sum := 0;
    for i := 0 to |data|
      invariant sum == Sum(data[..i])
    {
      assert data[..i + 1][..i] == data[..i];
      sum := (sum as int + data[i] as int) % 0x100;
    }
    assert data[..|data|] == data;
  }

  datatype Side = Host | Device

  function Magic(side: Side): (m: bytes)
    ensures |m| == 3
  {
    [if side == Host then 0x80 else 0x81, 0x00, 0xEE]
  }

  /** Everything but the checksum. */
  function Covered(side: Side, frameType: byte, payload: bytes): (c: bytes)
    requires |payload| + 7 <= 0xFFFF
    ensures |c| == 6 + |payload|
  {
    Magic(side) + [frameType] + Pack16(|payload| + 7) + payload
  }

  function Frame(side: Side, frameType: byte, payload: bytes): (f: bytes)
    requires |payload| + 7 <= 0xFFFF
    ensures |f| == |payload| + 7
  {
    Covered(side, frameType, payload) + [Sum(Covered(side, frameType, payload))]
  }

  lemma FrameFields(side: Side, frameType: byte, payload: bytes)
    requires |payload| + 7 <= 0xFFFF
    ensures var f := Frame(side, frameType, payload);
            && f[..3] == Magic(side) && f[3] == frameType && Read16(f, 4) == |f|
            && f[6..|f| - 1] == payload && f[..|f| - 1] == Covered(side, frameType, payload)
            && f[|f| - 1] == Sum(f[..|f| - 1])
  {
    hide Sum;
    var f, c := Frame(side, frameType, payload), Covered(side, frameType, payload);
    assert f[..|f| - 1] == c;
    assert c[4..6] == Pack16(|payload| + 7) && f[4..6] == c[4..6];
    ReadPacked16(f, 4, |payload| + 7);
    assert f[6..|f| - 1] == c[6..];
  }

  /** build_boot_frame. */
  method BuildBootFrame(frameType: byte, payload: bytes) returns (r: Result<bytes>)
    ensures r.Ok? <==> |payload| + 7 <= CAPACITY
    ensures r.Ok? ==> r.value == Frame(Host, frameType, payload)
  {
    hide Sum;
    var total := |payload| + 7;
    if total > CAPACITY {
      return Err("bootloader frame is too large");
    }
    var frame: array<byte> := new byte[total](_ => 0);
    frame[0], frame[1], frame[2] := 0x80, 0x00, 0xEE;
    frame[3] := frameType;
    PutU16(frame, 4, total);
    PutAll(frame, 6, payload);
    assert frame[..total - 1] == Covered(Host, frameType, payload);
    frame[total - 1] := AdditiveChecksum(frame[..total - 1]);
    assert frame[..total - 1] == Covered(Host, frameType, payload);
    assert frame[..] == frame[..total - 1] + [frame[total - 1]];
    return Ok(frame[..]);
  }

  datatype Parsed = Parsed(frameType: byte, payload: bytes, total: nat)

  /** parse_boot_frame: padding after the declared length is ignored. */
  function Parse(data: bytes, side: Side): Result<Parsed> {
    if |data| < 7 then Err("short bootloader frame")
    else if data[..3] != Magic(side) then Err("bad bootloader frame magic")
    else
      var total := Read16(data, 4);
      if !(7 <= total <= |data|) then Err("invalid bootloader frame length")
      else if Sum(data[..total - 1]) != data[total - 1] then Err("bootloader additive checksum mismatch")
      else Ok(Parsed(data[3], data[6..total - 1], total))
  }

  /** to_boot_hid_report and hid_send_embedded_frame: report ID, frame, zero padding. */
  function HidReport(frame: bytes): (r: bytes)
    requires |frame| <= CAPACITY
    ensures |r| == REPORT_SIZE
  {
    [1] + frame + Repeat(0, CAPACITY - |frame|)
  }

  /** from_boot_hid_report. */
  function FromHidReport(report: bytes): Result<Parsed> {
    Parse(if |report| >= 1 && report[0] == 1 then report[1..] else report, Device)
  }

  /** A padded frame parses back to its type and payload. */
  lemma ParseFrame(side: Side, frameType: byte, payload: bytes, padding: bytes)
    requires |payload| + 7 <= 0xFFFF
    ensures Parse(Frame(side, frameType, payload) + padding, side) == Ok(Parsed(frameType, payload, |payload| + 7))
  {
    hide Sum;
    FrameFields(side, frameType, payload);
    var f := Frame(side, frameType, payload);
    var data := f + padding;
    assert data[..3] == f[..3] && data[..|f| - 1] == f[..|f| - 1] && data[6..|f| - 1] == f[6..|f| - 1];
    assert Read16(data, 4) == Read16(f, 4);
  }

  lemma ParseHidReport(frameType: byte, payload: bytes)
    requires |payload| + 7 <= CAPACITY
    ensures FromHidReport(HidReport(Frame(Device, frameType, payload))) == Ok(Parsed(frameType, payload, |payload| + 7))
  {
    var f := Frame(Device, frameType, payload);
    ParseFrame(Device, frameType, payload, Repeat(0, CAPACITY - |f|));
    assert HidReport(f)[1..] == f + Repeat(0, CAPACITY - |f|);
  }

  // ----- what the checksum detects -----

  /** validate_host_frame with the length the frame declares. */
  predicate Valid(frame: bytes, length: nat)
    requires 1 <= length <= |frame| && |frame| >= 3
  {
    frame[..3] == Magic(Host) && Sum(frame[..length - 1]) == frame[length - 1]
  }

  lemma {:induction false} SumAppend(a: bytes, b: bytes)
    ensures Sum(a + b) == Plus(Sum(a), Sum(b))
    decreases |b|
  {
    hide Plus;
    if b == [] {
      assert a + b == a;
      PlusLaws(Sum(a), 0, 0);
    } else {
      var init, x := b[..|b| - 1], b[|b| - 1];
      assert (a + b)[..|a + b| - 1] == a + init;
      SumAppend(a, init);
      PlusLaws(Sum(a), Sum(init), x);
    }
  }

  /** Replacing one covered byte changes the sum. */
  lemma OneByteChangesSum(pre: bytes, x: byte, y: byte, post: bytes)
    requires x != y
    ensures Sum(pre + [x] + post) != Sum(pre + [y] + post)
  {
    hide Plus;
    SumAppend(pre + [x], post);
    SumAppend(pre + [y], post);
    assert (pre + [x])[..|pre|] == pre && (pre + [y])[..|pre|] == pre;
    PlusLaws(x, y, Sum(pre));
    PlusLaws(Sum(pre + [x]), Sum(pre + [y]), Sum(post));
  }

  /** Any damage to a single byte past the length field of a frame is detected. */
  lemma OneByteDamageDetected(frameType: byte, payload: bytes, at: nat, b: byte)
    requires |payload| + 7 <= 0xFFFF && 6 <= at < |payload| + 7
    requires b != Frame(Host, frameType, payload)[at]
    ensures var f := Frame(Host, frameType, payload);
            Read16(f[at := b], 4) == |f| && !Valid(f[at := b], |f|)
  {
    hide Sum;
    FrameFields(Host, frameType, payload);
    var f, n := Frame(Host, frameType, payload), |payload| + 7;
    var g := f[at := b];
    if at == n - 1 {
      assert g[..n - 1] == f[..n - 1];
    } else {
      assert f[..n - 1] == f[..at] + [f[at]] + f[at + 1..n - 1];
      assert g[..n - 1] == f[..at] + [b] + f[at + 1..n - 1];
      OneByteChangesSum(f[..at], f[at], b, f[at + 1..n - 1]);
    }
  }

  // ----- in plain numbers -----

  /** The sum of all bytes, without wrapping. */
  function Total(data: bytes): nat {
    if data == [] then 0 else Total(data[..|data| - 1]) + data[|data| - 1] as int
  }

  lemma {:induction false} SumIsTotal(data: bytes)
    ensures Sum(data) == Total(data) % 0x100
  {
    if data != [] {
      SumIsTotal(data[..|data| - 1]);
    }
  }

  /** The device validates exactly the host's magic and the byte sum up to the given length. */
  lemma ValidExactly(frame: bytes, length: nat)
    requires 1 <= length <= |frame| && |frame| >= 3
    ensures Valid(frame, length) <==>
            frame[..3] == [0x80, 0x00, 0xEE] && Total(frame[..length - 1]) % 0x100 == frame[length - 1]
  {
    hide Sum, Total;
    SumIsTotal(frame[..length - 1]);
  }

  /** The host parses exactly the frames of one side with a fitting length and the right byte sum, to their parts. */
  lemma ParseExactly(data: bytes, side: Side)
    ensures var first := if side == Host then 0x80 else 0x81;
            var total := if |data| >= 7 then data[4] as int + 0x100 * data[5] as int else 0;
            && (Parse(data, side).Ok? <==>
                && |data| >= 7 && data[..3] == [first, 0x00, 0xEE] && 7 <= total <= |data|
                && Total(data[..total - 1]) % 0x100 == data[total - 1])
            && (Parse(data, side).Ok? ==> Parse(data, side).value == Parsed(data[3], data[6..total - 1], total))
  {
    hide Sum, Total;
    if |data| >= 7 {
      var total := Read16(data, 4);
      if 7 <= total <= |data| {
        SumIsTotal(data[..total - 1]);
      }
    }
  }

  /** A device frame with one byte after its length changed is refused by the host, wherever the byte is. */
  lemma DamagedReplyRefused(frameType: byte, payload: bytes, at: nat, b: byte)
    requires |payload| + 7 <= 0xFFFF && 6 <= at < |payload| + 7
    requires b != Frame(Device, frameType, payload)[at]
    ensures Parse(Frame(Device, frameType, payload)[at := b], Device).Err?
  {
    hide Sum;
    FrameFields(Device, frameType, payload);
    var f, n := Frame(Device, frameType, payload), |payload| + 7;
    var g := f[at := b];
    assert Read16(g, 4) == n;
    if at == n - 1 {
      assert g[..n - 1] == f[..n - 1];
    } else {
      assert f[..n - 1] == f[..at] + [f[at]] + f[at + 1..n - 1];
      assert g[..n - 1] == f[..at] + [b] + f[at + 1..n - 1];
      OneByteChangesSum(f[..at], f[at], b, f[at + 1..n - 1]);
    }
  }

  /** The frame of a known plan: 512 bytes of image in one packet. */
  lemma MetadataVector()
    ensures Frame(Host, 1, Pack16(3060) + Pack32(640) + Pack16(1) + Pack16(0)) ==
            [0x80, 0x00, 0xEE, 0x01, 0x11, 0x00, 0xF4, 0x0B, 0x80, 0x02, 0x00, 0x00, 0x01, 0x00, 0x00, 0x00, 0x02]
  {
    hide Sum, Total;
    var head, p := [0x80, 0x00, 0xEE, 0x01, 0x11, 0x00], Pack16(3060) + Pack32(640) + Pack16(1) + Pack16(0);
    var six, four := [0xF4, 0x0B, 0x80, 0x02, 0x00, 0x00], [0x01, 0x00, 0x00, 0x00];
    assert p == six + four && Covered(Host, 1, p) == head + p;
    TotalSix(0x80, 0x00, 0xEE, 0x01, 0x11, 0x00);
    TotalSix(0xF4, 0x0B, 0x80, 0x02, 0x00, 0x00);
    TotalFour(0x01, 0x00, 0x00, 0x00);
    TotalAppend(six, four);
    TotalAppend(head, p);
    SumIsTotal(head + p);
  }

  lemma {:induction false} TotalAppend(a: bytes, b: bytes)
    ensures Total(a + b) == Total(a) + Total(b)
    decreases |b|
  {
    if b == [] {
      assert a + b == a;
    } else {
      assert (a + b)[..|a + b| - 1] == a + b[..|b| - 1];
      TotalAppend(a, b[..|b| - 1]);
    }
  }

  lemma TotalPush(a: bytes, x: byte)
    ensures Total(a + [x]) == Total(a) + x as int
  {
    assert (a + [x])[..|a|] == a;
  }

  lemma TotalFour(a: byte, b: byte, c: byte, d: byte)
    ensures Total([a, b, c, d]) == a as int + b as int + c as int + d as int
  {
    hide Total;
    TotalPush([], a);
    TotalPush([a], b);
    TotalPush([a, b], c);
    TotalPush([a, b, c], d);
    assert [] + [a] == [a] && [a] + [b] == [a, b] && [a, b] + [c] == [a, b, c] && [a, b, c] + [d] == [a, b, c, d];
    TotalNone();
  }

  lemma TotalNone()
    ensures Total([]) == 0
  {
  }

  lemma TotalSix(a: byte, b: byte, c: byte, d: byte, e: byte, f: byte)
    ensures Total([a, b, c, d, e, f]) == a as int + b as int + c as int + d as int + e as int + f as int
  {
    hide Total;
    TotalFour(a, b, c, d);
    TotalPush([a, b, c, d], e);
    TotalPush([a, b, c, d, e], f);
    assert [a, b, c, d] + [e] == [a, b, c, d, e] && [a, b, c, d, e] + [f] == [a, b, c, d, e, f];
  }
}

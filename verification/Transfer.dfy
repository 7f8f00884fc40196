/** A firmware transfer end to end: the host against the updater, over a link that may damage data frames. */
module Transfer {
  import opened Bytes
  import Arith
  import opened BootFrame
  import opened Chunks
  import opened Updater
  import opened UpdaterRuns

  const DATA_SIZE: nat := 3060

  datatype UpdatePlan = UpdatePlan(
    flashOffset: nat, imageSize: nat, transferSize: nat, imageMd5: bytes,
    packetCount: nat, packetPayloadSize: nat, packetsPerAck: nat)

  datatype Prepared = Prepared(blob: bytes, plan: UpdatePlan)

  predicate InFlash(offset: int, length: nat) {
    0 <= offset && 0 < length && offset + length <= FLASH_SIZE
  }

  // ----- the update blob -----

  function Header(offset: u32, length: u32, digest: bytes): (h: bytes)
    requires |digest| == 16
    ensures |h| == IMAGE_HEADER_SIZE
  {
    Repeat(0, 4) + Pack32(offset) + Pack32(length) + digest + Repeat(0, 100)
  }

  function Blob(image: bytes, offset: u32, md5: Md5): bytes
    requires |image| < 0x1_0000_0000
  {
    Header(offset, |image|, md5(image)) + image
  }

  function Plan(image: bytes, offset: nat, md5: Md5): UpdatePlan {
    var size := IMAGE_HEADER_SIZE + |image|;
    UpdatePlan(offset, |image|, size, md5(image), Packets(size, DATA_SIZE), DATA_SIZE, 1)
  }

  lemma HeaderPieces(h: bytes, offset: u32, length: u32, digest: bytes)
    requires |digest| == 16 && |h| == IMAGE_HEADER_SIZE && h[..4] == Repeat(0, 4) && h[4..8] == Pack32(offset)
    requires h[8..12] == Pack32(length) && h[12..28] == digest && h[28..] == Repeat(0, 100)
    ensures h == Header(offset, length, digest)
  {
    hide Pack32;
    assert h == h[..4] + h[4..8] + h[8..12] + h[12..28] + h[28..];
  }

  /** The header, filled in field by field. */
  method BuildHeader(offset: u32, length: u32, digest: bytes) returns (h: bytes)
    requires |digest| == 16
    ensures h == Header(offset, length, digest)
  {
    hide Pack32, Header, Splice;
    var header := new byte[IMAGE_HEADER_SIZE](_ => 0);
    PutU32(header, 4, offset);
    PutU32(header, 8, length);
    PutAll(header, 12, digest);
    h := header[..];
    assert h[4..8] == Pack32(offset);
    assert h[8..12] == Pack32(length);
    assert h[12..28] == digest;
    HeaderPieces(h, offset, length, digest);
  }

  /** build_update_blob. */
  method BuildUpdateBlob(image: bytes, offset: int, md5: Md5) returns (r: Result<Prepared>)
    ensures r.Ok? <==> 0 <= offset && 0 < |image| && offset + |image| <= 0x80_0000
    ensures r.Ok? ==> r.value == Prepared(Blob(image, offset, md5), Plan(image, offset, md5))
  {
    if offset < 0 || |image| <= 0 {
      return Err("flash offset must be nonnegative and length must be positive");
    }
    if offset + |image| > FLASH_SIZE {
      return Err("flash range exceeds the 8 MiB device");
    }
    hide Packets, Header;
    var digest := md5(image);
    var header := BuildHeader(offset, |image|, digest);
    var size := IMAGE_HEADER_SIZE + |image|;
    var blob := header + image;
    return Ok(Prepared(blob, UpdatePlan(offset, |image|, size, digest, Packets(size, DATA_SIZE), DATA_SIZE, 1)));
  }

  /** The device reads back the range, the digest and the image that the host put in. */
  lemma BlobSound(image: bytes, offset: nat, md5: Md5)
    requires InFlash(offset, |image|)
    ensures var blob := Blob(image, offset, md5);
            && |blob| == IMAGE_HEADER_SIZE + |image| && Sound(blob, FLASH_SIZE, md5)
            && Image(blob) == image && Read32(blob, 4) == offset
  {
    hide Read32, Pack32, Repeat;
    var blob := Blob(image, offset, md5);
    assert blob[4..8] == Pack32(offset) && blob[8..12] == Pack32(|image|);
    ReadPacked32(blob, 4, offset);
    ReadPacked32(blob, 8, |image|);
    assert blob[12..28] == md5(image);
    assert blob[IMAGE_HEADER_SIZE..IMAGE_HEADER_SIZE + |image|] == image;
  }

  // ----- the metadata frame -----

  function MetaPayload(plan: UpdatePlan, version: u16): (p: bytes)
    requires plan.packetPayloadSize < 0x1_0000 && plan.transferSize < 0x1_0000_0000 && plan.packetsPerAck < 0x1_0000
    ensures |p| == 10
  {
    Pack16(plan.packetPayloadSize) + Pack32(plan.transferSize) + Pack16(plan.packetsPerAck) + Pack16(version)
  }

  predicate PlanAllowed(plan: UpdatePlan, version: int) {
    && 1 <= plan.packetPayloadSize <= DATA_SIZE && 1 <= plan.transferSize <= 0xFFFF_FFFF
    && 1 <= plan.packetsPerAck <= 0xFFFF && 0 <= version <= 0xFFFF
    && plan.packetCount == Packets(plan.transferSize, plan.packetPayloadSize)
  }

  /** build_boot_metadata_request. */
  method BuildMetadataRequest(plan: UpdatePlan, version: int) returns (r: Result<bytes>)
    ensures r.Ok? <==>
            && 1 <= plan.packetPayloadSize <= 3060 && 1 <= plan.transferSize <= 0xFFFF_FFFF
            && 1 <= plan.packetsPerAck <= 0xFFFF && 0 <= version <= 0xFFFF
            && plan.packetCount == Packets(plan.transferSize, plan.packetPayloadSize)
    ensures r.Ok? ==> r.value == Frame(Host, 1, MetaPayload(plan, version))
  {
    if !(1 <= plan.packetPayloadSize <= DATA_SIZE) {
      return Err("metadata packet payload out of range");
    }
    if !(1 <= plan.transferSize <= 0xFFFF_FFFF) {
      return Err("metadata transfer size must fit in a nonzero u32");
    }
    if !(1 <= plan.packetsPerAck <= 0xFFFF) {
      return Err("metadata packets-per-ACK must fit in a nonzero u16");
    }
    if !(0 <= version <= 0xFFFF) {
      return Err("metadata firmware version must fit in a u16");
    }
    if plan.packetCount != Packets(plan.transferSize, plan.packetPayloadSize) {
      return Err("metadata packet count does not match");
    }
    r := BuildBootFrame(1, MetaPayload(plan, version));
  }

  /** A type-1 report is decoded to the plan it was built from, with no divisor zero. */
  lemma MetadataReads(plan: UpdatePlan, version: u16)
    requires PlanAllowed(plan, version)
    ensures var frame := HidReport(Frame(Host, 1, MetaPayload(plan, version)))[1..];
            && |frame| == CAPACITY && frame[..3] == Magic(Host) && frame[3] == 1 && MetaInBounds(frame)
            && DecodeMeta(frame) == Meta(plan.packetPayloadSize, plan.transferSize, plan.packetsPerAck, version)
  {
    hide Sum, Read16, Read32, Covered, Packets;
    var p := MetaPayload(plan, version);
    var f := Frame(Host, 1, p);
    FrameFields(Host, 1, p);
    var frame := HidReport(f)[1..];
    assert frame[..16] == f[..16] && f[6..16] == p;
    SliceOfSlice(f, 6, 10, 0, 2);
    SliceOfSlice(f, 6, 10, 2, 6);
    SliceOfSlice(f, 6, 10, 6, 8);
    SliceOfSlice(f, 6, 10, 8, 10);
    SamePrefix(frame, f, 16, 6, 8);
    SamePrefix(frame, f, 16, 8, 12);
    SamePrefix(frame, f, 16, 12, 14);
    SamePrefix(frame, f, 16, 14, 16);
    hide Frame, HidReport;
    ReadPacked16(frame, 6, plan.packetPayloadSize);
    ReadPacked32(frame, 8, plan.transferSize);
    ReadPacked16(frame, 12, plan.packetsPerAck);
    ReadPacked16(frame, 14, version);
    assert frame[..3] == f[..3] && frame[3] == f[3];
  }

  // ----- replies -----

  /** decode_boot_ack. */
  function DecodeAck(frame: Parsed): Result<u32> {
    if frame.frameType != 2 then Err("expected bootloader type 2 ACK")
    else if |frame.payload| != 4 then Err("bootloader type 2 ACK payload must be exactly four bytes")
    else Ok(Read32(frame.payload, 0))
  }

  /** decode_boot_terminal_status. */
  function DecodeTerminal(frame: Parsed): Result<bool> {
    if frame.frameType != 5 then Err("expected bootloader type 5 status")
    else if frame.payload != [0] && frame.payload != [1] then Err("bootloader type 5 payload must be one byte 00 or 01")
    else Ok(frame.payload == [1])
  }

  /** The next report the device has queued; none means that the read times out. */
  function HostRead(sent: seq<bytes>, seen: nat): Result<Parsed>
    requires seen < |sent| ==> |sent[seen]| <= CAPACITY
  {
    if seen < |sent| then FromHidReport(HidReport(sent[seen])) else Err("timed out waiting for HID response")
  }

  function ReadAck(sent: seq<bytes>, seen: nat): Result<u32>
    requires seen < |sent| ==> |sent[seen]| <= CAPACITY
  {
    var reply :- HostRead(sent, seen);
    DecodeAck(reply)
  }

  function ReadTerminal(sent: seq<bytes>, seen: nat): Result<bool>
    requires seen < |sent| ==> |sent[seen]| <= CAPACITY
  {
    var reply :- HostRead(sent, seen);
    DecodeTerminal(reply)
  }

  lemma AckRead(sent: seq<bytes>, packet: u32)
    ensures |Ack(packet)| <= CAPACITY && ReadAck(sent + [Ack(packet)], |sent|) == Ok(packet)
    ensures ReadTerminal(sent + [Ack(packet)], |sent|).Err?
  {
    hide Sum, Read32, HidReport, FromHidReport, Covered;
    ParseHidReport(2, Pack32(packet));
    assert Pack32(packet)[0..4] == Pack32(packet);
    ReadPacked32(Pack32(packet), 0, packet);
  }

  lemma TerminalRead(sent: seq<bytes>, success: byte)
    requires success == 0 || success == 1
    ensures |Terminal(success)| <= CAPACITY && ReadTerminal(sent + [Terminal(success)], |sent|) == Ok(success == 1)
  {
    hide Sum, HidReport, FromHidReport, Covered;
    ParseHidReport(5, [success]);
  }

  // ----- the link -----

  function DataFrame(blob: bytes, k: u32): (f: bytes)
    ensures 11 <= |f| <= CAPACITY
  {
    Frame(Host, 3, DataPayload(blob, DATA_SIZE, k))
  }

  /** The report that arrives carries the frame that was sent. */
  predicate Intact(frame: bytes, report: bytes) {
    |report| == REPORT_SIZE && 1 + |frame| <= REPORT_SIZE && report[1..1 + |frame|] == frame
  }

  /**
   What the link may do to a data report: leave its frame alone, or spoil anything after the length
   field in a way that the additive checksum shows.
   */
  ghost predicate Carried(frame: bytes, report: bytes)
    requires 7 <= |frame| <= CAPACITY
  {
    && |report| == REPORT_SIZE && report[..7] == HidReport(frame)[..7]
    && (Intact(frame, report) || !Valid(report[1..], |frame|))
  }

  ghost predicate Carries(link: (nat, bytes) -> bytes) {
    forall k: nat, frame: bytes {:trigger link(k, HidReport(frame))} ::
      7 <= |frame| <= CAPACITY ==> Carried(frame, link(k, HidReport(frame)))
  }

  /** Every data report of the transfer gets through. */
  ghost predicate AllIntact(blob: bytes, link: (nat, bytes) -> bytes, upTo: nat) {
    forall k: u32 :: k < upTo ==> Intact(DataFrame(blob, k), link(k, HidReport(DataFrame(blob, k))))
  }

  /** A link that changes nothing carries every report: over it a transfer can only fail for want of memory. */
  lemma PerfectLink(blob: bytes, upTo: nat)
    ensures Carries((k, report) => report) && AllIntact(blob, (k, report) => report, upTo)
  {
    var link := (k: nat, report: bytes) => report;
    forall k: nat, frame: bytes | 7 <= |frame| <= CAPACITY
      ensures Carried(frame, link(k, HidReport(frame)))
    {
      WrappedIntact(frame);
    }
    forall k: u32 | k < upTo
      ensures Intact(DataFrame(blob, k), link(k, HidReport(DataFrame(blob, k))))
    {
      WrappedIntact(DataFrame(blob, k));
    }
  }

  lemma WrappedIntact(frame: bytes)
    requires |frame| <= CAPACITY
    ensures Intact(frame, HidReport(frame))
  {
  }

  // ----- one step -----

  /** The device expects packet k of the blob. */
  ghost predicate Ready(s: State, blob: bytes, k: nat) {
    Inv(s, blob) && s.meta.subpack == DATA_SIZE && s.meta.packetsPerAck == 1 && s.next == k && s.bad == 0
  }

  /** The metadata report puts the device at packet 0, from any earlier state. */
  lemma MetadataStep(s: State, plan: UpdatePlan, blob: bytes, md5: Md5, heap: Option<bytes>)
    requires PlanAllowed(plan, 0) && plan.packetPayloadSize == DATA_SIZE && plan.packetsPerAck == 1
    requires plan.transferSize == |blob| && |blob| <= 2 * FLASH_SIZE
    requires heap.Some? ==> |heap.value| == |blob|
    ensures var frame := HidReport(Frame(Host, 1, MetaPayload(plan, 0)))[1..];
            && FrameInBounds(s, frame)
            && var t := Received(s, frame, md5, heap);
            && t.flash == s.flash
            && (heap.None? ==> t.sent == s.sent)
            && (heap.Some? ==> Ready(t, blob, 0) && t.packetCount == plan.packetCount && t.sent == s.sent + [Ack(0)])
  {
    MetadataReads(plan, 0);
    var frame := HidReport(Frame(Host, 1, MetaPayload(plan, 0)))[1..];
    hide HidReport, Frame, MetaPayload, DecodeMeta, Ack;
    PacketsBound(|blob|, DATA_SIZE);
    Counted(|blob|);
  }

  lemma Counted(size: nat)
    requires 0 < size <= 2 * FLASH_SIZE
    ensures CeilDiv32(size, DATA_SIZE) == Packets(size, DATA_SIZE)
  {
  }

  lemma DataFrameSize(blob: bytes, k: u32)
    ensures |DataFrame(blob, k)| == 11 + |Chunk(blob, DATA_SIZE, k)|
  {
  }

  lemma CarriedHeader(blob: bytes, k: u32, report: bytes)
    requires Carried(DataFrame(blob, k), report)
    ensures var frame, f := report[1..], DataFrame(blob, k);
            && report[0] == 1 && |frame| == CAPACITY && frame[..3] == Magic(Host) && frame[3] == 3
            && Declared(frame) == |f|
            && (Intact(f, report) <==> f <= frame)
            && (!Intact(f, report) ==> !Valid(frame, |f|))
  {
    hide Sum, Valid, Covered;
    var f := DataFrame(blob, k);
    FrameFields(Host, 3, DataPayload(blob, DATA_SIZE, k));
    var frame := report[1..];
    assert report[..7][1..] == frame[..6] && HidReport(f)[..7][1..] == f[..6];
    assert frame[..3] == frame[..6][..3] && f[..3] == f[..6][..3] && frame[3] == f[..6][3] && frame[4] == f[..6][4]
           && frame[5] == f[..6][5];
    assert report[0] == HidReport(f)[..7][0];
    assert report[1..1 + |f|] == frame[..|f|];
  }

  lemma ReceivedData(s: State, frame: bytes, md5: Md5, heap: Option<bytes>)
    requires |frame| >= 6 && frame[..3] == Magic(Host) && frame[3] == 3 && DataInBounds(s, frame)
    ensures FrameInBounds(s, frame) && Received(s, frame, md5, heap) == DataAccepted(s, frame, md5)
  {
    hide DataInBounds, DataAccepted;
  }

  lemma DamagedStep(s: State, blob: bytes, k: u32, frame: bytes, md5: Md5)
    requires Ready(s, blob, k) && |frame| >= 11 && DATA_OVERHEAD <= Declared(frame) <= |frame|
             && !Valid(frame, Declared(frame))
    ensures DataInBounds(s, frame)
    ensures DataAccepted(s, frame, md5).flash == s.flash && DataAccepted(s, frame, md5).sent == s.sent + [Ack(k)]
  {
    ReadyBatch(s, blob, k);
    hide Valid, Declared, Read32, DataAccepted, DataInBounds, Inv, Retried, IsDataFrame;
    UnexpectedFrame(s, blob, frame, md5);
    RetryKeeps(s, blob);
  }

  lemma GoodStep(s: State, blob: bytes, k: u32, frame: bytes, md5: Md5)
    requires Ready(s, blob, k) && Sound(blob, |s.flash|, md5) && IsDataFrame(frame, blob, DATA_SIZE, k)
    ensures DataInBounds(s, frame)
    ensures var t := DataAccepted(s, frame, md5);
            && (k + 1 < s.packetCount ==>
                  && Ready(t, blob, k + 1) && t.packetCount == s.packetCount
                  && t.flash == s.flash && t.sent == s.sent + [Ack(k + 1)])
            && (k + 1 == s.packetCount ==> Done(t, s, blob))
  {
    hide DataAccepted, DataInBounds, Done, Inv, Sound, IsDataFrame, Ack;
    InRange(s, blob);
    if k + 1 < s.packetCount {
      MiddlePacket(s, blob, frame, md5);
      ConfiguredMeta(s, frame, md5);
      NextOfOne(k + 1);
    } else {
      FinalPacket(s, blob, frame, md5);
    }
  }

  /** An intact data report advances the device or completes the transfer; a damaged one asks for the same packet. */
  lemma DataStep(s: State, blob: bytes, k: u32, report: bytes, md5: Md5, heap: Option<bytes>)
    requires Ready(s, blob, k) && Sound(blob, |s.flash|, md5)
    requires Carried(DataFrame(blob, k), report)
    ensures |report| == REPORT_SIZE && report[0] == 1 && FrameInBounds(s, report[1..])
    ensures report[1..][..3] == Magic(Host) && report[1..][3] == 3
    ensures var t, f := Received(s, report[1..], md5, heap), DataFrame(blob, k);
            && (!Intact(f, report) ==> t.flash == s.flash && t.sent == s.sent + [Ack(k)])
            && (Intact(f, report) && k + 1 < s.packetCount ==>
                  && Ready(t, blob, k + 1) && t.packetCount == s.packetCount
                  && t.flash == s.flash && t.sent == s.sent + [Ack(k + 1)])
            && (Intact(f, report) && k + 1 == s.packetCount ==> Done(t, s, blob))
  {
    CarriedHeader(blob, k, report);
    var f, frame := DataFrame(blob, k), report[1..];
    DataFrameSize(blob, k);
    hide Valid, Declared, DataAccepted, DataInBounds, Done, Ready, Chunk, Carried, Sound, Received, FrameInBounds;
    if Intact(f, report) {
      assert IsDataFrame(frame, blob, DATA_SIZE, k);
      hide IsDataFrame, DataFrame, Intact;
      GoodStep(s, blob, k, frame, md5);
    } else {
      hide DataFrame, Intact;
      DamagedStep(s, blob, k, frame, md5);
    }
    ReceivedData(s, frame, md5, heap);
  }

  lemma ReadyBatch(s: State, blob: bytes, k: nat)
    requires Ready(s, blob, k)
    ensures s.batchFirst == k && s.packetCount == Packets(|blob|, DATA_SIZE)
  {
  }

  lemma NextOfOne(k: nat)
    ensures k % 1 == 0
  {
  }

  // ----- the whole transfer -----

  /** hid_receive_report. */
  method HidReceive(dev: Device, report: bytes, md5: Md5, allocates: bool)
    requires dev.Valid() && |report| >= 1 && (report[0] == 1 ==> FrameInBounds(dev.Abs(), report[1..]))
    modifies dev, dev.stream, dev.flash
    ensures dev.Valid() && (dev.stream == old(dev.stream) || fresh(dev.stream))
    ensures dev.Abs() == if report[0] == 1
                         then Received(old(dev.Abs()), report[1..], md5, if allocates then Some(dev.stream[..])
                           else None)
                         else old(dev.Abs())
    ensures report[0] == 1 && report[1..][..3] == Magic(Host) && report[1..][3] == 1 && allocates ==>
              dev.stream.Length == dev.meta.transferSize
  {
    hide FrameInBounds, Received;
    if report[0] == 1 {
      dev.Receive(report[1..], md5, allocates);
    }
  }

  /** The metadata report, from the host's report to the device's reply. */
  method SendMetadata(dev: Device, plan: UpdatePlan, request: bytes, blob: bytes, md5: Md5, allocates: bool)
    requires dev.Valid() && PlanAllowed(plan, 0) && request == Frame(Host, 1, MetaPayload(plan, 0))
    requires plan.packetPayloadSize == DATA_SIZE && plan.packetsPerAck == 1
    requires plan.transferSize == |blob| && |blob| <= 2 * FLASH_SIZE
    modifies dev, dev.stream, dev.flash
    ensures dev.Valid() && (dev.stream == old(dev.stream) || fresh(dev.stream))
    ensures dev.flash[..] == old(dev.flash[..])
    ensures dev.sent == if allocates then old(dev.sent) + [Ack(0)] else old(dev.sent)
    ensures allocates ==> Ready(dev.Abs(), blob, 0) && dev.packetCount == plan.packetCount
  {
    hide Ready, Received, FrameInBounds, Frame, MetaPayload, PlanAllowed, MetaInBounds, DecodeMeta, Ack;
    ghost var before := dev.Abs();
    MetadataReads(plan, 0);
    MetadataStep(before, plan, blob, md5, None);
    HidReceive(dev, HidReport(request), md5, allocates);
    if allocates {
      HeapSize(before, HidReport(request)[1..], md5, dev.stream[..]);
      MetadataStep(before, plan, blob, md5, Some(dev.stream[..]));
    }
  }

  lemma HeapSize(s: State, frame: bytes, md5: Md5, heap: bytes)
    requires FrameInBounds(s, frame) && frame[..3] == Magic(Host) && frame[3] == 1 && |frame| >= 16
    ensures Received(s, frame, md5, Some(heap)).meta == DecodeMeta(frame)
  {
    hide DecodeMeta, Ack, CeilDiv32;
  }

  /** One data report, from the host's report through the link to the device's reply. */
  method SendData(dev: Device, blob: bytes, k: u32, frame: bytes, link: (nat, bytes) -> bytes, md5: Md5,
                  allocates: bool)
    requires dev.Valid() && Sound(blob, FLASH_SIZE, md5) && Carries(link)
    requires Ready(dev.Abs(), blob, k) && frame == DataFrame(blob, k)
    modifies dev, dev.stream, dev.flash
    ensures dev.Valid() && (dev.stream == old(dev.stream) || fresh(dev.stream))
    ensures var intact, next := Intact(frame, link(k, HidReport(frame))), k + 1;
            && (!intact ==> dev.flash[..] == old(dev.flash[..]) && dev.sent == old(dev.sent) + [Ack(k)])
            && (intact && next < old(dev.packetCount) ==>
                  && Ready(dev.Abs(), blob, next) && dev.packetCount == old(dev.packetCount)
                  && dev.flash[..] == old(dev.flash[..]) && dev.sent == old(dev.sent) + [Ack(next)])
            && (intact && next == old(dev.packetCount) ==>
                  && dev.flash[..] == Splice(old(dev.flash[..]), Read32(blob, 4), Image(blob))
                  && dev.sent == old(dev.sent) + [Terminal(1)])
  {
    hide Ready, Received, FrameInBounds, DataFrame, Intact, Carried, Sound, Splice, Image, Read32, Ack, Terminal,
      HidReport;
    DataFrameSize(blob, k);
    ghost var before := dev.Abs();
    var report := link(k, HidReport(frame));
    DataStep(before, blob, k, report, md5, None);
    HidReceive(dev, report, md5, allocates);
    DataStep(before, blob, k, report, md5, if allocates then Some(dev.stream[..]) else None);
  }

  lemma PlanCount(plan: UpdatePlan)
    requires PlanAllowed(plan, 0)
    ensures 0 < plan.packetCount < 0x1_0000_0000
  {
    PacketsBound(plan.transferSize, plan.packetPayloadSize);
    Arith.MulMonotone(1, plan.packetPayloadSize, plan.packetCount - 1);
  }

  /** The host's frame for packet k. */
  method NextFrame(blob: bytes, k: u32) returns (frame: bytes)
    ensures frame == DataFrame(blob, k) && 7 <= |frame| <= CAPACITY
  {
    DataFrameSize(blob, k);
    var built := BuildBootFrame(3, Pack32(k) + Clip(blob, k * DATA_SIZE, k * DATA_SIZE + DATA_SIZE));
    frame := built.value;
  }

  /** The transfer after k packets of n: the device waits for the next one, or has programmed the image. */
  ghost predicate AfterPackets(s: State, blob: bytes, k: nat, n: nat, original: bytes)
    requires HeaderInBounds(blob, |original|)
  {
    if k < n then Ready(s, blob, k) && s.packetCount == n && s.flash == original
    else s.flash == Splice(original, Read32(blob, 4), Image(blob))
  }

  /** One data report and its reply. */
  method Exchange(dev: Device, blob: bytes, k: u32, n: nat, seen: nat, link: (nat, bytes) -> bytes, md5: Md5,
                  allocates: bool)
    returns (r: Result<()>)
    requires dev.Valid() && Sound(blob, FLASH_SIZE, md5) && Carries(link)
    requires k < n && AfterPackets(dev.Abs(), blob, k, n, dev.flash[..]) && seen == |dev.sent|
    modifies dev, dev.stream, dev.flash
    ensures dev.Valid() && (dev.stream == old(dev.stream) || fresh(dev.stream))
    ensures r.Ok? <==> Intact(DataFrame(blob, k), link(k, HidReport(DataFrame(blob, k))))
    ensures r.Err? || k + 1 < n ==> dev.flash[..] == old(dev.flash[..])
    ensures r.Ok? ==> |dev.sent| == seen + 1 && AfterPackets(dev.Abs(), blob, k + 1, n, old(dev.flash[..]))
  {
    hide Carries, Intact, Ready, Sound, HidReport, Ack, Terminal, Image, Read32, ReadAck, ReadTerminal, Splice,
      DataFrame;
    var frame := NextFrame(blob, k);
    SendData(dev, blob, k, frame, link, md5, allocates);
    AckRead(old(dev.sent), k);
    AckRead(old(dev.sent), k + 1);
    TerminalRead(old(dev.sent), 1);
    if k + 1 == n {
      var status := ReadTerminal(dev.sent, seen);
      if status.Err? || !status.value {
        return Err("bootloader rejected the whole-image MD5");
      }
    } else {
      var acknowledged := ReadAck(dev.sent, seen);
      if acknowledged.Err? || acknowledged.value != k + 1 {
        return Err("bootloader requested another packet; retry is not implemented");
      }
    }
    return Ok(());
  }

  /** The first k packets are a part of any longer run of them. */
  lemma AllIntactUpTo(blob: bytes, link: (nat, bytes) -> bytes, k: u32, n: nat)
    requires k < n && AllIntact(blob, link, k)
    ensures var i := Intact(DataFrame(blob, k), link(k, HidReport(DataFrame(blob, k))));
            (!i ==> !AllIntact(blob, link, n)) && (i ==> AllIntact(blob, link, k + 1))
  {
    hide Intact, DataFrame, HidReport;
  }

  /** The data reports in order, stopping at the first reply that is not the expected one. */
  method SendAll(dev: Device, blob: bytes, n: u32, link: (nat, bytes) -> bytes, md5: Md5, allocates: bool)
    returns (r: Result<()>)
    requires dev.Valid() && Sound(blob, FLASH_SIZE, md5) && Carries(link)
    requires n > 0 && Ready(dev.Abs(), blob, 0) && dev.packetCount == n
    modifies dev, dev.stream, dev.flash
    ensures dev.Valid()
    ensures r.Ok? <==> AllIntact(blob, link, n)
    ensures r.Ok? ==> dev.flash[..] == Splice(old(dev.flash[..]), Read32(blob, 4), Image(blob))
    ensures r.Err? ==> dev.flash[..] == old(dev.flash[..])
  {
    ghost var original := dev.flash[..];
    assert AllIntact(blob, link, 0) && AfterPackets(dev.Abs(), blob, 0, n, original);
    hide Carries, Intact, DataFrame, Ready, HeaderInBounds, HidReport, Image, Read32, Splice, AllIntact, AfterPackets;
    var seen := |dev.sent|;
    for k := 0 to n
      invariant dev.Valid() && seen == |dev.sent|
      invariant dev.stream == old(dev.stream) || fresh(dev.stream)
      invariant k < n ==> dev.flash[..] == original
      invariant AfterPackets(dev.Abs(), blob, k, n, original)
      invariant AllIntact(blob, link, k)
    {
      AllIntactUpTo(blob, link, k, n);
      r := Exchange(dev, blob, k, n, seen, link, md5, allocates);
      if r.Err? {
        return;
      }
      seen := seen + 1;
    }
    Completed(dev.Abs(), blob, n, original);
    r := Ok(());
  }

  lemma Completed(s: State, blob: bytes, n: nat, original: bytes)
    requires HeaderInBounds(blob, |original|) && AfterPackets(s, blob, n, n, original)
    ensures s.flash == Splice(original, Read32(blob, 4), Image(blob))
  {
  }

  /** restore_blob for a blob and its plan; the link and the device's allocator are parameters. */
  method RestoreBlob(dev: Device, blob: bytes, plan: UpdatePlan, link: (nat, bytes) -> bytes, md5: Md5, allocates: bool)
    returns (r: Result<()>)
    requires dev.Valid() && Sound(blob, FLASH_SIZE, md5) && |blob| <= 2 * FLASH_SIZE && Carries(link)
    requires PlanAllowed(plan, 0) && plan.packetPayloadSize == DATA_SIZE && plan.packetsPerAck == 1
             && plan.transferSize == |blob|
    modifies dev, dev.stream, dev.flash
    ensures dev.Valid()
    ensures r.Ok? <==> allocates && AllIntact(blob, link, plan.packetCount)
    ensures r.Ok? ==> dev.flash[..] == Splice(old(dev.flash[..]), Read32(blob, 4), Image(blob))
    ensures r.Err? ==> dev.flash[..] == old(dev.flash[..])
  {
    PlanCount(plan);
    hide Carries, AllIntact, Ready, Sound, HidReport, Ack, Frame, MetaPayload, Image, Read32, ReadAck, PlanAllowed,
      Splice;
    var seen := |dev.sent|;
    var request := BuildMetadataRequest(plan, 0);
    SendMetadata(dev, plan, request.value, blob, md5, allocates);
    if !allocates {
      return Err("timed out waiting for HID response");
    }
    AckRead(old(dev.sent), 0);
    var first := ReadAck(dev.sent, seen);
    if first.Err? || first.value != 0 {
      return Err("unexpected metadata acknowledgement");
    }
    r := SendAll(dev, blob, plan.packetCount, link, md5, allocates);
  }

  /** Building the blob and transferring it, as the restore command does. */
  method Update(dev: Device, image: bytes, offset: int, link: (nat, bytes) -> bytes, md5: Md5, allocates: bool)
    returns (r: Result<()>)
    requires dev.Valid() && Carries(link)
    modifies dev, dev.stream, dev.flash
    ensures dev.Valid()
    ensures r.Ok? <==> 0 <= offset && 0 < |image| && offset + |image| <= 0x80_0000 && allocates
                       && AllIntact(Blob(image, offset, md5), link, Plan(image, offset, md5).packetCount)
    ensures r.Ok? ==> dev.flash[..] == Splice(old(dev.flash[..]), offset, image)
    ensures r.Err? ==> dev.flash[..] == old(dev.flash[..])
  {
    hide Carries, AllIntact, Blob, Packets, Sound, Image, Read32, Splice;
    var built := BuildUpdateBlob(image, offset, md5);
    if built.Err? {
      return Err(built.reason);
    }
    var Prepared(blob, plan) := built.value;
    BlobSound(image, offset, md5);
    r := RestoreBlob(dev, blob, plan, link, md5, allocates);
  }
}

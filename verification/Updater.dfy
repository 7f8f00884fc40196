/**
 The U-Boot updater: its transfer state as a value, one transition function per
 handler, and the class whose methods mutate that state in place.
 */
module Updater {
  import opened Bytes
  import Arith
  import BootFrame

  const FLASH_SIZE: nat := 0x80_0000
  const IMAGE_HEADER_SIZE: nat := 128
  const DATA_OVERHEAD: nat := 11

  /** MD5, of which only the digest size matters. */
  type Md5 = f: bytes -> bytes | forall x :: |f(x)| == 16 ghost witness ((x: bytes) => Repeat(0, 16))

  datatype Meta = Meta(subpack: u16, transferSize: u32, packetsPerAck: u16, version: u16)

  datatype State = State(
    meta: Meta, packetCount: u32, batchCount: u32, next: u32, batchFirst: u32, used: u32,
    stream: bytes, bad: byte, stall: byte, terminal: byte, flash: bytes, sent: seq<bytes>)

  const RUNNING: byte := 0
  const PROGRAMMED: byte := 1
  const FAILED: byte := 2

  /** ceil_div_u32, in 32-bit arithmetic. */
  function CeilDiv32(n: u32, d: u32): u32
    requires d > 0
  {
    Arith.DivAtMost(Wrap32(n + d - 1), d);
    Wrap32(n + d - 1) / d
  }

  function Ack(packet: u32): bytes {
    BootFrame.Frame(BootFrame.Device, 2, Pack32(packet))
  }

  function Terminal(success: byte): bytes {
    BootFrame.Frame(BootFrame.Device, 5, [success])
  }

  // ----- flash -----

  function And(a: byte, b: byte): byte {
    OfBits(ToBits(a) & ToBits(b))
  }

  function Erase(flash: bytes, at: nat, n: nat): bytes
    requires at + n <= |flash|
  {
    Splice(flash, at, Repeat(0xFF, n))
  }

  function Merged(flash: bytes, at: nat, data: bytes): (m: bytes)
    requires at + |data| <= |flash|
    ensures |m| == |data| && forall i :: 0 <= i < |data| ==> m[i] == And(flash[at + i], data[i])
  {
    seq(|data|, i requires 0 <= i < |data| => And(flash[at + i], data[i]))
  }

  /** Programming NOR flash can only clear bits. */
  function Program(flash: bytes, at: nat, data: bytes): bytes
    requires at + |data| <= |flash|
  {
    Splice(flash, at, Merged(flash, at, data))
  }

  lemma AndErased(b: byte)
    ensures And(0xFF, b) == b
  {
    assert ToBits(0xFF) & ToBits(b) == ToBits(b);
    hide ToBits, OfBits;
    ToBitsOfBits(b);
  }

  /** Erase, then program: the range holds exactly the data. */
  lemma ErasedThenProgrammed(flash: bytes, at: nat, data: bytes)
    requires at + |data| <= |flash|
    ensures Program(Erase(flash, at, |data|), at, data) == Splice(flash, at, data)
  {
    hide And, Merged;
    var erased := Erase(flash, at, |data|);
    forall i | 0 <= i < |flash|
      ensures Program(erased, at, data)[i] == Splice(flash, at, data)[i]
    {
      if at <= i < at + |data| {
        AndErased(data[i - at]);
      }
    }
  }

  // ----- the handlers as functions -----

  /** request_batch_retry for a bad frame: rewind and acknowledge, or give up on the fifth error. */
  function Retried(s: State): State {
    var bad: byte := (s.bad as int + 1) % 0x100;
    if bad >= 5 then s.(bad := bad, terminal := FAILED, sent := s.sent + [Terminal(0)])
    else s.(bad := bad, next := s.batchFirst, used := Wrap32(s.batchFirst as int * s.meta.subpack as int),
         sent := s.sent + [Ack(s.batchFirst)])
  }

  function DecodeMeta(frame: bytes): Meta
    requires |frame| >= 16
  {
    Meta(Read16(frame, 6), Read32(frame, 8), Read16(frame, 12), Read16(frame, 14))
  }

  /** Zero divisors are outside the model. */
  predicate MetaInBounds(frame: bytes) {
    |frame| >= 16 && DecodeMeta(frame).subpack > 0 && DecodeMeta(frame).packetsPerAck > 0
  }

  /** accept_metadata: the checksum result is ignored; heap is what malloc returns. */
  function MetadataAccepted(s: State, frame: bytes, heap: Option<bytes>): State
    requires MetaInBounds(frame)
  {
    var m := DecodeMeta(frame);
    var count := CeilDiv32(m.transferSize, m.subpack);
    var t := s.(meta := m, packetCount := count, batchCount := CeilDiv32(count, m.packetsPerAck));
    if heap.None? then t.(stream := [])
    else t.(stream := heap.value, next := 0, batchFirst := 0, used := 0, bad := 0, stall := 0, terminal := RUNNING,
         sent := s.sent + [Ack(0)])
  }

  /** The image header at the start of the stream, and the flash range it names. */
  predicate HeaderInBounds(stream: bytes, flashSize: nat) {
    && |stream| >= IMAGE_HEADER_SIZE
    && IMAGE_HEADER_SIZE + Read32(stream, 8) <= |stream|
    && Read32(stream, 4) + Read32(stream, 8) <= flashSize
  }

  function Image(stream: bytes): bytes
    requires |stream| >= IMAGE_HEADER_SIZE && IMAGE_HEADER_SIZE + Read32(stream, 8) <= |stream|
  {
    stream[IMAGE_HEADER_SIZE..IMAGE_HEADER_SIZE + Read32(stream, 8)]
  }

  /** verify_and_program: success is sent before the flash is touched. */
  function Finished(s: State, md5: Md5): State
    requires HeaderInBounds(s.stream, |s.flash|)
  {
    var image := Image(s.stream);
    if md5(image) != s.stream[12..28] then s.(terminal := FAILED, sent := s.sent + [Terminal(0)])
    else
      var at := Read32(s.stream, 4);
      s.(terminal := PROGRAMMED, sent := s.sent + [Terminal(1)],
      flash := Program(Erase(s.flash, at, |image|), at, image))
  }

  function Declared(frame: bytes): u16
    requires |frame| >= 6
  {
    Read16(frame, 4)
  }

  /** The state after memcpy and the counters, before the final-packet test. */
  function Appended(s: State, frame: bytes): State
    requires |frame| >= 11 && DATA_OVERHEAD <= Declared(frame) <= |frame|
    requires s.used as int + Declared(frame) - DATA_OVERHEAD <= |s.stream|
  {
    var data := frame[10..Declared(frame) - 1];
    s.(stream := Splice(s.stream, s.used, data), used := Wrap32(s.used as int + |data|),
    next := Wrap32(s.next as int + 1), bad := 0)
  }

  predicate IsLast(s: State, packet: u32) {
    packet == Wrap32(s.packetCount as int - 1)
  }

  /** No read or write outside the report, the stream and the flash. */
  predicate DataInBounds(s: State, frame: bytes) {
    && |frame| >= 11 && DATA_OVERHEAD <= Declared(frame) <= |frame| && s.meta.packetsPerAck > 0
    && (BootFrame.Valid(frame, Declared(frame)) && Read32(frame, 6) == s.next ==>
          && s.used as int + Declared(frame) - DATA_OVERHEAD <= |s.stream|
          && (IsLast(s, s.next) ==> HeaderInBounds(Appended(s, frame).stream, |s.flash|)))
  }

  /** A packet that completes a batch is acknowledged and starts the next batch. */
  function Acknowledged(t: State): State
    requires t.meta.packetsPerAck > 0
  {
    if t.next % t.meta.packetsPerAck == 0 then t.(sent := t.sent + [Ack(t.next)], batchFirst := t.next) else t
  }

  /** accept_data. */
  function DataAccepted(s: State, frame: bytes, md5: Md5): State
    requires DataInBounds(s, frame)
  {
    if !BootFrame.Valid(frame, Declared(frame)) then Retried(s)
    else
      var packet := Read32(frame, 6);
      if packet != s.next then Retried(s)
      else
        var t := Appended(s, frame);
        if IsLast(s, packet) then Finished(t, md5)
        else Acknowledged(t)
  }

  /** The branches of accept_data, as the method takes them. */
  lemma DataCases(s: State, frame: bytes, md5: Md5)
    requires DataInBounds(s, frame)
    ensures |frame| >= 11 && DATA_OVERHEAD <= Declared(frame) <= |frame| && s.meta.packetsPerAck > 0
    ensures !BootFrame.Valid(frame, Declared(frame)) || Read32(frame, 6) != s.next ==>
              DataAccepted(s, frame, md5) == Retried(s)
    ensures BootFrame.Valid(frame, Declared(frame)) && Read32(frame, 6) == s.next ==>
              && s.used as int + Declared(frame) - DATA_OVERHEAD <= |s.stream|
              && Appended(s, frame).packetCount == s.packetCount && Appended(s, frame).meta == s.meta
              && (IsLast(s, s.next) ==>
                    && HeaderInBounds(Appended(s, frame).stream, |s.flash|) && |Appended(s, frame).flash| == |s.flash|
                    && DataAccepted(s, frame, md5) == Finished(Appended(s, frame), md5))
              && (!IsLast(s, s.next) ==> DataAccepted(s, frame, md5) == Acknowledged(Appended(s, frame)))
  {
    hide BootFrame.Valid, Finished, Retried, HeaderInBounds, Declared, Read32, Splice;
  }

  predicate FrameInBounds(s: State, frame: bytes) {
    |frame| >= 6 && (frame[..3] == BootFrame.Magic(BootFrame.Host) ==>
      (frame[3] == 1 ==> MetaInBounds(frame)) && (frame[3] == 3 ==> DataInBounds(s, frame)))
  }

  /** updater_receive. */
  function Received(s: State, frame: bytes, md5: Md5, heap: Option<bytes>): State
    requires FrameInBounds(s, frame)
  {
    if frame[..3] != BootFrame.Magic(BootFrame.Host) then s
    else if frame[3] == 1 then MetadataAccepted(s, frame, heap)
    else if frame[3] == 3 then DataAccepted(s, frame, md5)
    else s
  }

  // ----- the device -----

  method ProgramInPlace(flash: array<byte>, at: nat, data: bytes)
    requires at + |data| <= flash.Length
    modifies flash
    ensures flash[..] == Program(old(flash[..]), at, data)
  {
    hide And, Splice, Merged;
    ghost var before := flash[..];
    for i := 0 to |data|
      invariant forall k :: 0 <= k < flash.Length ==>
                  flash[k] == if at <= k < at + i then Merged(before, at, data)[k - at] else before[k]
    {
      flash[at + i] := And(flash[at + i], data[i]);
    }
    assert flash[..] == Splice(before, at, Merged(before, at, data));
  }

  class Device {
    var meta: Meta
    var packetCount: u32
    var batchCount: u32
    var next: u32
    var batchFirst: u32
    var used: u32
    var stream: array<byte>
    var bad: byte
    var stall: byte
    var terminal: byte
    const flash: array<byte>
    var sent: seq<bytes>

    ghost predicate Valid()
      reads this
    {
      stream != flash && flash.Length == FLASH_SIZE
    }

    ghost function Abs(): State
      reads this, stream, flash
    {
      State(meta, packetCount, batchCount, next, batchFirst, used, stream[..], bad, stall, terminal, flash[..], sent)
    }

    constructor (image: array<byte>)
      requires image.Length == FLASH_SIZE
      ensures Valid() && flash == image && sent == [] && terminal == RUNNING
    {
      meta := Meta(0, 0, 0, 0);
      packetCount, batchCount, next, batchFirst, used := 0, 0, 0, 0, 0;
      stream := new byte[0];
      bad, stall, terminal, sent := 0, 0, RUNNING, [];
      flash := image;
    }

    method RequestBatchRetry()
      requires Valid()
      modifies this
      ensures Valid() && stream == old(stream)
      ensures Abs() == Retried(old(Abs()))
    {
      bad := (bad as int + 1) % 0x100;
      if bad >= 5 {
        sent := sent + [Terminal(0)];
        terminal := FAILED;
        return;
      }
      next := batchFirst;
      used := Wrap32(batchFirst as int * meta.subpack as int);
      sent := sent + [Ack(batchFirst)];
    }

    /** The transfer's parameters and the counts they imply. */
    method CountPackets(frame: bytes)
      requires Valid() && MetaInBounds(frame)
      modifies this`meta, this`packetCount, this`batchCount
      ensures meta == DecodeMeta(frame) && packetCount == CeilDiv32(meta.transferSize, meta.subpack)
      ensures batchCount == CeilDiv32(packetCount, meta.packetsPerAck)
    {
      hide CeilDiv32;
      meta := DecodeMeta(frame);
      packetCount := CeilDiv32(meta.transferSize, meta.subpack);
      batchCount := CeilDiv32(packetCount, meta.packetsPerAck);
    }

    /** Back to packet 0, which the device then acknowledges. */
    method Restart()
      modifies this`next, this`batchFirst, this`used, this`bad, this`stall, this`terminal, this`sent
      ensures next == batchFirst == used == 0 && bad == stall == 0 && terminal == RUNNING
      ensures sent == old(sent) + [Ack(0)]
    {
      hide Ack;
      next, batchFirst, used := 0, 0, 0;
      bad, stall, terminal := 0, 0, RUNNING;
      sent := sent + [Ack(0)];
    }

    method AcceptMetadata(frame: bytes, allocates: bool)
      requires Valid() && MetaInBounds(frame)
      modifies this
      ensures Valid() && fresh(stream)
      ensures Abs() == MetadataAccepted(old(Abs()), frame, if allocates then Some(stream[..]) else None)
      ensures allocates ==> stream.Length == meta.transferSize
    {
      hide CeilDiv32, DecodeMeta, Ack;
      CountPackets(frame);
      if !allocates {
        stream := new byte[0];
        return;
      }
      stream := new byte[meta.transferSize];
      Restart();
    }

    method VerifyAndProgram(md5: Md5)
      requires Valid() && HeaderInBounds(stream[..], flash.Length)
      modifies this, flash
      ensures Valid() && stream == old(stream)
      ensures Abs() == Finished(old(Abs()), md5)
    {
      var length := Read32(stream[..], 8);
      var image := stream[IMAGE_HEADER_SIZE..IMAGE_HEADER_SIZE + length];
      assert image == Image(stream[..]);
      if md5(image) != stream[12..28] {
        sent := sent + [Terminal(0)];
        terminal := FAILED;
        return;
      }
      sent := sent + [Terminal(1)];
      var at := Read32(stream[..], 4);
      PutAll(flash, at, Repeat(0xFF, length));
      ProgramInPlace(flash, at, image);
      terminal := PROGRAMMED;
    }

    /** memcpy into the stream, and the counters. */
    method AppendData(frame: bytes)
      requires Valid() && |frame| >= 11 && DATA_OVERHEAD <= Declared(frame) <= |frame|
      requires used as int + Declared(frame) - DATA_OVERHEAD <= stream.Length
      modifies this, stream
      ensures Valid() && stream == old(stream)
      ensures Abs() == Appended(old(Abs()), frame)
    {
      hide Splice, Declared, Wrap32;
      var dataLength := Declared(frame) - DATA_OVERHEAD;
      PutAll(stream, used, frame[10..10 + dataLength]);
      used := Wrap32(used as int + dataLength);
      next := Wrap32(next as int + 1);
      bad := 0;
    }

    method AcceptData(frame: bytes, md5: Md5)
      requires Valid() && DataInBounds(Abs(), frame)
      modifies this, stream, flash
      ensures Valid() && stream == old(stream)
      ensures Abs() == DataAccepted(old(Abs()), frame, md5)
    {
      hide BootFrame.Valid, Finished, Retried, HeaderInBounds, Appended, Ack, Declared, Read32, Splice, Wrap32,
        DataAccepted, DataInBounds, Acknowledged;
      DataCases(Abs(), frame, md5);
      if !BootFrame.Valid(frame, Declared(frame)) {
        RequestBatchRetry();
        return;
      }
      var packet := Read32(frame, 6);
      if packet != next {
        RequestBatchRetry();
        return;
      }
      AppendData(frame);
      AfterPacket(packet, md5);
    }

    /** The last packet of the transfer, or the last of a batch. */
    method AfterPacket(packet: u32, md5: Md5)
      requires Valid() && meta.packetsPerAck > 0
      requires IsLast(Abs(), packet) ==> HeaderInBounds(stream[..], flash.Length)
      modifies this, flash
      ensures Valid() && stream == old(stream)
      ensures IsLast(old(Abs()), packet) ==> Abs() == Finished(old(Abs()), md5)
      ensures !IsLast(old(Abs()), packet) ==> Abs() == Acknowledged(old(Abs()))
    {
      hide Finished, HeaderInBounds, Ack, Wrap32;
      if packet == Wrap32(packetCount as int - 1) {
        VerifyAndProgram(md5);
        return;
      }
      if next % meta.packetsPerAck == 0 {
        sent := sent + [Ack(next)];
        batchFirst := next;
      }
    }

    method Receive(frame: bytes, md5: Md5, allocates: bool)
      requires Valid() && FrameInBounds(Abs(), frame)
      modifies this, stream, flash
      ensures Valid() && (stream == old(stream) || fresh(stream))
      ensures Abs() == Received(old(Abs()), frame, md5, if allocates then Some(stream[..]) else None)
      ensures frame[..3] == BootFrame.Magic(BootFrame.Host) && frame[3] == 1 && allocates ==>
                stream.Length == meta.transferSize
    {
      hide DataInBounds, DataAccepted, MetadataAccepted;
      if frame[..3] != BootFrame.Magic(BootFrame.Host) {
        return;
      }
      if frame[3] == 1 {
        AcceptMetadata(frame, allocates);
      } else if frame[3] == 3 {
        AcceptData(frame, md5);
      }
    }
  }
}

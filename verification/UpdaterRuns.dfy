/** What the updater keeps over every run of data frames, and when its retries end. */
module UpdaterRuns {
  import opened Bytes
  import Arith
  import BootFrame
  import opened Chunks
  import opened Updater

  // ----- the host's frames -----

  function DataPayload(blob: bytes, subpack: nat, k: u32): bytes {
    Pack32(k) + Chunk(blob, subpack, k)
  }

  /** Data frame k, possibly followed by report padding. */
  ghost predicate IsDataFrame(frame: bytes, blob: bytes, subpack: nat, k: u32) {
    && |DataPayload(blob, subpack, k)| + 7 <= 0xFFFF
    && BootFrame.Frame(BootFrame.Host, 3, DataPayload(blob, subpack, k)) <= frame
  }

  /** What the device reads from data frame k. */
  lemma DataFrameReads(frame: bytes, blob: bytes, subpack: nat, k: u32)
    requires IsDataFrame(frame, blob, subpack, k)
    ensures |frame| >= 11 && DATA_OVERHEAD <= Declared(frame) <= |frame|
    ensures Declared(frame) == DATA_OVERHEAD + |Chunk(blob, subpack, k)|
    ensures BootFrame.Valid(frame, Declared(frame)) && Read32(frame, 6) == k
    ensures frame[10..Declared(frame) - 1] == Chunk(blob, subpack, k)
  {
    hide BootFrame.Sum, Chunk;
    var p := DataPayload(blob, subpack, k);
    var f := BootFrame.Frame(BootFrame.Host, 3, p);
    BootFrame.FrameFields(BootFrame.Host, 3, p);
    assert f == frame[..|f|];
    assert Read16(frame, 4) == Read16(f, 4);
    assert frame[..3] == f[..3] && frame[..|f| - 1] == f[..|f| - 1];
    assert f[6..|f| - 1][..4] == f[6..10] == Pack32(k);
    assert frame[6..10] == f[6..10];
    ReadPacked32(frame, 6, k);
    assert f[6..|f| - 1][4..] == f[10..|f| - 1] == Chunk(blob, subpack, k);
    assert frame[10..|f| - 1] == f[10..|f| - 1];
  }

  // ----- the invariant -----

  /** A blob the device can finish: its header names a range inside the flash and the image's own MD5. */
  ghost predicate Sound(blob: bytes, flashSize: nat, md5: Md5) {
    HeaderInBounds(blob, flashSize) && md5(Image(blob)) == blob[12..28]
  }

  ghost predicate Configured(s: State, blob: bytes) {
    && s.meta.subpack > 0 && s.meta.packetsPerAck > 0 && 0 < |blob| && |blob| + s.meta.subpack - 1 < 0x1_0000_0000
    && s.packetCount == Packets(|blob|, s.meta.subpack) && |s.stream| == |blob|
  }

  /** Batches, positions and the received prefix, while the transfer is running. */
  ghost predicate Inv(s: State, blob: bytes) {
    && Configured(s, blob) && s.terminal == RUNNING && s.bad < 5
    && s.batchFirst % s.meta.packetsPerAck == 0
    && s.batchFirst <= s.next < s.batchFirst + s.meta.packetsPerAck && s.next < s.packetCount
    && s.used == s.next * s.meta.subpack && s.used < |blob|
    && s.stream[..s.used] == blob[..s.used]
  }

  lemma NextBatch(batchFirst: nat, next: nat, p: nat)
    requires p > 0 && batchFirst % p == 0 && batchFirst <= next < batchFirst + p
    ensures (next + 1) % p != 0 ==> next + 1 < batchFirst + p
  {
    if next + 1 == batchFirst + p {
      Arith.DivMod(batchFirst, p);
      var q := batchFirst / p;
      assert batchFirst + p == (q + 1) * p + 0;
      Arith.ModOfMultiple(q + 1, 0, p);
    }
  }

  /** A rewind returns to the start of the batch, or ends the transfer on the fifth error. */
  lemma RetryKeeps(s: State, blob: bytes)
    requires Inv(s, blob)
    ensures var t := Retried(s);
            && t.flash == s.flash
            && (s.bad < 4 ==> Inv(t, blob) && t.bad == s.bad + 1 && t.next == s.batchFirst
                              && t.batchFirst == s.batchFirst && t.sent == s.sent + [Ack(s.batchFirst)])
            && (s.bad == 4 ==> t.terminal == FAILED && t.sent == s.sent + [Terminal(0)])
  {
    hide Packets, Ack, Terminal;
    Arith.MulMonotone(s.batchFirst, s.next, s.meta.subpack);
    ShorterPrefix(s.stream, blob, s.used, s.batchFirst as int * s.meta.subpack as int);
  }

  lemma ShorterPrefix(stream: bytes, blob: bytes, used: nat, at: nat)
    requires at <= used <= |stream| == |blob| && stream[..used] == blob[..used]
    ensures stream[..at] == blob[..at]
  {
    assert stream[..at] == stream[..used][..at] == blob[..used][..at] == blob[..at];
  }

  lemma PrefixGrows(stream: bytes, blob: bytes, used: nat, chunk: bytes)
    requires |stream| == |blob| && used + |chunk| <= |blob| && stream[..used] == blob[..used]
    requires chunk == blob[used..used + |chunk|]
    ensures Splice(stream, used, chunk)[..used + |chunk|] == blob[..used + |chunk|]
  {
    assert Splice(stream, used, chunk)[..used + |chunk|] == stream[..used] + chunk;
  }

  /** The stream after the expected packet. */
  lemma AppendKeeps(s: State, blob: bytes, frame: bytes)
    requires Inv(s, blob) && IsDataFrame(frame, blob, s.meta.subpack, s.next)
    ensures |frame| >= 11 && DATA_OVERHEAD <= Declared(frame) <= |frame|
    ensures s.used as int + Declared(frame) - DATA_OVERHEAD <= |s.stream|
    ensures var t := Appended(s, frame);
            && t.next == s.next + 1 && |t.stream| == |blob| && t.used <= |blob|
            && t.used == s.used + |Chunk(blob, s.meta.subpack, s.next)| && t.stream[..t.used] == blob[..t.used]
  {
    hide Inv, Packets, BootFrame.Valid, Declared, Chunk, Read32, IsDataFrame, Splice, Appended, Wrap32;
    DataFrameReads(frame, blob, s.meta.subpack, s.next);
    var chunk := Chunk(blob, s.meta.subpack, s.next);
    RoomForChunk(s, blob, chunk);
    AppendedStream(s, frame, chunk);
    PrefixGrows(s.stream, blob, s.used, chunk);
  }

  lemma RoomForChunk(s: State, blob: bytes, chunk: bytes)
    requires Inv(s, blob) && chunk == Chunk(blob, s.meta.subpack, s.next)
    ensures |s.stream| == |blob| && s.used + |chunk| <= |blob| < 0x1_0000_0000 && s.next as int + 1 < 0x1_0000_0000
    ensures s.stream[..s.used] == blob[..s.used] && chunk == blob[s.used..s.used + |chunk|]
  {
    hide Packets, Chunk;
    PacketStart(blob, s.meta.subpack, s.next);
  }

  lemma AppendedStream(s: State, frame: bytes, chunk: bytes)
    requires |frame| >= 11 && DATA_OVERHEAD <= Declared(frame) <= |frame|
    requires frame[10..Declared(frame) - 1] == chunk && Declared(frame) == DATA_OVERHEAD + |chunk|
    requires s.used + |chunk| <= |s.stream| < 0x1_0000_0000 && s.next as int + 1 < 0x1_0000_0000
    ensures var t := Appended(s, frame);
            && t.next == s.next + 1 && t.used == s.used + |chunk| && t.stream == Splice(s.stream, s.used, chunk)
            && |t.stream| == |s.stream|
  {
    hide Declared, Splice;
  }

  /** What a data frame may be before the first terminal status: damaged, or any frame of the blob. */
  ghost predicate FromHost(frame: bytes, s: State, blob: bytes) {
    && |frame| >= 11 && DATA_OVERHEAD <= Declared(frame) <= |frame|
    && (BootFrame.Valid(frame, Declared(frame)) ==> exists k: u32 :: IsDataFrame(frame, blob, s.meta.subpack, k))
  }

  /** The whole blob was received and its image programmed; nothing else changed. */
  ghost predicate Done(t: State, s: State, blob: bytes)
    requires HeaderInBounds(blob, |s.flash|)
  {
    && t.terminal == PROGRAMMED && t.stream == blob && t.sent == s.sent + [Terminal(1)]
    && t.flash == Splice(s.flash, Read32(blob, 4), Image(blob))
  }

  lemma AppendFrame(s: State, frame: bytes)
    requires |frame| >= 11 && DATA_OVERHEAD <= Declared(frame) <= |frame|
    requires s.used as int + Declared(frame) - DATA_OVERHEAD <= |s.stream|
    ensures Appended(s, frame).flash == s.flash && Appended(s, frame).sent == s.sent
  {
    hide Splice, Declared;
  }

  lemma AppendedCounters(s: State, frame: bytes)
    requires |frame| >= 11 && DATA_OVERHEAD <= Declared(frame) <= |frame|
    requires s.used as int + Declared(frame) - DATA_OVERHEAD <= |s.stream|
    ensures var t := Appended(s, frame);
            && t.next == Wrap32(s.next as int + 1) && t.bad == 0 && t.batchFirst == s.batchFirst
            && t.terminal == s.terminal && t.meta == s.meta && t.packetCount == s.packetCount
  {
    hide Splice, Declared;
  }

  lemma MiddleState(s: State, t: State, blob: bytes)
    requires Inv(s, blob) && s.next + 1 < s.packetCount
    requires t.meta == s.meta && t.packetCount == s.packetCount && t.terminal == RUNNING && t.bad == 0
    requires t.batchFirst == s.batchFirst && t.next == s.next + 1 && |t.stream| == |blob|
    requires t.used == s.used + |Chunk(blob, s.meta.subpack, s.next)| && t.used <= |blob|
             && t.stream[..t.used] == blob[..t.used]
    ensures Inv(Acknowledged(t), blob)
  {
    hide Ack, Chunk;
    PacketStart(blob, s.meta.subpack, s.next);
    PacketStart(blob, s.meta.subpack, s.next + 1);
    NextBatch(s.batchFirst, s.next, s.meta.packetsPerAck);
    hide Packets;
  }

  /** A packet before the last advances the transfer. */
  lemma MiddlePacket(s: State, blob: bytes, frame: bytes, md5: Md5)
    requires Inv(s, blob) && IsDataFrame(frame, blob, s.meta.subpack, s.next) && s.next + 1 < s.packetCount
    ensures DataInBounds(s, frame)
    ensures var t := DataAccepted(s, frame, md5);
            && Inv(t, blob) && t.next == s.next + 1 && t.bad == 0 && t.flash == s.flash
            && t.sent == if t.next % s.meta.packetsPerAck == 0 then s.sent + [Ack(t.next)] else s.sent
  {
    hide BootFrame.Valid, Declared, Read32, IsDataFrame, DataAccepted, Appended, HeaderInBounds, Chunk, Packets, Ack;
    DataFrameReads(frame, blob, s.meta.subpack, s.next);
    AppendKeeps(s, blob, frame);
    AppendFrame(s, frame);
    AppendedCounters(s, frame);
    assert !IsLast(s, s.next);
    hide IsLast;
    assert DataInBounds(s, frame);
    hide DataInBounds, Inv;
    DataCases(s, frame, md5);
    RunningState(s, blob);
    MiddleState(s, Appended(s, frame), blob);
  }

  lemma RunningState(s: State, blob: bytes)
    requires Inv(s, blob)
    ensures s.terminal == RUNNING && s.meta.packetsPerAck > 0
  {
  }

  lemma FinalAppend(s: State, blob: bytes, frame: bytes)
    requires Inv(s, blob) && IsDataFrame(frame, blob, s.meta.subpack, s.next) && s.next + 1 == s.packetCount
    ensures |frame| >= 11 && DATA_OVERHEAD <= Declared(frame) <= |frame|
    ensures s.used as int + Declared(frame) - DATA_OVERHEAD <= |s.stream|
    ensures Appended(s, frame).stream == blob && IsLast(s, s.next)
  {
    hide Packets, Declared, Chunk, Read32, IsDataFrame, Splice, Appended;
    AppendKeeps(s, blob, frame);
    PacketStart(blob, s.meta.subpack, s.next);
    var t := Appended(s, frame);
    assert t.stream[..|blob|] == t.stream && blob[..|blob|] == blob;
  }

  /** The last packet completes it. */
  lemma FinalPacket(s: State, blob: bytes, frame: bytes, md5: Md5)
    requires Inv(s, blob) && IsDataFrame(frame, blob, s.meta.subpack, s.next) && s.next + 1 == s.packetCount
    requires Sound(blob, |s.flash|, md5)
    ensures DataInBounds(s, frame) && Done(DataAccepted(s, frame, md5), s, blob)
  {
    hide BootFrame.Valid, Declared, Read32, IsDataFrame, Inv, DataAccepted, Appended, Done, HeaderInBounds, Finished,
      IsLast, Image;
    DataFrameReads(frame, blob, s.meta.subpack, s.next);
    RunningState(s, blob);
    FinalAppend(s, blob, frame);
    AppendFrame(s, frame);
    assert DataInBounds(s, frame);
    hide DataInBounds;
    DataCases(s, frame, md5);
    hide Sound;
    FinishSound(Appended(s, frame), s, blob, md5);
  }

  lemma FinishSound(t: State, s: State, blob: bytes, md5: Md5)
    requires t.stream == blob && t.flash == s.flash && t.sent == s.sent && Sound(blob, |s.flash|, md5)
    ensures HeaderInBounds(t.stream, |t.flash|) && Done(Finished(t, md5), s, blob)
  {
    hide Program, Erase, Terminal;
    ErasedThenProgrammed(s.flash, Read32(blob, 4), Image(blob));
  }

  /** Any other admissible frame only counts as an error. */
  lemma UnexpectedFrame(s: State, blob: bytes, frame: bytes, md5: Md5)
    requires Inv(s, blob) && FromHost(frame, s, blob)
    requires !BootFrame.Valid(frame, Declared(frame)) || Read32(frame, 6) != s.next
    ensures DataInBounds(s, frame) && DataAccepted(s, frame, md5) == Retried(s)
  {
    hide BootFrame.Valid, Declared, Read32, Retried;
  }

  /**
   The invariant under retries: any mix of good, repeated, out-of-order and damaged frames keeps it
   until the first terminal status, and the flash is programmed only with the whole blob.
   */
  lemma StepKeepsInv(s: State, blob: bytes, frame: bytes, md5: Md5)
    requires Inv(s, blob) && Sound(blob, |s.flash|, md5) && FromHost(frame, s, blob)
    ensures DataInBounds(s, frame)
    ensures var t := DataAccepted(s, frame, md5);
            || (Inv(t, blob) && t.meta == s.meta && t.flash == s.flash)
            || (t.terminal == FAILED && t.flash == s.flash)
            || Done(t, s, blob)
  {
    InRange(s, blob);
    hide BootFrame.Valid, Declared, Read32, Retried, DataAccepted, DataInBounds, Inv, Done, IsDataFrame, Sound;
    if BootFrame.Valid(frame, Declared(frame)) && Read32(frame, 6) == s.next {
      var k: u32 :| IsDataFrame(frame, blob, s.meta.subpack, k);
      DataFrameReads(frame, blob, s.meta.subpack, k);
      if s.next + 1 == s.packetCount {
        FinalPacket(s, blob, frame, md5);
      } else {
        MiddlePacket(s, blob, frame, md5);
        ConfiguredMeta(s, frame, md5);
      }
    } else {
      UnexpectedFrame(s, blob, frame, md5);
      RetryKeeps(s, blob);
      ConfiguredMeta(s, frame, md5);
    }
  }

  lemma InRange(s: State, blob: bytes)
    requires Inv(s, blob)
    ensures s.next < s.packetCount && s.bad < 5
  {
  }

  lemma ConfiguredMeta(s: State, frame: bytes, md5: Md5)
    requires DataInBounds(s, frame)
    ensures DataAccepted(s, frame, md5).meta == s.meta && DataAccepted(s, frame, md5).packetCount == s.packetCount
  {
    hide BootFrame.Valid, Declared, Read32, HeaderInBounds, Splice;
  }

  // ----- whole runs -----

  /** Feeding data frames until the first terminal status. */
  predicate RunInBounds(s: State, frames: seq<bytes>, md5: Md5)
    decreases |frames|
  {
    frames == [] || s.terminal != RUNNING
    || (DataInBounds(s, frames[0]) && RunInBounds(DataAccepted(s, frames[0], md5), frames[1..], md5))
  }

  function Run(s: State, frames: seq<bytes>, md5: Md5): State
    requires RunInBounds(s, frames, md5)
    decreases |frames|
  {
    if frames == [] || s.terminal != RUNNING then s else Run(DataAccepted(s, frames[0], md5), frames[1..], md5)
  }

  ghost predicate AllFromHost(frames: seq<bytes>, s: State, blob: bytes) {
    forall f :: f in frames ==> FromHost(f, s, blob)
  }

  /** Over every run: still consistent, or failed with the flash untouched, or the image programmed in full. */
  lemma {:induction false} RunKeepsInv(s: State, blob: bytes, frames: seq<bytes>, md5: Md5)
    requires Inv(s, blob) && Sound(blob, |s.flash|, md5) && AllFromHost(frames, s, blob)
    ensures RunInBounds(s, frames, md5)
    ensures var t := Run(s, frames, md5);
            || (Inv(t, blob) && t.flash == s.flash)
            || (t.terminal == FAILED && t.flash == s.flash)
            || (t.terminal == PROGRAMMED && t.stream == blob
                && t.flash == Splice(s.flash, Read32(blob, 4), Image(blob)))
    decreases |frames|
  {
    if frames != [] {
      var f, rest := frames[0], frames[1..];
      assert f in frames;
      RunningState(s, blob);
      StepKeepsInv(s, blob, f, md5);
      hide DataInBounds, DataAccepted, Inv, FromHost, Sound, Image;
      var t := DataAccepted(s, f, md5);
      if Inv(t, blob) && t.meta == s.meta && t.flash == s.flash {
        assert AllFromHost(rest, t, blob) by {
          SameMeta(rest, s, t, blob);
        }
        RunKeepsInv(t, blob, rest, md5);
      }
    }
  }

  lemma SameMeta(frames: seq<bytes>, s: State, t: State, blob: bytes)
    requires s.meta == t.meta && forall f :: f in frames ==> FromHost(f, s, blob)
    ensures AllFromHost(frames, t, blob)
  {
  }

  // ----- bounded retries -----

  /** The packet the batch starts with is the packet expected next. */
  predicate AtBatchStart(s: State) {
    && s.terminal == RUNNING && s.bad < 5 && s.next < s.packetCount && s.batchFirst == s.next
    && (s.meta.packetsPerAck == 1 || s.packetCount == 1)
  }

  /** Remaining packets first, remaining error budget second. */
  function Budget(s: State): int {
    5 * (s.packetCount as int - s.next as int) - s.bad as int
  }

  lemma RetriedCounters(s: State)
    requires AtBatchStart(s)
    ensures var t := Retried(s);
            t.terminal != RUNNING || (AtBatchStart(t) && Budget(t) < Budget(s))
  {
    hide Ack, Terminal;
  }

  lemma AcknowledgedCounters(s: State, t: State)
    requires AtBatchStart(s) && s.next + 1 < s.packetCount && t.next == s.next + 1 && t.bad == 0
             && t.batchFirst == s.batchFirst
    requires t.terminal == RUNNING && t.meta == s.meta && t.packetCount == s.packetCount
    ensures AtBatchStart(Acknowledged(t)) && Budget(Acknowledged(t)) < Budget(s)
  {
    hide Ack;
    assert t.next % 1 == 0;
  }

  lemma BudgetShrinks(s: State, frame: bytes, md5: Md5)
    requires AtBatchStart(s) && DataInBounds(s, frame)
    ensures var t := DataAccepted(s, frame, md5);
            t.terminal != RUNNING || (AtBatchStart(t) && Budget(t) < Budget(s))
  {
    hide BootFrame.Valid, Declared, Read32, DataInBounds, DataAccepted, HeaderInBounds, Appended, Retried,
      Acknowledged, Finished;
    DataCases(s, frame, md5);
    if BootFrame.Valid(frame, Declared(frame)) && Read32(frame, 6) == s.next {
      AppendedCounters(s, frame);
      if IsLast(s, s.next) {
        FinishedStops(Appended(s, frame), md5);
      } else {
        AcknowledgedCounters(s, Appended(s, frame));
      }
    } else {
      RetriedCounters(s);
    }
  }

  lemma FinishedStops(s: State, md5: Md5)
    requires HeaderInBounds(s.stream, |s.flash|)
    ensures Finished(s, md5).terminal != RUNNING
  {
    hide Program, Erase, Terminal;
  }

  /** With one packet in each batch, or one packet in all, every run ends within the budget, whatever the frames. */
  lemma {:induction false} RetriesEnd(s: State, frames: seq<bytes>, md5: Md5)
    requires AtBatchStart(s) && RunInBounds(s, frames, md5) && |frames| >= Budget(s)
    ensures Run(s, frames, md5).terminal != RUNNING
    decreases |frames|
  {
    assert Budget(s) > 0;
    BudgetShrinks(s, frames[0], md5);
    hide DataInBounds, DataAccepted;
    var t := DataAccepted(s, frames[0], md5);
    if t.terminal == RUNNING {
      RetriesEnd(t, frames[1..], md5);
    }
  }

  // ----- unbounded retries -----

  function FirstFrame(blob: bytes, subpack: nat): bytes
    requires subpack + 11 <= 0xFFFF
  {
    BootFrame.Frame(BootFrame.Host, 3, DataPayload(blob, subpack, 0))
  }

  /** The first frame with its checksum byte spoiled. */
  function SpoiledFrame(blob: bytes, subpack: nat): bytes
    requires subpack + 11 <= 0xFFFF
  {
    var f := FirstFrame(blob, subpack);
    f[|f| - 1 := (f[|f| - 1] as int + 1) % 0x100]
  }

  lemma FirstFrameFromHost(s: State, blob: bytes)
    requires s.meta.subpack + 11 <= 0xFFFF
    ensures var f := FirstFrame(blob, s.meta.subpack);
            IsDataFrame(f, blob, s.meta.subpack, 0) && FromHost(f, s, blob)
  {
    hide BootFrame.Valid, Declared, Read32, BootFrame.Covered, BootFrame.Sum;
    var f := FirstFrame(blob, s.meta.subpack);
    assert IsDataFrame(f, blob, s.meta.subpack, 0);
    hide IsDataFrame, FirstFrame;
    DataFrameReads(f, blob, s.meta.subpack, 0);
  }

  lemma SpoiledFromHost(s: State, blob: bytes)
    requires s.meta.subpack + 11 <= 0xFFFF
    ensures var f := SpoiledFrame(blob, s.meta.subpack);
            FromHost(f, s, blob) && |f| >= 11 && DATA_OVERHEAD <= Declared(f) <= |f| && !BootFrame.Valid(f, Declared(f))
  {
    hide BootFrame.Sum, BootFrame.Valid, IsDataFrame, Read32, BootFrame.Covered;
    var p := DataPayload(blob, s.meta.subpack, 0);
    var f := FirstFrame(blob, s.meta.subpack);
    assert |p| + 7 == |f| && |p| >= 4;
    BootFrame.OneByteDamageDetected(3, p, |p| + 6, (f[|f| - 1] as int + 1) % 0x100);
  }

  /** One good frame clears the error counter; one bad frame then rewinds the batch. */
  lemma RetryCycle(s: State, blob: bytes, md5: Md5) returns (t: State)
    requires Inv(s, blob) && Sound(blob, |s.flash|, md5) && s.meta.subpack + 11 <= 0xFFFF
    requires s.meta.packetsPerAck >= 2 && s.packetCount >= 2 && s.next == 0 && s.batchFirst == 0
    ensures RunInBounds(s, [FirstFrame(blob, s.meta.subpack), SpoiledFrame(blob, s.meta.subpack)], md5)
    ensures t == Run(s, [FirstFrame(blob, s.meta.subpack), SpoiledFrame(blob, s.meta.subpack)], md5)
    ensures Inv(t, blob) && t.meta == s.meta && t.packetCount == s.packetCount && t.flash == s.flash
    ensures t.next == 0 && t.batchFirst == 0
  {
    var good, bad := FirstFrame(blob, s.meta.subpack), SpoiledFrame(blob, s.meta.subpack);
    FirstFrameFromHost(s, blob);
    RunningState(s, blob);
    DataFrameReads(good, blob, s.meta.subpack, 0);
    hide FirstFrame, SpoiledFrame, IsDataFrame, BootFrame.Valid, Declared;
    MiddlePacket(s, blob, good, md5);
    BatchUnmoved(s, good, md5);
    ConfiguredMeta(s, good, md5);
    var m := DataAccepted(s, good, md5);
    RunningState(m, blob);
    SpoiledFromHost(m, blob);
    UnexpectedFrame(m, blob, bad, md5);
    RetryKeeps(m, blob);
    ConfiguredMeta(m, bad, md5);
    t := DataAccepted(m, bad, md5);
    hide DataAccepted, DataInBounds, Inv, Retried;
    TwoFrames(s, m, t, good, bad, md5);
  }

  lemma TwoFrames(s: State, m: State, t: State, a: bytes, b: bytes, md5: Md5)
    requires s.terminal == RUNNING && m.terminal == RUNNING
    requires DataInBounds(s, a) && m == DataAccepted(s, a, md5) && DataInBounds(m, b) && t == DataAccepted(m, b, md5)
    ensures RunInBounds(s, [a, b], md5) && Run(s, [a, b], md5) == t
  {
    hide DataInBounds, DataAccepted;
    assert [a, b][1..] == [b] && [b][1..] == [];
    assert RunInBounds(t, [], md5) && Run(t, [], md5) == t;
    assert RunInBounds(m, [b], md5) && Run(m, [b], md5) == t;
  }

  lemma BatchUnmoved(s: State, frame: bytes, md5: Md5)
    requires DataInBounds(s, frame) && BootFrame.Valid(frame, Declared(frame)) && Read32(frame, 6) == s.next
    requires s.next == 0 && s.packetCount >= 2 && s.meta.packetsPerAck >= 2
    ensures DataAccepted(s, frame, md5).batchFirst == s.batchFirst
  {
    hide BootFrame.Valid, Declared, Read32, DataInBounds, DataAccepted, HeaderInBounds, Appended, Finished;
    DataCases(s, frame, md5);
    AppendedCounters(s, frame);
    assert !IsLast(s, s.next) && Appended(s, frame).next == 1;
    OneOfMany(s.meta.packetsPerAck);
  }

  lemma OneOfMany(p: nat)
    requires p >= 2
    ensures 1 % p != 0
  {
    Arith.ModOfMultiple(0, 1, p);
  }

  // ----- exactly when retries end -----

  /** Cycles of one good and one bad frame. */
  function Cycles(blob: bytes, subpack: nat, n: nat): seq<bytes>
    requires subpack + 11 <= 0xFFFF
  {
    if n == 0 then [] else [FirstFrame(blob, subpack), SpoiledFrame(blob, subpack)] + Cycles(blob, subpack, n - 1)
  }

  lemma {:induction false} RunAppend(s: State, a: seq<bytes>, b: seq<bytes>, md5: Md5)
    requires RunInBounds(s, a, md5) && RunInBounds(Run(s, a, md5), b, md5)
    ensures RunInBounds(s, a + b, md5) && Run(s, a + b, md5) == Run(Run(s, a, md5), b, md5)
    decreases |a|
  {
    hide DataInBounds, DataAccepted;
    if a == [] {
      assert a + b == b;
    } else if s.terminal == RUNNING {
      assert (a + b)[0] == a[0] && (a + b)[1..] == a[1..] + b;
      RunAppend(DataAccepted(s, a[0], md5), a[1..], b, md5);
    }
  }

  lemma {:induction false} CyclesFromHost(s: State, blob: bytes, n: nat)
    requires s.meta.subpack + 11 <= 0xFFFF
    ensures var frames := Cycles(blob, s.meta.subpack, n);
            |frames| == 2 * n && AllFromHost(frames, s, blob)
  {
    FirstFrameFromHost(s, blob);
    SpoiledFromHost(s, blob);
    hide FirstFrame, SpoiledFrame, FromHost;
    if n > 0 {
      CyclesFromHost(s, blob, n - 1);
    }
  }

  /** With two or more packets in a batch and in the blob, retries can go on for as long as one likes. */
  lemma {:induction false} RetriesGoOn(s: State, blob: bytes, n: nat, md5: Md5)
    requires Inv(s, blob) && Sound(blob, |s.flash|, md5) && s.meta.subpack + 11 <= 0xFFFF
    requires s.meta.packetsPerAck >= 2 && s.packetCount >= 2 && s.next == 0 && s.batchFirst == 0
    ensures var frames := Cycles(blob, s.meta.subpack, n);
            RunInBounds(s, frames, md5) && Run(s, frames, md5).terminal == RUNNING
    decreases n
  {
    hide *;
    CyclesUnfold(blob, s.meta.subpack, n);
    if n == 0 {
    RunningState(s, blob);
      NoFrames(s, md5);
    } else {
      var t := RetryCycle(s, blob, md5);
      RetriesGoOn(t, blob, n - 1, md5);
      var pair := [FirstFrame(blob, s.meta.subpack), SpoiledFrame(blob, s.meta.subpack)];
      RunAppend(s, pair, Cycles(blob, s.meta.subpack, n - 1), md5);
    }
  }

  lemma CyclesUnfold(blob: bytes, subpack: nat, n: nat)
    requires subpack + 11 <= 0xFFFF
    ensures n == 0 ==> Cycles(blob, subpack, n) == []
    ensures n > 0 ==>
              Cycles(blob, subpack, n) ==
              [FirstFrame(blob, subpack), SpoiledFrame(blob, subpack)] + Cycles(blob, subpack, n - 1)
  {
    hide FirstFrame, SpoiledFrame;
  }

  lemma NoFrames(s: State, md5: Md5)
    ensures RunInBounds(s, [], md5) && Run(s, [], md5) == s
  {
    hide DataInBounds, DataAccepted;
  }

  ghost predicate EveryRunEnds(s: State, blob: bytes, bound: nat, md5: Md5) {
    forall frames {:trigger AllFromHost(frames, s, blob)} ::
      AllFromHost(frames, s, blob) && |frames| >= bound && RunInBounds(s, frames, md5) ==>
        Run(s, frames, md5).terminal != RUNNING
  }

  /**
   The retries of a freshly started transfer are bounded exactly when each batch is one packet long, or
   there is only one packet; five frames for each packet are then always enough.
   */
  lemma RetriesBoundedExactly(s: State, blob: bytes, md5: Md5)
    requires Inv(s, blob) && Sound(blob, |s.flash|, md5) && s.meta.subpack + 11 <= 0xFFFF
    requires s.next == 0 && s.batchFirst == 0 && s.bad == 0
    ensures s.meta.packetsPerAck == 1 || s.packetCount == 1 ==> EveryRunEnds(s, blob, 5 * s.packetCount, md5)
    ensures !(s.meta.packetsPerAck == 1 || s.packetCount == 1) ==>
              forall bound: nat :: !EveryRunEnds(s, blob, bound, md5)
  {
    InRange(s, blob);
    RunningState(s, blob);
    hide Inv, Sound, FromHost, Run, RunInBounds, AllFromHost;
    if s.meta.packetsPerAck == 1 || s.packetCount == 1 {
      forall frames | AllFromHost(frames, s, blob) && |frames| >= 5 * s.packetCount && RunInBounds(s, frames, md5)
        ensures Run(s, frames, md5).terminal != RUNNING
      {
        RetriesEnd(s, frames, md5);
      }
    } else {
      forall bound: nat
        ensures !EveryRunEnds(s, blob, bound, md5)
      {
        CyclesFromHost(s, blob, bound);
        RetriesGoOn(s, blob, bound, md5);
      }
    }
  }
}

/** What the updater's handlers do, in numbers: fields, 32-bit counts, retries and flash bits. */
module UpdaterFields {
  import opened Bytes
  import BootFrame
  import opened Updater
  import UpdaterRuns
  import Arith

  const WRAP: nat := 0x1_0000_0000

  function Word(frame: bytes, at: nat): nat
    requires at + 2 <= |frame|
  {
    frame[at] as int + 0x100 * frame[at + 1] as int
  }

  /** Where the metadata fields lie, and the counts in wrapping 32-bit arithmetic; a checksum is not asked for. */
  lemma MetadataExactly(s: State, frame: bytes, heap: Option<bytes>)
    requires MetaInBounds(frame)
    ensures var t := MetadataAccepted(s, frame, heap);
            && t.meta.subpack == Word(frame, 6) && t.meta.transferSize == Word(frame, 8) + 0x1_0000 * Word(frame, 10)
            && t.meta.packetsPerAck == Word(frame, 12) && t.meta.version == Word(frame, 14)
            && t.packetCount == (t.meta.transferSize + t.meta.subpack as int - 1) % WRAP / t.meta.subpack
            && t.batchCount == (t.packetCount as int + t.meta.packetsPerAck as int - 1) % WRAP / t.meta.packetsPerAck
            && t.flash == s.flash
            && (heap.Some? ==>
                  && t.stream == heap.value && t.next == t.batchFirst == t.used == 0 && t.bad == t.stall == 0
                  && t.terminal == 0 && t.sent == s.sent + [BootFrame.Frame(BootFrame.Device, 2, [0, 0, 0, 0])])
            && (heap.None? ==>
                  && t.stream == [] && t.next == s.next && t.batchFirst == s.batchFirst && t.used == s.used
                  && t.bad == s.bad && t.stall == s.stall && t.terminal == s.terminal && t.sent == s.sent)
  {
    hide BootFrame.Frame;
  }

  /** Without wrap-around the count is the least number of packets that hold the transfer. */
  lemma CountCovers(n: u32, d: u32)
    requires d > 0 && n + d - 1 < WRAP
    ensures CeilDiv32(n, d) as int * d as int >= n
    ensures CeilDiv32(n, d) > 0 ==> (CeilDiv32(n, d) as int - 1) * d as int < n
  {
    Arith.DivMod(n + d - 1, d);
    var q := (n + d - 1) / d;
    assert (q - 1) * d == q * d - d;
  }

  /** The fifth error ends the transfer; any other goes back to the start of the batch and asks for it. */
  lemma RetryExactly(s: State)
    ensures var t, errors := Retried(s), (s.bad as int + 1) % 0x100;
            && t.bad == errors && t.stream == s.stream && t.flash == s.flash && t.meta == s.meta
            && t.packetCount == s.packetCount && t.batchFirst == s.batchFirst && t.stall == s.stall
            && (errors >= 5 ==>
                  && t.terminal == 2 && t.next == s.next && t.used == s.used
                  && t.sent == s.sent + [BootFrame.Frame(BootFrame.Device, 5, [0])])
            && (errors < 5 ==>
                  && t.terminal == s.terminal && t.next == s.batchFirst
                  && t.used == s.batchFirst as int * s.meta.subpack as int % WRAP
                  && t.sent == s.sent + [BootFrame.Frame(BootFrame.Device, 2, Pack32(s.batchFirst))])
  {
    hide BootFrame.Frame, Pack32;
  }

  /** The host's magic, and a byte sum that matches the last byte. */
  predicate Sums(frame: bytes, n: nat)
    requires 3 <= n <= |frame|
  {
    frame[..3] == [0x80, 0x00, 0xEE] && BootFrame.Total(frame[..n - 1]) % 0x100 == frame[n - 1]
  }

  /** The received data and the counters after it. */
  predicate Advanced(t: State, s: State, data: bytes)
    requires s.used as int + |data| <= |s.stream|
  {
    && t.next == (s.next as int + 1) % WRAP && t.bad == 0 && t.used == (s.used as int + |data|) % WRAP
    && t.stream == Splice(s.stream, s.used, data)
  }

  /** A data frame is refused for its magic, its checksum or its number, and for nothing else. */
  lemma RefusedExactly(s: State, frame: bytes, md5: Md5)
    requires DataInBounds(s, frame)
    ensures |frame| >= 11 && 11 <= Declared(frame) <= |frame|
    ensures Sums(frame, Declared(frame)) && Read32(frame, 6) == s.next ==>
              && s.used as int + Declared(frame) - 11 <= |s.stream|
              && Advanced(DataAccepted(s, frame, md5), s, frame[10..Declared(frame) - 1])
    ensures !Sums(frame, Declared(frame)) || Read32(frame, 6) != s.next ==> DataAccepted(s, frame, md5) == Retried(s)
  {
    hide BootFrame.Valid, Declared, Read32, DataInBounds, DataAccepted, HeaderInBounds, Finished, Retried, IsLast,
      Sums, Advanced, Appended, Acknowledged;
    DataCases(s, frame, md5);
    SumsIsValid(frame, Declared(frame));
    if BootFrame.Valid(frame, Declared(frame)) && Read32(frame, 6) == s.next {
      AppendedAdvances(s, frame);
      if IsLast(s, s.next) {
        FinishedCounters(Appended(s, frame), md5);
        StillAdvanced(Appended(s, frame), Finished(Appended(s, frame), md5), s, frame[10..Declared(frame) - 1]);
      } else {
        AcknowledgedCounters(Appended(s, frame));
        StillAdvanced(Appended(s, frame), Acknowledged(Appended(s, frame)), s, frame[10..Declared(frame) - 1]);
      }
    }
  }

  lemma SumsIsValid(frame: bytes, n: nat)
    requires 3 <= n <= |frame|
    ensures Sums(frame, n) <==> BootFrame.Valid(frame, n)
  {
    hide BootFrame.Total, BootFrame.Valid;
    BootFrame.ValidExactly(frame, n);
  }

  lemma AppendedAdvances(s: State, frame: bytes)
    requires |frame| >= 11 && DATA_OVERHEAD <= Declared(frame) <= |frame|
    requires s.used as int + Declared(frame) - DATA_OVERHEAD <= |s.stream|
    ensures Advanced(Appended(s, frame), s, frame[10..Declared(frame) - 1])
  {
    hide Splice, Declared;
  }

  lemma StillAdvanced(t: State, u: State, s: State, data: bytes)
    requires s.used as int + |data| <= |s.stream| && Advanced(t, s, data)
    requires u.next == t.next && u.bad == t.bad && u.stream == t.stream && u.used == t.used
    ensures Advanced(u, s, data)
  {
    hide Splice;
  }

  lemma AcknowledgedCounters(t: State)
    requires t.meta.packetsPerAck > 0
    ensures var u := Acknowledged(t); u.next == t.next && u.bad == t.bad && u.stream == t.stream && u.used == t.used
  {
    hide Ack;
  }

  lemma FinishedCounters(t: State, md5: Md5)
    requires HeaderInBounds(t.stream, |t.flash|)
    ensures var u := Finished(t, md5);
            u.next == t.next && u.bad == t.bad && u.stream == t.stream && u.used == t.used && u.stall == t.stall
  {
    hide Program, Erase, Terminal, Read32;
  }

  /** Nothing ever counts as stalled. */
  lemma {:induction false} NeverStalls(s: State, frames: seq<bytes>, md5: Md5)
    requires UpdaterRuns.RunInBounds(s, frames, md5)
    ensures UpdaterRuns.Run(s, frames, md5).stall == s.stall
    decreases |frames|
  {
    hide DataInBounds, DataAccepted;
    if frames != [] && s.terminal == RUNNING {
      StallKept(s, frames[0], md5);
      NeverStalls(DataAccepted(s, frames[0], md5), frames[1..], md5);
    }
  }

  lemma StallKept(s: State, frame: bytes, md5: Md5)
    requires DataInBounds(s, frame)
    ensures DataAccepted(s, frame, md5).stall == s.stall
  {
    hide BootFrame.Valid, Declared, Read32, DataInBounds, DataAccepted, HeaderInBounds, Finished, Splice, Ack,
      Terminal, IsLast;
    DataCases(s, frame, md5);
    if BootFrame.Valid(frame, Declared(frame)) && Read32(frame, 6) == s.next && IsLast(s, s.next) {
      FinishedCounters(Appended(s, frame), md5);
    }
  }

  // ----- flash -----

  /** Programming can only clear bits, byte by byte in its range and nowhere else. */
  lemma ProgramClears(flash: bytes, at: nat, data: bytes, i: nat)
    requires at + |data| <= |flash| && i < |flash|
    ensures var p := Program(flash, at, data);
            && |p| == |flash|
            && (at <= i < at + |data| ==> ToBits(p[i]) == ToBits(flash[i]) & ToBits(data[i - at]))
            && (!(at <= i < at + |data|) ==> p[i] == flash[i])
  {
    if at <= i < at + |data| {
      OfBitsToBits(ToBits(flash[i]) & ToBits(data[i - at]));
    }
  }

  /** Erasing sets every bit of its range and nothing else. */
  lemma EraseSets(flash: bytes, at: nat, n: nat, i: nat)
    requires at + n <= |flash| && i < |flash|
    ensures |Erase(flash, at, n)| == |flash| && Erase(flash, at, n)[i] == if at <= i < at + n then 0xFF else flash[i]
  {
  }
}

/** The digest gate, whatever was sent: the flash changes only to an image whose MD5 the received header names. */
module UpdaterDigest {
  import opened Bytes
  import BootFrame
  import opened Updater
  import UpdaterRuns

  /** The stream once the data of a frame is copied into it. */
  function Received(s: State, frame: bytes): bytes
    requires |frame| >= 11 && 11 <= Declared(frame) <= |frame|
    requires s.used as int + Declared(frame) - 11 <= |s.stream|
  {
    Splice(s.stream, s.used, frame[10..Declared(frame) - 1])
  }

  /** The frame that is expected, and the last one. */
  predicate Completes(s: State, frame: bytes)
    requires |frame| >= 11 && 11 <= Declared(frame) <= |frame|
  {
    && BootFrame.Valid(frame, Declared(frame)) && Read32(frame, 6) == s.next
    && s.next as int == (s.packetCount as int - 1) % 0x1_0000_0000
  }

  /** The header's length word, counted from the end of the header, stays inside the stream. */
  predicate Holds(stream: bytes) {
    |stream| >= 128 && 128 + Read32(stream, 8) <= |stream|
  }

  function ImageOf(stream: bytes): bytes
    requires Holds(stream)
  {
    stream[128..128 + Read32(stream, 8)]
  }

  predicate Verified(stream: bytes, md5: Md5) {
    Holds(stream) && md5(ImageOf(stream)) == stream[12..28]
  }

  /** The flash with the image of a stream at the offset that its header names. */
  predicate Programmed(flash: bytes, before: bytes, stream: bytes)
    requires Holds(stream)
  {
    && Read32(stream, 4) + |ImageOf(stream)| <= |before|
    && flash == Splice(before, Read32(stream, 4), ImageOf(stream))
  }

  lemma FinishedExactly(t: State, md5: Md5)
    requires HeaderInBounds(t.stream, |t.flash|)
    ensures Holds(t.stream)
    ensures var u := Finished(t, md5);
            && u.stream == t.stream
            && (Verified(t.stream, md5) ==>
                  && u.terminal == 1 && u.sent == t.sent + [BootFrame.Frame(BootFrame.Device, 5, [1])]
                  && Programmed(u.flash, t.flash, t.stream))
            && (!Verified(t.stream, md5) ==>
                  && u.terminal == 2 && u.sent == t.sent + [BootFrame.Frame(BootFrame.Device, 5, [0])]
                  && u.flash == t.flash)
  {
    hide Program, Erase, BootFrame.Frame, Read32;
    ErasedThenProgrammed(t.flash, Read32(t.stream, 4), Image(t.stream));
  }

  lemma StreamReceived(s: State, frame: bytes)
    requires |frame| >= 11 && DATA_OVERHEAD <= Declared(frame) <= |frame|
    requires s.used as int + Declared(frame) - DATA_OVERHEAD <= |s.stream|
    ensures Appended(s, frame).stream == Received(s, frame)
    ensures Appended(s, frame).flash == s.flash && Appended(s, frame).sent == s.sent
    ensures Appended(s, frame).terminal == s.terminal
  {
    hide Splice, Declared;
  }

  /**
   The last expected packet decides: a digest that is not the header's fails the transfer and leaves the flash
   alone, also when the damage escaped the additive checksum; the right one programs the image.
   */
  lemma LastPacketDecides(s: State, frame: bytes, md5: Md5)
    requires DataInBounds(s, frame) && Completes(s, frame)
    ensures var stream, t := Received(s, frame), DataAccepted(s, frame, md5);
            && Holds(stream) && t.stream == stream
            && (md5(ImageOf(stream)) == stream[12..28] ==>
                  && t.terminal == 1 && t.sent == s.sent + [BootFrame.Frame(BootFrame.Device, 5, [1])]
                  && Programmed(t.flash, s.flash, stream))
            && (md5(ImageOf(stream)) != stream[12..28] ==>
                  && t.terminal == 2 && t.sent == s.sent + [BootFrame.Frame(BootFrame.Device, 5, [0])]
                  && t.flash == s.flash)
  {
    hide BootFrame.Valid, BootFrame.Frame, Declared, Read32, DataInBounds, DataAccepted, HeaderInBounds, Appended,
      Finished, Programmed, Splice, Received;
    DataCases(s, frame, md5);
    StreamReceived(s, frame);
    FinishedExactly(Appended(s, frame), md5);
  }

  /** No other frame touches the flash or reports success. */
  lemma OtherwiseUntouched(s: State, frame: bytes, md5: Md5)
    requires DataInBounds(s, frame) && !Completes(s, frame)
    ensures var t := DataAccepted(s, frame, md5);
            t.flash == s.flash && (t.terminal == s.terminal || t.terminal == 2)
  {
    hide BootFrame.Valid, BootFrame.Frame, Declared, Read32, DataInBounds, DataAccepted, HeaderInBounds, Appended,
      Finished, Splice, Ack, Terminal;
    DataCases(s, frame, md5);
    if BootFrame.Valid(frame, Declared(frame)) && Read32(frame, 6) == s.next {
      StreamReceived(s, frame);
    }
  }

  /**
   Over every run of data frames that stays in bounds, whoever sent them: either the flash is untouched and no
   success was reported, or it holds the image of a stream whose digest is the one its own header names.
   */
  lemma {:induction false} RunVerified(s: State, frames: seq<bytes>, md5: Md5)
    requires s.terminal == RUNNING && UpdaterRuns.RunInBounds(s, frames, md5)
    ensures var t := UpdaterRuns.Run(s, frames, md5);
            || (t.flash == s.flash && t.terminal != 1)
            || (t.terminal == 1 && Verified(t.stream, md5) && Programmed(t.flash, s.flash, t.stream))
    decreases |frames|
  {
    hide BootFrame.Valid, Declared, Read32, DataInBounds, DataAccepted, Programmed, Holds, ImageOf;
    if frames != [] {
      StepBounds(s, frames[0]);
      var t := DataAccepted(s, frames[0], md5);
      if Completes(s, frames[0]) {
        LastPacketDecides(s, frames[0], md5);
      } else {
        OtherwiseUntouched(s, frames[0], md5);
        if t.terminal == RUNNING {
          RunVerified(t, frames[1..], md5);
        }
      }
      Stopped(t, frames[1..], md5);
    }
  }

  lemma StepBounds(s: State, frame: bytes)
    requires DataInBounds(s, frame)
    ensures |frame| >= 11 && DATA_OVERHEAD <= Declared(frame) <= |frame|
  {
    hide BootFrame.Valid, Declared, Read32, HeaderInBounds, Appended;
  }

  lemma Stopped(t: State, frames: seq<bytes>, md5: Md5)
    ensures t.terminal != RUNNING ==>
              UpdaterRuns.RunInBounds(t, frames, md5) && UpdaterRuns.Run(t, frames, md5) == t
  {
    hide DataInBounds, DataAccepted;
  }

  // ----- any traffic -----

  /** Whatever frame arrives, it changes the flash only as a completing data frame, and then to a verified image. */
  lemma AnyFrameVerified(s: State, frame: bytes, md5: Md5, heap: Option<bytes>)
    requires FrameInBounds(s, frame)
    ensures var t := Updater.Received(s, frame, md5, heap);
            || t.flash == s.flash
            || (frame[..4] == [0x80, 0x00, 0xEE, 3] && DataInBounds(s, frame) && Completes(s, frame)
                && t.terminal == 1 && Verified(t.stream, md5) && Programmed(t.flash, s.flash, t.stream))
  {
    hide BootFrame.Valid, Declared, Read32, DataInBounds, DataAccepted, Programmed, Holds, ImageOf, MetadataAccepted,
      Splice;
    if frame[..3] == BootFrame.Magic(BootFrame.Host) && frame[3] == 3 {
      assert frame[..4] == frame[..3] + [frame[3]];
      StepBounds(s, frame);
      if Completes(s, frame) {
        LastPacketDecides(s, frame, md5);
      } else {
        OtherwiseUntouched(s, frame, md5);
      }
    } else if frame[..3] == BootFrame.Magic(BootFrame.Host) && frame[3] == 1 {
      MetadataKeepsFlash(s, frame, heap);
    }
  }

  lemma MetadataKeepsFlash(s: State, frame: bytes, heap: Option<bytes>)
    requires MetaInBounds(frame)
    ensures MetadataAccepted(s, frame, heap).flash == s.flash
  {
    hide DecodeMeta, CeilDiv32, Ack;
  }

  /** Frames without the host's magic, and host frames of other types than metadata and data, have no effect. */
  lemma OtherFramesIgnored(s: State, frame: bytes, md5: Md5, heap: Option<bytes>)
    requires FrameInBounds(s, frame)
    requires frame[..3] != [0x80, 0x00, 0xEE] || (frame[3] != 1 && frame[3] != 3)
    ensures Updater.Received(s, frame, md5, heap) == s
  {
    hide DataInBounds, DataAccepted, MetadataAccepted;
  }
}

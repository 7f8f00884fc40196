/** Exactly which byte strings have a fingerprint: those made of marker segments up to a scan, and what it is. */
module JpegExact {
  import opened Bytes
  import opened Jpeg
  import opened JpegFields

  // ----- the bytes of a segment -----

  /** Fill bytes, the marker, and unless it stands alone the length with its own two bytes, high byte first. */
  predicate Lies(s: Segment, b: bytes) {
    && s.marker != 0xFF && s.marker != 0xD9
    && |b| >= s.fill + 2 && (forall i :: 0 <= i <= s.fill ==> b[i] == 0xFF) && b[s.fill + 1] == s.marker
    && if s.marker == 0x01 || 0xD0 <= s.marker <= 0xD7 then s.payload == [] && |b| == s.fill + 2
       else
         && |b| == s.fill + 4 + |s.payload| && b[s.fill + 4..] == s.payload
         && b[s.fill + 2] as int * 0x100 + b[s.fill + 3] as int == |s.payload| + 2
  }

  lemma LiesExactly(s: Segment, b: bytes)
    ensures WellFormed(s) && b == Render(s) <==> Lies(s, b)
  {
    if WellFormed(s) && b == Render(s) {
      assert forall i :: 0 <= i <= s.fill ==> Render(s)[i] == Repeat(0xFF, s.fill + 1)[i];
      if !Standalone(s.marker) {
        assert Render(s)[s.fill + 2] == Big16(|s.payload| + 2)[0] && Render(s)[s.fill + 3] == Big16(|s.payload| + 2)[1];
        assert Render(s)[s.fill + 4..] == s.payload;
      }
    }
    if Lies(s, b) {
      LiesRendered(s, b);
    }
  }

  lemma LiesRendered(s: Segment, b: bytes)
    requires Lies(s, b)
    ensures WellFormed(s) && b == Render(s)
  {
    if !Standalone(s.marker) {
      var size := |s.payload| + 2;
      assert size / 0x100 == b[s.fill + 2] && size % 0x100 == b[s.fill + 3];
      assert b == b[..s.fill + 1] + [b[s.fill + 1]] + [b[s.fill + 2], b[s.fill + 3]] + b[s.fill + 4..];
    }
  }

  // ----- the walk -----

  /** The segment at a position, up to an end. */
  lemma SegmentFound(frame: bytes, pos: nat, p: nat, end: nat) returns (s: Segment)
    requires pos < p < end <= |frame| && frame[p] != 0xFF && frame[p] != 0xD9
    requires forall i :: pos <= i < p ==> frame[i] == 0xFF
    requires if Standalone(frame[p]) then end == p + 1
             else p + 3 <= end && ReadBig16(frame, p + 1) == end - p - 1
    ensures WellFormed(s) && s.marker == frame[p] && frame[pos..end] == Render(s)
    ensures s.payload == if Standalone(frame[p]) then [] else frame[p + 3..end]
  {
    s := Segment(p - pos - 1, frame[p], if Standalone(frame[p]) then [] else frame[p + 3..end]);
    var b := frame[pos..end];
    assert forall i :: 0 <= i < |b| ==> b[i] == frame[pos + i];
    if !Standalone(frame[p]) {
      assert b[s.fill + 4..] == frame[p + 3..end];
    }
    LiesExactly(s, b);
  }

  lemma SaidFirst(s: Segment, segments: seq<Segment>, scan: Segment, info: Info)
    ensures Said([s] + segments + [scan], info) ==
            if Standalone(s.marker) then Said(segments + [scan], Noted(info, s.marker))
            else
              var next := Applied(info, s.marker, s.payload);
              if next.Ok? then Said(segments + [scan], next.value) else Err(next.reason)
  {
    hide Applied;
    assert [s] + segments + [scan] == [s] + (segments + [scan]);
    assert ([s] + (segments + [scan]))[1..] == segments + [scan];
  }

  lemma SaidLast(scan: Segment, info: Info)
    requires scan.marker == 0xDA
    ensures Said([] + [scan], info) == Applied(info, 0xDA, scan.payload)
  {
    hide Applied;
    assert [] + [scan] == [scan] && [scan][1..] == [];
    var next := Applied(info, 0xDA, scan.payload);
    assert next.Ok? ==> Said([], next.value) == next;
  }

  /** What a segment does to the collected info. */
  function Adds(s: Segment, info: Info): Result<Info> {
    if Standalone(s.marker) then Ok(Noted(info, s.marker)) else Applied(info, s.marker, s.payload)
  }

  /** One turn of a walk that reaches scan data goes over one segment. */
  lemma FirstSegment(frame: bytes, pos: nat, info: Info) returns (s: Segment, end: nat)
    requires pos <= |frame| && Walk(frame, pos, info).Ok? && Walk(frame, pos, info).value.scan.Some?
    ensures WellFormed(s) && pos < end <= |frame| && frame[pos..end] == Render(s) && Adds(s, info).Ok?
    ensures if s.marker == 0xDA then Walk(frame, pos, info) == Ok(Walked(Adds(s, info).value, Some(end)))
            else Walk(frame, pos, info) == Walk(frame, end, Adds(s, info).value)
  {
    hide Applied, Walk, AtSegment, Render, WellFormed, ReadBig16;
    WalkCases(frame, pos, info);
    var p := PastFill(frame, pos);
    if Standalone(frame[p]) {
      end := p + 1;
      s := SegmentFound(frame, pos, p, end);
    } else {
      end := SegmentEnds(frame, p, info);
      s := SegmentFound(frame, pos, p, end);
      SegmentCases(frame, p, info, s.payload, end);
    }
  }

  /** A walk that reaches scan data went over segments. */
  lemma {:induction false} WalkSound(frame: bytes, pos: nat, info: Info)
    returns (segments: seq<Segment>, scan: Segment, rest: bytes)
    requires pos <= |frame| && Walk(frame, pos, info).Ok? && Walk(frame, pos, info).value.scan.Some?
    ensures AllWellFormed(segments) && WellFormed(scan) && scan.marker == 0xDA
    ensures forall s :: s in segments ==> s.marker != 0xDA
    ensures frame[pos..] == Joined(segments) + (Render(scan) + rest)
    ensures Walk(frame, pos, info).value.scan == Some(|frame| - |rest|)
    ensures Said(segments + [scan], info) == Ok(Walk(frame, pos, info).value.info)
    decreases |frame| - pos
  {
    hide Applied, Walk, Render, WellFormed, Said, Joined;
    var s, end := FirstSegment(frame, pos, info);
    if s.marker == 0xDA {
      segments, scan, rest := [], s, frame[end..];
      SaidLast(s, info);
      NoneJoined();
      assert frame[pos..] == frame[pos..end] + frame[end..];
      assert [] + (Render(scan) + rest) == Render(scan) + rest;
    } else {
      var more;
      more, scan, rest := WalkSound(frame, end, Adds(s, info).value);
      segments := [s] + more;
      SaidFirst(s, more, scan, info);
      JoinedMore(frame, pos, end, s, more, Render(scan) + rest);
    }
  }

  lemma NoneJoined()
    ensures AllWellFormed([]) && Joined([]) == []
  {
  }

  /** A segment with a length that fits. */
  lemma SegmentEnds(frame: bytes, p: nat, info: Info) returns (end: nat)
    requires p < |frame| && AtSegment(frame, p, info).Ok?
    ensures p + 3 <= end <= |frame| && ReadBig16(frame, p + 1) == end - p - 1
  {
    hide Applied, Walk, ReadBig16;
    end := p + 1 + ReadBig16(frame, p + 1);
  }

  lemma JoinedMore(frame: bytes, pos: nat, end: nat, s: Segment, more: seq<Segment>, after: bytes)
    requires pos <= end <= |frame| && WellFormed(s) && AllWellFormed(more)
    requires frame[pos..end] == Render(s) && frame[end..] == Joined(more) + after
    ensures AllWellFormed([s] + more) && frame[pos..] == Joined([s] + more) + after
  {
    hide Render, WellFormed;
    assert ([s] + more)[1..] == more && forall t :: t in [s] + more ==> t == s || t in more;
    assert frame[pos..] == frame[pos..end] + frame[end..];
    assert Render(s) + (Joined(more) + after) == Render(s) + Joined(more) + after;
  }

  // ----- the fingerprint -----

  /** Start of image, segments, a scan segment, and bytes of which the last two end the image. */
  ghost predicate MadeOf(frame: bytes, segments: seq<Segment>, scan: Segment, rest: bytes) {
    && AllWellFormed(segments) && WellFormed(scan) && scan.marker == 0xDA
    && (forall s :: s in segments ==> s.marker != 0xDA)
    && frame == [0xFF, 0xD8] + (Joined(segments) + (Render(scan) + rest))
    && frame[|frame| - 2..] == [0xFF, 0xD9]
  }

  /** What such a frame shows: its segments' fields and markers, and the restarts before the end of the image. */
  predicate Shown(f: Fingerprint, segments: seq<Segment>, rest: bytes) {
    && AllSound(segments) && TablesIn(segments) != [] && Sized(segments)
    && Read(f.info, Nothing, segments)
    && |f.info.markers| == |segments| + 1 && f.info.markers[|segments|] == 0xDA
    && (forall k :: 0 <= k < |segments| ==> f.info.markers[k] == segments[k].marker)
    && f.restartMarkers == |RestartPlaces(rest[..if |rest| < 2 then 0 else |rest| - 2])|
  }

  lemma Framing(frame: bytes, segments: seq<Segment>, scan: Segment, rest: bytes)
    requires MadeOf(frame, segments, scan, rest)
    ensures Framed(frame) && frame[2..] == Joined(segments) + (Render(scan) + rest) && |rest| <= |frame| - 6
    ensures Clip(frame, |frame| - |rest|, |frame| - 2) == rest[..if |rest| < 2 then 0 else |rest| - 2]
  {
    hide Joined, AllWellFormed;
    var body := Joined(segments) + (Render(scan) + rest);
    assert |Render(scan)| >= 4;
    assert frame[..2] == [0xFF, 0xD8] && frame[2..] == body;
    assert frame[|frame| - |rest|..] == rest;
    if |rest| >= 2 {
      assert frame[|frame| - |rest|..|frame| - 2] == frame[|frame| - |rest|..][..|rest| - 2];
    }
  }

  /** The fingerprint of a frame made of segments, whether or not the scan runs into the end of the image. */
  lemma MadeFingerprint(frame: bytes, segments: seq<Segment>, scan: Segment, rest: bytes)
    requires MadeOf(frame, segments, scan, rest)
    ensures var said, r := Said(segments + [scan], Nothing), FingerprintOf(frame);
            && (r.Ok? <==> said.Ok? && said.value.width != 0 && said.value.height != 0 && said.value.tables != [])
            && (r.Ok? ==> r.value == Fingerprint(said.value,
                                                 Restarts(rest[..if |rest| < 2 then 0 else |rest| - 2])))
  {
    hide Walk, Said, Joined, Render, Restarts, Framed, WellFormed;
    Framing(frame, segments, scan, rest);
    WalkSegments(frame, 2, segments, scan, rest, Nothing);
  }

  /** A frame made of segments has exactly the fingerprint that they show. */
  lemma MadeShows(frame: bytes, segments: seq<Segment>, scan: Segment, rest: bytes, f: Fingerprint)
    requires MadeOf(frame, segments, scan, rest)
    ensures FingerprintOf(frame).Ok? <==> AllSound(segments) && TablesIn(segments) != [] && Sized(segments)
    ensures FingerprintOf(frame) == Ok(f) ==> Shown(f, segments, rest)
  {
    hide Restarts, Said, Joined, Render, SizeHolds, JfifHolds, IntervalHolds, Sized, Sound, WellFormed, FingerprintOf;
    hide Number, IsSize, IsJfif, IsInterval, RestartPlaces;
    MadeFingerprint(frame, segments, scan, rest);
    assert AllWellFormed(segments + [scan]);
    SaidMeans(segments + [scan], Nothing);
    ScanAdds(segments, scan);
    RestartsCounted(rest[..if |rest| < 2 then 0 else |rest| - 2]);
    if AllSound(segments + [scan]) {
      SizeKnown(Said(segments + [scan], Nothing).value, segments);
      MarkersInOrder(segments + [scan], Nothing);
      assert forall k :: 0 <= k < |segments| ==> (segments + [scan])[k] == segments[k];
      assert (segments + [scan])[|segments|] == scan;
    }
  }

  /** What segments show is one fingerprint. */
  lemma ShownOnce(f: Fingerprint, g: Fingerprint, segments: seq<Segment>, rest: bytes)
    requires Shown(f, segments, rest) && Shown(g, segments, rest)
    ensures f == g
  {
    hide AllSound, TablesIn, Number, RestartPlaces, Last;
    assert forall k :: 0 <= k <= |segments| ==> f.info.markers[k] == g.info.markers[k];
    assert f.info.markers == g.info.markers;
    SameFields(f.info, g.info, segments);
  }

  lemma SameFields(a: Info, b: Info, segments: seq<Segment>)
    requires Read(a, Nothing, segments) && Read(b, Nothing, segments)
    ensures a.tables == b.tables && a.width == b.width && a.height == b.height && a.sampling == b.sampling
    ensures a.jfif == b.jfif && a.restartInterval == b.restartInterval
  {
    hide TablesIn, Number, Last, IsSize, IsJfif, IsInterval;
    if Last(segments, IsSize).Some? {
      SameSize(a, b, Last(segments, IsSize).value);
    }
  }

  lemma SameSize(a: Info, b: Info, s: Segment)
    requires SizeHolds(a, s) && SizeHolds(b, s)
    ensures a.width == b.width && a.height == b.height && a.sampling == b.sampling
  {
    assert forall i :: 0 <= i < |a.sampling| ==> a.sampling[i] == b.sampling[i];
  }

  lemma FoundSegments(frame: bytes) returns (segments: seq<Segment>, scan: Segment, rest: bytes)
    requires FingerprintOf(frame).Ok?
    ensures MadeOf(frame, segments, scan, rest)
  {
    hide Walk, Restarts, Joined, Render, Said;
    segments, scan, rest := WalkSound(frame, 2, Nothing);
    assert frame == frame[..2] + frame[2..];
  }

  /**
   A byte string has a fingerprint if and only if it is made of segments up to a scan and ends with the end of the
   image, and then the fingerprint is what these segments show.
   */
  lemma FingerprintExactly(frame: bytes, f: Fingerprint)
    ensures FingerprintOf(frame) == Ok(f) <==>
            exists segments, scan, rest :: MadeOf(frame, segments, scan, rest) && Shown(f, segments, rest)
  {
    hide FingerprintOf, MadeOf, Shown, AllSound, TablesIn, Sized;
    if FingerprintOf(frame) == Ok(f) {
      var segments, scan, rest := FoundSegments(frame);
      MadeShows(frame, segments, scan, rest, f);
    }
    forall segments, scan, rest | MadeOf(frame, segments, scan, rest) && Shown(f, segments, rest)
      ensures FingerprintOf(frame) == Ok(f)
    {
      MadeShows(frame, segments, scan, rest, f);
      ShownSound(f, segments, rest);
      var g := FingerprintOf(frame).value;
      MadeShows(frame, segments, scan, rest, g);
      ShownOnce(f, g, segments, rest);
    }
  }

  lemma ShownSound(f: Fingerprint, segments: seq<Segment>, rest: bytes)
    requires Shown(f, segments, rest)
    ensures AllSound(segments) && TablesIn(segments) != [] && Sized(segments)
  {
    hide AllSound, TablesIn, Sized, Read, RestartPlaces;
  }
}

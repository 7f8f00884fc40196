/** The marker walk over a JPEG frame (ITU-T T.81, section B.1.1) and the fingerprint it collects. */
module Jpeg {
  import opened Bytes

  datatype Component = Component(id: byte, horizontal: nat, vertical: nat)

  datatype Jfif = Jfif(major: byte, minor: byte, units: byte, x: nat, y: nat)

  /** What the walk has collected: the marker codes in order, the quantisation tables joined, and the headers. */
  datatype Info = Info(
    markers: bytes, tables: seq<bytes>, width: nat, height: nat, sampling: seq<Component>,
    jfif: Option<Jfif>, restartInterval: Option<nat>)

  datatype Fingerprint = Fingerprint(info: Info, restartMarkers: nat)

  /** A walk that reached scan data, or ran to the end of the frame without. */
  datatype Walked = Walked(info: Info, scan: Option<nat>)

  const DQT: byte := 0xDB
  const SOF0: byte := 0xC0
  const APP0: byte := 0xE0
  const DRI: byte := 0xDD
  const SOS: byte := 0xDA
  const EOI: byte := 0xD9

  const Nothing: Info := Info([], [], 0, 0, [], None, None)

  function ReadBig16(data: bytes, at: nat): nat
    requires at + 2 <= |data|
  {
    0x100 * data[at] as int + data[at + 1] as int
  }

  predicate Standalone(marker: byte) {
    0xD0 <= marker < 0xD8 || marker == 0x01
  }

  function Noted(info: Info, marker: byte): Info {
    info.(markers := info.markers + [marker])
  }

  function Components(payload: bytes, n: nat): seq<Component>
    requires |payload| == 6 + 3 * n
  {
    seq(n, i requires 0 <= i < n =>
      Component(payload[6 + i * 3], payload[7 + i * 3] / 0x10, payload[7 + i * 3] % 0x10))
  }

  /** What one segment adds. */
  function Applied(info: Info, marker: byte, payload: bytes): Result<Info> {
    var noted := Noted(info, marker);
    if marker == DQT then Ok(noted.(tables := info.tables + [payload]))
    else if marker == SOF0 then
      if |payload| < 6 then Err("truncated baseline JPEG frame header")
      else if |payload| != 6 + 3 * payload[5] as int then Err("invalid baseline JPEG component table")
      else Ok(noted.(height := ReadBig16(payload, 1), width := ReadBig16(payload, 3),
              sampling := Components(payload, payload[5])))
    else if marker == APP0 && [0x4A, 0x46, 0x49, 0x46, 0x00] <= payload && |payload| >= 12 then
      Ok(noted.(jfif := Some(Jfif(payload[5], payload[6], payload[7], ReadBig16(payload, 8), ReadBig16(payload, 10)))))
    else if marker == DRI then
      if |payload| != 2 then Err("invalid JPEG restart interval")
      else Ok(noted.(restartInterval := Some(ReadBig16(payload, 0))))
    else Ok(noted)
  }

  /** The first position from pos on that is not a fill byte. */
  function PastFill(frame: bytes, pos: nat): (p: nat)
    requires pos <= |frame|
    ensures pos <= p <= |frame| && (p < |frame| ==> frame[p] != 0xFF) && forall i :: pos <= i < p ==> frame[i] == 0xFF
    decreases |frame| - pos
  {
    if pos < |frame| && frame[pos] == 0xFF then PastFill(frame, pos + 1) else pos
  }

  /** The walk from one marker to the next, until scan data or the end. */
  function Walk(frame: bytes, pos: nat, info: Info): Result<Walked>
    requires pos <= |frame|
    decreases |frame| - pos, 1
  {
    if pos + 2 >= |frame| then Ok(Walked(info, None))
    else if frame[pos] != 0xFF then Err("invalid JPEG marker structure before scan data")
    else
      var p := PastFill(frame, pos);
      if p >= |frame| then Err("truncated JPEG marker")
      else if Standalone(frame[p]) then Walk(frame, p + 1, Noted(info, frame[p]))
      else if frame[p] == EOI then Err("JPEG ended before a scan")
      else AtSegment(frame, p, info)
  }

  /** A marker segment: its length, its payload, and the walk after it. */
  function AtSegment(frame: bytes, p: nat, info: Info): Result<Walked>
    requires p < |frame|
    decreases |frame| - p, 0
  {
    if p + 3 > |frame| then Err("truncated JPEG segment length")
    else
      var length := ReadBig16(frame, p + 1);
      if length < 2 || p + 1 + length > |frame| then Err("invalid JPEG segment length")
      else
        var next :- Applied(info, frame[p], frame[p + 3..p + 1 + length]);
        if frame[p] == SOS then Ok(Walked(next, Some(p + 1 + length)))
        else Walk(frame, p + 1 + length, next)
  }

  /** How many restart markers the scan data holds. */
  function Restarts(scan: bytes): nat {
    if |scan| < 2 then 0
    else (if scan[0] == 0xFF && 0xD0 <= scan[1] < 0xD8 then 1 else 0) + Restarts(scan[1..])
  }

  predicate Framed(frame: bytes) {
    |frame| >= 4 && frame[..2] == [0xFF, 0xD8] && frame[|frame| - 2..] == [0xFF, EOI]
  }

  function FingerprintOf(frame: bytes): Result<Fingerprint> {
    if !Framed(frame) then Err("stream frame is not a complete JPEG")
    else
      var walked :- Walk(frame, 2, Nothing);
      var i := walked.info;
      if walked.scan.None? || i.width == 0 || i.height == 0 || i.tables == [] then
        Err("JPEG lacks required baseline encoder metadata")
      else Ok(Fingerprint(i, Restarts(Clip(frame, walked.scan.value, |frame| - 2))))
  }

  /** One turn of the walk, by the position after the fill bytes. */
  lemma WalkCases(frame: bytes, pos: nat, info: Info)
    requires pos <= |frame|
    ensures pos + 2 >= |frame| ==> Walk(frame, pos, info) == Ok(Walked(info, None))
    ensures pos + 2 < |frame| && frame[pos] != 0xFF ==>
              Walk(frame, pos, info) == Err("invalid JPEG marker structure before scan data")
    ensures pos + 2 < |frame| && frame[pos] == 0xFF ==>
              var p := PastFill(frame, pos);
              && (p >= |frame| ==> Walk(frame, pos, info) == Err("truncated JPEG marker"))
              && (p < |frame| && Standalone(frame[p]) ==>
                    Walk(frame, pos, info) == Walk(frame, p + 1, Noted(info, frame[p])))
              && (p < |frame| && frame[p] == EOI ==> Walk(frame, pos, info) == Err("JPEG ended before a scan"))
              && (p < |frame| && !Standalone(frame[p]) && frame[p] != EOI ==>
                    Walk(frame, pos, info) == AtSegment(frame, p, info))
  {
    hide Applied, AtSegment;
  }

  /** A segment that fits the frame, from its first payload byte to its end. */
  lemma SegmentCases(frame: bytes, p: nat, info: Info, payload: bytes, end: nat)
    requires p + 3 <= end <= |frame| && ReadBig16(frame, p + 1) == end - p - 1 && payload == frame[p + 3..end]
    ensures frame[p] != SOS ==>
              var next := Applied(info, frame[p], payload);
              AtSegment(frame, p, info) == if next.Ok? then Walk(frame, end, next.value) else Err(next.reason)
    ensures frame[p] == SOS ==>
              var next := Applied(info, SOS, payload);
              AtSegment(frame, p, info) == if next.Ok? then Ok(Walked(next.value, Some(end))) else Err(next.reason)
  {
    hide Applied, Walk, ReadBig16;
  }

  /** The inner loop over fill bytes. */
  method SkipFill(frame: bytes, pos: nat) returns (p: nat)
    requires pos <= |frame|
    ensures p == PastFill(frame, pos)
  {
    p := pos;
    while p < |frame| && frame[p] == 0xFF
      invariant pos <= p <= |frame| && PastFill(frame, pos) == PastFill(frame, p)
    {
      p := p + 1;
    }
  }

  /** The loop over markers. */
  method WalkMarkers(frame: bytes) returns (r: Result<Walked>)
    requires |frame| >= 2
    ensures r == Walk(frame, 2, Nothing)
  {
    hide Applied, Standalone, ReadBig16, Walk, PastFill;
    var pos: nat, info := 2, Nothing;
    while pos < |frame| - 2
      invariant pos <= |frame| && Walk(frame, 2, Nothing) == Walk(frame, pos, info)
      decreases |frame| - pos
    {
      WalkCases(frame, pos, info);
      if frame[pos] != 0xFF {
        return Err("invalid JPEG marker structure before scan data");
      }
      pos := SkipFill(frame, pos);
      if pos >= |frame| {
        return Err("truncated JPEG marker");
      }
      var marker := frame[pos];
      pos := pos + 1;
      if Standalone(marker) {
        info := Noted(info, marker);
        continue;
      }
      if marker == EOI {
        return Err("JPEG ended before a scan");
      }
      if pos + 2 > |frame| {
        return Err("truncated JPEG segment length");
      }
      var length := ReadBig16(frame, pos);
      if length < 2 || pos + length > |frame| {
        return Err("invalid JPEG segment length");
      }
      SegmentCases(frame, pos - 1, info, frame[pos + 2..pos + length], pos + length);
      var next :- Applied(info, marker, frame[pos + 2..pos + length]);
      info := next;
      pos := pos + length;
      if marker == SOS {
        return Ok(Walked(info, Some(pos)));
      }
    }
    WalkCases(frame, pos, info);
    return Ok(Walked(info, None));
  }

  /** fingerprint_jpeg. */
  method FingerprintJpeg(frame: bytes) returns (r: Result<Fingerprint>)
    ensures r == FingerprintOf(frame)
  {
    hide Walk, Restarts;
    if !Framed(frame) {
      return Err("stream frame is not a complete JPEG");
    }
    var walked :- WalkMarkers(frame);
    var info, scan := walked.info, walked.scan;
    if scan.None? || info.width == 0 || info.height == 0 || info.tables == [] {
      return Err("JPEG lacks required baseline encoder metadata");
    }
    return Ok(Fingerprint(info, Restarts(Clip(frame, scan.value, |frame| - 2))));
  }

  // ----- frames made of segments -----

  /** A marker with its fill bytes, alone or with a payload. */
  datatype Segment = Segment(fill: nat, marker: byte, payload: bytes)

  function Big16(n: nat): bytes
    requires n < 0x1_0000
  {
    [n / 0x100, n % 0x100]
  }

  predicate WellFormed(s: Segment) {
    && s.marker != 0xFF && s.marker != EOI
    && (if Standalone(s.marker) then s.payload == [] else |s.payload| + 2 < 0x1_0000)
  }

  function Render(s: Segment): bytes
    requires WellFormed(s)
  {
    Repeat(0xFF, s.fill + 1) + [s.marker] + if Standalone(s.marker) then [] else Big16(|s.payload| + 2) + s.payload
  }

  predicate AllWellFormed(segments: seq<Segment>) {
    forall s :: s in segments ==> WellFormed(s)
  }

  function Joined(segments: seq<Segment>): bytes
    requires AllWellFormed(segments)
  {
    if segments == [] then [] else Render(segments[0]) + Joined(segments[1..])
  }

  /** What the segments say, independently of where they lie. */
  function Said(segments: seq<Segment>, info: Info): Result<Info>
    decreases |segments|
  {
    if segments == [] then Ok(info)
    else if Standalone(segments[0].marker) then Said(segments[1..], Noted(info, segments[0].marker))
    else
      var next :- Applied(info, segments[0].marker, segments[0].payload);
      Said(segments[1..], next)
  }

  /** The marker codes are listed in order. */
  lemma {:induction false} MarkersInOrder(segments: seq<Segment>, info: Info)
    requires Said(segments, info).Ok?
    ensures |Said(segments, info).value.markers| == |info.markers| + |segments|
    ensures info.markers <= Said(segments, info).value.markers
    ensures forall k :: 0 <= k < |segments| ==>
            Said(segments, info).value.markers[|info.markers| + k] == segments[k].marker
    decreases |segments|
  {
    if segments != [] {
      var s := segments[0];
      var next := if Standalone(s.marker) then Noted(info, s.marker) else Applied(info, s.marker, s.payload).value;
      assert next.markers == info.markers + [s.marker];
      hide Applied;
      MarkersInOrder(segments[1..], next);
      var all := Said(segments, info).value.markers;
      forall k | 0 <= k < |segments|
        ensures all[|info.markers| + k] == segments[k].marker
      {
        if k > 0 {
          assert segments[k] == segments[1..][k - 1];
        }
      }
    }
  }

  lemma {:induction false} PastFillIs(frame: bytes, pos: nat, p: nat)
    requires pos <= p < |frame| && frame[p] != 0xFF && forall i :: pos <= i < p ==> frame[i] == 0xFF
    ensures PastFill(frame, pos) == p
    decreases p - pos
  {
    if pos < p {
      PastFillIs(frame, pos + 1, p);
    }
  }

  /** Where the walk finds the parts of a rendered segment. */
  lemma RenderedAt(frame: bytes, pos: nat, s: Segment)
    requires WellFormed(s) && pos + |Render(s)| <= |frame| && frame[pos..pos + |Render(s)|] == Render(s)
    ensures var p := pos + s.fill + 1;
            && p < |frame| && frame[pos] == 0xFF && PastFill(frame, pos) == p && frame[p] == s.marker
            && (Standalone(s.marker) ==> pos + |Render(s)| == p + 1)
            && (!Standalone(s.marker) ==>
                  && p + 3 <= |frame| && ReadBig16(frame, p + 1) == |s.payload| + 2
                  && pos + |Render(s)| == p + 3 + |s.payload| && frame[p + 3..p + 3 + |s.payload|] == s.payload)
  {
    var r, p := Render(s), pos + s.fill + 1;
    forall i | pos <= i < pos + |r|
      ensures frame[i] == r[i - pos]
    {
      assert frame[pos..pos + |r|][i - pos] == frame[i];
    }
    assert forall i :: pos <= i < p ==> frame[i] == r[i - pos];
    PastFillIs(frame, pos, p);
    if !Standalone(s.marker) {
      var n := s.fill + 2;
      assert r[n] == Big16(|s.payload| + 2)[0] && r[n + 1] == Big16(|s.payload| + 2)[1];
      assert r[n + 2..] == s.payload;
    }
  }

  /** A segment before the scan moves the walk past it. */
  lemma WalkMarker(frame: bytes, pos: nat, s: Segment, info: Info)
    requires WellFormed(s) && pos + |Render(s)| <= |frame| && frame[pos..pos + |Render(s)|] == Render(s)
    requires pos + 2 < |frame| && Standalone(s.marker)
    ensures Walk(frame, pos, info) == Walk(frame, pos + |Render(s)|, Noted(info, s.marker))
  {
    RenderedAt(frame, pos, s);
    hide *;
    WalkCases(frame, pos, info);
  }

  lemma WalkPayload(frame: bytes, pos: nat, p: nat, payload: bytes, end: nat, info: Info)
    requires pos + 2 < |frame| && frame[pos] == 0xFF && PastFill(frame, pos) == p && p + 3 <= end <= |frame|
    requires !Standalone(frame[p]) && frame[p] != EOI
    requires ReadBig16(frame, p + 1) == end - p - 1 && payload == frame[p + 3..end]
    ensures frame[p] != SOS ==>
              var next := Applied(info, frame[p], payload);
              Walk(frame, pos, info) == if next.Ok? then Walk(frame, end, next.value) else Err(next.reason)
    ensures frame[p] == SOS ==>
              var next := Applied(info, SOS, payload);
              Walk(frame, pos, info) == if next.Ok? then Ok(Walked(next.value, Some(end))) else Err(next.reason)
  {
    hide *;
    WalkCases(frame, pos, info);
    SegmentCases(frame, p, info, payload, end);
  }

  lemma WalkSegment(frame: bytes, pos: nat, s: Segment, info: Info)
    requires WellFormed(s) && pos + |Render(s)| <= |frame| && frame[pos..pos + |Render(s)|] == Render(s)
    requires pos + 2 < |frame| && s.marker != SOS && !Standalone(s.marker)
    ensures var next := Applied(info, s.marker, s.payload);
            Walk(frame, pos, info) == if next.Ok? then Walk(frame, pos + |Render(s)|, next.value) else Err(next.reason)
  {
    RenderedAt(frame, pos, s);
    assert s.marker != EOI;
    WalkPayload(frame, pos, pos + s.fill + 1, s.payload, pos + |Render(s)|, info);
    hide *;
  }

  lemma WalkScan(frame: bytes, pos: nat, s: Segment, info: Info)
    requires WellFormed(s) && pos + |Render(s)| <= |frame| && frame[pos..pos + |Render(s)|] == Render(s)
    requires pos + 2 < |frame| && s.marker == SOS
    ensures var next := Applied(info, SOS, s.payload);
            Walk(frame, pos, info) == if next.Ok? then Ok(Walked(next.value, Some(pos + |Render(s)|)))
            else Err(next.reason)
  {
    RenderedAt(frame, pos, s);
    assert !Standalone(s.marker);
    WalkPayload(frame, pos, pos + s.fill + 1, s.payload, pos + |Render(s)|, info);
    hide *;
  }

  /** The walk over any list of segments up to the scan collects what they say. */
  lemma {:induction false} WalkSegments(frame: bytes, pos: nat, segments: seq<Segment>, scan: Segment, rest: bytes,
                                        info: Info)
    requires AllWellFormed(segments) && WellFormed(scan) && scan.marker == SOS
    requires forall s :: s in segments ==> s.marker != SOS
    requires pos <= |frame| && frame[pos..] == Joined(segments) + (Render(scan) + rest)
    ensures var all := Said(segments + [scan], info);
            Walk(frame, pos, info) == if all.Ok? then Ok(Walked(all.value, Some(|frame| - |rest|))) else Err(all.reason)
    decreases |segments|
  {
    hide Applied, Walk;
    if segments == [] {
      assert frame[pos..] == Render(scan) + rest;
      assert frame[pos..pos + |Render(scan)|] == Render(scan);
      WalkScan(frame, pos, scan, info);
      assert segments + [scan] == [scan] && [scan][1..] == [];
    } else {
      var s := segments[0];
      var after := Joined(segments[1..]) + (Render(scan) + rest);
      assert frame[pos..] == Render(s) + after;
      assert frame[pos..pos + |Render(s)|] == Render(s);
      assert frame[pos + |Render(s)|..] == after;
      if Standalone(s.marker) {
        WalkMarker(frame, pos, s, info);
      } else {
        WalkSegment(frame, pos, s, info);
      }
      assert (segments + [scan])[1..] == segments[1..] + [scan];
      var next := if Standalone(s.marker) then Ok(Noted(info, s.marker)) else Applied(info, s.marker, s.payload);
      if next.Ok? {
        WalkSegments(frame, pos + |Render(s)|, segments[1..], scan, rest, next.value);
      }
    }
  }

  /** A whole frame: start of image, segments with their fill bytes, the scan, end of image. */
  function Frame(segments: seq<Segment>, scan: Segment, data: bytes): bytes
    requires AllWellFormed(segments) && WellFormed(scan)
  {
    [0xFF, 0xD8] + (Joined(segments) + (Render(scan) + (data + [0xFF, EOI])))
  }

  /** The fingerprint of a frame is what its segments say up to and including SOS, and the restarts in its scan data. */
  lemma FrameFingerprint(segments: seq<Segment>, scan: Segment, data: bytes)
    requires AllWellFormed(segments) && WellFormed(scan) && scan.marker == SOS
    requires forall s :: s in segments ==> s.marker != SOS
    ensures var said, r := Said(segments + [scan], Nothing), FingerprintOf(Frame(segments, scan, data));
            && (r.Ok? <==> said.Ok? && said.value.width != 0 && said.value.height != 0 && said.value.tables != [])
            && (r.Ok? ==> r.value == Fingerprint(said.value, Restarts(data)))
  {
    hide Walk, Said, Joined, Render, Restarts;
    var frame := Frame(segments, scan, data);
    var rest := data + [0xFF, EOI];
    assert frame[..2] == [0xFF, 0xD8] && frame[2..] == Joined(segments) + (Render(scan) + rest);
    WalkSegments(frame, 2, segments, scan, rest, Nothing);
    var at := |frame| - |rest|;
    assert frame[at..] == rest by {
      assert frame == [0xFF, 0xD8] + Joined(segments) + Render(scan) + rest;
    }
    assert frame[|frame| - 2..] == rest[|data|..] == [0xFF, EOI];
    assert Clip(frame, at, |frame| - 2) == frame[at..][..|data|] == data;
  }
}

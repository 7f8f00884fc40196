/** The fingerprint of a frame from the fields written in its segments (ITU-T T.81, sections B.2.2 and B.2.4). */
module JpegFields {
  import opened Bytes
  import opened Jpeg

  // ----- what the segments hold, by place -----

  type Test = Segment -> bool

  /** The last segment that passes a test. */
  function Last(segments: seq<Segment>, q: Test): Option<Segment> {
    if segments == [] then None
    else
      var later := Last(segments[1..], q);
      if later.None? && q(segments[0]) then Some(segments[0]) else later
  }

  predicate IsSize(s: Segment) {
    s.marker == 0xC0
  }

  predicate IsInterval(s: Segment) {
    s.marker == 0xDD
  }

  /** APP0 with the JFIF tag and all its fields. */
  predicate IsJfif(s: Segment) {
    s.marker == 0xE0 && |s.payload| >= 12 && s.payload[..5] == [0x4A, 0x46, 0x49, 0x46, 0x00]
  }

  /** The payloads of the quantisation tables, in order. */
  function TablesIn(segments: seq<Segment>): seq<bytes> {
    if segments == [] then []
    else (if segments[0].marker == 0xDB then [segments[0].payload] else []) + TablesIn(segments[1..])
  }

  /** Frame headers and restart intervals of the right length. */
  predicate Sound(s: Segment) {
    && (s.marker == 0xC0 ==> |s.payload| >= 6 && |s.payload| == 6 + 3 * s.payload[5] as int)
    && (s.marker == 0xDD ==> |s.payload| == 2)
  }

  predicate AllSound(segments: seq<Segment>) {
    forall s :: s in segments ==> Sound(s)
  }

  function Number(data: bytes, at: nat): nat
    requires at + 2 <= |data|
  {
    data[at] as int * 0x100 + data[at + 1] as int
  }

  /** Height before width, then one triple for each component. */
  predicate SizeHolds(info: Info, s: Segment) {
    && |s.payload| >= 6 && |s.payload| == 6 + 3 * s.payload[5] as int
    && info.height == Number(s.payload, 1) && info.width == Number(s.payload, 3)
    && |info.sampling| == s.payload[5] as int
    && forall i :: 0 <= i < |info.sampling| ==>
                     info.sampling[i] ==
                     Component(s.payload[6 + 3 * i], s.payload[7 + 3 * i] / 0x10, s.payload[7 + 3 * i] % 0x10)
  }

  predicate JfifHolds(info: Info, s: Segment) {
    && |s.payload| >= 12
    && info.jfif == Some(Jfif(s.payload[5], s.payload[6], s.payload[7], Number(s.payload, 8), Number(s.payload, 10)))
  }

  predicate IntervalHolds(info: Info, s: Segment) {
    |s.payload| == 2 && info.restartInterval == Some(Number(s.payload, 0))
  }

  /** The last frame header gives a size. */
  predicate Sized(segments: seq<Segment>) {
    match Last(segments, IsSize)
    case Some(s) => |s.payload| >= 6 && Number(s.payload, 1) != 0 && Number(s.payload, 3) != 0
    case None => false
  }

  lemma AppliedMeans(info: Info, s: Segment)
    ensures var r := Applied(info, s.marker, s.payload);
            && (r.Ok? <==> Sound(s))
            && (r.Ok? ==>
                  && r.value.tables == info.tables + TablesIn([s]) && r.value.markers == info.markers + [s.marker]
                  && (IsSize(s) ==> SizeHolds(r.value, s))
                  && (!IsSize(s) ==> r.value.height == info.height && r.value.width == info.width
                                     && r.value.sampling == info.sampling)
                  && (if IsJfif(s) then JfifHolds(r.value, s) else r.value.jfif == info.jfif)
                  && (if IsInterval(s) then IntervalHolds(r.value, s)
                      else r.value.restartInterval == info.restartInterval))
  {
    assert TablesIn([s]) == if s.marker == 0xDB then [s.payload] else [] by {
      assert [s][1..] == [];
      assert TablesIn([]) == [];
    }
    assert IsJfif(s) <==> s.marker == 0xE0 && [0x4A, 0x46, 0x49, 0x46, 0x00] <= s.payload && |s.payload| >= 12;
  }

  lemma TablesFirst(segments: seq<Segment>)
    requires segments != []
    ensures TablesIn(segments) == TablesIn([segments[0]]) + TablesIn(segments[1..])
  {
    assert [segments[0]][1..] == [];
    assert TablesIn([]) == [];
  }

  /** The given info, changed by the last segment of each kind only. */
  predicate Read(info: Info, before: Info, segments: seq<Segment>) {
    && info.tables == before.tables + TablesIn(segments)
    && (match Last(segments, IsSize)
        case Some(s) => SizeHolds(info, s)
        case None => info.height == before.height && info.width == before.width && info.sampling == before.sampling)
    && (match Last(segments, IsJfif)
        case Some(s) => JfifHolds(info, s)
        case None => info.jfif == before.jfif)
    && (match Last(segments, IsInterval)
        case Some(s) => IntervalHolds(info, s)
        case None => info.restartInterval == before.restartInterval)
  }

  lemma AloneMeans(info: Info, s: Segment)
    requires WellFormed(s) && Standalone(s.marker)
    ensures Sound(s) && !IsSize(s) && !IsJfif(s) && !IsInterval(s) && TablesIn([s]) == []
  {
    assert [s][1..] == [];
    assert TablesIn([]) == [];
  }

  lemma ReadMore(info: Info, mid: Info, before: Info, segments: seq<Segment>)
    requires segments != [] && Read(info, mid, segments[1..]) && mid.tables == before.tables + TablesIn([segments[0]])
    requires if IsSize(segments[0]) then SizeHolds(mid, segments[0])
             else mid.height == before.height && mid.width == before.width && mid.sampling == before.sampling
    requires if IsJfif(segments[0]) then JfifHolds(mid, segments[0]) else mid.jfif == before.jfif
    requires if IsInterval(segments[0]) then IntervalHolds(mid, segments[0])
             else mid.restartInterval == before.restartInterval
    ensures Read(info, before, segments)
  {
    hide IsSize, IsJfif, IsInterval, Number, TablesIn;
    TablesFirst(segments);
    assert before.tables + TablesIn([segments[0]]) + TablesIn(segments[1..]) ==
           before.tables + (TablesIn([segments[0]]) + TablesIn(segments[1..]));
  }

  lemma {:induction false} SaidMeans(segments: seq<Segment>, info: Info)
    requires AllWellFormed(segments)
    ensures Said(segments, info).Ok? <==> AllSound(segments)
    ensures Said(segments, info).Ok? ==> Read(Said(segments, info).value, info, segments)
    decreases |segments|
  {
    hide Applied, Sound, IsSize, IsJfif, IsInterval, SizeHolds, JfifHolds, IntervalHolds, WellFormed, Standalone;
    if segments == [] {
      assert info.tables + [] == info.tables;
    } else {
      var s, rest := segments[0], segments[1..];
      assert s in segments && segments == [s] + rest;
      if Standalone(s.marker) {
        AloneMeans(info, s);
        SaidMeans(rest, Noted(info, s.marker));
        if AllSound(rest) {
          assert info.tables + [] == info.tables;
          ReadMore(Said(segments, info).value, Noted(info, s.marker), info, segments);
        }
      } else {
        AppliedMeans(info, s);
        var next := Applied(info, s.marker, s.payload);
        if next.Ok? {
          SaidMeans(rest, next.value);
          if AllSound(rest) {
            ReadMore(Said(segments, info).value, next.value, info, segments);
          }
        }
      }
    }
  }

  /**
   The fingerprint of a frame by the bytes of its segments: the last frame header gives height, width and components,
   the last JFIF segment its version, units and densities, the last restart interval the interval, and the tables come
   in order. There is one exactly when all headers have their length and there are a size and a table.
   */
  lemma FrameReads(segments: seq<Segment>, scan: Segment, data: bytes)
    requires AllWellFormed(segments) && WellFormed(scan) && scan.marker == 0xDA
    requires forall s :: s in segments ==> s.marker != 0xDA
    ensures var r := FingerprintOf(Frame(segments, scan, data));
            && (r.Ok? <==> AllSound(segments) && TablesIn(segments) != [] && Sized(segments))
            && (r.Ok? ==> Read(r.value.info, Nothing, segments) && r.value.restartMarkers == Restarts(data))
  {
    hide Frame, Restarts, Said, SizeHolds, JfifHolds, IntervalHolds, Sized, Sound, WellFormed;
    hide Number, IsSize, IsJfif, IsInterval;
    FrameFingerprint(segments, scan, data);
    assert AllWellFormed(segments + [scan]);
    SaidMeans(segments + [scan], Nothing);
    ScanAdds(segments, scan);
    if AllSound(segments + [scan]) {
      SizeKnown(Said(segments + [scan], Nothing).value, segments);
    }
  }

  lemma {:induction false} LastNone(segments: seq<Segment>, q: Test)
    requires forall k :: 0 <= k < |segments| ==> !q(segments[k])
    ensures Last(segments, q) == None
    decreases |segments|
  {
    if segments != [] {
      LastNone(segments[1..], q);
    }
  }

  lemma SizeKnown(info: Info, segments: seq<Segment>)
    requires Read(info, Nothing, segments) && AllSound(segments)
    ensures info.tables == TablesIn(segments)
    ensures info.width != 0 && info.height != 0 <==> Sized(segments)
  {
    hide JfifHolds, IntervalHolds, Number, IsSize, IsJfif, IsInterval;
    assert [] + TablesIn(segments) == TablesIn(segments);
  }

  /** The scan header adds nothing to the fields. */
  lemma ScanAdds(segments: seq<Segment>, scan: Segment)
    requires scan.marker == 0xDA
    ensures AllSound(segments + [scan]) <==> AllSound(segments)
    ensures TablesIn(segments + [scan]) == TablesIn(segments)
    ensures Last(segments + [scan], IsSize) == Last(segments, IsSize)
    ensures Last(segments + [scan], IsJfif) == Last(segments, IsJfif)
    ensures Last(segments + [scan], IsInterval) == Last(segments, IsInterval)
  {
    LastAdds(segments, scan, IsSize);
    LastAdds(segments, scan, IsJfif);
    LastAdds(segments, scan, IsInterval);
    TablesAdd(segments, scan);
  }

  lemma {:induction false} LastAdds(segments: seq<Segment>, s: Segment, q: Test)
    ensures Last(segments + [s], q) == if q(s) then Some(s) else Last(segments, q)
    decreases |segments|
  {
    if segments == [] {
      assert [] + [s] == [s] && [s][1..] == [];
      assert Last([], q) == None;
    } else {
      assert (segments + [s])[0] == segments[0] && (segments + [s])[1..] == segments[1..] + [s];
      LastAdds(segments[1..], s, q);
    }
  }

  lemma {:induction false} TablesAdd(segments: seq<Segment>, s: Segment)
    ensures TablesIn(segments + [s]) == TablesIn(segments) + if s.marker == 0xDB then [s.payload] else []
    decreases |segments|
  {
    if segments == [] {
      assert [] + [s] == [s] && [s][1..] == [];
      assert TablesIn([]) == [];
    } else {
      assert (segments + [s])[0] == segments[0] && (segments + [s])[1..] == segments[1..] + [s];
      TablesAdd(segments[1..], s);
    }
  }

  // ----- written fields -----

  /** A component with its quantisation table selector, as a frame header lists it. */
  datatype Listed = Listed(component: Component, table: byte)

  predicate ListedFits(l: Listed) {
    l.component.horizontal < 0x10 && l.component.vertical < 0x10
  }

  function ListedBytes(ls: seq<Listed>): (b: bytes)
    requires forall l :: l in ls ==> ListedFits(l)
    ensures |b| == 3 * |ls|
  {
    if ls == [] then []
    else
      var l := ls[0];
      assert ListedFits(l);
      [l.component.id, l.component.horizontal * 0x10 + l.component.vertical, l.table] + ListedBytes(ls[1..])
  }

  /** A baseline frame header: precision, height, width and components. */
  function SizePayload(precision: byte, height: nat, width: nat, ls: seq<Listed>): bytes
    requires height < 0x1_0000 && width < 0x1_0000 && |ls| < 0x100 && forall l :: l in ls ==> ListedFits(l)
  {
    [precision] + Big16(height) + Big16(width) + [|ls|] + ListedBytes(ls)
  }

  /** A JFIF segment: tag, version, units, densities, and whatever follows. */
  function JfifPayload(j: Jfif, thumbnail: bytes): bytes
    requires j.x < 0x1_0000 && j.y < 0x1_0000
  {
    [0x4A, 0x46, 0x49, 0x46, 0x00] + [j.major, j.minor, j.units] + Big16(j.x) + Big16(j.y) + thumbnail
  }

  lemma {:induction false} ListedAt(ls: seq<Listed>, i: nat)
    requires (forall l :: l in ls ==> ListedFits(l)) && i < |ls|
    ensures var b, c := ListedBytes(ls), ls[i].component;
            b[3 * i] == c.id && b[3 * i + 1] / 0x10 == c.horizontal && b[3 * i + 1] % 0x10 == c.vertical
    decreases i
  {
    var l := ls[0];
    assert ListedFits(l);
    var b, rest := ListedBytes(ls), ListedBytes(ls[1..]);
    if i > 0 {
      ListedAt(ls[1..], i - 1);
      assert b[3 * i] == rest[3 * (i - 1)] && b[3 * i + 1] == rest[3 * (i - 1) + 1];
    }
  }

  /** Whatever frame header was written, its values are read. */
  lemma SizeWritten(info: Info, s: Segment, precision: byte, height: nat, width: nat, ls: seq<Listed>)
    requires height < 0x1_0000 && width < 0x1_0000 && |ls| < 0x100 && forall l :: l in ls ==> ListedFits(l)
    requires s.marker == 0xC0 && s.payload == SizePayload(precision, height, width, ls) && SizeHolds(info, s)
    ensures info.height == height && info.width == width && |info.sampling| == |ls|
    ensures forall i :: 0 <= i < |ls| ==> info.sampling[i] == ls[i].component
  {
    var p := s.payload;
    assert p[1] == height / 0x100 && p[2] == height % 0x100 && p[3] == width / 0x100 && p[4] == width % 0x100;
    assert p[5] == |ls|;
    assert p[6..] == ListedBytes(ls);
    forall i | 0 <= i < |ls|
      ensures info.sampling[i] == ls[i].component
    {
      ListedAt(ls, i);
      assert p[6 + 3 * i] == p[6..][3 * i] && p[7 + 3 * i] == p[6..][3 * i + 1];
    }
  }

  lemma JfifWritten(info: Info, s: Segment, j: Jfif, thumbnail: bytes)
    requires j.x < 0x1_0000 && j.y < 0x1_0000
    requires s.marker == 0xE0 && s.payload == JfifPayload(j, thumbnail)
    ensures IsJfif(s) && (JfifHolds(info, s) ==> info.jfif == Some(j))
  {
    var p := s.payload;
    assert p[..5] == [0x4A, 0x46, 0x49, 0x46, 0x00];
    assert p[5] == j.major && p[6] == j.minor && p[7] == j.units;
    assert p[8] == j.x / 0x100 && p[9] == j.x % 0x100 && p[10] == j.y / 0x100 && p[11] == j.y % 0x100;
  }

  /** The marker codes are those of the segments in order, the scan's last. */
  lemma FrameMarkers(segments: seq<Segment>, scan: Segment, data: bytes)
    requires AllWellFormed(segments) && WellFormed(scan) && scan.marker == 0xDA
    requires forall s :: s in segments ==> s.marker != 0xDA
    ensures var r := FingerprintOf(Frame(segments, scan, data));
            r.Ok? ==>
              && |r.value.info.markers| == |segments| + 1
              && forall k :: 0 <= k <= |segments| ==> r.value.info.markers[k] == (segments + [scan])[k].marker
  {
    hide Frame, Restarts, Said, WellFormed;
    FrameFingerprint(segments, scan, data);
    if FingerprintOf(Frame(segments, scan, data)).Ok? {
      MarkersInOrder(segments + [scan], Nothing);
    }
  }

  /** What a writer puts into a frame's headers. */
  datatype Written = Written(precision: byte, height: nat, width: nat, parts: seq<Listed>, jfif: Jfif, thumbnail: bytes,
                             interval: nat)

  predicate Fits(w: Written) {
    && 0 < w.height < 0x1_0000 && 0 < w.width < 0x1_0000
    && |w.parts| < 0x100 && (forall l :: l in w.parts ==> ListedFits(l))
    && w.jfif.x < 0x1_0000 && w.jfif.y < 0x1_0000 && w.interval < 0x1_0000
  }

  /** A place is the only one with a marker. */
  predicate OnlyAt(segments: seq<Segment>, i: nat, marker: byte) {
    && i < |segments| && segments[i].marker == marker
    && forall k :: 0 <= k < |segments| && segments[k].marker == marker ==> k == i
  }

  /** One frame header, one APP0 segment and one restart interval hold the values, and there is a table. */
  predicate Holds(segments: seq<Segment>, a: nat, b: nat, c: nat, w: Written)
    requires Fits(w)
  {
    && OnlyAt(segments, a, 0xC0) && segments[a].payload == SizePayload(w.precision, w.height, w.width, w.parts)
    && OnlyAt(segments, b, 0xE0) && segments[b].payload == JfifPayload(w.jfif, w.thumbnail)
    && OnlyAt(segments, c, 0xDD) && segments[c].payload == Big16(w.interval)
    && TablesIn(segments) != []
  }

  predicate SamePlaces(info: Info, w: Written) {
    && info.height == w.height && info.width == w.width && info.jfif == Some(w.jfif)
    && info.restartInterval == Some(w.interval)
    && |info.sampling| == |w.parts| && forall i :: 0 <= i < |w.parts| ==> info.sampling[i] == w.parts[i].component
  }

  lemma HoldsLast(segments: seq<Segment>, a: nat, b: nat, c: nat, w: Written)
    requires Fits(w) && Holds(segments, a, b, c, w)
    ensures Last(segments, IsSize) == Some(segments[a]) && Last(segments, IsJfif) == Some(segments[b])
    ensures Last(segments, IsInterval) == Some(segments[c])
    ensures AllSound(segments) && Sized(segments)
  {
    hide SizePayload, JfifPayload, TablesIn, Last, ListedFits, Number;
    OnlyOne(segments, a, IsSize);
    OnlyOne(segments, c, IsInterval);
    JfifWritten(Nothing, segments[b], w.jfif, w.thumbnail);
    OnlyOne(segments, b, IsJfif);
    SizeLength(w.precision, w.height, w.width, w.parts);
    OneSound(segments, a, c);
  }

  /** A frame with written headers has a fingerprint with exactly the written values. */
  lemma WrittenFrameReads(segments: seq<Segment>, scan: Segment, data: bytes, a: nat, b: nat, c: nat, w: Written)
    requires AllWellFormed(segments) && WellFormed(scan) && scan.marker == 0xDA
    requires forall s :: s in segments ==> s.marker != 0xDA
    requires Fits(w) && Holds(segments, a, b, c, w)
    ensures var r := FingerprintOf(Frame(segments, scan, data));
            r.Ok? && SamePlaces(r.value.info, w) && r.value.info.tables == TablesIn(segments)
            && r.value.restartMarkers == |RestartPlaces(data)|
  {
    hide Frame, Restarts, RestartPlaces, WellFormed, FingerprintOf, SizePayload, JfifPayload, Sound, Sized, Last;
    hide SizeHolds, JfifHolds, ListedFits, Number, IsSize, IsJfif, IsInterval;
    FrameReads(segments, scan, data);
    HoldsLast(segments, a, b, c, w);
    var info := FingerprintOf(Frame(segments, scan, data)).value.info;
    SizeWritten(info, segments[a], w.precision, w.height, w.width, w.parts);
    JfifWritten(info, segments[b], w.jfif, w.thumbnail);
    IntervalWritten(info, segments[c], w.interval);
    RestartsCounted(data);
    assert [] + TablesIn(segments) == TablesIn(segments);
  }

  lemma IntervalWritten(info: Info, s: Segment, interval: nat)
    requires interval < 0x1_0000 && s.payload == Big16(interval) && IntervalHolds(info, s)
    ensures info.restartInterval == Some(interval)
  {
  }

  lemma SizeLength(precision: byte, height: nat, width: nat, ls: seq<Listed>)
    requires height < 0x1_0000 && width < 0x1_0000 && |ls| < 0x100 && forall l :: l in ls ==> ListedFits(l)
    ensures var p := SizePayload(precision, height, width, ls);
            |p| == 6 + 3 * |ls| && p[5] == |ls| && Number(p, 1) == height && Number(p, 3) == width
  {
    hide ListedBytes;
  }

  lemma OneSound(segments: seq<Segment>, a: nat, c: nat)
    requires a < |segments| && |segments[a].payload| >= 6
    requires |segments[a].payload| == 6 + 3 * segments[a].payload[5] as int
    requires OnlyAt(segments, a, 0xC0) && OnlyAt(segments, c, 0xDD) && |segments[c].payload| == 2
    ensures AllSound(segments)
  {
    forall s | s in segments
      ensures Sound(s)
    {
      var i :| 0 <= i < |segments| && segments[i] == s;
    }
  }

  lemma {:induction false} OnlyOne(segments: seq<Segment>, i: nat, q: Test)
    requires i < |segments| && q(segments[i]) && forall k :: 0 <= k < |segments| && q(segments[k]) ==> k == i
    ensures Last(segments, q) == Some(segments[i])
    decreases |segments|
  {
    if i == 0 {
      LastNone(segments[1..], q);
    } else {
      OnlyOne(segments[1..], i - 1, q);
    }
  }

  // ----- restart markers -----

  predicate RestartAt(scan: bytes, i: nat) {
    i + 1 < |scan| && scan[i] == 0xFF && 0xD0 <= scan[i + 1] <= 0xD7
  }

  /** The places of restart markers in scan data. */
  function RestartPlaces(scan: bytes): set<nat> {
    set i: nat | i < |scan| && RestartAt(scan, i)
  }

  function Shifted(s: set<nat>): set<nat> {
    set i: nat | i in s :: i + 1
  }

  lemma PlacesStep(scan: bytes)
    requires |scan| >= 2
    ensures RestartPlaces(scan) == (if RestartAt(scan, 0) then {0} else {}) + Shifted(RestartPlaces(scan[1..]))
  {
    forall i: nat | i > 0
      ensures RestartAt(scan, i) <==> RestartAt(scan[1..], i - 1)
    {
    }
    var l, r := RestartPlaces(scan), (if RestartAt(scan, 0) then {0} else {}) + Shifted(RestartPlaces(scan[1..]));
    forall i: nat
      ensures i in l <==> i in r
    {
      if i > 0 {
        ShiftedHas(RestartPlaces(scan[1..]), i);
      } else {
        assert 0 !in Shifted(RestartPlaces(scan[1..]));
      }
    }
  }

  lemma ShiftedHas(s: set<nat>, i: nat)
    requires i > 0
    ensures i in Shifted(s) <==> i - 1 in s
  {
    if i - 1 in s {
      assert (i - 1) + 1 in Shifted(s);
    }
  }

  /** Restarts counts the places where 0xFF is followed by one of the eight restart codes. */
  lemma {:induction false} RestartsCounted(scan: bytes)
    ensures Restarts(scan) == |RestartPlaces(scan)|
    decreases |scan|
  {
    if |scan| >= 2 {
      RestartsCounted(scan[1..]);
      PlacesStep(scan);
      ShiftedSize(RestartPlaces(scan[1..]));
      hide RestartPlaces;
      assert 0 !in Shifted(RestartPlaces(scan[1..]));
    } else {
      assert RestartPlaces(scan) == {};
    }
  }

  lemma {:induction false} ShiftedSize(s: set<nat>)
    ensures |Shifted(s)| == |s|
    decreases |s|
  {
    if s != {} {
      var x: nat :| x in s;
      ShiftedSize(s - {x});
      forall i: nat | i > 0
        ensures i in Shifted(s) <==> i in Shifted(s - {x}) + {x + 1}
      {
        ShiftedHas(s, i);
        ShiftedHas(s - {x}, i);
      }
      assert Shifted(s) == Shifted(s - {x}) + {x + 1};
      assert x + 1 !in Shifted(s - {x});
    } else {
      assert Shifted(s) == {};
    }
  }
}

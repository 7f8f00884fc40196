/** What a camera's stream says about its family: printed fingerprints, and which frames are classified alike. */
module StreamIdentify {
  import opened Bytes
  import opened Jpeg

  type Hash = bytes -> bytes

  /** A fingerprint as it is compared: marker names, and one hash over all quantisation tables. */
  datatype Printed = Printed(
    width: nat, height: nat, sampling: seq<Component>, markers: seq<string>, tables: bytes,
    jfif: Option<Jfif>, restartInterval: Option<nat>, restartMarkers: nat)

  datatype Family = V30B | V30D

  datatype Identification = Identification(family: Option<Family>, fingerprint: Printed, framesChecked: nat)

  // ----- names -----

  function Digit(n: nat): char
    requires n < 16
  {
    "0123456789ABCDEF"[n]
  }

  /** _marker_name. */
  function MarkerName(m: byte): string {
    if 0xE1 <= m <= 0xE9 then ['A', 'P', 'P', Digit(m - 0xE0)]
    else if 0xEA <= m <= 0xEF then ['A', 'P', 'P', '1', Digit(m - 0xEA)]
    else if m == 0xC0 then "SOF0"
    else if m == 0xC2 then "SOF2"
    else if m == 0xC4 then "DHT"
    else if m == 0xD8 then "SOI"
    else if m == 0xD9 then "EOI"
    else if m == 0xDA then "SOS"
    else if m == 0xDB then "DQT"
    else if m == 0xDD then "DRI"
    else if m == 0xE0 then "APP0"
    else ['0', 'x', 'F', 'F', Digit(m / 0x10), Digit(m % 0x10)]
  }

  lemma DigitsDistinct(a: nat, b: nat)
    requires a < 16 && b < 16 && Digit(a) == Digit(b)
    ensures a == b
  {
  }

  predicate Application(m: byte) {
    0xE1 <= m <= 0xEF
  }

  predicate Listed(m: byte) {
    m in {0xC0, 0xC2, 0xC4, 0xD8, 0xD9, 0xDA, 0xDB, 0xDD, 0xE0}
  }

  lemma ApplicationNames(a: byte, b: byte)
    requires Application(a) && MarkerName(a) == MarkerName(b)
    ensures a == b
  {
    var x, y := MarkerName(a), MarkerName(b);
    assert x[0] == y[0] == 'A' && x[3] == y[3];
    if Application(b) {
      assert |x| == |y|;
      if a <= 0xE9 {
        DigitsDistinct(a - 0xE0, b - 0xE0);
      } else {
        assert x[4] == y[4];
        DigitsDistinct(a - 0xEA, b - 0xEA);
      }
    }
  }

  lemma ListedNames(a: byte, b: byte)
    requires Listed(a) && !Application(b) && MarkerName(a) == MarkerName(b)
    ensures a == b
  {
    var x, y := MarkerName(a), MarkerName(b);
    assert x[0] == y[0] && x[1] == y[1] && x[2] == y[2];
  }

  /** No two marker codes share a name, so that the list of names says exactly which markers there were. */
  lemma NamesDistinct(a: byte, b: byte)
    requires MarkerName(a) == MarkerName(b)
    ensures a == b
  {
    if Application(a) {
      ApplicationNames(a, b);
    } else if Application(b) {
      ApplicationNames(b, a);
    } else if Listed(a) {
      ListedNames(a, b);
    } else if Listed(b) {
      ListedNames(b, a);
    } else {
      var x, y := MarkerName(a), MarkerName(b);
      assert x[4] == y[4] && x[5] == y[5];
      DigitsDistinct(a / 0x10, b / 0x10);
      DigitsDistinct(a % 0x10, b % 0x10);
    }
  }

  function Names(markers: bytes): (s: seq<string>)
    ensures |s| == |markers|
  {
    seq(|markers|, i requires 0 <= i < |markers| => MarkerName(markers[i]))
  }

  lemma NamesEqual(a: bytes, b: bytes)
    requires Names(a) == Names(b)
    ensures a == b
  {
    assert |Names(a)| == |Names(b)|;
    forall i | 0 <= i < |a|
      ensures a[i] == b[i]
    {
      assert Names(a)[i] == Names(b)[i];
      NamesDistinct(a[i], b[i]);
    }
  }

  // ----- classification -----

  function Flat(tables: seq<bytes>): bytes {
    if tables == [] then [] else tables[0] + Flat(tables[1..])
  }

  function Print(f: Fingerprint, sha: Hash): Printed {
    Printed(f.info.width, f.info.height, f.info.sampling, Names(f.info.markers), sha(Flat(f.info.tables)),
            f.info.jfif, f.info.restartInterval, f.restartMarkers)
  }

  const SAMPLING: seq<Component> := [Component(1, 2, 2), Component(2, 1, 1), Component(3, 1, 1)]
  const NAMES_30B: seq<string> := ["DQT", "DQT", "SOF0", "DHT", "DHT", "DHT", "DHT", "SOS"]
  const NAMES_30D: seq<string> := ["APP0", "DQT", "DQT", "SOF0", "DRI", "DHT", "DHT", "DHT", "DHT", "SOS"]

  /** The hashes of the tables seen on each family. */
  datatype References = References(v30b: bytes, v30d: bytes)

  /** classify_fingerprint. */
  function Classify(p: Printed, refs: References): Option<Family> {
    if !(p.width == 640 && p.height == 360 && p.sampling == SAMPLING) then None
    else if p.markers == NAMES_30B && p.tables == refs.v30b && p.jfif.None? && p.restartInterval.None?
            && p.restartMarkers == 0 then Some(V30B)
    else if p.markers == NAMES_30D && p.tables == refs.v30d && p.jfif == Some(Jfif(1, 2, 1, 72, 72))
            && p.restartInterval == Some(40) && p.restartMarkers == 22 then Some(V30D)
    else None
  }

  const MARKERS_30B: bytes := [DQT, DQT, SOF0, 0xC4, 0xC4, 0xC4, 0xC4, SOS]
  const MARKERS_30D: bytes := [APP0, DQT, DQT, SOF0, DRI, 0xC4, 0xC4, 0xC4, 0xC4, SOS]

  lemma ReferenceNames()
    ensures Names(MARKERS_30B) == NAMES_30B && Names(MARKERS_30D) == NAMES_30D
  {
  }

  /** What a camera of a family sends, in terms of the frame's own markers and headers. */
  predicate Shows(f: Fingerprint, family: Family, sha: Hash, refs: References) {
    && f.info.width == 640 && f.info.height == 360
    && f.info.sampling == [Component(1, 2, 2), Component(2, 1, 1), Component(3, 1, 1)]
    && match family
       case V30B =>
         && f.info.markers == MARKERS_30B && sha(Flat(f.info.tables)) == refs.v30b
         && f.info.jfif.None? && f.info.restartInterval.None? && f.restartMarkers == 0
       case V30D =>
         && f.info.markers == MARKERS_30D && sha(Flat(f.info.tables)) == refs.v30d
         && f.info.jfif == Some(Jfif(1, 2, 1, 72, 72)) && f.info.restartInterval == Some(40) && f.restartMarkers == 22
  }

  /** The printed form loses nothing that the classification needs. */
  lemma ClassifiedExactly(f: Fingerprint, family: Family, sha: Hash, refs: References)
    ensures Classify(Print(f, sha), refs) == Some(family) <==> Shows(f, family, sha, refs)
  {
    hide Names, MarkerName, Flat;
    ReferenceNames();
    var m := f.info.markers;
    if Names(m) == NAMES_30B {
      NamesEqual(m, MARKERS_30B);
    }
    if Names(m) == NAMES_30D {
      NamesEqual(m, MARKERS_30D);
    }
    assert |MARKERS_30B| != |MARKERS_30D|;
  }

  // ----- several frames -----

  /** identify_frames: a family is named exactly when every frame shows it in the same way. */
  method IdentifyFrames(frames: seq<bytes>, sha: Hash, refs: References) returns (r: Result<Identification>)
    ensures r.Ok? <==> frames != [] && forall i :: 0 <= i < |frames| ==> FingerprintOf(frames[i]).Ok?
    ensures r.Ok? ==>
              var first := FingerprintOf(frames[0]).value;
              && r.value.framesChecked == |frames| && r.value.fingerprint == Print(first, sha)
              && forall family :: r.value.family == Some(family) <==>
                                  Shows(first, family, sha, refs)
                                  && forall i :: 0 <= i < |frames| ==>
                                                   Print(FingerprintOf(frames[i]).value, sha) == Print(first, sha)
  {
    hide FingerprintOf, Print, Classify, Shows;
    if frames == [] {
      return Err("camera stream contained no JPEG frames");
    }
    var fingerprints: seq<Printed> := [];
    for i := 0 to |frames|
      invariant |fingerprints| == i
      invariant forall k :: 0 <= k < i ==> FingerprintOf(frames[k]).Ok?
      invariant forall k :: 0 <= k < i ==> fingerprints[k] == Print(FingerprintOf(frames[k]).value, sha)
    {
      var f :- FingerprintJpeg(frames[i]);
      fingerprints := fingerprints + [Print(f, sha)];
    }
    var first := fingerprints[0];
    forall family ensures Classify(first, refs) == Some(family) <==>
                          Shows(FingerprintOf(frames[0]).value, family, sha, refs) {
      ClassifiedExactly(FingerprintOf(frames[0]).value, family, sha, refs);
    }
    for i := 1 to |fingerprints|
      invariant forall k :: 0 <= k < i ==> fingerprints[k] == first
    {
      if fingerprints[i] != first {
        return Ok(Identification(None, first, |fingerprints|));
      }
    }
    return Ok(Identification(Classify(first, refs), first, |fingerprints|));
  }

  // ----- what does not matter -----

  /** The same markers, with the same payloads wherever the fingerprint looks at them. */
  predicate Alike(a: Segment, b: Segment) {
    a.marker == b.marker && (a.marker in {DQT, SOF0, APP0, DRI} ==> a.payload == b.payload)
  }

  predicate AllAlike(a: seq<Segment>, b: seq<Segment>) {
    |a| == |b| && forall i :: 0 <= i < |a| ==> Alike(a[i], b[i])
  }

  lemma {:induction false} SaidAlike(a: seq<Segment>, b: seq<Segment>, info: Info)
    requires AllAlike(a, b)
    ensures Said(a, info) == Said(b, info)
    decreases |a|
  {
    if a != [] {
      var m := a[0].marker;
      assert Alike(a[0], b[0]);
      var x, y := Applied(info, m, a[0].payload), Applied(info, m, b[0].payload);
      assert x == y;
      assert AllAlike(a[1..], b[1..]) by {
        assert forall i :: 0 <= i < |a| - 1 ==> a[1..][i] == a[i + 1] && b[1..][i] == b[i + 1];
      }
      hide Applied, Alike;
      var next := if Standalone(m) then Ok(Noted(info, m)) else x;
      if next.Ok? {
        SaidAlike(a[1..], b[1..], next.value);
      }
    }
  }

  /** Fill bytes, Huffman tables, the scan header and all scan data but its restart markers do not affect the family. */
  lemma FamilyDependsOn(a: seq<Segment>, scanA: Segment, dataA: bytes, b: seq<Segment>, scanB: Segment, dataB: bytes)
    requires AllWellFormed(a) && WellFormed(scanA) && scanA.marker == SOS && (forall s :: s in a ==> s.marker != SOS)
    requires AllWellFormed(b) && WellFormed(scanB) && scanB.marker == SOS && (forall s :: s in b ==> s.marker != SOS)
    requires AllAlike(a, b) && Restarts(dataA) == Restarts(dataB)
    ensures var x, y := FingerprintOf(Frame(a, scanA, dataA)), FingerprintOf(Frame(b, scanB, dataB));
            (x.Ok? <==> y.Ok?) && (x.Ok? ==> x.value == y.value)
  {
    hide Frame, FingerprintOf, Restarts, Said, WellFormed, Render, Joined;
    FrameFingerprint(a, scanA, dataA);
    FrameFingerprint(b, scanB, dataB);
    assert AllAlike(a + [scanA], b + [scanB]) by {
      assert Alike(scanA, scanB);
    }
    SaidAlike(a + [scanA], b + [scanB], Nothing);
  }

  /** The tables are joined in order. */
  lemma {:induction false} FlatJoins(a: seq<bytes>, b: seq<bytes>)
    ensures Flat(a + b) == Flat(a) + Flat(b)
    ensures forall x: bytes :: Flat([x]) == x
    decreases |a|
  {
    forall x: bytes
      ensures Flat([x]) == x
    {
      assert [x][1..] == [];
    }
    if a == [] {
      assert a + b == b;
    } else {
      assert (a + b)[1..] == a[1..] + b;
      FlatJoins(a[1..], b);
    }
  }

  /** Names of every kind. */
  lemma SomeNames()
    ensures Names([0xC0, 0xC2, 0xC4, 0xD8, 0xD9, 0xDA, 0xDB, 0xDD, 0xE0]) ==
            ["SOF0", "SOF2", "DHT", "SOI", "EOI", "SOS", "DQT", "DRI", "APP0"]
    ensures Names([0xE1, 0xE9, 0xEA, 0xEF]) == ["APP1", "APP9", "APP10", "APP15"]
    ensures Names([0x01, 0xC3, 0xD7, 0xFE]) == ["0xFF01", "0xFFC3", "0xFFD7", "0xFFFE"]
  {
  }
}

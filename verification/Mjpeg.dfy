/** Reading frames from an MJPEG multipart stream by their Content-Length. */
module Mjpeg {
  import opened Bytes
  import opened CStrings

  const MAX_LINE: nat := 8192
  const MAX_HEADERS: nat := 0x8000
  const MAX_PREAMBLE: nat := 0x8000
  const MAX_FRAME: nat := 0x20_0000

  const CR: byte := 13
  const LF: byte := 10
  const COLON: byte := 0x3A
  const CRLF: bytes := [13, 10]

  // ----- lines and words -----

  /** readline(limit). */
  function LineOf(data: bytes, limit: nat): (line: bytes)
    ensures line <= data && |line| <= limit && (data != [] && limit > 0 ==> line != [])
  {
    var text := Until(data, LF);
    UntilStops(data, LF);
    var n := if |text| < |data| then |text| + 1 else |data|;
    data[..Min(n, limit)]
  }

  /** _readline. */
  function NextLine(data: bytes): (r: Result<bytes>)
    ensures r.Ok? ==> r.value <= data && |r.value| <= MAX_LINE && (data != [] ==> r.value != [])
  {
    var line := LineOf(data, MAX_LINE + 1);
    if |line| > MAX_LINE then Err("MJPEG multipart line is too long") else Ok(line)
  }

  /** rstrip(b"\r\n"). */
  function TrimEnd(line: bytes): bytes {
    if line != [] && (line[|line| - 1] == CR || line[|line| - 1] == LF) then TrimEnd(line[..|line| - 1]) else line
  }

  function StripLeft(s: bytes): bytes {
    if s != [] && IsSpace(s[0]) then StripLeft(s[1..]) else s
  }

  function StripRight(s: bytes): bytes {
    if s != [] && IsSpace(s[|s| - 1]) then StripRight(s[..|s| - 1]) else s
  }

  function Strip(s: bytes): bytes {
    StripRight(StripLeft(s))
  }

  function LowerByte(b: byte): byte {
    if 0x41 <= b <= 0x5A then b + 0x20 else b
  }

  function Lower(s: bytes): (l: bytes)
    ensures |l| == |s| && forall i :: 0 <= i < |s| ==> l[i] == LowerByte(s[i])
  {
    seq(|s|, i requires 0 <= i < |s| => LowerByte(s[i]))
  }

  predicate IsDigit(b: byte) {
    0x30 <= b <= 0x39
  }

  /** Decimal digits, single underscores allowed between them. */
  function Digits(s: bytes): Option<nat>
    decreases |s|
  {
    if s == [] || !IsDigit(s[|s| - 1]) then None
    else if |s| == 1 then Some(s[0] - 0x30)
    else
      var init := s[..|s| - 1];
      var high := Digits(if init[|init| - 1] == 0x5F then init[..|init| - 1] else init);
      if high.None? then None else Some(10 * high.value + (s[|s| - 1] - 0x30))
  }

  /** int(value). */
  function ParseInt(value: bytes): Option<int> {
    var s := Strip(value);
    if s != [] && (s[0] == 0x2B || s[0] == 0x2D) then
      var n := Digits(s[1..]);
      if n.None? then None else Some(if s[0] == 0x2D then -(n.value as int) else n.value as int)
    else
      var n := Digits(s);
      if n.None? then None else Some(n.value as int)
  }

  // ----- one part -----

  type Headers = map<bytes, bytes>

  /** A header line's entry; a later line for the same name replaces an earlier one. */
  function WithHeader(headers: Headers, line: bytes): Headers {
    var name := Until(line, COLON);
    headers[Lower(Strip(name)) := Strip(Clip(line, |name| + 1, |line|))]
  }

  datatype HeadersRead = HeadersRead(headers: Headers, rest: bytes)

  function ReadHeaders(data: bytes, headers: Headers, used: nat): (r: Result<HeadersRead>)
    ensures r.Ok? ==> |r.value.rest| < |data|
    decreases |data|
  {
    var line :- NextLine(data);
    if line == [] then Err("MJPEG stream ended inside multipart headers")
    else if used + |line| > MAX_HEADERS then Err("MJPEG multipart headers are too large")
    else if line == CRLF || line == [LF] then Ok(HeadersRead(headers, data[|line|..]))
    else if COLON !in line then Err("invalid MJPEG multipart header")
    else ReadHeaders(data[|line|..], WithHeader(headers, line), used + |line|)
  }

  /** One turn of the header loop. */
  lemma HeadersStep(data: bytes, headers: Headers, used: nat)
    ensures NextLine(data).Err? ==> ReadHeaders(data, headers, used) == Err(NextLine(data).reason)
    ensures NextLine(data).Ok? ==>
              var line, r := NextLine(data).value, ReadHeaders(data, headers, used);
              if line == [] then r == Err("MJPEG stream ended inside multipart headers")
              else if used + |line| > MAX_HEADERS then r == Err("MJPEG multipart headers are too large")
              else if line == CRLF || line == [LF] then r == Ok(HeadersRead(headers, data[|line|..]))
              else if COLON !in line then r == Err("invalid MJPEG multipart header")
              else r == ReadHeaders(data[|line|..], WithHeader(headers, line), used + |line|)
  {
    hide NextLine, WithHeader;
  }

  const ContentType: bytes := Ascii("content-type")
  const ContentLength: bytes := Ascii("content-length")
  const ImageJpeg: bytes := Ascii("image/jpeg")

  /** The frame length a part announces. */
  function PartLength(headers: Headers): (r: Result<nat>)
    ensures r.Ok? ==> 0 < r.value <= MAX_FRAME
  {
    var kind := if ContentType in headers then headers[ContentType] else [];
    if Lower(Strip(Until(kind, 0x3B))) != ImageJpeg then Err("MJPEG part is not image/jpeg")
    else if ContentLength !in headers then Err("MJPEG part has no Content-Length")
    else
      var length := ParseInt(headers[ContentLength]);
      if length.None? then Err("invalid MJPEG Content-Length")
      else if !(0 < length.value <= MAX_FRAME) then Err("MJPEG frame length is outside the accepted bound")
      else
        var n: nat := length.value;
        Ok(n)
  }

  // ----- the stream -----

  function Delimiter(boundary: bytes): bytes {
    [0x2D, 0x2D] + boundary
  }

  function Closing(boundary: bytes): bytes {
    Delimiter(boundary) + [0x2D, 0x2D]
  }

  /** The next count frames of the remaining bytes. */
  function Frames(data: bytes, boundary: bytes, count: nat, preamble: nat): Result<seq<bytes>>
    decreases |data|
  {
    if count == 0 then Ok([])
    else
      var line :- NextLine(data);
      if line == [] || TrimEnd(line) == Closing(boundary) then Err("MJPEG stream ended early")
      else if TrimEnd(line) != Delimiter(boundary) then
        if preamble + |line| > MAX_PREAMBLE then Err("MJPEG multipart boundary was not found")
        else Frames(data[|line|..], boundary, count, preamble + |line|)
      else
        var head :- ReadHeaders(data[|line|..], map[], 0);
        var length :- PartLength(head.headers);
        if |head.rest| < length then Err("MJPEG stream ended inside a JPEG frame")
        else After([head.rest[..length]], Frames(head.rest[length..], boundary, count - 1, preamble))
  }

  /** A binary stream; how much a read returns, beyond at least one byte, is up to the transport. */
  class ByteStream {
    const data: bytes
    const grant: (nat, nat) -> nat
    var pos: nat

    ghost predicate Valid()
      reads this
    {
      pos <= |data|
    }

    function Rest(): bytes
      reads this
      requires Valid()
    {
      data[pos..]
    }

    constructor (data: bytes, grant: (nat, nat) -> nat)
      ensures Valid() && Rest() == data && this.data == data
    {
      this.data, this.grant, pos := data, grant, 0;
    }

    /** read(n): empty only at the end. */
    method Read(n: nat) returns (chunk: bytes)
      requires Valid() && n > 0
      modifies this
      ensures Valid() && |chunk| <= n && chunk <= old(Rest()) && Rest() == old(Rest())[|chunk|..]
      ensures chunk == [] <==> old(Rest()) == []
    {
      var most := Min(n, |data| - pos);
      var k := if most == 0 then 0 else Min(most, if grant(pos, n) == 0 then 1 else grant(pos, n));
      chunk := data[pos..pos + k];
      pos := pos + k;
    }

    method ReadLine(limit: nat) returns (line: bytes)
      requires Valid()
      modifies this
      ensures Valid() && line == LineOf(old(Rest()), limit) && Rest() == old(Rest())[|line|..]
    {
      hide LineOf;
      line := LineOf(Rest(), limit);
      pos := pos + |line|;
    }

    /** _readline. */
    method NextLineOf() returns (r: Result<bytes>)
      requires Valid()
      modifies this
      ensures Valid() && r == NextLine(old(Rest()))
      ensures r.Ok? ==> Rest() == old(Rest())[|r.value|..]
    {
      hide LineOf;
      var line := ReadLine(MAX_LINE + 1);
      if |line| > MAX_LINE {
        return Err("MJPEG multipart line is too long");
      }
      return Ok(line);
    }

    /** _read_exact: short reads are joined. */
    method ReadExact(length: nat) returns (r: Result<bytes>)
      requires Valid()
      modifies this
      ensures Valid() && (r.Ok? <==> length <= |old(Rest())|)
      ensures r.Err? ==> r.reason == "MJPEG stream ended inside a JPEG frame"
      ensures r.Ok? ==> r.value == old(Rest())[..length] && Rest() == old(Rest())[length..]
    {
      var chunks: bytes, remaining: nat := [], length;
      while remaining > 0
        invariant Valid() && |chunks| + remaining == length
        invariant |chunks| <= |old(Rest())| && chunks == old(Rest())[..|chunks|] && Rest() == old(Rest())[|chunks|..]
        decreases remaining
      {
        var chunk := Read(remaining);
        if chunk == [] {
          return Err("MJPEG stream ended inside a JPEG frame");
        }
        chunks := chunks + chunk;
        remaining := remaining - |chunk|;
      }
      return Ok(chunks);
    }

    /** The headers of one part. */
    method ReadPartHeaders() returns (r: Result<Headers>)
      requires Valid()
      modifies this
      ensures Valid()
      ensures var h := ReadHeaders(old(Rest()), map[], 0);
              if h.Ok? then r == Ok(h.value.headers) && Rest() == h.value.rest else r == Err(h.reason)
    {
      hide NextLine, WithHeader, ReadHeaders;
      var used: nat := 0;
      var headers: Headers := map[];
      while true
        invariant Valid()
        invariant ReadHeaders(old(Rest()), map[], 0) == ReadHeaders(Rest(), headers, used)
        decreases |Rest()|
      {
        HeadersStep(Rest(), headers, used);
        var line :- NextLineOf();
        if line == [] {
          return Err("MJPEG stream ended inside multipart headers");
        }
        used := used + |line|;
        if used > MAX_HEADERS {
          return Err("MJPEG multipart headers are too large");
        }
        if line == CRLF || line == [LF] {
          return Ok(headers);
        }
        if COLON !in line {
          return Err("invalid MJPEG multipart header");
        }
        headers := WithHeader(headers, line);
      }
    }

    /** read_mjpeg_frames. */
    method ReadMjpegFrames(boundary: bytes, count: nat) returns (r: Result<seq<bytes>>)
      requires Valid()
      modifies this
      ensures r == Frames(old(Rest()), boundary, count, 0)
    {
      hide NextLine, ReadHeaders, PartLength, After, TrimEnd, Delimiter, Closing;
      var frames: seq<bytes>, preamble: nat := [], 0;
      AfterAfter([], [], Frames(Rest(), boundary, count, 0));
      while |frames| < count
        invariant Valid() && |frames| <= count
        invariant Frames(old(Rest()), boundary, count, 0) ==
                  After(frames, Frames(Rest(), boundary, count - |frames|, preamble))
        decreases |Rest()|
      {
        AfterEnds(frames);
        var line :- NextLineOf();
        if line == [] || TrimEnd(line) == Closing(boundary) {
          return Err("MJPEG stream ended early");
        }
        if TrimEnd(line) != Delimiter(boundary) {
          preamble := preamble + |line|;
          if preamble > MAX_PREAMBLE {
            return Err("MJPEG multipart boundary was not found");
          }
          continue;
        }
        var headers :- ReadPartHeaders();
        var length :- PartLength(headers);
        var frame :- ReadExact(length);
        AfterAfter(frames, [frame], Frames(Rest(), boundary, count - |frames| - 1, preamble));
        frames := frames + [frame];
      }
      AfterEnds(frames);
      return Ok(frames);
    }
  }

  // ----- serialised streams -----

  /** Lines before the delimiter, header lines, and the frame. */
  datatype Part = Part(gap: seq<bytes>, head: seq<bytes>, frame: bytes)

  /** A line with its newline. */
  predicate IsLine(line: bytes) {
    0 < |line| <= MAX_LINE && line[|line| - 1] == LF && LF !in line[..|line| - 1]
  }

  function Joined(lines: seq<bytes>): bytes {
    if lines == [] then [] else lines[0] + Joined(lines[1..])
  }

  /** A line between parts: neither the delimiter nor the closing one. */
  predicate IsGapLine(line: bytes, boundary: bytes) {
    IsLine(line) && TrimEnd(line) != Delimiter(boundary) && TrimEnd(line) != Closing(boundary)
  }

  predicate IsHeaderLine(line: bytes) {
    IsLine(line) && COLON in line
  }

  function Folded(headers: Headers, lines: seq<bytes>): Headers
    decreases |lines|
  {
    if lines == [] then headers else Folded(WithHeader(headers, lines[0]), lines[1..])
  }

  predicate IsPart(p: Part, boundary: bytes) {
    && (forall l :: l in p.gap ==> IsGapLine(l, boundary))
    && (forall l :: l in p.head ==> IsHeaderLine(l)) && |Joined(p.head)| + 2 <= MAX_HEADERS
    && PartLength(Folded(map[], p.head)) == Ok(|p.frame|)
  }

  predicate AllParts(parts: seq<Part>, boundary: bytes) {
    forall p :: p in parts ==> IsPart(p, boundary)
  }

  /** A boundary without newlines whose delimiter line fits. */
  predicate IsBoundary(boundary: bytes) {
    LF !in boundary && |boundary| + 4 <= MAX_LINE && (boundary != [] ==> boundary[|boundary| - 1] != CR)
  }

  function AfterGap(p: Part, boundary: bytes): bytes {
    Delimiter(boundary) + CRLF + (Joined(p.head) + (CRLF + p.frame))
  }

  function Stream(parts: seq<Part>, boundary: bytes): bytes {
    if parts == [] then [] else Joined(parts[0].gap) + (AfterGap(parts[0], boundary) + Stream(parts[1..], boundary))
  }

  lemma ReadsLine(line: bytes, rest: bytes)
    requires IsLine(line)
    ensures NextLine(line + rest) == Ok(line) && (line + rest)[|line|..] == rest
  {
    var data := line + rest;
    UntilIs(data, LF, |line| - 1);
    assert data[..|line|] == line;
  }

  /** Header lines up to the blank one. */
  lemma {:induction false} ReadsHeaders(lines: seq<bytes>, rest: bytes, headers: Headers, used: nat)
    requires (forall l :: l in lines ==> IsHeaderLine(l)) && used + |Joined(lines)| + 2 <= MAX_HEADERS
    ensures ReadHeaders(Joined(lines) + (CRLF + rest), headers, used) == Ok(HeadersRead(Folded(headers, lines), rest))
    decreases |lines|
  {
    hide WithHeader, NextLine, ReadHeaders;
    HeadersStep(Joined(lines) + (CRLF + rest), headers, used);
    if lines == [] {
      ReadsLine(CRLF, rest);
      assert Joined(lines) + (CRLF + rest) == CRLF + rest;
    } else {
      var line, after := lines[0], Joined(lines[1..]) + (CRLF + rest);
      assert IsHeaderLine(line);
      ReadsLine(line, after);
      assert Joined(lines) + (CRLF + rest) == line + after;
      NotBlank(line);
      ReadsHeaders(lines[1..], rest, WithHeader(headers, line), used + |line|);
    }
  }

  lemma NotBlank(line: bytes)
    requires COLON in line
    ensures line != CRLF && line != [LF] && line != []
  {
  }

  lemma DelimiterLine(boundary: bytes)
    requires IsBoundary(boundary)
    ensures var line := Delimiter(boundary) + CRLF;
            IsLine(line) && TrimEnd(line) == Delimiter(boundary) && Delimiter(boundary) != Closing(boundary)
  {
    var d := Delimiter(boundary);
    var line := d + CRLF;
    assert line[..|line| - 1] == d + [CR];
    assert (d + [CR])[..|d|] == d;
    assert TrimEnd(d) == d;
    assert TrimEnd(d + [CR]) == d;
  }

  /** Gap lines are counted and passed over, or are too many. */
  lemma {:induction false} SkipsGap(gap: seq<bytes>, rest: bytes, boundary: bytes, count: nat, preamble: nat)
    requires (forall l :: l in gap ==> IsGapLine(l, boundary)) && count > 0
    ensures preamble + |Joined(gap)| <= MAX_PREAMBLE ==>
              Frames(Joined(gap) + rest, boundary, count, preamble) ==
              Frames(rest, boundary, count, preamble + |Joined(gap)|)
    ensures preamble <= MAX_PREAMBLE < preamble + |Joined(gap)| ==>
              Frames(Joined(gap) + rest, boundary, count, preamble).Err?
    decreases |gap|
  {
    hide NextLine, TrimEnd, Delimiter, Closing, ReadHeaders, PartLength, After;
    if gap == [] {
      assert Joined(gap) + rest == rest;
    } else {
      var line, after := gap[0], Joined(gap[1..]) + rest;
      assert IsGapLine(line, boundary);
      ReadsLine(line, after);
      assert Joined(gap) + rest == line + after;
      SkipsGap(gap[1..], rest, boundary, count, preamble + |line|);
    }
  }

  /** A part's delimiter, headers and frame. */
  lemma ReadsPart(p: Part, rest: bytes, boundary: bytes, count: nat, preamble: nat)
    requires IsBoundary(boundary) && IsPart(p, boundary) && count > 0
    ensures Frames(AfterGap(p, boundary) + rest, boundary, count, preamble) ==
            After([p.frame], Frames(rest, boundary, count - 1, preamble))
  {
    hide Joined, PartLength, ReadHeaders, After, Delimiter, Closing, NextLine, TrimEnd, Frames, Folded, IsBoundary,
      IsLine;
    var line := Delimiter(boundary) + CRLF;
    var after := Joined(p.head) + (CRLF + (p.frame + rest));
    DelimiterLine(boundary);
    assert AfterGap(p, boundary) + rest == line + after;
    ReadsLine(line, after);
    ReadsHeaders(p.head, p.frame + rest, map[], 0);
    FrameTaken(line + after, line, after, p.frame, Folded(map[], p.head), rest, boundary, count, preamble);
  }

  /** A delimiter line, headers that announce the frame, and the frame. */
  lemma FrameTaken(data: bytes, line: bytes, after: bytes, frame: bytes, headers: Headers, rest: bytes, boundary: bytes,
                   count: nat, preamble: nat)
    requires count > 0 && line != [] && NextLine(data) == Ok(line) && data[|line|..] == after
    requires TrimEnd(line) == Delimiter(boundary) && Delimiter(boundary) != Closing(boundary)
    requires ReadHeaders(after, map[], 0) == Ok(HeadersRead(headers, frame + rest))
    requires PartLength(headers) == Ok(|frame|)
    ensures Frames(data, boundary, count, preamble) == After([frame], Frames(rest, boundary, count - 1, preamble))
  {
    hide PartLength, ReadHeaders, After, Delimiter, Closing, NextLine, TrimEnd;
    assert (frame + rest)[..|frame|] == frame && (frame + rest)[|frame|..] == rest;
  }

  /** The bytes between the first count parts; the reader's budget for them is never reset. */
  function GapBytes(parts: seq<Part>, count: nat): nat
    requires count <= |parts|
  {
    if count == 0 then 0 else |Joined(parts[0].gap)| + GapBytes(parts[1..], count - 1)
  }

  function FramesOf(parts: seq<Part>): seq<bytes> {
    seq(|parts|, i requires 0 <= i < |parts| => parts[i].frame)
  }

  /**
   Framing is transparent to content: the first count frames come back, whatever bytes they contain,
   exactly when the bytes between the parts stay within the preamble bound.
   */
  lemma {:induction false} StreamReads(parts: seq<Part>, rest: bytes, boundary: bytes, count: nat, preamble: nat)
    requires IsBoundary(boundary) && AllParts(parts, boundary) && count <= |parts| && preamble <= MAX_PREAMBLE
    ensures var r := Frames(Stream(parts, boundary) + rest, boundary, count, preamble);
            && (r.Ok? <==> preamble + GapBytes(parts, count) <= MAX_PREAMBLE)
            && (r.Ok? ==> r.value == FramesOf(parts)[..count])
    decreases count
  {
    hide IsPart, Joined, AfterGap, After, Frames, Stream, FramesOf;
    if count == 0 {
      NoFrames(Stream(parts, boundary) + rest, boundary, preamble);
      assert FramesOf(parts)[..0] == [];
    } else {
      var p, later := parts[0], Stream(parts[1..], boundary) + rest;
      StreamStep(parts, rest, boundary);
      assert IsPart(p, boundary);
      PartStep(p, AfterGap(p, boundary) + later, later, boundary, count, preamble);
      var passed := preamble + |Joined(p.gap)|;
      if passed <= MAX_PREAMBLE {
        StreamReads(parts[1..], rest, boundary, count - 1, passed);
        AfterFrames(p.frame, Frames(later, boundary, count - 1, passed));
        FramesStep(parts, count);
      }
    }
  }

  lemma NoFrames(data: bytes, boundary: bytes, preamble: nat)
    ensures Frames(data, boundary, 0, preamble) == Ok([])
  {
  }

  lemma StreamStep(parts: seq<Part>, rest: bytes, boundary: bytes)
    requires parts != []
    ensures Stream(parts, boundary) + rest ==
            Joined(parts[0].gap) + (AfterGap(parts[0], boundary) + (Stream(parts[1..], boundary) + rest))
  {
    hide Joined, AfterGap;
    var a, b, c := Joined(parts[0].gap), AfterGap(parts[0], boundary), Stream(parts[1..], boundary);
    assert a + (b + c) + rest == a + (b + (c + rest));
  }

  lemma FramesStep(parts: seq<Part>, count: nat)
    requires 0 < count <= |parts|
    ensures FramesOf(parts)[..count] == [parts[0].frame] + FramesOf(parts[1..])[..count - 1]
  {
  }

  /** One part, with what is before it. */
  lemma PartStep(p: Part, after: bytes, later: bytes, boundary: bytes, count: nat, preamble: nat)
    requires IsBoundary(boundary) && IsPart(p, boundary) && count > 0 && preamble <= MAX_PREAMBLE
    requires after == AfterGap(p, boundary) + later
    ensures var passed, r := preamble + |Joined(p.gap)|, Frames(Joined(p.gap) + after, boundary, count, preamble);
            && (passed <= MAX_PREAMBLE ==> r == After([p.frame], Frames(later, boundary, count - 1, passed)))
            && (passed > MAX_PREAMBLE ==> r.Err?)
  {
    hide *;
    GapLines(p, boundary);
    var passed := preamble + |Joined(p.gap)|;
    SkipsGap(p.gap, after, boundary, count, preamble);
    if passed <= MAX_PREAMBLE {
      PartReads(p, after, later, boundary, count, passed);
    }
  }

  lemma PartReads(p: Part, after: bytes, later: bytes, boundary: bytes, count: nat, preamble: nat)
    requires IsBoundary(boundary) && IsPart(p, boundary) && count > 0
    requires after == AfterGap(p, boundary) + later
    ensures Frames(after, boundary, count, preamble) == After([p.frame], Frames(later, boundary, count - 1, preamble))
  {
    hide *;
    ReadsPart(p, later, boundary, count, preamble);
  }

  lemma AfterFrames(frame: bytes, r: Result<seq<bytes>>)
    ensures After([frame], r).Ok? <==> r.Ok?
    ensures r.Ok? ==> After([frame], r).value == [frame] + r.value
  {
  }

  lemma GapLines(p: Part, boundary: bytes)
    requires IsPart(p, boundary)
    ensures forall l :: l in p.gap ==> IsGapLine(l, boundary)
  {
  }

  // ----- the usual headers -----

  function Decimal(n: nat): (d: bytes)
    ensures d != [] && forall i :: 0 <= i < |d| ==> IsDigit(d[i])
  {
    if n < 10 then [0x30 + n] else Decimal(n / 10) + [0x30 + n % 10]
  }

  lemma {:induction false} DigitsOfDecimal(n: nat)
    ensures Digits(Decimal(n)) == Some(n)
  {
    if n >= 10 {
      DigitsOfDecimal(n / 10);
      var d, high := Decimal(n), Decimal(n / 10);
      assert d[..|d| - 1] == high && IsDigit(high[|high| - 1]);
    }
  }

  /** Neither end is a space. */
  predicate IsCore(s: bytes) {
    s != [] && !IsSpace(s[0]) && !IsSpace(s[|s| - 1])
  }

  predicate Blank(s: bytes) {
    forall i :: 0 <= i < |s| ==> IsSpace(s[i])
  }

  lemma {:induction false} StripsLeft(left: bytes, s: bytes)
    requires Blank(left) && s != [] && !IsSpace(s[0])
    ensures StripLeft(left + s) == s
  {
    if left == [] {
      assert left + s == s;
    } else {
      assert (left + s)[1..] == left[1..] + s;
      StripsLeft(left[1..], s);
    }
  }

  lemma {:induction false} StripsRight(s: bytes, right: bytes)
    requires Blank(right) && s != [] && !IsSpace(s[|s| - 1])
    ensures StripRight(s + right) == s
    decreases |right|
  {
    if right == [] {
      assert s + right == s;
    } else {
      assert (s + right)[..|s + right| - 1] == s + right[..|right| - 1];
      assert (s + right)[|s + right| - 1] == right[|right| - 1];
      StripsRight(s, right[..|right| - 1]);
    }
  }

  lemma Strips(left: bytes, core: bytes, right: bytes)
    requires Blank(left) && IsCore(core) && Blank(right)
    ensures Strip(left + (core + right)) == core
  {
    StripsLeft(left, core + right);
    StripsRight(core, right);
  }

  lemma StripsCore(core: bytes)
    requires IsCore(core)
    ensures Strip(core) == core
  {
    Strips([], core, []);
    assert [] + (core + []) == core;
  }

  lemma DecimalParses(n: nat)
    ensures ParseInt(Decimal(n)) == Some(n as int)
  {
    var d := Decimal(n);
    assert IsDigit(d[0]) && IsDigit(d[|d| - 1]);
    hide Decimal, Digits;
    StripsCore(d);
    DigitsOfDecimal(n);
  }

  function HeaderLine(name: bytes, value: bytes): bytes {
    name + ([COLON] + ([0x20] + (value + CRLF)))
  }

  /** A header line with a plain name and value. */
  lemma HeaderLineReads(headers: Headers, name: bytes, value: bytes)
    requires IsCore(name) && COLON !in name && IsCore(value)
    ensures WithHeader(headers, HeaderLine(name, value)) == headers[Lower(name) := value]
  {
    var line := HeaderLine(name, value);
    var after := [0x20] + (value + CRLF);
    UntilFound(name, COLON, [COLON] + after);
    assert Clip(line, |name| + 1, |line|) == after;
    StripsCore(name);
    Strips([0x20], value, CRLF);
  }

  lemma HeaderLineFits(name: bytes, value: bytes)
    requires LF !in name && LF !in value && |name| + |value| + 4 <= MAX_LINE
    ensures IsHeaderLine(HeaderLine(name, value)) && |HeaderLine(name, value)| == |name| + |value| + 4
  {
    var line := HeaderLine(name, value);
    assert line[..|line| - 1] == name + ([COLON] + ([0x20] + (value + [CR])));
    assert line[|name|] == COLON;
  }

  const TypeName: bytes := Ascii("Content-Type")
  const LengthName: bytes := Ascii("Content-Length")

  lemma NamesInLowerCase()
    ensures Lower(TypeName) == ContentType && Lower(LengthName) == ContentLength && ContentType != ContentLength
  {
    forall i | 0 <= i < 12
      ensures LowerByte(TypeName[i]) == ContentType[i]
    {
    }
    forall i | 0 <= i < 14
      ensures LowerByte(LengthName[i]) == ContentLength[i]
    {
    }
  }

  lemma PlainWords()
    ensures IsCore(TypeName) && COLON !in TypeName && LF !in TypeName
    ensures IsCore(LengthName) && COLON !in LengthName && LF !in LengthName
    ensures IsCore(ImageJpeg) && LF !in ImageJpeg && 0x3B !in ImageJpeg && Lower(ImageJpeg) == ImageJpeg
  {
    assert forall i :: 0 <= i < 10 ==> LowerByte(ImageJpeg[i]) == ImageJpeg[i];
  }

  function StandardHead(n: nat): seq<bytes> {
    [HeaderLine(TypeName, ImageJpeg), HeaderLine(LengthName, Decimal(n))]
  }

  lemma {:induction false} DecimalSize(n: nat, digits: nat)
    requires digits > 0 && n < Power10(digits)
    ensures |Decimal(n)| <= digits
  {
    if n >= 10 {
      assert Power10(digits) == 10 * Power10(digits - 1);
      DecimalSize(n / 10, digits - 1);
    }
  }

  function Power10(n: nat): nat {
    if n == 0 then 1 else 10 * Power10(n - 1)
  }

  lemma HeadFolds(a: bytes, b: bytes, headers: Headers)
    ensures Folded(headers, [a, b]) == WithHeader(WithHeader(headers, a), b)
    ensures Joined([a, b]) == a + b
  {
    hide WithHeader;
    assert [a, b][1..] == [b];
    assert |[b][1..]| == 0;
    assert Joined([b]) == b + [];
    assert b + [] == b;
    var once := WithHeader(headers, a);
    assert Folded(WithHeader(once, b), [b][1..]) == WithHeader(once, b);
    assert Folded(once, [b]) == WithHeader(once, b);
  }

  lemma StandardHeaders(n: nat)
    requires 0 < n <= MAX_FRAME
    ensures Folded(map[], StandardHead(n)) == map[ContentType := ImageJpeg, ContentLength := Decimal(n)]
  {
    var d := Decimal(n);
    assert IsDigit(d[0]) && IsDigit(d[|d| - 1]);
    PlainWords();
    NamesInLowerCase();
    hide HeaderLine, WithHeader, Decimal, Lower, Ascii;
    var none: Headers, one: Headers := map[], map[ContentType := ImageJpeg];
    HeaderLineReads(none, TypeName, ImageJpeg);
    assert WithHeader(none, HeaderLine(TypeName, ImageJpeg)) == one;
    HeaderLineReads(one, LengthName, d);
    assert WithHeader(one, HeaderLine(LengthName, d)) == one[ContentLength := d];
    assert one[ContentLength := d] == map[ContentType := ImageJpeg, ContentLength := d];
    HeadFolds(HeaderLine(TypeName, ImageJpeg), HeaderLine(LengthName, d), none);
    assert StandardHead(n) == [HeaderLine(TypeName, ImageJpeg), HeaderLine(LengthName, d)];
  }

  lemma StandardLength(n: nat)
    requires 0 < n <= MAX_FRAME
    ensures PartLength(map[ContentType := ImageJpeg, ContentLength := Decimal(n)]) == Ok(n)
  {
    PlainWords();
    NamesInLowerCase();
    DecimalParses(n);
    UntilAbsent(ImageJpeg, 0x3B);
    StripsCore(ImageJpeg);
    hide Decimal, ParseInt, Lower, Strip, Until, Ascii;
  }

  lemma FrameLength(n: nat)
    requires n <= MAX_FRAME
    ensures LF !in Decimal(n) && |Decimal(n)| <= 7
  {
    hide Ascii;
    assert Power10(2) == 100 && Power10(4) == 10000 && Power10(6) == 1000000 && Power10(7) == 10000000;
    DecimalSize(n, 7);
  }

  /** The usual two headers announce any frame of 1 byte to 2 MiB, so that StreamReads applies to it. */
  lemma StandardPart(gap: seq<bytes>, frame: bytes, boundary: bytes)
    requires (forall l :: l in gap ==> IsGapLine(l, boundary)) && 0 < |frame| <= MAX_FRAME
    ensures IsPart(Part(gap, StandardHead(|frame|), frame), boundary)
  {
    hide HeaderLine, WithHeader, Decimal, Lower, Power10, PartLength, Folded, Joined, IsHeaderLine, IsGapLine, Ascii,
      IsCore;
    var n := |frame|;
    var d := Decimal(n);
    StandardHeaders(n);
    StandardLength(n);
    PlainWords();
    FrameLength(n);
    HeaderLineFits(TypeName, ImageJpeg);
    HeaderLineFits(LengthName, d);
    HeadFolds(HeaderLine(TypeName, ImageJpeg), HeaderLine(LengthName, d), map[]);
    forall l | l in StandardHead(n)
      ensures IsHeaderLine(l)
    {
    }
  }
}

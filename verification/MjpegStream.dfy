/** Exactly which byte streams give frames: those made of parts in the multipart format, with their frames in order. */
module MjpegStream {
  import opened Bytes
  import opened Mjpeg
  import opened MjpegFields

  /** Lines before the delimiter, the delimiter line, header lines, the blank line and the frame. */
  datatype RawPart = RawPart(gap: seq<bytes>, delimiter: bytes, head: seq<bytes>, blank: bytes, frame: bytes)

  predicate GapLine(l: bytes, boundary: bytes) {
    && FullLine(l) && !Bare(l, [0x2D, 0x2D] + boundary) && !Bare(l, [0x2D, 0x2D] + boundary + [0x2D, 0x2D])
  }

  predicate GapLines(gap: seq<bytes>, boundary: bytes) {
    forall i :: 0 <= i < |gap| ==> GapLine(gap[i], boundary)
  }

  predicate HeadLines(head: seq<bytes>) {
    forall i :: 0 <= i < |head| ==> FullLine(head[i]) && 0x3A in head[i]
  }

  /** What follows the gap: the delimiter, headers within 32 KiB that announce the frame, and the frame. */
  ghost predicate PartFits(p: RawPart, boundary: bytes) {
    && FullLine(p.delimiter) && Bare(p.delimiter, [0x2D, 0x2D] + boundary)
    && HeadLines(p.head) && (p.blank == [0x0D, 0x0A] || p.blank == [0x0A])
    && |Joined(p.head)| + |p.blank| <= 0x8000 && Announces(p.head, |p.frame|)
  }

  ghost predicate PartsFit(parts: seq<RawPart>, boundary: bytes) {
    forall i :: 0 <= i < |parts| ==> GapLines(parts[i].gap, boundary) && PartFits(parts[i], boundary)
  }

  function Body(p: RawPart): bytes {
    p.delimiter + (Joined(p.head) + (p.blank + p.frame))
  }

  function Written(parts: seq<RawPart>): bytes {
    if parts == [] then [] else Joined(parts[0].gap) + Body(parts[0]) + Written(parts[1..])
  }

  /** All that lies before delimiters; this budget is not reset. */
  function GapSize(parts: seq<RawPart>): nat {
    if parts == [] then 0 else |Joined(parts[0].gap)| + GapSize(parts[1..])
  }

  function FrameList(parts: seq<RawPart>): seq<bytes> {
    seq(|parts|, i requires 0 <= i < |parts| => parts[i].frame)
  }

  // ----- headers -----

  lemma JoinedFirst(line: bytes, lines: seq<bytes>)
    ensures Joined([line] + lines) == line + Joined(lines)
  {
    assert ([line] + lines)[1..] == lines;
  }

  /** The first line of readable headers: the blank one, or a header line before more. */
  lemma HeadersTurn(data: bytes, headers: Headers, used: nat) returns (line: bytes)
    requires ReadHeaders(data, headers, used).Ok?
    ensures FullLine(line) && line <= data && used + |line| <= 0x8000
    ensures if line == [0x0D, 0x0A] || line == [0x0A]
            then ReadHeaders(data, headers, used) == Ok(HeadersRead(headers, data[|line|..]))
            else 0x3A in line
                 && ReadHeaders(data, headers, used) ==
                    ReadHeaders(data[|line|..], WithHeader(headers, line), used + |line|)
  {
    hide NextLine, WithHeader, ReadHeaders, FullLine;
    HeadersStep(data, headers, used);
    line := NextLine(data).value;
    HeadersCut(data, headers, used);
    if line == CRLF || line == [LF] {
      BlankFull(line);
    } else {
      LineExactly(data, line);
    }
  }

  /** Headers that end without a blank line. */
  lemma HeadersCut(data: bytes, headers: Headers, used: nat)
    ensures NextLine(data) == Ok(data) && data != CRLF && data != [LF] ==> ReadHeaders(data, headers, used).Err?
  {
    hide NextLine, WithHeader, ReadHeaders;
    HeadersStep(data, headers, used);
    HeadersNone(data[|data|..], WithHeader(headers, data), used + |data|);
  }

  lemma HeadersNone(data: bytes, headers: Headers, used: nat)
    requires data == []
    ensures ReadHeaders(data, headers, used).Err?
  {
    hide WithHeader;
    LineOfNone(data);
  }

  lemma HeadGrows(line: bytes, more: seq<bytes>, after: bytes, data: bytes)
    requires line <= data && data[|line|..] == Joined(more) + after && FullLine(line) && 0x3A in line && HeadLines(more)
    ensures data == Joined([line] + more) + after && HeadLines([line] + more)
    ensures |Joined([line] + more)| == |line| + |Joined(more)|
  {
    hide FullLine, Joined;
    JoinedFirst(line, more);
    assert data == line + data[|line|..];
    assert line + (Joined(more) + after) == line + Joined(more) + after;
  }

  lemma {:induction false} HeadersSound(data: bytes, headers: Headers, used: nat)
    returns (head: seq<bytes>, blank: bytes)
    requires ReadHeaders(data, headers, used).Ok?
    ensures HeadLines(head) && (blank == [0x0D, 0x0A] || blank == [0x0A])
    ensures data == Joined(head) + (blank + ReadHeaders(data, headers, used).value.rest)
    ensures used + |Joined(head)| + |blank| <= 0x8000
    ensures ReadHeaders(data, headers, used).value.headers == Folded(headers, head)
    decreases |data|
  {
    hide NextLine, WithHeader, ReadHeaders, FullLine, HeadLines, Joined, Folded;
    var line := HeadersTurn(data, headers, used);
    var rest := data[|line|..];
    if line == [0x0D, 0x0A] || line == [0x0A] {
      head, blank := [], line;
      NoHead(headers);
      assert data == line + rest;
      assert [] + (line + rest) == line + rest;
    } else {
      SomeLine(line);
      var more;
      more, blank := HeadersSound(rest, WithHeader(headers, line), used + |line|);
      head := [line] + more;
      FoldedFirst(headers, line, more);
      HeadGrows(line, more, blank + ReadHeaders(data, headers, used).value.rest, data);
    }
  }

  lemma NoHead(headers: Headers)
    ensures HeadLines([]) && Joined([]) == [] && Folded(headers, []) == headers
  {
  }

  lemma SomeLine(line: bytes)
    requires FullLine(line)
    ensures line != []
  {
  }

  lemma FoldedFirst(headers: Headers, line: bytes, more: seq<bytes>)
    ensures Folded(headers, [line] + more) == Folded(WithHeader(headers, line), more)
  {
    hide WithHeader;
    assert ([line] + more)[1..] == more;
  }

  lemma LineOfNone(data: bytes)
    requires data == []
    ensures NextLine(data) == Ok([])
  {
  }

  lemma LineFirst(line: bytes, rest: bytes)
    requires FullLine(line)
    ensures NextLine(line + rest) == Ok(line) && (line + rest)[|line|..] == rest && line != []
  {
    LineExactly(line + rest, line);
  }

  lemma {:induction false} HeadersComplete(head: seq<bytes>, blank: bytes, rest: bytes, headers: Headers, used: nat)
    requires HeadLines(head) && (blank == [0x0D, 0x0A] || blank == [0x0A])
    requires used + |Joined(head)| + |blank| <= 0x8000
    ensures ReadHeaders(Joined(head) + (blank + rest), headers, used) == Ok(HeadersRead(Folded(headers, head), rest))
    decreases |head|
  {
    hide NextLine, WithHeader, ReadHeaders, FullLine;
    var data := Joined(head) + (blank + rest);
    HeadersStep(data, headers, used);
    if head == [] {
      assert data == blank + rest;
      BlankFull(blank);
      LineFirst(blank, rest);
    } else {
      var line, after := head[0], Joined(head[1..]) + (blank + rest);
      assert data == line + after;
      LineFirst(line, after);
      NotBlank(line);
      HeadersComplete(head[1..], blank, rest, WithHeader(headers, line), used + |line|);
    }
  }

  lemma BlankFull(blank: bytes)
    requires blank == [0x0D, 0x0A] || blank == [0x0A]
    ensures FullLine(blank)
  {
  }

  // ----- frames -----

  predicate IsDelimiter(line: bytes, boundary: bytes) {
    Bare(line, [0x2D, 0x2D] + boundary)
  }

  predicate IsClosing(line: bytes, boundary: bytes) {
    Bare(line, [0x2D, 0x2D] + boundary + [0x2D, 0x2D])
  }

  /** One turn of the frame loop. */
  lemma FramesStep(data: bytes, boundary: bytes, count: nat, preamble: nat)
    requires count > 0
    ensures var line, r := NextLine(data), Frames(data, boundary, count, preamble);
            && (line.Err? || line.value == [] ==> r.Err?)
            && (line.Ok? && line.value != [] ==>
                  if IsClosing(line.value, boundary) then r.Err?
                  else if !IsDelimiter(line.value, boundary) then
                    if preamble + |line.value| > 0x8000 then r.Err?
                    else r == Frames(data[|line.value|..], boundary, count, preamble + |line.value|)
                  else FrameStep(data[|line.value|..], boundary, count, preamble, r))
  {
    hide NextLine, ReadHeaders, PartLength, TrimEnd, After;
    if NextLine(data).Ok? {
      var line := NextLine(data).value;
      BareExactly(line, [0x2D, 0x2D] + boundary);
      BareExactly(line, [0x2D, 0x2D] + boundary + [0x2D, 0x2D]);
    }
  }

  /** After a delimiter line: headers, their length, and as many bytes. */
  ghost predicate FrameStep(data: bytes, boundary: bytes, count: nat, preamble: nat, r: Result<seq<bytes>>)
    requires count > 0
  {
    var head := ReadHeaders(data, map[], 0);
    if head.Err? || PartLength(head.value.headers).Err? || |head.value.rest| < PartLength(head.value.headers).value
    then r.Err?
    else
      var n := PartLength(head.value.headers).value;
      r == After([head.value.rest[..n]], Frames(head.value.rest[n..], boundary, count - 1, preamble))
  }

  lemma WrittenFirst(p: RawPart, parts: seq<RawPart>)
    ensures Written([p] + parts) == Joined(p.gap) + Body(p) + Written(parts)
    ensures GapSize([p] + parts) == |Joined(p.gap)| + GapSize(parts)
    ensures FrameList([p] + parts) == [p.frame] + FrameList(parts)
  {
    hide Joined, Body;
    assert ([p] + parts)[1..] == parts;
  }

  lemma PartsFitFirst(p: RawPart, parts: seq<RawPart>, boundary: bytes)
    requires PartsFit(parts, boundary) && GapLines(p.gap, boundary) && PartFits(p, boundary)
    ensures PartsFit([p] + parts, boundary)
  {
    hide GapLines, PartFits;
  }

  /** A gap line put before the first part. */
  lemma GapFirst(line: bytes, parts: seq<RawPart>, boundary: bytes) returns (more: seq<RawPart>)
    requires parts != [] && GapLine(line, boundary) && PartsFit(parts, boundary)
    ensures PartsFit(more, boundary) && |more| == |parts| && FrameList(more) == FrameList(parts)
    ensures Written(more) == line + Written(parts) && GapSize(more) == |line| + GapSize(parts)
  {
    hide GapLine, PartFits, Body, Joined;
    var p, rest := parts[0], parts[1..];
    var q := p.(gap := [line] + p.gap);
    more := [q] + rest;
    assert parts == [p] + rest;
    JoinedFirst(line, p.gap);
    WrittenFirst(p, rest);
    WrittenFirst(q, rest);
    SameBody(p, q, boundary);
    assert forall i :: 0 < i < |more| ==> more[i] == parts[i];
    assert line + Joined(p.gap) + Body(p) + Written(rest) == line + (Joined(p.gap) + Body(p) + Written(rest));
  }

  lemma SameBody(p: RawPart, q: RawPart, boundary: bytes)
    requires q == p.(gap := q.gap)
    ensures Body(q) == Body(p) && (PartFits(q, boundary) <==> PartFits(p, boundary))
  {
  }

  /** Parts that a stream starts with, with their frames and the size of their gaps. */
  ghost predicate StartsWith(data: bytes, boundary: bytes, parts: seq<RawPart>, rest: bytes, room: int,
                             frames: seq<bytes>)
  {
    && PartsFit(parts, boundary) && data == Written(parts) + rest && GapSize(parts) <= room
    && frames == FrameList(parts)
  }

  lemma StartsNone(data: bytes, boundary: bytes, room: nat)
    ensures StartsWith(data, boundary, [], data, room, [])
  {
    assert [] + data == data;
  }

  lemma StartsPart(data: bytes, boundary: bytes, p: RawPart, later: bytes, more: seq<RawPart>, rest: bytes, room: int,
                   frames: seq<bytes>)
    requires StartsWith(later, boundary, more, rest, room, frames)
    requires p.gap == [] && GapLines(p.gap, boundary) && PartFits(p, boundary) && data == Body(p) + later
    ensures StartsWith(data, boundary, [p] + more, rest, room, [p.frame] + frames)
  {
    hide GapLines, PartFits, PartsFit, Body, Written, GapSize, FrameList;
    PartsFitFirst(p, more, boundary);
    WrittenFirst(p, more);
    assert Joined([]) == [];
    assert Body(p) + (Written(more) + rest) == [] + Body(p) + Written(more) + rest;
  }

  lemma StartsGap(data: bytes, boundary: bytes, line: bytes, more: seq<RawPart>, rest: bytes, room: int,
                  frames: seq<bytes>) returns (parts: seq<RawPart>)
    requires more != [] && GapLine(line, boundary) && line <= data
    requires StartsWith(data[|line|..], boundary, more, rest, room - |line|, frames)
    ensures |parts| == |more| && StartsWith(data, boundary, parts, rest, room, frames)
  {
    hide GapLine, PartsFit, Written, GapSize, FrameList;
    parts := GapFirst(line, more, boundary);
    assert data == line + data[|line|..];
    assert line + (Written(more) + rest) == line + Written(more) + rest;
  }

  /** A stream that gives frames is made of parts. */
  lemma {:induction false} FramesSound(data: bytes, boundary: bytes, count: nat, preamble: nat)
    returns (parts: seq<RawPart>, rest: bytes)
    requires Frames(data, boundary, count, preamble).Ok? && preamble <= 0x8000
    ensures |parts| == count
    ensures StartsWith(data, boundary, parts, rest, 0x8000 - preamble, Frames(data, boundary, count, preamble).value)
    decreases |data|
  {
    hide Frames, NextLine, IsClosing, IsDelimiter, GapLine, FrameStep, StartsWith, PartFits, GapLines;
    if count == 0 {
      NoFrames(data, boundary, preamble);
      parts, rest := [], data;
      StartsNone(data, boundary, 0x8000 - preamble);
    } else {
      FramesStep(data, boundary, count, preamble);
      var line := NextLine(data).value;
      if IsDelimiter(line, boundary) {
        var p, later := PartSound(data, line, boundary, count, preamble);
        var more;
        more, rest := FramesSound(later, boundary, count - 1, preamble);
        parts := [p] + more;
        StartsPart(data, boundary, p, later, more, rest, 0x8000 - preamble,
          Frames(later, boundary, count - 1, preamble).value);
      } else if line == data {
        NothingFollows(data[|line|..], boundary, count, preamble + |line|);
        assert false;
      } else {
        LineIsGap(data, line, boundary);
        var more;
        more, rest := FramesSound(data[|line|..], boundary, count, preamble + |line|);
        parts := StartsGap(data, boundary, line, more, rest, 0x8000 - preamble,
          Frames(data, boundary, count, preamble).value);
      }
    }
  }

  lemma NothingWritten(boundary: bytes)
    ensures Written([]) == [] && GapSize([]) == 0 && FrameList([]) == [] && PartsFit([], boundary)
  {
  }

  lemma NothingFollows(data: bytes, boundary: bytes, count: nat, preamble: nat)
    requires data == [] && count > 0
    ensures Frames(data, boundary, count, preamble).Err?
  {
    LineOfNone(data);
    hide NextLine, TrimEnd, ReadHeaders, PartLength;
  }

  lemma LineIsGap(data: bytes, line: bytes, boundary: bytes)
    requires NextLine(data) == Ok(line) && line != data
    requires !IsClosing(line, boundary) && !IsDelimiter(line, boundary)
    ensures GapLine(line, boundary) && line <= data
  {
    LineExactly(data, line);
    hide Bare, NextLine, FullLine;
  }

  /** One part, from its delimiter line on. */
  lemma PartSound(data: bytes, line: bytes, boundary: bytes, count: nat, preamble: nat)
    returns (p: RawPart, later: bytes)
    requires count > 0 && NextLine(data) == Ok(line) && line != [] && IsDelimiter(line, boundary)
    requires |line| <= |data| && Frames(data, boundary, count, preamble).Ok?
    requires FrameStep(data[|line|..], boundary, count, preamble, Frames(data, boundary, count, preamble))
    ensures p.gap == [] && GapLines(p.gap, boundary) && PartFits(p, boundary) && data == Body(p) + later
    ensures |later| < |data| && Frames(later, boundary, count - 1, preamble).Ok?
    ensures Frames(data, boundary, count, preamble).value ==
            [p.frame] + Frames(later, boundary, count - 1, preamble).value
  {
    hide Frames, NextLine, ReadHeaders, PartLength, Folded, Announces, Bare, FullLine, Joined;
    var after := data[|line|..];
    var read := ReadHeaders(after, map[], 0).value;
    var n := PartLength(read.headers).value;
    if line == data {
      HeadersOfNone(after);
      assert false;
    } else {
      LineExactly(data, line);
      var head, blank := HeadersSound(after, map[], 0);
      HeadLinesColons(head);
      PartExactly(head, n);
      p := RawPart([], line, head, blank, read.rest[..n]);
      later := read.rest[n..];
      assert read.rest == p.frame + later;
      assert data == line + after;
      assert Joined(head) + (blank + (p.frame + later)) == Joined(head) + (blank + p.frame) + later;
      assert line + (Joined(head) + (blank + p.frame) + later) == Body(p) + later;
    }
  }

  lemma HeadersOfNone(data: bytes)
    requires data == []
    ensures ReadHeaders(data, map[], 0).Err?
  {
    LineOfNone(data);
    hide NextLine;
  }

  lemma HeadLinesColons(head: seq<bytes>)
    requires HeadLines(head)
    ensures WithColons(head)
  {
    hide FullLine;
  }

  /** Gap lines are passed over. */
  lemma {:induction false} GapComplete(gap: seq<bytes>, rest: bytes, boundary: bytes, count: nat, preamble: nat)
    requires GapLines(gap, boundary) && count > 0 && preamble + |Joined(gap)| <= 0x8000
    ensures Frames(Joined(gap) + rest, boundary, count, preamble) ==
            Frames(rest, boundary, count, preamble + |Joined(gap)|)
    decreases |gap|
  {
    hide Frames, NextLine, FrameStep, FullLine, Bare;
    if gap == [] {
      assert Joined(gap) + rest == rest;
    } else {
      var line, after := gap[0], Joined(gap[1..]) + rest;
      assert Joined(gap) + rest == line + after;
      assert GapLine(line, boundary);
      LineFirst(line, after);
      FramesStep(line + after, boundary, count, preamble);
      GapComplete(gap[1..], rest, boundary, count, preamble + |line|);
    }
  }

  lemma PartComplete(p: RawPart, later: bytes, boundary: bytes, count: nat, preamble: nat)
    requires PartFits(p, boundary) && count > 0
    ensures Frames(Body(p) + later, boundary, count, preamble) ==
            After([p.frame], Frames(later, boundary, count - 1, preamble))
  {
    hide Frames, NextLine, ReadHeaders, PartLength, Folded, Announces, FullLine, Joined, After, Bare;
    var after := Joined(p.head) + (p.blank + (p.frame + later));
    assert Body(p) + later == p.delimiter + after by {
      assert Joined(p.head) + (p.blank + p.frame) + later == after;
    }
    LineFirst(p.delimiter, after);
    FramesStep(p.delimiter + after, boundary, count, preamble);
    DelimiterNotClosing(p.delimiter, boundary);
    HeadersComplete(p.head, p.blank, p.frame + later, map[], 0);
    HeadLinesColons(p.head);
    PartExactly(p.head, |p.frame|);
    assert (p.frame + later)[..|p.frame|] == p.frame && (p.frame + later)[|p.frame|..] == later;
  }

  lemma DelimiterNotClosing(line: bytes, boundary: bytes)
    requires IsDelimiter(line, boundary)
    ensures !IsClosing(line, boundary)
  {
    BareExactly(line, [0x2D, 0x2D] + boundary);
    BareExactly(line, [0x2D, 0x2D] + boundary + [0x2D, 0x2D]);
  }

  /** Parts in the format give their frames. */
  lemma {:induction false} FramesComplete(parts: seq<RawPart>, rest: bytes, boundary: bytes, preamble: nat)
    requires PartsFit(parts, boundary) && preamble + GapSize(parts) <= 0x8000
    ensures Frames(Written(parts) + rest, boundary, |parts|, preamble) == Ok(FrameList(parts))
    decreases |parts|
  {
    hide Frames, PartFits, GapLines, Joined, Body, After;
    if parts == [] {
      NoFrames(Written(parts) + rest, boundary, preamble);
    } else {
      var p, more := parts[0], parts[1..];
      var passed := preamble + |Joined(p.gap)|;
      var later := Written(more) + rest;
      assert Written(parts) + rest == Joined(p.gap) + (Body(p) + later);
      GapComplete(p.gap, Body(p) + later, boundary, |parts|, preamble);
      PartComplete(p, later, boundary, |parts|, passed);
      FramesComplete(more, rest, boundary, passed);
      AfterFrames(p.frame, Ok(FrameList(more)));
      assert FrameList(parts) == [p.frame] + FrameList(more);
    }
  }

  /** The reader gives count frames if and only if the stream starts with so many parts; they are the parts' frames. */
  lemma FramesExactly(data: bytes, boundary: bytes, count: nat, frames: seq<bytes>)
    ensures Frames(data, boundary, count, 0) == Ok(frames) <==>
            exists parts, rest :: |parts| == count && StartsWith(data, boundary, parts, rest, 0x8000, frames)
  {
    hide Frames, StartsWith;
    if Frames(data, boundary, count, 0) == Ok(frames) {
      var parts, rest := FramesSound(data, boundary, count, 0);
    }
    forall parts, rest | |parts| == count && StartsWith(data, boundary, parts, rest, 0x8000, frames)
      ensures Frames(data, boundary, count, 0) == Ok(frames)
    {
      StartsComplete(data, boundary, parts, rest, frames);
    }
  }

  lemma StartsComplete(data: bytes, boundary: bytes, parts: seq<RawPart>, rest: bytes, frames: seq<bytes>)
    requires StartsWith(data, boundary, parts, rest, 0x8000, frames)
    ensures Frames(data, boundary, |parts|, 0) == Ok(frames)
  {
    hide Frames, PartsFit, GapSize, Written, FrameList;
    FramesComplete(parts, rest, boundary, 0);
  }
}

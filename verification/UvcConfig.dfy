/** uvc.config: reading and rewriting one setting of the text file in place. */
module UvcConfig {
  import opened Bytes
  import opened CStrings
  import NormalReport

  const NEWLINE: byte := 10
  const COLON: byte := 0x3A
  const SPACE: byte := 0x20

  const LINE_MAX: nat := 127
  const KEY_MAX: nat := 63
  const VALUE_MAX: nat := 63
  const FILE_MAX: nat := 2048
  const REWRITTEN_MAX: nat := 4096

  // ----- reading -----

  /** fgets: up to 127 bytes, ending with the first newline. */
  function Fgets(file: bytes): (line: bytes)
    requires file != []
    ensures 0 < |line| <= LINE_MAX && line <= file
  {
    var text := Until(file, NEWLINE);
    UntilStops(file, NEWLINE);
    var n := Min(Min(|text| + 1, |file|), LINE_MAX);
    file[..n]
  }

  function SkipSpaces(s: bytes): bytes {
    if s != [] && IsSpace(s[0]) then SkipSpaces(s[1..]) else s
  }

  function Word(s: bytes, max: nat): bytes
    decreases max
  {
    if max == 0 || s == [] || IsSpace(s[0]) then [] else [s[0]] + Word(s[1..], max - 1)
  }

  /** What one line holds for a key: what is after the colon, at most 63 bytes, up to the newline. */
  function TextValue(text: bytes, key: bytes): Option<bytes> {
    var left := Until(text, COLON);
    var word := Word(SkipSpaces(left), KEY_MAX);
    if |left| >= |text| || word == [] || word != key then None
    else Some(Until(Clip(text, |left| + 1, |left| + 1 + VALUE_MAX), NEWLINE))
  }

  /** The line is read as a C string. */
  function LineValue(line: bytes, key: bytes): Option<bytes> {
    TextValue(Until(line, 0), key)
  }

  function Get(file: bytes, key: bytes): Option<bytes>
    decreases |file|
  {
    if file == [] then None
    else
      var line := Fgets(file);
      var value := LineValue(line, key);
      if value.Some? then value else Get(file[|line|..], key)
  }

  /** config_get. */
  method ConfigGet(file: bytes, key: bytes) returns (value: Option<bytes>)
    ensures value == Get(file, key)
  {
    hide LineValue, Fgets;
    var at := 0;
    assert file[0..] == file;
    while at < |file|
      invariant at <= |file| && Get(file, key) == Get(file[at..], key)
    {
      var line := Fgets(file[at..]);
      value := LineValue(line, key);
      if value.Some? {
        return value;
      }
      assert file[at..][|line|..] == file[at + |line|..];
      at := at + |line|;
    }
    return None;
  }

  // ----- rewriting -----

  /** The key of a line's left side as SET parses it: no leading space is skipped. */
  function LeftKey(left: bytes): bytes {
    Until(Until(Clip(left, 0, 95), 0), SPACE)
  }

  /** The text with the first matching line's value replaced. */
  function Rewritten(file: bytes, key: bytes, value: bytes): Option<bytes>
    decreases |file|
  {
    if file == [] then None
    else
      var line := Until(file, NEWLINE);
      UntilStops(file, NEWLINE);
      var left := Until(line, COLON);
      UntilStops(line, COLON);
      if |left| < |line| && LeftKey(left) == key then Some(left + [COLON] + value + file[|line|..])
      else if |line| == |file| then None
      else
        After(line + [NEWLINE], Rewritten(file[|line| + 1..], key, value))
  }

  function After(prefix: bytes, text: Option<bytes>): Option<bytes> {
    if text.None? then None else Some(prefix + text.value)
  }

  lemma AfterAfter(a: bytes, b: bytes, text: Option<bytes>)
    ensures After(a, After(b, text)) == After(a + b, text) && After([], text) == text
  {
    if text.Some? {
      assert a + (b + text.value) == (a + b) + text.value;
      assert [] + text.value == text.value;
    }
  }

  /** The file never shrinks: the end is filled with zeros. */
  function Set(file: bytes, key: bytes, value: bytes): Option<bytes> {
    var text := Rewritten(file, key, value);
    if text.None? then None
    else Some(text.value + Repeat(0, if |text.value| < |file| then |file| - |text.value| else 0))
  }

  lemma RewrittenStep(file: bytes, at: nat, key: bytes, value: bytes)
    requires at < |file|
    ensures Until(file[at..], NEWLINE) <= file[at..]
    ensures var line := Until(file[at..], NEWLINE);
            var left := Until(line, COLON);
            && left <= line && left == file[at..at + |left|]
            && (|left| < |line| ==> file[at + |left|] == COLON)
            && (|left| < |line| && LeftKey(left) == key ==>
                  Rewritten(file[at..], key, value) == Some(left + [COLON] + value + file[at + |line|..]))
            && (!(|left| < |line| && LeftKey(left) == key) ==>
                  (at + |line| == |file| ==> Rewritten(file[at..], key, value) == None)
                  && (at + |line| < |file| ==>
                        && line + [NEWLINE] == file[at..at + |line| + 1]
                        && Rewritten(file[at..], key, value) ==
                           After(line + [NEWLINE], Rewritten(file[at + |line| + 1..], key, value))))
  {
    hide Until, LeftKey, After;
    var line := Until(file[at..], NEWLINE);
    UntilStops(file[at..], NEWLINE);
    UntilStops(line, COLON);
    var left := Until(line, COLON);
    assert left == line[..|left|] == file[at..][..|left|] == file[at..at + |left|];
    assert file[at..][|line|..] == file[at + |line|..];
    if at + |line| < |file| {
      assert file[at..][|line| + 1..] == file[at + |line| + 1..];
      assert line == file[at..][..|line|] == file[at..at + |line|];
    }
  }

  /** The prefix up to the colon, the value, the tail from the end of the line, and zeros up to the old size. */
  method Write(file: bytes, colon: nat, lineEnd: nat, value: bytes) returns (r: bytes)
    requires colon < lineEnd <= |file| <= FILE_MAX && |value| <= NormalReport.PAYLOAD_MAX
    ensures var text := file[..colon + 1] + value + file[lineEnd..];
            r == text + Repeat(0, if |text| < |file| then |file| - |text| else 0)
  {
    hide Splice;
    var prefixLength, tailLength := colon + 1, |file| - lineEnd;
    var rewritten := new byte[REWRITTEN_MAX](_ => 0);
    PutAll(rewritten, 0, file[..prefixLength]);
    PutAll(rewritten, prefixLength, value);
    PutAll(rewritten, prefixLength + |value|, file[lineEnd..]);
    var newSize := prefixLength + |value| + tailLength;
    Layout(rewritten[..], file[..prefixLength], value, file[lineEnd..]);
    if newSize < |file| {
      assert rewritten[..|file|] == rewritten[..newSize] + rewritten[newSize..|file|];
      assert rewritten[newSize..|file|] == Repeat(0, |file| - newSize);
      newSize := |file|;
    } else {
      assert Repeat(0, 0) == [];
    }
    return rewritten[..newSize];
  }

  lemma Layout(buffer: bytes, a: bytes, b: bytes, c: bytes)
    requires |a| + |b| + |c| <= |buffer|
    requires forall i :: 0 <= i < |a| ==> buffer[i] == a[i]
    requires forall i :: |a| <= i < |a| + |b| ==> buffer[i] == b[i - |a|]
    requires forall i :: |a| + |b| <= i < |a| + |b| + |c| ==> buffer[i] == c[i - |a| - |b|]
    ensures buffer[..|a| + |b| + |c|] == a + b + c
  {
  }

  /** config_set over the whole file; the buffers bound the file and the value. */
  method ConfigSet(file: bytes, key: bytes, value: bytes) returns (r: Option<bytes>)
    requires |file| <= 2048 && |value| <= 1010
    ensures r == Set(file, key, value)
    ensures r.Some? ==> |file| <= |r.value| <= 4096
  {
    hide Until, LeftKey, Rewritten, After;
    var cursor := 0;
    assert file[0..] == file && file[..0] == [];
    AfterAfter([], [], Rewritten(file, key, value));
    while cursor < |file|
      invariant cursor <= |file|
      invariant Rewritten(file, key, value) == After(file[..cursor], Rewritten(file[cursor..], key, value))
    {
      RewrittenStep(file, cursor, key, value);
      var line := Until(file[cursor..], NEWLINE);
      var left := Until(line, COLON);
      var lineEnd := cursor + |line|;
      if |left| < |line| && LeftKey(left) == key {
        Found(file, cursor, left, lineEnd, value);
        var rewritten := Write(file, cursor + |left|, lineEnd, value);
        return Some(rewritten);
      }
      if lineEnd < |file| {
        AfterAfter(file[..cursor], line + [NEWLINE], Rewritten(file[lineEnd + 1..], key, value));
        assert file[..cursor] + (line + [NEWLINE]) == file[..lineEnd + 1];
        cursor := lineEnd + 1;
      } else {
        AfterNone(file[..cursor]);
        AfterNone(file[..|file|]);
        NothingLeft(file, key, value);
        cursor := |file|;
      }
    }
    NothingLeft(file, key, value);
    AfterNone(file[..|file|]);
    return None;
  }

  lemma AfterNone(prefix: bytes)
    ensures After(prefix, None) == None
  {
  }

  lemma NothingLeft(file: bytes, key: bytes, value: bytes)
    ensures Rewritten(file[|file|..], key, value) == None
  {
  }

  lemma Found(file: bytes, cursor: nat, left: bytes, lineEnd: nat, value: bytes)
    requires cursor + |left| < lineEnd <= |file| && left == file[cursor..cursor + |left|]
             && file[cursor + |left|] == COLON
    ensures After(file[..cursor], Some(left + [COLON] + value + file[lineEnd..])) ==
            Some(file[..cursor + |left| + 1] + value + file[lineEnd..])
  {
    assert file[..cursor] + left + [COLON] == file[..cursor + |left| + 1];
    assert file[..cursor] + (left + [COLON] + value + file[lineEnd..]) ==
           (file[..cursor] + left + [COLON]) + value + file[lineEnd..];
  }

  // ----- documents -----

  datatype Line = Setting(key: bytes, spaces: nat, value: bytes) | Plain(text: bytes)

  /** Lines, each ended by a newline; a last line without one; a run of zeros. */
  datatype Document = Document(lines: seq<Line>, last: Line, zeros: nat)

  function Render(line: Line): bytes {
    match line
    case Setting(key, spaces, value) => key + Repeat(SPACE, spaces) + [COLON] + value
    case Plain(text) => text
  }

  function Text(lines: seq<Line>): bytes {
    if lines == [] then [] else Render(lines[0]) + [NEWLINE] + Text(lines[1..])
  }

  function File(d: Document): bytes {
    Text(d.lines) + Render(d.last) + Repeat(0, d.zeros)
  }

  predicate KeyByte(b: byte) {
    !IsSpace(b) && b != 0 && b != COLON
  }

  /** A single word of at most 63 bytes. */
  predicate IsKey(key: bytes) {
    0 < |key| <= KEY_MAX && forall i :: 0 <= i < |key| ==> KeyByte(key[i])
  }

  predicate OneLine(text: bytes) {
    0 !in text && NEWLINE !in text
  }

  predicate LineFits(line: Line) {
    match line
    case Setting(key, spaces, value) => IsKey(key) && OneLine(value) && |key| + spaces + 1 + |value| < LINE_MAX
    case Plain(text) => OneLine(text) && COLON !in text && |text| < LINE_MAX
  }

  predicate WellFormed(d: Document) {
    (forall l :: l in d.lines ==> LineFits(l)) && LineFits(d.last)
  }

  predicate Has(line: Line, key: bytes) {
    line.Setting? && line.key == key
  }

  /** The first setting of a key, as GET reports it. */
  function Lookup(lines: seq<Line>, key: bytes): Option<bytes> {
    if lines == [] then None
    else if Has(lines[0], key) then Some(Clip(lines[0].value, 0, VALUE_MAX))
    else Lookup(lines[1..], key)
  }

  function Put(lines: seq<Line>, key: bytes, value: bytes): seq<Line> {
    if lines == [] then []
    else if Has(lines[0], key) then [lines[0].(value := value)] + lines[1..]
    else [lines[0]] + Put(lines[1..], key, value)
  }

  function AllLines(d: Document): seq<Line> {
    d.lines + [d.last]
  }

  // ----- one line -----

  lemma {:induction false} WordOf(key: bytes, spaces: nat, max: nat)
    requires |key| <= max && forall i :: 0 <= i < |key| ==> KeyByte(key[i])
    ensures Word(key + Repeat(SPACE, spaces), max) == key
  {
    var s := key + Repeat(SPACE, spaces);
    if key != [] {
      assert s[1..] == key[1..] + Repeat(SPACE, spaces);
      WordOf(key[1..], spaces, max - 1);
    }
  }

  /** Both parsers find the key in a setting's left side. */
  lemma LeftSide(key: bytes, spaces: nat)
    requires IsKey(key)
    ensures var left := key + Repeat(SPACE, spaces);
            COLON !in left && Word(SkipSpaces(left), KEY_MAX) == key && LeftKey(left) == key
  {
    var left := key + Repeat(SPACE, spaces);
    WordOf(key, spaces, KEY_MAX);
    var clipped := Clip(left, 0, 95);
    UntilAbsent(clipped, 0);
    UntilIs(clipped, SPACE, |key|);
  }

  lemma {:induction false} SkipIndent(indent: nat, s: bytes)
    requires s != [] && !IsSpace(s[0])
    ensures SkipSpaces(Repeat(SPACE, indent) + s) == s
  {
    var t := Repeat(SPACE, indent) + s;
    if indent == 0 {
      assert t == s;
    } else {
      assert t[1..] == Repeat(SPACE, indent - 1) + s;
      SkipIndent(indent - 1, s);
    }
  }

  /** GET finds an indented key, SET does not: the two agree on a line exactly when it is not indented. */
  lemma IndentedKey(indent: nat, key: bytes, spaces: nat)
    requires IsKey(key)
    ensures var left := Repeat(SPACE, indent) + (key + Repeat(SPACE, spaces));
            Word(SkipSpaces(left), KEY_MAX) == key && (LeftKey(left) == key <==> indent == 0)
  {
    var word := key + Repeat(SPACE, spaces);
    var left := Repeat(SPACE, indent) + word;
    WordOf(key, spaces, KEY_MAX);
    SkipIndent(indent, word);
    if indent == 0 {
      assert left == word;
      LeftSide(key, spaces);
    } else {
      assert left[0] == SPACE;
    }
  }

  lemma RenderOneLine(line: Line)
    requires LineFits(line)
    ensures OneLine(Render(line)) && |Render(line)| < LINE_MAX
  {
  }

  /** The text that a C string search sees of a line and what follows it. */
  lemma SeenText(line: Line, rest: bytes)
    requires LineFits(line) && (rest == [] || rest[0] == 0 || rest == [NEWLINE])
    ensures Until(Render(line) + rest, 0) == Render(line) + if rest == [NEWLINE] then rest else []
  {
    RenderOneLine(line);
    hide Render, LineFits;
    var shown := Render(line);
    if rest == [] {
      UntilAbsent(shown, 0);
      assert shown + rest == shown;
    } else if rest == [NEWLINE] {
      UntilAbsent(shown + rest, 0);
    } else {
      UntilFound(shown, 0, rest);
    }
  }

  /** What GET sees of a line, whatever follows its text. */
  lemma ValueSeen(line: Line, rest: bytes, key: bytes)
    requires LineFits(line) && (rest == [] || rest[0] == 0 || rest == [NEWLINE])
    ensures LineValue(Render(line) + rest, key) == if Has(line, key) then Some(Clip(line.value, 0, VALUE_MAX)) else None
  {
    SeenText(line, rest);
    var end := if rest == [NEWLINE] then rest else [];
    if line.Plain? {
      hide Word, SkipSpaces, Clip;
      UntilAbsent(Render(line) + end, COLON);
    } else {
      hide TextValue, LineFits, Until, Render;
      SettingText(line, end, key);
    }
  }

  lemma SettingText(line: Line, end: bytes, key: bytes)
    requires LineFits(line) && line.Setting? && (end == [] || end == [NEWLINE])
    ensures TextValue(Render(line) + end, key) == if Has(line, key) then Some(Clip(line.value, 0, VALUE_MAX)) else None
  {
    SettingParts(line, end);
    var left := line.key + Repeat(SPACE, line.spaces);
    hide Render, LineFits, Word, SkipSpaces, LeftKey, Until, Clip, TextValue;
    ValueCut(Render(line) + end, left, line.value, end);
    TextValueIs(Render(line) + end, key, left, line.key, Clip(line.value, 0, VALUE_MAX));
  }

  lemma TextValueIs(text: bytes, key: bytes, left: bytes, word: bytes, value: bytes)
    requires Until(text, COLON) == left && |left| < |text| && Word(SkipSpaces(left), KEY_MAX) == word && word != []
    requires Until(Clip(text, |left| + 1, |left| + 1 + VALUE_MAX), NEWLINE) == value
    ensures TextValue(text, key) == if word == key then Some(value) else None
  {
    hide Until, Word, SkipSpaces, Clip;
  }

  /** The left side of a setting, its key, and what is after the colon. */
  lemma SettingParts(line: Line, tail: bytes)
    requires LineFits(line) && line.Setting?
    ensures var left := line.key + Repeat(SPACE, line.spaces);
            && Render(line) + tail == left + ([COLON] + line.value + tail)
            && Until(Render(line) + tail, COLON) == left
            && Word(SkipSpaces(left), KEY_MAX) == line.key && LeftKey(left) == line.key && line.key != []
            && 0 !in line.value && NEWLINE !in line.value
  {
    var left := line.key + Repeat(SPACE, line.spaces);
    LeftSide(line.key, line.spaces);
    hide Word, SkipSpaces, LeftKey, Until;
    assert Render(line) + tail == left + ([COLON] + line.value + tail);
    UntilFound(left, COLON, [COLON] + line.value + tail);
  }

  lemma ValueCut(text: bytes, left: bytes, value: bytes, end: bytes)
    requires text == left + ([COLON] + value + end) && NEWLINE !in value && (end == [] || end == [NEWLINE])
    ensures Until(Clip(text, |left| + 1, |left| + 1 + VALUE_MAX), NEWLINE) == Clip(value, 0, VALUE_MAX)
  {
    var got := Clip(text, |left| + 1, |left| + 1 + VALUE_MAX);
    assert text[|left| + 1..] == value + end;
    assert got == Clip(value + end, 0, VALUE_MAX);
    var n := Min(|value|, VALUE_MAX);
    assert got[..n] == value[..n] == Clip(value, 0, VALUE_MAX);
    UntilIs(got, NEWLINE, n);
  }

  // ----- GET reads the document -----

  lemma {:induction false} GetZeros(n: nat, key: bytes)
    ensures Get(Repeat(0, n), key) == None
    decreases n
  {
    var file := Repeat(0, n);
    if n > 0 {
      var line := Fgets(file);
      assert line[0] == file[0];
      assert file[|line|..] == Repeat(0, n - |line|);
      GetZeros(n - |line|, key);
    }
  }

  /** One newline-terminated line is read by one fgets. */
  lemma FgetsLine(shown: bytes, rest: bytes)
    requires NEWLINE !in shown && |shown| < LINE_MAX
    ensures var file := shown + [NEWLINE] + rest;
            Fgets(file) == shown + [NEWLINE] && file[|shown| + 1..] == rest
  {
    var file := shown + [NEWLINE] + rest;
    UntilIs(file, NEWLINE, |shown|);
  }

  lemma GetLast(last: Line, zeros: nat, key: bytes)
    requires LineFits(last)
    ensures Get(Render(last) + Repeat(0, zeros), key) == Lookup([last], key)
  {
    RenderOneLine(last);
    var shown := Render(last);
    var file := shown + Repeat(0, zeros);
    hide Render, LineFits, LineValue;
    if file == [] {
      assert shown == [];
      ValueSeen(last, [], key);
      assert shown + [] == [];
      assert LineValue([], key) == None by {
        hide *;
        NothingInNothing(key);
      }
    } else {
      UntilAbsent(file, NEWLINE);
      var line := Fgets(file);
      var m := |line| - |shown|;
      SplitZeros(shown, zeros, m);
      ValueSeen(last, Repeat(0, m), key);
      GetZeros(zeros - m, key);
    }
  }

  lemma SplitZeros(shown: bytes, zeros: nat, m: nat)
    requires m <= zeros
    ensures var file := shown + Repeat(0, zeros);
            file[..|shown| + m] == shown + Repeat(0, m) && file[|shown| + m..] == Repeat(0, zeros - m)
  {
  }

  lemma NothingInNothing(key: bytes)
    ensures LineValue([], key) == None
  {
  }

  lemma FileStep(d: Document)
    requires d.lines != []
    ensures File(d) == Render(d.lines[0]) + [NEWLINE] + File(d.(lines := d.lines[1..]))
  {
    var rest := Text(d.lines[1..]);
    assert Render(d.lines[0]) + [NEWLINE] + rest + Render(d.last) + Repeat(0, d.zeros)
        == Render(d.lines[0]) + [NEWLINE] + (rest + Render(d.last) + Repeat(0, d.zeros));
  }

  /** GET returns the first setting of the key. */
  lemma {:induction false} GetDocument(d: Document, key: bytes)
    requires WellFormed(d)
    ensures Get(File(d), key) == Lookup(AllLines(d), key)
    decreases |d.lines|
  {
    hide Render, LineValue, LineFits, Fgets;
    if d.lines == [] {
      GetLast(d.last, d.zeros, key);
      assert File(d) == Render(d.last) + Repeat(0, d.zeros);
      assert AllLines(d) == [d.last];
    } else {
      var line, rest := d.lines[0], d.(lines := d.lines[1..]);
      FileStep(d);
      RenderOneLine(line);
      FgetsLine(Render(line), File(rest));
      ValueSeen(line, [NEWLINE], key);
      GetDocument(rest, key);
      assert AllLines(d)[0] == line && AllLines(d)[1..] == AllLines(rest);
    }
  }

  // ----- SET rewrites the document -----

  function Shortfall(size: nat, wanted: nat): nat {
    if size < wanted then wanted - size else 0
  }

  predicate Mentions(lines: seq<Line>, key: bytes) {
    exists l :: l in lines && Has(l, key)
  }

  /** SET before its padding: zeros after an unterminated last line go with the value they follow. */
  function Replaced(d: Document, key: bytes, value: bytes): Document {
    if Mentions(d.lines, key) then d.(lines := Put(d.lines, key, value))
    else if Has(d.last, key) then d.(last := d.last.(value := value), zeros := 0)
    else d
  }

  function Padded(d: Document, size: nat): Document {
    d.(zeros := d.zeros + Shortfall(|File(d)|, size))
  }

  function Updated(d: Document, key: bytes, value: bytes): Document {
    Padded(Replaced(d, key, value), |File(d)|)
  }

  lemma PaddedFile(d: Document, size: nat)
    ensures File(Padded(d, size)) == File(d) + Repeat(0, Shortfall(|File(d)|, size))
  {
    assert Repeat(0, d.zeros) + Repeat(0, Shortfall(|File(d)|, size)) ==
           Repeat(0, d.zeros + Shortfall(|File(d)|, size));
  }

  /** What SET sees of a line. */
  lemma LineRewritten(line: Line, tail: bytes, key: bytes, value: bytes)
    requires LineFits(line) && NEWLINE !in tail && COLON !in tail && (line.Setting? || tail == [] || tail[0] == 0)
    ensures var whole := Render(line) + tail;
            var left := Until(whole, COLON);
            && (|left| < |whole| && LeftKey(left) == key <==> Has(line, key))
            && (Has(line, key) ==> left + [COLON] + value == Render(line.(value := value)))
  {
    var whole := Render(line) + tail;
    if line.Plain? {
      UntilAbsent(whole, COLON);
    } else {
      SettingParts(line, tail);
      hide LeftKey, Until;
    }
  }

  lemma RewrittenLast(last: Line, zeros: nat, key: bytes, value: bytes)
    requires LineFits(last)
    ensures Rewritten(Render(last) + Repeat(0, zeros), key, value) ==
            if Has(last, key) then Some(Render(last.(value := value))) else None
  {
    RenderOneLine(last);
    var file := Render(last) + Repeat(0, zeros);
    LineRewritten(last, Repeat(0, zeros), key, value);
    UntilAbsent(file, NEWLINE);
    if file != [] {
      assert file[|file|..] == [];
      if Has(last, key) {
        var x := Render(last.(value := value));
        assert x + [] == x;
      }
    } else {
      assert Render(last) == [];
    }
  }

  lemma RewrittenLine(line: Line, rest: bytes, key: bytes, value: bytes)
    requires LineFits(line)
    ensures Rewritten(Render(line) + [NEWLINE] + rest, key, value) ==
            if Has(line, key) then Some(Render(line.(value := value)) + [NEWLINE] + rest)
            else After(Render(line) + [NEWLINE], Rewritten(rest, key, value))
  {
    RenderOneLine(line);
    LineRewritten(line, [], key, value);
    var shown := Render(line);
    var file := shown + [NEWLINE] + rest;
    assert shown + [] == shown;
    UntilIs(file, NEWLINE, |shown|);
    assert file[..|shown|] == shown && file[|shown|..] == [NEWLINE] + rest && file[|shown| + 1..] == rest;
    hide LineFits, Until, LeftKey, After;
    if Has(line, key) {
      RegroupLine(Render(line.(value := value)), rest);
    }
  }

  lemma RegroupLine(x: bytes, rest: bytes)
    ensures x + ([NEWLINE] + rest) == x + [NEWLINE] + rest
  {
  }

  lemma MentionsStep(lines: seq<Line>, key: bytes)
    requires lines != []
    ensures Mentions(lines, key) <==> Has(lines[0], key) || Mentions(lines[1..], key)
  {
    if Mentions(lines, key) && !Has(lines[0], key) {
      var l :| l in lines && Has(l, key);
      assert l in lines[1..];
    }
  }

  lemma {:induction false} RewrittenDocument(d: Document, key: bytes, value: bytes)
    requires WellFormed(d)
    ensures Rewritten(File(d), key, value) ==
            if Mentions(d.lines, key) || Has(d.last, key) then Some(File(Replaced(d, key, value))) else None
    decreases |d.lines|
  {
    hide Render, LineFits, Rewritten;
    if d.lines == [] {
      RewrittenLast(d.last, d.zeros, key, value);
      assert File(d) == Render(d.last) + Repeat(0, d.zeros);
      assert File(Replaced(d, key, value)) ==
             Render(Replaced(d, key, value).last) + Repeat(0, Replaced(d, key, value).zeros);
      if Has(d.last, key) {
        var x := Render(d.last.(value := value));
        assert x + Repeat(0, 0) == x;
      }
    } else {
      var line, rest := d.lines[0], d.(lines := d.lines[1..]);
      FileStep(d);
      RewrittenLine(line, File(rest), key, value);
      MentionsStep(d.lines, key);
      RewrittenDocument(rest, key, value);
      var after := Replaced(d, key, value);
      FileStep(after);
      assert after.lines[1..] == if Has(line, key) then rest.lines else Replaced(rest, key, value).lines;
    }
  }

  /** SET, with its padding, produces the file of the updated document. */
  lemma SetDocument(d: Document, key: bytes, value: bytes)
    requires WellFormed(d)
    ensures Set(File(d), key, value) ==
            if Mentions(d.lines, key) || Has(d.last, key) then Some(File(Updated(d, key, value))) else None
  {
    RewrittenDocument(d, key, value);
    PaddedFile(Replaced(d, key, value), |File(d)|);
    hide File, Rewritten, Replaced;
  }

  // ----- get after set -----

  lemma {:induction false} PutLookup(lines: seq<Line>, key: bytes, value: bytes, other: bytes)
    ensures Lookup(Put(lines, key, value), other) ==
            if other == key && Lookup(lines, key).Some? then Some(Clip(value, 0, VALUE_MAX)) else Lookup(lines, other)
  {
    if lines != [] {
      PutLookup(lines[1..], key, value, other);
      assert Put(lines, key, value)[1..] == if Has(lines[0], key) then lines[1..] else Put(lines[1..], key, value);
    }
  }

  lemma {:induction false} LookupMentions(lines: seq<Line>, key: bytes)
    ensures Lookup(lines, key).Some? <==> Mentions(lines, key)
  {
    if lines != [] {
      LookupMentions(lines[1..], key);
      MentionsStep(lines, key);
    }
  }

  lemma MentionsNone(key: bytes)
    ensures !Mentions([], key)
  {
  }

  lemma {:induction false} PutAppend(lines: seq<Line>, last: Line, key: bytes, value: bytes)
    ensures Put(lines + [last], key, value) ==
            if Mentions(lines, key) then Put(lines, key, value) + [last] else lines + Put([last], key, value)
  {
    hide Has, Mentions;
    MentionsNone(key);
    if lines == [] {
      assert lines + [last] == [last];
    } else {
      MentionsStep(lines, key);
      PutAppend(lines[1..], last, key, value);
      assert (lines + [last])[1..] == lines[1..] + [last];
      assert [lines[0]] + (lines[1..] + Put([last], key, value)) == lines + Put([last], key, value);
    }
  }

  lemma UpdatedLines(d: Document, key: bytes, value: bytes)
    ensures AllLines(Updated(d, key, value)) == Put(AllLines(d), key, value)
  {
    PutAppend(d.lines, d.last, key, value);
    hide File;
  }

  /**
   SET of a value that keeps its line within bounds succeeds exactly for the keys GET finds; GET then
   returns that value, every other key reads as before, and the file has not become shorter.
   */
  lemma GetAfterSet(d: Document, key: bytes, value: bytes)
    requires WellFormed(d) && |value| <= VALUE_MAX && WellFormed(Updated(d, key, value))
    ensures Set(File(d), key, value).Some? <==> Get(File(d), key).Some?
    ensures Set(File(d), key, value).Some? ==>
              var file := Set(File(d), key, value).value;
              && file == File(Updated(d, key, value)) && |file| >= |File(d)|
              && Get(file, key) == Some(value)
              && forall other :: other != key ==> Get(file, other) == Get(File(d), other)
  {
    hide File, Set, Get, Lookup, Put, Has, WellFormed;
    var e := Updated(d, key, value);
    SetDocument(d, key, value);
    MentionsLast(d, key);
    LookupMentions(AllLines(d), key);
    GetDocument(d, key);
    UpdatedLines(d, key, value);
    PaddedSize(d, key, value);
    GetDocument(e, key);
    PutLookup(AllLines(d), key, value, key);
    assert Clip(value, 0, VALUE_MAX) == value;
    forall other | other != key
      ensures Get(File(e), other) == Get(File(d), other)
    {
      GetDocument(d, other);
      GetDocument(e, other);
      PutLookup(AllLines(d), key, value, other);
    }
  }

  lemma MentionsLast(d: Document, key: bytes)
    ensures Mentions(AllLines(d), key) <==> Mentions(d.lines, key) || Has(d.last, key)
  {
    if Mentions(d.lines, key) {
      var l :| l in d.lines && Has(l, key);
      assert l in AllLines(d);
    }
    assert d.last in AllLines(d);
  }

  lemma PaddedSize(d: Document, key: bytes, value: bytes)
    ensures |File(Updated(d, key, value))| >= |File(d)|
  {
    PaddedFile(Replaced(d, key, value), |File(d)|);
    hide File, Replaced;
  }
}

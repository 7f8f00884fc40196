/** How uvc.config is cut into lines and settings, by place: what GET reads and what SET replaces. */
module UvcFields {
  import opened Bytes
  import opened CStrings
  import opened UvcConfig

  // ----- words -----

  predicate NoBlank(word: bytes) {
    forall i :: 0 <= i < |word| ==> !IsBlank(word[i])
  }

  /** The longest run without blanks at the start, of at most max bytes. */
  predicate WordAt(s: bytes, max: nat, word: bytes) {
    word <= s && |word| <= max && NoBlank(word) && (|word| == max || |word| == |s| || IsBlank(s[|word|]))
  }

  lemma {:induction false} WordIsAt(s: bytes, max: nat)
    ensures WordAt(s, max, Word(s, max))
    decreases max
  {
    if max > 0 && s != [] && !IsSpace(s[0]) {
      WordIsAt(s[1..], max - 1);
    }
  }

  lemma WordExactly(s: bytes, max: nat, w: bytes)
    ensures Word(s, max) == w <==> WordAt(s, max, w)
  {
    hide Word;
    WordIsAt(s, max);
    var v := Word(s, max);
    if WordAt(s, max, w) {
      assert forall i :: 0 <= i < |v| ==> v[i] == s[i] && !IsBlank(s[i]);
      assert forall i :: 0 <= i < |w| ==> w[i] == s[i] && !IsBlank(s[i]);
    }
  }

  lemma {:induction false} SkipIs(s: bytes) returns (n: nat)
    ensures n <= |s| && BlanksAt(s, n) && SkipSpaces(s) == s[n..]
  {
    if s != [] && IsSpace(s[0]) {
      n := SkipIs(s[1..]);
      n := n + 1;
      assert forall i :: 0 < i < n ==> s[i] == s[1..][i - 1];
    } else {
      n := 0;
    }
  }

  lemma SkipExactly(s: bytes, n: nat)
    requires BlanksAt(s, n)
    ensures n <= |s| && SkipSpaces(s) == s[n..]
  {
    var m := SkipIs(s);
    assert m == n;
  }

  // ----- GET -----

  /**
   The line up to a NUL, its left side up to the colon, the key as the left side's first word of at most 63 bytes,
   and the value as at most 63 bytes after the colon, up to the newline.
   */
  ghost predicate Reads(line: bytes, key: bytes, value: bytes) {
    exists text, left, n: nat ::
      && UpTo(line, 0x00, text) && UpTo(text, 0x3A, left) && |left| < |text|
      && BlanksAt(left, n) && key != [] && WordAt(left[n..], 63, key)
      && UpTo(text[|left| + 1..Min(|left| + 64, |text|)], 0x0A, value)
  }

  /** GET reads a value from a line exactly when the line has the form. */
  lemma LineValueExactly(line: bytes, key: bytes, value: bytes)
    ensures LineValue(line, key) == Some(value) <==> Reads(line, key, value)
  {
    hide Until, SkipSpaces, Word, WordAt, BlanksAt, UpTo;
    var text := Until(line, 0);
    var left := Until(text, 0x3A);
    UntilExactly(line, 0, text);
    UntilExactly(text, 0x3A, left);
    var n := SkipIs(left);
    WordExactly(left[n..], 63, key);
    UntilStops(text, 0x3A);
    if |left| < |text| {
      assert Clip(text, |left| + 1, |left| + 1 + 63) == text[|left| + 1..Min(|left| + 64, |text|)];
      UntilExactly(text[|left| + 1..Min(|left| + 64, |text|)], 0x0A, value);
    }
    forall t, l, m: nat | UpTo(line, 0x00, t) && UpTo(t, 0x3A, l) && |l| < |t| && BlanksAt(l, m)
      ensures t == text && l == left && m <= |l| && l[m..] == left[n..]
    {
      UntilExactly(line, 0, t);
      UntilExactly(t, 0x3A, l);
      SkipExactly(l, m);
    }
  }

  function Concat(pieces: seq<bytes>): bytes {
    if pieces == [] then [] else pieces[0] + Concat(pieces[1..])
  }

  /** A line as fgets delivers it: not empty, at most 127 bytes, a newline nowhere but at its end. */
  predicate Piece(p: bytes) {
    0 < |p| <= 127 && forall i :: 0 <= i < |p| - 1 ==> p[i] != 0x0A
  }

  /** Only the last line may end before a newline or its 127th byte. */
  predicate Pieces(pieces: seq<bytes>) {
    && (forall i :: 0 <= i < |pieces| ==> Piece(pieces[i]))
    && forall i :: 0 <= i < |pieces| - 1 ==> |pieces[i]| == 127 || pieces[i][|pieces[i]| - 1] == 0x0A
  }

  lemma FgetsPiece(p: bytes, rest: bytes)
    requires Piece(p) && (rest == [] || |p| == 127 || p[|p| - 1] == 0x0A)
    ensures Fgets(p + rest) == p
  {
    hide Until;
    var file := p + rest;
    if p[|p| - 1] == 0x0A {
      UntilIs(file, 0x0A, |p| - 1);
    } else {
      UntilExactly(file, 0x0A, Until(file, 0x0A));
      assert forall i :: 0 <= i < |p| ==> file[i] == p[i] != 0x0A;
    }
    assert file[..|p|] == p;
  }

  lemma PiecesTail(pieces: seq<bytes>)
    requires Pieces(pieces) && pieces != []
    ensures Pieces(pieces[1..]) && Piece(pieces[0])
    ensures Concat(pieces[1..]) == [] || |pieces[0]| == 127 || pieces[0][|pieces[0]| - 1] == 0x0A
  {
    hide Piece;
  }

  ghost predicate Silent(line: bytes, key: bytes) {
    forall value :: !Reads(line, key, value)
  }

  /** The value of the first line that has one for the key. */
  ghost predicate First(pieces: seq<bytes>, key: bytes, value: bytes) {
    exists i :: 0 <= i < |pieces| && Reads(pieces[i], key, value) && forall j :: 0 <= j < i ==> Silent(pieces[j], key)
  }

  lemma FirstOf(pieces: seq<bytes>, key: bytes, value: bytes)
    requires pieces != []
    ensures First(pieces, key, value) <==>
            Reads(pieces[0], key, value) || (Silent(pieces[0], key) && First(pieces[1..], key, value))
  {
    hide Reads, Silent;
    if Silent(pieces[0], key) && First(pieces[1..], key, value) {
      var i :| 0 <= i < |pieces[1..]| && Reads(pieces[1..][i], key, value)
               && forall j :: 0 <= j < i ==> Silent(pieces[1..][j], key);
      assert Reads(pieces[i + 1], key, value);
      assert forall j :: 0 < j < i + 1 ==> pieces[j] == pieces[1..][j - 1];
    }
    if First(pieces, key, value) && !Reads(pieces[0], key, value) {
      var i :| 0 <= i < |pieces| && Reads(pieces[i], key, value) && forall j :: 0 <= j < i ==> Silent(pieces[j], key);
      assert Reads(pieces[1..][i - 1], key, value);
      assert forall j :: 0 <= j < i - 1 ==> pieces[1..][j] == pieces[j + 1];
    }
  }

  /** GET, whatever the file: cut into lines as fgets cuts it, the first line that has a value decides. */
  lemma {:induction false} GetExactly(pieces: seq<bytes>, key: bytes, value: bytes)
    requires Pieces(pieces)
    ensures Get(Concat(pieces), key) == Some(value) <==> First(pieces, key, value)
    decreases |pieces|
  {
    hide Reads, LineValue, Fgets, Pieces, Piece, First;
    if pieces == [] {
      NoneFirst(key, value);
    } else {
      PiecesTail(pieces);
      var p, rest := pieces[0], pieces[1..];
      PieceSome(p);
      FgetsPiece(p, Concat(rest));
      var file := Concat(pieces);
      assert file[|p|..] == Concat(rest);
      forall other
        ensures LineValue(p, key) == Some(other) <==> Reads(p, key, other)
      {
        LineValueExactly(p, key, other);
      }
      GetExactly(rest, key, value);
      FirstOf(pieces, key, value);
    }
  }

  lemma NoneFirst(key: bytes, value: bytes)
    ensures !First([], key, value)
  {
  }

  lemma PieceSome(p: bytes)
    requires Piece(p)
    ensures p != []
  {
  }

  /** Every file is cut in this way. */
  lemma {:induction false} EveryFileCut(file: bytes) returns (pieces: seq<bytes>)
    ensures Pieces(pieces) && Concat(pieces) == file
    decreases |file|
  {
    if file == [] {
      pieces := [];
    } else {
      var p := Fgets(file);
      FgetsCut(file);
      var rest := EveryFileCut(file[|p|..]);
      pieces := [p] + rest;
      assert pieces[1..] == rest && file == p + file[|p|..];
      assert rest == [] ==> Concat(rest) == [];
    }
  }

  lemma FgetsCut(file: bytes)
    requires file != []
    ensures var p := Fgets(file);
            Piece(p) && (|p| == |file| || |p| == 127 || p[|p| - 1] == 0x0A)
  {
    hide Until;
    UntilExactly(file, 0x0A, Until(file, 0x0A));
  }

  // ----- SET -----

  /** SET takes the key from the left side without skipping blanks: up to 95 bytes, a NUL or a space. */
  predicate LeftHas(left: bytes, key: bytes) {
    && key <= left && |key| <= 95 && 0x00 !in key && 0x20 !in key
    && (|key| == |left| || |key| == 95 || left[|key|] == 0x00 || left[|key|] == 0x20)
  }

  lemma LeftKeyExactly(left: bytes, key: bytes)
    ensures LeftKey(left) == key <==> LeftHas(left, key)
  {
    hide Until;
    var cut := Clip(left, 0, 95);
    var s := Until(cut, 0);
    UntilExactly(cut, 0, s);
    UntilExactly(s, 0x20, Until(s, 0x20));
    if LeftHas(left, key) {
      assert forall i :: 0 <= i < |key| ==> key[i] == left[i] == cut[i];
      assert key == s[..|key|];
      UntilExactly(s, 0x20, key);
    }
  }

  /** Lines without newlines, separated by newlines. */
  function Lines(lines: seq<bytes>): bytes
    requires lines != []
  {
    if |lines| == 1 then lines[0] else lines[0] + [0x0A] + Lines(lines[1..])
  }

  /** A setting of a key, with the place of its colon. */
  predicate SettingAt(line: bytes, key: bytes, colon: nat) {
    colon < |line| && line[colon] == 0x3A && 0x3A !in line[..colon] && LeftHas(line[..colon], key)
  }

  ghost predicate IsSetting(line: bytes, key: bytes) {
    exists colon: nat :: SettingAt(line, key, colon)
  }

  lemma SettingExactly(line: bytes, key: bytes)
    ensures var left := Until(line, 0x3A);
            IsSetting(line, key) <==> |left| < |line| && SettingAt(line, key, |left|)
    ensures var left := Until(line, 0x3A);
            SettingAt(line, key, |left|) <==> |left| < |line| && LeftKey(left) == key
    ensures forall colon: nat :: SettingAt(line, key, colon) ==> colon == |Until(line, 0x3A)|
  {
    hide Until, LeftHas, LeftKey;
    var left := Until(line, 0x3A);
    UntilExactly(line, 0x3A, left);
    LeftKeyExactly(left, key);
    assert left == line[..|left|];
    forall colon: nat | SettingAt(line, key, colon)
      ensures colon == |left|
    {
      UntilIs(line, 0x3A, colon);
    }
  }

  lemma FirstLine(lines: seq<bytes>)
    requires lines != [] && 0x0A !in lines[0]
    ensures Until(Lines(lines), 0x0A) == lines[0]
    ensures |lines| > 1 ==> Lines(lines)[|lines[0]| + 1..] == Lines(lines[1..])
    ensures |lines| == 1 ==> Lines(lines) == lines[0]
  {
    UntilIs(Lines(lines), 0x0A, |lines[0]|);
  }

  ghost predicate FirstSetting(lines: seq<bytes>, key: bytes, i: nat, colon: nat) {
    && i < |lines| && colon < |lines[i]| && SettingAt(lines[i], key, colon)
    && forall j :: 0 <= j < i ==> !IsSetting(lines[j], key)
  }

  lemma ReplaceFirst(lines: seq<bytes>, x: bytes)
    requires lines != []
    ensures |lines[0]| <= |Lines(lines)| && Lines(lines[0 := x]) == x + Lines(lines)[|lines[0]|..]
  {
    if |lines| > 1 {
      assert lines[0 := x][1..] == lines[1..];
      assert Lines(lines)[|lines[0]|..] == [0x0A] + Lines(lines[1..]);
    }
  }

  lemma ReplaceLater(lines: seq<bytes>, i: nat, x: bytes)
    requires 0 < i < |lines|
    ensures Lines(lines[i := x]) == lines[0] + [0x0A] + Lines(lines[1..][i - 1 := x])
  {
    assert lines[i := x][1..] == lines[1..][i - 1 := x];
  }

  lemma LaterSetting(lines: seq<bytes>, key: bytes, i: nat, colon: nat)
    requires FirstSetting(lines, key, i, colon) && !IsSetting(lines[0], key)
    ensures i > 0 && FirstSetting(lines[1..], key, i - 1, colon)
  {
    hide SettingAt;
    assert i > 0;
    assert forall j :: 0 <= j < |lines| - 1 ==> lines[1..][j] == lines[j + 1];
  }

  lemma FirstReplaced(lines: seq<bytes>, key: bytes, value: bytes)
    requires lines != [] && 0x0A !in lines[0] && IsSetting(lines[0], key)
    ensures Rewritten(Lines(lines), key, value).Some?
    ensures forall i: nat, colon: nat :: FirstSetting(lines, key, i, colon) ==>
              Rewritten(Lines(lines), key, value) == Some(Lines(lines[i := lines[i][..colon + 1] + value]))
  {
    hide LeftKey, Until, LeftHas, IsSetting, Rewritten;
    var file, line := Lines(lines), lines[0];
    FirstLine(lines);
    SettingExactly(line, key);
    assert file[0..] == file && file != [];
    RewrittenStep(file, 0, key, value);
    var left := Until(line, 0x3A);
    forall i: nat, colon: nat | FirstSetting(lines, key, i, colon)
      ensures i == 0 && colon == |left|
    {
    }
    ReplaceFirst(lines, line[..|left| + 1] + value);
    assert line[..|left| + 1] == left + [0x3A];
  }

  lemma OnlyLine(line: bytes, key: bytes, value: bytes)
    requires 0x0A !in line && !IsSetting(line, key)
    ensures Rewritten(line, key, value) == None
  {
    hide LeftKey, Until, SettingAt, IsSetting;
    SettingExactly(line, key);
    UntilAbsent(line, 0x0A);
  }

  lemma NoneFirstSetting(lines: seq<bytes>, key: bytes)
    requires |lines| == 1 && !IsSetting(lines[0], key)
    ensures forall i: nat, colon: nat :: !FirstSetting(lines, key, i, colon)
  {
    hide SettingAt;
  }

  /** SET replaces what follows the colon of the first setting, and finds nothing exactly when there is none. */
  lemma {:induction false} RewrittenExactly(lines: seq<bytes>, key: bytes, value: bytes)
    requires lines != [] && forall i :: 0 <= i < |lines| ==> 0x0A !in lines[i]
    ensures Rewritten(Lines(lines), key, value).None? <==> forall i :: 0 <= i < |lines| ==> !IsSetting(lines[i], key)
    ensures forall i: nat, colon: nat :: FirstSetting(lines, key, i, colon) ==>
              Rewritten(Lines(lines), key, value) == Some(Lines(lines[i := lines[i][..colon + 1] + value]))
    decreases |lines|
  {
    hide LeftKey, Until, SettingAt, IsSetting, LeftHas;
    var file, line, rest := Lines(lines), lines[0], lines[1..];
    FirstLine(lines);
    SettingExactly(line, key);
    if IsSetting(line, key) {
      FirstReplaced(lines, key, value);
    } else if |lines| == 1 {
      OnlyLine(line, key, value);
      NoneFirstSetting(lines, key);
    } else {
      RewrittenStep(file, 0, key, value);
      assert file[0..] == file;
      assert forall i :: 0 < i < |lines| ==> lines[i] == rest[i - 1];
      RewrittenExactly(rest, key, value);
      forall i: nat, colon: nat | FirstSetting(lines, key, i, colon)
        ensures Rewritten(file, key, value) == Some(Lines(lines[i := lines[i][..colon + 1] + value]))
      {
        LaterSetting(lines, key, i, colon);
        ReplaceLater(lines, i, lines[i][..colon + 1] + value);
      }
    }
  }
}

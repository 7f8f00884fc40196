/** The multipart format in bytes: exactly which streams have frames, and which frames they are. */
module MjpegFields {
  import opened Bytes
  import opened CStrings
  import opened Mjpeg

  // ----- lines -----

  /** A line of at most 8192 bytes that ends with its only newline. */
  predicate FullLine(line: bytes) {
    0 < |line| <= 8192 && line[|line| - 1] == 0x0A && 0x0A !in line[..|line| - 1]
  }

  /** What is read before anything else is such a line, when something follows it. */
  lemma LineExactly(data: bytes, line: bytes)
    ensures FullLine(line) && line <= data ==> NextLine(data) == Ok(line)
    ensures NextLine(data) == Ok(line) && line != data ==> FullLine(line) && line <= data
  {
    hide Until;
    var text := Until(data, 0x0A);
    UntilExactly(data, 0x0A, text);
    if FullLine(line) && line <= data {
      assert forall i :: 0 <= i < |line| - 1 ==> data[i] == line[..|line| - 1][i];
      UntilIs(data, 0x0A, |line| - 1);
      assert line == data[..|line|];
    }
    if NextLine(data) == Ok(line) && line != data {
      LineShort(data, line);
      assert line == text + [0x0A];
      assert line[..|line| - 1] == text;
    }
  }

  lemma LineShort(data: bytes, line: bytes)
    requires NextLine(data) == Ok(line) && line != data
    ensures var text := Until(data, 0x0A);
            |text| < |data| && text <= data && line == data[..|text| + 1] && |line| <= 8192
  {
    hide Until;
    UntilStops(data, 0x0A);
    assert data[..|data|] == data;
  }

  /** A line without the line ends after it. */
  predicate Bare(line: bytes, x: bytes) {
    && x <= line && (forall i :: |x| <= i < |line| ==> line[i] == 0x0D || line[i] == 0x0A)
    && (x == [] || (x[|x| - 1] != 0x0D && x[|x| - 1] != 0x0A))
  }

  lemma {:induction false} BareExactly(line: bytes, x: bytes)
    ensures TrimEnd(line) == x <==> Bare(line, x)
    decreases |line|
  {
    if line != [] {
      var last := |line| - 1;
      if line[last] == 0x0D || line[last] == 0x0A {
        BareExactly(line[..last], x);
        assert Bare(line, x) ==> |x| <= last;
      }
    }
  }

  // ----- header lines -----

  /** Without the blanks at both ends. */
  ghost predicate Stripped(s: bytes, r: bytes) {
    exists n: nat :: StrippedAt(s, n, r)
  }

  predicate StrippedAt(s: bytes, n: nat, r: bytes) {
    && BlanksAt(s, n) && n + |r| <= |s| && r == s[n..n + |r|]
    && (forall i :: n + |r| <= i < |s| ==> IsBlank(s[i])) && (r == [] || !IsBlank(r[|r| - 1]))
  }

  lemma {:induction false} LeftIs(s: bytes) returns (n: nat)
    ensures n <= |s| && BlanksAt(s, n) && StripLeft(s) == s[n..]
  {
    if s != [] && IsSpace(s[0]) {
      n := LeftIs(s[1..]);
      n := n + 1;
      assert forall i :: 0 < i < n ==> s[i] == s[1..][i - 1];
    } else {
      n := 0;
    }
  }

  predicate RightAt(s: bytes, r: bytes) {
    r <= s && (forall i :: |r| <= i < |s| ==> IsBlank(s[i])) && (r == [] || !IsBlank(r[|r| - 1]))
  }

  lemma {:induction false} RightExactly(s: bytes, r: bytes)
    ensures StripRight(s) == r <==> RightAt(s, r)
    decreases |s|
  {
    if s != [] && IsSpace(s[|s| - 1]) {
      RightExactly(s[..|s| - 1], r);
      assert RightAt(s, r) ==> |r| < |s|;
    }
  }

  lemma StrippedParts(s: bytes, n: nat, r: bytes)
    ensures StrippedAt(s, n, r) <==> BlanksAt(s, n) && RightAt(s[n..], r)
  {
    if n <= |s| {
      var t := s[n..];
      assert forall i :: n <= i < |s| ==> s[i] == t[i - n];
      assert forall i :: 0 <= i < |t| ==> t[i] == s[i + n];
      if n + |r| <= |s| {
        assert t[..|r|] == s[n..n + |r|];
      }
    }
  }

  lemma BlanksUnique(s: bytes, m: nat, n: nat)
    requires BlanksAt(s, m) && BlanksAt(s, n)
    ensures m == n <= |s|
  {
  }

  lemma StripExactly(s: bytes, r: bytes)
    ensures Strip(s) == r <==> Stripped(s, r)
  {
    hide StripLeft, StripRight, RightAt, BlanksAt, StrippedAt;
    var n := LeftIs(s);
    RightExactly(s[n..], r);
    StrippedParts(s, n, r);
    forall m: nat | StrippedAt(s, m, r)
      ensures m == n
    {
      BlanksWithin(s, m, r);
      StrippedParts(s, m, r);
      BlanksUnique(s, m, n);
    }
  }

  lemma BlanksWithin(s: bytes, m: nat, r: bytes)
    requires StrippedAt(s, m, r)
    ensures m <= |s|
  {
  }

  /** ASCII capitals made small. */
  predicate LowerOf(s: bytes, l: bytes) {
    |s| == |l| && forall i :: 0 <= i < |s| ==> l[i] == if 0x41 <= s[i] <= 0x5A then s[i] + 0x20 else s[i]
  }

  lemma LowerExactly(s: bytes, l: bytes)
    ensures Lower(s) == l <==> LowerOf(s, l)
  {
    var m := Lower(s);
    assert m == l <==> |m| == |l| && forall i :: 0 <= i < |l| ==> m[i] == l[i];
  }

  /** Name and value on either side of the first colon. */
  ghost predicate HeaderOf(line: bytes, name: bytes, value: bytes) {
    exists left, word ::
      && UpTo(line, 0x3A, left) && |left| < |line| && Stripped(left, word) && LowerOf(word, name)
      && Stripped(line[|left| + 1..], value)
  }

  lemma HeaderExactly(headers: Headers, line: bytes) returns (name: bytes, value: bytes)
    requires 0x3A in line
    ensures WithHeader(headers, line) == headers[name := value] && HeaderOf(line, name, value)
    ensures forall n, v :: HeaderOf(line, n, v) ==> n == name && v == value
  {
    hide Until, Strip, Stripped, Lower, LowerOf, UpTo;
    var left := Until(line, 0x3A);
    UntilExactly(line, 0x3A, left);
    UntilStops(line, 0x3A);
    LeftShort(line, left);
    var word := Strip(left);
    name, value := Lower(word), Strip(line[|left| + 1..]);
    StripExactly(left, word);
    LowerExactly(word, name);
    StripExactly(line[|left| + 1..], value);
    assert Clip(line, |left| + 1, |line|) == line[|left| + 1..];
    forall n, v | HeaderOf(line, n, v)
      ensures n == name && v == value
    {
      var l, w :| UpTo(line, 0x3A, l) && |l| < |line| && Stripped(l, w) && LowerOf(w, n)
                  && Stripped(line[|l| + 1..], v);
      UntilExactly(line, 0x3A, l);
      StripExactly(l, w);
      LowerExactly(w, n);
      StripExactly(line[|l| + 1..], v);
    }
  }

  lemma LeftShort(line: bytes, left: bytes)
    requires 0x3A in line && UpTo(line, 0x3A, left)
    ensures |left| < |line|
  {
  }

  /** The value of the last header line with a name. */
  ghost predicate HasLast(lines: seq<bytes>, name: bytes, value: bytes) {
    exists i :: 0 <= i < |lines| && HeaderOf(lines[i], name, value) && NoneNamed(lines[i + 1..], name)
  }

  ghost predicate NoneNamed(lines: seq<bytes>, name: bytes) {
    forall i, v :: 0 <= i < |lines| ==> !HeaderOf(lines[i], name, v)
  }

  lemma LastOfMore(line: bytes, rest: seq<bytes>, name: bytes, value: bytes)
    ensures HasLast([line] + rest, name, value) <==>
            HasLast(rest, name, value) || (HeaderOf(line, name, value) && NoneNamed(rest, name))
  {
    hide HeaderOf, NoneNamed;
    var lines := [line] + rest;
    assert lines[1..] == rest;
    assert forall i :: 0 < i <= |rest| ==> lines[i] == rest[i - 1] && lines[i + 1..] == rest[i..];
    if HasLast(rest, name, value) {
      var i :| 0 <= i < |rest| && HeaderOf(rest[i], name, value) && NoneNamed(rest[i + 1..], name);
      assert lines[i + 1] == rest[i] && lines[i + 2..] == rest[i + 1..];
    }
    if HeaderOf(line, name, value) && NoneNamed(rest, name) {
      assert lines[0] == line && lines[0 + 1..] == rest;
    }
  }

  /** The dictionary has, for each name, the value of the last line of that name, or what it had before. */
  lemma {:induction false} FoldedExactly(headers: Headers, lines: seq<bytes>, name: bytes, value: bytes)
    requires forall l :: l in lines ==> 0x3A in l
    ensures NoneNamed(lines, name) ==>
              (name in Folded(headers, lines) <==> name in headers)
              && (name in headers ==> Folded(headers, lines)[name] == headers[name])
    ensures !NoneNamed(lines, name) ==> name in Folded(headers, lines)
    ensures !NoneNamed(lines, name) ==> (HasLast(lines, name, value) <==> Folded(headers, lines)[name] == value)
    ensures NoneNamed(lines, name) ==> !HasLast(lines, name, value)
    decreases |lines|
  {
    hide HeaderOf, WithHeader;
    if lines != [] {
      var line, rest := lines[0], lines[1..];
      assert line in lines && lines == [line] + rest;
      var n, v := HeaderExactly(headers, line);
      LastOfMore(line, rest, name, value);
      FoldedExactly(WithHeader(headers, line), rest, name, value);
      NoneOfMore(line, rest, name);
    }
  }

  lemma NoneOfMore(line: bytes, rest: seq<bytes>, name: bytes)
    ensures NoneNamed([line] + rest, name) <==> (forall v :: !HeaderOf(line, name, v)) && NoneNamed(rest, name)
  {
    hide HeaderOf;
    var lines := [line] + rest;
    if NoneNamed(lines, name) {
      assert lines[0] == line;
      assert forall i :: 0 <= i < |rest| ==> rest[i] == lines[i + 1];
    }
    if (forall v :: !HeaderOf(line, name, v)) && NoneNamed(rest, name) {
      forall i, v | 0 <= i < |lines|
        ensures !HeaderOf(lines[i], name, v)
      {
        assert i > 0 ==> lines[i] == rest[i - 1];
      }
    }
  }

  // ----- numbers -----

  /** Digits with single underscores between them. */
  predicate DigitString(s: bytes) {
    && s != [] && s[0] != 0x5F && s[|s| - 1] != 0x5F
    && (forall i :: 0 <= i < |s| ==> 0x30 <= s[i] <= 0x39 || s[i] == 0x5F)
    && forall i :: 0 <= i < |s| - 1 ==> s[i] != 0x5F || s[i + 1] != 0x5F
  }

  /** The value read from left to right. */
  function Number(high: nat, s: bytes): nat
    decreases |s|
  {
    if s == [] then high
    else if 0x30 <= s[0] <= 0x39 then Number(10 * high + (s[0] - 0x30), s[1..])
    else Number(high, s[1..])
  }

  lemma {:induction false} NumberLast(high: nat, s: bytes, b: byte)
    ensures Number(high, s + [b]) ==
            if 0x30 <= b <= 0x39 then 10 * Number(high, s) + (b - 0x30) else Number(high, s)
    decreases |s|
  {
    if s == [] {
      assert [] + [b] == [b] && [b][1..] == [];
    } else {
      assert (s + [b])[1..] == s[1..] + [b];
      NumberLast(if 0x30 <= s[0] <= 0x39 then 10 * high + (s[0] - 0x30) else high, s[1..], b);
    }
  }

  /** What is before the last digit, and before the underscore if there is one. */
  function BeforeLast(s: bytes): bytes
    requires |s| > 1
  {
    if s[|s| - 2] == 0x5F then s[..|s| - 2] else s[..|s| - 1]
  }

  lemma NumberStep(s: bytes)
    requires |s| > 1 && 0x30 <= s[|s| - 1] <= 0x39
    ensures Number(0, s) == 10 * Number(0, BeforeLast(s)) + (s[|s| - 1] - 0x30)
  {
    hide Number;
    var init, last := s[..|s| - 1], s[|s| - 1];
    assert s == init + [last];
    NumberLast(0, init, last);
    if s[|s| - 2] == 0x5F {
      assert init == BeforeLast(s) + [0x5F as byte];
      NumberLast(0, BeforeLast(s), 0x5F);
    }
  }

  lemma DigitsStep(s: bytes)
    requires |s| > 1
    ensures DigitString(s) <==> 0x30 <= s[|s| - 1] <= 0x39 && DigitString(BeforeLast(s))
  {
    var t := BeforeLast(s);
    assert forall i :: 0 <= i < |t| ==> t[i] == s[i];
    if DigitString(s) {
      DigitsFall(s, t);
    }
    if 0x30 <= s[|s| - 1] <= 0x39 && DigitString(t) {
      DigitsRise(s, t);
    }
  }

  lemma DigitsFall(s: bytes, t: bytes)
    requires |s| > 1 && t == BeforeLast(s) && DigitString(s)
    ensures 0x30 <= s[|s| - 1] <= 0x39 && DigitString(t)
  {
    assert forall i :: 0 <= i < |t| ==> t[i] == s[i];
    if s[|s| - 2] == 0x5F {
      assert s[0] != 0x5F && |s| > 2;
      var a, b := s[|s| - 3], s[|s| - 3 + 1];
      assert a != 0x5F || b != 0x5F;
    }
  }

  lemma DigitsRise(s: bytes, t: bytes)
    requires |s| > 1 && t == BeforeLast(s) && 0x30 <= s[|s| - 1] <= 0x39 && DigitString(t)
    ensures DigitString(s)
  {
    assert forall i :: 0 <= i < |t| ==> t[i] == s[i];
    forall i | 0 <= i < |s|
      ensures 0x30 <= s[i] <= 0x39 || s[i] == 0x5F
    {
      assert i < |t| ==> s[i] == t[i];
    }
    forall i | 0 <= i < |s| - 1
      ensures s[i] != 0x5F || s[i + 1] != 0x5F
    {
      if i + 1 < |t| {
        assert t[i] == s[i] && t[i + 1] == s[i + 1];
      } else if i < |t| {
        assert t[|t| - 1] == s[|t| - 1];
      }
    }
  }

  lemma {:induction false} DigitsExactly(s: bytes, n: nat)
    ensures Digits(s) == Some(n) <==> DigitString(s) && n == Number(0, s)
    decreases |s|
  {
    if |s| > 1 {
      DigitsStep(s);
      if IsDigit(s[|s| - 1]) {
        NumberStep(s);
      }
      hide DigitString, Number;
      if IsDigit(s[|s| - 1]) {
        DigitsShorter(s);
        var high := Digits(BeforeLast(s));
        if high.Some? {
          DigitsExactly(BeforeLast(s), high.value);
        }
        DigitsExactly(BeforeLast(s), Number(0, BeforeLast(s)));
      }
    } else if |s| == 1 {
      assert s == [s[0]] && s[1..] == [];
      assert Number(0, []) == 0;
    }
  }

  lemma DigitsShorter(s: bytes)
    requires |s| > 1 && 0x30 <= s[|s| - 1] <= 0x39
    ensures Digits(s) == var high := Digits(BeforeLast(s));
                         if high.None? then None else Some(10 * high.value + (s[|s| - 1] - 0x30))
  {
    var init := s[..|s| - 1];
    assert init[..|init| - 1] == s[..|s| - 2] && init[|init| - 1] == s[|s| - 2];
    hide IsDigit;
    assert IsDigit(s[|s| - 1]);
  }

  /** An optional sign and digits. */
  predicate Signed(s: bytes, n: int) {
    if s != [] && s[0] == 0x2B then DigitString(s[1..]) && n == Number(0, s[1..])
    else if s != [] && s[0] == 0x2D then DigitString(s[1..]) && n + Number(0, s[1..]) == 0
    else DigitString(s) && n == Number(0, s)
  }

  lemma DigitsDecide(s: bytes)
    ensures Digits(s).Some? <==> DigitString(s)
    ensures DigitString(s) ==> Digits(s) == Some(Number(0, s))
  {
    hide Digits, DigitString, Number;
    DigitsExactly(s, Number(0, s));
    if Digits(s).Some? {
      DigitsExactly(s, Digits(s).value);
    }
  }

  lemma IntExactly(value: bytes, n: int)
    ensures ParseInt(value) == Some(n) <==> exists s :: Stripped(value, s) && Signed(s, n)
  {
    hide Strip, Stripped, Digits, DigitString, Number;
    var s := Strip(value);
    StripExactly(value, s);
    forall t | Stripped(value, t)
      ensures t == s
    {
      StripExactly(value, t);
    }
    DigitsDecide(s);
    if s != [] {
      DigitsDecide(s[1..]);
    }
  }

  // ----- one part -----

  /** A JPEG of n bytes, from 1 to 2 MiB: the last Content-Type before its parameters, and the last Content-Length. */
  ghost predicate Announces(head: seq<bytes>, n: nat) {
    && (exists kind, main, word :: HasLast(head, Ascii("content-type"), kind) && UpTo(kind, 0x3B, main)
                                   && Stripped(main, word) && LowerOf(word, Ascii("image/jpeg")))
    && (exists length, s :: HasLast(head, Ascii("content-length"), length) && Stripped(length, s) && Signed(s, n))
    && 0 < n <= 0x20_0000
  }

  predicate WithColons(head: seq<bytes>) {
    forall l :: l in head ==> 0x3A in l
  }

  lemma TypeExactly(head: seq<bytes>)
    requires WithColons(head)
    ensures var headers := Folded(map[], head);
            var kind := if Ascii("content-type") in headers then headers[Ascii("content-type")] else [];
            Lower(Strip(Until(kind, 0x3B))) == Ascii("image/jpeg") <==>
            exists kind, main, word :: HasLast(head, Ascii("content-type"), kind) && UpTo(kind, 0x3B, main)
                                       && Stripped(main, word) && LowerOf(word, Ascii("image/jpeg"))
  {
    hide Folded, HasLast, NoneNamed, UpTo, Stripped, Lower, LowerOf, Strip, Until, Ascii;
    var name, jpeg := Ascii("content-type"), Ascii("image/jpeg");
    var headers := Folded(map[], head);
    var kind := if name in headers then headers[name] else [];
    FoldedExactly(map[], head, name, kind);
    var main := Until(kind, 0x3B);
    var word := Strip(main);
    UntilExactly(kind, 0x3B, main);
    StripExactly(main, word);
    LowerExactly(word, jpeg);
    if name !in headers {
      NoKind();
    }
    forall k | HasLast(head, name, k)
      ensures name in headers && k == kind
    {
      FoldedExactly(map[], head, name, k);
    }
    forall m, w | UpTo(kind, 0x3B, m) && Stripped(m, w)
      ensures m == main && w == word
    {
      UntilExactly(kind, 0x3B, m);
      StripExactly(m, w);
    }
  }

  lemma NoKind()
    ensures Lower(Strip(Until([], 0x3B))) != Ascii("image/jpeg")
  {
    assert |Ascii("image/jpeg")| == 10;
  }

  lemma LengthExactly(head: seq<bytes>, n: nat)
    requires WithColons(head)
    ensures var headers := Folded(map[], head);
            (Ascii("content-length") in headers && ParseInt(headers[Ascii("content-length")]) == Some(n as int)) <==>
            exists length, s :: HasLast(head, Ascii("content-length"), length) && Stripped(length, s) && Signed(s, n)
  {
    hide Folded, HasLast, NoneNamed, Stripped, Signed, ParseInt, Ascii;
    var name := Ascii("content-length");
    var headers := Folded(map[], head);
    if name in headers {
      FoldedExactly(map[], head, name, headers[name]);
      IntExactly(headers[name], n);
    }
    forall k | HasLast(head, name, k)
      ensures name in headers && k == headers[name]
    {
      FoldedExactly(map[], head, name, k);
    }
  }

  /** The frame length that headers announce. */
  lemma PartExactly(head: seq<bytes>, n: nat)
    requires WithColons(head)
    ensures PartLength(Folded(map[], head)) == Ok(n) <==> Announces(head, n)
  {
    hide Folded, HasLast, UpTo, Stripped, Signed, ParseInt, Lower, LowerOf, Strip, Until, Ascii;
    TypeExactly(head);
    LengthExactly(head, n);
    var headers := Folded(map[], head);
    if Ascii("content-length") in headers {
      var length := ParseInt(headers[Ascii("content-length")]);
      if length.Some? && 0 < length.value {
        LengthExactly(head, length.value);
      }
    }
  }
}

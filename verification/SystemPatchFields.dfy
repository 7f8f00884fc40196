/** The system patch by numbers: every offset, size and audit of the patched window, and the bytes it ends with. */
module SystemPatchFields {
  import opened Bytes
  import XzStream
  import opened SystemPatch

  // ----- the one copy block -----

  ghost predicate OccursAt(s: bytes, b: bytes, p: nat) {
    p + |b| <= |s| && s[p..p + |b|] == b
  }

  /** The first occurrence is at p, and none starts after its end. */
  ghost predicate OccursOnce(s: bytes, b: bytes, p: nat) {
    && OccursAt(s, b, p)
    && forall q :: 0 <= q < p || p + |b| <= q <= |s| ==> !OccursAt(s, b, q)
  }

  lemma OccursLater(s: bytes, b: bytes, n: nat, q: nat)
    requires n <= q <= |s|
    ensures OccursAt(s, b, q) <==> OccursAt(s[n..], b, q - n)
  {
    if q + |b| <= |s| {
      assert s[n..][q - n..q - n + |b|] == s[q..q + |b|];
    }
  }

  lemma {:induction false} CountNone(s: bytes, b: bytes)
    requires b != []
    ensures Count(s, b) == 0 <==> forall q :: 0 <= q <= |s| ==> !OccursAt(s, b, q)
    decreases |s|
  {
    if |s| >= |b| {
      if b <= s {
        assert OccursAt(s, b, 0);
      } else {
        CountNone(s[1..], b);
        forall q | 1 <= q <= |s|
          ensures OccursAt(s, b, q) <==> OccursAt(s[1..], b, q - 1)
        {
          OccursLater(s, b, 1, q);
        }
        assert !OccursAt(s, b, 0);
        assert forall q :: 0 <= q <= |s| - 1 ==> (OccursAt(s[1..], b, q) <==> OccursAt(s, b, q + 1));
      }
    }
  }

  lemma OnceFirst(s: bytes, b: bytes, p: nat)
    requires b != [] && b <= s && OccursOnce(s, b, p)
    ensures p == 0
  {
    assert OccursAt(s, b, 0);
  }

  /** The copy block is counted once exactly when it occurs once; replacing it then changes that place only. */
  lemma {:induction false} CountOnce(s: bytes, b: bytes, piece: bytes)
    requires b != []
    ensures Count(s, b) == 1 <==> exists p: nat :: OccursOnce(s, b, p)
    ensures forall p: nat :: OccursOnce(s, b, p) ==>
              p + |b| <= |s| && Replace(s, b, piece) == s[..p] + piece + s[p + |b|..]
    decreases |s|
  {
    hide OccursAt, OccursOnce;
    if |s| < |b| {
      TooShort(s, b);
    } else if b <= s {
      FirstHere(s, b, piece);
    } else {
      var rest := s[1..];
      CountOnce(rest, b, piece);
      NotAtStart(s, b);
      forall p: nat
        ensures OccursOnce(s, b, p) <==> p > 0 && OccursOnce(rest, b, p - 1)
      {
        OnceShifts(s, b, p);
      }
      assert forall p: nat :: OccursOnce(rest, b, p) ==> OccursOnce(s, b, p + 1);
      forall p: nat | OccursOnce(s, b, p)
        ensures p + |b| <= |s| && Replace(s, b, piece) == s[..p] + piece + s[p + |b|..]
      {
        OnceFits(s, b, p);
        OnceFits(rest, b, p - 1);
        assert [s[0]] + (rest[..p - 1] + piece + rest[p - 1 + |b|..]) == s[..p] + piece + s[p + |b|..];
      }
    }
  }

  lemma TooShort(s: bytes, b: bytes)
    requires |s| < |b|
    ensures forall p: nat :: !OccursOnce(s, b, p)
  {
  }

  lemma NotAtStart(s: bytes, b: bytes)
    requires |s| >= |b| && !(b <= s)
    ensures !OccursAt(s, b, 0)
  {
  }

  lemma OnceFits(s: bytes, b: bytes, p: nat)
    requires OccursOnce(s, b, p)
    ensures p + |b| <= |s|
  {
  }

  lemma OnceShifts(s: bytes, b: bytes, p: nat)
    requires 0 < |b| <= |s| && !OccursAt(s, b, 0)
    ensures OccursOnce(s, b, p) <==> p > 0 && OccursOnce(s[1..], b, p - 1)
  {
    forall q | 1 <= q <= |s|
      ensures OccursAt(s, b, q) <==> OccursAt(s[1..], b, q - 1)
    {
      OccursLater(s, b, 1, q);
    }
    hide OccursAt;
    assert forall q :: 0 <= q <= |s| - 1 ==> (OccursAt(s[1..], b, q) <==> OccursAt(s, b, q + 1));
  }

  lemma FirstHere(s: bytes, b: bytes, piece: bytes)
    requires b != [] && b <= s
    ensures Count(s, b) == 1 <==> exists p: nat :: OccursOnce(s, b, p)
    ensures forall p: nat :: OccursOnce(s, b, p) ==>
              p + |b| <= |s| && Replace(s, b, piece) == s[..p] + piece + s[p + |b|..]
  {
    var rest := s[|b|..];
    CountNone(rest, b);
    forall q | |b| <= q <= |s|
      ensures OccursAt(s, b, q) <==> OccursAt(rest, b, q - |b|)
    {
      OccursLater(s, b, |b|, q);
    }
    assert OccursAt(s, b, 0);
    assert forall q :: 0 <= q <= |rest| ==> (OccursAt(rest, b, q) <==> OccursAt(s, b, q + |b|));
    if Count(rest, b) == 0 {
      assert OccursOnce(s, b, 0);
      ReplaceNone(rest, b, piece);
      assert s[..0] + piece + rest == piece + rest;
    }
    forall p: nat | OccursOnce(s, b, p)
      ensures p == 0 && Count(rest, b) == 0
    {
      OnceFirst(s, b, p);
    }
  }

  // ----- the new script -----

  /** Byte i of the text that takes the block's place: the visible text, spaces, and a newline. */
  function NewText(block: bytes, visible: bytes, i: nat): byte
    requires i < |block|
  {
    if i < |visible| - 1 then visible[i] else if i < |block| - 1 then 0x20 else 0x0A
  }

  /** Of one length, and the same but for the block's place. */
  predicate NewScript(script: bytes, patched: bytes, p: nat, t: Tools) {
    && |patched| == |script| && p + |t.block| <= |script| && |t.visible| <= |t.block|
    && forall i :: 0 <= i < |script| ==>
                     patched[i] == if p <= i < p + |t.block| then NewText(t.block, t.visible, i - p) else script[i]
  }

  lemma NewScriptExactly(script: bytes, p: nat, t: Tools)
    requires 0 < |t.visible| <= |t.block| && OccursOnce(script, t.block, p)
    ensures NewScript(script, ScriptOf(script, t), p, t)
    ensures forall other: bytes :: NewScript(script, other, p, t) ==> other == ScriptOf(script, t)
  {
    hide Count, Replace;
    CountOnce(script, t.block, Replacement(t.block, t.visible));
    var made := ScriptOf(script, t);
    forall other: bytes | NewScript(script, other, p, t)
      ensures other == made
    {
      assert forall i :: 0 <= i < |script| ==> other[i] == made[i];
    }
  }

  /** What patch_bashrc asks of the script and of what it makes of it. */
  ghost predicate ScriptPasses(script: bytes, patched: bytes, t: Tools) {
    && t.sha(script) == t.reference(StockScript) && t.sha(patched) == t.reference(PatchedScript)
    && exists p: nat :: OccursOnce(script, t.block, p) && NewScript(script, patched, p, t)
  }

  lemma ScriptExactly(script: bytes, patched: bytes, t: Tools)
    requires t.block != [] && t.visible != []
    ensures ScriptAudited(script, t) && patched == ScriptOf(script, t) <==> ScriptPasses(script, patched, t)
  {
    hide Count, ScriptOf, OccursOnce, NewScript;
    CountOnce(script, t.block, []);
    if |t.visible| <= |t.block| {
      forall p: nat | OccursOnce(script, t.block, p)
        ensures NewScript(script, ScriptOf(script, t), p, t)
        ensures forall other: bytes :: NewScript(script, other, p, t) ==> other == ScriptOf(script, t)
      {
        NewScriptExactly(script, p, t);
      }
    }
    forall p: nat | NewScript(script, patched, p, t)
      ensures |t.visible| <= |t.block|
    {
      NewScriptFits(script, patched, p, t);
    }
  }

  lemma NewScriptFits(script: bytes, patched: bytes, p: nat, t: Tools)
    requires NewScript(script, patched, p, t)
    ensures |t.visible| <= |t.block|
  {
  }

  // ----- the fragment and the window -----

  /** The fragment: 100167 bytes with the 5699 bytes of the script at 29000. */
  ghost predicate FragmentPasses(stock: bytes, patched: bytes, t: Tools) {
    && |stock| == |patched| == 100167
    && t.sha(stock) == t.reference(StockFragment) && t.sha(patched) == t.reference(PatchedFragment)
    && ScriptPasses(stock[29000..34699], patched[29000..34699], t)
    && patched[..29000] == stock[..29000] && patched[34699..] == stock[34699..]
  }

  /** Byte i of the patched window: the stream at 0x600, its size at 0x711A, the stock byte elsewhere. */
  function WindowByte(stock: bytes, xz: bytes, i: nat): byte
    requires |stock| == 0x8000 && |xz| == 25564 && i < 0x8000
  {
    if 0x600 <= i < 0x600 + 25564 then
      xz[i - 0x600]
    else if 0x711A <= i < 0x711E then
      [0xDC, 0x63, 0x00, 0x00][i - 0x711A]
    else
      stock[i]
  }

  ghost predicate WindowPasses(stock: bytes, window: bytes, xz: bytes, t: Tools) {
    && |stock| == |window| == 0x8000 && |xz| == 25564
    && t.sha(stock) == t.reference(StockWindow) && t.sha(xz) == t.reference(PatchedXz)
    && t.sha(window) == t.reference(PatchedWindow)
    && forall i :: 0 <= i < 0x8000 ==> window[i] == WindowByte(stock, xz, i)
  }

  /** The eight audits and the sizes, from the stock image to the patched window. */
  ghost predicate PatchPasses(image: bytes, stock: bytes, patched: bytes, window: bytes, t: Tools)
    requires |image| >= 0x46_B000 && Usable(t)
  {
    var stockXz := image[0x46_3600..0x46_3600 + 26268];
    && t.sha(stockXz) == t.reference(StockXz) && t.unxz(stockXz) == Some(stock)
    && FragmentPasses(stock, patched, t)
    && WindowPasses(image[0x46_3000..0x46_B000], window, XzStream.Stream(t.enc(patched), patched), t)
  }

  lemma AuditFits(script: bytes, t: Tools)
    requires t.block != [] && t.visible != [] && ScriptAudited(script, t)
    ensures |t.visible| <= |t.block| && |ScriptOf(script, t)| == |script|
  {
    hide Count, ScriptOf;
    ScriptOfPatched(script, t);
  }

  /** The patched fragment that patch_bashrc's text is put into. */
  ghost predicate FragmentMade(image: bytes, stock: bytes, patched: bytes, t: Tools)
    requires t.block != [] && t.visible != []
  {
    && FragmentAudited(image, t) && t.unxz(StockStream(image)) == Some(stock)
    && |stock| == |patched| == 100167 && |t.visible| <= |t.block| && patched == FragmentOf(stock, t)
  }

  lemma FragmentExactly(image: bytes, stock: bytes, patched: bytes, t: Tools)
    requires |image| >= 0x46_B000 && t.block != [] && t.visible != []
    ensures var stockXz := image[0x46_3600..0x46_3600 + 26268];
            FragmentMade(image, stock, patched, t) <==>
            (t.sha(stockXz) == t.reference(StockXz) && t.unxz(stockXz) == Some(stock)
             && FragmentPasses(stock, patched, t))
  {
    hide ScriptOf, ScriptAudited, ScriptPasses, FragmentOf;
    assert StockStream(image) == image[0x46_3600..0x46_3600 + 26268];
    if FragmentMade(image, stock, patched, t) {
      AuditFits(stock[29000..34699], t);
      FragmentSize(stock, t);
      FragmentParts(stock, patched, t);
      ScriptExactly(stock[29000..34699], patched[29000..34699], t);
    }
    if FragmentPasses(stock, patched, t) {
      ScriptExactly(stock[29000..34699], patched[29000..34699], t);
      AuditFits(stock[29000..34699], t);
      FragmentParts(stock, patched, t);
    }
  }

  lemma FragmentSize(stock: bytes, t: Tools)
    requires |stock| == 100167 && 0 < |t.visible| <= |t.block|
    requires |ScriptOf(stock[29000..34699], t)| == 5699
    ensures |FragmentOf(stock, t)| == 100167
  {
    hide ScriptOf;
  }

  lemma FragmentParts(stock: bytes, patched: bytes, t: Tools)
    requires |stock| == |patched| == 100167 && 0 < |t.visible| <= |t.block|
    ensures patched == FragmentOf(stock, t) <==>
            && patched[29000..34699] == ScriptOf(stock[29000..34699], t)
            && patched[..29000] == stock[..29000] && patched[34699..] == stock[34699..]
  {
    hide ScriptOf;
    assert patched == patched[..29000] + patched[29000..34699] + patched[34699..];
  }

  lemma WindowExactly(stock: bytes, window: bytes, xz: bytes)
    requires |stock| == |window| == 0x8000 && |xz| == 25564
    ensures window == WindowOf(stock, xz) <==> forall i :: 0 <= i < 0x8000 ==> window[i] == WindowByte(stock, xz, i)
  {
    assert Pack32(25564) == [0xDC, 0x63, 0x00, 0x00];
    hide Pack32;
    var made := WindowOf(stock, xz);
    forall i | 0 <= i < 0x8000
      ensures made[i] == WindowByte(stock, xz, i)
    {
    }
  }

  /** What build_system_patch_window makes when it succeeds. */
  ghost predicate WindowMade(image: bytes, stock: bytes, patched: bytes, window: bytes, t: Tools)
    requires |image| >= 0x46_B000 && Usable(t)
  {
    && WindowAudited(image, t) && FragmentMade(image, stock, patched, t)
    && window == NewWindow(image, StockUnpatched, t)
  }

  /** build_system_patch_window succeeds, with a window, exactly when that window and what leads to it pass. */
  lemma PatchExactly(image: bytes, stock: bytes, patched: bytes, window: bytes, t: Tools)
    requires |image| >= 0x46_B000 && Usable(t)
    ensures PatchPasses(image, stock, patched, window, t) <==> WindowMade(image, stock, patched, window, t)
  {
    hide ScriptOf, ScriptAudited, FragmentAudited, FragmentPasses, FragmentOf, WindowOf, XzStream.Stream, WindowByte;
    FragmentExactly(image, stock, patched, t);
    if FragmentMade(image, stock, patched, t) {
      var xz := XzStream.Stream(t.enc(patched), patched);
      StreamIs(image, stock, patched, t);
      if |xz| == 25564 && |window| == 0x8000 {
        WindowExactly(image[0x46_3000..0x46_B000], window, xz);
      }
      if |xz| == 25564 {
        WindowSize(image[0x46_3000..0x46_B000], xz);
      }
    }
  }

  lemma WindowSize(stock: bytes, xz: bytes)
    requires |stock| == 0x8000 && |xz| == 25564
    ensures |WindowOf(stock, xz)| == 0x8000
  {
  }

  lemma StreamIs(image: bytes, stock: bytes, patched: bytes, t: Tools)
    requires Usable(t) && FragmentMade(image, stock, patched, t)
    ensures StreamOf(image, t) == XzStream.Stream(t.enc(patched), patched)
  {
    hide FragmentAudited, FragmentOf, XzStream.Stream;
  }
}

/** The system patch: one script inside the SquashFS fragment is replaced by another of the same length. */
module SystemPatch {
  import opened Bytes
  import XzStream

  const PATCH_START: nat := 0x46_3000
  const PATCH_END: nat := 0x46_B000
  const FRAGMENT_START: nat := 0x46_3600
  const SIZE_FIELD: nat := 0x46_A11A
  const STOCK_XZ_SIZE: nat := 26268
  const PATCHED_XZ_SIZE: nat := 25564
  const FRAGMENT_SIZE: nat := 100167
  const SCRIPT_OFFSET: nat := 29000
  const SCRIPT_SIZE: nat := 5699

  /** The artifacts whose SHA-256 is compared with a reference. */
  datatype Artifact =
    | StockWindow | StockXz | StockFragment | StockScript
    | PatchedScript | PatchedFragment | PatchedXz | PatchedWindow

  /** SHA-256 and the reference hashes, the XZ decompressor, the LZMA2 encoder and the two shell texts. */
  datatype Tools = Tools(
    sha: bytes -> bytes, reference: Artifact -> bytes, unxz: bytes -> Option<bytes>, enc: bytes -> bytes,
    block: bytes, visible: bytes)
  {
    predicate Audited(a: Artifact, x: bytes) {
      sha(x) == reference(a)
    }
  }

  /** Texts that are not empty and two hashes that differ, as in the source; and fragments that fit the format. */
  ghost predicate Usable(t: Tools) {
    && t.block != [] && t.visible != [] && t.reference(StockWindow) != t.reference(PatchedWindow)
    && forall x: bytes :: |x| == FRAGMENT_SIZE ==> XzStream.Encodable(t.enc(x), x)
  }

  // ----- replacing the script text -----

  /** bytes.count: occurrences that do not overlap. */
  function Count(s: bytes, b: bytes): nat
    requires b != []
    decreases |s|
  {
    if |s| < |b| then 0
    else if b <= s then 1 + Count(s[|b|..], b)
    else Count(s[1..], b)
  }

  /** bytes.replace. */
  function Replace(s: bytes, b: bytes, piece: bytes): bytes
    requires b != []
    decreases |s|
  {
    if |s| < |b| then s
    else if b <= s then piece + Replace(s[|b|..], b, piece)
    else [s[0]] + Replace(s[1..], b, piece)
  }

  lemma {:induction false} ReplaceNone(s: bytes, b: bytes, piece: bytes)
    requires b != [] && Count(s, b) == 0
    ensures Replace(s, b, piece) == s
    decreases |s|
  {
    if |s| >= |b| {
      ReplaceNone(s[1..], b, piece);
    }
  }

  /** With one occurrence, replacing changes that place only. */
  lemma {:induction false} ReplaceOne(s: bytes, b: bytes, piece: bytes) returns (p: nat)
    requires b != [] && Count(s, b) == 1
    ensures p + |b| <= |s| && s[p..p + |b|] == b
    ensures Replace(s, b, piece) == s[..p] + piece + s[p + |b|..]
    decreases |s|
  {
    if b <= s {
      p := 0;
      ReplaceNone(s[|b|..], b, piece);
      assert s[..0] + piece + s[|b|..] == piece + s[|b|..];
    } else {
      var q := ReplaceOne(s[1..], b, piece);
      p := q + 1;
      assert s[1..][q..q + |b|] == s[p..p + |b|];
      assert [s[0]] + (s[1..][..q] + piece + s[1..][q + |b|..]) == s[..p] + piece + s[p + |b|..];
    }
  }

  /** The visible text without its newline, spaces, and the newline. */
  function Replacement(block: bytes, visible: bytes): (r: bytes)
    requires 0 < |visible| <= |block|
    ensures |r| == |block|
  {
    visible[..|visible| - 1] + Repeat(0x20, |block| - |visible|) + [0x0A]
  }

  /** One text of the script replaced by another of its length. */
  ghost predicate ScriptPatched(original: bytes, patched: bytes, block: bytes, visible: bytes) {
    && 0 < |visible| <= |block|
    && exists p: nat ::
         && p + |block| <= |original| && original[p..p + |block|] == block
         && patched == Splice(original, p, Replacement(block, visible))
  }

  /** The script with its copy block replaced. */
  function ScriptOf(original: bytes, t: Tools): bytes
    requires 0 < |t.visible| <= |t.block|
  {
    Replace(original, t.block, Replacement(t.block, t.visible))
  }

  /** One copy block, room for the new text, and both audits. */
  predicate ScriptAudited(original: bytes, t: Tools)
    requires t.block != [] && t.visible != []
  {
    && t.Audited(StockScript, original) && Count(original, t.block) == 1 && |t.visible| <= |t.block|
    && t.Audited(PatchedScript, ScriptOf(original, t))
  }

  lemma ScriptOfPatched(original: bytes, t: Tools)
    requires 0 < |t.visible| <= |t.block| && Count(original, t.block) == 1
    ensures ScriptPatched(original, ScriptOf(original, t), t.block, t.visible)
    ensures |ScriptOf(original, t)| == |original|
  {
    hide Count, Replace, Replacement;
    var piece := Replacement(t.block, t.visible);
    var p := ReplaceOne(original, t.block, piece);
    assert ScriptOf(original, t) == Splice(original, p, piece);
  }

  /** patch_bashrc. */
  method PatchBashrc(original: bytes, t: Tools) returns (r: Result<bytes>)
    requires t.block != [] && t.visible != []
    ensures r.Ok? <==> ScriptAudited(original, t)
    ensures r.Ok? ==> r.value == ScriptOf(original, t) && |r.value| == |original|
    ensures r.Ok? ==> ScriptPatched(original, r.value, t.block, t.visible)
  {
    hide Count, Replace, Replacement, ScriptPatched;
    if !t.Audited(StockScript, original) {
      return Err("extracted script failed its stock check");
    }
    if Count(original, t.block) != 1 {
      return Err("stock script does not contain one exact copy block");
    }
    if |t.visible| > |t.block| {
      return Err("internal replacement is too large");
    }
    var piece := Replacement(t.block, t.visible);
    var patched := Replace(original, t.block, piece);
    ScriptOfPatched(original, t);
    if !t.Audited(PatchedScript, patched) {
      return Err("generated script failed its patched check");
    }
    return Ok(patched);
  }

  // ----- the fragment -----

  const SCRIPT_END: nat := SCRIPT_OFFSET + SCRIPT_SIZE

  /** The fragment with its script section patched. */
  ghost predicate FragmentPatched(stock: bytes, patched: bytes, t: Tools) {
    && |stock| == |patched| == FRAGMENT_SIZE
    && ScriptPatched(stock[SCRIPT_OFFSET..SCRIPT_END], patched[SCRIPT_OFFSET..SCRIPT_END], t.block, t.visible)
    && patched[..SCRIPT_OFFSET] == stock[..SCRIPT_OFFSET] && patched[SCRIPT_END..] == stock[SCRIPT_END..]
  }

  function FragmentOf(stock: bytes, t: Tools): bytes
    requires |stock| == FRAGMENT_SIZE && 0 < |t.visible| <= |t.block|
  {
    stock[..SCRIPT_OFFSET] + ScriptOf(stock[SCRIPT_OFFSET..SCRIPT_END], t) + stock[SCRIPT_END..]
  }

  lemma FragmentOfPatched(stock: bytes, t: Tools)
    requires |stock| == FRAGMENT_SIZE && 0 < |t.visible| <= |t.block|
    requires Count(stock[SCRIPT_OFFSET..SCRIPT_END], t.block) == 1
    ensures FragmentPatched(stock, FragmentOf(stock, t), t)
  {
    hide Count, ScriptOf, ScriptPatched;
    var script, patched := ScriptOf(stock[SCRIPT_OFFSET..SCRIPT_END], t), FragmentOf(stock, t);
    ScriptOfPatched(stock[SCRIPT_OFFSET..SCRIPT_END], t);
    assert patched[SCRIPT_OFFSET..SCRIPT_END] == script;
    assert patched[SCRIPT_END..] == stock[SCRIPT_END..] && patched[..SCRIPT_OFFSET] == stock[..SCRIPT_OFFSET];
  }

  /** What is stored where the stock stream lies. */
  function StockStream(image: bytes): bytes {
    Clip(image, FRAGMENT_START, FRAGMENT_START + STOCK_XZ_SIZE)
  }

  /** The stock stream and its content are the audited ones, and so is what the new script makes of it. */
  predicate FragmentAudited(image: bytes, t: Tools)
    requires t.block != [] && t.visible != []
  {
    var stock := t.unxz(StockStream(image));
    && t.Audited(StockXz, StockStream(image))
    && stock.Some? && |stock.value| == FRAGMENT_SIZE && t.Audited(StockFragment, stock.value)
    && ScriptAudited(stock.value[SCRIPT_OFFSET..SCRIPT_END], t)
    && t.Audited(PatchedFragment, FragmentOf(stock.value, t))
  }

  /** The patched fragment, from the stock image. */
  method PatchFragment(image: bytes, t: Tools) returns (r: Result<bytes>)
    requires t.block != [] && t.visible != []
    ensures r.Ok? <==> FragmentAudited(image, t)
    ensures r.Ok? ==> r.value == FragmentOf(t.unxz(StockStream(image)).value, t)
    ensures r.Ok? ==> FragmentPatched(t.unxz(StockStream(image)).value, r.value, t)
  {
    hide Count, ScriptOf, FragmentPatched, ScriptPatched;
    var stockXz := Clip(image, FRAGMENT_START, FRAGMENT_START + STOCK_XZ_SIZE);
    if !t.Audited(StockXz, stockXz) {
      return Err("stock fragment failed its check");
    }
    var unpacked := t.unxz(stockXz);
    if unpacked.None? {
      return Err("stock fragment failed to decompress");
    }
    var fragment := unpacked.value;
    if |fragment| != FRAGMENT_SIZE || !t.Audited(StockFragment, fragment) {
      return Err("stock fragment content is not the audited version");
    }
    var script :- PatchBashrc(fragment[SCRIPT_OFFSET..SCRIPT_END], t);
    var patched := fragment[..SCRIPT_OFFSET] + script + fragment[SCRIPT_END..];
    if !t.Audited(PatchedFragment, patched) {
      return Err("patched fragment failed its content check");
    }
    FragmentOfPatched(fragment, t);
    return Ok(patched);
  }

  // ----- the window -----

  /** Window bytes that the patch may change: the new stream and the size field. */
  predicate InPatch(i: nat, size: nat) {
    FRAGMENT_START <= PATCH_START + i < FRAGMENT_START + size || SIZE_FIELD <= PATCH_START + i < SIZE_FIELD + 4
  }

  /** The stock window with the new stream and its size written into it. */
  predicate WindowPatched(stock: bytes, window: bytes, xz: bytes) {
    && |stock| == |window| == PATCH_END - PATCH_START && |xz| == PATCHED_XZ_SIZE
    && window[FRAGMENT_START - PATCH_START..FRAGMENT_START - PATCH_START + |xz|] == xz
    && Read32(window, SIZE_FIELD - PATCH_START) == |xz|
    && forall i :: 0 <= i < |window| && !InPatch(i, |xz|) ==> window[i] == stock[i]
  }

  function WindowOf(stock: bytes, xz: bytes): bytes
    requires |stock| == PATCH_END - PATCH_START && |xz| == PATCHED_XZ_SIZE
  {
    Splice(Splice(stock, FRAGMENT_START - PATCH_START, xz), SIZE_FIELD - PATCH_START, Pack32(|xz|))
  }

  lemma WindowOfPatched(stock: bytes, xz: bytes)
    requires |stock| == PATCH_END - PATCH_START && |xz| == PATCHED_XZ_SIZE
    ensures WindowPatched(stock, WindowOf(stock, xz), xz)
  {
    hide Read32, Pack32;
    var window := WindowOf(stock, xz);
    var relative, sizeAt := FRAGMENT_START - PATCH_START, SIZE_FIELD - PATCH_START;
    assert window[relative..relative + |xz|] == xz;
    assert window[sizeAt..sizeAt + 4] == Pack32(|xz|);
    ReadPacked32(window, sizeAt, |xz|);
  }

  lemma PutIsSplice(before: bytes, after: bytes, at: nat, piece: bytes)
    requires |before| == |after| && at + |piece| <= |before|
    requires forall k :: 0 <= k < |piece| ==> after[at + k] == piece[k]
    requires forall k :: 0 <= k < |before| && !(at <= k < at + |piece|) ==> after[k] == before[k]
    ensures after == Splice(before, at, piece)
  {
    forall k | 0 <= k < |before|
      ensures after[k] == Splice(before, at, piece)[k]
    {
      if at <= k < at + |piece| {
        assert after[at + (k - at)] == piece[k - at];
      }
    }
  }

  /** Writing the stream and the size into a copy of the window. */
  method WriteWindow(stock: bytes, xz: bytes) returns (window: bytes)
    requires |stock| == PATCH_END - PATCH_START && |xz| == PATCHED_XZ_SIZE
    ensures window == WindowOf(stock, xz) && WindowPatched(stock, window, xz)
  {
    hide Read32, Pack32, WindowPatched, Splice;
    var buffer := new byte[|stock|](i requires 0 <= i < |stock| => stock[i]);
    assert buffer[..] == stock;
    PutAll(buffer, FRAGMENT_START - PATCH_START, xz);
    ghost var streamed := buffer[..];
    PutU32(buffer, SIZE_FIELD - PATCH_START, |xz|);
    window := buffer[..];
    PutIsSplice(streamed, window, SIZE_FIELD - PATCH_START, Pack32(|xz|));
    WindowOfPatched(stock, xz);
  }

  /** The new stream for an image whose fragment passes its audits. */
  ghost function StreamOf(image: bytes, t: Tools): bytes
    requires Usable(t) && FragmentAudited(image, t)
  {
    var patched := FragmentOf(t.unxz(StockStream(image)).value, t);
    FragmentLength(image, t);
    XzStream.Stream(t.enc(patched), patched)
  }

  lemma FragmentLength(image: bytes, t: Tools)
    requires Usable(t) && FragmentAudited(image, t)
    ensures FragmentPatched(t.unxz(StockStream(image)).value, FragmentOf(t.unxz(StockStream(image)).value, t), t)
    ensures |FragmentOf(t.unxz(StockStream(image)).value, t)| == FRAGMENT_SIZE
  {
    hide ScriptOf, Count, XzStream.Encodable, FragmentOf;
    FragmentOfPatched(t.unxz(StockStream(image)).value, t);
  }

  /** Everything that is compared with a reference on the way to the patched window. */
  ghost predicate WindowAudited(image: bytes, t: Tools)
    requires Usable(t) && |image| >= PATCH_END
  {
    && t.Audited(StockWindow, image[PATCH_START..PATCH_END]) && FragmentAudited(image, t)
    && |StreamOf(image, t)| == PATCHED_XZ_SIZE && t.Audited(PatchedXz, StreamOf(image, t))
    && t.Audited(PatchedWindow, WindowOf(image[PATCH_START..PATCH_END], StreamOf(image, t)))
  }

  /** build_system_patch_window: exactly the audits can refuse. */
  method BuildSystemPatchWindow(image: bytes, t: Tools) returns (r: Result<bytes>)
    requires Usable(t) && |image| >= PATCH_END
    ensures r.Ok? <==> WindowAudited(image, t)
    ensures r.Ok? ==>
              var stock, xz := image[PATCH_START..PATCH_END], StreamOf(image, t);
              WindowPatched(stock, r.value, xz) && r.value == WindowOf(stock, xz) && t.Audited(PatchedWindow, r.value)
  {
    hide WindowPatched, XzStream.Encodable, XzStream.Stream, FragmentPatched, FragmentAudited, FragmentOf, WindowOf;
    var stock := image[PATCH_START..PATCH_END];
    if !t.Audited(StockWindow, stock) {
      return Err("refusing to patch a non-stock system window");
    }
    var fragment :- PatchFragment(image, t);
    FragmentLength(image, t);
    var xz := XzStream.BuildSquashfsXzFragment(fragment, t.enc);
    if |xz| != PATCHED_XZ_SIZE || !t.Audited(PatchedXz, xz) {
      return Err("XZ output differs from the audited patched fragment");
    }
    var window := WriteWindow(stock, xz);
    if !t.Audited(PatchedWindow, window) {
      return Err("generated system window failed its audited check");
    }
    return Ok(window);
  }

  // ----- applying it once -----

  datatype SystemState = StockUnpatched | KnownPatched | UnknownSystem

  /** How analyze_image classifies the window. */
  function StateOf(image: bytes, t: Tools): SystemState
    requires |image| >= PATCH_END
  {
    if t.Audited(StockWindow, image[PATCH_START..PATCH_END]) then StockUnpatched
    else if t.Audited(PatchedWindow, image[PATCH_START..PATCH_END]) then KnownPatched
    else UnknownSystem
  }

  /** The window a known state ends with. */
  ghost function NewWindow(image: bytes, state: SystemState, t: Tools): (window: bytes)
    requires Usable(t) && |image| >= PATCH_END
    requires state.KnownPatched? || (state.StockUnpatched? && WindowAudited(image, t))
    ensures |window| == PATCH_END - PATCH_START
  {
    if state.KnownPatched? then image[PATCH_START..PATCH_END]
    else WindowOf(image[PATCH_START..PATCH_END], StreamOf(image, t))
  }

  datatype Applied = Applied(window: bytes, changed: bool)

  /** apply_system_patch. */
  method ApplySystemPatch(image: bytes, state: SystemState, t: Tools) returns (r: Result<Applied>)
    requires Usable(t) && |image| >= PATCH_END
    ensures r.Ok? <==> state.KnownPatched? || (state.StockUnpatched? && WindowAudited(image, t))
    ensures r.Ok? ==> r.value == Applied(NewWindow(image, state, t), state.StockUnpatched?)
    ensures r.Ok? && !r.value.changed ==> Patched(image, r.value.window) == image
    ensures r.Ok? && r.value.changed ==>
              && WindowPatched(image[PATCH_START..PATCH_END], r.value.window, StreamOf(image, t))
              && t.Audited(PatchedWindow, r.value.window)
  {
    hide WindowAudited, StreamOf, Read32;
    if state.KnownPatched? {
      assert Patched(image, image[PATCH_START..PATCH_END]) == image;
      return Ok(Applied(image[PATCH_START..PATCH_END], false));
    }
    if !state.StockUnpatched? {
      return Err("cannot patch this system state");
    }
    var window :- BuildSystemPatchWindow(image, t);
    return Ok(Applied(window, true));
  }

  /** The image with the patched window in it. */
  function Patched(image: bytes, window: bytes): bytes
    requires |image| >= PATCH_END && |window| == PATCH_END - PATCH_START
  {
    Splice(image, PATCH_START, window)
  }

  /** An image with the patched window is classified as patched, so that a second application changes nothing. */
  lemma PatchedOnce(image: bytes, window: bytes, t: Tools)
    requires Usable(t) && t.Audited(PatchedWindow, window)
    requires |image| >= PATCH_END && |window| == PATCH_END - PATCH_START
    ensures StateOf(Patched(image, window), t) == KnownPatched
  {
    assert Patched(image, window)[PATCH_START..PATCH_END] == window;
  }
}

/** The restore's comparisons and the recovery image by offsets. */
module RecoveryFields {
  import opened Bytes
  import opened RestoreGates
  import opened Recovery
  import SystemPatch
  import SystemPatchFields
  import Jffs2Config
  import Jffs2Build
  import Jffs2Minimal

  /** 8 MiB without the word 54 44 50 55 at 0x7F8000. */
  lemma FlashableExactly(image: bytes)
    ensures Flashable(image) <==>
            |image| == 0x80_0000 && image[0x7F_8000..0x7F_8004] != [0x54, 0x44, 0x50, 0x55]
  {
    if |image| == 0x80_0000 {
      var w := image[0x7F_8000..0x7F_8004];
      assert w == [image[0x7F_8000], image[0x7F_8001], image[0x7F_8002], image[0x7F_8003]];
      WordIs(w[0], w[1], w[2], w[3]);
    }
  }

  lemma WordIs(a: byte, b: byte, c: byte, d: byte)
    ensures a as int + 0x100 * b as int + 0x1_0000 * c as int + 0x100_0000 * d as int == 0x5550_4454 <==>
            a == 0x54 && b == 0x44 && c == 0x50 && d == 0x55
  {
  }

  /** Two images of one unit: the same up to the patch window, and from its end up to the config partition. */
  lemma UnitExactly(a: bytes, b: bytes)
    ensures SameUnit(a, b) <==>
            |a| == |b| == 0x80_0000 && a[..0x46_3000] == b[..0x46_3000]
            && a[0x46_B000..0x7E_0000] == b[0x46_B000..0x7E_0000]
  {
    if SameUnit(a, b) {
      assert forall i :: 0 <= i < 0x46_3000 ==> UnitByte(i);
      assert forall i :: 0x46_B000 <= i < 0x7E_0000 ==> UnitByte(i);
    } else if |a| == |b| == 0x80_0000 {
      var i :| 0 <= i < 0x80_0000 && UnitByte(i) && a[i] != b[i];
      if i < 0x46_3000 {
        assert a[..0x46_3000][i] != b[..0x46_3000][i];
      } else {
        assert a[0x46_B000..0x7E_0000][i - 0x46_B000] != b[0x46_B000..0x7E_0000][i - 0x46_B000];
      }
    }
  }

  /** A window that is known to be patched stays; the stock window is patched. */
  ghost predicate NewWindowIs(image: bytes, window: bytes, t: SystemPatch.Tools)
    requires |image| == 0x80_0000 && SystemPatch.Usable(t)
  {
    var found := image[0x46_3000..0x46_B000];
    if t.sha(found) == t.reference(SystemPatch.StockWindow) then
      exists stock, patched :: SystemPatchFields.PatchPasses(image, stock, patched, window, t)
    else t.sha(found) == t.reference(SystemPatch.PatchedWindow) && window == found
  }

  lemma WindowExactly(image: bytes, window: bytes, t: SystemPatch.Tools)
    requires |image| == 0x80_0000 && SystemPatch.Usable(t)
    ensures var state := SystemPatch.StateOf(image, t);
            NewWindowIs(image, window, t) <==>
            (state.KnownPatched? || (state.StockUnpatched? && SystemPatch.WindowAudited(image, t)))
            && window == SystemPatch.NewWindow(image, state, t)
  {
    hide SystemPatch.WindowAudited, SystemPatchFields.PatchPasses, SystemPatch.WindowOf, SystemPatch.StreamOf,
      SystemPatchFields.FragmentMade;
    forall stock, patched
      ensures SystemPatchFields.PatchPasses(image, stock, patched, window, t) <==>
              SystemPatchFields.WindowMade(image, stock, patched, window, t)
    {
      SystemPatchFields.PatchExactly(image, stock, patched, window, t);
    }
    if SystemPatch.WindowAudited(image, t) {
      var stock, patched := AuditedFragment(image, t);
      assert SystemPatchFields.PatchPasses(image, stock, patched, window, t) <==>
             SystemPatchFields.WindowMade(image, stock, patched, window, t);
    }
  }

  /** An audited image has a patched fragment. */
  lemma AuditedFragment(image: bytes, t: SystemPatch.Tools) returns (stock: bytes, patched: bytes)
    requires |image| == 0x80_0000 && SystemPatch.Usable(t) && SystemPatch.WindowAudited(image, t)
    ensures SystemPatchFields.FragmentMade(image, stock, patched, t)
  {
    hide SystemPatch.ScriptOf, SystemPatch.Count, SystemPatch.WindowOf, SystemPatch.StreamOf;
    stock := t.unxz(SystemPatch.StockStream(image)).value;
    patched := SystemPatch.FragmentOf(stock, t);
    SystemPatch.FragmentLength(image, t);
  }

  /** What goes into a recovery image and where it ends up. */
  ghost predicate RecoveryIs(image: bytes, mode: ConfigMode, wipe: bool, ref: Reference, info: Jffs2Config.Info,
                             window: bytes, config: bytes, r: bytes)
    requires SystemPatch.Usable(ref.tools)
  {
    && (wipe ==> mode == SerialOnly) && |image| == 0x80_0000
    && ref.supported(image[..0x46_3000], image[0x46_B000..0x7E_0000])
    && Jffs2Config.Extract(image[0x7E_0000..], wipe || mode == PreserveFiles, mode == PreserveFiles, ref.inflate)
       == Ok(info)
    && NewWindowIs(image, window, ref.tools)
    && Jffs2Minimal.BuildMinimal(info.serial.payload, ref.inflate).Ok?
    && Ok(config) == (match mode
                      case SerialOnly => Jffs2Minimal.BuildMinimal(info.serial.payload, ref.inflate)
                      case PreserveFiles => Jffs2Build.BuildPreserved(FilesOf(info), ref.inflate))
    && r == image[..0x46_3000] + window + image[0x46_B000..0x7E_0000] + config
  }

  lemma RecoveryJoined(image: bytes, window: bytes, config: bytes)
    requires |image| == 0x80_0000 && |window| == 0x8000 && |config| == 0x2_0000
    ensures RestoreGates.Recovery(image, window, config) ==
            image[..0x46_3000] + window + image[0x46_B000..0x7E_0000] + config
  {
  }

  lemma RecoveryMade(image: bytes, mode: ConfigMode, wipe: bool, ref: Reference)
    returns (info: Jffs2Config.Info, window: bytes, config: bytes)
    requires SystemPatch.Usable(ref.tools) && RecoveryOf(image, mode, wipe, ref).Ok?
    ensures RecoveryIs(image, mode, wipe, ref, info, window, config, RecoveryOf(image, mode, wipe, ref).value)
  {
    hide Jffs2Config.Extract, Jffs2Minimal.BuildMinimal, Jffs2Build.BuildPreserved, SystemPatch.WindowAudited,
      SystemPatch.NewWindow, SystemPatch.StateOf, NewWindowIs, RestoreGates.Recovery;
    var a := InputAnalysis(image, mode, wipe, ref).value;
    info := a.info;
    ConfigSize(mode, FilesOf(info), info.serial.payload, ref.inflate);
    config := RebuiltConfig(mode, FilesOf(info), info.serial.payload, ref.inflate).value;
    window := SystemPatch.NewWindow(image, a.state, ref.tools);
    WindowExactly(image, window, ref.tools);
    RecoveryJoined(image, window, config);
  }

  lemma RecoveryGiven(image: bytes, mode: ConfigMode, wipe: bool, ref: Reference, info: Jffs2Config.Info,
                      window: bytes, config: bytes, r: bytes)
    requires SystemPatch.Usable(ref.tools) && RecoveryIs(image, mode, wipe, ref, info, window, config, r)
    ensures RecoveryOf(image, mode, wipe, ref) == Ok(r)
  {
    hide Jffs2Config.Extract, Jffs2Minimal.BuildMinimal, Jffs2Build.BuildPreserved, SystemPatch.WindowAudited,
      SystemPatch.NewWindow, SystemPatch.StateOf, NewWindowIs, RestoreGates.Recovery;
    ConfigSize(mode, FilesOf(info), info.serial.payload, ref.inflate);
    WindowExactly(image, window, ref.tools);
    RecoveryJoined(image, window, config);
  }

  /** build_recovery gives an image if and only if that image is made of the parts that its input calls for. */
  lemma RecoveryExactly(image: bytes, mode: ConfigMode, wipe: bool, ref: Reference, r: bytes)
    requires SystemPatch.Usable(ref.tools)
    ensures RecoveryOf(image, mode, wipe, ref) == Ok(r) <==>
            exists info, window, config :: RecoveryIs(image, mode, wipe, ref, info, window, config, r)
  {
    hide RecoveryIs, RecoveryOf;
    if RecoveryOf(image, mode, wipe, ref) == Ok(r) {
      var info, window, config := RecoveryMade(image, mode, wipe, ref);
    }
    forall info, window, config | RecoveryIs(image, mode, wipe, ref, info, window, config, r)
      ensures RecoveryOf(image, mode, wipe, ref) == Ok(r)
    {
      RecoveryGiven(image, mode, wipe, ref, info, window, config, r);
    }
  }
}

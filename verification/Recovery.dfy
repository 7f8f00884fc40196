/** Building a recovery image from a dump: what the result holds, and why its own validation never fails. */
module Recovery {
  import opened Bytes
  import opened RestoreGates
  import opened Jffs2Config
  import SystemPatch
  import Lists
  import Jffs2Node
  import Jffs2Build
  import Jffs2Compaction
  import Jffs2Minimal
  import Jffs2MinimalRoundTrip
  import Jffs2PhantomScan
  import Jffs2Phantoms

  /** The hash and field checks of everything outside the two windows, the patch tools and zlib. */
  datatype Reference = Reference(supported: (bytes, bytes) -> bool, tools: SystemPatch.Tools, inflate: Inflate)

  datatype Analysis = Analysis(state: SystemPatch.SystemState, info: Info, canonical: bool)

  /** analyze_image: any failed check refuses the image. */
  function AnalysisOf(image: bytes, allowUnknown: bool, preserve: bool, ref: Reference): (r: Result<Analysis>)
    ensures r.Ok? ==> |image| == FLASH_SIZE && !r.value.state.UnknownSystem?
  {
    if |image| != FLASH_SIZE then Err("wrong size")
    else
      var state := SystemPatch.StateOf(image, ref.tools);
      var info := Extract(image[CONFIG_START..], allowUnknown, preserve, ref.inflate);
      if !ref.supported(image[..PATCH_START], image[PATCH_END..CONFIG_START]) || state.UnknownSystem? || info.Err? then
        Err("failed strict validation")
      else
        var canonical :- Jffs2Minimal.BuildMinimal(info.value.serial.payload, ref.inflate);
        Ok(Analysis(state, info.value, image[CONFIG_START..] == canonical))
  }

  function FilesOf(info: Info): seq<ConfigFile> {
    if info.files.Some? then info.files.value else []
  }

  /** How build_recovery has the input analysed. */
  function InputAnalysis(image: bytes, mode: ConfigMode, wipe: bool, ref: Reference): (r: Result<Analysis>)
    ensures r.Ok? ==> |image| == FLASH_SIZE && !r.value.state.UnknownSystem?
  {
    if wipe && mode != SerialOnly then Err("wiping is for the serial-only mode")
    else AnalysisOf(image, wipe || mode == PreserveFiles, mode == PreserveFiles, ref)
  }

  /** The recovery image: the known patched window and the rebuilt partition in place of the input's. */
  ghost function RecoveryOf(image: bytes, mode: ConfigMode, wipe: bool, ref: Reference): Result<bytes>
    requires SystemPatch.Usable(ref.tools)
  {
    var a :- InputAnalysis(image, mode, wipe, ref);
    if a.state.StockUnpatched? && !SystemPatch.WindowAudited(image, ref.tools) then Err("not patched")
    else
      var config :- RebuiltConfig(mode, FilesOf(a.info), a.info.serial.payload, ref.inflate);
      ConfigSize(mode, FilesOf(a.info), a.info.serial.payload, ref.inflate);
      Ok(Recovery(image, SystemPatch.NewWindow(image, a.state, ref.tools), config))
  }

  lemma ConfigSize(mode: ConfigMode, files: seq<ConfigFile>, payload: bytes, inflate: Inflate)
    ensures var r := RebuiltConfig(mode, files, payload, inflate); r.Ok? ==> |r.value| == FLASH_SIZE - CONFIG_START
  {
    hide Jffs2Build.BuildPreserved, Jffs2Minimal.BuildMinimal;
    BuiltConfigErased(files, payload, inflate);
  }

  // ----- the parts of a recovery image -----

  lemma RecoveryParts(image: bytes, window: bytes, config: bytes)
    requires |image| == FLASH_SIZE && |window| == PATCH_END - PATCH_START && |config| == FLASH_SIZE - CONFIG_START
    ensures var r := Recovery(image, window, config);
            && |r| == FLASH_SIZE && r[..PATCH_START] == image[..PATCH_START]
            && r[PATCH_START..PATCH_END] == window && r[PATCH_END..CONFIG_START] == image[PATCH_END..CONFIG_START]
            && r[CONFIG_START..] == config
  {
  }

  lemma PartsDecide(a: bytes, b: bytes)
    requires |a| == |b| == FLASH_SIZE && a[..PATCH_START] == b[..PATCH_START]
    requires a[PATCH_START..PATCH_END] == b[PATCH_START..PATCH_END] && a[CONFIG_START..] == b[CONFIG_START..]
    requires a[PATCH_END..CONFIG_START] == b[PATCH_END..CONFIG_START]
    ensures a == b
  {
    assert a == a[..PATCH_START] + a[PATCH_START..PATCH_END] + a[PATCH_END..CONFIG_START] + a[CONFIG_START..];
    assert b == b[..PATCH_START] + b[PATCH_START..PATCH_END] + b[PATCH_END..CONFIG_START] + b[CONFIG_START..];
  }

  /** The window of a recovery image is known to be patched. */
  lemma WindowKnown(image: bytes, state: SystemPatch.SystemState, t: SystemPatch.Tools)
    requires SystemPatch.Usable(t) && |image| == FLASH_SIZE && state == SystemPatch.StateOf(image, t)
    requires state.KnownPatched? || (state.StockUnpatched? && SystemPatch.WindowAudited(image, t))
    ensures var w := SystemPatch.NewWindow(image, state, t);
            t.Audited(SystemPatch.PatchedWindow, w) && !t.Audited(SystemPatch.StockWindow, w)
  {
    hide SystemPatch.FragmentAudited, SystemPatch.StreamOf, SystemPatch.WindowOf;
  }

  // ----- what is read back -----

  lemma SerialUnique(files: seq<ConfigFile>, p: bytes, q: bytes)
    requires Jffs2Compaction.InOrder(files)
    requires Jffs2Compaction.HasSerial(files, p) && Jffs2Compaction.HasSerial(files, q)
    ensures p == q
  {
    hide ValidSerial, Lists.LexLe;
    var i :| 0 <= i < |files| && files[i].name == SERIAL_NAME && files[i].data == p;
    var j :| 0 <= j < |files| && files[j].name == SERIAL_NAME && files[j].data == q;
    assert i == j;
  }

  /** The rebuilt partition of extracted files gives back the files and the serial. */
  lemma PreservedReadsBack(config: bytes, inflate: Inflate)
    requires Extract(config, true, true, inflate).Ok?
    ensures var info := Extract(config, true, true, inflate).value;
            && info.files.Some?
            && var built := Jffs2Build.BuildPreserved(info.files.value, inflate);
            built.Ok? ==>
              var back := Extract(built.value, true, true, inflate);
              && back.Ok? && back.value.files == info.files
              && back.value.serial.payload == info.serial.payload
              && Lists.Filter(back.value.nodes, Jffs2Build.IsObsolete) == []
  {
    hide ExtractNodes, Jffs2Node.Scan, Jffs2Build.BuildPreserved, Jffs2Compaction.HasSerial, Jffs2Compaction.InOrder,
      Lists.Filter, Lists.Sort;
    Jffs2Compaction.ExtractedFilesAreGood(Jffs2Node.Scan(config, 0), inflate);
    var info := Extract(config, true, true, inflate).value;
    var files := info.files.value;
    Jffs2Compaction.GoodFilesArePackable(files);
    if Jffs2Build.BuildPreserved(files, inflate).Ok? {
      var built := Jffs2Build.BuildPreserved(files, inflate).value;
      Jffs2Compaction.BuiltReadsBack(files, inflate);
      Jffs2Compaction.ExtractedFilesAreGood(Jffs2Node.Scan(built, 0), inflate);
      SerialUnique(files, info.serial.payload, Extract(built, true, true, inflate).value.serial.payload);
    }
  }

  /** The serial-only partition gives back the serial, live and from current nodes only. */
  lemma MinimalReadsBack(payload: bytes, inflate: Inflate)
    requires Jffs2Minimal.BuildMinimal(payload, inflate).Ok?
    ensures var back := Extract(Jffs2Minimal.BuildMinimal(payload, inflate).value, false, false, inflate);
            && back.Ok? && back.value.serial == Serial(payload, false) && back.value.files == None
            && Lists.Filter(back.value.nodes, Jffs2Build.IsObsolete) == []
  {
    hide ValidSerial, Jffs2Node.Scan, Jffs2Minimal.BuildMinimal, Lists.Filter, ExtractNodes, Jffs2Minimal.Minimal;
    SerialOnlyBuilds(payload, inflate);
    Jffs2MinimalRoundTrip.MinimalRoundTrip(payload, inflate);
    Jffs2MinimalRoundTrip.MinimalScans(payload);
    Lists.FilterNone(Jffs2Node.Scan(Jffs2Minimal.Minimal(payload), 0), Jffs2Build.IsObsolete);
  }

  /** What the rebuilt partition of an analysed image gives back. */
  ghost predicate ReadsBack(config: bytes, mode: ConfigMode, info: Info, inflate: Inflate) {
    var back := Extract(config, mode == PreserveFiles, mode == PreserveFiles, inflate);
    && back.Ok? && back.value.files == info.files && back.value.serial.payload == info.serial.payload
    && Lists.Filter(back.value.nodes, Jffs2Build.IsObsolete) == []
    && (mode == SerialOnly ==> !back.value.serial.historical)
  }

  lemma RebuiltReadsBack(config: bytes, mode: ConfigMode, allowUnknown: bool, inflate: Inflate)
    requires mode == PreserveFiles ==> allowUnknown
    requires Extract(config, allowUnknown, mode == PreserveFiles, inflate).Ok?
    ensures var info := Extract(config, allowUnknown, mode == PreserveFiles, inflate).value;
            var rebuilt := RebuiltConfig(mode, FilesOf(info), info.serial.payload, inflate);
            rebuilt.Ok? ==> ReadsBack(rebuilt.value, mode, info, inflate)
  {
    hide Extract, Jffs2Build.BuildPreserved, Jffs2Minimal.BuildMinimal, Lists.Filter;
    var info := Extract(config, allowUnknown, mode == PreserveFiles, inflate).value;
    if mode == PreserveFiles {
      PreservedReadsBack(config, inflate);
    } else {
      NoFiles(config, allowUnknown, inflate);
      if Jffs2Minimal.BuildMinimal(info.serial.payload, inflate).Ok? {
        MinimalReadsBack(info.serial.payload, inflate);
      }
    }
  }

  lemma NoFiles(config: bytes, allowUnknown: bool, inflate: Inflate)
    requires Extract(config, allowUnknown, false, inflate).Ok?
    ensures Extract(config, allowUnknown, false, inflate).value.files == None
  {
    hide Jffs2Node.Scan, RecoverSerial, Collect, Lists.Filter;
  }

  // ----- the main results -----

  /** The recovery image and what went into it. */
  lemma Ingredients(image: bytes, mode: ConfigMode, wipe: bool, ref: Reference)
    returns (a: Analysis, window: bytes, config: bytes)
    requires SystemPatch.Usable(ref.tools) && RecoveryOf(image, mode, wipe, ref).Ok?
    ensures InputAnalysis(image, mode, wipe, ref) == Ok(a) && |image| == FLASH_SIZE
    ensures |window| == PATCH_END - PATCH_START && |config| == FLASH_SIZE - CONFIG_START
    ensures RebuiltConfig(mode, FilesOf(a.info), a.info.serial.payload, ref.inflate) == Ok(config)
    ensures RecoveryOf(image, mode, wipe, ref) == Ok(Recovery(image, window, config))
    ensures ref.tools.Audited(SystemPatch.PatchedWindow, window) && !ref.tools.Audited(SystemPatch.StockWindow, window)
    ensures ref.supported(image[..PATCH_START], image[PATCH_END..CONFIG_START])
    ensures Jffs2Minimal.BuildMinimal(a.info.serial.payload, ref.inflate).Ok?
    ensures ReadsBack(config, mode, a.info, ref.inflate)
  {
    hide Extract, Jffs2Minimal.BuildMinimal, RebuiltConfig, SystemPatch.WindowAudited, SystemPatch.NewWindow, Recovery,
      ReadsBack, SystemPatch.StateOf;
    a := InputAnalysis(image, mode, wipe, ref).value;
    ConfigSize(mode, FilesOf(a.info), a.info.serial.payload, ref.inflate);
    config := RebuiltConfig(mode, FilesOf(a.info), a.info.serial.payload, ref.inflate).value;
    window := SystemPatch.NewWindow(image, a.state, ref.tools);
    WindowKnown(image, a.state, ref.tools);
    RebuiltReadsBack(image[CONFIG_START..], mode, wipe || mode == PreserveFiles, ref.inflate);
  }

  /**
   The generated image always passes the analysis that the builder repeats on it: it is known to be patched, and
   extraction from it gives the files and the serial that were extracted from the input, with nothing obsolete.
   */
  lemma RecoveryRevalidates(image: bytes, mode: ConfigMode, wipe: bool, ref: Reference)
    requires SystemPatch.Usable(ref.tools) && RecoveryOf(image, mode, wipe, ref).Ok?
    ensures var a, r := InputAnalysis(image, mode, wipe, ref).value, RecoveryOf(image, mode, wipe, ref).value;
            var again := AnalysisOf(r, mode == PreserveFiles, mode == PreserveFiles, ref);
            && again.Ok? && again.value.state == SystemPatch.KnownPatched
            && again.value.info.files == a.info.files && again.value.info.serial.payload == a.info.serial.payload
            && Lists.Filter(again.value.info.nodes, Jffs2Build.IsObsolete) == []
            && (mode == SerialOnly ==> again.value.canonical && !again.value.info.serial.historical)
  {
    hide Extract, Jffs2Minimal.BuildMinimal, SystemPatch.WindowAudited, SystemPatch.NewWindow, Recovery, Lists.Filter,
      RecoveryOf, InputAnalysis, Jffs2Build.BuildPreserved;
    var a, window, config := Ingredients(image, mode, wipe, ref);
    RecoveryParts(image, window, config);
  }

  /** Building again from the generated image gives that image. */
  lemma RecoveryIsFixed(image: bytes, mode: ConfigMode, wipe: bool, ref: Reference)
    requires SystemPatch.Usable(ref.tools) && RecoveryOf(image, mode, wipe, ref).Ok?
    ensures var r := RecoveryOf(image, mode, wipe, ref).value;
            RecoveryOf(r, mode, false, ref) == Ok(r)
  {
    hide Extract, Jffs2Minimal.BuildMinimal, SystemPatch.WindowAudited, Recovery, Lists.Filter, AnalysisOf,
      RebuiltConfig;
    var a, window, config := Ingredients(image, mode, wipe, ref);
    var r := Recovery(image, window, config);
    RecoveryParts(image, window, config);
    RecoveryRevalidates(image, mode, wipe, ref);
    RecoveryParts(r, window, config);
    PartsDecide(r, Recovery(r, window, config));
  }

  /** In serial-only mode a recovery image is built exactly when the input is accepted and its window can be patched. */
  lemma SerialOnlyExactly(image: bytes, wipe: bool, ref: Reference)
    requires SystemPatch.Usable(ref.tools)
    ensures var a := InputAnalysis(image, SerialOnly, wipe, ref);
            RecoveryOf(image, SerialOnly, wipe, ref).Ok? <==>
            a.Ok? && (a.value.state.StockUnpatched? ==> SystemPatch.WindowAudited(image, ref.tools))
  {
    hide Extract, Jffs2Minimal.BuildMinimal, SystemPatch.WindowAudited, SystemPatch.NewWindow, Recovery;
  }

  /** In preserve mode the extracted files have to fit besides, with nothing obsolete, and to survive all phantoms. */
  lemma PreserveExactly(image: bytes, ref: Reference)
    requires SystemPatch.Usable(ref.tools)
    ensures var a := InputAnalysis(image, PreserveFiles, false, ref);
            && (a.Ok? ==> a.value.info.files.Some? && Jffs2Build.AllPackable(a.value.info.files.value))
            && (RecoveryOf(image, PreserveFiles, false, ref).Ok? <==>
                && a.Ok? && (a.value.state.StockUnpatched? ==> SystemPatch.WindowAudited(image, ref.tools))
                && var files := a.value.info.files.value;
                && Jffs2Build.FitsFrom(Jffs2Build.PreservedRecords(files), 0)
                && (forall n :: n in Jffs2PhantomScan.Found(files) ==> !Jffs2Build.IsObsolete(n))
                && Jffs2Phantoms.Survives(files, ref.inflate))
  {
    hide Extract, Jffs2Minimal.BuildMinimal, SystemPatch.WindowAudited, SystemPatch.NewWindow, Recovery,
      Jffs2Build.FitsFrom, Jffs2Build.PreservedRecords, Jffs2PhantomScan.Found, Jffs2Phantoms.Survives,
      Jffs2Build.BuildPreserved;
    if InputAnalysis(image, PreserveFiles, false, ref).Ok? {
      Jffs2Phantoms.CompactionDecided(image[CONFIG_START..], ref.inflate);
    }
  }

  /** build_recovery up to the files it writes: exactly the specified image, and no final check ever refuses. */
  method BuildRecovery(image: bytes, mode: ConfigMode, wipe: bool, ref: Reference) returns (r: Result<bytes>)
    requires SystemPatch.Usable(ref.tools)
    ensures r.Ok? <==> RecoveryOf(image, mode, wipe, ref).Ok?
    ensures r.Ok? ==> r.value == RecoveryOf(image, mode, wipe, ref).value
    ensures r.Ok? ==> Flashable(r.value) && SameUnit(r.value, image)
  {
    hide Extract, Jffs2Minimal.BuildMinimal, SystemPatch.WindowAudited, SystemPatch.NewWindow, Recovery, Lists.Filter,
      Flashable, SameUnit, AnalysisOf, RebuiltConfig;
    if wipe && mode != SerialOnly {
      return Err("wiping is for the serial-only mode");
    }
    var preserve := mode == PreserveFiles;
    var analysis :- AnalysisOf(image, wipe || preserve, preserve, ref);
    var applied :- SystemPatch.ApplySystemPatch(image, analysis.state, ref.tools);
    var recovery, config :-
      BuildRegions(image, applied.window, mode, FilesOf(analysis.info), analysis.info.serial.payload, ref.inflate);
    RecoveryParts(image, applied.window, config);
    RecoveryRevalidates(image, mode, wipe, ref);
    if recovery[..PATCH_START] != image[..PATCH_START]
       || recovery[PATCH_END..CONFIG_START] != image[PATCH_END..CONFIG_START]
    {
      return Err("bytes changed outside allowed regions");
    }
    var output := AnalysisOf(recovery, preserve, preserve, ref);
    if output.Err? {
      return Err("generated image failed strict validation");
    }
    if !output.value.state.KnownPatched? {
      return Err("generated image is not in the known patched system state");
    }
    if mode == SerialOnly && !output.value.canonical {
      return Err("generated config is not canonical");
    }
    if recovery[CONFIG_START..] != config {
      return Err("generated config differs from the selected rebuilt partition");
    }
    return Ok(recovery);
  }
}

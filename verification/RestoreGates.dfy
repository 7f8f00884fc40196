/** The image comparisons around a restore, and why a successful restore keeps the unit. */
module RestoreGates {
  import opened Bytes
  import opened Acquire
  import Updater
  import Transfer
  import SystemPatch
  import Lists
  import Jffs2Log
  import Jffs2Config
  import Jffs2Build
  import Jffs2Minimal
  import Jffs2MinimalRoundTrip

  const FLASH_SIZE: nat := Updater.FLASH_SIZE
  const PATCH_START: nat := SystemPatch.PATCH_START
  const PATCH_END: nat := SystemPatch.PATCH_END
  const CONFIG_START: nat := 0x7E_0000
  const UPGRADE_FLAG_OFFSET: nat := 0x7F_8000
  const UPGRADE_FLAG: u32 := 0x5550_4454

  // ----- the gates -----

  /** Full size, and no upgrade word that would make the bootloader loop. */
  predicate Flashable(image: bytes) {
    |image| == FLASH_SIZE && Read32(image, UPGRADE_FLAG_OFFSET) != UPGRADE_FLAG
  }

  /** validate_full_restore_image. */
  method ValidateFullRestoreImage(image: bytes) returns (r: Result<()>)
    ensures r.Ok? <==> Flashable(image)
  {
    if |image| != FLASH_SIZE {
      return Err("full restore requires exactly 8 MiB");
    }
    if Read32(image, UPGRADE_FLAG_OFFSET) == UPGRADE_FLAG {
      return Err("image contains the persistent upgrade magic at 0x7f8000 and would boot-loop");
    }
    return Ok(());
  }

  /** Outside the patch window and below the config partition. */
  predicate UnitByte(i: nat) {
    i < PATCH_START || PATCH_END <= i < CONFIG_START
  }

  predicate SameUnit(a: bytes, b: bytes) {
    |a| == |b| == FLASH_SIZE && forall i :: 0 <= i < FLASH_SIZE && UnitByte(i) ==> a[i] == b[i]
  }

  datatype Verdict = Accepted | WrongSize | Differs(offset: nat)

  /** The first offset from lo up to hi where two images differ. */
  method FirstDifference(a: bytes, b: bytes, lo: nat, hi: nat) returns (at: Option<nat>)
    requires lo <= hi <= |a| && hi <= |b|
    ensures at.None? ==> forall i :: lo <= i < hi ==> a[i] == b[i]
    ensures at.Some? ==> lo <= at.value < hi && a[at.value] != b[at.value] && forall i :: lo <= i < at.value ==>
            a[i] == b[i]
  {
    for i := lo to hi
      invariant forall j :: lo <= j < i ==> a[j] == b[j]
    {
      if a[i] != b[i] {
        return Some(i);
      }
    }
    return None;
  }

  /** validate_replacement_against_backup; a refusal names the first differing offset. */
  method ValidateReplacementAgainstBackup(replacement: bytes, preserved: bytes) returns (v: Verdict)
    ensures v == Accepted <==> SameUnit(replacement, preserved)
    ensures v == WrongSize <==> !(|replacement| == |preserved| == FLASH_SIZE)
    ensures v.Differs? ==>
              && v.offset < CONFIG_START && UnitByte(v.offset) && replacement[v.offset] != preserved[v.offset]
              && forall i :: 0 <= i < v.offset && UnitByte(i) ==> replacement[i] == preserved[i]
  {
    if |replacement| != FLASH_SIZE || |preserved| != FLASH_SIZE {
      return WrongSize;
    }
    var ranges := [(0, PATCH_START), (PATCH_END, CONFIG_START)];
    for k := 0 to 2
      invariant var done := if k == 0 then 0 else if k == 1 then PATCH_END else CONFIG_START;
                forall i :: 0 <= i < done && UnitByte(i) ==> replacement[i] == preserved[i]
    {
      var at := FirstDifference(replacement, preserved, ranges[k].0, ranges[k].1);
      if at.Some? {
        return Differs(at.value);
      }
    }
    return Accepted;
  }

  predicate SameBelowConfig(a: bytes, b: bytes) {
    |a| == |b| == FLASH_SIZE && a[..CONFIG_START] == b[..CONFIG_START]
  }

  /** validate_post_restore_readback: whether the config stayed exact too. */
  method ValidatePostRestoreReadback(expected: bytes, actual: bytes) returns (r: Result<bool>)
    ensures r.Ok? <==> SameBelowConfig(expected, actual)
    ensures r.Ok? ==> (r.value <==> expected == actual)
  {
    if |expected| != FLASH_SIZE || |actual| != FLASH_SIZE {
      return Err("expected image and post-write readback must both be exactly 8 MiB");
    }
    if expected[..CONFIG_START] != actual[..CONFIG_START] {
      return Err("post-write flash readback differs from the replacement image in a boot-stable region");
    }
    assert expected == expected[..CONFIG_START] + expected[CONFIG_START..];
    assert actual == actual[..CONFIG_START] + actual[CONFIG_START..];
    return Ok(expected[CONFIG_START..] == actual[CONFIG_START..]);
  }

  // ----- the restore command -----

  /** What the restore meets outside: prompts, checks of the live system, and flash reads before and after. */
  datatype World = World(
    confirmed: bool, known: bytes -> bool, liveReads: nat -> bytes, prepared: bool,
    online: bool, readback: bytes -> (nat -> bytes))

  /** The transfer itself: the link, the digest function and the device's allocator. */
  datatype Channel = Channel(link: (nat, bytes) -> bytes, md5: Updater.Md5, allocates: bool)

  /** What a series of reads yields to acquire_stable. */
  ghost predicate Yields(read: nat -> bytes, image: bytes) {
    exists k: nat :: FirstStable(read, k) && read(k) == image
  }

  lemma YieldsOne(read: nat -> bytes, a: bytes, b: bytes)
    requires Yields(read, a) && Yields(read, b)
    ensures a == b
  {
    hide EndsRun;
    var k: nat :| FirstStable(read, k) && read(k) == a;
    var m: nat :| FirstStable(read, m) && read(m) == b;
    assert !(k < m) && !(m < k);
  }

  /** prepare_restore: the stable live image must be the unit the backup came from. */
  method PrepareRestore(preserved: bytes, w: World) returns (r: Result<()>)
    ensures r.Ok? <==> w.known(preserved) && w.prepared
                       && exists live :: Yields(w.liveReads, live) && w.known(live) && SameUnit(live, preserved)
  {
    if !w.known(preserved) {
      return Err("image is not supported by the restore preparation");
    }
    var acquired := AcquireStable(w.liveReads);
    if acquired.Err? {
      return Err(acquired.reason);
    }
    var live := acquired.value.image;
    assert Yields(w.liveReads, live);
    var v := ValidateReplacementAgainstBackup(live, preserved);
    forall other | Yields(w.liveReads, other)
      ensures other == live
    {
      YieldsOne(w.liveReads, other, live);
    }
    if !w.known(live) {
      return Err("live image is not supported by the restore preparation");
    }
    if v != Accepted {
      return Err("live image differs from the preserved backup");
    }
    if !w.prepared {
      return Err("the erase size could not be prepared");
    }
    return Ok(());
  }

  /** Every gate before the transfer. */
  ghost predicate ReadyToRestore(image: bytes, backup: bytes, w: World) {
    && Flashable(image) && SameUnit(image, backup) && w.known(backup) && w.confirmed && w.prepared
    && exists live :: Yields(w.liveReads, live) && w.known(live) && SameUnit(live, backup)
  }

  /** The whole image gets through to the device. */
  ghost predicate GetsThrough(image: bytes, ch: Channel)
    requires |image| == FLASH_SIZE
  {
    ch.allocates && Transfer.AllIntact(Transfer.Blob(image, 0, ch.md5), ch.link,
      Transfer.Plan(image, 0, ch.md5).packetCount)
  }

  /** Every gate of a restore; what is read back is what a flash holding the image reads as. */
  ghost predicate AllGatesPass(image: bytes, backup: bytes, w: World, ch: Channel) {
    && ReadyToRestore(image, backup, w) && GetsThrough(image, ch) && w.online
    && exists actual :: Yields(w.readback(image), actual) && SameBelowConfig(image, actual)
  }

  /** The gates before the transfer, in the command's order. */
  method PassGates(image: bytes, backup: bytes, w: World) returns (r: Result<()>)
    ensures r.Ok? <==> ReadyToRestore(image, backup, w)
  {
    hide SameUnit, Flashable, FirstStable;
    var full := ValidateFullRestoreImage(image);
    var unit := ValidateReplacementAgainstBackup(image, backup);
    if full.Err? || unit != Accepted {
      return Err("the image is refused");
    }
    if !w.known(backup) || !w.confirmed {
      return Err("nothing was written");
    }
    r := PrepareRestore(backup, w);
  }

  /** The verification after the transfer. */
  method VerifyReadback(image: bytes, w: World) returns (r: Result<bool>)
    ensures r.Ok? <==> exists actual :: Yields(w.readback(image), actual) && SameBelowConfig(image, actual)
    ensures r.Ok? ==> (r.value <==> Yields(w.readback(image), image))
  {
    hide SameBelowConfig, FirstStable;
    var acquired := AcquireStable(w.readback(image));
    if acquired.Err? {
      return Err(acquired.reason);
    }
    var actual := acquired.value.image;
    assert Yields(w.readback(image), actual);
    forall other | Yields(w.readback(image), other)
      ensures other == actual
    {
      YieldsOne(w.readback(image), other, actual);
    }
    r := ValidatePostRestoreReadback(image, actual);
  }

  /**
   command_restore with the updater at the other end: success means that every gate passed; the flash then
   holds the image, and it is untouched unless the whole image got through.
   */
  method CommandRestore(dev: Updater.Device, image: bytes, backup: bytes, w: World, ch: Channel)
    returns (r: Result<bool>)
    requires dev.Valid() && Transfer.Carries(ch.link)
    modifies dev, dev.stream, dev.flash
    ensures dev.Valid()
    ensures r.Ok? <==> AllGatesPass(image, backup, w, ch)
    ensures r.Ok? ==> (r.value <==> Yields(w.readback(image), image))
    ensures dev.flash[..] == if ReadyToRestore(image, backup, w) && GetsThrough(image, ch) then image
            else old(dev.flash[..])
  {
    hide SameUnit, SameBelowConfig, Flashable, FirstStable, ReadyToRestore, Yields, Transfer.Carries,
      Transfer.AllIntact, Transfer.Blob, Transfer.Plan;
    var gates := PassGates(image, backup, w);
    if gates.Err? {
      return Err(gates.reason);
    }
    ReadySize(image, backup, w);
    var sent := Transfer.Update(dev, image, 0, ch.link, ch.md5, ch.allocates);
    if sent.Err? {
      return Err(sent.reason);
    }
    WholeFlash(old(dev.flash[..]), image);
    if !w.online {
      return Err("write is not post-verified");
    }
    r := VerifyReadback(image, w);
  }

  lemma ReadySize(image: bytes, backup: bytes, w: World)
    requires ReadyToRestore(image, backup, w)
    ensures |image| == FLASH_SIZE
  {
  }

  lemma WholeFlash(flash: bytes, image: bytes)
    requires |flash| == |image|
    ensures Splice(flash, 0, image) == image
  {
  }

  /**
   A restore that reports success keeps the unit: every byte below the config partition outside the patch
   window, the hardware identity included, is the byte read from the live camera before the flag was written.
   */
  lemma RestoreKeepsUnit(image: bytes, backup: bytes, w: World, ch: Channel, live: bytes, actual: bytes)
    requires AllGatesPass(image, backup, w, ch) && Yields(w.liveReads, live) && Yields(w.readback(image), actual)
    ensures SameUnit(live, actual)
  {
    hide GetsThrough;
    var l :| Yields(w.liveReads, l) && SameUnit(l, backup);
    var a :| Yields(w.readback(image), a) && SameBelowConfig(image, a);
    hide Yields, Flashable;
    YieldsOne(w.liveReads, l, live);
    YieldsOne(w.readback(image), a, actual);
    forall i | 0 <= i < FLASH_SIZE && UnitByte(i)
      ensures live[i] == actual[i]
    {
      assert image[i] == image[..CONFIG_START][i] && a[i] == a[..CONFIG_START][i];
    }
  }

  /** An undisturbed restore whose flash is then read as it is reports success with an exact config. */
  lemma PerfectRestore(image: bytes, backup: bytes, w: World, md5: Updater.Md5)
    requires ReadyToRestore(image, backup, w) && w.online && forall k: nat :: w.readback(image)(k) == image
    ensures var ch := Channel((k, report) => report, md5, true);
            Transfer.Carries(ch.link) && AllGatesPass(image, backup, w, ch) && Yields(w.readback(image), image)
  {
    hide ReadyToRestore, Transfer.AllIntact, Transfer.Carries, Transfer.Blob, Transfer.Plan;
    ReadySize(image, backup, w);
    Transfer.PerfectLink(Transfer.Blob(image, 0, md5), Transfer.Plan(image, 0, md5).packetCount);
    SteadyReads(w.readback(image), image);
    assert SameBelowConfig(image, image);
  }

  lemma SteadyReads(read: nat -> bytes, image: bytes)
    requires forall k: nat :: read(k) == image
    ensures Yields(read, image)
  {
    assert FirstStable(read, REQUIRED);
  }

  // ----- builder output -----

  /** The recovery image: the input with its two windows replaced. */
  function Recovery(image: bytes, patched: bytes, config: bytes): bytes
    requires |image| == FLASH_SIZE && |patched| == PATCH_END - PATCH_START && |config| == FLASH_SIZE - CONFIG_START
  {
    Splice(Splice(image, PATCH_START, patched), CONFIG_START, config)
  }

  /** The region assembly in build_recovery; its own check that nothing else changed cannot fail. */
  method AssembleRecovery(image: bytes, patched: bytes, config: bytes) returns (recovery: bytes)
    requires |image| == FLASH_SIZE && |patched| == PATCH_END - PATCH_START && |config| == FLASH_SIZE - CONFIG_START
    ensures recovery == Recovery(image, patched, config)
    ensures recovery[..PATCH_START] == image[..PATCH_START]
    ensures recovery[PATCH_END..CONFIG_START] == image[PATCH_END..CONFIG_START]
    ensures recovery[PATCH_START..PATCH_END] == patched && recovery[CONFIG_START..] == config
  {
    var buffer := new byte[FLASH_SIZE](i requires 0 <= i < FLASH_SIZE => image[i]);
    assert buffer[..] == image;
    PutAll(buffer, PATCH_START, patched);
    PutAll(buffer, CONFIG_START, config);
    recovery := buffer[..];
  }

  datatype ConfigMode = SerialOnly | PreserveFiles

  /** What the selected mode puts into the config partition; the serial-only partition is built in either mode. */
  function RebuiltConfig(mode: ConfigMode, files: seq<Jffs2Config.ConfigFile>, payload: bytes,
                         inflate: Jffs2Config.Inflate)
    : Result<bytes>
  {
    var canonical :- Jffs2Minimal.BuildMinimal(payload, inflate);
    if mode == SerialOnly then Ok(canonical) else Jffs2Build.BuildPreserved(files, inflate)
  }

  /** The region assembly of build_recovery from the patched window and the selected mode. */
  method BuildRegions(image: bytes, patched: bytes, mode: ConfigMode, files: seq<Jffs2Config.ConfigFile>,
                      payload: bytes, inflate: Jffs2Config.Inflate)
    returns (r: Result<bytes>, config: bytes)
    requires |image| == FLASH_SIZE && |patched| == PATCH_END - PATCH_START
    ensures r.Ok? <==> RebuiltConfig(mode, files, payload, inflate).Ok?
    ensures r.Ok? ==>
              && RebuiltConfig(mode, files, payload, inflate) == Ok(config) && |config| == FLASH_SIZE - CONFIG_START
              && r.value == Recovery(image, patched, config) && Flashable(r.value) && SameUnit(r.value, image)
    ensures mode == SerialOnly ==> (r.Ok? <==> Jffs2Config.ValidSerial(payload))
  {
    hide Flashable, SameUnit, Recovery, Jffs2Build.BuildPreserved, Jffs2Minimal.BuildMinimal, Jffs2Config.ValidSerial;
    SerialOnlyBuilds(payload, inflate);
    RecoveryPassesGates(image, patched, files, payload, inflate);
    config := [];
    var canonical :- Jffs2Minimal.BuildMinimalConfig(payload, inflate);
    config := canonical;
    if mode == PreserveFiles {
      config :- Jffs2Build.BuildPreservedConfig(files, inflate);
    }
    var recovery := AssembleRecovery(image, patched, config);
    return Ok(recovery), config;
  }

  /** The serial-only partition is built exactly for valid serials. */
  lemma SerialOnlyBuilds(payload: bytes, inflate: Jffs2Config.Inflate)
    ensures Jffs2Minimal.BuildMinimal(payload, inflate).Ok? <==> Jffs2Config.ValidSerial(payload)
  {
    hide Jffs2Config.ValidSerial, Jffs2Minimal.MinimalCheck;
    if Jffs2Config.ValidSerial(payload) {
      Jffs2MinimalRoundTrip.MinimalRoundTrip(payload, inflate);
    }
  }

  /** A rebuilt config partition: erased from the end of its first block on. */
  predicate ErasedTail(config: bytes) {
    |config| == FLASH_SIZE - CONFIG_START && forall i :: Jffs2Log.ERASEBLOCK <= i < |config| ==> config[i] == 0xFF
  }

  lemma PartitionErased(recs: seq<bytes>)
    requires Jffs2Build.FitsFrom(recs, 0)
    ensures |Jffs2Log.Log(recs)| <= Jffs2Log.CONFIG_SIZE && ErasedTail(Jffs2Log.Partition(recs))
  {
    Jffs2Build.FitsBound(recs, 0);
    hide Jffs2Build.FitsFrom, Jffs2Log.Log;
  }

  /** Whatever either builder returns leaves the blocks after its first erased. */
  lemma BuiltConfigErased(files: seq<Jffs2Config.ConfigFile>, payload: bytes, inflate: Jffs2Config.Inflate)
    ensures var r := Jffs2Build.BuildPreserved(files, inflate); r.Ok? ==> ErasedTail(r.value)
    ensures var r := Jffs2Minimal.BuildMinimal(payload, inflate); r.Ok? ==> ErasedTail(r.value)
  {
    PreservedErased(files, inflate);
    MinimalErased(payload, inflate);
    hide *;
  }

  lemma PreservedErased(files: seq<Jffs2Config.ConfigFile>, inflate: Jffs2Config.Inflate)
    ensures var r := Jffs2Build.BuildPreserved(files, inflate); r.Ok? ==> ErasedTail(r.value)
  {
    hide Jffs2Build.FitsFrom, Jffs2Log.Log, Jffs2Build.PreservedRecords, Jffs2Build.SelfCheck, ErasedTail,
      Jffs2Log.Partition, Jffs2Build.BuilderAccepts, Jffs2Build.AllPackable;
    var r := Jffs2Build.BuildPreserved(files, inflate);
    if r.Ok? {
      var sorted := PreservedSorted(files, inflate);
      PartitionErased(Jffs2Build.PreservedRecords(sorted));
      SelfCheckReturns(Jffs2Log.Partition(Jffs2Build.PreservedRecords(sorted)), sorted, inflate);
    }
  }

  /** The records a successful build wrote. */
  lemma PreservedSorted(files: seq<Jffs2Config.ConfigFile>, inflate: Jffs2Config.Inflate)
    returns (sorted: seq<Jffs2Config.ConfigFile>)
    requires Jffs2Build.BuildPreserved(files, inflate).Ok?
    ensures Jffs2Build.BuilderAccepts(sorted) && Jffs2Build.AllPackable(sorted)
    ensures Jffs2Build.FitsFrom(Jffs2Build.PreservedRecords(sorted), 0)
    ensures |Jffs2Log.Log(Jffs2Build.PreservedRecords(sorted))| <= Jffs2Log.CONFIG_SIZE
    ensures Jffs2Build.BuildPreserved(files, inflate) ==
            Jffs2Build.SelfCheck(Jffs2Log.Partition(Jffs2Build.PreservedRecords(sorted)), sorted, inflate)
  {
    hide Jffs2Build.FitsFrom, Jffs2Log.Log, Jffs2Build.PreservedRecords, Jffs2Build.SelfCheck, Jffs2Log.Partition,
      Jffs2Build.BuilderAccepts, Jffs2Build.AllPackable;
    sorted := Lists.Sort(files, Jffs2Config.FileLe);
    if Jffs2Build.FitsFrom(Jffs2Build.PreservedRecords(sorted), 0) {
      Jffs2Build.FitsBound(Jffs2Build.PreservedRecords(sorted), 0);
    }
  }

  lemma SelfCheckReturns(built: bytes, files: seq<Jffs2Config.ConfigFile>, inflate: Jffs2Config.Inflate)
    requires Jffs2Build.SelfCheck(built, files, inflate).Ok?
    ensures Jffs2Build.SelfCheck(built, files, inflate).value == built
  {
    hide Jffs2Config.Extract;
  }

  lemma MinimalErased(payload: bytes, inflate: Jffs2Config.Inflate)
    ensures var r := Jffs2Minimal.BuildMinimal(payload, inflate); r.Ok? ==> ErasedTail(r.value)
  {
    hide Jffs2Build.FitsFrom, Jffs2Log.Log, Jffs2Minimal.MinimalRecords, Jffs2Log.Partition, ErasedTail,
      Jffs2Config.Extract, Jffs2Config.ValidSerial;
    if Jffs2Config.ValidSerial(payload) {
      Jffs2Minimal.MinimalFits(payload);
      PartitionErased(Jffs2Minimal.MinimalRecords(payload));
    }
  }

  /** No upgrade word can be among erased bytes. */
  lemma ErasedUpgradeWord(image: bytes, patched: bytes, config: bytes)
    requires |image| == FLASH_SIZE && |patched| == PATCH_END - PATCH_START && ErasedTail(config)
    ensures Read32(Recovery(image, patched, config), UPGRADE_FLAG_OFFSET) == 0xFFFF_FFFF
  {
    var r := Recovery(image, patched, config);
    ErasedAt(image, patched, config, UPGRADE_FLAG_OFFSET);
    ErasedAt(image, patched, config, UPGRADE_FLAG_OFFSET + 1);
    ErasedAt(image, patched, config, UPGRADE_FLAG_OFFSET + 2);
    ErasedAt(image, patched, config, UPGRADE_FLAG_OFFSET + 3);
    hide Recovery, ErasedTail;
  }

  lemma ErasedAt(image: bytes, patched: bytes, config: bytes, i: nat)
    requires |image| == FLASH_SIZE && |patched| == PATCH_END - PATCH_START && ErasedTail(config)
    requires CONFIG_START + Jffs2Log.ERASEBLOCK <= i < FLASH_SIZE
    ensures |Recovery(image, patched, config)| == FLASH_SIZE && Recovery(image, patched, config)[i] == 0xFF
  {
  }

  /** In both config modes, the assembled recovery image passes restore's local gates against its own input. */
  lemma RecoveryPassesGates(image: bytes, patched: bytes, files: seq<Jffs2Config.ConfigFile>, payload: bytes,
                            inflate: Jffs2Config.Inflate)
    requires |image| == FLASH_SIZE && |patched| == PATCH_END - PATCH_START
    ensures var r := Jffs2Build.BuildPreserved(files, inflate);
            r.Ok? ==> |r.value| == FLASH_SIZE - CONFIG_START
                      && Flashable(Recovery(image, patched, r.value))
                      && SameUnit(Recovery(image, patched, r.value), image)
    ensures var r := Jffs2Minimal.BuildMinimal(payload, inflate);
            r.Ok? ==> |r.value| == FLASH_SIZE - CONFIG_START
                      && Flashable(Recovery(image, patched, r.value))
                      && SameUnit(Recovery(image, patched, r.value), image)
  {
    hide Jffs2Build.BuildPreserved, Jffs2Minimal.BuildMinimal, Recovery, Read32;
    BuiltConfigErased(files, payload, inflate);
    var preserved, minimal := Jffs2Build.BuildPreserved(files, inflate), Jffs2Minimal.BuildMinimal(payload, inflate);
    if preserved.Ok? {
      ErasedUpgradeWord(image, patched, preserved.value);
      RecoveryKeepsUnit(image, patched, preserved.value);
    }
    if minimal.Ok? {
      ErasedUpgradeWord(image, patched, minimal.value);
      RecoveryKeepsUnit(image, patched, minimal.value);
    }
  }

  lemma RecoveryKeepsUnit(image: bytes, patched: bytes, config: bytes)
    requires |image| == FLASH_SIZE && |patched| == PATCH_END - PATCH_START && |config| == FLASH_SIZE - CONFIG_START
    ensures |Recovery(image, patched, config)| == FLASH_SIZE && SameUnit(Recovery(image, patched, config), image)
  {
  }
}

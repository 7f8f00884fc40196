/** The two config builders: a cleanmarker, then one entry and one inode per file, in the first eraseblock. */
module Jffs2Build {
  import opened Bytes
  import opened Lists
  import opened Jffs2Node
  import opened Jffs2Record
  import opened Jffs2Log
  import opened Jffs2Config

  // ----- what is written for a file -----

  function DirentOf(f: ConfigFile): Body {
    Dirent(1, 1, f.inode, f.direntMctime, f.dtype, f.name)
  }

  function InodeOf(f: ConfigFile): Body
    requires Packable(f)
  {
    Inode(f.inode, 1, f.mode, f.uid, f.gid, |f.data|, f.atime, f.mtime, f.ctime, 0, |f.data|, |f.data|, 0, 0, f.flags,
          f.data)
  }

  /** Whether struct.pack can hold the name and data lengths. */
  predicate Packable(f: ConfigFile) {
    |f.name| <= 255 && |f.data| < 0x1_0000_0000 - 68
  }

  predicate AllPackable(files: seq<ConfigFile>) {
    forall f :: f in files ==> Packable(f)
  }

  function EntryRecord(f: ConfigFile): bytes
    requires Packable(f)
  {
    DirentRecord(DirentOf(f))
  }

  function DataRecord(f: ConfigFile): bytes
    requires Packable(f)
  {
    InodeRecord(InodeOf(f))
  }

  function FileRecords(files: seq<ConfigFile>): seq<bytes>
    requires AllPackable(files)
  {
    if files == [] then []
    else
      assert files[0] in files;
      [EntryRecord(files[0]), DataRecord(files[0])] + FileRecords(files[1..])
  }

  function PreservedRecords(files: seq<ConfigFile>): seq<bytes>
    requires AllPackable(files)
  {
    [CleanRecord()] + FileRecords(files)
  }

  /** Every record ends inside the first eraseblock, each starting where the one before was aligned up. */
  predicate FitsFrom(recs: seq<bytes>, at: nat) {
    recs == [] || (at + |recs[0]| <= ERASEBLOCK && FitsFrom(recs[1..], at + Align4(|recs[0]|)))
  }

  lemma {:induction false} FitsBound(recs: seq<bytes>, at: nat)
    requires FitsFrom(recs, at) && at % 4 == 0 && at <= ERASEBLOCK
    ensures at + |Log(recs)| <= ERASEBLOCK
  {
    if recs != [] {
      FitsBound(recs[1..], at + Align4(|recs[0]|));
    }
  }

  // ----- writing with a moving cursor -----

  lemma {:induction false} LogAppend(a: seq<bytes>, rec: bytes)
    ensures Log(a + [rec]) == Log(a) + Padded(rec)
  {
    if a == [] {
      assert [rec][1..] == [] && a + [rec] == [rec];
      assert Log([rec]) == Padded(rec) + Log([]);
    } else {
      assert (a + [rec])[0] == a[0] && (a + [rec])[1..] == a[1..] + [rec];
      LogAppend(a[1..], rec);
    }
  }

  /** The output after some records: their log, and erased flash after it. */
  ghost predicate Holds(output: bytes, done: seq<bytes>, cursor: nat) {
    |output| == CONFIG_SIZE && cursor == |Log(done)| <= ERASEBLOCK && output == Partition(done)
  }

  lemma SpliceRecord(output: bytes, done: seq<bytes>, cursor: nat, rec: bytes)
    requires Holds(output, done, cursor) && cursor + |rec| <= ERASEBLOCK
    ensures Holds(Splice(output, cursor, rec), done + [rec], cursor + Align4(|rec|))
  {
    hide Log, Splice;
    LogAppend(done, rec);
    assert |Log(done + [rec])| == cursor + Align4(|rec|) <= ERASEBLOCK;
    var after, want := Splice(output, cursor, rec), Partition(done + [rec]);
    assert |after| == |want|;
    forall i | 0 <= i < CONFIG_SIZE
      ensures after[i] == want[i]
    {
      if cursor <= i < cursor + Align4(|rec|) {
        assert want[i] == Padded(rec)[i - cursor];
      }
    }
  }

  lemma AlignAdvances(cursor: nat, n: nat)
    requires cursor % 4 == 0
    ensures Align4(cursor + n) == cursor + Align4(n)
  {
  }

  /** One bounds check, one slice assignment, one cursor step. */
  method WriteNode(output: array<byte>, cursor: nat, rec: bytes, ghost done: seq<bytes>) returns (ok: bool, next: nat)
    requires cursor % 4 == 0 && Holds(output[..], done, cursor)
    modifies output
    ensures ok <==> cursor + |rec| <= ERASEBLOCK
    ensures ok ==> Holds(output[..], done + [rec], next) && next == cursor + Align4(|rec|)
  {
    if cursor + |rec| > ERASEBLOCK {
      return false, cursor;
    }
    assert cursor + |rec| <= output.Length by {
      HoldsMeans(output[..], done, cursor);
    }
    hide Holds, Splice, Align4;
    SpliceRecord(output[..], done, cursor, rec);
    PutAll(output, cursor, rec);
    AlignAdvances(cursor, |rec|);
    return true, Align4(cursor + |rec|);
  }

  lemma FitsPair(a: bytes, b: bytes, rest: seq<bytes>, at: nat)
    ensures FitsFrom([a, b] + rest, at) <==>
            && at + |a| <= ERASEBLOCK && at + Align4(|a|) + |b| <= ERASEBLOCK
            && FitsFrom(rest, at + Align4(|a|) + Align4(|b|))
  {
    var all := [a, b] + rest;
    assert all[1..] == [b] + rest && all[1..][1..] == rest;
  }

  /** The entry and the inode of one file. */
  method WriteFile(output: array<byte>, cursor: nat, f: ConfigFile, ghost done: seq<bytes>)
    returns (ok: bool, next: nat)
    requires Packable(f) && cursor % 4 == 0 && Holds(output[..], done, cursor)
    modifies output
    ensures ok <==> && cursor + |EntryRecord(f)| <= ERASEBLOCK
                    && cursor + Align4(|EntryRecord(f)|) + |DataRecord(f)| <= ERASEBLOCK
    ensures ok ==> && next == cursor + Align4(|EntryRecord(f)|) + Align4(|DataRecord(f)|)
                   && Holds(output[..], done + [EntryRecord(f), DataRecord(f)], next)
  {
    hide Holds, EntryRecord, DataRecord;
    ok, next := WriteNode(output, cursor, EntryRecord(f), done);
    if ok {
      ok, next := WriteNode(output, next, DataRecord(f), done + [EntryRecord(f)]);
      assert done + [EntryRecord(f)] + [DataRecord(f)] == done + [EntryRecord(f), DataRecord(f)];
    }
  }

  lemma FileRecordsStep(files: seq<ConfigFile>, i: nat)
    requires AllPackable(files) && i < |files|
    ensures AllPackable(files[i..]) && AllPackable(files[i + 1..]) && Packable(files[i])
    ensures FileRecords(files[i..]) == [EntryRecord(files[i]), DataRecord(files[i])] + FileRecords(files[i + 1..])
  {
    hide EntryRecord, DataRecord;
    assert files[i] in files && files[i..][0] == files[i] && files[i..][1..] == files[i + 1..];
  }

  lemma MoveDone(done: seq<bytes>, pair: seq<bytes>, rest: seq<bytes>)
    ensures done + (pair + rest) == (done + pair) + rest
  {
  }

  lemma StartDone(files: seq<ConfigFile>)
    requires AllPackable(files)
    ensures files[0..] == files && [] + [CleanRecord()] == [CleanRecord()]
    ensures PreservedRecords(files) == [CleanRecord()] + FileRecords(files)
    ensures FitsFrom(PreservedRecords(files), 0) == FitsFrom(FileRecords(files), Align4(12))
  {
    hide FileRecords, Align4;
    assert PreservedRecords(files)[1..] == FileRecords(files);
  }

  method WriteFiles(files: seq<ConfigFile>) returns (r: Result<bytes>)
    requires AllPackable(files)
    ensures r.Ok? <==> FitsFrom(PreservedRecords(files), 0)
    ensures r.Ok? ==> |Log(PreservedRecords(files))| <= ERASEBLOCK && r.value == Partition(PreservedRecords(files))
  {
    hide CleanRecord, EntryRecord, DataRecord, FileRecords, PreservedRecords, FitsFrom, Holds, Log, Align4, Partition;
    var output: array<byte> := new byte[CONFIG_SIZE](_ => 0xFF);
    EmptyHolds(output[..]);
    StartDone(files);
    var ok, cursor := WriteNode(output, 0, CleanRecord(), []);
    ghost var recs, done := PreservedRecords(files), [CleanRecord()];
    for i := 0 to |files|
      invariant AllPackable(files[i..]) && cursor % 4 == 0
      invariant Holds(output[..], done, cursor)
      invariant recs == done + FileRecords(files[i..])
      invariant FitsFrom(FileRecords(files[i..]), cursor) == FitsFrom(recs, 0)
    {
      FileRecordsStep(files, i);
      ghost var pair, rest := [EntryRecord(files[i]), DataRecord(files[i])], FileRecords(files[i + 1..]);
      FitsPair(pair[0], pair[1], rest, cursor);
      ok, cursor := WriteFile(output, cursor, files[i], done);
      if !ok {
        return Err("preserved config files do not fit");
      }
      MoveDone(done, pair, rest);
      done := done + pair;
    }
    NoMoreFiles(files, done, cursor);
    HoldsMeans(output[..], recs, cursor);
    return Ok(output[..]);
  }

  lemma NoMoreFiles(files: seq<ConfigFile>, done: seq<bytes>, cursor: nat)
    requires AllPackable(files)
    ensures AllPackable(files[|files|..]) && done + FileRecords(files[|files|..]) == done
    ensures FitsFrom(FileRecords(files[|files|..]), cursor)
  {
    assert files[|files|..] == [];
  }

  lemma EmptyHolds(output: bytes)
    requires output == Repeat(0xFF, CONFIG_SIZE)
    ensures Holds(output, [], 0)
  {
  }

  lemma HoldsMeans(output: bytes, done: seq<bytes>, cursor: nat)
    requires Holds(output, done, cursor)
    ensures |output| == CONFIG_SIZE && |Log(done)| <= ERASEBLOCK && output == Partition(done)
  {
  }

  // ----- build_preserved_config -----

  predicate NamesDiffer(files: seq<ConfigFile>) {
    forall i, j :: 0 <= i < j < |files| ==> files[i].name != files[j].name
  }

  predicate IsObsolete(n: Node) {
    n.status.Obsolete?
  }

  predicate BuilderAccepts(files: seq<ConfigFile>) {
    && files != [] && NamesDiffer(files)
    && |Filter(files, IsSerialFile())| == 1 && ValidSerial(Filter(files, IsSerialFile())[0].data)
  }

  /** The final self-check: extraction gives the files back and sees no obsolete node. */
  function SelfCheck(built: bytes, files: seq<ConfigFile>, inflate: Inflate): Result<bytes> {
    var info :- Extract(built, true, true, inflate);
    if info.files.None? || (set f | f in info.files.value) != (set f | f in files) then
      Err("preserve-files JFFS2 round-trip validation failed")
    else if Filter(info.nodes, IsObsolete) != [] then Err("rebuild unexpectedly contains obsolete nodes")
    else Ok(built)
  }

  function BuildPreserved(given: seq<ConfigFile>, inflate: Inflate): Result<bytes> {
    var files := Sort(given, FileLe);
    if !BuilderAccepts(files) then Err("preserve-data mode cannot build from these files")
    else if !AllPackable(files) then Err("struct.error")
    else if !FitsFrom(PreservedRecords(files), 0) then Err("preserved config files do not fit")
    else
      FitsBound(PreservedRecords(files), 0);
      SelfCheck(Partition(PreservedRecords(files)), files, inflate)
  }

  method BuildPreservedConfig(given: seq<ConfigFile>, inflate: Inflate) returns (r: Result<bytes>)
    ensures r == BuildPreserved(given, inflate)
  {
    hide Sort, BuilderAccepts, SelfCheck, FitsFrom, PreservedRecords;
    var files := Sort(given, FileLe);
    if !BuilderAccepts(files) {
      return Err("preserve-data mode cannot build from these files");
    }
    if !AllPackable(files) {
      return Err("struct.error");
    }
    var written := WriteFiles(files);
    if written.Err? {
      return Err("preserved config files do not fit");
    }
    return SelfCheck(written.value, files, inflate);
  }

  lemma CheckPassed(built: bytes, files: seq<ConfigFile>, inflate: Inflate)
    requires SelfCheck(built, files, inflate).Ok?
    ensures SelfCheck(built, files, inflate) == Ok(built)
    ensures var back := Extract(built, true, true, inflate);
            && back.Ok? && back.value.files.Some? && (set f | f in back.value.files.value) == (set f | f in files)
            && Filter(back.value.nodes, IsObsolete) == []
  {
    hide Extract, Filter;
  }

  lemma SameFiles(back: seq<ConfigFile>, files: seq<ConfigFile>, given: seq<ConfigFile>)
    requires (set f | f in back) == (set f | f in files) && multiset(files) == multiset(given)
    ensures forall f :: f in back <==> f in given
  {
    var a, b := set f | f in back, set f | f in files;
    forall f
      ensures f in back <==> f in given
    {
      assert f in back <==> f in a;
      assert f in files <==> f in b;
      assert a == b;
      assert multiset(files)[f] == multiset(given)[f];
      assert f in files <==> multiset(files)[f] > 0;
      assert f in given <==> multiset(given)[f] > 0;
    }
  }
}

/** Why the no-phantom condition is needed: a live file can embed bytes that the scan takes for a node. */
module Jffs2Phantom {
  import opened Bytes
  import opened Lists
  import Crc32
  import opened Jffs2Node
  import opened Jffs2Record
  import opened Jffs2Log
  import opened Jffs2Config
  import opened Jffs2Build
  import opened Jffs2Compaction

  /** One obsolete phantom anywhere in the rebuilt partition makes the builder refuse. */
  lemma ObsoletePhantomRefused(given: seq<ConfigFile>, o: nat, inflate: Inflate)
    requires var files := Sort(given, FileLe);
             AllPackable(files) && FitsFrom(PreservedRecords(files), 0)
    requires var built := RebuiltPartition(Sort(given, FileLe));
             && o % 4 == 0 && o + 12 <= |built|
             && ParseAt(built, o).Some? && ParseAt(built, o).value.status.Obsolete?
    ensures BuildPreserved(given, inflate).Err?
  {
    hide ParseAt, BuilderAccepts, FitsFrom, PreservedRecords, Sort, ExtractNodes;
    var files := Sort(given, FileLe);
    var built := RebuiltPartition(files);
    var n := ParseAt(built, o).value;
    ScanFinds(built, 0, o);
    FilterMembers(Scan(built, 0), IsObsolete);
    assert n in Filter(Scan(built, 0), IsObsolete);
    if SelfCheck(built, files, inflate).Ok? {
      ExtractedNodes(built, inflate);
    }
  }

  lemma ExtractedNodes(config: bytes, inflate: Inflate)
    requires Extract(config, true, true, inflate).Ok?
    ensures Extract(config, true, true, inflate).value.nodes == Scan(config, 0)
  {
    hide Scan, Collect, RecoverSerial, Reconstruct, WithSerial;
  }

  /** The first eight bytes of a cleanmarker, with the accurate bit and without. */
  const LIVE_HEADER: bytes := [0x85, 0x19, 0x03, 0x20, 12, 0, 0, 0]
  const DEAD_HEADER: bytes := [0x85, 0x19, 0x03, 0x00, 12, 0, 0, 0]

  /** A cleanmarker whose accurate bit has been cleared: twelve bytes any file may contain. */
  function ObsoleteClean(): (r: bytes)
    ensures |r| == 12
  {
    DEAD_HEADER + CrcOf(LIVE_HEADER)
  }

  lemma HeaderCrcsDiffer()
    ensures CrcOf(LIVE_HEADER) != CrcOf(DEAD_HEADER)
  {
    hide Crc32.Stored, Crc32.Jffs2;
    assert LIVE_HEADER == [0x85, 0x19, 0x03] + [0x20] + [12, 0, 0, 0];
    assert DEAD_HEADER == [0x85, 0x19, 0x03] + [0x00] + [12, 0, 0, 0];
    Crc32.OneByteChangesCrc([0x85, 0x19, 0x03], 0x20, 0x00, [12, 0, 0, 0]);
  }

  lemma ObsoleteCleanParses()
    ensures var r := ObsoleteClean();
            ParseAt(r, 0) == Some(Node(0, 0x0003, 12, Obsolete, CleanMarker)) && Reads(r, 0) == 12 == Read32(r, 4)
  {
    hide CrcOf;
    var r := ObsoleteClean();
    HeaderCrcsDiffer();
    assert r[0..8] == DEAD_HEADER && r[8..12] == CrcOf(LIVE_HEADER);
    assert Read16(r, 0) == MAGIC && Read16(r, 2) == 0x0003 && Read32(r, 4) == 12;
    assert Restored(DEAD_HEADER, 0x0003, Obsolete) == LIVE_HEADER by {
      assert SetAccurate(0x0003) == 0x2003;
    }
    assert HeaderStatus(r, 0) == Some(Obsolete);
  }

  /** Where a record of a log lies. */
  lemma {:induction false} RecordPosition(data: bytes, recs: seq<bytes>, at: nat, rec: bytes) returns (o: nat)
    requires rec in recs && at % 4 == 0 && at + |Log(recs)| <= |data| && data[at..at + |Log(recs)|] == Log(recs)
    ensures o % 4 == 0 && o + |rec| <= |data| && data[o..o + |rec|] == rec
  {
    hide Log, Align4;
    LogParts(data, recs, at);
    if recs[0] == rec {
      o := at;
    } else {
      assert rec in recs[1..];
      o := RecordPosition(data, recs[1..], at + Align4(|recs[0]|), rec);
    }
  }

  lemma {:induction false} DataRecordListed(files: seq<ConfigFile>, f: ConfigFile)
    requires AllPackable(files) && f in files
    ensures DataRecord(f) in FileRecords(files)
  {
    hide EntryRecord, DataRecord;
    var rest := files[1..];
    if files[0] != f {
      DataRecordListed(rest, f);
    }
    assert FileRecords(files) == [EntryRecord(files[0]), DataRecord(files[0])] + FileRecords(rest);
  }

  /** The data record of each file lies somewhere in the rebuilt partition. */
  lemma FindData(files: seq<ConfigFile>, f: ConfigFile) returns (o: nat)
    requires AllPackable(files) && FitsFrom(PreservedRecords(files), 0) && f in files
    ensures var rec := DataRecord(f);
            o % 4 == 0 && o + |rec| <= |RebuiltPartition(files)| && RebuiltPartition(files)[o..o + |rec|] == rec
  {
    hide DataRecord, FileRecords, CleanRecord;
    var built, recs, rec := RebuiltPartition(files), PreservedRecords(files), DataRecord(f);
    FitsBound(recs, 0);
    DataRecordListed(files, f);
    assert rec in recs;
    assert built[0..0 + |Log(recs)|] == Log(recs);
    o := RecordPosition(built, recs, 0, rec);
  }

  lemma DataStart(f: ConfigFile)
    requires Packable(f) && |f.data| >= 12
    ensures |DataRecord(f)| == 68 + |f.data| && DataRecord(f)[68..80] == f.data[..12]
  {
    hide InodePrefix, CrcOf;
  }

  /** A live file whose content starts with an obsolete node image cannot be compacted, however good it is. */
  lemma EmbeddedNodeRefused(given: seq<ConfigFile>, f: ConfigFile, inflate: Inflate)
    requires f in Sort(given, FileLe) && |f.data| >= 12 && f.data[..12] == ObsoleteClean()
    ensures BuildPreserved(given, inflate).Err?
  {
    hide ParseAt, Reads, ObsoleteClean, FitsFrom, PreservedRecords, Sort, DataRecord, RebuiltPartition, SelfCheck;
    var files := Sort(given, FileLe);
    if AllPackable(files) && FitsFrom(PreservedRecords(files), 0) {
      var built, r := RebuiltPartition(files), ObsoleteClean();
      var o := FindData(files, f);
      DataStart(f);
      SliceOfSlice(built, o, |DataRecord(f)|, 68, 80);
      ObsoleteCleanParses();
      assert r[0..0 + 12] == r;
      ParseAgree(r, 0, built, o + 68, 12);
      ObsoletePhantomRefused(given, o + 68, inflate);
    }
  }
}

/** What the config builders write: every record's bytes, where the records lie, and FF everywhere else. */
module Jffs2Written {
  import opened Bytes
  import opened Jffs2Node
  import opened Jffs2Record
  import opened Jffs2Log
  import opened Jffs2Config
  import Jffs2Build
  import Jffs2Minimal
  import opened Jffs2Layout
  import Crc32

  // ----- one record -----

  /** Magic, a live node type, the record's length and the header's CRC. */
  predicate StartsAs(r: bytes, kind: byte, top: byte) {
    && |r| >= 12 && r[0] == 0x85 && r[1] == 0x19 && r[2] == kind && r[3] == top
    && Word(r, 4) == |r| && Checks(r, 8, r[..8])
  }

  lemma CleanBytes()
    ensures |CleanRecord()| == 12 && StartsAs(CleanRecord(), 0x03, 0x20)
  {
    hide Crc32.Stored, Crc32.Feed;
    CleanParses();
    StartBytes(CleanRecord(), CLEAN_TYPE, CleanMarker, 0x03, 0x20);
  }

  /** A record that is parsed as a live node of its whole length. */
  lemma StartBytes(r: bytes, nodeType: u16, b: Body, kind: byte, top: byte)
    requires 12 <= |r| < 0x1_0000_0000 && ParseAt(r, 0) == Some(Node(0, nodeType, |r|, Current, b))
    requires nodeType as int == kind as int + 0x100 * top as int
    ensures StartsAs(r, kind, top) && BodyLies(r, 0, Current, b)
  {
    hide BodyLies, ParseAt, Crc32.Stored, Crc32.Feed, Word;
    NodeExactly(r, 0, Node(0, nodeType, |r|, Current, b));
    assert r[0..8] == r[..8];
    HalfIs(r[2], r[3], kind, top);
  }

  lemma HalfIs(a: byte, b: byte, c: byte, d: byte)
    requires a as int + 0x100 * b as int == c as int + 0x100 * d as int
    ensures a == c && b == d
  {
  }

  lemma DirentBytes(b: Body)
    requires IsDirent(b)
    ensures var r := DirentRecord(b);
            && StartsAs(r, 0x01, 0xE0) && |r| == 40 + |b.name| && DirentLies(r, 0, Current, b)
            && r[28] == |b.name| && r[30] == 0 && r[31] == 0
  {
    hide DirentLies, Checks, Word;
    DirentParses(b);
    StartBytes(DirentRecord(b), DIRENT_TYPE, b, 0x01, 0xE0);
    StartsBody(DirentRecord(b), 0x01, 0xE0, b);
    DirentReads(b);
    ReservedBytes(b);
  }

  lemma ReservedBytes(b: Body)
    requires IsDirent(b)
    ensures DirentRecord(b)[30] == 0 && DirentRecord(b)[31] == 0
  {
    hide Head, CrcOf, Pack32;
    var f := DirentFields(b.parent, b.dversion, b.dinode, b.mctime, |b.name|, b.dtype);
    assert DirentRecord(b)[30] == f[18] && DirentRecord(b)[31] == f[19];
  }

  lemma InodeBytes(b: Body)
    requires IsInode(b)
    ensures var r := InodeRecord(b);
            StartsAs(r, 0x02, 0xE0) && |r| == 68 + |b.payload| && InodeLies(r, 0, Current, b)
  {
    hide InodeLies, Checks, Word;
    InodeParses(b);
    StartBytes(InodeRecord(b), INODE_TYPE, b, 0x02, 0xE0);
    StartsBody(InodeRecord(b), 0x02, 0xE0, b);
  }

  lemma StartsBody(r: bytes, kind: byte, top: byte, b: Body)
    requires StartsAs(r, kind, top) && BodyLies(r, 0, Current, b)
    ensures kind == 0x01 && top == 0xE0 && |r| >= 40 ==> DirentLies(r, 0, Current, b)
    ensures kind == 0x02 && top == 0xE0 && |r| >= 68 ==> InodeLies(r, 0, Current, b)
  {
    hide DirentLies, InodeLies, HeaderLies, Checks;
  }

  // ----- the partition -----

  /** Where record i starts: each goes to the next multiple of four. */
  function StartOf(recs: seq<bytes>, i: nat): nat
    requires i <= |recs|
  {
    if i == 0 then 0 else (|recs[0]| + 3) / 4 * 4 + StartOf(recs[1..], i - 1)
  }

  predicate Within(recs: seq<bytes>, k: nat, i: nat) {
    i < |recs| && StartOf(recs, i) <= k < StartOf(recs, i) + |recs[i]|
  }

  lemma {:induction false} LogAt(recs: seq<bytes>, i: nat, j: nat)
    requires i < |recs| && j < |recs[i]|
    ensures StartOf(recs, i) + j < |Log(recs)| && Log(recs)[StartOf(recs, i) + j] == recs[i][j]
    decreases i
  {
    LogSplit(recs);
    if i > 0 {
      LogAt(recs[1..], i - 1, j);
    }
  }

  lemma {:induction false} LogGap(recs: seq<bytes>, k: nat)
    requires k < |Log(recs)| && forall i: nat :: !Within(recs, k, i)
    ensures Log(recs)[k] == 0xFF
    decreases |recs|
  {
    hide Align4;
    var size := |Padded(recs[0])|;
    assert size == (|recs[0]| + 3) / 4 * 4 by {
      PaddedSize(recs[0]);
    }
    assert !Within(recs, k, 0);
    if k >= size {
      var rest, m := recs[1..], k - size;
      forall i: nat
        ensures !Within(rest, m, i)
      {
        assert !Within(recs, k, i + 1);
      }
      LogGap(rest, m);
    }
  }

  lemma PaddedSize(r: bytes)
    ensures |Padded(r)| == (|r| + 3) / 4 * 4
  {
  }

  /** A partition of 128 KiB holds each record at its place, and FF between and after them. */
  lemma PartitionLies(recs: seq<bytes>, k: nat)
    requires |Log(recs)| <= CONFIG_SIZE && k < 0x2_0000
    ensures |Partition(recs)| == 0x2_0000
    ensures forall i: nat :: Within(recs, k, i) ==> Partition(recs)[k] == recs[i][k - StartOf(recs, i)]
    ensures (forall i: nat :: !Within(recs, k, i)) ==> Partition(recs)[k] == 0xFF
  {
    hide Log;
    forall i: nat | Within(recs, k, i)
      ensures Partition(recs)[k] == recs[i][k - StartOf(recs, i)]
    {
      LogAt(recs, i, k - StartOf(recs, i));
    }
    if (forall i: nat :: !Within(recs, k, i)) && k < |Log(recs)| {
      LogGap(recs, k);
    }
  }

  /** Records fit when each of them ends within the first 16 KiB. */
  lemma {:induction false} FitsExactly(recs: seq<bytes>, at: nat)
    ensures Jffs2Build.FitsFrom(recs, at) <==>
            forall i :: 0 <= i < |recs| ==> at + StartOf(recs, i) + |recs[i]| <= 0x4000
    decreases |recs|
  {
    if recs != [] {
      var rest, next := recs[1..], at + Align4(|recs[0]|);
      FitsExactly(rest, next);
      forall i | 0 < i < |recs|
        ensures at + StartOf(recs, i) + |recs[i]| == next + StartOf(rest, i - 1) + |rest[i - 1]|
      {
      }
      assert forall i :: 0 <= i < |rest| ==> rest[i] == recs[i + 1];
      assert (forall i :: 0 <= i < |rest| ==> next + StartOf(rest, i) + |rest[i]| <= 0x4000) <==>
             (forall i :: 0 < i < |recs| ==> at + StartOf(recs, i) + |recs[i]| <= 0x4000) by {
        forall i | 0 <= i < |rest|
          ensures next + StartOf(rest, i) + |rest[i]| == at + StartOf(recs, i + 1) + |recs[i + 1]|
        {
        }
      }
    }
  }

  // ----- the two builders -----

  /** The name of a file, in the root directory and of version 1. */
  predicate NamesFile(b: Body, f: ConfigFile) {
    b == Dirent(1, 1, f.inode, f.direntMctime, f.dtype, f.name)
  }

  /** The whole file in one uncompressed node of version 1. */
  predicate StoresFile(b: Body, f: ConfigFile) {
    && |f.data| < 0x1_0000_0000
    && b == Inode(f.inode, 1, f.mode, f.uid, f.gid, |f.data|, f.atime, f.mtime, f.ctime, 0, |f.data|, |f.data|, 0, 0,
                  f.flags, f.data)
  }

  /** A clean marker, and for each file its name and its data. */
  lemma {:induction false} PreservedAt(files: seq<ConfigFile>, i: nat)
    requires Jffs2Build.AllPackable(files) && i < |files|
    ensures var recs := Jffs2Build.FileRecords(files);
            && |recs| == 2 * |files|
            && exists name, data :: && NamesFile(name, files[i]) && StoresFile(data, files[i])
                                    && IsDirent(name) && IsInode(data)
                                    && recs[2 * i] == DirentRecord(name) && recs[2 * i + 1] == InodeRecord(data)
    decreases |files|
  {
    hide DirentRecord, InodeRecord, IsDirent, IsInode;
    var recs := Jffs2Build.FileRecords(files);
    assert files[0] in files;
    FilesCounted(files);
    if i == 0 {
      FirstRecords(files[0]);
      assert recs[0] == Jffs2Build.EntryRecord(files[0]) && recs[1] == Jffs2Build.DataRecord(files[0]);
    } else {
      PreservedAt(files[1..], i - 1);
      assert recs[2 * i] == Jffs2Build.FileRecords(files[1..])[2 * (i - 1)];
      assert recs[2 * i + 1] == Jffs2Build.FileRecords(files[1..])[2 * (i - 1) + 1];
    }
  }

  lemma {:induction false} FilesCounted(files: seq<ConfigFile>)
    requires Jffs2Build.AllPackable(files)
    ensures |Jffs2Build.FileRecords(files)| == 2 * |files|
    decreases |files|
  {
    hide DirentRecord, InodeRecord;
    if files != [] {
      assert files[0] in files;
      FilesCounted(files[1..]);
    }
  }

  lemma FirstRecords(f: ConfigFile)
    requires Jffs2Build.Packable(f)
    ensures var name, data := Jffs2Build.DirentOf(f), Jffs2Build.InodeOf(f);
            && NamesFile(name, f) && StoresFile(data, f) && IsDirent(name) && IsInode(data)
            && Jffs2Build.EntryRecord(f) == DirentRecord(name) && Jffs2Build.DataRecord(f) == InodeRecord(data)
  {
    hide DirentRecord, InodeRecord;
  }

  lemma MinimalBodies(payload: bytes)
    requires ValidSerial(payload)
    ensures |payload| == 44
    ensures Jffs2Minimal.SerialEntry() == Dirent(1, 123, 7, 1, 8, Ascii("serial.cfg"))
    ensures Jffs2Minimal.SerialInode(payload) == Inode(7, 2, 0x81A4, 0, 0, 44, 18, 18, 18, 0, 44, 44, 0, 0, 0, payload)
  {
    assert SERIAL_NAME == Ascii("serial.cfg");
  }

  /** The serial-only partition: three records, at 0, 12 and 64. */
  lemma MinimalLies(payload: bytes)
    requires ValidSerial(payload)
    ensures var recs := Jffs2Minimal.MinimalRecords(payload);
            && |recs| == 3 && StartOf(recs, 0) == 0 && StartOf(recs, 1) == 12 && StartOf(recs, 2) == 64
            && recs[0] == CleanRecord() && recs[1] == DirentRecord(Jffs2Minimal.SerialEntry())
            && IsInode(Jffs2Minimal.SerialInode(payload))
            && recs[2] == InodeRecord(Jffs2Minimal.SerialInode(payload))
  {
    MinimalBodies(payload);
    hide ValidSerial, DirentRecord, InodeRecord, CleanRecord, Ascii;
    var recs := Jffs2Minimal.MinimalRecords(payload);
    assert |recs[0]| == 12 && |recs[1]| == 50;
    assert StartOf(recs[1..], 0) == 0 && StartOf(recs[1..][1..], 0) == 0;
    assert StartOf(recs[1..], 1) == 52;
  }
}

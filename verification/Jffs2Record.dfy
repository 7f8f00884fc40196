/**
 The byte images of the three kinds of nodes the config builders write, and
 what parse_jffs2 reads back from them.
 */
module Jffs2Record {
  import opened Bytes
  import opened Jffs2Node

  const DIRENT_TYPE: u16 := 0xE001
  const INODE_TYPE: u16 := 0xE002
  const CLEAN_TYPE: u16 := 0x2003

  /** Magic, node type, total length and header CRC. */
  function Head(nodeType: u16, total: u32): (h: bytes)
    ensures |h| == 12
  {
    var h := Pack16(MAGIC) + Pack16(nodeType) + Pack32(total);
    h + CrcOf(h)
  }

  function CleanRecord(): (r: bytes)
    ensures |r| == 12
  {
    Head(CLEAN_TYPE, 12)
  }

  function DirentFields(parent: u32, version: u32, inode: u32, mctime: u32, nameSize: byte, dtype: byte): (f: bytes)
    ensures |f| == 20
  {
    Pack32(parent) + Pack32(version) + Pack32(inode) + Pack32(mctime) + [nameSize, dtype, 0, 0]
  }

  predicate IsDirent(b: Body) {
    b.Dirent? && |b.name| <= 255
  }

  function DirentPrefix(b: Body): (p: bytes)
    requires IsDirent(b)
    ensures |p| == 32
  {
    Head(DIRENT_TYPE, 40 + |b.name|) + DirentFields(b.parent, b.dversion, b.dinode, b.mctime, |b.name|, b.dtype)
  }

  function DirentRecord(b: Body): (r: bytes)
    requires IsDirent(b)
    ensures |r| == 40 + |b.name|
  {
    DirentPrefix(b) + CrcOf(DirentPrefix(b)) + CrcOf(b.name) + b.name
  }

  function InodeFields(b: Body): (f: bytes)
    requires b.Inode?
    ensures |f| == 48
  {
    (Pack32(b.inode) + Pack32(b.version) + Pack32(b.mode) + Pack16(b.uid) + Pack16(b.gid))
    + (Pack32(b.fileSize) + Pack32(b.atime) + Pack32(b.mtime) + Pack32(b.ctime))
    + (Pack32(b.fileOffset) + Pack32(b.csize) + Pack32(b.dsize) + [b.compression, b.userCompression] + Pack16(b.flags))
  }

  predicate IsInode(b: Body) {
    b.Inode? && b.csize == |b.payload| && |b.payload| < 0x1_0000_0000 - 68
  }

  function InodePrefix(b: Body): (p: bytes)
    requires IsInode(b)
    ensures |p| == 60
  {
    Head(INODE_TYPE, 68 + |b.payload|) + InodeFields(b)
  }

  function InodeRecord(b: Body): (r: bytes)
    requires IsInode(b)
    ensures |r| == 68 + |b.payload|
  {
    InodePrefix(b) + CrcOf(b.payload) + CrcOf(InodePrefix(b)) + b.payload
  }

  // ----- reading the images back -----

  lemma HeadReads(r: bytes, nodeType: u16, total: u32)
    requires |r| >= 12 && r[..12] == Head(nodeType, total) && 12 <= total <= |r|
    ensures Read16(r, 2) == nodeType && Read32(r, 4) == total
    ensures HeaderStatus(r, 0) == Some(Current)
  {
    hide CrcOf, Restored, Read16, Read32, Pack16, Pack32;
    var h := Pack16(MAGIC) + Pack16(nodeType) + Pack32(total);
    assert r[0..8] == r[..12][0..8] == h;
    assert r[8..12] == r[..12][8..12] == CrcOf(h);
    assert r[0..2] == h[0..2] == Pack16(MAGIC);
    assert r[2..4] == h[2..4] == Pack16(nodeType);
    assert r[4..8] == h[4..8] == Pack32(total);
    ReadPacked16(r, 0, MAGIC);
    ReadPacked16(r, 2, nodeType);
    ReadPacked32(r, 4, total);
  }

  lemma CleanParses()
    ensures ParseAt(CleanRecord(), 0) == Some(Node(0, CLEAN_TYPE, 12, Current, CleanMarker))
    ensures Reads(CleanRecord(), 0) == 12 == Read32(CleanRecord(), 4)
  {
    hide HeaderStatus, Head, DirentCrcsHold, InodeCrcsHold, DirentAt, InodeAt, Read32;
    var r := CleanRecord();
    assert r[..12] == r;
    HeadReads(r, CLEAN_TYPE, 12);
  }

  lemma DirentReads(b: Body)
    requires IsDirent(b)
    ensures DirentAt(DirentRecord(b), 0) == b
    ensures DirentRecord(b)[28] == |b.name|
  {
    hide CrcOf, Read32, Pack32, Head;
    var r, p, h := DirentRecord(b), DirentPrefix(b), Head(DIRENT_TYPE, 40 + |b.name|);
    var f := DirentFields(b.parent, b.dversion, b.dinode, b.mctime, |b.name|, b.dtype);
    assert forall i :: 12 <= i < 32 ==> r[i] == f[i - 12];
    assert f[0..4] == Pack32(b.parent) && f[4..8] == Pack32(b.dversion) && f[8..12] == Pack32(b.dinode)
           && f[12..16] == Pack32(b.mctime);
    assert r[12..16] == f[0..4] && r[16..20] == f[4..8] && r[20..24] == f[8..12] && r[24..28] == f[12..16];
    ReadPacked32(r, 12, b.parent);
    ReadPacked32(r, 16, b.dversion);
    ReadPacked32(r, 20, b.dinode);
    ReadPacked32(r, 24, b.mctime);
    assert r[40..] == b.name;
  }

  lemma DirentParses(b: Body)
    requires IsDirent(b)
    ensures var r := DirentRecord(b);
            ParseAt(r, 0) == Some(Node(0, DIRENT_TYPE, |r|, Current, b)) && Reads(r, 0) == |r| == Read32(r, 4)
  {
    hide CrcOf, HeaderStatus, Head, DirentAt, DirentFields, Read16, Read32;
    var r, p := DirentRecord(b), DirentPrefix(b);
    assert r[..12] == Head(DIRENT_TYPE, 40 + |b.name|);
    HeadReads(r, DIRENT_TYPE, 40 + |b.name|);
    DirentReads(b);
    assert r[0..32] == p;
    assert r[32..36] == CrcOf(p) && r[36..40] == CrcOf(b.name);
  }

  lemma InodeReads(b: Body)
    requires IsInode(b)
    ensures InodeAt(InodeRecord(b), 0) == b
    ensures Read32(InodeRecord(b), 48) == |b.payload|
  {
    hide CrcOf, Read16, Read32, Pack16, Pack32, Head;
    var r, f := InodeRecord(b), InodeFields(b);
    assert forall i :: 12 <= i < 60 ==> r[i] == f[i - 12];
    InodeFieldSlices(b);
    assert r[12..16] == f[0..4] && r[16..20] == f[4..8] && r[20..24] == f[8..12] && r[24..26] == f[12..14]
           && r[26..28] == f[14..16];
    assert r[28..32] == f[16..20] && r[32..36] == f[20..24] && r[36..40] == f[24..28] && r[40..44] == f[28..32];
    assert r[44..48] == f[32..36] && r[48..52] == f[36..40] && r[52..56] == f[40..44] && r[58..60] == f[46..48];
    ReadPacked32(r, 12, b.inode);
    ReadPacked32(r, 16, b.version);
    ReadPacked32(r, 20, b.mode);
    ReadPacked16(r, 24, b.uid);
    ReadPacked16(r, 26, b.gid);
    ReadPacked32(r, 28, b.fileSize);
    ReadPacked32(r, 32, b.atime);
    ReadPacked32(r, 36, b.mtime);
    ReadPacked32(r, 40, b.ctime);
    ReadPacked32(r, 44, b.fileOffset);
    ReadPacked32(r, 48, b.csize);
    ReadPacked32(r, 52, b.dsize);
    ReadPacked16(r, 58, b.flags);
    assert r[68..] == b.payload;
  }

  lemma InodeFieldSlices(b: Body)
    requires b.Inode?
    ensures var f := InodeFields(b);
            && f[0..4] == Pack32(b.inode) && f[4..8] == Pack32(b.version) && f[8..12] == Pack32(b.mode)
            && f[12..14] == Pack16(b.uid) && f[14..16] == Pack16(b.gid)
            && f[16..20] == Pack32(b.fileSize) && f[20..24] == Pack32(b.atime) && f[24..28] == Pack32(b.mtime)
            && f[28..32] == Pack32(b.ctime)
            && f[32..36] == Pack32(b.fileOffset) && f[36..40] == Pack32(b.csize) && f[40..44] == Pack32(b.dsize)
            && f[44] == b.compression && f[45] == b.userCompression && f[46..48] == Pack16(b.flags)
  {
    hide Pack16, Pack32;
    var f := InodeFields(b);
    var x := Pack32(b.inode) + Pack32(b.version) + Pack32(b.mode) + Pack16(b.uid) + Pack16(b.gid);
    var y := Pack32(b.fileSize) + Pack32(b.atime) + Pack32(b.mtime) + Pack32(b.ctime);
    var z := Pack32(b.fileOffset) + Pack32(b.csize) + Pack32(b.dsize) + [b.compression, b.userCompression] +
    Pack16(b.flags);
    assert f == x + y + z;
    assert f[0..16] == x && f[16..32] == y && f[32..48] == z;
    FourWords(Pack32(b.inode), Pack32(b.version), Pack32(b.mode), Pack16(b.uid) + Pack16(b.gid));
    FourWords(Pack32(b.fileSize), Pack32(b.atime), Pack32(b.mtime), Pack32(b.ctime));
    FourWords(Pack32(b.fileOffset), Pack32(b.csize), Pack32(b.dsize),
              [b.compression, b.userCompression] + Pack16(b.flags));
    assert x == Pack32(b.inode) + Pack32(b.version) + Pack32(b.mode) + (Pack16(b.uid) + Pack16(b.gid));
    assert z == Pack32(b.fileOffset) + Pack32(b.csize) + Pack32(b.dsize) +
                ([b.compression, b.userCompression] + Pack16(b.flags));
    WordsWithin(f, 0, x);
    WordsWithin(f, 16, y);
    WordsWithin(f, 32, z);
    assert x[12..14] == x[12..16][0..2] && x[14..16] == x[12..16][2..4];
    assert z[14..16] == z[12..16][2..4];
  }

  lemma FourWords(a: bytes, b: bytes, c: bytes, d: bytes)
    requires |a| == |b| == |c| == |d| == 4
    ensures var s := a + b + c + d;
            s[0..4] == a && s[4..8] == b && s[8..12] == c && s[12..16] == d
  {
  }

  /** The words of a 16-byte piece of the fields. */
  lemma WordsWithin(f: bytes, at: nat, s: bytes)
    requires |s| == 16 && at + 16 <= |f| && f[at..at + 16] == s
    ensures f[at..at + 4] == s[0..4] && f[at + 4..at + 8] == s[4..8] && f[at + 8..at + 12] == s[8..12]
    ensures f[at + 12..at + 14] == s[12..14] && f[at + 14..at + 16] == s[14..16]
    ensures f[at + 12] == s[12] && f[at + 13] == s[13]
  {
    SliceOfSlice(f, at, 16, 0, 4);
    SliceOfSlice(f, at, 16, 4, 8);
    SliceOfSlice(f, at, 16, 8, 12);
    SliceOfSlice(f, at, 16, 12, 14);
    SliceOfSlice(f, at, 16, 14, 16);
    assert f[at..at + 16][12] == f[at + 12] && f[at..at + 16][13] == f[at + 13];
  }

  lemma InodeParses(b: Body)
    requires IsInode(b)
    ensures var r := InodeRecord(b);
            ParseAt(r, 0) == Some(Node(0, INODE_TYPE, |r|, Current, b)) && Reads(r, 0) == |r| == Read32(r, 4)
  {
    hide CrcOf, HeaderStatus, Head, InodeAt, InodeFields, InodePrefix, InodeRecord, Read16, Read32;
    InodeLayout(b);
    HeadReads(InodeRecord(b), INODE_TYPE, 68 + |b.payload|);
    InodeReads(b);
  }

  lemma InodeLayout(b: Body)
    requires IsInode(b)
    ensures var r, p := InodeRecord(b), InodePrefix(b);
            && |r| == 68 + |b.payload| && r[..12] == Head(INODE_TYPE, 68 + |b.payload|) && r[0..60] == p
            && r[60..64] == CrcOf(b.payload) && r[64..68] == CrcOf(p)
  {
    hide CrcOf, Head, InodeFields;
  }
}

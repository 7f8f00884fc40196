/**
 JFFS2 nodes: the scan of a raw partition, which tries every 4-byte aligned
 offset and never skips by node length, and the byte images of written nodes.
 */
module Jffs2Node {
  import opened Bytes
  import Crc32

  const MAGIC: u16 := 0x1985
  const DIRENT := 0x001
  const INODE := 0x002
  const CLEANMARKER := 0x003

  datatype Status = Current | Obsolete

  datatype Body =
    | Dirent(parent: u32, dversion: u32, dinode: u32, mctime: u32, dtype: byte, name: bytes)
    | Inode(inode: u32, version: u32, mode: u32, uid: u16, gid: u16, fileSize: u32,
            atime: u32, mtime: u32, ctime: u32, fileOffset: u32, csize: u32, dsize: u32,
            compression: byte, userCompression: byte, flags: u16, payload: bytes)
    | CleanMarker
    | Other(base: nat)

  datatype Node = Node(offset: nat, nodeType: u16, total: u32, status: Status, body: Body)

  /** The 0x2000 bit of a node type says the node is live. */
  predicate Accurate(nodeType: u16) {
    nodeType / 0x2000 % 2 == 1
  }

  function SetAccurate(nodeType: u16): (t: u16)
    ensures Accurate(t)
  {
    if Accurate(nodeType) then nodeType else nodeType + 0x2000
  }

  function ClearAccurate(nodeType: u16): (t: u16)
    ensures !Accurate(t)
  {
    if Accurate(nodeType) then nodeType - 0x2000 else nodeType
  }

  function CrcOf(data: bytes): (p: bytes)
    ensures |p| == 4
  {
    Crc32.Stored(Crc32.Jffs2(data))
  }

  /** restored_accurate_slice: the bytes as they were before the node was obsoleted. */
  function Restored(raw: bytes, nodeType: u16, status: Status): (fixed: bytes)
    requires |raw| >= 4
    ensures |fixed| == |raw|
  {
    if status == Current then raw else raw[..2] + Pack16(SetAccurate(nodeType)) + raw[4..]
  }

  /** Whether an offset reads as a node header, and of which status. */
  function HeaderStatus(data: bytes, o: nat): (s: Option<Status>)
    requires o + 12 <= |data|
    ensures s.Some? ==> Read16(data, o) == MAGIC && 12 <= Read32(data, o + 4) <= |data| - o
  {
    var nodeType, total, stored := Read16(data, o + 2), Read32(data, o + 4), data[o + 8..o + 12];
    if Read16(data, o) != MAGIC then None
    else if total < 12 || o + total > |data| then None
    else if CrcOf(data[o..o + 8]) == stored then Some(Current)
    else if !Accurate(nodeType) && CrcOf(Restored(data[o..o + 8], nodeType, Obsolete)) == stored then Some(Obsolete)
    else None
  }

  function DirentAt(data: bytes, o: nat): Body
    requires o + 40 <= |data|
  {
    Dirent(Read32(data, o + 12), Read32(data, o + 16), Read32(data, o + 20), Read32(data, o + 24), data[o + 29],
           Clip(data, o + 40, o + 40 + data[o + 28]))
  }

  function InodeAt(data: bytes, o: nat): Body
    requires o + 68 <= |data|
  {
    Inode(Read32(data, o + 12), Read32(data, o + 16), Read32(data, o + 20), Read16(data, o + 24), Read16(data, o + 26),
          Read32(data, o + 28), Read32(data, o + 32), Read32(data, o + 36), Read32(data, o + 40), Read32(data, o + 44),
          Read32(data, o + 48), Read32(data, o + 52), data[o + 56], data[o + 57], Read16(data, o + 58),
          Clip(data, o + 68, o + 68 + Read32(data, o + 48)))
  }

  /** Whether the node CRC and the name CRC of a directory entry hold. */
  predicate DirentCrcsHold(data: bytes, o: nat, nodeType: u16, status: Status)
    requires o + 40 <= |data|
  {
    && CrcOf(Restored(data[o..o + 32], nodeType, status)) == data[o + 32..o + 36]
    && CrcOf(DirentAt(data, o).name) == data[o + 36..o + 40]
  }

  predicate InodeCrcsHold(data: bytes, o: nat, nodeType: u16, status: Status)
    requires o + 68 <= |data|
  {
    && CrcOf(Restored(data[o..o + 60], nodeType, status)) == data[o + 64..o + 68]
    && CrcOf(InodeAt(data, o).payload) == data[o + 60..o + 64]
  }

  /** One iteration of parse_jffs2. */
  function ParseAt(data: bytes, o: nat): Option<Node>
    requires o + 12 <= |data|
  {
    match HeaderStatus(data, o)
    case None => None
    case Some(status) =>
      var nodeType, total := Read16(data, o + 2), Read32(data, o + 4);
      var base := nodeType % 0x1000;
      if base == DIRENT && total >= 40 then
        if DirentCrcsHold(data, o, nodeType, status) then Some(Node(o, nodeType, total, status, DirentAt(data, o)))
        else None
      else if base == INODE && total >= 68 then
        if InodeCrcsHold(data, o, nodeType, status) then Some(Node(o, nodeType, total, status, InodeAt(data, o)))
        else None
      else if base == CLEANMARKER then Some(Node(o, nodeType, total, status, CleanMarker))
      else Some(Node(o, nodeType, total, status, Other(base)))
  }

  function Listed(n: Option<Node>): seq<Node> {
    if n.Some? then [n.value] else []
  }

  /** Every accepted node from an offset on. */
  function Scan(data: bytes, o: nat): seq<Node>
    decreases |data| - o
  {
    if o + 12 > |data| then [] else Listed(ParseAt(data, o)) + Scan(data, o + 4)
  }

  lemma ScanUnfold(data: bytes, o: nat)
    requires o + 12 <= |data|
    ensures Scan(data, o) == Listed(ParseAt(data, o)) + Scan(data, o + 4)
  {
    hide ParseAt;
  }

  /** parse_jffs2: a loop over the aligned offsets. */
  method ParseJffs2(data: bytes) returns (nodes: seq<Node>)
    ensures nodes == Scan(data, 0)
  {
    hide ParseAt;
    nodes := [];
    var o := 0;
    while o + 12 <= |data|
      invariant nodes + Scan(data, o) == Scan(data, 0)
      decreases |data| - o
    {
      var n := ParseAt(data, o);
      assert nodes + Scan(data, o) == nodes + Listed(n) + Scan(data, o + 4);
      if n.Some? {
        nodes := nodes + [n.value];
      }
      o := o + 4;
    }
  }

  // ----- what a parse depends on -----

  /** How many bytes from an offset on decide what is read there. */
  function Reads(data: bytes, o: nat): (n: nat)
    requires o + 12 <= |data|
    ensures n >= 12
  {
    match HeaderStatus(data, o)
    case None => 12
    case Some(_) =>
      var base, total := Read16(data, o + 2) % 0x1000, Read32(data, o + 4);
      if base == DIRENT && total >= 40 then Max(total, data[o + 28] as int + 40)
      else if base == INODE && total >= 68 then Max(total, 68 + Read32(data, o + 48))
      else total
  }

  ghost predicate Agree(d1: bytes, o1: nat, d2: bytes, o2: nat, n: nat)
    requires o1 + n <= |d1| && o2 + n <= |d2|
  {
    d1[o1..o1 + n] == d2[o2..o2 + n]
  }

  lemma AgreeParts(d1: bytes, o1: nat, d2: bytes, o2: nat, n: nat, lo: nat, hi: nat)
    requires o1 + n <= |d1| && o2 + n <= |d2| && Agree(d1, o1, d2, o2, n) && lo <= hi <= n
    ensures d1[o1 + lo..o1 + hi] == d2[o2 + lo..o2 + hi]
  {
    SliceOfSlice(d1, o1, n, lo, hi);
    SliceOfSlice(d2, o2, n, lo, hi);
  }

  lemma AgreeReads(d1: bytes, o1: nat, d2: bytes, o2: nat, n: nat, at: nat)
    requires o1 + n <= |d1| && o2 + n <= |d2| && Agree(d1, o1, d2, o2, n)
    ensures at < n ==> d1[o1 + at] == d2[o2 + at]
    ensures at + 2 <= n ==> Read16(d1, o1 + at) == Read16(d2, o2 + at)
    ensures at + 4 <= n ==> Read32(d1, o1 + at) == Read32(d2, o2 + at)
  {
    if at < n {
      AgreeParts(d1, o1, d2, o2, n, at, n);
      var s, t := d1[o1 + at..o1 + n], d2[o2 + at..o2 + n];
      assert s[0] == t[0];
      if at + 2 <= n {
        assert s[1] == t[1];
      }
      if at + 4 <= n {
        assert s[2] == t[2] && s[3] == t[3];
      }
    }
  }

  /** n bytes are everything that is read, or everything that is left in both. */
  ghost predicate Enough(d1: bytes, o1: nat, d2: bytes, o2: nat, n: nat, hi: nat) {
    hi <= n || (o1 + n == |d1| && o2 + n == |d2|)
  }

  lemma AgreeClip(d1: bytes, o1: nat, d2: bytes, o2: nat, n: nat, lo: nat, hi: nat)
    requires o1 + n <= |d1| && o2 + n <= |d2| && Agree(d1, o1, d2, o2, n) && lo <= hi && lo <= n
             && Enough(d1, o1, d2, o2, n, hi)
    ensures Clip(d1, o1 + lo, o1 + hi) == Clip(d2, o2 + lo, o2 + hi)
  {
    AgreeParts(d1, o1, d2, o2, n, lo, if hi <= n then hi else n);
  }

  lemma AgreeHeader(d1: bytes, o1: nat, d2: bytes, o2: nat, n: nat)
    requires n >= 12 && o1 + n <= |d1| && o2 + n <= |d2| && Agree(d1, o1, d2, o2, n)
    requires o1 + Read32(d1, o1 + 4) <= |d1| <==> o2 + Read32(d1, o1 + 4) <= |d2|
    ensures HeaderStatus(d1, o1) == HeaderStatus(d2, o2)
    ensures Read16(d1, o1 + 2) == Read16(d2, o2 + 2) && Read32(d1, o1 + 4) == Read32(d2, o2 + 4)
  {
    hide CrcOf, Restored, Agree, Read16, Read32;
    AgreeReads(d1, o1, d2, o2, n, 0);
    AgreeReads(d1, o1, d2, o2, n, 2);
    AgreeReads(d1, o1, d2, o2, n, 4);
    AgreeParts(d1, o1, d2, o2, n, 0, 8);
    AgreeParts(d1, o1, d2, o2, n, 8, 12);
  }

  lemma AgreeDirent(d1: bytes, o1: nat, d2: bytes, o2: nat, n: nat, nodeType: u16, status: Status)
    requires n >= 40 && o1 + n <= |d1| && o2 + n <= |d2| && Agree(d1, o1, d2, o2, n)
    requires Enough(d1, o1, d2, o2, n, 40 + d1[o1 + 28] as int)
    ensures DirentAt(d1, o1) == DirentAt(d2, o2)
    ensures DirentCrcsHold(d1, o1, nodeType, status) == DirentCrcsHold(d2, o2, nodeType, status)
  {
    hide CrcOf, Restored, Agree, Read32, Clip;
    AgreeReads(d1, o1, d2, o2, n, 12);
    AgreeReads(d1, o1, d2, o2, n, 16);
    AgreeReads(d1, o1, d2, o2, n, 20);
    AgreeReads(d1, o1, d2, o2, n, 24);
    AgreeReads(d1, o1, d2, o2, n, 28);
    AgreeReads(d1, o1, d2, o2, n, 29);
    AgreeClip(d1, o1, d2, o2, n, 40, 40 + d1[o1 + 28] as int);
    AgreeParts(d1, o1, d2, o2, n, 0, 32);
    AgreeParts(d1, o1, d2, o2, n, 32, 36);
    AgreeParts(d1, o1, d2, o2, n, 36, 40);
  }

  lemma AgreeInodeFields(d1: bytes, o1: nat, d2: bytes, o2: nat, n: nat)
    requires n >= 68 && o1 + n <= |d1| && o2 + n <= |d2| && Agree(d1, o1, d2, o2, n)
    requires Enough(d1, o1, d2, o2, n, 68 + Read32(d1, o1 + 48))
    ensures InodeAt(d1, o1) == InodeAt(d2, o2)
  {
    hide Agree, Read32, Read16, Clip;
    AgreeReads(d1, o1, d2, o2, n, 12);
    AgreeReads(d1, o1, d2, o2, n, 16);
    AgreeReads(d1, o1, d2, o2, n, 20);
    AgreeReads(d1, o1, d2, o2, n, 28);
    AgreeReads(d1, o1, d2, o2, n, 32);
    AgreeReads(d1, o1, d2, o2, n, 36);
    AgreeReads(d1, o1, d2, o2, n, 40);
    AgreeReads(d1, o1, d2, o2, n, 44);
    AgreeReads(d1, o1, d2, o2, n, 48);
    AgreeReads(d1, o1, d2, o2, n, 52);
    AgreeReads(d1, o1, d2, o2, n, 24);
    AgreeReads(d1, o1, d2, o2, n, 26);
    AgreeReads(d1, o1, d2, o2, n, 56);
    AgreeReads(d1, o1, d2, o2, n, 57);
    AgreeReads(d1, o1, d2, o2, n, 58);
    AgreeClip(d1, o1, d2, o2, n, 68, 68 + Read32(d1, o1 + 48));
  }

  lemma AgreeInode(d1: bytes, o1: nat, d2: bytes, o2: nat, n: nat, nodeType: u16, status: Status)
    requires n >= 68 && o1 + n <= |d1| && o2 + n <= |d2| && Agree(d1, o1, d2, o2, n)
    requires Enough(d1, o1, d2, o2, n, 68 + Read32(d1, o1 + 48))
    ensures InodeAt(d1, o1) == InodeAt(d2, o2)
    ensures InodeCrcsHold(d1, o1, nodeType, status) == InodeCrcsHold(d2, o2, nodeType, status)
  {
    hide CrcOf, Restored, Agree, Read32, Read16, Clip, InodeAt;
    AgreeInodeFields(d1, o1, d2, o2, n);
    AgreeParts(d1, o1, d2, o2, n, 0, 60);
    AgreeParts(d1, o1, d2, o2, n, 60, 64);
    AgreeParts(d1, o1, d2, o2, n, 64, 68);
  }

  function Moved(n: Option<Node>, o: nat): Option<Node> {
    if n.Some? then Some(n.value.(offset := o)) else None
  }

  /** A parse depends on the bytes it reads and on nothing else. */
  lemma ParseAgree(d1: bytes, o1: nat, d2: bytes, o2: nat, n: nat)
    requires n >= 12 && o1 + n <= |d1| && o2 + n <= |d2| && Agree(d1, o1, d2, o2, n)
    requires o1 + Read32(d1, o1 + 4) <= |d1| <==> o2 + Read32(d1, o1 + 4) <= |d2|
    requires Enough(d1, o1, d2, o2, n, Reads(d1, o1))
    ensures ParseAt(d2, o2) == Moved(ParseAt(d1, o1), o2)
  {
    hide HeaderStatus, CrcOf, Agree, Read16, Read32, DirentAt, InodeAt, DirentCrcsHold, InodeCrcsHold;
    AgreeHeader(d1, o1, d2, o2, n);
    if HeaderStatus(d1, o1).Some? {
      var status := HeaderStatus(d1, o1).value;
      var nodeType, total := Read16(d1, o1 + 2), Read32(d1, o1 + 4);
      if nodeType % 0x1000 == DIRENT && total >= 40 {
        AgreeDirent(d1, o1, d2, o2, n, nodeType, status);
      } else if nodeType % 0x1000 == INODE && total >= 68 {
        AgreeInode(d1, o1, d2, o2, n, nodeType, status);
      }
    }
  }

  function Max(a: int, b: int): int {
    if a >= b then a else b
  }
}

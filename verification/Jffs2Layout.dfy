/** Where the fields of JFFS2 nodes lie, and exactly which bytes are accepted as which node. */
module Jffs2Layout {
  import opened Bytes
  import Crc32
  import opened Jffs2Node

  /** Little-endian words of two and four bytes. */
  function Half(data: bytes, at: nat): nat
    requires at + 2 <= |data|
  {
    data[at] as int + 0x100 * data[at + 1] as int
  }

  function Word(data: bytes, at: nat): nat
    requires at + 4 <= |data|
  {
    Half(data, at) + 0x1_0000 * Half(data, at + 2)
  }

  /** Bit 5 of the fourth byte says that a node is live. */
  predicate LiveBit(b: byte) {
    b / 0x20 % 2 == 1
  }

  /** The first n bytes of a node, as they were written: an obsolete node's live bit is set again. */
  function AsWritten(data: bytes, o: nat, n: nat, status: Status): bytes
    requires 4 <= n && o + n <= |data| && (status.Obsolete? ==> !LiveBit(data[o + 3]))
  {
    if status.Current? then data[o..o + n] else data[o..o + n][3 := data[o + 3] + 0x20]
  }

  /** The stored CRC of some bytes. */
  predicate Checks(data: bytes, at: nat, covered: bytes)
    requires at + 4 <= |data|
  {
    data[at..at + 4] == Crc32.Stored(Crc32.Feed(0, covered))
  }

  /** Magic 85 19, a total length of at least 12 within the data, and a header CRC. */
  predicate HeaderLies(data: bytes, o: nat, status: Status) {
    && o + 12 <= |data| && data[o] == 0x85 && data[o + 1] == 0x19
    && 12 <= Word(data, o + 4) <= |data| - o
    && match status
       case Current => Checks(data, o + 8, data[o..o + 8])
       case Obsolete =>
         && !Checks(data, o + 8, data[o..o + 8]) && !LiveBit(data[o + 3])
         && Checks(data, o + 8, AsWritten(data, o, 8, Obsolete))
  }

  lemma CrcIs(covered: bytes)
    ensures CrcOf(covered) == Crc32.Stored(Crc32.Feed(0, covered))
  {
    hide Crc32.Stored, Crc32.Feed;
    Crc32.Jffs2IsBareRegister(covered);
  }

  lemma MagicIs(a: byte, b: byte)
    ensures a as int + 0x100 * b as int == 0x1985 <==> a == 0x85 && b == 0x19
  {
  }

  lemma TopBits(a: byte, b: byte)
    ensures (a as int + 0x100 * b as int) / 0x2000 == b / 0x20
  {
    var q, r := b / 0x20, b % 0x20;
    assert b as int == 0x20 * q + r;
    assert a as int + 0x100 * b as int == 0x2000 * q + (a as int + 0x100 * r);
  }

  lemma PackIs(a: byte, b: byte)
    ensures Pack16(a as int + 0x100 * b as int) == [a, b]
  {
  }

  lemma LiveIs(a: byte, b: byte)
    ensures var t := a as int + 0x100 * b as int;
            && Accurate(t) == LiveBit(b)
            && (!LiveBit(b) ==> b + 0x20 < 0x100 && Pack16(SetAccurate(t)) == [a, b + 0x20])
  {
    hide Pack16;
    TopBits(a, b);
    if !LiveBit(b) {
      assert b / 0x20 < 7;
      PackIs(a, b + 0x20);
    }
  }

  lemma FixedIs(data: bytes, o: nat, n: nat, status: Status)
    requires 4 <= n && o + n <= |data| && (status.Obsolete? ==> !LiveBit(data[o + 3]))
    ensures Restored(data[o..o + n], Read16(data, o + 2), status) == AsWritten(data, o, n, status)
  {
    hide SetAccurate, Pack16;
    LiveIs(data[o + 2], data[o + 3]);
    if status.Obsolete? {
      var raw := data[o..o + n];
      assert raw[..2] + [data[o + 2], data[o + 3] + 0x20] + raw[4..] == raw[3 := data[o + 3] + 0x20];
    }
  }

  lemma WordIs(data: bytes, at: nat)
    requires at + 4 <= |data|
    ensures Read32(data, at) == Word(data, at)
  {
  }

  /** The header's status, exactly. */
  lemma HeaderExactly(data: bytes, o: nat, status: Status)
    requires o + 12 <= |data|
    ensures HeaderStatus(data, o) == Some(status) <==> HeaderLies(data, o, status)
  {
    hide Restored, CrcOf, SetAccurate, Crc32.Stored, Crc32.Feed, Word, Read32, AsWritten, LiveBit, Accurate;
    MagicIs(data[o], data[o + 1]);
    LiveIs(data[o + 2], data[o + 3]);
    WordIs(data, o + 4);
    CrcIs(data[o..o + 8]);
    FixedIs(data, o, 8, Current);
    if !LiveBit(data[o + 3]) {
      FixedIs(data, o, 8, Obsolete);
      CrcIs(AsWritten(data, o, 8, Obsolete));
    }
  }

  /** A directory entry: two CRCs, four words, the name's size at 28 and its type at 29, and the name from 40 on. */
  predicate DirentLies(data: bytes, o: nat, status: Status, b: Body)
    requires o + 40 <= |data| && (status.Obsolete? ==> !LiveBit(data[o + 3]))
  {
    && b.Dirent? && b.parent == Word(data, o + 12) && b.dversion == Word(data, o + 16)
    && b.dinode == Word(data, o + 20) && b.mctime == Word(data, o + 24) && b.dtype == data[o + 29]
    && b.name == data[o + 40..Min(o + 40 + data[o + 28], |data|)]
    && Checks(data, o + 32, AsWritten(data, o, 32, status)) && Checks(data, o + 36, b.name)
  }

  /** A data node: two CRCs, eight words and three halves, and the payload from 68 on. */
  predicate InodeLies(data: bytes, o: nat, status: Status, b: Body)
    requires o + 68 <= |data| && (status.Obsolete? ==> !LiveBit(data[o + 3]))
  {
    && b.Inode? && b.inode == Word(data, o + 12) && b.version == Word(data, o + 16) && b.mode == Word(data, o + 20)
    && b.uid == Half(data, o + 24) && b.gid == Half(data, o + 26) && b.fileSize == Word(data, o + 28)
    && b.atime == Word(data, o + 32) && b.mtime == Word(data, o + 36) && b.ctime == Word(data, o + 40)
    && b.fileOffset == Word(data, o + 44) && b.csize == Word(data, o + 48) && b.dsize == Word(data, o + 52)
    && b.compression == data[o + 56] && b.userCompression == data[o + 57] && b.flags == Half(data, o + 58)
    && b.payload == data[o + 68..Min(o + 68 + b.csize, |data|)]
    && Checks(data, o + 60, b.payload) && Checks(data, o + 64, AsWritten(data, o, 60, status))
  }

  lemma DirentIs(data: bytes, o: nat, status: Status, b: Body)
    requires o + 40 <= |data| && (status.Obsolete? ==> !LiveBit(data[o + 3]))
    ensures DirentLies(data, o, status, b) <==>
            b == DirentAt(data, o) && DirentCrcsHold(data, o, Read16(data, o + 2), status)
  {
    hide Restored, CrcOf, Crc32.Stored, Crc32.Feed, Word, Read32, AsWritten, Read16;
    FixedIs(data, o, 32, status);
    CrcIs(AsWritten(data, o, 32, status));
    CrcIs(DirentAt(data, o).name);
    WordIs(data, o + 12);
    WordIs(data, o + 16);
    WordIs(data, o + 20);
    WordIs(data, o + 24);
  }

  lemma InodeIs(data: bytes, o: nat, status: Status, b: Body)
    requires o + 68 <= |data| && (status.Obsolete? ==> !LiveBit(data[o + 3]))
    ensures InodeLies(data, o, status, b) <==>
            b == InodeAt(data, o) && InodeCrcsHold(data, o, Read16(data, o + 2), status)
  {
    hide Restored, CrcOf, Crc32.Stored, Crc32.Feed, AsWritten;
    FixedIs(data, o, 60, status);
    CrcIs(AsWritten(data, o, 60, status));
    CrcIs(InodeAt(data, o).payload);
    InodeWords(data, o);
    hide Read16, Read32, Word, Half;
  }

  lemma InodeWords(data: bytes, o: nat)
    requires o + 68 <= |data|
    ensures var b := InodeAt(data, o);
            && b.inode == Word(data, o + 12) && b.version == Word(data, o + 16) && b.mode == Word(data, o + 20)
            && b.uid == Half(data, o + 24) && b.gid == Half(data, o + 26) && b.fileSize == Word(data, o + 28)
            && b.atime == Word(data, o + 32) && b.mtime == Word(data, o + 36) && b.ctime == Word(data, o + 40)
            && b.fileOffset == Word(data, o + 44) && b.csize == Word(data, o + 48) && b.dsize == Word(data, o + 52)
            && b.flags == Half(data, o + 58)
  {
    hide Clip, Word, Read32;
    WordIs(data, o + 12);
    WordIs(data, o + 16);
    WordIs(data, o + 20);
    WordIs(data, o + 28);
    WordIs(data, o + 32);
    WordIs(data, o + 36);
    WordIs(data, o + 40);
    WordIs(data, o + 44);
    WordIs(data, o + 48);
    WordIs(data, o + 52);
  }

  /** What the low twelve bits of the node type make of a header: 1 and 2 only if the node is long enough. */
  predicate BodyLies(data: bytes, o: nat, status: Status, b: Body)
    requires HeaderLies(data, o, status)
  {
    var base, total := Half(data, o + 2) % 0x1000, Word(data, o + 4);
    if base == 1 && total >= 40 then DirentLies(data, o, status, b)
    else if base == 2 && total >= 68 then InodeLies(data, o, status, b)
    else if base == 3 then b == CleanMarker
    else b == Other(base)
  }

  /** The bytes at an offset are accepted as a node if and only if they are laid out as that node. */
  lemma NodeExactly(data: bytes, o: nat, n: Node)
    requires o + 12 <= |data|
    ensures ParseAt(data, o) == Some(n) <==>
            && n.offset == o && HeaderLies(data, o, n.status)
            && n.nodeType as int == Half(data, o + 2) && n.total as int == Word(data, o + 4)
            && BodyLies(data, o, n.status, n.body)
  {
    hide HeaderLies, HeaderStatus, DirentLies, InodeLies, DirentAt, InodeAt, DirentCrcsHold, InodeCrcsHold, Word;
    hide Read32;
    HeaderExactly(data, o, n.status);
    WordIs(data, o + 4);
    if HeaderLies(data, o, n.status) {
      HeaderFacts(data, o, n.status);
      if Word(data, o + 4) >= 40 {
        DirentIs(data, o, n.status, n.body);
      }
      if Word(data, o + 4) >= 68 {
        InodeIs(data, o, n.status, n.body);
      }
    }
  }

  lemma HeaderFacts(data: bytes, o: nat, status: Status)
    requires HeaderLies(data, o, status)
    ensures o + 12 <= |data| && Word(data, o + 4) <= |data| - o && (status.Obsolete? ==> !LiveBit(data[o + 3]))
  {
  }

  /** The scan lists the nodes accepted at the offsets that are multiples of four. */
  lemma {:induction false} AcceptedExactly(data: bytes, from: nat, n: Node)
    requires from % 4 == 0
    ensures n in Scan(data, from) <==>
            from <= n.offset && n.offset % 4 == 0 && n.offset + 12 <= |data| && ParseAt(data, n.offset) == Some(n)
    decreases |data| - from
  {
    hide ParseAt, Scan;
    if from + 12 > |data| {
      ScanEnds(data, from);
    } else {
      AcceptedExactly(data, from + 4, n);
      ScanUnfold(data, from);
      ParsedHere(data, from);
      assert n.offset == from || n.offset < from || n.offset >= from + 4 || n.offset % 4 != 0;
    }
  }

  lemma ScanEnds(data: bytes, from: nat)
    requires from + 12 > |data|
    ensures Scan(data, from) == []
  {
  }

  lemma ParsedHere(data: bytes, o: nat)
    requires o + 12 <= |data|
    ensures ParseAt(data, o).Some? ==> ParseAt(data, o).value.offset == o
  {
    hide HeaderStatus, DirentCrcsHold, InodeCrcsHold, DirentAt, InodeAt;
  }

  predicate Rising(nodes: seq<Node>) {
    forall i, j :: 0 <= i < j < |nodes| ==> nodes[i].offset < nodes[j].offset
  }

  /** They are listed in the order of their offsets. */
  lemma {:induction false} ScanRises(data: bytes, from: nat)
    requires from % 4 == 0
    ensures Rising(Scan(data, from))
    decreases |data| - from
  {
    if from + 12 <= |data| {
      ScanRises(data, from + 4);
      ScanUnfold(data, from);
      ParsedHere(data, from);
      hide ParseAt;
      var rest := Scan(data, from + 4);
      forall j | 0 <= j < |rest|
        ensures from < rest[j].offset
      {
        AcceptedExactly(data, from + 4, rest[j]);
      }
      var all := Scan(data, from);
      if ParseAt(data, from).Some? {
        assert all == [ParseAt(data, from).value] + rest;
      }
    }
  }
}

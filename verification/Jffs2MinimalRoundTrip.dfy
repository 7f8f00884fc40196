/**
 Nothing inside the serial-only partition reads as a node, for any valid serial; so the builder always
 succeeds and strict extraction recovers the serial.
 */
module Jffs2MinimalRoundTrip {
  import opened Bytes
  import opened Lists
  import Crc32
  import Crc32Values
  import opened Jffs2Node
  import opened Jffs2Record
  import opened Jffs2Log
  import opened Jffs2Config
  import opened Jffs2Build
  import opened Jffs2Minimal

  // ----- the two stored CRCs that follow another CRC -----

  /** A header is followed by its own CRC, which leaves nothing in the register. */
  lemma PrefixCrc(nodeType: u16, total: u32, fields: bytes)
    ensures Crc32.Jffs2(Head(nodeType, total) + fields) == Crc32.Feed(0, fields)
  {
    hide Crc32.Feed, Crc32.Jffs2, Crc32.Stored, Pack16, Pack32;
    var h := Pack16(MAGIC) + Pack16(nodeType) + Pack32(total);
    Crc32.Jffs2IsBareRegister(h);
    Crc32.Jffs2IsBareRegister(Head(nodeType, total) + fields);
    var x := Crc32.Feed(0, h);
    assert Head(nodeType, total) + fields == h + (Crc32.Stored(x) + fields);
    Crc32.FeedAppend(0, h, Crc32.Stored(x) + fields);
    Crc32Values.StoredCancels(x, fields);
  }

  /** The inode fields of any serial of 44 bytes, as words. */
  lemma SerialFields(payload: bytes)
    requires |payload| == 44
    ensures InodeFields(SerialInode(payload)) == FieldWords()
  {
    hide Pack16, Pack32;
    SmallWords();
  }

  lemma SmallWords()
    ensures Pack32(7) == [7, 0, 0, 0] && Pack32(2) == [2, 0, 0, 0] && Pack32(0x81A4) == [0xA4, 0x81, 0, 0]
    ensures Pack32(0) == [0, 0, 0, 0] && Pack32(18) == [18, 0, 0, 0] && Pack32(44) == [44, 0, 0, 0]
            && Pack16(0) == [0, 0]
  {
  }

  function FieldWords(): bytes {
    [7, 0, 0, 0] + ([2, 0, 0, 0] + ([0xA4, 0x81, 0, 0] + ([0, 0, 0, 0] + ([44, 0, 0, 0] + ([18, 0, 0, 0]
    + ([18, 0, 0, 0] + ([18, 0, 0, 0] + ([0, 0, 0, 0] + ([44, 0, 0, 0] + ([44, 0, 0, 0] + ([0, 0, 0, 0] + [])))))))))))
  }

  lemma FieldsValue()
    ensures Crc32.Feed(0, FieldWords()) == 0x4B6890A3
  {
    hide Crc32.Feed;
    var r5: bytes := [44, 0, 0, 0] + ([0, 0, 0, 0] + []);
    var r4: bytes := [0, 0, 0, 0] + ([44, 0, 0, 0] + r5);
    var r3: bytes := [18, 0, 0, 0] + ([18, 0, 0, 0] + r4);
    var r2: bytes := [44, 0, 0, 0] + ([18, 0, 0, 0] + r3);
    var r1: bytes := [0xA4, 0x81, 0, 0] + ([0, 0, 0, 0] + r2);
    Crc32Values.FirstWords(r1);
    Crc32Values.SecondWords(r2);
    Crc32Values.ThirdWords(r3);
    Crc32Values.FourthWords(r4);
    Crc32Values.FifthWords(r5);
    Crc32Values.LastWords([]);
    Crc32Values.FeedNothing(0x4B6890A3);
  }

  /** The node CRC of the serial's inode does not depend on the serial. */
  lemma NodeCrc(payload: bytes)
    requires |payload| == 44
    ensures CrcOf(InodePrefix(SerialInode(payload)))[3] >= 1
  {
    hide Crc32.Feed, Crc32.Jffs2, Crc32.Stored, Head, InodeFields, FieldWords;
    SerialFields(payload);
    PrefixCrc(INODE_TYPE, 112, InodeFields(SerialInode(payload)));
    FieldsValue();
    Crc32Values.TopByte(0x4B6890A3);
  }

  lemma NameCrc()
    ensures CrcOf(SERIAL_NAME)[3] >= 1
  {
    hide Crc32.Feed, Crc32.Jffs2, Crc32.Stored;
    Crc32.Jffs2IsBareRegister(SERIAL_NAME);
    Crc32Values.NameValue();
    Crc32Values.TopByte(0x8EB6B6B6);
  }

  // ----- what cannot be a node -----

  /** The word after the magic is no possible length. */
  lemma LengthNoNode(data: bytes, o: nat)
    requires o + 12 <= |data| && (Read32(data, o + 4) < 12 || Read32(data, o + 4) > |data|)
    ensures ParseAt(data, o).None?
  {
    hide Read16, Read32, CrcOf;
  }

  /** A word with a nonzero last byte is longer than the partition. */
  lemma LongWord(data: bytes, o: nat)
    requires o + 12 <= |data| <= CONFIG_SIZE && data[o + 7] >= 1
    ensures ParseAt(data, o).None?
  {
    assert Read32(data, o + 4) >= 0x100_0000;
    LengthNoNode(data, o);
  }

  /** A byte other than the first of the magic. */
  lemma OtherByte(data: bytes, o: nat)
    requires o + 12 <= |data| && (data[o] != 0x85 || data[o + 1] != 0x19)
    ensures ParseAt(data, o).None?
  {
    assert Read16(data, o) != MAGIC;
    NoMagicNoNode(data, o);
  }

  // ----- inside the three records -----

  /** Bytes of a record, where it lies. */
  lemma RecordByte(data: bytes, at: nat, r: bytes, k: nat)
    requires at + |r| <= |data| && data[at..at + |r|] == r && k < |r|
    ensures data[at + k] == r[k]
  {
    assert data[at..at + |r|][k] == data[at + k];
  }

  /** Magic, type and length at the start of a header. */
  lemma HeadBytes(nodeType: u16, total: u32)
    ensures var h := Head(nodeType, total);
            && h[0] == 0x85 && h[1] == 0x19 && h[2] == nodeType % 0x100 && h[3] == nodeType / 0x100
            && (total < 0x80 ==> h[4] == total && h[5] == 0)
  {
    hide CrcOf;
  }

  /** The bytes of the directory record that decide. */
  lemma EntrySize()
    ensures |DirentRecord(SerialEntry())| == 50
  {
    hide Head, CrcOf;
  }

  lemma EntryBytes(r: bytes)
    requires r == DirentRecord(SerialEntry()) && |r| == 50
    ensures r[3] >= 1 && r[4] == 50 && r[12] == 1 && r[13] == r[14] == r[15] == 0 && r[16] == 123
            && r[20] == 7 && r[24] == 1
            && r[28] == 10 && r[39] >= 1 && r[40..50] == SERIAL_NAME
  {
    hide Head, CrcOf;
    HeadBytes(DIRENT_TYPE, 50);
    NameCrc();
    var p := DirentPrefix(SerialEntry());
    assert r[3] == p[3] == Head(DIRENT_TYPE, 50)[3] && r[4] == p[4] == Head(DIRENT_TYPE, 50)[4];
    assert forall k :: 12 <= k < 32 ==> r[k] == p[k] == DirentFields(1, 123, 7, 1, 10, 8)[k - 12];
    assert r[39] == CrcOf(SERIAL_NAME)[3];
  }

  lemma CleanInside(data: bytes, o: nat)
    requires |data| == CONFIG_SIZE && data[0..12] == CleanRecord() && data[12..62] == DirentRecord(SerialEntry())
    requires 0 < o < 12 && o % 4 == 0
    ensures ParseAt(data, o).None?
  {
    hide CleanRecord, DirentRecord, ParseAt;
    if o == 4 {
      CleanByte();
      RecordByte(data, 0, CleanRecord(), 4);
      OtherByte(data, 4);
    } else {
      EntrySize();
      EntryBytes(DirentRecord(SerialEntry()));
      RecordByte(data, 12, DirentRecord(SerialEntry()), 3);
      LongWord(data, 8);
    }
  }

  lemma CleanByte()
    ensures CleanRecord()[4] == 12
  {
    hide Head;
    HeadBytes(CLEAN_TYPE, 12);
  }

  lemma DirentInside(data: bytes, k: nat)
    requires |data| == CONFIG_SIZE && data[12..62] == DirentRecord(SerialEntry()) && 0 < k < 50 && k % 4 == 0
    ensures ParseAt(data, 12 + k).None?
  {
    hide DirentRecord, ParseAt;
    EntrySize();
    var r := DirentRecord(SerialEntry());
    EntryBytes(r);
    RecordByte(data, 12, r, k);
    if k == 8 {
      RecordByte(data, 12, r, 12);
      RecordByte(data, 12, r, 13);
      RecordByte(data, 12, r, 14);
      RecordByte(data, 12, r, 15);
      assert Read32(data, 24) == 1;
      LengthNoNode(data, 20);
    } else if k == 32 {
      RecordByte(data, 12, r, 39);
      LongWord(data, 44);
    } else if k == 36 {
      assert r[43] == r[40..50][3];
      RecordByte(data, 12, r, 43);
      LongWord(data, 48);
    } else if k >= 40 {
      assert r[k] == r[40..50][k - 40];
      OtherByte(data, 12 + k);
    } else {
      assert k == 4 || k == 12 || k == 16 || k == 20 || k == 24 || k == 28;
      OtherByte(data, 12 + k);
    }
  }

  /** Every first byte of a word of the inode's fields, and the CRC between them and the serial. */
  lemma InodeBytes(payload: bytes)
    requires ValidSerial(payload)
    ensures var r := InodeRecord(SerialInode(payload));
            && |r| == 112 && r[4] == 112 && (forall k :: 0 <= k < 48 ==> r[12 + k] == FieldWords()[k])
            && r[67] >= 1 && r[68..112] == payload
  {
    hide Head, CrcOf, ValidSerial, FieldWords, InodeFields;
    SerialSize(payload);
    HeadBytes(INODE_TYPE, 112);
    NodeCrc(payload);
    SerialFields(payload);
    var r, p := InodeRecord(SerialInode(payload)), InodePrefix(SerialInode(payload));
    assert r[4] == p[4] == Head(INODE_TYPE, 112)[4];
    assert forall k :: 12 <= k < 60 ==> r[k] == p[k] == InodeFields(SerialInode(payload))[k - 12];
    assert r[67] == CrcOf(p)[3];
    assert r[68..112] == payload;
  }

  lemma TextByte(payload: bytes, k: nat)
    requires ValidSerial(payload) && k < 44
    ensures 1 <= payload[k] < 0x80
  {
    if k < 14 {
      assert payload[k] == SERIAL_PREFIX[k];
    }
  }

  lemma FieldByte(k: nat)
    requires k < 48 && k % 4 == 0
    ensures FieldWords()[k] != 0x85
    ensures FieldWords()[0] == 7 && FieldWords()[1] == FieldWords()[2] == FieldWords()[3] == 0
  {
  }

  lemma InodeInside(data: bytes, payload: bytes, k: nat)
    requires ValidSerial(payload) && |data| == CONFIG_SIZE && data[64..176] == InodeRecord(SerialInode(payload))
    requires 0 < k < 112 && k % 4 == 0
    ensures ParseAt(data, 64 + k).None?
  {
    hide InodeRecord, ParseAt, ValidSerial, FieldWords;
    SerialSize(payload);
    InodeBytes(payload);
    var r := InodeRecord(SerialInode(payload));
    RecordByte(data, 64, r, k);
    if k == 8 {
      FieldByte(0);
      RecordByte(data, 64, r, 12);
      RecordByte(data, 64, r, 13);
      RecordByte(data, 64, r, 14);
      RecordByte(data, 64, r, 15);
      assert Read32(data, 76) == 7;
      LengthNoNode(data, 72);
    } else if k == 60 {
      RecordByte(data, 64, r, 67);
      LongWord(data, 124);
    } else if k == 64 {
      TextByte(payload, 3);
      assert r[71] == r[68..112][3];
      RecordByte(data, 64, r, 71);
      LongWord(data, 128);
    } else if k >= 68 {
      TextByte(payload, k - 68);
      assert r[k] == r[68..112][k - 68];
      OtherByte(data, 64 + k);
    } else if k == 4 {
      OtherByte(data, 68);
    } else {
      FieldByte(k - 12);
      OtherByte(data, 64 + k);
    }
  }

  /** Where the three records lie. */
  lemma MinimalLayout(payload: bytes)
    requires ValidSerial(payload)
    ensures var p := Minimal(payload);
            && |p| == CONFIG_SIZE && p[0..12] == CleanRecord() && p[12..62] == DirentRecord(SerialEntry())
            && p[64..176] == InodeRecord(SerialInode(payload))
  {
    hide CleanRecord, DirentRecord, InodeRecord, ValidSerial, Log, FitsFrom, Partition;
    SerialSize(payload);
    MinimalFits(payload);
    var a, b, c := CleanRecord(), DirentRecord(SerialEntry()), InodeRecord(SerialInode(payload));
    var p, recs := Minimal(payload), [a, b, c];
    LogFront(recs);
    assert recs[1..] == [b, c] && [b, c][1..] == [c];
    LogParts(p, recs, 0);
    LogParts(p, [b, c], 12);
    LogParts(p, [c], 64);
  }

  lemma LogFront(recs: seq<bytes>)
    requires |Log(recs)| <= CONFIG_SIZE
    ensures Partition(recs)[0..0 + |Log(recs)|] == Log(recs)
  {
    hide Log;
  }

  /** No valid serial gives a partition with a phantom in it. */
  lemma MinimalPhantomFree(payload: bytes)
    requires ValidSerial(payload)
    ensures PhantomFree(Minimal(payload), MinimalRecords(payload), 0)
  {
    hide ParseAt, CleanRecord, DirentRecord, InodeRecord, ValidSerial, Minimal;
    SerialSize(payload);
    MinimalLayout(payload);
    var p := Minimal(payload);
    var a, b, c := CleanRecord(), DirentRecord(SerialEntry()), InodeRecord(SerialInode(payload));
    forall o {:trigger ParseAt(p, o)} | 0 < o < 12 && o % 4 == 0
      ensures ParseAt(p, o).None?
    {
      CleanInside(p, o);
    }
    forall o {:trigger ParseAt(p, o)} | 12 < o < 62 && o % 4 == 0
      ensures ParseAt(p, o).None?
    {
      DirentInside(p, o - 12);
    }
    forall o {:trigger ParseAt(p, o)} | 64 < o < 176 && o % 4 == 0
      ensures ParseAt(p, o).None?
    {
      InodeInside(p, payload, o - 64);
    }
    assert [a, b, c][1..] == [b, c] && [b, c][1..] == [c];
    assert PhantomFree(p, [c], 64);
    assert PhantomFree(p, [b, c], 12);
  }

  // ----- the round trip -----

  lemma MinimalScans(payload: bytes)
    requires ValidSerial(payload)
    ensures var nodes := Scan(Minimal(payload), 0);
            && |nodes| == 3 && (forall n :: n in nodes ==> n.status.Current?)
            && nodes[0].body.CleanMarker? && nodes[1].body == SerialEntry() && nodes[2].body == SerialInode(payload)
  {
    hide ParseAt, Reads, Scan, CleanRecord, DirentRecord, InodeRecord, ValidSerial, PhantomFree, FitsFrom, Log,
      Align4, Minimal;
    MinimalPhantomFree(payload);
    MinimalFits(payload);
    SerialSize(payload);
    CleanParses();
    DirentParses(SerialEntry());
    InodeParses(SerialInode(payload));
    var a, b, c := CleanRecord(), DirentRecord(SerialEntry()), InodeRecord(SerialInode(payload));
    assert AllWhole(MinimalRecords(payload));
    MinimalIsPartition(payload);
    PartitionScans(MinimalRecords(payload));
    ThreeNodes(a, b, c);
  }

  /** The builder succeeds for every valid serial, and strict extraction finds it in three current nodes. */
  lemma MinimalRoundTrip(payload: bytes, inflate: Inflate)
    requires ValidSerial(payload)
    ensures BuildMinimal(payload, inflate) == Ok(Minimal(payload))
    ensures Extract(Minimal(payload), false, false, inflate)
         == Ok(Info(Scan(Minimal(payload), 0), Serial(payload, false), None))
  {
    hide Scan, ValidSerial, Minimal, MinimalRecords, PhantomFree, KnownNames, RecoverSerial, Collect;
    MinimalScans(payload);
    SerialSize(payload);
    var nodes := Scan(Minimal(payload), 0);
    KnownSerialName();
    FilterNone(nodes, IsUnknownDirent);
    FilterAll(nodes, IsCurrent);
    MinimalCollects(nodes);
    MinimalSerial(nodes, payload);
    hide Filter;
  }

  lemma KnownSerialName()
    ensures SERIAL_NAME in KnownNames()
  {
    assert SERIAL_NAME == Ascii("serial.cfg");
  }

  lemma MinimalCollects(nodes: seq<Node>)
    requires |nodes| == 3 && forall n :: n in nodes ==> n.status.Current?
    requires nodes[0].body.CleanMarker? && nodes[1].body.Dirent? && nodes[2].body.Inode?
    ensures Collect(nodes, []) == Ok([nodes[1]])
  {
    assert nodes[1] in nodes;
    assert nodes[1..][0] == nodes[1] && nodes[1..][1..] == nodes[2..] && nodes[2..][0] == nodes[2]
           && nodes[2..][1..] == [];
    assert Put([], nodes[1]) == Ok([nodes[1]]);
    assert Collect([], [nodes[1]]) == Ok([nodes[1]]);
    assert Collect(nodes[2..], [nodes[1]]) == Ok([nodes[1]]);
    assert Collect(nodes[1..], []) == Ok([nodes[1]]);
  }

  lemma MinimalSerial(nodes: seq<Node>, payload: bytes)
    requires |nodes| == 3 && (forall n :: n in nodes ==> n.status.Current?) && |payload| == 44 && ValidSerial(payload)
    requires nodes[0].body.CleanMarker? && nodes[1].body == SerialEntry() && nodes[2].body == SerialInode(payload)
    ensures RecoverSerial(nodes, [nodes[1]]) == Ok(Serial(payload, false))
  {
    hide ValidSerial;
    assert nodes[2] in nodes;
    FilterOne([nodes[1]], 0, SerialEntries());
    assert IsLiveSerialOf(7)(nodes[2]);
    FilterOne(nodes, 2, IsLiveSerialOf(7));
    LiveSerialsAreInodes(nodes, 7);
    assert MaxVersion([nodes[2]]) == 2;
    FilterOne([nodes[2]], 0, HasVersion(2));
  }
}

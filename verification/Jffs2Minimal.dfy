/** The serial-only config: a cleanmarker, one directory entry and one inode. */
module Jffs2Minimal {
  import opened Bytes
  import opened Lists
  import opened Jffs2Node
  import opened Jffs2Record
  import opened Jffs2Log
  import opened Jffs2Config
  import opened Jffs2Build

  function SerialEntry(): Body {
    Dirent(1, 123, 7, 1, 8, SERIAL_NAME)
  }

  function SerialInode(payload: bytes): Body
    requires |payload| < 0x1_0000_0000 - 68
  {
    Inode(7, 2, 0x81A4, 0, 0, |payload|, 18, 18, 18, 0, |payload|, |payload|, 0, 0, 0, payload)
  }

  function MinimalRecords(payload: bytes): (recs: seq<bytes>)
    requires ValidSerial(payload)
    ensures |recs| == 3
  {
    [CleanRecord(), DirentRecord(SerialEntry()), InodeRecord(SerialInode(payload))]
  }

  lemma ThreeFit(a: bytes, b: bytes, c: bytes)
    ensures |Log([a, b, c])| == Align4(|a|) + Align4(|b|) + Align4(|c|)
    ensures FitsFrom([a, b, c], 0) <==>
            |a| <= ERASEBLOCK && Align4(|a|) + |b| <= ERASEBLOCK && Align4(|a|) + Align4(|b|) + |c| <= ERASEBLOCK
  {
    hide Align4;
    assert [a, b, c][1..] == [b, c] && [b, c][1..] == [c];
    assert Log([c]) == Padded(c) + Log([]);
    assert FitsFrom([c], Align4(|a|) + Align4(|b|)) == (Align4(|a|) + Align4(|b|) + |c| <= ERASEBLOCK);
    assert FitsFrom([b, c], Align4(|a|)) ==
           (Align4(|a|) + |b| <= ERASEBLOCK && FitsFrom([c], Align4(|a|) + Align4(|b|)));
  }

  lemma ThreeNodes(a: bytes, b: bytes, c: bytes)
    requires Whole(a) && Whole(b) && Whole(c) && AllWhole([a, b, c])
    ensures NodesAt([a, b, c], 0) == [ParseAt(a, 0).value.(offset := 0), ParseAt(b, 0).value.(offset := Align4(|a|)),
                                      ParseAt(c, 0).value.(offset := Align4(|a|) + Align4(|b|))]
  {
    hide ParseAt, Align4, Reads, Read32;
    assert [a, b, c][1..] == [b, c] && [b, c][1..] == [c];
    assert AllWhole([c]) && AllWhole([b, c]);
    assert NodesAt([c], Align4(|a|) + Align4(|b|)) == [ParseAt(c, 0).value.(offset := Align4(|a|) + Align4(|b|))] + [];
    assert NodesAt([b, c], Align4(|a|)) ==
           [ParseAt(b, 0).value.(offset := Align4(|a|))] + NodesAt([c], Align4(|a|) + Align4(|b|));
  }

  lemma SerialSize(payload: bytes)
    requires ValidSerial(payload)
    ensures |payload| == 44
  {
  }

  lemma MinimalFits(payload: bytes)
    requires ValidSerial(payload)
    ensures FitsFrom(MinimalRecords(payload), 0) && |Log(MinimalRecords(payload))| == 176
  {
    hide CleanRecord, DirentRecord, InodeRecord, ValidSerial, Log, FitsFrom;
    SerialSize(payload);
    ThreeFit(CleanRecord(), DirentRecord(SerialEntry()), InodeRecord(SerialInode(payload)));
  }

  function Minimal(payload: bytes): bytes
    requires ValidSerial(payload)
  {
    MinimalFits(payload);
    Partition(MinimalRecords(payload))
  }

  predicate IsCurrent(n: Node) {
    n.status.Current?
  }

  /** The final self-check of build_minimal_config. */
  function MinimalCheck(built: bytes, payload: bytes, inflate: Inflate): Result<bytes> {
    var info :- Extract(built, false, false, inflate);
    if info.serial.payload != payload then Err("internal JFFS2 round-trip validation failed")
    else if |Filter(info.nodes, IsCurrent)| != 3 then Err("expected exactly three current nodes")
    else Ok(built)
  }

  function BuildMinimal(payload: bytes, inflate: Inflate): Result<bytes> {
    if !ValidSerial(payload) then Err("refusing to build config from an invalid serial payload")
    else MinimalCheck(Minimal(payload), payload, inflate)
  }

  /** Three nodes written one after another into an erased buffer. */
  method WriteThree(a: bytes, b: bytes, c: bytes) returns (r: Result<bytes>)
    requires a != [] && |a| <= ERASEBLOCK
    ensures r.Ok? <==> FitsFrom([a, b, c], 0)
    ensures r.Ok? ==> |Log([a, b, c])| <= ERASEBLOCK && r.value == Partition([a, b, c])
  {
    hide Holds, Log, Align4, Partition;
    ThreeFit(a, b, c);
    var output: array<byte> := new byte[CONFIG_SIZE](_ => 0xFF);
    EmptyHolds(output[..]);
    var ok, cursor := WriteNode(output, 0, a, []);
    ok, cursor := WriteNode(output, cursor, b, [] + [a]);
    if !ok {
      return Err("does not fit the first eraseblock");
    }
    ok, cursor := WriteNode(output, cursor, c, [] + [a] + [b]);
    if !ok {
      return Err("does not fit the first eraseblock");
    }
    assert [] + [a] + [b] + [c] == [a, b, c];
    HoldsMeans(output[..], [a, b, c], cursor);
    return Ok(output[..]);
  }

  /** build_minimal_config. */
  method BuildMinimalConfig(payload: bytes, inflate: Inflate) returns (r: Result<bytes>)
    ensures r == BuildMinimal(payload, inflate)
  {
    hide MinimalCheck, CleanRecord, DirentRecord, InodeRecord, ValidSerial, FitsFrom, Log;
    if !ValidSerial(payload) {
      return Err("refusing to build config from an invalid serial payload");
    }
    SerialSize(payload);
    MinimalFits(payload);
    var written := WriteThree(CleanRecord(), DirentRecord(SerialEntry()), InodeRecord(SerialInode(payload)));
    return MinimalCheck(written.value, payload, inflate);
  }

  lemma MinimalIsPartition(payload: bytes)
    requires ValidSerial(payload)
    ensures |Log(MinimalRecords(payload))| <= CONFIG_SIZE && Minimal(payload) == Partition(MinimalRecords(payload))
  {
    hide MinimalRecords, ValidSerial, Log, FitsFrom, Partition;
    MinimalFits(payload);
  }
}

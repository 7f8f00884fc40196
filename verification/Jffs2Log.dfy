/**
 A compact log: whole node images at 4-byte aligned offsets, padded with FF,
 in a partition that is FF everywhere else.
 */
module Jffs2Log {
  import opened Bytes
  import opened Jffs2Node

  const CONFIG_SIZE: nat := 0x2_0000
  const ERASEBLOCK: nat := 0x4000

  function Padded(r: bytes): (p: bytes)
    ensures |p| == Align4(|r|)
  {
    r + Repeat(0xFF, Align4(|r|) - |r|)
  }

  function Log(recs: seq<bytes>): (log: bytes)
    ensures |log| % 4 == 0
  {
    if recs == [] then [] else Padded(recs[0]) + Log(recs[1..])
  }

  function Partition(recs: seq<bytes>): (p: bytes)
    requires |Log(recs)| <= CONFIG_SIZE
    ensures |p| == CONFIG_SIZE
  {
    Log(recs) + Repeat(0xFF, CONFIG_SIZE - |Log(recs)|)
  }

  /** A node image that parses on its own and whose parse reads exactly its own bytes. */
  ghost predicate Whole(r: bytes) {
    |r| >= 12 && ParseAt(r, 0).Some? && Reads(r, 0) == |r| == Read32(r, 4)
  }

  ghost predicate AllWhole(recs: seq<bytes>) {
    forall r :: r in recs ==> Whole(r)
  }

  /** The nodes of a log that starts at an offset: each image's own node, moved there. */
  ghost function NodesAt(recs: seq<bytes>, at: nat): seq<Node>
    requires AllWhole(recs)
  {
    if recs == [] then []
    else
      assert recs[0] in recs;
      [ParseAt(recs[0], 0).value.(offset := at)] + NodesAt(recs[1..], at + Align4(|recs[0]|))
  }

  /** No aligned offset strictly inside a written node is accepted as a node by the scan. */
  ghost predicate PhantomFree(data: bytes, recs: seq<bytes>, at: nat) {
    recs == [] ||
    (&& (forall o {:trigger ParseAt(data, o)} ::
           at < o < at + |recs[0]| && o % 4 == 0 && o + 12 <= |data| ==> ParseAt(data, o).None?)
     && PhantomFree(data, recs[1..], at + Align4(|recs[0]|)))
  }

  lemma {:induction false} ScanSkips(data: bytes, a: nat, b: nat)
    requires a <= b && a % 4 == 0 && b % 4 == 0
    requires forall o {:trigger ParseAt(data, o)} ::
               a <= o < b && o % 4 == 0 && o + 12 <= |data| ==> ParseAt(data, o).None?
    ensures Scan(data, a) == Scan(data, b)
    decreases b - a
  {
    hide ParseAt;
    if a < b && a + 12 <= |data| {
      assert ParseAt(data, a).None?;
      ScanSkips(data, a + 4, b);
    }
  }

  /** Erased flash holds no headers. */
  lemma {:induction false} ScanErased(data: bytes, a: nat)
    requires forall i :: a <= i < |data| ==> data[i] == 0xFF
    ensures Scan(data, a) == []
    decreases |data| - a
  {
    if a + 12 <= |data| {
      assert Read16(data, a) == 0xFFFF;
      assert ParseAt(data, a).None?;
      hide ParseAt, HeaderStatus;
      ScanErased(data, a + 4);
    }
  }

  /** The first image of a log is read as its own node, and the scan goes on after its padding. */
  lemma ScanFirst(data: bytes, rec: bytes, at: nat)
    requires at % 4 == 0 && Whole(rec) && at + |rec| <= |data| && data[at..at + |rec|] == rec
    requires forall o {:trigger ParseAt(data, o)} ::
               at < o < at + |rec| && o % 4 == 0 && o + 12 <= |data| ==> ParseAt(data, o).None?
    ensures Scan(data, at) == [ParseAt(rec, 0).value.(offset := at)] + Scan(data, at + Align4(|rec|))
  {
    hide ParseAt, HeaderStatus, Reads, Scan;
    assert rec[0..0 + |rec|] == rec;
    ParseAgree(rec, 0, data, at, |rec|);
    ScanUnfold(data, at);
    ScanSkips(data, at + 4, at + Align4(|rec|));
  }

  lemma LogParts(data: bytes, recs: seq<bytes>, at: nat)
    requires recs != [] && at + |Log(recs)| <= |data| && data[at..at + |Log(recs)|] == Log(recs)
    ensures |Log(recs)| == Align4(|recs[0]|) + |Log(recs[1..])|
    ensures data[at..at + |recs[0]|] == recs[0]
    ensures var next := at + Align4(|recs[0]|);
            data[next..next + |Log(recs[1..])|] == Log(recs[1..])
  {
    hide *;
    LogSplit(recs);
    PartsLie(data, at, recs[0], Padded(recs[0]), Log(recs[1..]));
  }

  lemma LogSplit(recs: seq<bytes>)
    requires recs != []
    ensures Log(recs) == Padded(recs[0]) + Log(recs[1..])
    ensures |Padded(recs[0])| == Align4(|recs[0]|) >= |recs[0]| && Padded(recs[0])[..|recs[0]|] == recs[0]
  {
    hide Align4;
  }

  lemma PartsLie(data: bytes, at: nat, rec: bytes, padded: bytes, rest: bytes)
    requires |rec| <= |padded| && padded[..|rec|] == rec && at + |padded + rest| <= |data|
    requires data[at..at + |padded + rest|] == padded + rest
    ensures data[at..at + |rec|] == rec && data[at + |padded|..at + |padded| + |rest|] == rest
  {
    var log := padded + rest;
    SliceOfSlice(data, at, |log|, 0, |rec|);
    assert log[0..|rec|] == padded[..|rec|];
    SliceOfSlice(data, at, |log|, |padded|, |log|);
    assert log[|padded|..|log|] == rest;
  }

  /** Scanning a phantom-free log returns exactly the written nodes. */
  lemma {:induction false} ScanLog(data: bytes, recs: seq<bytes>, at: nat)
    requires AllWhole(recs) && at % 4 == 0 && at + |Log(recs)| <= |data|
    requires data[at..at + |Log(recs)|] == Log(recs)
    requires forall i :: at + |Log(recs)| <= i < |data| ==> data[i] == 0xFF
    requires PhantomFree(data, recs, at)
    ensures Scan(data, at) == NodesAt(recs, at)
  {
    hide ParseAt, HeaderStatus, Reads, Scan, Whole, AllWhole, PhantomFree, NodesAt, Log;
    if recs == [] {
      NothingWritten(at);
      ScanErased(data, at);
    } else {
      var rec, next := recs[0], at + Align4(|recs[0]|);
      LogParts(data, recs, at);
      FirstWritten(data, recs, at);
      ScanFirst(data, rec, at);
      ScanLog(data, recs[1..], next);
    }
  }

  lemma NothingWritten(at: nat)
    ensures AllWhole([]) && Log([]) == [] && NodesAt([], at) == []
  {
  }

  /** The first record of a phantom-free log, and the rest. */
  lemma FirstWritten(data: bytes, recs: seq<bytes>, at: nat)
    requires AllWhole(recs) && recs != [] && PhantomFree(data, recs, at)
    ensures Whole(recs[0]) && ParseAt(recs[0], 0).Some? && AllWhole(recs[1..])
    ensures forall o {:trigger ParseAt(data, o)} ::
              at < o < at + |recs[0]| && o % 4 == 0 && o + 12 <= |data| ==> ParseAt(data, o).None?
    ensures var next := at + Align4(|recs[0]|);
            && PhantomFree(data, recs[1..], next)
            && NodesAt(recs, at) == [ParseAt(recs[0], 0).value.(offset := at)] + NodesAt(recs[1..], next)
  {
    hide ParseAt, Reads, Align4, Read32;
    assert recs[0] in recs;
  }

  lemma PartitionScans(recs: seq<bytes>)
    requires AllWhole(recs) && |Log(recs)| <= CONFIG_SIZE && PhantomFree(Partition(recs), recs, 0)
    ensures Scan(Partition(recs), 0) == NodesAt(recs, 0)
  {
    hide Scan, Whole, HeaderStatus;
    var p := Partition(recs);
    assert p[0..0 + |Log(recs)|] == Log(recs);
    ScanLog(p, recs, 0);
  }

  // ----- and only then -----

  lemma {:induction false} ScanFinds(data: bytes, a: nat, o: nat)
    requires a % 4 == 0 && o % 4 == 0 && a <= o && o + 12 <= |data| && ParseAt(data, o).Some?
    ensures ParseAt(data, o).value in Scan(data, a)
    decreases o - a
  {
    hide ParseAt;
    if a < o {
      ScanFinds(data, a + 4, o);
    }
  }

  lemma ParsedOffset(data: bytes, o: nat)
    requires o + 12 <= |data| && ParseAt(data, o).Some?
    ensures ParseAt(data, o).value.offset == o
  {
  }

  /** No node of the log lies strictly inside its first image. */
  lemma {:induction false} NodesAtOffsets(recs: seq<bytes>, at: nat)
    requires AllWhole(recs)
    ensures forall n :: n in NodesAt(recs, at) ==> n.offset >= at
    decreases |recs|
  {
    hide ParseAt, Reads, Whole;
    if recs != [] {
      assert recs[0] in recs;
      NodesAtOffsets(recs[1..], at + Align4(|recs[0]|));
    }
  }

  lemma LaterNode(recs: seq<bytes>, at: nat, n: Node)
    requires AllWhole(recs) && recs != [] && n in NodesAt(recs, at) && n.offset != at
    ensures n in NodesAt(recs[1..], at + Align4(|recs[0]|))
  {
    hide ParseAt, Reads, Whole;
    assert recs[0] in recs;
  }

  ghost predicate FoundIn(data: bytes, recs: seq<bytes>, at: nat)
    requires AllWhole(recs)
  {
    forall o: nat {:trigger ParseAt(data, o)} ::
      at <= o && o % 4 == 0 && o + 12 <= |data| && ParseAt(data, o).Some? ==>
        ParseAt(data, o).value in NodesAt(recs, at)
  }

  /** Whatever is found from an offset on is at the start of a written node: nothing is inside one. */
  lemma {:induction false} NoneInside(data: bytes, recs: seq<bytes>, at: nat)
    requires AllWhole(recs) && at % 4 == 0 && FoundIn(data, recs, at)
    ensures PhantomFree(data, recs, at)
    decreases |recs|
  {
    hide ParseAt, FoundIn;
    if recs != [] {
      FoundLater(data, recs, at);
      NoneInside(data, recs[1..], at + Align4(|recs[0]|));
    }
  }

  /** Anything found after the start of the first image belongs to a later one. */
  lemma FoundOne(data: bytes, recs: seq<bytes>, at: nat, o: nat)
    requires AllWhole(recs) && FoundIn(data, recs, at) && recs != []
    requires at < o && o % 4 == 0 && o + 12 <= |data| && ParseAt(data, o).Some?
    ensures AllWhole(recs[1..]) && ParseAt(data, o).value in NodesAt(recs[1..], at + Align4(|recs[0]|))
            && at + Align4(|recs[0]|) <= o
  {
    hide ParseAt, Whole, AllWhole, NodesAt;
    FirstSize(recs);
    ParsedOffset(data, o);
    LaterNode(recs, at, ParseAt(data, o).value);
    NodesAtOffsets(recs[1..], at + Align4(|recs[0]|));
  }

  lemma FirstSize(recs: seq<bytes>)
    requires AllWhole(recs) && recs != []
    ensures |recs[0]| >= 12 && AllWhole(recs[1..])
  {
    assert Whole(recs[0]);
    hide ParseAt, Reads;
  }

  lemma FoundLater(data: bytes, recs: seq<bytes>, at: nat)
    requires AllWhole(recs) && FoundIn(data, recs, at) && recs != []
    ensures var next := at + Align4(|recs[0]|);
            && at < next && AllWhole(recs[1..]) && FoundIn(data, recs[1..], next)
            && forall o: nat {:trigger ParseAt(data, o)} :: at < o < next && o % 4 == 0 && o + 12 <= |data| ==>
               ParseAt(data, o).None?
  {
    hide ParseAt, AllWhole, NodesAt;
    FirstSize(recs);
    var next := at + Align4(|recs[0]|);
    forall o: nat {:trigger ParseAt(data, o)} | at < o && o % 4 == 0 && o + 12 <= |data| && ParseAt(data, o).Some?
      ensures ParseAt(data, o).value in NodesAt(recs[1..], next) && next <= o
    {
      FoundOne(data, recs, at, o);
    }
  }

  /** The scan of a partition lists exactly the written nodes if and only if no phantom is inside one of them. */
  lemma ScanExactly(recs: seq<bytes>)
    requires AllWhole(recs) && |Log(recs)| <= CONFIG_SIZE
    ensures Scan(Partition(recs), 0) == NodesAt(recs, 0) <==> PhantomFree(Partition(recs), recs, 0)
  {
    hide ParseAt, Scan, Whole, PhantomFree, Partition, NodesAt;
    var p := Partition(recs);
    if Scan(p, 0) == NodesAt(recs, 0) {
      forall o: nat {:trigger ParseAt(p, o)} | o % 4 == 0 && o + 12 <= |p| && ParseAt(p, o).Some?
        ensures ParseAt(p, o).value in NodesAt(recs, 0)
      {
        ScanFinds(p, 0, o);
      }
      NoneInside(p, recs, 0);
    }
    if PhantomFree(p, recs, 0) {
      PartitionScans(recs);
    }
  }

  // ----- where the records start -----

  /** Where the records of a log start. */
  function Starts(recs: seq<bytes>, at: nat): set<nat> {
    if recs == [] then {} else {at} + Starts(recs[1..], at + Align4(|recs[0]|))
  }

  lemma {:induction false} StartsFrom(recs: seq<bytes>, at: nat)
    ensures forall o :: o in Starts(recs, at) ==> at <= o
    decreases |recs|
  {
    if recs != [] {
      StartsFrom(recs[1..], at + Align4(|recs[0]|));
    }
  }

  // ----- a check on the bytes alone -----

  /** No aligned offset inside a written node starts with the JFFS2 magic. */
  predicate MagicFree(data: bytes, recs: seq<bytes>, at: nat) {
    recs == [] ||
    (&& (forall o: nat {:trigger Read16(data, o)} ::
           at < o < at + |recs[0]| && o % 4 == 0 && o + 12 <= |data| ==> Read16(data, o) != MAGIC)
     && MagicFree(data, recs[1..], at + Align4(|recs[0]|)))
  }

  /** Without the magic inside a node there is no phantom, whatever the CRCs. */
  lemma {:induction false} MagicFreeIsPhantomFree(data: bytes, recs: seq<bytes>, at: nat)
    requires MagicFree(data, recs, at)
    ensures PhantomFree(data, recs, at)
    decreases |recs|
  {
    if recs != [] {
      forall o: nat {:trigger ParseAt(data, o)} | at < o < at + |recs[0]| && o % 4 == 0 && o + 12 <= |data|
        ensures ParseAt(data, o).None?
      {
        NoMagicNoNode(data, o);
      }
      hide ParseAt;
      MagicFreeIsPhantomFree(data, recs[1..], at + Align4(|recs[0]|));
    }
  }

  lemma NoMagicNoNode(data: bytes, o: nat)
    requires o + 12 <= |data| && Read16(data, o) != MAGIC
    ensures ParseAt(data, o).None?
  {
    hide Read16, CrcOf;
  }
}

/** Obsoleting a node of a written log: nothing else reads its header, so only that node goes. */
module Jffs2ObsoleteLog {
  import opened Bytes
  import opened Jffs2Node
  import opened Jffs2Log
  import opened Jffs2Config
  import opened Jffs2Obsolete

  /** The record that starts at an offset. */
  function RecordAt(recs: seq<bytes>, at: nat, q: nat): bytes
    requires q in Starts(recs, at)
    decreases |recs|
  {
    if q == at then recs[0] else RecordAt(recs[1..], at + Align4(|recs[0]|), q)
  }

  /** Records lie one after another. */
  lemma {:induction false} RecordsApart(recs: seq<bytes>, at: nat, q: nat, o: nat)
    requires q in Starts(recs, at) && o in Starts(recs, at) && q < o
    ensures q + |RecordAt(recs, at, q)| <= o
    decreases |recs|
  {
    var next := at + Align4(|recs[0]|);
    StartsFrom(recs[1..], next);
    if q != at {
      RecordsApart(recs[1..], next, q, o);
    }
  }

  lemma {:induction false} RecordLies(data: bytes, recs: seq<bytes>, at: nat, q: nat)
    requires AllWhole(recs) && q in Starts(recs, at) && at % 4 == 0
    requires at + |Log(recs)| <= |data| && data[at..at + |Log(recs)|] == Log(recs)
    ensures var r := RecordAt(recs, at, q);
            Whole(r) && q % 4 == 0 && q + |r| <= at + |Log(recs)| && data[q..q + |r|] == r
    decreases |recs|
  {
    hide Whole;
    LogParts(data, recs, at);
    assert recs[0] in recs;
    if q != at {
      RecordLies(data, recs[1..], at + Align4(|recs[0]|), q);
    }
  }

  /** What is accepted in a phantom-free log, written or changed, starts a record. */
  lemma {:induction false} AcceptedStarts(data: bytes, recs: seq<bytes>, at: nat, q: nat)
    requires PhantomFree(data, recs, at) && at <= q && q % 4 == 0 && at % 4 == 0 && q + 12 <= |data|
             && ParseAt(data, q).Some?
    requires forall i :: at + |Log(recs)| <= i < |data| ==> data[i] == 0xFF
    ensures q in Starts(recs, at)
    decreases |recs|
  {
    hide ParseAt, Log, Align4, Starts, PhantomFree;
    if recs == [] {
      EmptyLog();
      ErasedNoNode(data, q);
    } else {
      var next := at + Align4(|recs[0]|);
      StartsUnfold(recs, at);
      LogLength(recs);
      if q != at {
        PastRecord(data, recs, at, q);
      AcceptedStarts(data, recs[1..], next, q);
    }
    }
  }

  lemma PastRecord(data: bytes, recs: seq<bytes>, at: nat, q: nat)
    requires recs != [] && PhantomFree(data, recs, at) && at < q && q % 4 == 0 && at % 4 == 0 && q + 12 <= |data|
    requires ParseAt(data, q).Some?
    ensures var next := at + Align4(|recs[0]|);
            PhantomFree(data, recs[1..], next) && next <= q && next % 4 == 0
  {
    hide ParseAt;
  }

  lemma StartsUnfold(recs: seq<bytes>, at: nat)
    requires recs != []
    ensures Starts(recs, at) == {at} + Starts(recs[1..], at + Align4(|recs[0]|))
  {
    hide Align4;
  }

  lemma EmptyLog()
    ensures Log([]) == []
  {
  }

  lemma LogLength(recs: seq<bytes>)
    requires recs != []
    ensures |Log(recs)| == Align4(|recs[0]|) + |Log(recs[1..])|
  {
    hide Align4;
  }

  lemma ErasedNoNode(data: bytes, q: nat)
    requires q + 12 <= |data| && data[q] == 0xFF
    ensures ParseAt(data, q).None?
  {
    assert Read16(data, q) != MAGIC;
    NoMagicNoNode(data, q);
  }

  /** A parse of a whole record reads just the record. */
  lemma ReadsRecord(data: bytes, r: bytes, q: nat)
    requires Whole(r) && q + |r| <= |data| && data[q..q + |r|] == r
    ensures Reads(data, q) == |r|
  {
    hide HeaderStatus, Read16, Read32, CrcOf;
    var n := |r|;
    assert r[0..0 + n] == r && Agree(r, 0, data, q, n);
    AgreeHeader(r, 0, data, q, n);
    AgreeReads(r, 0, data, q, n, 28);
    AgreeReads(r, 0, data, q, n, 48);
    WholeHeader(r);
  }

  lemma WholeHeader(r: bytes)
    requires Whole(r)
    ensures HeaderStatus(r, 0).Some? && 12 <= Read32(r, 4) == |r|
  {
    hide Read16, Read32, CrcOf, Restored;
  }

  /** In a log without phantoms, before and after the clearing, nothing else reads the byte that is cleared. */
  lemma AloneInLog(data: bytes, recs: seq<bytes>, o: nat)
    requires AllWhole(recs) && |Log(recs)| <= CONFIG_SIZE && data == Partition(recs) && o in Starts(recs, 0)
    requires PhantomFree(data, recs, 0)
    requires o + 12 <= |data| && Accurate(Read16(data, o + 2)) ==> PhantomFree(Cleared(data, o), recs, 0)
    ensures o % 4 == 0 && o + 12 <= |data| && (Accurate(Read16(data, o + 2)) ==> Alone(data, o))
  {
    hide ParseAt, Whole, PhantomFree, Reads, Accurate, Cleared, Log;
    assert data[0..0 + |Log(recs)|] == Log(recs);
    RecordLies(data, recs, 0, o);
    RecordSize(RecordAt(recs, 0, o));
    if Accurate(Read16(data, o + 2)) {
      var c := Cleared(data, o);
      ClearedTail(data, recs, o);
      forall p: nat | p != o && p % 4 == 0 && p + 12 <= |data|
        ensures !Covers(data, p, o + 3) && !Covers(c, p, o + 3)
      {
        if ParseAt(data, p).Some? {
          AcceptedStarts(data, recs, 0, p);
          NotOver(data, data, recs, o, p);
        }
        if ParseAt(c, p).Some? {
          AcceptedStarts(c, recs, 0, p);
          NotOver(data, c, recs, o, p);
        }
      }
    }
  }

  lemma RecordSize(r: bytes)
    requires Whole(r)
    ensures |r| >= 12
  {
  }

  lemma ClearedTail(data: bytes, recs: seq<bytes>, o: nat)
    requires |Log(recs)| <= CONFIG_SIZE && data == Partition(recs) && o + 12 <= |Log(recs)|
             && Accurate(Read16(data, o + 2))
    ensures forall i :: |Log(recs)| <= i < |data| ==> Cleared(data, o)[i] == 0xFF && data[i] == 0xFF
  {
    hide Log;
  }

  /** Another record does not reach the byte, in a partition that differs at most in that byte. */
  lemma NotOver(data: bytes, c: bytes, recs: seq<bytes>, o: nat, p: nat)
    requires AllWhole(recs) && |Log(recs)| <= CONFIG_SIZE && data == Partition(recs)
    requires o in Starts(recs, 0) && p in Starts(recs, 0) && p != o && p + 12 <= |c| && |c| == |data|
    requires forall i :: 0 <= i < |data| && i != o + 3 ==> c[i] == data[i]
    ensures !(p <= o + 3 < p + Reads(c, p))
  {
    hide ParseAt, Whole, Reads, Log;
    assert data[0..0 + |Log(recs)|] == Log(recs);
    RecordLies(data, recs, 0, p);
    RecordLies(data, recs, 0, o);
    RecordSize(RecordAt(recs, 0, o));
    var r := RecordAt(recs, 0, p);
    if p < o {
      RecordsApart(recs, 0, p, o);
    } else {
      RecordsApart(recs, 0, o, p);
    }
    assert c[p..p + |r|] == data[p..p + |r|];
    ReadsRecord(c, r, p);
  }

  /** Clearing a type's bit puts no magic anywhere. */
  lemma {:induction false} MagicFreeCleared(data: bytes, recs: seq<bytes>, at: nat, o: nat)
    requires MagicFree(data, recs, at) && o % 4 == 0 && o + 12 <= |data| && Accurate(Read16(data, o + 2))
    ensures MagicFree(Cleared(data, o), recs, at)
    decreases |recs|
  {
    if recs != [] {
      forall q: nat {:trigger Read16(Cleared(data, o), q)} | at < q < at + |recs[0]| && q % 4 == 0 && q + 12 <= |data|
        ensures Read16(Cleared(data, o), q) == Read16(data, q)
      {
        assert q != o + 3 && q + 1 != o + 3;
      }
      MagicFreeCleared(data, recs[1..], at + Align4(|recs[0]|), o);
    }
  }

  /**
   Obsoleting any node of a written log whose nodes hold no magic inside: the scan then lists the log with that
   one node obsolete, and the live files are those of the log without it.
   */
  lemma ObsoletingInLog(recs: seq<bytes>, o: nat, inflate: Inflate) returns (pre: seq<Node>, post: seq<Node>)
    requires AllWhole(recs) && |Log(recs)| <= CONFIG_SIZE && MagicFree(Partition(recs), recs, 0) && o in Starts(recs, 0)
    ensures o % 4 == 0 && o + 12 <= |Partition(recs)|
    ensures var data := Partition(recs);
            Accurate(Read16(data, o + 2)) && ParseAt(data, o).Some? && ParseAt(data, o).value.status.Current? ==>
              && Scan(data, 0) == pre + [ParseAt(data, o).value] + post
              && Scan(Cleared(data, o), 0) == pre + [Obsoleted(ParseAt(data, o).value)] + post
              && LiveFiles(Scan(Cleared(data, o), 0), inflate) == LiveFiles(pre + post, inflate)
  {
    hide ParseAt, Whole, Cleared, Scan, LiveFiles, Log, MagicFree, PhantomFree, Accurate, Partition, Alone;
    var data := Partition(recs);
    MagicFreeIsPhantomFree(data, recs, 0);
    StartFits(recs, o);
    if Accurate(Read16(data, o + 2)) {
      MagicFreeCleared(data, recs, 0, o);
      MagicFreeIsPhantomFree(Cleared(data, o), recs, 0);
    }
    AloneInLog(data, recs, o);
    if Accurate(Read16(data, o + 2)) && ParseAt(data, o).Some? && ParseAt(data, o).value.status.Current? {
      pre, post := ObsoletingRemovesNode(data, o, inflate);
    } else {
      pre, post := [], [];
    }
  }

  lemma StartFits(recs: seq<bytes>, o: nat)
    requires AllWhole(recs) && |Log(recs)| <= CONFIG_SIZE && o in Starts(recs, 0)
    ensures o % 4 == 0 && o + 12 <= |Partition(recs)|
  {
    hide Whole, Log;
    var data := Partition(recs);
    assert data[0..0 + |Log(recs)|] == Log(recs);
    RecordLies(data, recs, 0, o);
    RecordSize(RecordAt(recs, 0, o));
  }
}

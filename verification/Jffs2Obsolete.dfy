/** Clearing the accurate bit of one node turns it obsolete and removes it from the live files, nothing else. */
module Jffs2Obsolete {
  import opened Bytes
  import opened Lists
  import Crc32
  import opened Jffs2Node
  import opened Jffs2Config
  import opened Jffs2Compaction

  /** The partition after the accurate bit of the node at o has been cleared. */
  function Cleared(data: bytes, o: nat): (d: bytes)
    requires o + 12 <= |data| && Accurate(Read16(data, o + 2))
    ensures |d| == |data| && forall i :: 0 <= i < |data| && i != o + 3 ==> d[i] == data[i]
  {
    data[o + 3 := data[o + 3] - 0x20]
  }

  /** An offset that is accepted as a node and whose parse reads a given position. */
  ghost predicate Covers(data: bytes, o: nat, pos: nat)
    requires o + 12 <= |data|
  {
    ParseAt(data, o).Some? && o <= pos < o + Reads(data, o)
  }

  /** No other accepted node reads the changed byte, nor would one that the clearing itself made acceptable. */
  ghost predicate Alone(data: bytes, o: nat)
    requires o + 12 <= |data| && Accurate(Read16(data, o + 2))
  {
    forall p: nat {:trigger Covers(data, p, o + 3)} {:trigger Covers(Cleared(data, o), p, o + 3)} ::
      p != o && p % 4 == 0 && p + 12 <= |data| ==> !Covers(data, p, o + 3) && !Covers(Cleared(data, o), p, o + 3)
  }

  // ----- the node itself -----

  lemma ClearedReads(data: bytes, o: nat)
    requires o + 12 <= |data| && Accurate(Read16(data, o + 2))
    ensures Read16(Cleared(data, o), o + 2) == Read16(data, o + 2) - 0x2000 == ClearAccurate(Read16(data, o + 2))
    ensures !Accurate(Read16(Cleared(data, o), o + 2))
    ensures Read16(Cleared(data, o), o) == Read16(data, o) && Read32(Cleared(data, o), o + 4) == Read32(data, o + 4)
  {
  }

  /** Restoring the bit gives back the original bytes of any prefix of the node. */
  lemma RestoredCleared(data: bytes, o: nat, n: nat)
    requires o + 12 <= |data| && Accurate(Read16(data, o + 2)) && 4 <= n && o + n <= |data|
    ensures Restored(Cleared(data, o)[o..o + n], ClearAccurate(Read16(data, o + 2)), Obsolete) == data[o..o + n]
  {
    var raw, was := Cleared(data, o)[o..o + n], data[o..o + n];
    var t := ClearAccurate(Read16(data, o + 2));
    assert SetAccurate(t) == Read16(data, o + 2);
    var fixed := raw[..2] + Pack16(SetAccurate(t)) + raw[4..];
    forall i | 0 <= i < n
      ensures fixed[i] == was[i]
    {
      if 4 <= i {
        assert fixed[i] == raw[i];
      }
    }
  }

  /** The header CRC no longer holds: one byte differs, and the CRC tells any single byte apart. */
  lemma ClearedHeaderFails(data: bytes, o: nat)
    requires o + 12 <= |data| && Accurate(Read16(data, o + 2))
    ensures CrcOf(Cleared(data, o)[o..o + 8]) != CrcOf(data[o..o + 8])
  {
    hide Crc32.Stored, Crc32.Jffs2;
    var pre, post := data[o..o + 3], data[o + 4..o + 8];
    assert data[o..o + 8] == pre + [data[o + 3]] + post;
    assert Cleared(data, o)[o..o + 8] == pre + [data[o + 3] - 0x20] + post;
    Crc32.OneByteChangesCrc(pre, data[o + 3], data[o + 3] - 0x20, post);
  }

  lemma ClearedHeader(data: bytes, o: nat)
    requires o + 12 <= |data| && Accurate(Read16(data, o + 2)) && HeaderStatus(data, o) == Some(Current)
    ensures HeaderStatus(Cleared(data, o), o) == Some(Obsolete)
  {
    ClearedReads(data, o);
    RestoredCleared(data, o, 8);
    ClearedHeaderFails(data, o);
    assert Cleared(data, o)[o + 8..o + 12] == data[o + 8..o + 12];
    hide CrcOf, Restored, Read16, Read32, Cleared;
  }

  lemma SameTail(data: bytes, o: nat, lo: nat, hi: nat)
    requires o + 12 <= |data| && Accurate(Read16(data, o + 2)) && lo >= o + 4
    ensures Clip(Cleared(data, o), lo, hi) == Clip(data, lo, hi)
    ensures lo <= hi <= |data| ==> Cleared(data, o)[lo..hi] == data[lo..hi]
  {
  }

  lemma SameReads(data: bytes, o: nat, at: nat)
    requires o + 12 <= |data| && Accurate(Read16(data, o + 2)) && at >= o + 4
    ensures at + 2 <= |data| ==> Read16(Cleared(data, o), at) == Read16(data, at)
    ensures at + 4 <= |data| ==> Read32(Cleared(data, o), at) == Read32(data, at)
  {
  }

  lemma ClearedDirent(data: bytes, o: nat)
    requires o + 40 <= |data| && Accurate(Read16(data, o + 2))
    ensures DirentAt(Cleared(data, o), o) == DirentAt(data, o)
    ensures DirentCrcsHold(data, o, Read16(data, o + 2), Current)
            ==> DirentCrcsHold(Cleared(data, o), o, ClearAccurate(Read16(data, o + 2)), Obsolete)
  {
    hide CrcOf, Read16, Read32, Clip;
    ClearedEntry(data, o);
    RestoredCleared(data, o, 32);
    SameTail(data, o, o + 40, o + 40 + data[o + 28] as int);
    SameTail(data, o, o + 32, o + 36);
    SameTail(data, o, o + 36, o + 40);
    SameByte(data, o, o + 28);
  }

  lemma SameByte(data: bytes, o: nat, at: nat)
    requires o + 12 <= |data| && Accurate(Read16(data, o + 2)) && o + 4 <= at < |data|
    ensures Cleared(data, o)[at] == data[at]
  {
  }

  lemma ClearedEntry(data: bytes, o: nat)
    requires o + 40 <= |data| && Accurate(Read16(data, o + 2))
    ensures DirentAt(Cleared(data, o), o) == DirentAt(data, o)
  {
    hide Read16, Read32, Clip, Cleared;
    SameReads(data, o, o + 12);
    SameReads(data, o, o + 16);
    SameReads(data, o, o + 20);
    SameReads(data, o, o + 24);
    SameByte(data, o, o + 28);
    SameByte(data, o, o + 29);
    SameTail(data, o, o + 40, o + 40 + data[o + 28] as int);
  }

  lemma ClearedInode(data: bytes, o: nat)
    requires o + 68 <= |data| && Accurate(Read16(data, o + 2))
    ensures InodeAt(Cleared(data, o), o) == InodeAt(data, o)
    ensures InodeCrcsHold(data, o, Read16(data, o + 2), Current)
            ==> InodeCrcsHold(Cleared(data, o), o, ClearAccurate(Read16(data, o + 2)), Obsolete)
  {
    RestoredCleared(data, o, 60);
    hide CrcOf, Read16, Read32, Clip;
    ClearedInodeFields(data, o);
    SameTail(data, o, o + 60, o + 64);
    SameTail(data, o, o + 64, o + 68);
  }

  lemma ClearedInodeFields(data: bytes, o: nat)
    requires o + 68 <= |data| && Accurate(Read16(data, o + 2))
    ensures InodeAt(Cleared(data, o), o) == InodeAt(data, o)
  {
    hide Read16, Read32, Clip;
    SameReads(data, o, o + 12);
    SameReads(data, o, o + 16);
    SameReads(data, o, o + 20);
    SameReads(data, o, o + 24);
    SameReads(data, o, o + 26);
    SameReads(data, o, o + 28);
    SameReads(data, o, o + 32);
    SameReads(data, o, o + 36);
    SameReads(data, o, o + 40);
    SameReads(data, o, o + 44);
    SameReads(data, o, o + 48);
    SameReads(data, o, o + 52);
    SameReads(data, o, o + 58);
    SameTail(data, o, o + 68, o + 68 + Read32(data, o + 48));
  }

  function Obsoleted(n: Node): Node {
    n.(status := Obsolete, nodeType := ClearAccurate(n.nodeType))
  }

  /** The node is reported with the same fields, as obsolete. */
  lemma ClearedNode(data: bytes, o: nat)
    requires o + 12 <= |data| && ParseAt(data, o).Some? && ParseAt(data, o).value.status.Current?
    requires Accurate(ParseAt(data, o).value.nodeType)
    ensures Accurate(Read16(data, o + 2))
    ensures ParseAt(Cleared(data, o), o) == Some(Obsoleted(ParseAt(data, o).value))
  {
    hide HeaderStatus, DirentAt, InodeAt, DirentCrcsHold, InodeCrcsHold, Read16, Read32, Cleared, Accurate,
      ClearAccurate;
    ParsedHeader(data, o);
    ClearedReads(data, o);
    ClearedHeader(data, o);
    SameBase(Read16(data, o + 2));
    if Read32(data, o + 4) >= 40 {
      ClearedDirent(data, o);
    }
    if Read32(data, o + 4) >= 68 {
      ClearedInode(data, o);
    }
  }

  lemma SameBase(nodeType: u16)
    ensures ClearAccurate(nodeType) % 0x1000 == nodeType % 0x1000
  {
  }

  lemma ParsedHeader(data: bytes, o: nat)
    requires o + 12 <= |data| && ParseAt(data, o).Some?
    ensures ParseAt(data, o).value.nodeType == Read16(data, o + 2)
    ensures HeaderStatus(data, o) == Some(ParseAt(data, o).value.status)
  {
    hide HeaderStatus, DirentAt, InodeAt, DirentCrcsHold, InodeCrcsHold, Read16, Read32;
  }

  // ----- every other offset -----

  lemma ClearedElsewhereHalf(d1: bytes, d2: bytes, p: nat, pos: nat)
    requires |d1| == |d2| && (forall i :: 0 <= i < |d1| && i != pos ==> d1[i] == d2[i])
    requires p + 12 <= |d1| && ParseAt(d1, p).Some? && !Covers(d1, p, pos)
    ensures ParseAt(d2, p) == ParseAt(d1, p)
  {
    hide HeaderStatus, Reads, ParseAt;
    var n := Min(Reads(d1, p), |d1| - p);
    assert d1[p..p + n] == d2[p..p + n];
    assert d1[p + 4..p + 8] == d2[p + 4..p + 8];
    ParseAgree(d1, p, d2, p, n);
    MovedInPlace(d1, p);
  }

  lemma MovedInPlace(data: bytes, p: nat)
    requires p + 12 <= |data|
    ensures Moved(ParseAt(data, p), p) == ParseAt(data, p)
  {
    hide HeaderStatus, DirentAt, InodeAt, DirentCrcsHold, InodeCrcsHold;
  }

  lemma ClearedElsewhere(data: bytes, o: nat, p: nat)
    requires o + 12 <= |data| && Accurate(Read16(data, o + 2)) && Alone(data, o)
    requires p != o && p % 4 == 0 && p + 12 <= |data|
    ensures ParseAt(Cleared(data, o), p) == ParseAt(data, p)
  {
    hide ParseAt, Cleared, Covers;
    var d := Cleared(data, o);
    if ParseAt(data, p).Some? {
      ClearedElsewhereHalf(data, d, p, o + 3);
    } else if ParseAt(d, p).Some? {
      ClearedElsewhereHalf(d, data, p, o + 3);
    }
  }

  /** The scan is the same but for the one node, which is now listed as obsolete. */
  lemma {:induction false} ScanCleared(data: bytes, o: nat, a: nat) returns (pre: seq<Node>, post: seq<Node>)
    requires o + 12 <= |data| && Accurate(Read16(data, o + 2)) && Alone(data, o)
    requires ParseAt(data, o).Some? && ParseAt(Cleared(data, o), o).Some?
    requires a <= o && a % 4 == 0 && o % 4 == 0
    ensures Scan(data, a) == pre + [ParseAt(data, o).value] + post
    ensures Scan(Cleared(data, o), a) == pre + [ParseAt(Cleared(data, o), o).value] + post
    decreases o - a
  {
    hide ParseAt, Cleared, Alone, Scan, Listed;
    ScanUnfold(data, a);
    ScanUnfold(Cleared(data, o), a);
    if a == o {
      pre := [];
      post := Scan(data, o + 4);
      ScanAfter(data, o, o + 4);
      ListedNode(ParseAt(data, o));
      ListedNode(ParseAt(Cleared(data, o), o));
    } else {
      ClearedElsewhere(data, o, a);
      var before: seq<Node>;
      before, post := ScanCleared(data, o, a + 4);
      pre := Listed(ParseAt(data, a)) + before;
      Regroup(Listed(ParseAt(data, a)), before, ParseAt(data, o).value, post);
      Regroup(Listed(ParseAt(data, a)), before, ParseAt(Cleared(data, o), o).value, post);
    }
  }

  lemma ListedNode(n: Option<Node>)
    requires n.Some?
    ensures Listed(n) == [] + [n.value]
  {
  }

  lemma Regroup(a: seq<Node>, b: seq<Node>, n: Node, c: seq<Node>)
    ensures a + (b + [n] + c) == (a + b) + [n] + c
  {
  }

  lemma {:induction false} ScanAfter(data: bytes, o: nat, a: nat)
    requires o + 12 <= |data| && Accurate(Read16(data, o + 2)) && Alone(data, o) && o < a && a % 4 == 0
    ensures Scan(Cleared(data, o), a) == Scan(data, a)
    decreases |data| - a
  {
    hide ParseAt, Cleared, Alone;
    if a + 12 <= |data| {
      ClearedElsewhere(data, o, a);
      ScanAfter(data, o, a + 4);
    }
  }

  // ----- the live files -----

  /** The live files of a scanned log. */
  function LiveFiles(nodes: seq<Node>, inflate: Inflate): Result<seq<ConfigFile>> {
    var dict :- Collect(nodes, []);
    Reconstruct(nodes, dict, inflate)
  }

  lemma FragmentsDecide(n1: seq<Node>, n2: seq<Node>, d: Node, seen: set<u32>, inflate: Inflate)
    requires d.body.Dirent? && Fragments(n1, d.body.dinode) == Fragments(n2, d.body.dinode)
    ensures Rebuild(n1, d, seen, inflate) == Rebuild(n2, d, seen, inflate)
  {
    hide Fragments, Replay, Filter;
    FragmentsAreInodes(n1, d.body.dinode);
  }

  lemma {:induction false} RebuildAllDecided(n1: seq<Node>, n2: seq<Node>, live: seq<Node>, seen: set<u32>,
                                             inflate: Inflate)
    requires AllDirents(live) && forall k :: Fragments(n1, k) == Fragments(n2, k)
    ensures RebuildAll(n1, live, seen, inflate) == RebuildAll(n2, live, seen, inflate)
    decreases |live|
  {
    hide Fragments, Rebuild;
    if live != [] {
      assert live[0] in live;
      FragmentsDecide(n1, n2, live[0], seen, inflate);
      RebuildAllDecided(n1, n2, live[1..], seen + {live[0].body.dinode}, inflate);
    }
  }

  /** Obsolete nodes contribute nothing to the live files. */
  lemma ObsoleteIgnored(pre: seq<Node>, n: Node, post: seq<Node>, inflate: Inflate)
    requires n.status.Obsolete?
    ensures LiveFiles(pre + [n] + post, inflate) == LiveFiles(pre + post, inflate)
  {
    var with, without := pre + [n] + post, pre + post;
    Dropped(pre, n, post, IsCurrentDirent);
    CollectFiltered(with, []);
    CollectFiltered(without, []);
    forall k
      ensures Fragments(with, k) == Fragments(without, k)
    {
      Dropped(pre, n, post, IsFragmentOf(k));
    }
    hide Fragments, Collect, LiveRoot;
    if Collect(with, []).Ok? {
      var dict := Collect(with, []).value;
      LiveRootMembers(dict);
      RebuildAllDecided(with, without, LiveRoot(dict), {}, inflate);
    }
  }

  lemma Dropped(pre: seq<Node>, n: Node, post: seq<Node>, p: Node -> bool)
    requires !p(n)
    ensures Filter(pre + [n] + post, p) == Filter(pre + post, p)
  {
    FilterAppend(pre + [n], post, p);
    FilterAppend(pre, [n], p);
    FilterAppend(pre, post, p);
    FilterNone([n], p);
  }

  /**
   Clearing the accurate bit of a live node makes the scan report that node, with the same fields, as
   obsolete, leaves every other node alone, and leaves exactly the live files of the log without it.
   */
  lemma ObsoletingRemovesNode(data: bytes, o: nat, inflate: Inflate) returns (pre: seq<Node>, post: seq<Node>)
    requires o % 4 == 0 && o + 12 <= |data| && Accurate(Read16(data, o + 2)) && Alone(data, o)
    requires ParseAt(data, o).Some? && ParseAt(data, o).value.status.Current?
    ensures Scan(data, 0) == pre + [ParseAt(data, o).value] + post
    ensures Scan(Cleared(data, o), 0) == pre + [Obsoleted(ParseAt(data, o).value)] + post
    ensures LiveFiles(Scan(Cleared(data, o), 0), inflate) == LiveFiles(pre + post, inflate)
  {
    ParsedHeader(data, o);
    ClearedNode(data, o);
    hide ParseAt, Cleared, LiveFiles, Scan, Alone;
    pre, post := ScanCleared(data, o, 0);
    ObsoleteIgnored(pre, Obsoleted(ParseAt(data, o).value), post, inflate);
  }
}

/** A file written in pieces, each stored in one of the three ways, is read back from the bytes of its log. */
module Jffs2Pieces {
  import opened Bytes
  import opened Jffs2Node
  import opened Jffs2Record
  import opened Jffs2Log
  import opened Jffs2Config
  import opened Jffs2Replay
  import opened Jffs2Obsolete
  import opened Jffs2PhantomData
  import opened Jffs2Decode
  import opened Jffs2Extract

  /** The pieces of a file from a position on, one after another with ascending versions. */
  predicate Cut(parts: seq<Body>, f: ConfigFile, inflate: Inflate, at: nat, version: nat) {
    if parts == [] then at == |f.data|
    else
      var b := parts[0];
      && IsInode(b) && b.inode == f.inode && b.version == version && b.fileOffset == at
      && Unpacks(b, inflate) && at + b.dsize <= |f.data|
      && (forall j :: 0 <= j < b.dsize ==> Plain(b, inflate, j) == f.data[at + j])
      && Cut(parts[1..], f, inflate, at + b.dsize, version + 1)
  }

  /** What each piece is. */
  predicate PieceOf(b: Body, f: ConfigFile, inflate: Inflate, version: nat) {
    && IsInode(b) && b.inode == f.inode && b.version == version && Unpacks(b, inflate)
    && b.fileOffset + b.dsize <= |f.data|
    && forall j :: 0 <= j < b.dsize ==> Plain(b, inflate, j) == f.data[b.fileOffset + j]
  }

  lemma {:induction false} PieceIs(parts: seq<Body>, f: ConfigFile, inflate: Inflate, at: nat, version: nat, i: nat)
    requires Cut(parts, f, inflate, at, version) && i < |parts|
    ensures PieceOf(parts[i], f, inflate, version + i)
    decreases i
  {
    hide Unpacks, Plain;
    if i > 0 {
      PieceIs(parts[1..], f, inflate, at + parts[0].dsize, version + 1, i - 1);
    }
  }

  lemma {:induction false} PieceCovers(parts: seq<Body>, f: ConfigFile, inflate: Inflate, at: nat, version: nat, k: nat)
    returns (i: nat)
    requires Cut(parts, f, inflate, at, version) && at <= k < |f.data|
    ensures i < |parts| && parts[i].Inode? && parts[i].fileOffset <= k < parts[i].fileOffset + parts[i].dsize
    decreases |parts|
  {
    hide Unpacks, Plain;
    if k < at + parts[0].dsize {
      i := 0;
    } else {
      i := PieceCovers(parts[1..], f, inflate, at + parts[0].dsize, version + 1, k);
      i := i + 1;
    }
  }

  predicate AllInode(parts: seq<Body>) {
    forall i :: 0 <= i < |parts| ==> IsInode(parts[i])
  }

  /** A clean marker, the name, and the pieces. */
  function PieceLog(d: Body, parts: seq<Body>): seq<bytes>
    requires IsDirent(d) && AllInode(parts)
  {
    [CleanRecord(), DirentRecord(d)] + PieceRecords(parts)
  }

  function PieceRecords(parts: seq<Body>): seq<bytes>
    requires AllInode(parts)
  {
    seq(|parts|, i requires 0 <= i < |parts| => InodeRecord(parts[i]))
  }

  lemma PieceLogWhole(d: Body, parts: seq<Body>)
    requires IsDirent(d) && AllInode(parts)
    ensures AllWhole(PieceLog(d, parts))
  {
    hide CleanRecord, DirentRecord, InodeRecord, ParseAt, Reads, Read32, IsInode;
    CleanParses();
    DirentParses(d);
    forall r | r in PieceRecords(parts)
      ensures Whole(r)
    {
      var i :| 0 <= i < |parts| && r == InodeRecord(parts[i]);
      InodeParses(parts[i]);
    }
  }

  /** The nodes of a log are its records' nodes in order. */
  lemma {:induction false} NodeOfRecord(recs: seq<bytes>, at: nat, i: nat)
    requires AllWhole(recs) && i < |recs|
    ensures |NodesAt(recs, at)| == |recs| && Whole(recs[i])
    ensures var n := ParseAt(recs[i], 0).value; NodesAt(recs, at)[i] == n.(offset := NodesAt(recs, at)[i].offset)
    decreases |recs|
  {
    hide ParseAt, Reads, Read32, Align4;
    assert recs[0] in recs;
    assert forall r :: r in recs[1..] ==> r in recs;
    if i > 0 {
      NodeOfRecord(recs[1..], at + Align4(|recs[0]|), i - 1);
    } else if |recs| > 1 {
      NodeOfRecord(recs[1..], at + Align4(|recs[0]|), 0);
    }
  }

  /** Every node is current: the marker, the name, the pieces. */
  ghost predicate PieceNodes(nodes: seq<Node>, d: Body, parts: seq<Body>) {
    && |nodes| == 2 + |parts| && (forall i :: 0 <= i < |nodes| ==> nodes[i].status.Current?)
    && nodes[0].body.CleanMarker? && nodes[1].body == d
    && forall i :: 2 <= i < |nodes| ==> nodes[i].body == parts[i - 2]
  }

  lemma PieceLogNodes(d: Body, parts: seq<Body>)
    requires IsDirent(d) && AllInode(parts)
    ensures AllWhole(PieceLog(d, parts)) && PieceNodes(NodesAt(PieceLog(d, parts), 0), d, parts)
  {
    hide CleanRecord, DirentRecord, InodeRecord, ParseAt, Reads, Read32, IsInode, Whole, AllWhole, NodesAt;
    PieceLogWhole(d, parts);
    var recs := PieceLog(d, parts);
    CleanParses();
    DirentParses(d);
    NodeOfRecord(recs, 0, 0);
    NodeOfRecord(recs, 0, 1);
    assert recs[0] == CleanRecord() && recs[1] == DirentRecord(d);
    forall i | 2 <= i < |recs|
      ensures NodesAt(recs, 0)[i].body == parts[i - 2] && NodesAt(recs, 0)[i].status.Current?
    {
      NodeOfRecord(recs, 0, i);
      assert recs[i] == InodeRecord(parts[i - 2]);
      InodeParses(parts[i - 2]);
    }
  }

  // ----- what such a log holds -----

  lemma PieceGoverns(nodes: seq<Node>, d: Body, parts: seq<Body>, f: ConfigFile, inflate: Inflate, k: nat, i: nat)
    requires PieceNodes(nodes, d, parts) && IsDirent(d) && Cut(parts, f, inflate, 0, 1) && k < |f.data|
    requires i < |nodes| && Spans(nodes[i], f.inode, k)
    ensures Unpacks(nodes[i].body, inflate)
            && Plain(nodes[i].body, inflate, k - nodes[i].body.fileOffset) == f.data[k]
  {
    hide Unpacks, Plain, Cut;
    assert i >= 2;
    PieceIs(parts, f, inflate, 0, 1, i - 2);
  }

  lemma PieceSpans(nodes: seq<Node>, d: Body, parts: seq<Body>, f: ConfigFile, inflate: Inflate, k: nat)
    requires PieceNodes(nodes, d, parts) && IsDirent(d) && Cut(parts, f, inflate, 0, 1) && k < |f.data|
    ensures exists n :: n in nodes && Spans(n, f.inode, k)
  {
    hide Unpacks, Plain, Cut;
    var i := PieceCovers(parts, f, inflate, 0, 1, k);
    PieceIs(parts, f, inflate, 0, 1, i);
    assert nodes[i + 2].body == parts[i] && nodes[i + 2] in nodes;
    assert Spans(nodes[i + 2], f.inode, k);
  }

  lemma PieceBytes(nodes: seq<Node>, d: Body, parts: seq<Body>, f: ConfigFile, inflate: Inflate, k: nat)
    requires PieceNodes(nodes, d, parts) && IsDirent(d) && Cut(parts, f, inflate, 0, 1) && k < |f.data|
    ensures ByteIs(nodes, f.inode, inflate, k, f.data[k])
  {
    hide Unpacks, Plain, Cut, Older, PieceNodes;
    forall i: nat | i < |nodes| && Spans(nodes[i], f.inode, k)
      ensures Unpacks(nodes[i].body, inflate)
              && Plain(nodes[i].body, inflate, k - nodes[i].body.fileOffset) == f.data[k]
    {
      PieceGoverns(nodes, d, parts, f, inflate, k, i);
    }
    PieceSpans(nodes, d, parts, f, inflate, k);
  }

  lemma PiecesHold(nodes: seq<Node>, d: Body, parts: seq<Body>, f: ConfigFile, inflate: Inflate)
    requires PieceNodes(nodes, d, parts) && IsDirent(d) && parts != [] && Cut(parts, f, inflate, 0, 1)
    requires Plausible(d) && Describes(parts[|parts| - 1], d, f)
    ensures Holds(nodes, d, f, inflate)
  {
    hide Unpacks, Plain, Cut, ByteIs, Plausible;
    forall i | 0 <= i < |parts|
      ensures PieceOf(parts[i], f, inflate, 1 + i)
    {
      PieceIs(parts, f, inflate, 0, 1, i);
    }
    forall n | n in nodes && IsFragmentOf(f.inode)(n)
      ensures Unpacks(n.body, inflate)
    {
      var i :| 0 <= i < |nodes| && nodes[i] == n;
      assert i >= 2 && n.body == parts[i - 2];
    }
    var m := |nodes| - 1;
    assert nodes[m].body == parts[|parts| - 1];
    forall j | 0 <= j < |nodes| && j != m && IsFragmentOf(f.inode)(nodes[j])
      ensures VersionOf(nodes[j]) < VersionOf(nodes[m])
    {
      assert j >= 2 && nodes[j].body == parts[j - 2];
    }
    assert IsNewest(nodes, IsFragmentOf(f.inode), m);
    forall k: nat | k < |f.data|
      ensures ByteIs(nodes, f.inode, inflate, k, f.data[k])
    {
      PieceBytes(nodes, d, parts, f, inflate, k);
    }
  }

  lemma PieceNames(nodes: seq<Node>, d: Body, parts: seq<Body>)
    requires PieceNodes(nodes, d, parts) && IsDirent(d) && AllInode(parts) && d.parent == 1 && d.dinode != 0
    ensures NoTies(nodes) && RootOnly(nodes) && Live(nodes, [nodes[1]])
  {
    forall i | 2 <= i < |nodes|
      ensures nodes[i].body.Inode?
    {
      assert IsInode(parts[i - 2]);
    }
    assert forall i :: 0 <= i < |nodes| && IsCurrentDirent(nodes[i]) ==> i == 1;
    assert nodes[1] in nodes && nodes[..1] == [nodes[0]];
  }

  /** Whatever is written in pieces and has no phantom inside is read back as that file. */
  lemma PiecesReadBack(d: Body, parts: seq<Body>, f: ConfigFile, inflate: Inflate)
    requires IsDirent(d) && Plausible(d) && d.parent == 1 && parts != [] && AllInode(parts)
    requires Cut(parts, f, inflate, 0, 1) && Describes(parts[|parts| - 1], d, f)
    requires |Log(PieceLog(d, parts))| <= CONFIG_SIZE
    requires PhantomFree(Partition(PieceLog(d, parts)), PieceLog(d, parts), 0)
    ensures LiveFiles(Scan(Partition(PieceLog(d, parts)), 0), inflate) == Ok([f])
  {
    hide *;
    PieceLogNodes(d, parts);
    PartitionScans(PieceLog(d, parts));
    var nodes := NodesAt(PieceLog(d, parts), 0);
    PiecesHold(nodes, d, parts, f, inflate);
    NameUsable(d);
    PieceNames(nodes, d, parts);
    NamedOnce(nodes, d, parts, f, inflate);
    LiveFilesExactly(nodes, [f], inflate);
  }

  lemma NameUsable(d: Body)
    requires Plausible(d)
    ensures d.Dirent? && d.dinode != 0
  {
  }

  lemma NamedOnce(nodes: seq<Node>, d: Body, parts: seq<Body>, f: ConfigFile, inflate: Inflate)
    requires PieceNodes(nodes, d, parts) && Holds(nodes, d, f, inflate)
    ensures |nodes| >= 2 && HoldsEach(nodes, [nodes[1]], [f], inflate)
  {
    hide Holds;
  }
}

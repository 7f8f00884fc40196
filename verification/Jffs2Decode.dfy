/** What stored fragments unpack to, and exactly which file a live name is rebuilt to. */
module Jffs2Decode {
  import opened Bytes
  import opened Lists
  import opened Jffs2Node
  import opened Jffs2Config
  import opened Jffs2Compaction
  import opened Jffs2Replay
  import opened Jffs2PhantomData

  // ----- one fragment -----

  /** Stored as it is (0), as a run of zeros (1), or as one complete zlib stream (6), of the declared size. */
  predicate Unpacks(b: Body, inflate: Inflate) {
    && b.Inode? && b.dsize <= 0x2_0000
    && match b.compression
       case 0 => |b.payload| == b.dsize
       case 1 => b.csize == 0
       case 6 => (match inflate(b.payload) case Some(x) => |x| == b.dsize case None => false)
       case _ => false
  }

  function Plain(b: Body, inflate: Inflate, j: nat): byte
    requires Unpacks(b, inflate) && j < b.dsize
  {
    match b.compression
    case 0 => b.payload[j]
    case 6 => inflate(b.payload).value[j]
    case _ => 0
  }

  /** A fragment decodes exactly when it is stored in one of the three ways, and to what was stored. */
  lemma DecodeExactly(b: Body, inflate: Inflate)
    requires b.Inode?
    ensures var r := Decode(b, inflate);
            && (r.Ok? <==> Unpacks(b, inflate))
            && (r.Ok? ==> |r.value| == b.dsize && forall j :: 0 <= j < b.dsize ==> r.value[j] == Plain(b, inflate, j))
  {
  }

  // ----- one byte -----

  /** Whether a node is a live fragment of an inode whose extent holds byte k. */
  predicate Spans(n: Node, inode: u32, k: nat) {
    && n.status.Current? && n.body.Inode? && n.body.inode == inode
    && n.body.fileOffset <= k < n.body.fileOffset + n.body.dsize
  }

  /** Node i holds byte k, and every other that does has a lower version, or the same and an earlier place. */
  predicate Governs(nodes: seq<Node>, inode: u32, k: nat, i: nat) {
    && i < |nodes| && Spans(nodes[i], inode, k)
    && forall j :: 0 <= j < |nodes| && j != i && Spans(nodes[j], inode, k) ==> Older(nodes, j, i)
  }

  /** Byte k of a file: from the node that governs it, or zero where no node holds it. */
  ghost predicate ByteIs(nodes: seq<Node>, inode: u32, inflate: Inflate, k: nat, v: byte) {
    && (forall i: nat :: Governs(nodes, inode, k, i) ==>
                           Unpacks(nodes[i].body, inflate)
                           && v == Plain(nodes[i].body, inflate, k - nodes[i].body.fileOffset))
    && ((forall n :: n in nodes ==> !Spans(n, inode, k)) ==> v == 0)
  }

  ghost predicate AllUnpack(nodes: seq<Node>, inode: u32, inflate: Inflate) {
    forall n :: n in nodes && IsFragmentOf(inode)(n) ==> Unpacks(n.body, inflate)
  }

  lemma SpansIsHit(n: Node, inode: u32, inflate: Inflate, k: nat)
    requires IsFragmentOf(inode)(n) ==> Unpacks(n.body, inflate)
    ensures Spans(n, inode, k) <==> HitsFile(n, inode, inflate, k)
    ensures Spans(n, inode, k) ==>
              ByteFrom(n, inflate, k) == Plain(n.body, inflate, k - n.body.fileOffset)
  {
    hide Decode, Unpacks, Plain;
    if n.body.Inode? {
      DecodeExactly(n.body, inflate);
    }
  }

  lemma GovernsIsNewest(nodes: seq<Node>, inode: u32, inflate: Inflate, k: nat, i: nat)
    requires AllUnpack(nodes, inode, inflate)
    ensures Governs(nodes, inode, k, i) <==> NewestHit(nodes, inode, inflate, k, i)
  {
    hide Spans, HitsFile, Unpacks, Older;
    forall j | 0 <= j < |nodes|
      ensures Spans(nodes[j], inode, k) <==> HitsFile(nodes[j], inode, inflate, k)
    {
      SpansIsHit(nodes[j], inode, inflate, k);
    }
  }

  lemma AllUnpackIsDecode(nodes: seq<Node>, inode: u32, inflate: Inflate)
    ensures AllUnpack(nodes, inode, inflate) <==> AllDecode(nodes, inode, inflate)
  {
    hide Decode, Unpacks;
    forall n | n in nodes && IsFragmentOf(inode)(n)
      ensures n.body.Inode? && (Unpacks(n.body, inflate) <==> Decode(n.body, inflate).Ok?)
    {
      DecodeExactly(n.body, inflate);
    }
  }

  /** Some node governs a byte unless none holds it. */
  lemma GovernorExists(nodes: seq<Node>, inode: u32, inflate: Inflate, k: nat)
    requires AllUnpack(nodes, inode, inflate)
    ensures (forall n :: n in nodes ==> !Spans(n, inode, k)) || exists i: nat :: Governs(nodes, inode, k, i)
  {
    hide Spans, HitsFile, Unpacks, Older, Governs, NewestHit;
    if n :| n in nodes && Spans(n, inode, k) {
      SpansIsHit(n, inode, inflate, k);
      var j :| 0 <= j < |nodes| && nodes[j] == n;
      var i := NewestAmong(nodes, inode, inflate, k, |nodes|);
      NewestHolds(nodes, inode, inflate, k, i);
      GovernsIsNewest(nodes, inode, inflate, k, i);
    }
  }

  lemma NewestHolds(nodes: seq<Node>, inode: u32, inflate: Inflate, k: nat, i: nat)
    requires i < |nodes| && HitsFile(nodes[i], inode, inflate, k)
    requires forall j :: 0 <= j < |nodes| && j != i && HitsFile(nodes[j], inode, inflate, k) ==> Older(nodes, j, i)
    ensures NewestHit(nodes, inode, inflate, k, i)
  {
    hide HitsFile, Older;
  }

  /** The replayed byte is the one the log gives, and no other. */
  lemma ReplayedByte(nodes: seq<Node>, inode: u32, size: nat, inflate: Inflate, k: nat, v: byte)
    requires AllUnpack(nodes, inode, inflate) && AllInodes(Fragments(nodes, inode)) && k < size
    requires Replay(Repeat(0, size), Fragments(nodes, inode), inflate).Ok?
    ensures var data := Replay(Repeat(0, size), Fragments(nodes, inode), inflate).value;
            |data| == size && (data[k] == v <==> ByteIs(nodes, inode, inflate, k, v))
  {
    hide Replay, Fragments, HitsFile, NewestHit, Governs, Spans, ByteFrom, Unpacks, Plain, IsFragmentOf;
    ReplayMeaning(nodes, inode, size, inflate, k);
    GovernorExists(nodes, inode, inflate, k);
    forall n | n in nodes
      ensures Spans(n, inode, k) <==> HitsFile(n, inode, inflate, k)
    {
      SpansIsHit(n, inode, inflate, k);
    }
    forall i: nat
      ensures Governs(nodes, inode, k, i) <==> NewestHit(nodes, inode, inflate, k, i)
    {
      GovernsIsNewest(nodes, inode, inflate, k, i);
    }
    forall i: nat | Governs(nodes, inode, k, i)
      ensures Gives(nodes, inode, inflate, k, i)
    {
      Governed(nodes, inode, inflate, k, i);
    }
  }

  ghost predicate Gives(nodes: seq<Node>, inode: u32, inflate: Inflate, k: nat, i: nat) {
    && i < |nodes| && Unpacks(nodes[i].body, inflate) && Spans(nodes[i], inode, k) && Hits(nodes[i], inflate, k)
    && k - nodes[i].body.fileOffset < nodes[i].body.dsize
    && ByteFrom(nodes[i], inflate, k) == Plain(nodes[i].body, inflate, k - nodes[i].body.fileOffset)
  }

  lemma Governed(nodes: seq<Node>, inode: u32, inflate: Inflate, k: nat, i: nat)
    requires AllUnpack(nodes, inode, inflate) && Governs(nodes, inode, k, i)
    ensures Gives(nodes, inode, inflate, k, i)
  {
    hide Hits, ByteFrom, Unpacks, Plain;
    SpansIsHit(nodes[i], inode, inflate, k);
  }

  // ----- one file -----

  /** A file name the rebuild accepts: 1 to 255 bytes, no slash, no NUL, a regular file. */
  predicate Plausible(d: Body) {
    d.Dirent? && 1 <= |d.name| <= 255 && 0x2F !in d.name && 0 !in d.name && d.dtype == 8 && d.dinode >= 2
  }

  /** The metadata of a file, field by field; the type bits say regular file. */
  predicate Describes(m: Body, d: Body, f: ConfigFile) {
    && m.Inode? && d.Dirent?
    && f.name == d.name && f.inode == d.dinode && f.direntMctime == d.mctime && f.dtype == d.dtype
    && f.mode == m.mode && f.uid == m.uid && f.gid == m.gid && f.flags == m.flags
    && f.atime == m.atime && f.mtime == m.mtime && f.ctime == m.ctime
    && |f.data| == m.fileSize <= 0x2_0000 && m.mode / 0x1000 % 0x10 == 8
  }

  /** What a live name and a log say about a file. */
  ghost predicate Holds(nodes: seq<Node>, d: Body, f: ConfigFile, inflate: Inflate) {
    && Plausible(d)
    && AllUnpack(nodes, d.dinode, inflate)
    && (exists m: nat :: IsNewest(nodes, IsFragmentOf(d.dinode), m) && Describes(nodes[m].body, d, f))
    && forall k: nat :: k < |f.data| ==> ByteIs(nodes, d.dinode, inflate, k, f.data[k])
  }

  lemma RebuildParts(nodes: seq<Node>, d: Node, seen: set<u32>, f: ConfigFile, inflate: Inflate)
    requires d.body.Dirent? && Fragments(nodes, d.body.dinode) != []
    ensures AllInodes(Fragments(nodes, d.body.dinode))
    ensures var frags := Fragments(nodes, d.body.dinode);
            var last := NewestVersion(frags);
            && last.body.Inode?
            && (Rebuild(nodes, d, seen, inflate) == Ok(f) <==>
                && Plausible(d.body) && d.body.dinode !in seen
                && |Filter(frags, HasVersion(last.body.version))| == 1 && Describes(last.body, d.body, f)
                && Replay(Repeat(0, |f.data|), frags, inflate) == Ok(f.data))
  {
    hide Fragments, Replay, Filter;
    FragmentsAreInodes(nodes, d.body.dinode);
    var last := NewestVersion(Fragments(nodes, d.body.dinode));
    assert last in Fragments(nodes, d.body.dinode);
    if Replay(Repeat(0, last.body.fileSize), Fragments(nodes, d.body.dinode), inflate).Ok? {
      ReplayLength(Repeat(0, last.body.fileSize), Fragments(nodes, d.body.dinode), inflate);
    }
  }

  lemma ReplayExactly(nodes: seq<Node>, inode: u32, data: bytes, inflate: Inflate)
    requires AllInodes(Fragments(nodes, inode))
    ensures Replay(Repeat(0, |data|), Fragments(nodes, inode), inflate) == Ok(data) <==>
            && AllUnpack(nodes, inode, inflate)
            && forall k: nat :: k < |data| ==> ByteIs(nodes, inode, inflate, k, data[k])
  {
    hide Replay, Fragments, Decode, Unpacks, ByteIs, IsFragmentOf;
    var r := Replay(Repeat(0, |data|), Fragments(nodes, inode), inflate);
    FragmentsAreInodes(nodes, inode);
    ReplayDecodes(Repeat(0, |data|), Fragments(nodes, inode), inflate);
    AllUnpackIsDecode(nodes, inode, inflate);
    if r.Ok? {
      assert r.value == data <==> |r.value| == |data| && forall k :: 0 <= k < |data| ==> r.value[k] == data[k];
      ReplayLength(Repeat(0, |data|), Fragments(nodes, inode), inflate);
      forall k: nat | k < |data|
        ensures r.value[k] == data[k] <==> ByteIs(nodes, inode, inflate, k, data[k])
      {
        ReplayedByte(nodes, inode, |data|, inflate, k, data[k]);
      }
    }
  }

  /** A live name is rebuilt to a file if and only if its inode is new and the log holds that file. */
  lemma RebuildExactly(nodes: seq<Node>, d: Node, seen: set<u32>, f: ConfigFile, inflate: Inflate)
    requires d.body.Dirent?
    ensures Rebuild(nodes, d, seen, inflate) == Ok(f) <==>
            d.body.dinode !in seen && Holds(nodes, d.body, f, inflate)
  {
    hide Replay, Fragments, Filter, AllUnpack, IsFragmentOf, ByteIs, Describes, Plausible, IsNewest;
    var inode := d.body.dinode;
    if Fragments(nodes, inode) == [] {
      NoneNewest(nodes, inode);
    } else {
      RebuildParts(nodes, d, seen, f, inflate);
      hide Rebuild;
      NewestUnique(nodes, inode);
      ReplayExactly(nodes, inode, f.data, inflate);
    }
  }

  lemma NoneNewest(nodes: seq<Node>, inode: u32)
    requires Fragments(nodes, inode) == []
    ensures forall m: nat :: !IsNewest(nodes, IsFragmentOf(inode), m)
  {
    hide Fragments, IsFragmentOf;
    FragmentsAreInodes(nodes, inode);
    assert forall n :: n in nodes ==> !IsFragmentOf(inode)(n);
  }
}

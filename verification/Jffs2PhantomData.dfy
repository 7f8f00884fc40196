/** Exactly when a file that was written reads as it is from a log that also holds other nodes of its inode. */
module Jffs2PhantomData {
  import opened Bytes
  import opened Lists
  import opened Jffs2Node
  import opened Jffs2Log
  import opened Jffs2Config
  import opened Jffs2Build
  import opened Jffs2Compaction
  import opened Jffs2Replay
  import opened Jffs2PhantomInode
  import opened Jffs2PhantomEntry

  // ----- what it takes for a file to read as it is -----

  /** The one node of the greatest version among those that pass a test. */
  ghost predicate IsNewest(nodes: seq<Node>, q: Node -> bool, m: nat) {
    && m < |nodes| && q(nodes[m])
    && forall j :: 0 <= j < |nodes| && j != m && q(nodes[j]) ==> VersionOf(nodes[j]) < VersionOf(nodes[m])
  }

  /** Every fragment decodes, whatever it covers. */
  ghost predicate AllDecode(nodes: seq<Node>, inode: u32, inflate: Inflate) {
    forall n :: n in nodes && IsFragmentOf(inode)(n) ==> n.body.Inode? && Decode(n.body, inflate).Ok?
  }

  /** One fragment is newer than all others, and has the file's metadata. */
  ghost predicate NewestDescribes(nodes: seq<Node>, f: ConfigFile) {
    exists m: nat :: IsNewest(nodes, IsFragmentOf(f.inode), m) && nodes[m].body.Inode? && SameMeta(nodes[m].body, f)
  }

  /** Whatever fragment is the newest to cover a byte, by version and then by place in the log, has the file's byte. */
  ghost predicate BytesAgree(nodes: seq<Node>, f: ConfigFile, inflate: Inflate) {
    forall k: nat, i: nat :: k < |f.data| && NewestHit(nodes, f.inode, inflate, k, i) ==>
                               ByteFrom(nodes[i], inflate, k) == f.data[k]
  }

  ghost predicate Intact(nodes: seq<Node>, f: ConfigFile, inflate: Inflate) {
    AllDecode(nodes, f.inode, inflate) && NewestDescribes(nodes, f) && BytesAgree(nodes, f, inflate)
  }

  /** One complete copy of the serial is newer than all others, and is the file's. */
  ghost predicate SerialHeld(nodes: seq<Node>, f: ConfigFile) {
    exists c: nat ::
      IsNewest(nodes, IsLiveSerialOf(f.inode), c) && nodes[c].body.Inode? && nodes[c].body.payload == f.data
  }

  // ----- the newest fragment -----

  lemma {:induction false} OnlyIndex(xs: seq<Node>, q: Node -> bool) returns (m: nat)
    requires |Filter(xs, q)| == 1
    ensures m < |xs| && q(xs[m]) && Filter(xs, q) == [xs[m]]
    ensures forall j :: 0 <= j < |xs| && j != m ==> !q(xs[j])
  {
    if q(xs[0]) {
      m := 0;
      FilterMembers(xs[1..], q);
      assert Filter(xs[1..], q) == [];
      forall j | 0 < j < |xs|
        ensures !q(xs[j])
      {
        assert xs[j] in xs[1..];
      }
    } else {
      var p := OnlyIndex(xs[1..], q);
      m := p + 1;
      assert forall j :: 0 < j < |xs| ==> xs[j] == xs[1..][j - 1];
    }
  }

  /** The fragments of one version, in the order of the log. */
  lemma VersionInLog(nodes: seq<Node>, inode: u32, v: u32)
    ensures Filter(Fragments(nodes, inode), HasVersion(v)) ==
            Filter(nodes, (n: Node) => IsFragmentOf(inode)(n) && HasVersion(v)(n))
  {
    var both := (n: Node) => IsFragmentOf(inode)(n) && HasVersion(v)(n);
    var picked := Filter(nodes, IsFragmentOf(inode));
    SortByVersionStable(picked, HasVersion(v), v);
    FilterMembers(nodes, IsFragmentOf(inode));
    FilterSame(picked, HasVersion(v), both);
    FilterTwice(nodes, IsFragmentOf(inode), both);
  }

  lemma LastIsNewest(nodes: seq<Node>, inode: u32)
    requires Fragments(nodes, inode) != []
    ensures var last := NewestVersion(Fragments(nodes, inode));
            && last in nodes && IsFragmentOf(inode)(last)
            && forall n :: n in nodes && IsFragmentOf(inode)(n) ==> VersionOf(n) <= VersionOf(last)
  {
    hide IsFragmentOf, VersionOf, Filter;
    var frags := Fragments(nodes, inode);
    FragmentsAreInodes(nodes, inode);
    var last := NewestVersion(frags);
    assert last in frags;
    VersionPreorder();
    SortSorted(Filter(nodes, IsFragmentOf(inode)), VersionLe);
    forall n | n in nodes && IsFragmentOf(inode)(n)
      ensures VersionOf(n) <= VersionOf(last)
    {
      assert n in frags;
      var t :| 0 <= t < |frags| && frags[t] == n;
      assert t < |frags| - 1 ==> VersionLe(frags[t], frags[|frags| - 1]);
    }
  }

  /** The newest metadata is unambiguous exactly when one fragment is newer than all others; it is then the last. */
  lemma NewestUnique(nodes: seq<Node>, inode: u32)
    requires Fragments(nodes, inode) != []
    ensures var last := NewestVersion(Fragments(nodes, inode));
            && last.body.Inode?
            && (|Filter(Fragments(nodes, inode), HasVersion(last.body.version))| == 1 <==>
                exists m: nat :: IsNewest(nodes, IsFragmentOf(inode), m))
            && forall m: nat :: IsNewest(nodes, IsFragmentOf(inode), m) ==> nodes[m] == last
  {
    hide Fragments, Filter;
    LastIsNewest(nodes, inode);
    var last := NewestVersion(Fragments(nodes, inode));
    var v := last.body.version;
    var both := (n: Node) => IsFragmentOf(inode)(n) && HasVersion(v)(n);
    VersionInLog(nodes, inode, v);
    if |Filter(nodes, both)| == 1 {
      var m := OnlyIndex(nodes, both);
      assert IsNewest(nodes, IsFragmentOf(inode), m);
    }
    forall m: nat | IsNewest(nodes, IsFragmentOf(inode), m)
      ensures nodes[m] == last && |Filter(nodes, both)| == 1
    {
      var t :| 0 <= t < |nodes| && nodes[t] == last;
      assert t == m;
      FilterOne(nodes, m, both);
    }
  }

  // ----- the bytes -----

  lemma {:induction false} ReplayDecodes(data: bytes, frags: seq<Node>, inflate: Inflate)
    requires AllInodes(frags)
    ensures Replay(data, frags, inflate).Ok? <==> forall n :: n in frags ==> Decode(n.body, inflate).Ok?
    decreases |frags|
  {
    hide Decode, Overlay;
    if frags != [] {
      assert frags[0] in frags && frags == [frags[0]] + frags[1..];
      var decoded := Decode(frags[0].body, inflate);
      if decoded.Ok? {
        ReplayDecodes(Overlay(data, frags[0].body.fileOffset, decoded.value), frags[1..], inflate);
      }
    }
  }

  /** Among the first n nodes that cover a byte there is a newest. */
  lemma {:induction false} NewestAmong(nodes: seq<Node>, inode: u32, inflate: Inflate, k: nat, n: nat) returns (i: nat)
    requires n <= |nodes| && exists j :: 0 <= j < n && HitsFile(nodes[j], inode, inflate, k)
    ensures i < n && HitsFile(nodes[i], inode, inflate, k)
    ensures forall j :: 0 <= j < n && j != i && HitsFile(nodes[j], inode, inflate, k) ==> Older(nodes, j, i)
    decreases n
  {
    hide HitsFile, VersionOf;
    if exists j :: 0 <= j < n - 1 && HitsFile(nodes[j], inode, inflate, k) {
      var best := NewestAmong(nodes, inode, inflate, k, n - 1);
      i := if HitsFile(nodes[n - 1], inode, inflate, k) && Older(nodes, best, n - 1) then n - 1 else best;
    } else {
      i := n - 1;
    }
  }

  /** A node that holds the whole file covers every byte of it. */
  lemma WholeCovers(x: Node, f: ConfigFile, inflate: Inflate, k: nat)
    requires Packable(f) && IsDataOf(x, f) && |f.data| <= CONFIG_SIZE && k < |f.data|
    ensures HitsFile(x, f.inode, inflate, k)
  {
    DataDecodes(x, f, inflate);
  }

  /** The newest node that covers a byte, and that replay leaves its byte there. */
  lemma ByteAt(nodes: seq<Node>, x: Node, f: ConfigFile, inflate: Inflate, k: nat) returns (i: nat)
    requires Packable(f) && |f.data| <= CONFIG_SIZE && x in nodes && IsDataOf(x, f) && k < |f.data|
    requires AllInodes(Fragments(nodes, f.inode))
    requires Replay(Repeat(0, |f.data|), Fragments(nodes, f.inode), inflate).Ok?
    ensures NewestHit(nodes, f.inode, inflate, k, i)
    ensures var data := Replay(Repeat(0, |f.data|), Fragments(nodes, f.inode), inflate).value;
            |data| == |f.data| && data[k] == ByteFrom(nodes[i], inflate, k)
  {
    hide Replay, Fragments, Hits, IsFragmentOf, ByteFrom, Older, IsDataOf;
    WholeCovers(x, f, inflate, k);
    var j :| 0 <= j < |nodes| && nodes[j] == x;
    i := NewestAmong(nodes, f.inode, inflate, k, |nodes|);
    ReplayMeaning(nodes, f.inode, |f.data|, inflate, k);
  }

  /** Only one node can be the newest to cover a byte. */
  lemma OneNewestHit(nodes: seq<Node>, inode: u32, inflate: Inflate, k: nat, i: nat, j: nat)
    requires NewestHit(nodes, inode, inflate, k, i) && NewestHit(nodes, inode, inflate, k, j)
    ensures i == j
  {
    hide HitsFile, VersionOf;
    assert HitsFile(nodes[i], inode, inflate, k) && HitsFile(nodes[j], inode, inflate, k);
  }

  lemma BytesDecide(nodes: seq<Node>, x: Node, f: ConfigFile, inflate: Inflate)
    requires Packable(f) && |f.data| <= CONFIG_SIZE && x in nodes && IsDataOf(x, f)
    requires AllInodes(Fragments(nodes, f.inode))
    requires Replay(Repeat(0, |f.data|), Fragments(nodes, f.inode), inflate).Ok?
    ensures Replay(Repeat(0, |f.data|), Fragments(nodes, f.inode), inflate) == Ok(f.data) <==>
            BytesAgree(nodes, f, inflate)
  {
    hide Replay, Fragments, Hits, IsFragmentOf, ByteFrom, Older, IsDataOf;
    var data := Replay(Repeat(0, |f.data|), Fragments(nodes, f.inode), inflate).value;
    ReplayLength(Repeat(0, |f.data|), Fragments(nodes, f.inode), inflate);
    if BytesAgree(nodes, f, inflate) {
      forall k: nat | k < |f.data|
        ensures data[k] == f.data[k]
      {
        var i := ByteAt(nodes, x, f, inflate, k);
      }
    }
    if data == f.data {
      forall k: nat, i: nat | k < |f.data| && NewestHit(nodes, f.inode, inflate, k, i)
        ensures ByteFrom(nodes[i], inflate, k) == f.data[k]
      {
        var j := ByteAt(nodes, x, f, inflate, k);
        OneNewestHit(nodes, f.inode, inflate, k, i, j);
      }
    }
  }

  // ----- one file -----

  /** What rebuilding an entry comes to, given its newest fragment. */
  lemma RebuildFrom(nodes: seq<Node>, d: Node, f: ConfigFile, inflate: Inflate)
    requires GoodFile(f) && SameHead(d.body, f) && Fragments(nodes, f.inode) != []
    ensures AllInodes(Fragments(nodes, f.inode)) && d.body.Dirent?
    ensures var frags := Fragments(nodes, f.inode);
            var last := NewestVersion(frags);
            && last.body.Inode?
            && (Rebuild(nodes, d, {}, inflate) == Ok(f) <==>
                && |Filter(frags, HasVersion(last.body.version))| == 1 && SameMeta(last.body, f)
                && Replay(Repeat(0, |f.data|), frags, inflate) == Ok(f.data))
  {
    hide Fragments, Replay, Filter, SafeName;
    FragmentsAreInodes(nodes, f.inode);
    var last := NewestVersion(Fragments(nodes, f.inode));
    assert last in Fragments(nodes, f.inode);
    if Replay(Repeat(0, last.body.fileSize), Fragments(nodes, f.inode), inflate).Ok? {
      ReplayLength(Repeat(0, last.body.fileSize), Fragments(nodes, f.inode), inflate);
    }
  }

  /** A file is rebuilt as it was written if and only if it is intact. */
  lemma RebuildIntact(nodes: seq<Node>, d: Node, x: Node, f: ConfigFile, inflate: Inflate)
    requires GoodFile(f) && Packable(f) && SameHead(d.body, f) && x in nodes && IsDataOf(x, f)
    ensures d.body.Dirent? && (Rebuild(nodes, d, {}, inflate) == Ok(f) <==> Intact(nodes, f, inflate))
  {
    hide Rebuild, Fragments, Replay, Filter, SameMeta, IsNewest, HasVersion, BytesAgree, Decode, GoodFile;
    DataSize(f);
    FragmentsAreInodes(nodes, f.inode);
    assert x in Fragments(nodes, f.inode);
    RebuildFrom(nodes, d, f, inflate);
    NewestUnique(nodes, f.inode);
    ReplayDecodes(Repeat(0, |f.data|), Fragments(nodes, f.inode), inflate);
    if Replay(Repeat(0, |f.data|), Fragments(nodes, f.inode), inflate).Ok? {
      BytesDecide(nodes, x, f, inflate);
    }
  }

  // ----- all files -----

  lemma {:induction false} RebuildAllIntact(nodes: seq<Node>, live: seq<Node>, files: seq<ConfigFile>, seen: set<u32>,
                                            inflate: Inflate)
    requires AllDirents(live) && Rebuilds(nodes, live, files, inflate)
    requires forall d :: d in live ==> d.body.dinode !in seen
    requires forall i, j :: 0 <= i < j < |live| ==> EntryInode(live[i]) != EntryInode(live[j])
    ensures RebuildAll(nodes, live, seen, inflate) == Ok(files)
    decreases |live|
  {
    hide Rebuild;
    if live != [] {
      var d, rest := live[0], live[1..];
      assert d in live && Rebuild(nodes, d, {}, inflate) == Ok(files[0]);
      SeenMatters(nodes, d, seen, inflate);
      assert forall i :: 0 <= i < |rest| ==> rest[i] == live[i + 1] && files[1..][i] == files[i + 1];
      assert Rebuilds(nodes, rest, files[1..], inflate);
      forall e | e in rest
        ensures e in live && e.body.dinode !in seen + {d.body.dinode}
      {
        var j :| 0 <= j < |rest| && rest[j] == e;
        assert live[j + 1] == e && EntryInode(live[0]) != EntryInode(live[j + 1]);
      }
      RebuildAllIntact(nodes, rest, files[1..], seen + {d.body.dinode}, inflate);
      assert [files[0]] + files[1..] == files;
    }
  }

  function EntryInode(d: Node): nat {
    if d.body.Dirent? then d.body.dinode else 0
  }

  /** Each entry on its own is rebuilt as the file of its place. */
  ghost predicate Rebuilds(nodes: seq<Node>, live: seq<Node>, files: seq<ConfigFile>, inflate: Inflate) {
    |live| == |files| && forall i :: 0 <= i < |live| ==>
                                       live[i].body.Dirent? && Rebuild(nodes, live[i], {}, inflate) == Ok(files[i])
  }

  lemma {:induction false} RebuiltEach(nodes: seq<Node>, live: seq<Node>, seen: set<u32>, i: nat, inflate: Inflate)
    requires AllDirents(live) && RebuildAll(nodes, live, seen, inflate).Ok? && i < |live|
    ensures live[i] in live && |RebuildAll(nodes, live, seen, inflate).value| == |live|
    ensures Rebuild(nodes, live[i], {}, inflate) == Ok(RebuildAll(nodes, live, seen, inflate).value[i])
    decreases |live|
  {
    hide Rebuild;
    var d := live[0];
    assert d in live;
    RebuiltUnseen(nodes, d, seen, inflate);
    SeenMatters(nodes, d, seen, inflate);
    if |live| > 1 {
      RebuiltEach(nodes, live[1..], seen + {d.body.dinode}, if i == 0 then 0 else i - 1, inflate);
    } else {
      assert live[1..] == [];
    }
  }

  // ----- the serial -----

  /** The newest complete copy is unique exactly when one copy is newer than all others. */
  lemma CopiesNewest(nodes: seq<Node>, q: Node -> bool)
    requires AllInodes(Filter(nodes, q)) && Filter(nodes, q) != []
    ensures var copies := Filter(nodes, q);
            var newest := Filter(copies, HasVersion(MaxVersion(copies)));
            && (|newest| == 1 <==> exists c: nat :: IsNewest(nodes, q, c))
            && forall c: nat :: IsNewest(nodes, q, c) ==> newest == [nodes[c]]
  {
    hide Filter;
    var copies := Filter(nodes, q);
    var v := MaxVersion(copies);
    var both := (n: Node) => q(n) && HasVersion(v)(n);
    FilterMembers(nodes, q);
    FilterSame(copies, HasVersion(v), both);
    FilterTwice(nodes, q, both);
    if |Filter(nodes, both)| == 1 {
      var c := OnlyIndex(nodes, both);
      assert forall n :: n in copies ==> n.body.version <= v;
      forall j | 0 <= j < |nodes| && j != c && q(nodes[j])
        ensures VersionOf(nodes[j]) < VersionOf(nodes[c])
      {
        assert nodes[j] in copies;
      }
      assert IsNewest(nodes, q, c);
    }
    forall c: nat | IsNewest(nodes, q, c)
      ensures Filter(nodes, both) == [nodes[c]]
    {
      assert nodes[c] in copies;
      var n :| n in copies && n.body.version == v;
      var t :| 0 <= t < |nodes| && nodes[t] == n;
      assert t == c;
      FilterOne(nodes, c, both);
    }
  }
}

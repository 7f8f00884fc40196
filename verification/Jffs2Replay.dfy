/** What fragment replay means byte by byte, and why the order of the log does not matter. */
module Jffs2Replay {
  import opened Bytes
  import opened Lists
  import opened Jffs2Node
  import opened Jffs2Config
  import opened Jffs2Compaction
  import opened Jffs2Obsolete

  // ----- the meaning of one byte -----

  /** Whether a fragment decodes to data that covers byte k. */
  ghost predicate Hits(n: Node, inflate: Inflate, k: nat) {
    n.body.Inode? && Decode(n.body, inflate).Ok?
    && n.body.fileOffset <= k < n.body.fileOffset + |Decode(n.body, inflate).value|
  }

  ghost function ByteFrom(n: Node, inflate: Inflate, k: nat): byte
    requires Hits(n, inflate, k)
  {
    Decode(n.body, inflate).value[k - n.body.fileOffset]
  }

  /** No fragment from an index on covers k. */
  ghost predicate NoHitFrom(frags: seq<Node>, inflate: Inflate, k: nat, i: nat) {
    forall j :: i <= j < |frags| ==> !Hits(frags[j], inflate, k)
  }

  lemma OverlayAt(data: bytes, start: nat, decoded: bytes, k: nat)
    requires k < |data|
    ensures Overlay(data, start, decoded)[k] == if start <= k < start + |decoded| then decoded[k - start] else data[k]
  {
  }

  lemma OverlayByte(data: bytes, n: Node, inflate: Inflate, k: nat)
    requires n.body.Inode? && Decode(n.body, inflate).Ok? && k < |data|
    ensures Overlay(data, n.body.fileOffset, Decode(n.body, inflate).value)[k]
         == if Hits(n, inflate, k) then ByteFrom(n, inflate, k) else data[k]
  {
    hide Decode, Overlay;
    OverlayAt(data, n.body.fileOffset, Decode(n.body, inflate).value, k);
  }

  /** Replay keeps the byte of the last fragment that covers it, or the initial byte. */
  lemma {:induction false} ReplayByte(data: bytes, frags: seq<Node>, inflate: Inflate, k: nat)
    requires AllInodes(frags) && Replay(data, frags, inflate).Ok? && k < |data|
    ensures |Replay(data, frags, inflate).value| == |data|
    ensures NoHitFrom(frags, inflate, k, 0) ==> Replay(data, frags, inflate).value[k] == data[k]
    ensures forall i :: 0 <= i < |frags| && Hits(frags[i], inflate, k) && NoHitFrom(frags, inflate, k, i + 1) ==>
              Replay(data, frags, inflate).value[k] == ByteFrom(frags[i], inflate, k)
    decreases |frags|
  {
    hide Hits, ByteFrom, Overlay, Decode;
    if frags != [] {
      var n, rest := frags[0], frags[1..];
      assert n in frags;
      var next := Overlay(data, n.body.fileOffset, Decode(n.body, inflate).value);
      OverlayByte(data, n, inflate, k);
      ReplayByte(next, rest, inflate, k);
      assert NoHitFrom(frags, inflate, k, 0) ==> !Hits(frags[0], inflate, k);
      assert forall i :: 0 < i < |frags| ==> frags[i] == rest[i - 1];
      assert forall i :: 0 < i <= |frags| ==> NoHitFrom(frags, inflate, k, i) == NoHitFrom(rest, inflate, k, i - 1);
    }
  }

  // ----- the order of fragments -----

  lemma VersionPreorder()
    ensures Preorder(VersionLe)
  {
  }

  /** Version first, position in the log second. */
  predicate Older(nodes: seq<Node>, i: nat, j: nat)
    requires i < |nodes| && j < |nodes|
  {
    VersionOf(nodes[i]) < VersionOf(nodes[j]) || (VersionOf(nodes[i]) == VersionOf(nodes[j]) && i < j)
  }

  ghost predicate HitsFile(n: Node, inode: u32, inflate: Inflate, k: nat) {
    IsFragmentOf(inode)(n) && Hits(n, inflate, k)
  }

  /** Node i is the newest fragment of the inode that covers byte k. */
  ghost predicate NewestHit(nodes: seq<Node>, inode: u32, inflate: Inflate, k: nat, i: nat) {
    && i < |nodes| && HitsFile(nodes[i], inode, inflate, k)
    && forall j :: 0 <= j < |nodes| && j != i && HitsFile(nodes[j], inode, inflate, k) ==> Older(nodes, j, i)
  }

  /** The last hit of the sorted fragments, if there is one. */
  lemma {:induction false} LastHit(frags: seq<Node>, inflate: Inflate, k: nat, n: nat) returns (s: nat)
    requires n <= |frags| && NoHitFrom(frags, inflate, k, n) && !NoHitFrom(frags, inflate, k, 0)
    ensures s < |frags| && Hits(frags[s], inflate, k) && NoHitFrom(frags, inflate, k, s + 1)
  {
    hide Hits;
    if n > 0 && !Hits(frags[n - 1], inflate, k) {
      s := LastHit(frags, inflate, k, n - 1);
    } else {
      s := n - 1;
    }
  }

  /** The last hit of the sorted fragments has the version of the newest hit of the log. */
  lemma LastHasNewestVersion(nodes: seq<Node>, inode: u32, inflate: Inflate, k: nat, i: nat, s: nat)
    requires NewestHit(nodes, inode, inflate, k, i)
    requires var frags := Fragments(nodes, inode);
             s < |frags| && Hits(frags[s], inflate, k) && NoHitFrom(frags, inflate, k, s + 1)
    ensures HitsFile(Fragments(nodes, inode)[s], inode, inflate, k)
    ensures VersionOf(Fragments(nodes, inode)[s]) == VersionOf(nodes[i])
  {
    hide Hits;
    var frags := Fragments(nodes, inode);
    FragmentsAreInodes(nodes, inode);
    assert frags[s] in frags;
    var m :| 0 <= m < |nodes| && nodes[m] == frags[s];
    assert HitsFile(nodes[m], inode, inflate, k);
    assert nodes[i] in frags;
    var t :| 0 <= t < |frags| && frags[t] == nodes[i];
    VersionPreorder();
    SortSorted(Filter(nodes, IsFragmentOf(inode)), VersionLe);
    assert t <= s;
    assert t < s ==> VersionLe(frags[t], frags[s]);
  }

  /** The newest hit of the log is the last hit of the sorted fragments. */
  lemma NewestIsLast(nodes: seq<Node>, inode: u32, inflate: Inflate, k: nat, i: nat, s: nat)
    requires NewestHit(nodes, inode, inflate, k, i)
    requires var frags := Fragments(nodes, inode);
             s < |frags| && Hits(frags[s], inflate, k) && NoHitFrom(frags, inflate, k, s + 1)
    ensures Fragments(nodes, inode)[s] == nodes[i]
  {
    hide Hits, IsFragmentOf, VersionOf;
    LastHasNewestVersion(nodes, inode, inflate, k, i, s);
    var frags, v := Fragments(nodes, inode), VersionOf(nodes[i]);
    var q := (n: Node) => HitsFile(n, inode, inflate, k) && VersionOf(n) == v;
    SortByVersionStable(Filter(nodes, IsFragmentOf(inode)), q, v);
    FilterTwice(nodes, IsFragmentOf(inode), q);
    FilterLast(frags, s, q);
    FilterLast(nodes, i, q);
  }

  lemma SortByVersionStable(xs: seq<Node>, q: Node -> bool, v: nat)
    requires forall n :: q(n) ==> VersionOf(n) == v
    ensures Filter(Sort(xs, VersionLe), q) == Filter(xs, q)
  {
    SortStable(xs, VersionLe, q);
  }

  lemma ReplayMeaning(nodes: seq<Node>, inode: u32, size: nat, inflate: Inflate, k: nat)
    requires AllInodes(Fragments(nodes, inode)) && k < size
    requires Replay(Repeat(0, size), Fragments(nodes, inode), inflate).Ok?
    ensures var data := Replay(Repeat(0, size), Fragments(nodes, inode), inflate).value;
            && |data| == size
            && ((forall n :: n in nodes ==> !HitsFile(n, inode, inflate, k)) ==> data[k] == 0)
            && (forall i: nat :: NewestHit(nodes, inode, inflate, k, i) ==> data[k] == ByteFrom(nodes[i], inflate, k))
  {
    hide Replay, Fragments, Hits, ByteFrom, IsFragmentOf;
    FragmentsAreInodes(nodes, inode);
    var frags := Fragments(nodes, inode);
    ReplayByte(Repeat(0, size), frags, inflate, k);
    if forall n :: n in nodes ==> !HitsFile(n, inode, inflate, k) {
      forall j | 0 <= j < |frags|
        ensures !Hits(frags[j], inflate, k)
      {
        assert frags[j] in frags;
      }
    }
    forall i: nat | NewestHit(nodes, inode, inflate, k, i)
      ensures Replay(Repeat(0, size), frags, inflate).value[k] == ByteFrom(nodes[i], inflate, k)
    {
      assert nodes[i] in frags;
      var t :| 0 <= t < |frags| && frags[t] == nodes[i];
      var s := LastHit(frags, inflate, k, |frags|);
      NewestIsLast(nodes, inode, inflate, k, i, s);
    }
  }

  lemma RebuiltData(nodes: seq<Node>, d: Node, seen: set<u32>, inflate: Inflate) returns (size: nat)
    requires d.body.Dirent? && Rebuild(nodes, d, seen, inflate).Ok?
    ensures AllInodes(Fragments(nodes, d.body.dinode))
    ensures Replay(Repeat(0, size), Fragments(nodes, d.body.dinode), inflate) ==
            Ok(Rebuild(nodes, d, seen, inflate).value.data)
  {
    hide Replay, Fragments, Filter;
    FragmentsAreInodes(nodes, d.body.dinode);
    size := NewestVersion(Fragments(nodes, d.body.dinode)).body.fileSize;
  }

  /**
   Every byte of a reconstructed file is the byte of the newest fragment, by version and then by log
   order, that covers it; a byte that no fragment covers is zero.
   */
  lemma FileByteMeaning(nodes: seq<Node>, d: Node, seen: set<u32>, inflate: Inflate, f: ConfigFile, k: nat)
    requires d.body.Dirent? && Rebuild(nodes, d, seen, inflate) == Ok(f) && k < |f.data|
    ensures (forall n :: n in nodes ==> !HitsFile(n, d.body.dinode, inflate, k)) ==> f.data[k] == 0
    ensures forall i: nat :: NewestHit(nodes, d.body.dinode, inflate, k, i) ==>
            f.data[k] == ByteFrom(nodes[i], inflate, k)
  {
    hide Rebuild, Replay, Fragments, HitsFile, NewestHit, ByteFrom;
    var size := RebuiltData(nodes, d, seen, inflate);
    ReplayLength(Repeat(0, size), Fragments(nodes, d.body.dinode), inflate);
    ReplayMeaning(nodes, d.body.dinode, size, inflate, k);
  }

  // ----- the order of the log does not matter -----

  /** No two current fragments of an inode, and no two current entries of a name, share a version. */
  ghost predicate VersionsDiffer(nodes: seq<Node>) {
    Pairwise(nodes, NoVersionClash)
  }

  predicate NoVersionClash(a: Node, b: Node) {
    a.status.Current? && b.status.Current? ==>
      && (a.body.Inode? && b.body.Inode? && a.body.inode == b.body.inode ==> a.body.version != b.body.version)
      && (SameEntry(a, b) ==> a.body.dversion != b.body.dversion)
  }

  lemma FragmentsPermute(n1: seq<Node>, n2: seq<Node>, inode: u32)
    requires multiset(n1) == multiset(n2) && VersionsDiffer(n1)
    ensures Fragments(n1, inode) == Fragments(n2, inode)
  {
    var isFrag := IsFragmentOf(inode);
    var f1, f2 := Filter(n1, isFrag), Filter(n2, isFrag);
    FilterPermutes(n1, n2, isFrag);
    FilterMembers(n1, isFrag);
    FilterPairwise(n1, isFrag, NoVersionClash);
    forall i, j | 0 <= i < j < |f1|
      ensures !(VersionLe(f1[i], f1[j]) && VersionLe(f1[j], f1[i]))
    {
      assert f1[i] in f1 && f1[j] in f1 && NoVersionClash(f1[i], f1[j]);
    }
    VersionPreorder();
    SortPermutes(f1, f2, VersionLe);
  }

  /** An entry at least as new as e, under the same name. */
  ghost predicate HasNewer(dict: seq<Node>, e: Node) {
    exists d :: d in dict && SameEntry(d, e) && e.body.dversion <= d.body.dversion
  }

  /** The dictionary holds, for every current entry seen, the one of the greatest version. */
  ghost predicate HoldsNewest(dict: seq<Node>, seen: seq<Node>) {
    && KeysDiffer(dict)
    && (forall d :: d in dict ==> d in seen)
    && (forall e :: e in seen && IsCurrentDirent(e) ==> HasNewer(dict, e))
  }

  /** What Put does to a dictionary with different keys. */
  lemma {:induction false} PutCases(dict: seq<Node>, n: Node) returns (i: nat)
    requires KeysDiffer(dict) && IsCurrentDirent(n)
    ensures i <= |dict|
    ensures i == |dict| ==> Put(dict, n) == Ok(dict + [n]) && forall d :: d in dict ==> !SameEntry(d, n)
    ensures i < |dict| ==> SameEntry(dict[i], n)
    ensures i < |dict| && n.body.dversion > dict[i].body.dversion ==> Put(dict, n) == Ok(dict[i := n])
    ensures i < |dict| && n.body.dversion < dict[i].body.dversion ==> Put(dict, n) == Ok(dict)
    ensures i < |dict| && n.body.dversion == dict[i].body.dversion ==> Put(dict, n).Err?
  {
    hide SameEntry, IsCurrentDirent;
    if dict == [] || SameEntry(dict[0], n) {
      i := 0;
      assert dict != [] ==> dict[0 := n] == [n] + dict[1..];
      assert dict == [] ==> dict + [n] == [n];
    } else {
      var rest := dict[1..];
      assert forall d :: d in rest ==> d in dict;
      var k := PutCases(rest, n);
      i := k + 1;
      assert dict == [dict[0]] + rest;
      assert [dict[0]] + (rest + [n]) == dict + [n];
      assert k < |rest| ==> [dict[0]] + rest[k := n] == dict[k + 1 := n];
    }
  }

  /** Putting n keeps a newer entry for everything that had one, and has one for n. */
  lemma PutNewer(dict: seq<Node>, n: Node, e: Node)
    requires KeysDiffer(dict) && IsCurrentDirent(n) && forall d :: d in dict ==> NoVersionClash(d, n)
    requires e == n || HasNewer(dict, e)
    ensures Put(dict, n).Ok? && HasNewer(Put(dict, n).value, e)
  {
    hide Put;
    var i := PutCases(dict, n);
    assert i < |dict| ==> dict[i] in dict;
    var out := Put(dict, n).value;
    if i == |dict| {
      assert n in out && forall d :: d in dict ==> d in out;
    } else if n.body.dversion > dict[i].body.dversion {
      assert out[i] == n;
      if e != n {
        var d :| d in dict && SameEntry(d, e) && e.body.dversion <= d.body.dversion;
        var k :| 0 <= k < |dict| && dict[k] == d;
        assert k != i ==> out[k] == d;
      }
    }
  }

  lemma PutNewest(dict: seq<Node>, seen: seq<Node>, n: Node)
    requires HoldsNewest(dict, seen) && IsCurrentDirent(n) && forall e :: e in seen ==> NoVersionClash(e, n)
    ensures Put(dict, n).Ok? && HoldsNewest(Put(dict, n).value, seen + [n])
  {
    hide Put, KeysDiffer, HasNewer, NoVersionClash;
    PutNewer(dict, n, n);
    PutKeepsKeys(dict, n);
    forall e | e in seen + [n] && IsCurrentDirent(e)
      ensures HasNewer(Put(dict, n).value, e)
    {
      PutNewer(dict, n, e);
    }
  }

  lemma {:induction false} CollectNewest(nodes: seq<Node>, dict: seq<Node>, seen: seq<Node>)
    requires HoldsNewest(dict, seen) && VersionsDiffer(seen + nodes)
    ensures Collect(nodes, dict).Ok? && HoldsNewest(Collect(nodes, dict).value, seen + nodes)
    decreases |nodes|
  {
    hide Put, KeysDiffer, HasNewer;
    if nodes == [] {
      assert seen + nodes == seen;
    } else {
      var n, rest := nodes[0], nodes[1..];
      assert seen + nodes == (seen + [n]) + rest;
      if IsCurrentDirent(n) {
        forall e | e in seen
          ensures NoVersionClash(e, n)
        {
          var k :| 0 <= k < |seen| && seen[k] == e;
          assert (seen + nodes)[k] == e && (seen + nodes)[|seen|] == n;
        }
        PutNewest(dict, seen, n);
        CollectNewest(rest, Put(dict, n).value, seen + [n]);
      } else {
        assert HoldsNewest(dict, seen + [n]);
        CollectNewest(rest, dict, seen + [n]);
      }
    }
  }

  lemma ClashFree(nodes: seq<Node>, a: Node, b: Node)
    requires VersionsDiffer(nodes) && a in nodes && b in nodes && a != b
    ensures NoVersionClash(a, b)
  {
    var i :| 0 <= i < |nodes| && nodes[i] == a;
    var j :| 0 <= j < |nodes| && nodes[j] == b;
    assert if i < j then NoVersionClash(nodes[i], nodes[j]) else NoVersionClash(nodes[j], nodes[i]);
  }

  lemma NewestMembers(n1: seq<Node>, n2: seq<Node>, d1: seq<Node>, d2: seq<Node>, d: Node)
    requires HoldsNewest(d1, n1) && HoldsNewest(d2, n2) && (forall n :: n in n1 <==> n in n2) && VersionsDiffer(n1)
    requires d in d1
    ensures d in d2
  {
    assert IsCurrentDirent(d);
    assert HasNewer(d2, d);
    var e :| e in d2 && SameEntry(e, d) && d.body.dversion <= e.body.dversion;
    assert IsCurrentDirent(e);
    assert HasNewer(d1, e);
    var g :| g in d1 && SameEntry(g, e) && e.body.dversion <= g.body.dversion;
    hide HoldsNewest, HasNewer, VersionsDiffer;
    SameKeySame(d1, g, d);
    if e != d {
      ClashFree(n1, e, d);
    }
  }

  lemma SameKeySame(dict: seq<Node>, a: Node, b: Node)
    requires KeysDiffer(dict) && a in dict && b in dict && SameEntry(a, b)
    ensures a == b
  {
    var i :| 0 <= i < |dict| && dict[i] == a;
    var j :| 0 <= j < |dict| && dict[j] == b;
    var lo, hi := Min(i, j), if i <= j then j else i;
    assert lo == hi || !SameEntry(dict[lo], dict[hi]);
  }

  lemma KeysDistinct(dict: seq<Node>)
    requires KeysDiffer(dict)
    ensures forall i, j :: 0 <= i < j < |dict| ==> dict[i] != dict[j]
  {
    forall i, j | 0 <= i < j < |dict|
      ensures dict[i] != dict[j]
    {
      assert dict[i] in dict && !SameEntry(dict[i], dict[j]);
    }
  }

  lemma SameDictionaries(n1: seq<Node>, n2: seq<Node>, d1: seq<Node>, d2: seq<Node>)
    requires HoldsNewest(d1, n1) && HoldsNewest(d2, n2) && (forall n :: n in n1 <==> n in n2)
    requires VersionsDiffer(n1) && VersionsDiffer(n2)
    ensures KeysDiffer(d1) && KeysDiffer(d2) && multiset(d1) == multiset(d2)
  {
    hide HasNewer, VersionsDiffer, KeysDiffer;
    KeysDistinct(d1);
    KeysDistinct(d2);
    forall d
      ensures d in d1 <==> d in d2
    {
      if d in d1 {
        NewestMembers(n1, n2, d1, d2, d);
      }
      if d in d2 {
        NewestMembers(n2, n1, d2, d1, d);
      }
    }
    SameMembersPermute(d1, d2);
  }

  /** Reordered logs leave dictionaries that are permutations of each other. */
  lemma CollectPermutes(n1: seq<Node>, n2: seq<Node>)
    requires multiset(n1) == multiset(n2) && VersionsDiffer(n1) && VersionsDiffer(n2)
    ensures Collect(n1, []).Ok? && Collect(n2, []).Ok?
    ensures KeysDiffer(Collect(n1, []).value) && KeysDiffer(Collect(n2, []).value)
    ensures multiset(Collect(n1, []).value) == multiset(Collect(n2, []).value)
  {
    assert [] + n1 == n1 && [] + n2 == n2;
    assert HoldsNewest([], []);
    hide Collect, HoldsNewest, VersionsDiffer, KeysDiffer;
    CollectNewest(n1, [], []);
    CollectNewest(n2, [], []);
    SameMembers(n1, n2);
    SameDictionaries(n1, n2, Collect(n1, []).value, Collect(n2, []).value);
  }

  lemma LiveRootPermutes(d1: seq<Node>, d2: seq<Node>)
    requires KeysDiffer(d1) && multiset(d1) == multiset(d2)
    ensures LiveRoot(d1) == LiveRoot(d2)
    ensures (Filter(d1, IsLiveBelowRoot) == []) == (Filter(d2, IsLiveBelowRoot) == [])
  {
    FilterPermutes(d1, d2, IsLiveBelowRoot);
    var b1, b2 := Filter(d1, IsLiveBelowRoot), Filter(d2, IsLiveBelowRoot);
    assert |b1| == |multiset(b1)| && |b2| == |multiset(b2)|;
    FilterPermutes(d1, d2, IsLive);
    LiveRanked(d1);
    NamePreorder();
    SortPermutes(Filter(d1, IsLive), Filter(d2, IsLive), NameLe);
  }

  lemma VersionsDifferPermutes(n1: seq<Node>, n2: seq<Node>)
    requires multiset(n1) == multiset(n2) && VersionsDiffer(n1)
    ensures VersionsDiffer(n2)
  {
    forall i, j | 0 <= i < j < |n2|
      ensures NoVersionClash(n2[i], n2[j])
    {
      assert n2 == n2[..i] + [n2[i]] + n2[i + 1..j] + [n2[j]] + n2[j + 1..];
      var a, b := TwoPlaces(n1, n2[i], n2[j]);
      assert a < b ==> NoVersionClash(n1[a], n1[b]);
      assert b < a ==> NoVersionClash(n1[b], n1[a]);
    }
  }

  /** When versions are distinct, any reordering of the nodes yields the same live files. */
  lemma LogOrderIrrelevant(n1: seq<Node>, n2: seq<Node>, inflate: Inflate)
    requires multiset(n1) == multiset(n2) && VersionsDiffer(n1)
    ensures LiveFiles(n1, inflate) == LiveFiles(n2, inflate)
  {
    hide Fragments, Collect, LiveRoot, KeysDiffer, VersionsDiffer, Filter;
    VersionsDifferPermutes(n1, n2);
    CollectPermutes(n1, n2);
    var d1, d2 := Collect(n1, []).value, Collect(n2, []).value;
    LiveRootPermutes(d1, d2);
    forall k
      ensures Fragments(n1, k) == Fragments(n2, k)
    {
      FragmentsPermute(n1, n2, k);
    }
    LiveRootMembers(d1);
    RebuildAllDecided(n1, n2, LiveRoot(d1), {}, inflate);
  }
}

/** Exactly which files a log holds: the declarative meaning of preserve-mode reconstruction. */
module Jffs2Extract {
  import opened Bytes
  import opened Lists
  import opened Jffs2Node
  import opened Jffs2Config
  import opened Jffs2Compaction
  import opened Jffs2Replay
  import opened Jffs2Obsolete
  import opened Jffs2Dictionary
  import opened Jffs2Decode

  /** A current entry newer than every other of its parent and name. */
  ghost predicate NewestEntry(nodes: seq<Node>, d: Node) {
    && d in nodes && IsCurrentDirent(d)
    && forall e :: e in nodes && Rival(e, d) ==> e == d || e.body.dversion < d.body.dversion
  }

  /** No entry comes with the version of the newest of its key so far. */
  ghost predicate NoTies(nodes: seq<Node>) {
    forall j :: 0 <= j < |nodes| && IsCurrentDirent(nodes[j]) ==> !Ties(nodes[..j], nodes[j])
  }

  /** Every directory but the root is empty. */
  ghost predicate RootOnly(nodes: seq<Node>) {
    forall d :: d in nodes && NewestEntry(nodes, d) && d.body.parent != 1 ==> d.body.dinode == 0
  }

  predicate Ascending(ds: seq<Node>) {
    forall i, j :: 0 <= i < j < |ds| ==>
                     NameOf(ds[i]) != NameOf(ds[j]) && LexLe(NameOf(ds[i]), NameOf(ds[j]))
  }

  /** The live names of the root directory, in order. */
  ghost predicate Live(nodes: seq<Node>, ds: seq<Node>) {
    && (forall d :: d in ds <==> NewestEntry(nodes, d) && d.body.Dirent? && d.body.parent == 1 && d.body.dinode != 0)
    && Ascending(ds)
  }

  /** One file for each live name, no two of them with one inode. */
  ghost predicate HoldsEach(nodes: seq<Node>, ds: seq<Node>, files: seq<ConfigFile>, inflate: Inflate) {
    && |files| == |ds|
    && (forall i :: 0 <= i < |ds| ==> Holds(nodes, ds[i].body, files[i], inflate))
    && forall i, j :: 0 <= i < j < |ds| ==> InodeOf(ds[i]) != InodeOf(ds[j])
  }

  function InodeOf(d: Node): nat {
    if d.body.Dirent? then d.body.dinode else 0
  }

  ghost predicate Unseen(ds: seq<Node>, seen: set<u32>) {
    forall i :: 0 <= i < |ds| ==> InodeOf(ds[i]) !in seen
  }

  // ----- the files of given names -----

  lemma FirstHolds(nodes: seq<Node>, ds: seq<Node>, files: seq<ConfigFile>, seen: set<u32>, inflate: Inflate)
    requires AllDirents(ds) && ds != [] && files != []
    ensures HoldsEach(nodes, ds, files, inflate) && Unseen(ds, seen) <==>
            && InodeOf(ds[0]) !in seen && Holds(nodes, ds[0].body, files[0], inflate)
            && HoldsEach(nodes, ds[1..], files[1..], inflate) && Unseen(ds[1..], seen + {ds[0].body.dinode})
  {
    hide Holds;
    assert ds[0] in ds && forall i :: 0 < i < |ds| ==> ds[i] in ds;
    assert forall i :: 0 < i < |ds| ==> ds[i] == ds[1..][i - 1];
    assert forall i :: 0 < i < |files| ==> files[i] == files[1..][i - 1];
    if HoldsEach(nodes, ds[1..], files[1..], inflate) && Unseen(ds[1..], seen + {ds[0].body.dinode}) {
      forall i | 0 < i < |ds|
        ensures InodeOf(ds[i]) !in seen && InodeOf(ds[i]) != InodeOf(ds[0])
      {
        assert InodeOf(ds[1..][i - 1]) !in seen + {ds[0].body.dinode};
      }
    }
  }

  lemma {:induction false} RebuildAllExactly(nodes: seq<Node>, ds: seq<Node>, seen: set<u32>, files: seq<ConfigFile>,
                                             inflate: Inflate)
    requires AllDirents(ds)
    ensures RebuildAll(nodes, ds, seen, inflate) == Ok(files) <==>
            HoldsEach(nodes, ds, files, inflate) && Unseen(ds, seen)
    decreases |ds|
  {
    hide Rebuild, Holds, HoldsEach, Unseen;
    if ds == [] {
      NoneHeld(nodes, files, seen, inflate);
    } else if files == [] {
      SomeHeld(nodes, ds, inflate);
    } else {
      assert ds[0] in ds && files == [files[0]] + files[1..];
      RebuildExactly(nodes, ds[0], seen, files[0], inflate);
      RebuildAllExactly(nodes, ds[1..], seen + {ds[0].body.dinode}, files[1..], inflate);
      FirstHolds(nodes, ds, files, seen, inflate);
    }
  }

  lemma NoneHeld(nodes: seq<Node>, files: seq<ConfigFile>, seen: set<u32>, inflate: Inflate)
    ensures HoldsEach(nodes, [], files, inflate) && Unseen([], seen) <==> files == []
  {
  }

  lemma SomeHeld(nodes: seq<Node>, ds: seq<Node>, inflate: Inflate)
    requires ds != []
    ensures !HoldsEach(nodes, ds, [], inflate)
  {
  }

  // ----- the live names -----

  /** The newest entry of a key has no equal. */
  lemma NoEqual(nodes: seq<Node>, d: Node, e: Node)
    requires NoTies(nodes) && d in nodes && e in nodes && IsCurrentDirent(d) && Rival(e, d) && e != d
    requires forall g :: g in nodes && Rival(g, d) ==> g.body.dversion <= d.body.dversion
    ensures e.body.dversion < d.body.dversion
  {
    var i :| 0 <= i < |nodes| && nodes[i] == d;
    var j :| 0 <= j < |nodes| && nodes[j] == e;
    var late, other := if i < j then j else i, if i < j then d else e;
    assert other in nodes[..late];
    assert Rival(other, nodes[late]);
    assert forall g :: g in nodes[..late] && Rival(g, nodes[late]) ==> g in nodes && Rival(g, d);
  }

  lemma DictIsNewest(nodes: seq<Node>, dict: seq<Node>, d: Node)
    requires NoTies(nodes) && HoldsNewest(dict, nodes)
    ensures d in dict <==> NewestEntry(nodes, d)
  {
    hide NoTies, KeysDiffer;
    if d in dict {
      EntryCurrent(dict, d);
      forall e | e in nodes && Rival(e, d)
        ensures e.body.dversion <= d.body.dversion
      {
        assert HasNewer(dict, e);
        var g :| g in dict && SameEntry(g, e) && e.body.dversion <= g.body.dversion;
        SameKeySame(dict, g, d);
      }
      forall e | e in nodes && Rival(e, d) && e != d
        ensures e.body.dversion < d.body.dversion
      {
        NoEqual(nodes, d, e);
      }
    }
    if NewestEntry(nodes, d) {
      assert HasNewer(dict, d);
      var g :| g in dict && SameEntry(g, d) && d.body.dversion <= g.body.dversion;
      EntryCurrent(dict, g);
      assert Rival(g, d);
    }
  }

  lemma EntryCurrent(dict: seq<Node>, d: Node)
    requires KeysDiffer(dict) && d in dict
    ensures IsCurrentDirent(d)
  {
  }

  lemma NewestIsEntry(nodes: seq<Node>, d: Node)
    requires NewestEntry(nodes, d)
    ensures d in nodes && d.body.Dirent?
  {
  }

  lemma NewestAreRoot(nodes: seq<Node>, dict: seq<Node>)
    requires NoTies(nodes) && HoldsNewest(dict, nodes)
    ensures Filter(dict, IsLiveBelowRoot) == [] <==> RootOnly(nodes)
  {
    hide NoTies, HoldsNewest, NewestEntry, Filter;
    FilterMembers(dict, IsLiveBelowRoot);
    forall d
      ensures d in dict <==> NewestEntry(nodes, d)
    {
      DictIsNewest(nodes, dict, d);
    }
    forall d | NewestEntry(nodes, d)
      ensures d in nodes && d.body.Dirent?
    {
      NewestIsEntry(nodes, d);
    }
    var below := Filter(dict, IsLiveBelowRoot);
    if below != [] {
      assert below[0] in below;
    }
  }

  lemma LiveRootIsLive(nodes: seq<Node>, dict: seq<Node>)
    requires NoTies(nodes) && HoldsNewest(dict, nodes)
    ensures Live(nodes, LiveRoot(dict))
  {
    hide NoTies, HasNewer, NewestEntry, LiveRoot;
    LiveRootMembers(dict);
    LiveRootOrdered(dict);
    forall d
      ensures d in LiveRoot(dict) <==>
              NewestEntry(nodes, d) && d.body.Dirent? && d.body.parent == 1 && d.body.dinode != 0
    {
      DictIsNewest(nodes, dict, d);
      if NewestEntry(nodes, d) {
        NewestIsEntry(nodes, d);
      }
    }
  }

  /** There is one list of live names. */
  lemma LiveUnique(nodes: seq<Node>, xs: seq<Node>, ys: seq<Node>)
    requires Live(nodes, xs) && Live(nodes, ys)
    ensures xs == ys
  {
    hide NewestEntry;
    AscendingRanked(xs);
    AscendingRanked(ys);
    SameMembersPermute(xs, ys);
    NamePreorder();
    SortPermutes(xs, ys, NameLe);
    SortOfSorted(xs, NameLe);
    SortOfSorted(ys, NameLe);
  }

  lemma AscendingRanked(xs: seq<Node>)
    requires Ascending(xs)
    ensures Sorted(xs, NameLe) && Ranked(xs, NameLe) && forall i, j :: 0 <= i < j < |xs| ==> xs[i] != xs[j]
  {
    forall i, j | 0 <= i < j < |xs|
      ensures !(NameLe(xs[i], xs[j]) && NameLe(xs[j], xs[i]))
    {
      LexTotal(NameOf(xs[i]), NameOf(xs[j]));
    }
  }

  // ----- the whole log -----

  /**
   A log gives a list of files if and only if no two newest entries tie, directories other than the root are empty,
   and the files are, in name order, those that the live names hold, each with its own inode.
   */
  lemma LiveFilesExactly(nodes: seq<Node>, files: seq<ConfigFile>, inflate: Inflate)
    ensures LiveFiles(nodes, inflate) == Ok(files) <==>
            && NoTies(nodes) && RootOnly(nodes)
            && exists ds :: Live(nodes, ds) && HoldsEach(nodes, ds, files, inflate)
  {
    hide Collect, HoldsNewest, NoTies, RootOnly, Live, HoldsEach, LiveRoot, RebuildAll, Filter;
    TiesDecide(nodes);
    if NoTies(nodes) {
      var dict := Collect(nodes, []).value;
      NewestAreRoot(nodes, dict);
      LiveRootIsLive(nodes, dict);
      LiveRootMembers(dict);
      RebuildAllExactly(nodes, LiveRoot(dict), {}, files, inflate);
      assert Unseen(LiveRoot(dict), {});
      forall ds | Live(nodes, ds)
        ensures ds == LiveRoot(dict)
      {
        LiveUnique(nodes, ds, LiveRoot(dict));
      }
    }
  }

  lemma TiesDecide(nodes: seq<Node>)
    ensures Collect(nodes, []).Ok? <==> NoTies(nodes)
    ensures Collect(nodes, []).Ok? ==> HoldsNewest(Collect(nodes, []).value, nodes)
  {
    hide Collect, HoldsNewest, Ties;
    CollectExactly(nodes);
  }
}

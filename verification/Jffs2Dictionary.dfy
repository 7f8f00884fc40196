/** The dictionary of current directory entries: exactly when it is refused, and what it holds. */
module Jffs2Dictionary {
  import opened Bytes
  import opened Jffs2Node
  import opened Jffs2Config
  import opened Jffs2Compaction
  import opened Jffs2Replay

  /** A current entry for the key of another. */
  predicate Rival(e: Node, n: Node) {
    IsCurrentDirent(e) && SameEntry(e, n)
  }

  /** An entry whose version is that of the newest entries of its key so far. */
  ghost predicate Ties(seen: seq<Node>, n: Node)
    requires n.body.Dirent?
  {
    && (exists e :: e in seen && Rival(e, n) && e.body.dversion == n.body.dversion)
    && forall e :: e in seen && Rival(e, n) ==> e.body.dversion <= n.body.dversion
  }

  lemma RivalAtMost(dict: seq<Node>, seen: seq<Node>, n: Node, i: nat, e: Node)
    requires HoldsNewest(dict, seen) && i < |dict| && SameEntry(dict[i], n) && e in seen && Rival(e, n)
    ensures e.body.dversion <= dict[i].body.dversion
  {
    assert HasNewer(dict, e);
    var d :| d in dict && SameEntry(d, e) && e.body.dversion <= d.body.dversion;
    hide HoldsNewest;
    SameKeySame(dict, d, dict[i]);
  }

  /** An entry is put into the dictionary unless it ties. */
  lemma PutExactly(dict: seq<Node>, seen: seq<Node>, n: Node)
    requires HoldsNewest(dict, seen) && IsCurrentDirent(n)
    ensures Put(dict, n).Ok? <==> !Ties(seen, n)
  {
    hide Put;
    var i := PutCases(dict, n);
    if i == |dict| {
      forall e | e in seen
        ensures !Rival(e, n)
      {
        assert IsCurrentDirent(e) ==> HasNewer(dict, e);
      }
    } else {
      assert dict[i] in dict && dict[i] in seen && Rival(dict[i], n);
      forall e | e in seen && Rival(e, n)
        ensures e.body.dversion <= dict[i].body.dversion
      {
        RivalAtMost(dict, seen, n, i, e);
      }
    }
  }

  /** What was put is newest for everything seen. */
  lemma PutHolds(dict: seq<Node>, seen: seq<Node>, n: Node)
    requires HoldsNewest(dict, seen) && IsCurrentDirent(n) && Put(dict, n).Ok?
    ensures HoldsNewest(Put(dict, n).value, seen + [n])
  {
    hide Put, KeysDiffer;
    var i := PutCases(dict, n);
    var out := Put(dict, n).value;
    PutKeepsKeys(dict, n);
    forall e | e in seen + [n] && IsCurrentDirent(e)
      ensures HasNewer(out, e)
    {
      PutAnswers(dict, n, i, e);
    }
    forall d | d in out
      ensures d in seen + [n]
    {
      assert d in dict || d == n;
    }
  }

  lemma PutAnswers(dict: seq<Node>, n: Node, i: nat, e: Node)
    requires KeysDiffer(dict) && IsCurrentDirent(n) && IsCurrentDirent(e) && i <= |dict|
    requires e == n || HasNewer(dict, e)
    requires i == |dict| ==> Put(dict, n) == Ok(dict + [n])
    requires i < |dict| ==> SameEntry(dict[i], n)
    requires i < |dict| && n.body.dversion > dict[i].body.dversion ==> Put(dict, n) == Ok(dict[i := n])
    requires i < |dict| && n.body.dversion < dict[i].body.dversion ==> Put(dict, n) == Ok(dict)
    requires i < |dict| ==> n.body.dversion != dict[i].body.dversion
    ensures Put(dict, n).Ok? && HasNewer(Put(dict, n).value, e)
  {
    hide Put, KeysDiffer;
    var out := Put(dict, n).value;
    if i < |dict| && n.body.dversion < dict[i].body.dversion {
      assert dict[i] in dict;
    } else {
      assert n in out by {
        assert out[i] == n;
      }
      if e != n {
        var d :| d in dict && SameEntry(d, e) && e.body.dversion <= d.body.dversion;
        var k :| 0 <= k < |dict| && dict[k] == d;
        assert k != i ==> out[k] == d;
      }
    }
  }

  /**
   Collecting refuses exactly the logs in which some current entry comes with the version of the newest entries of
   its key so far; and otherwise holds the newest entry of each key.
   */
  lemma {:induction false} CollectOn(nodes: seq<Node>, dict: seq<Node>, seen: seq<Node>)
    requires HoldsNewest(dict, seen)
    ensures Collect(nodes, dict).Ok? <==>
            forall j :: 0 <= j < |nodes| && IsCurrentDirent(nodes[j]) ==> !Ties(seen + nodes[..j], nodes[j])
    ensures Collect(nodes, dict).Ok? ==> HoldsNewest(Collect(nodes, dict).value, seen + nodes)
    decreases |nodes|
  {
    hide Put, KeysDiffer, HasNewer, Ties;
    if nodes == [] {
      assert seen + nodes == seen;
    } else {
      var n, rest := nodes[0], nodes[1..];
      assert seen + nodes == (seen + [n]) + rest && seen + nodes[..0] == seen;
      assert forall j :: 0 < j < |nodes| ==>
                           nodes[j] == rest[j - 1] && seen + nodes[..j] == (seen + [n]) + rest[..j - 1];
      if IsCurrentDirent(n) {
        PutExactly(dict, seen, n);
        if Put(dict, n).Ok? {
          PutHolds(dict, seen, n);
          CollectOn(rest, Put(dict, n).value, seen + [n]);
        }
      } else {
        assert HoldsNewest(dict, seen + [n]);
        CollectOn(rest, dict, seen + [n]);
      }
    }
  }

  lemma CollectExactly(nodes: seq<Node>)
    ensures Collect(nodes, []).Ok? <==>
            forall j :: 0 <= j < |nodes| && IsCurrentDirent(nodes[j]) ==> !Ties(nodes[..j], nodes[j])
    ensures Collect(nodes, []).Ok? ==> HoldsNewest(Collect(nodes, []).value, nodes)
  {
    hide Put, Ties;
    assert [] + nodes == nodes && forall j :: 0 <= j < |nodes| ==> [] + nodes[..j] == nodes[..j];
    CollectOn(nodes, [], []);
  }
}

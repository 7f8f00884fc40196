/** Exactly which serial a log gives: the newest complete live copy, or what every complete copy ever written says. */
module Jffs2Serial {
  import opened Bytes
  import opened Lists
  import opened Jffs2Node
  import opened Jffs2Config
  import opened Jffs2Compaction
  import opened Jffs2Replay
  import opened Jffs2PhantomData
  import opened Jffs2Extract

  /** serial=12PSSSS, one of 3, 4 and 5, 28 capitals or digits, and a newline. */
  predicate IsSerialText(p: bytes) {
    && |p| == 44 && p[..14] == Ascii("serial=12PSSSS") && p[14] in {0x33, 0x34, 0x35}
    && (forall i :: 15 <= i < 43 ==> 0x30 <= p[i] <= 0x39 || 0x41 <= p[i] <= 0x5A)
    && p[43] == 0x0A
  }

  lemma TextExactly(p: bytes)
    ensures ValidSerial(p) <==> IsSerialText(p)
    ensures SERIAL_NAME == Ascii("serial.cfg")
  {
    assert SERIAL_PREFIX == Ascii("serial=12PSSSS");
  }

  /** A whole, uncompressed file with a serial in it. */
  predicate HoldsText(n: Node, p: bytes) {
    && n.body.Inode? && n.body.payload == p && IsSerialText(p)
    && n.body.fileOffset == 0 && n.body.compression == 0 && n.body.csize == n.body.dsize == n.body.fileSize
  }

  predicate Copy(n: Node, inode: u32) {
    n.status.Current? && n.body.Inode? && n.body.inode == inode && HoldsText(n, n.body.payload)
  }

  lemma CopyExactly(n: Node, inode: u32)
    ensures IsLiveSerialOf(inode)(n) <==> Copy(n, inode)
    ensures HoldsSerial(n) <==> n.body.Inode? && HoldsText(n, n.body.payload)
  {
    hide IsSerialText, ValidSerial;
    if n.body.Inode? {
      TextExactly(n.body.payload);
    }
  }

  /** The one copy newer than all others. */
  predicate NewestCopy(nodes: seq<Node>, inode: u32, c: nat) {
    && c < |nodes| && Copy(nodes[c], inode)
    && forall j :: 0 <= j < |nodes| && j != c && Copy(nodes[j], inode) ==> VersionOf(nodes[j]) < VersionOf(nodes[c])
  }

  /** The newest entry of the name serial.cfg in the root directory, if it is live. */
  ghost predicate SerialEntry(nodes: seq<Node>, d: Node) {
    && NewestEntry(nodes, d) && d.body.Dirent? && d.body.parent == 1 && d.body.dinode != 0
    && d.body.name == Ascii("serial.cfg")
  }

  ghost predicate LiveCopy(nodes: seq<Node>) {
    exists d, n :: SerialEntry(nodes, d) && n in nodes && Copy(n, d.body.dinode)
  }

  ghost predicate LiveText(nodes: seq<Node>, p: bytes) {
    exists d, c: nat :: SerialEntry(nodes, d) && NewestCopy(nodes, d.body.dinode, c) && nodes[c].body.payload == p
  }

  /** Copies, live or not, and all of one text. */
  ghost predicate AgreedText(nodes: seq<Node>, p: bytes) {
    && (exists n :: n in nodes && HoldsText(n, p))
    && forall n :: n in nodes && n.body.Inode? && HoldsText(n, n.body.payload) ==> n.body.payload == p
  }

  // ----- the live copy -----

  /** The dictionary's entry of the name. */
  lemma EntryExactly(nodes: seq<Node>, dict: seq<Node>) returns (d: Option<Node>)
    requires NoTies(nodes) && HoldsNewest(dict, nodes)
    ensures Filter(dict, SerialEntries()) == match d case Some(e) => [e] case None => []
    ensures forall e :: SerialEntry(nodes, e) <==> d == Some(e)
  {
    hide NoTies, HasNewer, NewestEntry, Filter, Ascii;
    TextExactly([]);
    var found := Filter(dict, SerialEntries());
    FilterMembers(dict, SerialEntries());
    forall e
      ensures e in found <==> SerialEntry(nodes, e)
    {
      DictIsNewest(nodes, dict, e);
      EntryNamed(nodes, e);
    }
    if found == [] {
      d := None;
    } else {
      d := Some(found[0]);
      FilterPairwise(dict, SerialEntries(), DifferentEntries);
      AtMostOne(nodes, found);
    }
  }

  lemma AtMostOne(nodes: seq<Node>, found: seq<Node>)
    requires Pairwise(found, DifferentEntries) && forall e :: e in found ==> SerialEntry(nodes, e)
    ensures |found| <= 1
  {
    hide NewestEntry, Ascii;
    var two := |found| > 1 && DifferentEntries(found[0], found[1]);
    assert forall i :: 0 <= i < |found| ==> SerialEntry(nodes, found[i]);
  }

  lemma EntryNamed(nodes: seq<Node>, e: Node)
    ensures NewestEntry(nodes, e) ==> e.body.Dirent?
  {
  }

  lemma NewestCopyIs(nodes: seq<Node>, inode: u32, c: nat)
    ensures NewestCopy(nodes, inode, c) <==> IsNewest(nodes, IsLiveSerialOf(inode), c)
  {
    hide Copy, IsLiveSerialOf, VersionOf;
    forall j | 0 <= j < |nodes|
      ensures Copy(nodes[j], inode) <==> IsLiveSerialOf(inode)(nodes[j])
    {
      CopyExactly(nodes[j], inode);
    }
  }

  lemma LiveExactly(nodes: seq<Node>, dict: seq<Node>, p: bytes)
    requires NoTies(nodes) && HoldsNewest(dict, nodes)
    ensures LiveSerial(nodes, dict) == Ok(None) <==> !LiveCopy(nodes)
    ensures LiveSerial(nodes, dict) == Ok(Some(p)) <==> LiveText(nodes, p)
  {
    hide NoTies, HoldsNewest, Filter, SerialEntry, NewestCopy, IsLiveSerialOf, SerialEntries, Copy, IsNewest;
    var d := EntryExactly(nodes, dict);
    if d.Some? {
      EntryUsable(nodes, d.value);
      var inode := d.value.body.dinode;
      LiveSerialsAreInodes(nodes, inode);
      var copies := Filter(nodes, IsLiveSerialOf(inode));
      FilterMembers(nodes, IsLiveSerialOf(inode));
      forall n | n in nodes
        ensures n in copies <==> Copy(n, inode)
      {
        CopyExactly(n, inode);
      }
      forall c: nat
        ensures NewestCopy(nodes, inode, c) <==> IsNewest(nodes, IsLiveSerialOf(inode), c)
      {
        NewestCopyIs(nodes, inode, c);
      }
      if copies != [] {
        assert copies[0] in copies;
        CopiesNewest(nodes, IsLiveSerialOf(inode));
        NewestIsCopy(nodes, inode);
      } else {
        NoNewest(nodes, inode);
      }
    }
  }

  lemma EntryUsable(nodes: seq<Node>, d: Node)
    requires SerialEntry(nodes, d)
    ensures d.body.Dirent?
  {
  }

  lemma NewestIsCopy(nodes: seq<Node>, inode: u32)
    ensures forall c: nat :: NewestCopy(nodes, inode, c) ==> c < |nodes| && nodes[c].body.Inode?
  {
  }

  lemma NoNewest(nodes: seq<Node>, inode: u32)
    requires forall n :: n in nodes ==> !Copy(n, inode)
    ensures forall c: nat :: !NewestCopy(nodes, inode, c)
  {
    hide Copy;
  }

  // ----- the copies ever written -----

  lemma HistoryExactly(nodes: seq<Node>, p: bytes)
    ensures HistoricalSerial(nodes) == Ok(p) <==> AgreedText(nodes, p)
  {
    hide Filter, HoldsText, HoldsSerial;
    var holders := Filter(nodes, HoldsSerial);
    FilterMembers(nodes, HoldsSerial);
    forall n
      ensures HoldsSerial(n) <==> n.body.Inode? && HoldsText(n, n.body.payload)
    {
      CopyExactly(n, 0);
    }
    forall n, q | HoldsText(n, q)
      ensures n.body.Inode? && n.body.payload == q
    {
      TextOf(n, q);
    }
    if holders != [] {
      assert holders[0] in holders;
    }
  }

  lemma TextOf(n: Node, q: bytes)
    requires HoldsText(n, q)
    ensures n.body.Inode? && n.body.payload == q
  {
  }

  /**
   The serial is the text of the newest complete live copy when there is a live copy, and refused when no copy is
   newer than all others; without a live copy it is the text that all complete copies in the log agree on.
   */
  lemma SerialExactly(nodes: seq<Node>, dict: seq<Node>, p: bytes)
    requires NoTies(nodes) && HoldsNewest(dict, nodes)
    ensures RecoverSerial(nodes, dict) == Ok(Serial(p, false)) <==> LiveText(nodes, p)
    ensures RecoverSerial(nodes, dict) == Ok(Serial(p, true)) <==> !LiveCopy(nodes) && AgreedText(nodes, p)
  {
    hide NoTies, HoldsNewest, LiveSerial, HistoricalSerial, LiveText, LiveCopy, AgreedText;
    LiveExactly(nodes, dict, p);
    HistoryExactly(nodes, p);
  }
}

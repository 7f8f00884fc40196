/** What one current phantom directory entry does to the compaction: exactly when the builder still succeeds. */
module Jffs2PhantomEntry {
  import opened Bytes
  import opened Lists
  import opened Jffs2Node
  import opened Jffs2Log
  import opened Jffs2Config
  import opened Jffs2Build
  import opened Jffs2Compaction
  import opened Jffs2Replay
  import opened Jffs2PhantomScan
  import opened Jffs2PhantomInode

  // ----- the dictionary with one more entry -----

  lemma {:induction false} CollectAppend(a: seq<Node>, b: seq<Node>, dict: seq<Node>)
    requires Collect(a, dict).Ok?
    ensures Collect(a + b, dict) == Collect(b, Collect(a, dict).value)
    decreases |a|
  {
    hide Put;
    if a == [] {
      assert a + b == b;
    } else {
      assert (a + b)[0] == a[0] && (a + b)[1..] == a[1..] + b;
      CollectAppend(a[1..], b, if IsCurrentDirent(a[0]) then Put(dict, a[0]).value else dict);
    }
  }

  lemma CollectOne(n: Node, dict: seq<Node>)
    requires IsCurrentDirent(n)
    ensures Collect([n], dict) == Put(dict, n)
  {
    hide Put;
    assert [n][1..] == [];
  }

  /** Putting an entry where one of its key is already. */
  lemma {:induction false} PutAt(dict: seq<Node>, n: Node, j: nat)
    requires j < |dict| && n.body.Dirent? && SameEntry(dict[j], n) && forall m :: 0 <= m < j ==> !SameEntry(dict[m], n)
    ensures n.body.dversion == dict[j].body.dversion ==> Put(dict, n).Err?
    ensures n.body.dversion > dict[j].body.dversion ==> Put(dict, n) == Ok(dict[j := n])
    ensures n.body.dversion < dict[j].body.dversion ==> Put(dict, n) == Ok(dict)
  {
    if j == 0 {
      assert [n] + dict[1..] == dict[0 := n];
    } else {
      assert !SameEntry(dict[0], n);
      PutAt(dict[1..], n, j - 1);
      assert [dict[0]] + dict[1..][j - 1 := n] == dict[j := n];
      assert [dict[0]] + dict[1..] == dict;
    }
  }

  lemma CollectAll(ds: seq<Node>, dict: seq<Node>)
    requires KeysDiffer(dict + ds)
    ensures Collect(ds, dict) == Ok(dict + ds)
  {
    var all := dict + ds;
    forall i, j | 0 <= i < j < |ds|
      ensures !SameEntry(ds[i], ds[j])
    {
      assert all[|dict| + i] == ds[i] && all[|dict| + j] == ds[j];
    }
    forall a, b | a in dict && b in ds
      ensures !SameEntry(a, b)
    {
      var i :| 0 <= i < |dict| && dict[i] == a;
      var j :| 0 <= j < |ds| && ds[j] == b;
      assert all[i] == a && all[|dict| + j] == b;
    }
    assert forall d :: d in ds ==> d in all;
    CollectFresh(ds, dict);
  }

  /** An entry of a next key is kept beside the others. */
  lemma CollectStranger(a: seq<Node>, p: Node, b: seq<Node>)
    requires KeysDiffer(a + b) && IsCurrentDirent(p) && forall d :: d in a + b ==> !SameEntry(d, p)
    ensures Collect(a + [p] + b, []) == Ok(a + [p] + b)
  {
    var ds, rest := a + [p] + b, a + b;
    forall d | d in ds
      ensures IsCurrentDirent(d)
    {
      assert d == p || d in rest;
    }
    forall i, j | 0 <= i < j < |ds|
      ensures !SameEntry(ds[i], ds[j])
    {
      var i1, j1 := if i < |a| then i else i - 1, if j < |a| then j else j - 1;
      if i == |a| {
        assert ds[j] == rest[j1] && rest[j1] in rest;
      } else if j == |a| {
        assert ds[i] == rest[i1] && rest[i1] in rest;
      } else {
        assert ds[i] == rest[i1] && ds[j] == rest[j1];
      }
    }
    assert [] + ds == ds;
    CollectAll(ds, []);
  }

  /** An entry of the same key after the written one. */
  lemma CollectAfter(a: seq<Node>, p: Node, b: seq<Node>, i: nat)
    requires KeysDiffer(a + b) && IsCurrentDirent(p) && i < |a| && SameEntry(a[i], p)
    ensures p.body.dversion == a[i].body.dversion ==> Collect(a + [p] + b, []).Err?
    ensures p.body.dversion > a[i].body.dversion ==> Collect(a + [p] + b, []) == Ok(a[i := p] + b)
    ensures p.body.dversion < a[i].body.dversion ==> Collect(a + [p] + b, []) == Ok(a + b)
  {
    var all := a + b;
    assert [] + a == a && KeysDiffer(a) by {
      FreshPrefix(a, b);
    }
    CollectAll(a, []);
    assert a + [p] + b == a + ([p] + b);
    CollectAppend(a, [p] + b, []);
    forall m | 0 <= m < i
      ensures !SameEntry(a[m], p)
    {
      assert all[m] == a[m] && all[i] == a[i];
    }
    PutAt(a, p, i);
    CollectOne(p, a);
    CollectStep(p, b, a);
    if p.body.dversion > a[i].body.dversion {
      FreshReplaced(a, p, b, i);
      CollectAll(b, a[i := p]);
    } else if p.body.dversion < a[i].body.dversion {
      CollectAll(b, a);
    }
  }

  lemma CollectStep(p: Node, b: seq<Node>, dict: seq<Node>)
    requires IsCurrentDirent(p)
    ensures Collect([p] + b, dict) == if Put(dict, p).Err? then Err(Put(dict, p).reason)
            else Collect(b, Put(dict, p).value)
  {
    hide Put;
    assert ([p] + b)[1..] == b;
  }

  lemma FreshPrefix(a: seq<Node>, b: seq<Node>)
    requires KeysDiffer(a + b)
    ensures KeysDiffer(a)
  {
    var all := a + b;
    assert forall d :: d in a ==> d in all;
    assert forall i :: 0 <= i < |a| ==> all[i] == a[i];
  }

  lemma FreshReplaced(a: seq<Node>, p: Node, b: seq<Node>, i: nat)
    requires KeysDiffer(a + b) && IsCurrentDirent(p) && i < |a| && SameEntry(a[i], p)
    ensures KeysDiffer(a[i := p] + b)
  {
    var all, next := a + b, a[i := p] + b;
    assert forall j :: 0 <= j < |all| ==> next[j] == if j == i then p else all[j];
    assert all[i] == a[i];
    forall d | d in next
      ensures IsCurrentDirent(d)
    {
      var j :| 0 <= j < |next| && next[j] == d;
      assert j != i ==> all[j] in all;
    }
  }

  /** An entry of the same key before the written one. */
  lemma CollectBefore(a: seq<Node>, p: Node, b1: seq<Node>, e: Node, b2: seq<Node>)
    requires KeysDiffer(a + (b1 + [e] + b2)) && IsCurrentDirent(p) && SameEntry(e, p)
    ensures var all := Collect(a + [p] + (b1 + [e] + b2), []);
            && (p.body.dversion == e.body.dversion ==> all.Err?)
            && (p.body.dversion < e.body.dversion ==> all == Ok(a + [e] + b1 + b2))
            && (p.body.dversion > e.body.dversion ==> all == Ok(a + [p] + b1 + b2))
  {
    hide Collect, Put, KeysDiffer;
    var front := a + [p] + b1;
    EntryIn(a, e, b1, b2);
    FreshMoved(a, e, b1, b2);
    FreshTwin(a, p, b1, b2, e);
    CollectFront(a, p, b1, e, b2);
    CollectStep(e, b2, front);
    FreshPrefix(front, b2);
    PutSecond(a, p, b1, e);
    if p.body.dversion < e.body.dversion {
      CollectAll(b2, a + [e] + b1);
    } else if p.body.dversion > e.body.dversion {
      CollectAll(b2, front);
    }
  }

  lemma CollectFront(a: seq<Node>, p: Node, b1: seq<Node>, e: Node, b2: seq<Node>)
    requires KeysDiffer(a + [p] + b1 + b2)
    ensures Collect(a + [p] + (b1 + [e] + b2), []) == Collect([e] + b2, a + [p] + b1)
  {
    hide Collect, KeysDiffer;
    var front := a + [p] + b1;
    FreshPrefix(front, b2);
    assert [] + front == front;
    CollectAll(front, []);
    assert a + [p] + (b1 + [e] + b2) == front + ([e] + b2);
    CollectAppend(front, [e] + b2, []);
  }

  /** Putting the written entry where the phantom of its key came first. */
  lemma PutSecond(a: seq<Node>, p: Node, b1: seq<Node>, e: Node)
    requires p.body.Dirent? && e.body.Dirent? && SameEntry(e, p) && KeysDiffer(a + [p] + b1)
    ensures e.body.dversion == p.body.dversion ==> Put(a + [p] + b1, e).Err?
    ensures e.body.dversion > p.body.dversion ==> Put(a + [p] + b1, e) == Ok(a + [e] + b1)
    ensures e.body.dversion < p.body.dversion ==> Put(a + [p] + b1, e) == Ok(a + [p] + b1)
  {
    hide Put;
    var front := a + [p] + b1;
    forall m | 0 <= m < |a|
      ensures !SameEntry(front[m], e)
    {
      assert !SameEntry(front[m], front[|a|]);
    }
    PutAt(front, e, |a|);
    assert front[|a| := e] == a + [e] + b1;
  }

  lemma EntryIn(a: seq<Node>, e: Node, b1: seq<Node>, b2: seq<Node>)
    requires KeysDiffer(a + (b1 + [e] + b2))
    ensures IsCurrentDirent(e)
  {
    assert (a + (b1 + [e] + b2))[|a| + |b1|] == e;
  }

  lemma FreshMoved(a: seq<Node>, e: Node, b1: seq<Node>, b2: seq<Node>)
    requires KeysDiffer(a + (b1 + [e] + b2))
    ensures KeysDiffer(a + [e] + b1 + b2)
  {
    var all, next := a + (b1 + [e] + b2), a + [e] + b1 + b2;
    var place := (j: int) => if j < |a| then j else if j == |a| then |a| + |b1| else if j <= |a| + |b1| then j - 1
        else j;
    assert forall j :: 0 <= j < |next| ==> 0 <= place(j) < |all| && next[j] == all[place(j)];
    forall d | d in next
      ensures IsCurrentDirent(d)
    {
      var j :| 0 <= j < |next| && next[j] == d;
      assert all[place(j)] in all;
    }
    forall i, j | 0 <= i < j < |next|
      ensures !SameEntry(next[i], next[j])
    {
      assert next[i] == all[place(i)] && next[j] == all[place(j)];
      assert place(i) < place(j) || place(j) < place(i);
    }
  }

  lemma FreshTwin(a: seq<Node>, p: Node, b1: seq<Node>, b2: seq<Node>, e: Node)
    requires KeysDiffer(a + [e] + b1 + b2) && IsCurrentDirent(p) && SameEntry(e, p)
    ensures KeysDiffer(a + [p] + b1 + b2)
  {
    assert a + [e] + b1 + b2 == (a + [e]) + (b1 + b2) && a + [p] + b1 + b2 == (a + [p]) + (b1 + b2);
    assert (a + [e])[|a| := p] == a + [p];
    FreshReplaced(a + [e], p, b1 + b2, |a|);
  }

  // ----- which dictionary results -----

  /** What the dictionary holds beside or instead of the written entries, up to order. */
  lemma CollectedWith(files: seq<ConfigFile>, k: nat, dict: seq<Node>) returns (a: seq<Node>, b: seq<Node>)
    requires AllPackable(files) && FitsFrom(PreservedRecords(files), 0) && OnePhantom(files, k)
    requires Found(files)[k].body.Dirent? && Filter(Written(files), IsCurrentDirent) == dict
    ensures a + b == dict && Collect(Found(files), []) == Collect(a + [Found(files)[k]] + b, [])
  {
    hide FitsFrom, PreservedRecords, Found, Written, OnePhantom, Filter, Collect;
    PhantomCurrent(files, k);
    a, b := PhantomSeen(files, k, IsCurrentDirent);
    CollectFiltered(Found(files), []);
  }

  /** Whether a phantom entry has the key of a file's own entry. */
  predicate NamesFile(b: Body, f: ConfigFile) {
    b.Dirent? && b.parent == 1 && b.name == f.name
  }

  lemma KeyOf(dict: seq<Node>, files: seq<ConfigFile>, j: nat, p: Node)
    requires EntriesOf(dict, files) && j < |files|
    ensures |dict| == |files| && dict[j].body == DirentOf(files[j])
            && (SameEntry(dict[j], p) <==> NamesFile(p.body, files[j]))
  {
    assert IsEntryOf(dict[j], files[j]);
  }

  lemma EntriesDiffer(dict: seq<Node>, files: seq<ConfigFile>)
    requires GoodFiles(files) && EntriesOf(dict, files)
    ensures KeysDiffer(dict)
  {
    hide SameEntry, IsLive, IsLiveBelowRoot, IsCurrentDirent, EntriesOf, InOrder, InodesDiffer;
    EntriesAreLive(dict, files);
    GoodInOrder(files);
    EntriesInOrder(dict, files);
  }

  lemma SameUpToOrder(a: seq<Node>, p: Node, e: Node, b1: seq<Node>, b2: seq<Node>)
    ensures var dict := a + (b1 + [e] + b2);
            && multiset(a + [e] + b1 + b2) == multiset(dict)
            && multiset(a + [p] + b1 + b2) == multiset(dict[|a| + |b1| := p])
  {
    SameBags(a, [e], b1, b2);
    SameBags(a, [p], b1, b2);
    PutInPlace(a, p, e, b1, b2);
    hide *;
  }

  lemma PutInPlace(a: seq<Node>, p: Node, e: Node, b1: seq<Node>, b2: seq<Node>)
    ensures (a + (b1 + [e] + b2))[|a| + |b1| := p] == a + (b1 + [p] + b2)
  {
  }

  lemma SameBags(a: seq<Node>, x: seq<Node>, b1: seq<Node>, b2: seq<Node>)
    ensures multiset(a + x + b1 + b2) == multiset(a + (b1 + x + b2))
  {
    BagOf(a + x + b1, b2);
    BagOf(a + x, b1);
    BagOf(a, x);
    BagOf(a, b1 + x + b2);
    BagOf(b1 + x, b2);
    BagOf(b1, x);
  }

  lemma BagOf(a: seq<Node>, b: seq<Node>)
    ensures multiset(a + b) == multiset(a) + multiset(b)
  {
  }

  /** A phantom with the key of a file's entry is ignored, ambiguous or put in its place, by its version. */
  lemma TwinCollected(files: seq<ConfigFile>, k: nat, i: nat, dict: seq<Node>) returns (d: seq<Node>)
    requires AllPackable(files) && GoodFiles(files) && FitsFrom(PreservedRecords(files), 0) && OnePhantom(files, k)
             && i < |files|
    requires Filter(Written(files), IsCurrentDirent) == dict && EntriesOf(dict, files)
    requires Found(files)[k].body.Dirent? && NamesFile(Found(files)[k].body, files[i])
    ensures var p := Found(files)[k];
            && (p.body.dversion == 1 ==> Collect(Found(files), []).Err?)
            && (p.body.dversion == 0 ==> Collect(Found(files), []) == Ok(d) && multiset(d) == multiset(dict))
            && (p.body.dversion >= 2 ==> Collect(Found(files), []) == Ok(d) && multiset(d) == multiset(dict[i := p]))
  {
    hide FitsFrom, PreservedRecords, Found, Written, OnePhantom, Filter, Collect, GoodFiles, EntriesOf, KeysDiffer;
    PhantomCurrent(files, k);
    var p := Found(files)[k];
    EntriesDiffer(dict, files);
    KeyOf(dict, files, i, p);
    var a, b := CollectedWith(files, k, dict);
    d := if i < |a| then TwinAfter(a, p, b, i) else TwinBefore(a, p, b, i);
    hide SameEntry, NamesFile, Settled;
    if i < |a| {
      TwinInFront(a, p, b, i);
    } else {
      TwinBehind(a, p, b, i);
    }
    SettledMeans(Collect(Found(files), []), p, dict, i, d);
  }

  /** What collecting gives when an entry with the key of the i-th one comes in, by its version. */
  predicate Settled(r: Result<seq<Node>>, p: Node, dict: seq<Node>, i: nat, d: seq<Node>) {
    && p.body.Dirent? && i < |dict|
    && (p.body.dversion == 1 ==> r.Err?)
    && (p.body.dversion == 0 ==> r == Ok(d) && multiset(d) == multiset(dict))
    && (p.body.dversion >= 2 ==> r == Ok(d) && multiset(d) == multiset(dict[i := p]))
  }

  lemma SettledMeans(r: Result<seq<Node>>, p: Node, dict: seq<Node>, i: nat, d: seq<Node>)
    requires Settled(r, p, dict, i, d)
    ensures p.body.Dirent? && i < |dict|
    ensures p.body.dversion == 1 ==> r.Err?
    ensures p.body.dversion == 0 ==> r == Ok(d) && multiset(d) == multiset(dict)
    ensures p.body.dversion >= 2 ==> r == Ok(d) && multiset(d) == multiset(dict[i := p])
  {
  }

  lemma TwinInFront(a: seq<Node>, p: Node, b: seq<Node>, i: nat)
    requires KeysDiffer(a + b) && IsCurrentDirent(p) && i < |a| && SameEntry(a[i], p) && a[i].body.dversion == 1
    ensures Settled(Collect(a + [p] + b, []), p, a + b, i, TwinAfter(a, p, b, i))
  {
    hide Collect, KeysDiffer, SameEntry;
      CollectAfter(a, p, b, i);
    assert a[i := p] + b == (a + b)[i := p];
  }

  lemma TwinBehind(a: seq<Node>, p: Node, b: seq<Node>, i: nat)
    requires KeysDiffer(a + b) && IsCurrentDirent(p) && |a| <= i < |a| + |b|
    requires SameEntry(b[i - |a|], p) && b[i - |a|].body.dversion == 1
    ensures Settled(Collect(a + [p] + b, []), p, a + b, i, TwinBefore(a, p, b, i))
  {
    hide Collect, KeysDiffer, SameEntry;
      var j := i - |a|;
      assert b == b[..j] + [b[j]] + b[j + 1..];
      CollectBefore(a, p, b[..j], b[j], b[j + 1..]);
      SameUpToOrder(a, p, b[j], b[..j], b[j + 1..]);
  }

  function TwinAfter(a: seq<Node>, p: Node, b: seq<Node>, i: nat): seq<Node>
    requires i < |a| && p.body.Dirent?
  {
    if p.body.dversion == 0 then a + b else a[i := p] + b
  }

  function TwinBefore(a: seq<Node>, p: Node, b: seq<Node>, i: nat): seq<Node>
    requires |a| <= i < |a| + |b| && p.body.Dirent?
  {
    var j := i - |a|;
    a + [if p.body.dversion == 0 then b[j] else p] + b[..j] + b[j + 1..]
  }

  /** A phantom with a key of its own is kept beside the files' entries. */
  lemma StrangerCollected(files: seq<ConfigFile>, k: nat, dict: seq<Node>) returns (d: seq<Node>)
    requires AllPackable(files) && GoodFiles(files) && FitsFrom(PreservedRecords(files), 0) && OnePhantom(files, k)
    requires Filter(Written(files), IsCurrentDirent) == dict && EntriesOf(dict, files)
    requires Found(files)[k].body.Dirent? && forall f :: f in files ==> !NamesFile(Found(files)[k].body, f)
    ensures Collect(Found(files), []) == Ok(d) && multiset(d) == multiset(dict + [Found(files)[k]])
    ensures KeysDiffer(d)
  {
    hide FitsFrom, PreservedRecords, Found, Written, OnePhantom, Filter, Collect, GoodFiles, KeysDiffer, NamesFile,
      SameEntry;
    PhantomCurrent(files, k);
    var p := Found(files)[k];
    EntriesDiffer(dict, files);
    var a, b := CollectedWith(files, k, dict);
    forall e | e in dict
      ensures !SameEntry(e, p)
    {
      var j :| 0 <= j < |dict| && dict[j] == e;
      KeyOf(dict, files, j, p);
      assert files[j] in files;
    }
    CollectStranger(a, p, b);
    d := a + [p] + b;
    EmptyKeys();
    CollectKeepsKeys(Found(files), []);
    assert dict + [p] == a + b + [p];
  }

  lemma EmptyKeys()
    ensures KeysDiffer([])
  {
  }

  // ----- what the extraction makes of it -----

  lemma {:induction false} RebuiltNames(nodes: seq<Node>, live: seq<Node>, seen: set<u32>, inflate: Inflate)
    requires AllDirents(live) && RebuildAll(nodes, live, seen, inflate).Ok?
    ensures var fs := RebuildAll(nodes, live, seen, inflate).value;
            && |fs| == |live|
            && forall j :: 0 <= j < |live| ==> SameHead(live[j].body, fs[j])
    decreases |live|
  {
    hide Rebuild;
    if live != [] {
      assert live[0] in live;
      RebuiltUnseen(nodes, live[0], seen, inflate);
      RebuiltNames(nodes, live[1..], seen + {live[0].body.dinode}, inflate);
    }
  }

  /** What a file takes from its entry. */
  predicate SameHead(b: Body, f: ConfigFile) {
    b.Dirent? && b.name == f.name && b.dinode == f.inode && b.mctime == f.direntMctime && b.dtype == f.dtype
  }

  /** A live root entry that no file matches makes the builder fail, whatever else was found. */
  lemma LiveStrangerRefused(files: seq<ConfigFile>, serial: bytes, d: seq<Node>, p: Node, inflate: Inflate)
    requires Buildable(files, serial) && Collect(Found(files), []) == Ok(d) && p in d && IsLive(p)
    requires forall f :: f in files ==> !SameHead(p.body, f)
    ensures BuildPreserved(files, inflate).Err?
  {
    hide GoodFiles, HasSerial, FitsFrom, PreservedRecords, Filter, BuildPreserved, Collect, Found, LiveRoot, SameHead;
    LiveRootMembers(d);
    var r := Reconstruct(Found(files), d, inflate);
    if r.Err? {
      ReconstructionRefused(files, serial, d, inflate);
    } else {
      var j :| 0 <= j < |LiveRoot(d)| && LiveRoot(d)[j] == p;
      RebuiltNames(Found(files), LiveRoot(d), {}, inflate);
      StrangerRefused(files, serial, d, r.value[j], inflate);
    }
  }

  lemma CollectionRefused(files: seq<ConfigFile>, serial: bytes, inflate: Inflate)
    requires Buildable(files, serial) && Collect(Found(files), []).Err?
    ensures BuildPreserved(files, inflate).Err?
  {
    hide GoodFiles, HasSerial, FitsFrom, PreservedRecords, Filter, BuildPreserved, Collect, Found;
    if BuildPreserved(files, inflate).Ok? {
      BuiltMeans(files, serial, inflate);
    }
  }

  /** A live entry below another directory makes the builder fail. */
  lemma DirectoryRefused(files: seq<ConfigFile>, serial: bytes, d: seq<Node>, p: Node, inflate: Inflate)
    requires Buildable(files, serial) && Collect(Found(files), []) == Ok(d) && p in d && IsLiveBelowRoot(p)
    ensures BuildPreserved(files, inflate).Err?
  {
    hide GoodFiles, HasSerial, FitsFrom, PreservedRecords, Filter, BuildPreserved, Collect, Found, LiveRoot;
    FilterMembers(d, IsLiveBelowRoot);
    assert p in Filter(d, IsLiveBelowRoot);
    ReconstructionRefused(files, serial, d, inflate);
  }

  /** A file without a live entry is missing, unless it is the serial, which is recovered. */
  lemma MissingRefused(files: seq<ConfigFile>, serial: bytes, d: seq<Node>, f: ConfigFile, inflate: Inflate)
    requires Buildable(files, serial) && Collect(Found(files), []) == Ok(d) && f in files && f.name != SERIAL_NAME
    requires forall e :: e in d && IsLive(e) ==> e.body.name != f.name
    ensures BuildPreserved(files, inflate).Err?
  {
    hide GoodFiles, HasSerial, FitsFrom, PreservedRecords, Filter, BuildPreserved, Collect, Found, LiveRoot,
      WithSerial, RecoverSerial, SameHead;
    if BuildPreserved(files, inflate).Ok? {
      BuiltMeans(files, serial, inflate);
      var fs := Reconstruct(Found(files), d, inflate).value;
      var s := RecoverSerial(Found(files), d).value.payload;
      LiveRootMembers(d);
      RebuiltNames(Found(files), LiveRoot(d), {}, inflate);
      forall j | 0 <= j < |fs|
        ensures fs[j] != f
      {
        assert LiveRoot(d)[j] in LiveRoot(d);
        HeadName(LiveRoot(d)[j].body, fs[j]);
      }
      WithSerialAdds(fs, s, f);
    }
  }

  lemma HeadName(b: Body, f: ConfigFile)
    requires SameHead(b, f)
    ensures b.Dirent? && b.name == f.name
  {
  }

  /** Completion adds nothing but serial.cfg. */
  lemma WithSerialAdds(files: seq<ConfigFile>, serial: bytes, f: ConfigFile)
    requires WithSerial(files, serial).Ok? && f in WithSerial(files, serial).value && f.name != SERIAL_NAME
    ensures f in files
  {
    if Filter(files, IsSerialFile()) == [] {
      var more := files + [RecoveredFile(FreshInode(InodesOf(files), 2), serial)];
      SortKeeps(more, FileLe);
      SameMembers(more, Sort(more, FileLe));
    }
  }

  // ----- phantoms that change nothing -----

  /** The written entries, read from everything found, give the files and the serial. */
  lemma FoundLikeWritten(files: seq<ConfigFile>, serial: bytes, k: nat, dict: seq<Node>, inflate: Inflate)
    requires Buildable(files, serial) && OnePhantom(files, k) && Found(files)[k].body.Dirent?
    requires Filter(Written(files), IsCurrentDirent) == dict && EntriesOf(dict, files)
    ensures LiveRoot(dict) == dict && Filter(dict, IsLiveBelowRoot) == [] && AllDirents(dict)
    ensures RebuildAll(Found(files), dict, {}, inflate) == Ok(files)
    ensures RecoverSerial(Found(files), dict) == Ok(Serial(serial, false)) && WithSerial(files, serial) == Ok(files)
  {
    hide FitsFrom, PreservedRecords, Found, Written, OnePhantom, Filter, Collect, GoodFiles, LiveRoot, EntriesOf,
      HasSerial, WithSerial, LiveSerial, Rebuilt, RecoverSerial;
    PhantomCurrent(files, k);
    FoundWritten(files);
    var same := ReconstructBack(Written(files), files, inflate);
    CollectFiltered(Written(files), []);
    EntriesCollected(dict, files);
    LiveRootMembers(dict);
    forall f | f in files
      ensures Filter(Found(files), IsFragmentOf(f.inode)) == Filter(Written(files), IsFragmentOf(f.inode))
    {
      PhantomUnseen(files, k, IsFragmentOf(f.inode));
    }
    EntriesFragments(Found(files), Written(files), files, dict);
    ReconstructSame(Found(files), Written(files), dict, inflate);
    LiveSerialSame(Found(files), Written(files), dict);
    SerialOf(Written(files), dict, files, serial);
    RecoverSame(Found(files), Written(files), dict);
  }

  /** A dictionary with the same live entries and the same serial entry extracts alike. */
  lemma AcceptedWith(files: seq<ConfigFile>, serial: bytes, k: nat, d: seq<Node>, live: seq<Node>, inflate: Inflate)
    requires Buildable(files, serial) && OnePhantom(files, k) && Collect(Found(files), []) == Ok(d)
    requires Filter(d, IsLiveBelowRoot) == [] && LiveRoot(d) == live && AllDirents(live)
    requires RebuildAll(Found(files), live, {}, inflate) == Ok(files)
    requires RecoverSerial(Found(files), d) == Ok(Serial(serial, false)) && WithSerial(files, serial) == Ok(files)
    ensures BuildPreserved(files, inflate).Ok?
  {
    hide FitsFrom, PreservedRecords, Found, OnePhantom, Filter, Collect, GoodFiles, LiveRoot, HasSerial, WithSerial,
      RecoverSerial, BuildPreserved;
    LiveRootMembers(d);
    NothingObsolete(files, k);
    PhantomCurrent(files, k);
    ExtractParts(Found(files), d, files, serial, inflate);
    BuildsWhenExtracted(files, serial, inflate);
  }

  /** Only the inode of the single serial entry matters. */
  lemma SerialAlike(nodes: seq<Node>, d1: seq<Node>, d2: seq<Node>, e1: Node, e2: Node)
    requires Filter(d1, SerialEntries()) == [e1] && Filter(d2, SerialEntries()) == [e2]
    requires e1.body.Dirent? && e2.body.Dirent? && e1.body.dinode == e2.body.dinode
    ensures RecoverSerial(nodes, d1) == RecoverSerial(nodes, d2)
  {
    hide Filter, HistoricalSerial, MaxVersion;
  }

  lemma SingleUpToOrder(d1: seq<Node>, d2: seq<Node>, e: Node, q: Node -> bool)
    requires multiset(d1) == multiset(d2) && Filter(d2, q) == [e]
    ensures Filter(d1, q) == [e]
  {
    hide Filter;
    FilterPermutes(d1, d2, q);
    var f := Filter(d1, q);
    assert |multiset(f)| == |f| && multiset(f) == multiset{e};
    assert f[0] in multiset(f);
  }

  lemma SerialEntry(dict: seq<Node>, files: seq<ConfigFile>, serial: bytes) returns (m: nat)
    requires EntriesOf(dict, files) && GoodFiles(files) && HasSerial(files, serial)
    ensures m < |files| == |dict| && files[m].name == SERIAL_NAME && Filter(dict, SerialEntries()) == [dict[m]]
            && dict[m].body.Dirent?
    ensures forall j :: 0 <= j < |files| && j != m ==> files[j].name != SERIAL_NAME
  {
    hide ValidSerial;
    m :| 0 <= m < |files| && files[m].name == SERIAL_NAME && files[m].data == serial;
    assert IsEntryOf(dict[m], files[m]) && GoodFile(files[m]);
    forall j | 0 <= j < |dict| && j != m
      ensures files[j].name != SERIAL_NAME && !SerialEntries()(dict[j])
    {
      assert IsEntryOf(dict[j], files[j]);
      assert j < m || m < j;
    }
    FilterOne(dict, m, SerialEntries());
  }

  /** An older phantom of a file's key changes nothing. */
  lemma OlderTwinAccepted(files: seq<ConfigFile>, serial: bytes, k: nat, dict: seq<Node>, d: seq<Node>,
                          inflate: Inflate)
    requires Buildable(files, serial) && OnePhantom(files, k) && Found(files)[k].body.Dirent?
    requires Filter(Written(files), IsCurrentDirent) == dict && EntriesOf(dict, files)
    requires Collect(Found(files), []) == Ok(d) && multiset(d) == multiset(dict)
    ensures BuildPreserved(files, inflate).Ok?
  {
    hide FitsFrom, PreservedRecords, Found, Written, OnePhantom, Filter, Collect, GoodFiles, LiveRoot, EntriesOf,
      HasSerial, WithSerial, RecoverSerial, BuildPreserved, KeysDiffer;
    FoundLikeWritten(files, serial, k, dict, inflate);
    EmptyKeys();
    CollectKeepsKeys(Found(files), []);
    LiveRootPermutes(d, dict);
    var m := SerialEntry(dict, files, serial);
    SingleUpToOrder(d, dict, dict[m], SerialEntries());
    SerialAlike(Found(files), d, dict, dict[m], dict[m]);
    AcceptedWith(files, serial, k, d, dict, inflate);
  }

  /** A deletion entry of a name that no file has changes nothing. */
  lemma DeadStrangerAccepted(files: seq<ConfigFile>, serial: bytes, k: nat, dict: seq<Node>, d: seq<Node>,
                             inflate: Inflate)
    requires Buildable(files, serial) && OnePhantom(files, k) && Found(files)[k].body.Dirent?
             && Found(files)[k].body.dinode == 0
    requires Filter(Written(files), IsCurrentDirent) == dict && EntriesOf(dict, files)
    requires Collect(Found(files), []) == Ok(d) && multiset(d) == multiset(dict + [Found(files)[k]]) && KeysDiffer(d)
    ensures BuildPreserved(files, inflate).Ok?
  {
    hide FitsFrom, PreservedRecords, Found, Written, OnePhantom, Filter, Collect, GoodFiles, EntriesOf, HasSerial,
      WithSerial, RecoverSerial, BuildPreserved, KeysDiffer;
    PhantomCurrent(files, k);
    var p := Found(files)[k];
    FoundLikeWritten(files, serial, k, dict, inflate);
    LiveRootPermutes(d, dict + [p]);
    NoneAdded(dict, p, IsLive);
    NoneAdded(dict, p, IsLiveBelowRoot);
    NoneAdded(dict, p, SerialEntries());
    var m := SerialEntry(dict, files, serial);
    SingleUpToOrder(d, dict + [p], dict[m], SerialEntries());
    SerialAlike(Found(files), d, dict, dict[m], dict[m]);
    AcceptedWith(files, serial, k, d, dict, inflate);
  }

  lemma NoneAdded(dict: seq<Node>, p: Node, q: Node -> bool)
    requires !q(p)
    ensures Filter(dict + [p], q) == Filter(dict, q)
  {
    FilterAppend(dict, [p], q);
    FilterNone([p], q);
  }

  /** Files depend on their entries only through name, inode, time and type. */
  lemma {:induction false} RebuildAllAlike(nodes: seq<Node>, l1: seq<Node>, l2: seq<Node>, seen: set<u32>,
                                           inflate: Inflate)
    requires AllDirents(l1) && AllDirents(l2) && |l1| == |l2|
    requires forall j :: 0 <= j < |l1| ==> AlikeEntries(l1[j].body, l2[j].body)
    ensures RebuildAll(nodes, l1, seen, inflate) == RebuildAll(nodes, l2, seen, inflate)
    decreases |l1|
  {
    hide Rebuild;
    if l1 != [] {
      assert l1[0] in l1 && l2[0] in l2 && AlikeEntries(l1[0].body, l2[0].body);
      RebuildAlike(nodes, l1[0], l2[0], seen, inflate);
      RebuildAllAlike(nodes, l1[1..], l2[1..], seen + {l1[0].body.dinode}, inflate);
    }
  }

  predicate AlikeEntries(a: Body, b: Body) {
    a.Dirent? && b.Dirent? && a.name == b.name && a.dinode == b.dinode && a.mctime == b.mctime && a.dtype == b.dtype
  }

  lemma RebuildAlike(nodes: seq<Node>, a: Node, b: Node, seen: set<u32>, inflate: Inflate)
    requires AlikeEntries(a.body, b.body)
    ensures Rebuild(nodes, a, seen, inflate) == Rebuild(nodes, b, seen, inflate)
  {
    hide Fragments, Replay, Filter;
    FragmentsAreInodes(nodes, a.body.dinode);
  }

  /** The entries with a newer phantom in the place of the one it matches. */
  lemma ReplacedEntries(files: seq<ConfigFile>, dict: seq<Node>, i: nat, p: Node)
    requires GoodFiles(files) && EntriesOf(dict, files) && i < |files| && NamesFile(p.body, files[i])
             && SameHead(p.body, files[i])
    requires p.status.Current?
    ensures |dict| == |files|
    ensures var next := dict[i := p];
            && LiveRoot(next) == next && Filter(next, IsLiveBelowRoot) == [] && AllDirents(next) && KeysDiffer(next)
            && forall j :: 0 <= j < |dict| ==> AlikeEntries(next[j].body, dict[j].body)
  {
    hide GoodFiles, EntriesOf, SameEntry, Filter, KeysDiffer, LiveRoot, IsLive, IsLiveBelowRoot, IsCurrentDirent;
    EntriesDiffer(dict, files);
    KeyOf(dict, files, i, p);
    ReplacedAlike(files, dict, i, p);
    var next := dict[i := p];
    assert dict[..0] + dict == dict && next + [] == next && dict + [] == dict;
    FreshReplaced(dict, p, [], i);
    EntriesAreLive(dict, files);
    GoodInOrder(files);
    EntriesInOrder(dict, files);
    ReplacedSorted(dict, i, p);
    FilterNone(next, IsLiveBelowRoot);
    LiveSorted(next);
  }

  lemma ReplacedAlike(files: seq<ConfigFile>, dict: seq<Node>, i: nat, p: Node)
    requires EntriesOf(dict, files) && i < |files| && SameHead(p.body, files[i])
    ensures |dict| == |files| && forall j :: 0 <= j < |dict| ==> AlikeEntries(dict[i := p][j].body, dict[j].body)
  {
    forall j | 0 <= j < |dict|
      ensures AlikeEntries(dict[i := p][j].body, dict[j].body)
    {
      assert IsEntryOf(dict[j], files[j]);
    }
  }

  lemma ReplacedSorted(dict: seq<Node>, i: nat, p: Node)
    requires i < |dict| && Sorted(dict, NameLe) && (forall d :: d in dict ==> IsLive(d) && !IsLiveBelowRoot(d))
    requires p.body.Dirent? && p.body.parent == 1 && AlikeEntries(p.body, dict[i].body)
    ensures var next := dict[i := p];
            && Sorted(next, NameLe) && (forall d :: d in next ==> IsLive(d) && !IsLiveBelowRoot(d)) && AllDirents(next)
  {
    var next := dict[i := p];
    assert dict[i] in dict;
    forall j, m | 0 <= j < m < |next|
      ensures NameLe(next[j], next[m])
    {
      assert NameLe(dict[j], dict[m]);
      assert NameOf(next[j]) == NameOf(dict[j]) && NameOf(next[m]) == NameOf(dict[m]);
    }
    forall d | d in next
      ensures IsLive(d) && !IsLiveBelowRoot(d)
    {
      var j :| 0 <= j < |next| && next[j] == d;
      assert dict[j] in dict;
    }
  }

  /** A newer phantom of a file's key with the same inode, time and type changes nothing. */
  lemma NewerTwinAccepted(files: seq<ConfigFile>, serial: bytes, k: nat, i: nat, dict: seq<Node>, d: seq<Node>,
                          inflate: Inflate)
    requires Buildable(files, serial) && OnePhantom(files, k) && Found(files)[k].body.Dirent? && i < |files|
    requires NamesFile(Found(files)[k].body, files[i]) && SameHead(Found(files)[k].body, files[i])
    requires Filter(Written(files), IsCurrentDirent) == dict && EntriesOf(dict, files)
    requires Collect(Found(files), []) == Ok(d) && multiset(d) == multiset(dict[i := Found(files)[k]])
    ensures BuildPreserved(files, inflate).Ok?
  {
    hide FitsFrom, PreservedRecords, Found, Written, OnePhantom, Filter, Collect, GoodFiles, EntriesOf, HasSerial,
      WithSerial, RecoverSerial, BuildPreserved, KeysDiffer, LiveRoot, NamesFile, SameHead, AlikeEntries;
    PhantomCurrent(files, k);
    EntryAt(dict, files, i);
    var p := Found(files)[k];
    var next := dict[i := p];
    FoundLikeWritten(files, serial, k, dict, inflate);
    ReplacedEntries(files, dict, i, p);
    EmptyKeys();
    CollectKeepsKeys(Found(files), []);
    LiveRootPermutes(d, next);
    RebuildAllAlike(Found(files), next, dict, {}, inflate);
    var m := SerialEntry(dict, files, serial);
    ReplacedSerial(files, dict, i, p, m);
    SingleUpToOrder(d, next, next[m], SerialEntries());
    AlikeInode(next[m].body, dict[m].body);
    SerialAlike(Found(files), d, dict, next[m], dict[m]);
    AcceptedWith(files, serial, k, d, next, inflate);
  }

  lemma AlikeInode(a: Body, b: Body)
    requires AlikeEntries(a, b)
    ensures a.Dirent? && b.Dirent? && a.dinode == b.dinode
  {
  }

  lemma ReplacedSerial(files: seq<ConfigFile>, dict: seq<Node>, i: nat, p: Node, m: nat)
    requires |dict| == |files| && i < |files| && m < |files| && Filter(dict, SerialEntries()) == [dict[m]]
    requires EntriesOf(dict, files) && GoodFiles(files) && NamesFile(p.body, files[i]) && SameHead(p.body, files[i])
    requires files[m].name == SERIAL_NAME && forall j :: 0 <= j < |files| && j != m ==> files[j].name != SERIAL_NAME
    ensures Filter(dict[i := p], SerialEntries()) == [dict[i := p][m]]
  {
    hide Filter, InOrder, InodesDiffer;
    var next := dict[i := p];
    assert files[i] in files && GoodFile(files[i]);
    forall j | 0 <= j < |next|
      ensures SerialEntries()(next[j]) <==> j == m
    {
      assert IsEntryOf(dict[j], files[j]) && files[j] in files && GoodFile(files[j]);
    }
    FilterOne(next, m, SerialEntries());
  }

  // ----- a newer deletion of serial.cfg -----

  function Without<T>(xs: seq<T>, i: nat): seq<T>
    requires i < |xs|
  {
    xs[..i] + xs[i + 1..]
  }

  lemma LessSeen(nodes: seq<Node>, d: Node, seen: set<u32>, less: set<u32>, inflate: Inflate)
    requires d.body.Dirent? && Rebuild(nodes, d, seen, inflate).Ok? && less <= seen
    ensures Rebuild(nodes, d, less, inflate) == Rebuild(nodes, d, seen, inflate)
  {
    hide Rebuild;
    RebuiltUnseen(nodes, d, seen, inflate);
    SeenMatters(nodes, d, seen, inflate);
    SeenMatters(nodes, d, less, inflate);
  }

  lemma {:induction false} RebuildAllLess(nodes: seq<Node>, live: seq<Node>, seen: set<u32>, less: set<u32>,
                                          inflate: Inflate)
    requires AllDirents(live) && RebuildAll(nodes, live, seen, inflate).Ok? && less <= seen
    ensures RebuildAll(nodes, live, less, inflate) == RebuildAll(nodes, live, seen, inflate)
    decreases |live|
  {
    hide Rebuild;
    if live != [] {
      var d := live[0];
      assert d in live;
      LessSeen(nodes, d, seen, less, inflate);
      RebuildAllLess(nodes, live[1..], seen + {d.body.dinode}, less + {d.body.dinode}, inflate);
    }
  }

  /** Leaving one live entry out leaves out its file. */
  lemma {:induction false} RebuildAllWithout(nodes: seq<Node>, live: seq<Node>, seen: set<u32>,
                                             files: seq<ConfigFile>, i: nat, inflate: Inflate)
    requires AllDirents(live) && RebuildAll(nodes, live, seen, inflate) == Ok(files) && i < |live|
    ensures AllDirents(Without(live, i)) && i < |files|
    ensures RebuildAll(nodes, Without(live, i), seen, inflate) == Ok(Without(files, i))
    decreases |live|
  {
    hide Rebuild;
    var d := live[0];
    assert d in live;
    var f := Rebuild(nodes, d, seen, inflate).value;
    var later := RebuildAll(nodes, live[1..], seen + {d.body.dinode}, inflate).value;
    assert files == [f] + later;
    if i == 0 {
      RebuildAllLess(nodes, live[1..], seen + {d.body.dinode}, seen, inflate);
      assert Without(live, 0) == live[1..] && Without(files, 0) == later;
    } else {
      RebuildAllWithout(nodes, live[1..], seen + {d.body.dinode}, later, i - 1, inflate);
      assert Without(live, i) == [d] + Without(live[1..], i - 1);
      assert Without(files, i) == [f] + Without(later, i - 1);
      assert Without(live, i)[1..] == Without(live[1..], i - 1);
    }
  }

  /** The live entries after a deletion took the place of one of them. */
  lemma DeletedEntries(files: seq<ConfigFile>, dict: seq<Node>, i: nat, p: Node, d: seq<Node>)
    requires GoodFiles(files) && EntriesOf(dict, files) && i < |files| && p.body.Dirent? && p.body.dinode == 0
    requires |dict| == |files| && multiset(d) == multiset(dict[i := p]) && KeysDiffer(d)
    ensures LiveRoot(d) == Without(dict, i) && Filter(d, IsLiveBelowRoot) == []
  {
    hide GoodFiles, EntriesOf, SameEntry, KeysDiffer, IsLive, IsLiveBelowRoot, IsCurrentDirent, Sort, Filter, Sorted,
      InOrder, InodesDiffer;
    EntriesAreLive(dict, files);
    GoodInOrder(files);
    EntriesInOrder(dict, files);
    LiveRootPermutes(d, dict[i := p]);
    DeadEntry(p);
    FilterReplaced(dict, i, p);
    WithoutSorted(dict, i);
    SortOfSorted(Without(dict, i), NameLe);
    FilterNone(dict[i := p], IsLiveBelowRoot);
  }

  lemma FilterReplaced(dict: seq<Node>, i: nat, p: Node)
    requires i < |dict| && !IsLive(p) && forall e :: e in dict ==> IsLive(e)
    ensures Filter(dict[i := p], IsLive) == Without(dict, i)
  {
    hide IsLive, Filter;
    assert dict[i := p] == dict[..i] + ([p] + dict[i + 1..]);
    FilterAppend(dict[..i], [p] + dict[i + 1..], IsLive);
    FilterAppend([p], dict[i + 1..], IsLive);
    FilterNone([p], IsLive);
    FilterAll(dict[..i], IsLive);
    FilterAll(dict[i + 1..], IsLive);
    assert dict[..i] + ([] + dict[i + 1..]) == Without(dict, i);
  }

  lemma WithoutSorted(dict: seq<Node>, i: nat)
    requires i < |dict| && Sorted(dict, NameLe)
    ensures Sorted(Without(dict, i), NameLe)
  {
    hide NameLe;
    var rest := Without(dict, i);
    forall a, b | 0 <= a < b < |rest|
      ensures NameLe(rest[a], rest[b])
    {
      var a1, b1 := if a < i then a else a + 1, if b < i then b else b + 1;
      assert rest[a] == dict[a1] && rest[b] == dict[b1];
    }
  }

  lemma DeadEntry(p: Node)
    requires p.body.Dirent? && p.body.dinode == 0
    ensures !IsLive(p) && !IsLiveBelowRoot(p)
  {
  }

  /** Every complete serial anywhere in what was found is the file's. */
  ghost predicate SerialsAgree(files: seq<ConfigFile>, payload: bytes)
    requires AllPackable(files) && FitsFrom(PreservedRecords(files), 0)
  {
    forall n :: n in Found(files) && HoldsSerial(n) ==> n.body.payload == payload
  }

  /** Exactly the serial files that recovery would write again as they are. */
  ghost predicate Recoverable(files: seq<ConfigFile>, i: nat)
    requires AllPackable(files) && FitsFrom(PreservedRecords(files), 0) && i < |files|
  {
    var inode := FreshInode(InodesOf(Without(files, i)), 2);
    inode < 0xFFFF_FFFF && files[i] == RecoveredFile(inode, files[i].data) && SerialsAgree(files, files[i].data)
  }

  /** The fallback finds the file's own serial, and only that if all agree. */
  lemma HistoricalFound(files: seq<ConfigFile>, i: nat)
    requires AllPackable(files) && GoodFiles(files) && FitsFrom(PreservedRecords(files), 0) && i < |files|
             && ValidSerial(files[i].data)
    ensures var h := HistoricalSerial(Found(files));
            (h.Ok? <==> SerialsAgree(files, files[i].data)) && (h.Ok? ==> h.value == files[i].data)
  {
    hide FitsFrom, PreservedRecords, Found, Written, Rebuilt, GoodFiles, ValidSerial, Filter;
    FoundWritten(files);
    PairAt(Written(files), files, i);
    var x := Written(files)[2 * i + 2];
    FilterMembers(Found(files), IsWritten(Starts(PreservedRecords(files), 0)));
    assert x in Written(files) && x in Found(files);
    DataHolds(x, files[i]);
    FilterMembers(Found(files), HoldsSerial);
    var holders := Filter(Found(files), HoldsSerial);
    assert x in holders && holders[0] in holders;
  }

  lemma DataHolds(x: Node, f: ConfigFile)
    requires Packable(f) && IsDataOf(x, f) && ValidSerial(f.data)
    ensures HoldsSerial(x) && x.body.payload == f.data
  {
    hide ValidSerial;
  }

  lemma NoSerialLeft(files: seq<ConfigFile>, i: nat)
    requires GoodFiles(files) && i < |files| && files[i].name == SERIAL_NAME
    ensures Filter(Without(files, i), IsSerialFile()) == []
  {
    hide Filter;
    var rest := Without(files, i);
    forall f | f in rest
      ensures !IsSerialFile()(f)
    {
      var j :| 0 <= j < |rest| && rest[j] == f;
      var j1 := if j < i then j else j + 1;
      assert rest[j] == files[j1];
      assert j1 < i || i < j1;
    }
    FilterNone(rest, IsSerialFile());
  }

  lemma NoSerialEntry(files: seq<ConfigFile>, dict: seq<Node>, i: nat, p: Node, d: seq<Node>)
    requires GoodFiles(files) && EntriesOf(dict, files) && i < |files| == |dict| && files[i].name == SERIAL_NAME
    requires p.body.Dirent? && p.body.dinode == 0 && multiset(d) == multiset(dict[i := p])
    ensures Filter(d, SerialEntries()) == []
  {
    hide Filter, InodesDiffer;
    var next := dict[i := p];
    forall e | e in d
      ensures !SerialEntries()(e)
    {
      assert e in multiset(next);
      var j :| 0 <= j < |next| && next[j] == e;
      assert IsEntryOf(dict[j], files[j]);
      assert j < i || i < j || j == i;
    }
    FilterNone(d, SerialEntries());
  }

  /** Extraction whose files are the same set, with nothing obsolete, passes the final check. */
  lemma AcceptedAsSet(files: seq<ConfigFile>, serial: bytes, info: Info, inflate: Inflate)
    requires Buildable(files, serial) && forall n :: n in Found(files) ==> !IsObsolete(n)
    requires ExtractNodes(Found(files), true, true, inflate) == Ok(info) && info.nodes == Found(files)
             && info.files.Some?
    requires forall f :: f in info.files.value <==> f in files
    ensures BuildPreserved(files, inflate).Ok?
  {
    hide FitsFrom, PreservedRecords, GoodFiles, HasSerial, BuilderAccepts, ExtractNodes, Scan;
    GoodFilesArePackable(files);
    GoodFilesAccepted(files, serial);
    FilterNone(Found(files), IsObsolete);
    assert (set f | f in info.files.value) == (set f | f in files);
  }

  /** The set of files after recovery, compared with what it was. */
  lemma RecoveredSet(files: seq<ConfigFile>, i: nat, g: ConfigFile)
    requires GoodFiles(files) && i < |files| && g.name == files[i].name
    ensures var out := Sort(Without(files, i) + [g], FileLe);
            (forall f :: f in out <==> f in files) <==> g == files[i]
  {
    hide GoodFiles, Sort, FileLe, InOrder;
    var more := Without(files, i) + [g];
    SortKeeps(more, FileLe);
    SameMembers(more, Sort(more, FileLe));
    assert more[|more| - 1] == g && g in more;
    if g == files[i] {
      PutBack(files, i);
    } else {
      GoodInOrder(files);
      OtherFile(files, i, g);
    }
  }

  lemma PutBack(files: seq<ConfigFile>, i: nat)
    requires i < |files|
    ensures forall f :: f in Without(files, i) + [files[i]] <==> f in files
  {
    assert files == files[..i] + [files[i]] + files[i + 1..];
  }

  /** A newer deletion of serial.cfg: the builder succeeds if and only if recovery restores the file as it was. */
  lemma SerialDeleted(files: seq<ConfigFile>, serial: bytes, k: nat, i: nat, dict: seq<Node>, d: seq<Node>,
                      inflate: Inflate)
    requires Buildable(files, serial) && OnePhantom(files, k) && Found(files)[k].body.Dirent?
             && Found(files)[k].body.dinode == 0
    requires i < |files| == |dict| && files[i].name == SERIAL_NAME && ValidSerial(files[i].data)
    requires Filter(Written(files), IsCurrentDirent) == dict && EntriesOf(dict, files)
    requires Collect(Found(files), []) == Ok(d) && multiset(d) == multiset(dict[i := Found(files)[k]])
    ensures BuildPreserved(files, inflate).Ok? <==> Recoverable(files, i)
  {
    hide FitsFrom, PreservedRecords, Found, Written, OnePhantom, Filter, Collect, GoodFiles, EntriesOf, HasSerial,
      BuildPreserved, KeysDiffer, LiveRoot, HistoricalSerial, SerialsAgree, ValidSerial, Sort;
    PhantomCurrent(files, k);
    var p, payload := Found(files)[k], files[i].data;
    EmptyKeys();
    CollectKeepsKeys(Found(files), []);
    FoundLikeWritten(files, serial, k, dict, inflate);
    DeletedEntries(files, dict, i, p, d);
    RebuildAllWithout(Found(files), dict, {}, files, i, inflate);
    LiveRootMembers(d);
    NoSerialEntry(files, dict, i, p, d);
    HistoricalFound(files, i);
    NoSerialLeft(files, i);
    var inode := FreshInode(InodesOf(Without(files, i)), 2);
    assert Reconstruct(Found(files), d, inflate) == Ok(Without(files, i));
    NoLiveSerial(Found(files), d);
    if SerialsAgree(files, payload) && inode < 0xFFFF_FFFF {
      var g := RecoveredFile(inode, payload);
      RecoveredSet(files, i, g);
      DeletedExtract(files, d, Without(files, i), g, inode, payload, inflate);
      if g == files[i] {
        NothingObsolete(files, k);
        AcceptedAsSet(files, serial, ExtractNodes(Found(files), true, true, inflate).value, inflate);
      } else if BuildPreserved(files, inflate).Ok? {
        BuiltMeans(files, serial, inflate);
      }
    } else if BuildPreserved(files, inflate).Ok? {
      BuiltMeans(files, serial, inflate);
      DeletedRefuses(files, d, Without(files, i), payload, inflate);
    }
  }

  lemma NoLiveSerial(nodes: seq<Node>, d: seq<Node>)
    requires Filter(d, SerialEntries()) == []
    ensures RecoverSerial(nodes, d) ==
            if HistoricalSerial(nodes).Err? then Err(HistoricalSerial(nodes).reason)
            else Ok(Serial(HistoricalSerial(nodes).value, true))
  {
    hide Filter, HistoricalSerial;
  }

  lemma DeletedExtract(files: seq<ConfigFile>, d: seq<Node>, rest: seq<ConfigFile>, g: ConfigFile, inode: u32,
                       payload: bytes, inflate: Inflate)
    requires AllPackable(files) && FitsFrom(PreservedRecords(files), 0) && Found(files) != []
    requires Collect(Found(files), []) == Ok(d) && RecoverSerial(Found(files), d) == Ok(Serial(payload, true))
    requires Reconstruct(Found(files), d, inflate) == Ok(rest) && Filter(rest, IsSerialFile()) == []
    requires FreshInode(InodesOf(rest), 2) == inode < 0xFFFF_FFFF && g == RecoveredFile(inode, payload)
    ensures ExtractNodes(Found(files), true, true, inflate)
         == Ok(Info(Found(files), Serial(payload, true), Some(Sort(rest + [g], FileLe))))
  {
    hide Collect, RecoverSerial, Reconstruct, Filter, FreshInode, Found, Sort;
  }

  lemma DeletedRefuses(files: seq<ConfigFile>, d: seq<Node>, rest: seq<ConfigFile>, payload: bytes, inflate: Inflate)
    requires AllPackable(files) && FitsFrom(PreservedRecords(files), 0)
    requires Collect(Found(files), []) == Ok(d) && Reconstruct(Found(files), d, inflate) == Ok(rest)
             && Filter(rest, IsSerialFile()) == []
    requires RecoverSerial(Found(files), d).Err? || FreshInode(InodesOf(rest), 2) >= 0xFFFF_FFFF
    ensures ExtractNodes(Found(files), true, true, inflate).Err?
  {
    hide Collect, RecoverSerial, Reconstruct, Filter, FreshInode, Found, Sort;
  }

  // ----- the outcome -----

  /** What a phantom entry with a file's key may be, for the file's own entry to keep its meaning. */
  ghost predicate LeavesEntry(b: Body, files: seq<ConfigFile>, i: nat)
    requires b.Dirent? && AllPackable(files) && FitsFrom(PreservedRecords(files), 0) && i < |files|
  {
    || b.dversion == 0
    || (b.dversion >= 2 && SameHead(b, files[i]))
    || (b.dversion >= 2 && b.dinode == 0 && b.name == SERIAL_NAME && Recoverable(files, i))
  }

  /**
   One current phantom directory entry. With a key no file has, the builder succeeds if and only if it is a
   deletion; with the key of a file, if and only if it is older than the written one, or newer and alike, or
   a newer deletion of a serial.cfg that recovery restores as it was.
   */
  lemma EntryPhantom(files: seq<ConfigFile>, serial: bytes, k: nat, inflate: Inflate)
    requires Buildable(files, serial) && OnePhantom(files, k) && Found(files)[k].body.Dirent?
    ensures var b := Found(files)[k].body;
            && ((forall f :: f in files ==> !NamesFile(b, f)) ==>
                  (BuildPreserved(files, inflate).Ok? <==> b.dinode == 0))
            && forall i :: 0 <= i < |files| && NamesFile(b, files[i]) ==>
                 (BuildPreserved(files, inflate).Ok? <==> LeavesEntry(b, files, i))
  {
    hide FitsFrom, PreservedRecords, Found, OnePhantom, GoodFiles, HasSerial, BuildPreserved, EntriesOf, LeavesEntry,
      NamesFile;
    PhantomCurrent(files, k);
    var dict := WrittenEntries(files, inflate);
    if forall f :: f in files ==> !NamesFile(Found(files)[k].body, f) {
      StrangerOutcome(files, serial, k, dict, inflate);
    }
    forall i | 0 <= i < |files| && NamesFile(Found(files)[k].body, files[i])
      ensures BuildPreserved(files, inflate).Ok? <==> LeavesEntry(Found(files)[k].body, files, i)
    {
      TwinOutcome(files, serial, k, i, dict, inflate);
    }
  }

  lemma WrittenEntries(files: seq<ConfigFile>, inflate: Inflate) returns (dict: seq<Node>)
    requires AllPackable(files) && GoodFiles(files) && FitsFrom(PreservedRecords(files), 0)
    ensures Filter(Written(files), IsCurrentDirent) == dict && EntriesOf(dict, files)
  {
    hide FitsFrom, PreservedRecords, Found, GoodFiles, Represents;
    FoundWritten(files);
    var nodes := Written(files);
    dict := Filter(nodes, IsCurrentDirent);
    assert nodes == [nodes[0]] + nodes[1..];
    assert dict == Filter(nodes[1..], IsCurrentDirent);
    EntriesOnly(nodes[1..], files);
  }

  lemma StrangerOutcome(files: seq<ConfigFile>, serial: bytes, k: nat, dict: seq<Node>, inflate: Inflate)
    requires Buildable(files, serial) && OnePhantom(files, k) && Found(files)[k].body.Dirent?
    requires Filter(Written(files), IsCurrentDirent) == dict && EntriesOf(dict, files)
    requires forall f :: f in files ==> !NamesFile(Found(files)[k].body, f)
    ensures BuildPreserved(files, inflate).Ok? <==> Found(files)[k].body.dinode == 0
  {
    hide FitsFrom, PreservedRecords, Found, Written, OnePhantom, Filter, Collect, GoodFiles, EntriesOf, HasSerial,
      BuildPreserved, KeysDiffer;
    PhantomCurrent(files, k);
    var p := Found(files)[k];
    var d := StrangerCollected(files, k, dict);
    assert p in multiset(dict + [p]) && p in d;
    if p.body.dinode == 0 {
      DeadStrangerAccepted(files, serial, k, dict, d, inflate);
    } else if p.body.parent == 1 {
      LiveStrangerRefused(files, serial, d, p, inflate);
    } else {
      DirectoryRefused(files, serial, d, p, inflate);
    }
  }

  lemma TwinOutcome(files: seq<ConfigFile>, serial: bytes, k: nat, i: nat, dict: seq<Node>, inflate: Inflate)
    requires Buildable(files, serial) && OnePhantom(files, k) && Found(files)[k].body.Dirent? && i < |files|
    requires Filter(Written(files), IsCurrentDirent) == dict && EntriesOf(dict, files)
             && NamesFile(Found(files)[k].body, files[i])
    ensures BuildPreserved(files, inflate).Ok? <==> LeavesEntry(Found(files)[k].body, files, i)
  {
    hide FitsFrom, PreservedRecords, Found, Written, OnePhantom, Filter, Collect, GoodFiles, EntriesOf,
      BuildPreserved, SameHead, Recoverable, ValidSerial, HasSerial;
    PhantomCurrent(files, k);
    EntryAt(dict, files, i);
    var p := Found(files)[k];
    var d := TwinCollected(files, k, i, dict);
    if p.body.dinode == 0 {
      NoDeadHead(files, i, p.body);
    }
    if p.body.dversion == 1 {
      CollectionRefused(files, serial, inflate);
    } else if p.body.dversion == 0 {
      OlderTwinAccepted(files, serial, k, dict, d, inflate);
    } else if SameHead(p.body, files[i]) {
      NewerTwinAccepted(files, serial, k, i, dict, d, inflate);
    } else if p.body.name == SERIAL_NAME && p.body.dinode == 0 {
      SerialAt(files, serial, i);
      SerialDeleted(files, serial, k, i, dict, d, inflate);
    } else {
      NewerTwinRefused(files, serial, k, i, dict, d, inflate);
    }
  }

  /** No good file has a deletion for its entry. */
  lemma NoDeadHead(files: seq<ConfigFile>, i: nat, b: Body)
    requires GoodFiles(files) && i < |files| && b.Dirent? && b.dinode == 0
    ensures !SameHead(b, files[i])
  {
    assert files[i] in files && GoodFile(files[i]);
  }

  lemma SerialAt(files: seq<ConfigFile>, serial: bytes, i: nat)
    requires GoodFiles(files) && HasSerial(files, serial) && i < |files| && files[i].name == SERIAL_NAME
    ensures ValidSerial(files[i].data)
  {
    hide ValidSerial;
    var m :| 0 <= m < |files| && files[m].name == SERIAL_NAME && files[m].data == serial;
    assert m < i || i < m || m == i;
  }

  lemma NewerTwinRefused(files: seq<ConfigFile>, serial: bytes, k: nat, i: nat, dict: seq<Node>, d: seq<Node>,
                         inflate: Inflate)
    requires Buildable(files, serial) && k < |Found(files)| && Found(files)[k].body.Dirent? && i < |files|
             && EntriesOf(dict, files)
    requires var b := Found(files)[k].body;
             NamesFile(b, files[i]) && !SameHead(b, files[i]) && !(b.name == SERIAL_NAME && b.dinode == 0)
    requires Collect(Found(files), []) == Ok(d) && multiset(d) == multiset(dict[i := Found(files)[k]])
    ensures BuildPreserved(files, inflate).Err?
  {
    hide FitsFrom, PreservedRecords, Found, Filter, Collect, HasSerial, BuildPreserved, InodesDiffer;
    var p := Found(files)[k];
    var next := dict[i := p];
    assert next[i] == p && p in multiset(next) && p in d;
    if p.body.dinode != 0 {
      forall f | f in files
        ensures !SameHead(p.body, f)
      {
        var j :| 0 <= j < |files| && files[j] == f;
        assert j < i || i < j || j == i;
      }
      LiveStrangerRefused(files, serial, d, p, inflate);
    } else {
      forall e | e in d && IsLive(e)
        ensures e.body.name != files[i].name
      {
        assert e in multiset(next);
        var j :| 0 <= j < |next| && next[j] == e;
        assert IsEntryOf(dict[j], files[j]);
        assert j < i || i < j || j == i;
      }
      MissingRefused(files, serial, d, files[i], inflate);
    }
  }
}

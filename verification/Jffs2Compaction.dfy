/** Rebuilding the config partition from its live files preserves exactly those files. */
module Jffs2Compaction {
  import opened Bytes
  import opened Lists
  import opened Jffs2Node
  import opened Jffs2Record
  import opened Jffs2Log
  import opened Jffs2Config
  import opened Jffs2Build

  // ----- what extraction guarantees about the files it returns -----

  predicate GoodFile(f: ConfigFile) {
    SafeName(f.name) && f.dtype == 8 && f.inode > 1 && f.mode / 0x1000 % 0x10 == 8 && |f.data| <= CONFIG_SIZE
  }

  ghost predicate InOrder(files: seq<ConfigFile>) {
    forall i, j :: 0 <= i < j < |files| ==> LexLe(files[i].name, files[j].name) && files[i].name != files[j].name
  }

  ghost predicate InodesDiffer(files: seq<ConfigFile>) {
    forall i, j :: 0 <= i < j < |files| ==> files[i].inode != files[j].inode
  }

  /** Everything build_preserved_config needs, and everything a rebuilt log can give back. */
  ghost predicate GoodFiles(files: seq<ConfigFile>) {
    && (forall f :: f in files ==> GoodFile(f))
    && InOrder(files) && InodesDiffer(files)
  }

  ghost predicate KeysDiffer(dict: seq<Node>) {
    && (forall d :: d in dict ==> IsCurrentDirent(d))
    && (forall i, j :: 0 <= i < j < |dict| ==> !SameEntry(dict[i], dict[j]))
  }

  lemma {:induction false} PutKeepsKeys(dict: seq<Node>, n: Node)
    requires KeysDiffer(dict) && IsCurrentDirent(n) && Put(dict, n).Ok?
    ensures KeysDiffer(Put(dict, n).value)
    ensures forall m :: m in Put(dict, n).value ==> m in dict || m == n
  {
    if dict != [] && !SameEntry(dict[0], n) {
      var rest := dict[1..];
      assert forall d :: d in rest ==> d in dict;
      PutKeepsKeys(rest, n);
      var out := Put(rest, n).value;
      forall m | m in out
        ensures !SameEntry(dict[0], m)
      {
        if m != n {
          var k :| 0 <= k < |rest| && rest[k] == m;
          assert dict[k + 1] == m;
        }
      }
    }
  }

  lemma {:induction false} CollectKeepsKeys(nodes: seq<Node>, dict: seq<Node>)
    requires KeysDiffer(dict) && Collect(nodes, dict).Ok?
    ensures KeysDiffer(Collect(nodes, dict).value)
    decreases |nodes|
  {
    hide Put, KeysDiffer;
    if nodes != [] {
      if !IsCurrentDirent(nodes[0]) {
        CollectKeepsKeys(nodes[1..], dict);
      } else {
        PutKeepsKeys(dict, nodes[0]);
        CollectKeepsKeys(nodes[1..], Put(dict, nodes[0]).value);
      }
    }
  }

  lemma NamePreorder()
    ensures Preorder(NameLe)
  {
    forall x: Node, y: Node
      ensures NameLe(x, y) || NameLe(y, x)
    {
      LexTotal(NameOf(x), NameOf(y));
    }
    forall x: Node, y: Node, z: Node | NameLe(x, y) && NameLe(y, z)
      ensures NameLe(x, z)
    {
      LexTransitive(NameOf(x), NameOf(y), NameOf(z));
    }
  }

  lemma FilePreorder()
    ensures Preorder(FileLe)
  {
    forall x: ConfigFile, y: ConfigFile
      ensures FileLe(x, y) || FileLe(y, x)
    {
      LexTotal(x.name, y.name);
    }
    forall x: ConfigFile, y: ConfigFile, z: ConfigFile | FileLe(x, y) && FileLe(y, z)
      ensures FileLe(x, z)
    {
      LexTransitive(x.name, y.name, z.name);
    }
  }

  predicate DifferentEntries(a: Node, b: Node) {
    !SameEntry(a, b)
  }

  /** Live root entries with different keys have different names. */
  lemma LiveRanked(dict: seq<Node>)
    requires KeysDiffer(dict)
    ensures Ranked(Filter(dict, IsLive), NameLe)
  {
    var picked := Filter(dict, IsLive);
    FilterMembers(dict, IsLive);
    FilterPairwise(dict, IsLive, DifferentEntries);
    forall i, j | 0 <= i < j < |picked|
      ensures !(NameLe(picked[i], picked[j]) && NameLe(picked[j], picked[i]))
    {
      assert picked[i] in picked && picked[j] in picked && DifferentEntries(picked[i], picked[j]);
      LexTotal(NameOf(picked[i]), NameOf(picked[j]));
    }
  }

  /** The live root entries come in strict name order. */
  lemma LiveRootOrdered(dict: seq<Node>)
    requires KeysDiffer(dict)
    ensures forall i, j :: 0 <= i < j < |LiveRoot(dict)| ==>
              LexLe(NameOf(LiveRoot(dict)[i]), NameOf(LiveRoot(dict)[j]))
              && NameOf(LiveRoot(dict)[i]) != NameOf(LiveRoot(dict)[j])
  {
    var picked, live := Filter(dict, IsLive), LiveRoot(dict);
    LiveRanked(dict);
    NamePreorder();
    SortKeeps(picked, NameLe);
    SortSorted(picked, NameLe);
    RankedPermutes(picked, live, NameLe);
    forall i, j | 0 <= i < j < |live|
      ensures LexLe(NameOf(live[i]), NameOf(live[j])) && NameOf(live[i]) != NameOf(live[j])
    {
      assert NameLe(live[i], live[j]);
      LexTotal(NameOf(live[i]), NameOf(live[j]));
    }
  }

  lemma {:induction false} ReplayLength(data: bytes, frags: seq<Node>, inflate: Inflate)
    requires AllInodes(frags) && Replay(data, frags, inflate).Ok?
    ensures |Replay(data, frags, inflate).value| == |data|
    decreases |frags|
  {
    hide Decode, Overlay;
    if frags != [] {
      assert frags[0] in frags;
      var decoded := Decode(frags[0].body, inflate).value;
      ReplayLength(Overlay(data, frags[0].body.fileOffset, decoded), frags[1..], inflate);
    }
  }

  lemma RebuildGood(nodes: seq<Node>, d: Node, seen: set<u32>, inflate: Inflate)
    requires d.body.Dirent? && Rebuild(nodes, d, seen, inflate).Ok?
    ensures var f := Rebuild(nodes, d, seen, inflate).value;
            GoodFile(f) && f.name == d.body.name && f.inode == d.body.dinode && f.inode !in seen
  {
    hide Replay, Filter, Fragments;
    FragmentsAreInodes(nodes, d.body.dinode);
    var frags := Fragments(nodes, d.body.dinode);
    ReplayLength(Repeat(0, NewestVersion(frags).body.fileSize), frags, inflate);
  }

  lemma {:induction false} RebuildAllGood(nodes: seq<Node>, live: seq<Node>, seen: set<u32>, inflate: Inflate)
    requires AllDirents(live) && RebuildAll(nodes, live, seen, inflate).Ok?
    ensures var files := RebuildAll(nodes, live, seen, inflate).value;
            && |files| == |live|
            && (forall i :: 0 <= i < |files| ==>
               files[i].name == live[i].body.name && GoodFile(files[i]) && files[i].inode !in seen)
            && InodesDiffer(files)
    decreases |live|
  {
    hide Rebuild;
    if live != [] {
      assert live[0] in live;
      RebuildGood(nodes, live[0], seen, inflate);
      RebuildAllGood(nodes, live[1..], seen + {live[0].body.dinode}, inflate);
    }
  }

  lemma ReconstructGood(nodes: seq<Node>, dict: seq<Node>, inflate: Inflate)
    requires KeysDiffer(dict) && Reconstruct(nodes, dict, inflate).Ok?
    ensures GoodFiles(Reconstruct(nodes, dict, inflate).value)
  {
    hide RebuildAll, LiveRoot, KeysDiffer;
    LiveRootMembers(dict);
    LiveRootOrdered(dict);
    RebuildAllGood(nodes, LiveRoot(dict), {}, inflate);
  }

  // ----- the serial -----

  lemma LiveSerialValid(nodes: seq<Node>, dict: seq<Node>)
    requires LiveSerial(nodes, dict).Ok? && LiveSerial(nodes, dict).value.Some?
    ensures ValidSerial(LiveSerial(nodes, dict).value.value)
  {
    hide ValidSerial, MaxVersion;
    var inode := Filter(dict, SerialEntries())[0].body.dinode;
    LiveSerialsAreInodes(nodes, inode);
    var candidates := Filter(nodes, IsLiveSerialOf(inode));
    var newest := Filter(candidates, HasVersion(MaxVersion(candidates)));
    FilterMembers(nodes, IsLiveSerialOf(inode));
    FilterMembers(candidates, HasVersion(MaxVersion(candidates)));
    assert newest[0] in newest;
    assert IsLiveSerialOf(inode)(newest[0]);
  }

  lemma RecoveredSerialValid(nodes: seq<Node>, dict: seq<Node>)
    requires RecoverSerial(nodes, dict).Ok?
    ensures ValidSerial(RecoverSerial(nodes, dict).value.payload)
  {
    hide LiveSerial, ValidSerial;
    var live := LiveSerial(nodes, dict).value;
    if live.Some? {
      LiveSerialValid(nodes, dict);
    } else {
      var holders := Filter(nodes, HoldsSerial);
      FilterMembers(nodes, HoldsSerial);
      assert holders[0] in holders;
    }
  }

  /** Exactly one serial.cfg, with a valid payload. */
  ghost predicate HasSerial(files: seq<ConfigFile>, serial: bytes) {
    ValidSerial(serial) && exists i :: 0 <= i < |files| && files[i].name == SERIAL_NAME && files[i].data == serial
  }

  predicate SameInode(a: ConfigFile, b: ConfigFile) {
    a.inode == b.inode
  }

  ghost predicate NewTo(files: seq<ConfigFile>, r: ConfigFile) {
    forall f :: f in files ==> f.name != r.name && f.inode != r.inode
  }

  lemma AppendedRanked(files: seq<ConfigFile>, r: ConfigFile)
    requires InOrder(files) && InodesDiffer(files) && NewTo(files, r)
    ensures Ranked(files + [r], FileLe) && Ranked(files + [r], SameInode)
  {
    var all := files + [r];
    forall i, j | 0 <= i < j < |all|
      ensures !(FileLe(all[i], all[j]) && FileLe(all[j], all[i])) && all[i].inode != all[j].inode
    {
      assert all[i] == files[i] && files[i] in files;
      LexTotal(all[i].name, all[j].name);
    }
  }

  lemma RankedGood(files: seq<ConfigFile>)
    requires Sorted(files, FileLe) && Ranked(files, FileLe) && Ranked(files, SameInode)
    ensures InOrder(files) && InodesDiffer(files)
  {
    forall i, j | 0 <= i < j < |files|
      ensures LexLe(files[i].name, files[j].name) && files[i].name != files[j].name && files[i].inode != files[j].inode
    {
      assert FileLe(files[i], files[j]) && !(FileLe(files[i], files[j]) && FileLe(files[j], files[i]));
      assert !(SameInode(files[i], files[j]) && SameInode(files[j], files[i]));
    }
  }

  /** Appending a file with a new name and a new inode, and sorting again, keeps the list good. */
  lemma InsertGood(files: seq<ConfigFile>, r: ConfigFile)
    requires GoodFiles(files) && GoodFile(r) && NewTo(files, r)
    ensures GoodFiles(Sort(files + [r], FileLe)) && r in Sort(files + [r], FileLe)
  {
    var all, out := files + [r], Sort(files + [r], FileLe);
    AppendedRanked(files, r);
    FilePreorder();
    hide GoodFile, Preorder, Sort, Sorted, Ranked, InOrder, InodesDiffer, NewTo;
    SortSorted(all, FileLe);
    SortKeeps(all, FileLe);
    RankedPermutes(all, out, FileLe);
    RankedPermutes(all, out, SameInode);
    RankedGood(out);
    SameMembers(all, out);
    assert r in all;
  }

  /** The fresh inode and the absent name keep the completed list good. */
  lemma WithSerialGood(files: seq<ConfigFile>, serial: bytes)
    requires GoodFiles(files) && ValidSerial(serial) && WithSerial(files, serial).Ok?
    ensures GoodFiles(WithSerial(files, serial).value) && HasSerial(WithSerial(files, serial).value, serial)
  {
    SerialLength(serial);
    hide ValidSerial;
    FilterMembers(files, IsSerialFile());
    var live, out := Filter(files, IsSerialFile()), WithSerial(files, serial).value;
    if live != [] {
      assert live[0] in live && IsSerialFile()(live[0]);
      var i :| 0 <= i < |files| && files[i] == live[0];
    } else {
      var r := RecoveredFile(FreshInode(InodesOf(files), 2), serial);
      assert NewTo(files, r) by {
        forall f | f in files
          ensures f.name != r.name && f.inode != r.inode
        {
          assert f in live || !IsSerialFile()(f);
          assert f.inode in InodesOf(files);
        }
      }
      SafeSerialName();
      InsertGood(files, r);
      var k :| 0 <= k < |out| && out[k] == r;
    }
  }

  lemma SerialLength(serial: bytes)
    requires ValidSerial(serial)
    ensures |serial| == 44
  {
  }

  lemma SafeSerialName()
    ensures SafeName(SERIAL_NAME)
  {
  }

  // ----- what a rebuilt log reads as -----

  ghost predicate IsEntryOf(n: Node, f: ConfigFile) {
    n.status.Current? && n.body == DirentOf(f)
  }

  ghost predicate IsDataOf(n: Node, f: ConfigFile)
    requires Packable(f)
  {
    n.status.Current? && n.body == InodeOf(f)
  }

  /** Entry and data nodes alternate, one pair for each file. */
  ghost predicate Represents(nodes: seq<Node>, files: seq<ConfigFile>)
    requires AllPackable(files)
  {
    && |nodes| == 2 * |files|
    && (forall i :: 0 <= i < |files| ==> IsEntryOf(nodes[2 * i], files[i]))
    && (forall i :: 0 <= i < |files| ==>
          assert files[i] in files; IsDataOf(nodes[2 * i + 1], files[i]))
  }

  lemma {:induction false} FileRecordsWhole(files: seq<ConfigFile>)
    requires AllPackable(files)
    ensures AllWhole(FileRecords(files))
  {
    hide EntryRecord, DataRecord, Whole;
    if files != [] {
      assert files[0] in files;
      EntryReads(files[0]);
      DataReads(files[0]);
      FileRecordsWhole(files[1..]);
    }
  }

  lemma {:induction false} FileRecordsRead(files: seq<ConfigFile>, at: nat)
    requires AllPackable(files) && AllWhole(FileRecords(files))
    ensures Represents(NodesAt(FileRecords(files), at), files)
  {
    hide EntryRecord, DataRecord, ParseAt, DirentOf, InodeOf, Align4, Whole, IsEntryOf, IsDataOf;
    if files != [] {
      var f := files[0];
      assert f in files;
      EntryReads(f);
      DataReads(f);
      FileRecordsWhole(files[1..]);
      var e, d, rest := EntryRecord(f), DataRecord(f), FileRecords(files[1..]);
      var next := at + Align4(|e|) + Align4(|d|);
      FileRecordsRead(files[1..], next);
      PairNodes(e, d, rest, at);
      var en, dn := ParseAt(e, 0).value, ParseAt(d, 0).value;
      MovedKeeps(en, dn, f, at, at + Align4(|e|));
      PairRepresents(en.(offset := at), dn.(offset := at + Align4(|e|)), NodesAt(rest, next), files);
    }
  }

  lemma MovedKeeps(e: Node, d: Node, f: ConfigFile, a: nat, b: nat)
    requires Packable(f) && IsEntryOf(e, f) && IsDataOf(d, f)
    ensures IsEntryOf(e.(offset := a), f) && IsDataOf(d.(offset := b), f)
  {
  }

  lemma EntryReads(f: ConfigFile)
    requires Packable(f)
    ensures Whole(EntryRecord(f)) && |EntryRecord(f)| >= 12 && ParseAt(EntryRecord(f), 0).Some?
    ensures IsEntryOf(ParseAt(EntryRecord(f), 0).value, f)
  {
    hide ParseAt, Reads, DirentRecord;
    DirentParses(DirentOf(f));
  }

  lemma DataReads(f: ConfigFile)
    requires Packable(f)
    ensures Whole(DataRecord(f)) && |DataRecord(f)| >= 12 && ParseAt(DataRecord(f), 0).Some?
    ensures IsDataOf(ParseAt(DataRecord(f), 0).value, f)
  {
    hide ParseAt, Reads, InodeRecord;
    InodeParses(InodeOf(f));
  }

  lemma PairNodes(e: bytes, d: bytes, rest: seq<bytes>, at: nat)
    requires AllWhole([e, d] + rest) && AllWhole(rest) && Whole(e) && Whole(d)
    ensures NodesAt([e, d] + rest, at)
         == [ParseAt(e, 0).value.(offset := at), ParseAt(d, 0).value.(offset := at + Align4(|e|))]
            + NodesAt(rest, at + Align4(|e|) + Align4(|d|))
  {
    hide ParseAt, Whole, Align4;
    var all := [e, d] + rest;
    assert all[1..] == [d] + rest && all[1..][1..] == rest;
    assert AllWhole(all[1..]);
  }

  lemma PairRepresents(e: Node, d: Node, rest: seq<Node>, files: seq<ConfigFile>)
    requires AllPackable(files) && files != [] && Represents(rest, files[1..])
    requires IsEntryOf(e, files[0]) && IsDataOf(d, files[0])
    ensures Represents([e, d] + rest, files)
  {
    hide IsEntryOf, IsDataOf;
    var nodes := [e, d] + rest;
    forall i | 0 <= i < |files|
      ensures IsEntryOf(nodes[2 * i], files[i])
      ensures assert files[i] in files; IsDataOf(nodes[2 * i + 1], files[i])
    {
      if i > 0 {
        assert files[i] == files[1..][i - 1] && files[1..][i - 1] in files[1..];
        assert nodes[2 * i] == rest[2 * (i - 1)] && nodes[2 * i + 1] == rest[2 * (i - 1) + 1];
      }
    }
  }

  // ----- extracting from a rebuilt log -----

  /** The scan of a rebuilt partition: the cleanmarker, then the pairs. */
  ghost predicate Rebuilt(nodes: seq<Node>, files: seq<ConfigFile>)
    requires AllPackable(files)
  {
    nodes != [] && nodes[0].status.Current? && nodes[0].body.CleanMarker? && Represents(nodes[1..], files)
  }

  lemma {:induction false} EntriesOnly(nodes: seq<Node>, files: seq<ConfigFile>)
    requires AllPackable(files) && Represents(nodes, files)
    ensures var dict := Filter(nodes, IsCurrentDirent);
            |dict| == |files| && forall i :: 0 <= i < |files| ==> IsEntryOf(dict[i], files[i])
  {
    if files != [] {
      assert files[0] in files;
      assert IsEntryOf(nodes[2 * 0], files[0]) && IsDataOf(nodes[2 * 0 + 1], files[0]);
      var rest := nodes[2..];
      assert nodes[1..][1..] == rest;
      assert Filter(nodes, IsCurrentDirent) == [nodes[0]] + Filter(nodes[1..], IsCurrentDirent);
      assert Filter(nodes[1..], IsCurrentDirent) == Filter(rest, IsCurrentDirent);
      TailRepresents(nodes, files);
      EntriesOnly(rest, files[1..]);
    }
  }

  lemma TailRepresents(nodes: seq<Node>, files: seq<ConfigFile>)
    requires AllPackable(files) && Represents(nodes, files) && files != []
    ensures AllPackable(files[1..]) && Represents(nodes[2..], files[1..])
  {
    hide IsEntryOf, IsDataOf;
    forall i | 0 <= i < |files[1..]|
      ensures IsEntryOf(nodes[2..][2 * i], files[1..][i])
      ensures assert files[1..][i] in files; IsDataOf(nodes[2..][2 * i + 1], files[1..][i])
    {
      assert files[1..][i] == files[i + 1] && files[i + 1] in files;
      assert nodes[2..][2 * i] == nodes[2 * (i + 1)] && nodes[2..][2 * i + 1] == nodes[2 * (i + 1) + 1];
    }
  }

  lemma {:induction false} PutFresh(dict: seq<Node>, n: Node)
    requires n.body.Dirent? && forall d :: d in dict ==> !SameEntry(d, n)
    ensures Put(dict, n) == Ok(dict + [n])
  {
    if dict == [] {
      assert dict + [n] == [n];
    } else {
      assert dict[0] in dict;
      PutFresh(dict[1..], n);
      assert [dict[0]] + (dict[1..] + [n]) == dict + [n];
    }
  }

  lemma {:induction false} CollectFiltered(nodes: seq<Node>, dict: seq<Node>)
    ensures Collect(nodes, dict) == Collect(Filter(nodes, IsCurrentDirent), dict)
    decreases |nodes|
  {
    hide Put;
    if nodes != [] {
      if IsCurrentDirent(nodes[0]) {
        var rest := Filter(nodes[1..], IsCurrentDirent);
        assert ([nodes[0]] + rest)[1..] == rest;
        if Put(dict, nodes[0]).Ok? {
          CollectFiltered(nodes[1..], Put(dict, nodes[0]).value);
        }
      } else {
        CollectFiltered(nodes[1..], dict);
      }
    }
  }

  /** Entries with different keys are all kept. */
  lemma {:induction false} CollectFresh(ds: seq<Node>, dict: seq<Node>)
    requires forall d :: d in ds ==> IsCurrentDirent(d)
    requires forall i, j :: 0 <= i < j < |ds| ==> !SameEntry(ds[i], ds[j])
    requires forall a, b :: a in dict && b in ds ==> !SameEntry(a, b)
    ensures Collect(ds, dict) == Ok(dict + ds)
    decreases |ds|
  {
    if ds == [] {
      assert dict + ds == dict;
    } else {
      assert ds[0] in ds;
      PutFresh(dict, ds[0]);
      var rest := ds[1..];
      assert dict + [ds[0]] + rest == dict + ds;
      forall a, b | a in dict + [ds[0]] && b in rest
        ensures !SameEntry(a, b)
      {
        var k :| 0 <= k < |rest| && rest[k] == b;
        assert ds[k + 1] == b && b in ds;
      }
      CollectFresh(rest, dict + [ds[0]]);
    }
  }

  lemma PairAt(nodes: seq<Node>, files: seq<ConfigFile>, i: nat)
    requires AllPackable(files) && Rebuilt(nodes, files) && i < |files|
    ensures |nodes| == 2 * |files| + 1 && files[i] in files
    ensures IsEntryOf(nodes[2 * i + 1], files[i]) && IsDataOf(nodes[2 * i + 2], files[i])
  {
    hide IsEntryOf, IsDataOf;
    assert nodes[1..][2 * i] == nodes[2 * i + 1] && nodes[1..][2 * i + 1] == nodes[2 * i + 2];
    assert files[i] in files;
  }

  /** Only one node of a rebuilt log can pass a test that only a file's own inode node passes. */
  lemma OnlyDataOf(nodes: seq<Node>, files: seq<ConfigFile>, i: nat, p: Node -> bool)
    requires AllPackable(files) && Rebuilt(nodes, files) && InodesDiffer(files) && i < |files|
    requires forall n :: p(n) ==> n.body.Inode? && n.body.inode == files[i].inode
    requires |nodes| == 2 * |files| + 1 && p(nodes[2 * i + 2])
    ensures Filter(nodes, p) == [nodes[2 * i + 2]]
  {
    forall j | 0 <= j < |nodes| && j != 2 * i + 2
      ensures !p(nodes[j])
    {
      if j > 0 {
        var k := (j - 1) / 2;
        PairAt(nodes, files, k);
        assert j == 2 * k + 1 || j == 2 * k + 2;
        assert k < i || k > i || k == i;
      }
    }
    hide Rebuilt, InodesDiffer, AllPackable;
    FilterOne(nodes, 2 * i + 2, p);
  }

  lemma OverlayWhole(data: bytes)
    ensures Overlay(Repeat(0, |data|), 0, data) == data
  {
    if data != [] {
      assert data[..|data|] == data;
    }
  }

  lemma ReplayOne(n: Node, f: ConfigFile, inflate: Inflate)
    requires Packable(f) && IsDataOf(n, f) && |f.data| <= CONFIG_SIZE
    ensures AllInodes([n]) && Replay(Repeat(0, |f.data|), [n], inflate) == Ok(f.data)
  {
    assert Decode(n.body, inflate) == Ok(f.data);
    OverlayWhole(f.data);
    hide Decode, Overlay;
    assert [n][1..] == [];
    assert Replay(f.data, [], inflate) == Ok(f.data);
  }

  /** Each live name of a rebuilt log gives back its own file. */
  lemma RebuildBack(nodes: seq<Node>, files: seq<ConfigFile>, i: nat, d: Node, seen: set<u32>, inflate: Inflate)
    requires AllPackable(files) && GoodFiles(files) && Rebuilt(nodes, files) && i < |files|
    requires IsEntryOf(d, files[i]) && files[i].inode !in seen
    ensures Rebuild(nodes, d, seen, inflate) == Ok(files[i])
  {
    var f := files[i];
    PairAt(nodes, files, i);
    var x := nodes[2 * i + 2];
    assert IsFragmentOf(f.inode)(x);
    OnlyDataOf(nodes, files, i, IsFragmentOf(f.inode));
    ReplayOne(x, f, inflate);
    SortOne(x, VersionLe);
    assert Fragments(nodes, f.inode) == [x];
    assert Filter([x], HasVersion(1)) == [x] by {
      assert [x][1..] == [];
    }
    hide Replay, Filter, Fragments, Rebuilt, Represents, InOrder, InodesDiffer;
    assert GoodFile(f);
    FragmentsAreInodes(nodes, f.inode);
  }

  lemma {:induction false} RebuildAllBack(nodes: seq<Node>, files: seq<ConfigFile>, i: nat, live: seq<Node>,
                                          seen: set<u32>, inflate: Inflate)
    requires AllPackable(files) && GoodFiles(files) && Rebuilt(nodes, files) && i <= |files|
    requires |live| == |files| - i && forall k :: 0 <= k < |live| ==> IsEntryOf(live[k], files[i + k])
    requires forall k :: i <= k < |files| ==> files[k].inode !in seen
    ensures AllDirents(live) && RebuildAll(nodes, live, seen, inflate) == Ok(files[i..])
    decreases |live|
  {
    hide Rebuild, Rebuilt;
    if live != [] {
      RebuildBack(nodes, files, i, live[0], seen, inflate);
      forall k | 0 <= k < |live[1..]|
        ensures IsEntryOf(live[1..][k], files[i + 1 + k])
      {
        assert live[1..][k] == live[k + 1];
      }
      RebuildAllBack(nodes, files, i + 1, live[1..], seen + {live[0].body.dinode}, inflate);
      assert files[i..] == [files[i]] + files[i + 1..];
    } else {
      assert files[i..] == [];
    }
  }

  ghost predicate EntriesOf(dict: seq<Node>, files: seq<ConfigFile>) {
    |dict| == |files| && forall i :: 0 <= i < |files| ==> IsEntryOf(dict[i], files[i])
  }

  lemma EntriesAreLive(dict: seq<Node>, files: seq<ConfigFile>)
    requires GoodFiles(files) && EntriesOf(dict, files)
    ensures forall d :: d in dict ==> IsLive(d) && !IsLiveBelowRoot(d) && IsCurrentDirent(d)
  {
    forall d | d in dict
      ensures IsLive(d) && !IsLiveBelowRoot(d) && IsCurrentDirent(d)
    {
      var i :| 0 <= i < |dict| && dict[i] == d;
      assert IsEntryOf(dict[i], files[i]) && GoodFile(files[i]);
    }
  }

  lemma EntriesInOrder(dict: seq<Node>, files: seq<ConfigFile>)
    requires InOrder(files) && EntriesOf(dict, files)
    ensures Sorted(dict, NameLe) && forall i, j :: 0 <= i < j < |dict| ==> !SameEntry(dict[i], dict[j])
  {
    forall i, j | 0 <= i < j < |dict|
      ensures NameLe(dict[i], dict[j]) && !SameEntry(dict[i], dict[j])
    {
      assert IsEntryOf(dict[i], files[i]) && IsEntryOf(dict[j], files[j]);
    }
  }

  lemma EntriesCollected(dict: seq<Node>, files: seq<ConfigFile>)
    requires GoodFiles(files) && EntriesOf(dict, files)
    ensures Filter(dict, IsLiveBelowRoot) == [] && LiveRoot(dict) == dict && Collect(dict, []) == Ok(dict)
  {
    hide *;
    EntriesAreLive(dict, files);
    GoodInOrder(files);
    EntriesInOrder(dict, files);
    FilterNone(dict, IsLiveBelowRoot);
    LiveSorted(dict);
    CollectFresh(dict, []);
    assert [] + dict == dict;
  }

  lemma LiveSorted(dict: seq<Node>)
    requires (forall d :: d in dict ==> IsLive(d)) && Sorted(dict, NameLe)
    ensures LiveRoot(dict) == dict
  {
    hide IsLive, Sorted, NameLe;
    FilterAll(dict, IsLive);
    SortOfSorted(dict, NameLe);
  }

  lemma GoodInOrder(files: seq<ConfigFile>)
    requires GoodFiles(files)
    ensures InOrder(files)
  {
  }

  /** The serial of a rebuilt log is the one its serial.cfg holds. */
  lemma SerialBack(nodes: seq<Node>, dict: seq<Node>, files: seq<ConfigFile>, i: nat)
    requires AllPackable(files) && GoodFiles(files) && Rebuilt(nodes, files) && i < |files|
    requires EntriesOf(dict, files)
    requires files[i].name == SERIAL_NAME && ValidSerial(files[i].data)
    ensures RecoverSerial(nodes, dict) == Ok(Serial(files[i].data, false))
  {
    hide ValidSerial;
    var f := files[i];
    PairAt(nodes, files, i);
    var x := nodes[2 * i + 2];
    assert IsEntryOf(dict[i], f) && GoodFile(f);
    forall j | 0 <= j < |dict| && j != i
      ensures !SerialEntries()(dict[j])
    {
      assert IsEntryOf(dict[j], files[j]);
      assert j < i || i < j;
    }
    FilterOne(dict, i, SerialEntries());
    assert IsLiveSerialOf(f.inode)(x);
    OnlyDataOf(nodes, files, i, IsLiveSerialOf(f.inode));
    LiveSerialsAreInodes(nodes, f.inode);
    assert MaxVersion([x]) == 1;
    FilterOne([x], 0, HasVersion(1));
  }

  lemma SerialKept(files: seq<ConfigFile>, i: nat)
    requires GoodFiles(files) && i < |files| && files[i].name == SERIAL_NAME
    ensures WithSerial(files, files[i].data) == Ok(files)
  {
    forall j | 0 <= j < |files| && j != i
      ensures !IsSerialFile()(files[j])
    {
      assert j < i || i < j;
    }
    FilterOne(files, i, IsSerialFile());
  }

  /** Collecting and reconstructing a rebuilt log. */
  lemma ReconstructBack(nodes: seq<Node>, files: seq<ConfigFile>, inflate: Inflate) returns (dict: seq<Node>)
    requires AllPackable(files) && GoodFiles(files) && Rebuilt(nodes, files)
    ensures Collect(nodes, []) == Ok(dict) && EntriesOf(dict, files)
    ensures Reconstruct(nodes, dict, inflate) == Ok(files)
  {
    dict := Filter(nodes, IsCurrentDirent);
    assert nodes == [nodes[0]] + nodes[1..];
    assert dict == Filter(nodes[1..], IsCurrentDirent);
    EntriesOnly(nodes[1..], files);
    EntriesCollected(dict, files);
    CollectFiltered(nodes, []);
    hide RebuildAll, LiveRoot, Collect, Rebuilt, Filter, GoodFile, InOrder, InodesDiffer;
    LiveRootMembers(dict);
    RebuildAllBack(nodes, files, 0, dict, {}, inflate);
    assert files[0..] == files;
  }

  /** Extraction in preserve mode from a log that represents good files returns those files. */
  lemma ExtractBack(nodes: seq<Node>, files: seq<ConfigFile>, serial: bytes, inflate: Inflate)
    requires AllPackable(files) && GoodFiles(files) && HasSerial(files, serial) && Rebuilt(nodes, files)
    ensures ExtractNodes(nodes, true, true, inflate) == Ok(Info(nodes, Serial(serial, false), Some(files)))
  {
    var i :| 0 <= i < |files| && files[i].name == SERIAL_NAME && files[i].data == serial;
    hide GoodFiles, Reconstruct, RecoverSerial, Collect, WithSerial, ValidSerial, EntriesOf;
    var dict := ReconstructBack(nodes, files, inflate);
    SerialBack(nodes, dict, files, i);
    SerialKept(files, i);
  }

  // ----- the main results -----

  /** Every list of files that preserve-mode extraction returns is fit to be rebuilt. */
  lemma ExtractedFilesAreGood(nodes: seq<Node>, inflate: Inflate)
    requires ExtractNodes(nodes, true, true, inflate).Ok?
    ensures var info := ExtractNodes(nodes, true, true, inflate).value;
            info.files.Some? && GoodFiles(info.files.value) && HasSerial(info.files.value, info.serial.payload)
  {
    hide Reconstruct, RecoverSerial, Collect, WithSerial, GoodFiles, HasSerial;
    var dict := Collect(nodes, []).value;
    var serial := RecoverSerial(nodes, dict).value;
    CollectKeepsKeys(nodes, []);
    RecoveredSerialValid(nodes, dict);
    ReconstructGood(nodes, dict, inflate);
    WithSerialGood(Reconstruct(nodes, dict, inflate).value, serial.payload);
  }

  lemma GoodFilesArePackable(files: seq<ConfigFile>)
    requires GoodFiles(files)
    ensures AllPackable(files) && Sort(files, FileLe) == files
  {
    SortOfSorted(files, FileLe);
    forall f | f in files
      ensures Packable(f)
    {
      assert GoodFile(f);
    }
  }

  lemma GoodFilesAccepted(files: seq<ConfigFile>, serial: bytes)
    requires GoodFiles(files) && HasSerial(files, serial)
    ensures BuilderAccepts(files)
  {
    hide ValidSerial;
    var i :| 0 <= i < |files| && files[i].name == SERIAL_NAME && files[i].data == serial;
    forall j | 0 <= j < |files| && j != i
      ensures !IsSerialFile()(files[j])
    {
      assert j < i || i < j;
    }
    FilterOne(files, i, IsSerialFile());
  }

  /** The rebuilt partition, when the files fit the first eraseblock. */
  function RebuiltPartition(files: seq<ConfigFile>): bytes
    requires AllPackable(files) && FitsFrom(PreservedRecords(files), 0)
  {
    FitsBound(PreservedRecords(files), 0);
    Partition(PreservedRecords(files))
  }

  /** The written nodes of a rebuilt partition. */
  lemma RebuiltNodes(files: seq<ConfigFile>)
    requires AllPackable(files)
    ensures AllWhole(PreservedRecords(files)) && Rebuilt(NodesAt(PreservedRecords(files), 0), files)
  {
    hide ParseAt, Reads, CleanRecord, FileRecords, HeaderStatus, Represents;
    var recs, clean := PreservedRecords(files), CleanRecord();
    CleanParses();
    FileRecordsWhole(files);
    assert Whole(clean) && AllWhole(recs);
    assert recs[1..] == FileRecords(files);
    FileRecordsRead(files, Align4(|clean|));
    var nodes := NodesAt(recs, 0);
    assert nodes == [ParseAt(clean, 0).value.(offset := 0)] + NodesAt(FileRecords(files), Align4(|clean|));
    assert nodes[1..] == NodesAt(FileRecords(files), Align4(|clean|));
  }

  lemma ScanRebuilt(files: seq<ConfigFile>)
    requires AllPackable(files) && FitsFrom(PreservedRecords(files), 0)
    requires PhantomFree(RebuiltPartition(files), PreservedRecords(files), 0)
    ensures Rebuilt(Scan(RebuiltPartition(files), 0), files)
    ensures Filter(Scan(RebuiltPartition(files), 0), IsObsolete) == []
  {
    hide Scan, PreservedRecords, PhantomFree, Rebuilt, FitsFrom, AllWhole;
    var recs := PreservedRecords(files);
    FitsBound(recs, 0);
    RebuiltNodes(files);
    PartitionScans(recs);
    AllCurrent(NodesAt(recs, 0), files);
    FilterNone(NodesAt(recs, 0), IsObsolete);
  }

  lemma AllCurrent(nodes: seq<Node>, files: seq<ConfigFile>)
    requires AllPackable(files) && Rebuilt(nodes, files)
    ensures forall n :: n in nodes ==> !IsObsolete(n)
  {
    forall n | n in nodes
      ensures !IsObsolete(n)
    {
      var j :| 0 <= j < |nodes| && nodes[j] == n;
      if j > 0 {
        PairAt(nodes, files, (j - 1) / 2);
      }
    }
  }

  /** A list in strict name order and a sorted list without a name twice that have the same members are one list. */
  lemma SameSortedFiles(xs: seq<ConfigFile>, ys: seq<ConfigFile>)
    requires InOrder(xs) && Sorted(ys, FileLe) && NamesDiffer(ys) && forall f :: f in xs <==> f in ys
    ensures xs == ys
  {
    FilePreorder();
    SameMembersPermute(xs, ys);
    forall i, j | 0 <= i < j < |xs|
      ensures !(FileLe(xs[i], xs[j]) && FileLe(xs[j], xs[i]))
    {
      LexTotal(xs[i].name, xs[j].name);
    }
    SortedUnique(xs, ys, FileLe);
  }

  /** Whatever files it is given, a returned partition reads back as exactly those files in order. */
  lemma BuiltReadsBack(given: seq<ConfigFile>, inflate: Inflate)
    requires BuildPreserved(given, inflate).Ok?
    ensures var back := Extract(BuildPreserved(given, inflate).value, true, true, inflate);
            back.Ok? && back.value.files == Some(Sort(given, FileLe)) && Filter(back.value.nodes, IsObsolete) == []
  {
    hide ExtractNodes, Filter, PreservedRecords, FitsFrom, Sort, GoodFile, InodesDiffer, HasSerial, InOrder,
      NamesDiffer, Scan, FileLe;
    var files := Sort(given, FileLe);
    var built := Partition(PreservedRecords(files));
    CheckPassed(built, files, inflate);
    ExtractedFilesAreGood(Scan(built, 0), inflate);
    SameFiles(Extract(built, true, true, inflate).value.files.value, files, files);
    FilePreorder();
    SortSorted(given, FileLe);
    SameSortedFiles(Extract(built, true, true, inflate).value.files.value, files);
  }

  /** A phantom-free layout of good files builds, and reads back as those files. */
  lemma BuildSucceeds(files: seq<ConfigFile>, serial: bytes, inflate: Inflate)
    requires AllPackable(files) && GoodFiles(files) && HasSerial(files, serial) && FitsFrom(PreservedRecords(files), 0)
    requires PhantomFree(RebuiltPartition(files), PreservedRecords(files), 0)
    ensures var built := RebuiltPartition(files);
            && BuildPreserved(files, inflate) == Ok(built)
            && Extract(built, true, true, inflate) == Ok(Info(Scan(built, 0), Serial(serial, false), Some(files)))
            && Filter(Scan(built, 0), IsObsolete) == []
  {
    hide ExtractNodes, Scan, GoodFiles, HasSerial, PreservedRecords, FitsFrom, Partition, Rebuilt, Filter,
      BuilderAccepts, PhantomFree;
    GoodFilesArePackable(files);
    GoodFilesAccepted(files, serial);
    ScanRebuilt(files);
    ExtractBack(Scan(RebuiltPartition(files), 0), files, serial, inflate);
  }

  lemma UnfitRefused(files: seq<ConfigFile>, inflate: Inflate)
    requires AllPackable(files) && GoodFiles(files) && !FitsFrom(PreservedRecords(files), 0)
    ensures BuildPreserved(files, inflate).Err?
  {
    hide GoodFiles, PreservedRecords, FitsFrom, BuilderAccepts, SelfCheck;
    GoodFilesArePackable(files);
  }

  /**
   Compaction preserves meaning: the files of any accepted log can be rebuilt exactly when they fit, and
   extraction from the rebuilt partition returns exactly those files and that serial, with nothing obsolete.
   */
  lemma CompactionPreservesFiles(config: bytes, inflate: Inflate)
    requires Extract(config, true, true, inflate).Ok?
    ensures var info := Extract(config, true, true, inflate).value;
            && info.files.Some? && AllPackable(info.files.value)
            && var files := info.files.value;
            if FitsFrom(PreservedRecords(files), 0) then
              PhantomFree(RebuiltPartition(files), PreservedRecords(files), 0) ==>
                && BuildPreserved(files, inflate) == Ok(RebuiltPartition(files))
                && Extract(RebuiltPartition(files), true, true, inflate)
                   == Ok(Info(Scan(RebuiltPartition(files), 0), Serial(info.serial.payload, false), Some(files)))
                && Filter(Scan(RebuiltPartition(files), 0), IsObsolete) == []
            else BuildPreserved(files, inflate).Err?
  {
    hide ExtractNodes, Scan, GoodFiles, HasSerial, PreservedRecords, FitsFrom, Filter, PhantomFree, BuildPreserved,
      RebuiltPartition;
    ExtractedFilesAreGood(Scan(config, 0), inflate);
    var info := Extract(config, true, true, inflate).value;
    var files := info.files.value;
    GoodFilesArePackable(files);
    if !FitsFrom(PreservedRecords(files), 0) {
      UnfitRefused(files, inflate);
    } else if PhantomFree(RebuiltPartition(files), PreservedRecords(files), 0) {
      BuildSucceeds(files, info.serial.payload, inflate);
    }
  }
}

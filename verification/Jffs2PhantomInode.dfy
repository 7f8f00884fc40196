/** What one current phantom inode does to the compaction of a file: exactly when the builder still succeeds. */
module Jffs2PhantomInode {
  import opened Bytes
  import opened Lists
  import opened Jffs2Node
  import opened Jffs2Log
  import opened Jffs2Config
  import opened Jffs2Build
  import opened Jffs2Compaction
  import opened Jffs2Obsolete
  import opened Jffs2PhantomScan

  /** One current phantom at index k of what is found; every other phantom is one that extraction ignores. */
  ghost predicate OnePhantom(files: seq<ConfigFile>, k: nat)
    requires AllPackable(files) && FitsFrom(PreservedRecords(files), 0)
  {
    && k < |Found(files)| && IsPhantom(Found(files)[k], files) && Found(files)[k].status.Current?
    && forall j :: 0 <= j < |Found(files)| && j != k && IsPhantom(Found(files)[j], files) ==>
       Inert(Found(files)[j], files)
  }

  // ----- rebuilding around one changed file -----

  lemma SeenMatters(nodes: seq<Node>, d: Node, seen: set<u32>, inflate: Inflate)
    requires d.body.Dirent? && d.body.dinode !in seen
    ensures Rebuild(nodes, d, seen, inflate) == Rebuild(nodes, d, {}, inflate)
  {
    hide Fragments, Replay, Filter;
    FragmentsAreInodes(nodes, d.body.dinode);
  }

  lemma RebuiltUnseen(nodes: seq<Node>, d: Node, seen: set<u32>, inflate: Inflate)
    requires d.body.Dirent? && Rebuild(nodes, d, seen, inflate).Ok?
    ensures d.body.dinode !in seen && Rebuild(nodes, d, seen, inflate).value.inode == d.body.dinode
    ensures Rebuild(nodes, d, seen, inflate).value.name == d.body.name
    ensures Rebuild(nodes, d, seen, inflate).value.direntMctime == d.body.mctime
    ensures Rebuild(nodes, d, seen, inflate).value.dtype == d.body.dtype
  {
    hide Fragments, Replay, Filter;
    FragmentsAreInodes(nodes, d.body.dinode);
  }

  /** When only one live entry reads differently, only its file changes. */
  lemma {:induction false} RebuildAllExcept(n1: seq<Node>, n2: seq<Node>, live: seq<Node>, seen: set<u32>,
                                            files: seq<ConfigFile>, i: nat, inflate: Inflate)
    requires AllDirents(live) && RebuildAll(n2, live, seen, inflate) == Ok(files) && i < |live|
    requires forall j :: 0 <= j < |live| && j != i ==>
             Fragments(n1, live[j].body.dinode) == Fragments(n2, live[j].body.dinode)
    ensures live[i] in live && i < |files|
    ensures var r, all := Rebuild(n1, live[i], {}, inflate), RebuildAll(n1, live, seen, inflate);
            if r.Err? then all.Err? else all == Ok(files[i := r.value])
    decreases |live|
  {
    hide Fragments, Rebuild;
    var d, rest := live[0], live[1..];
    assert d in live;
    RebuiltUnseen(n2, d, seen, inflate);
    var f := Rebuild(n2, d, seen, inflate).value;
    var later := RebuildAll(n2, rest, seen + {d.body.dinode}, inflate).value;
    assert files == [f] + later;
    if i == 0 {
      SeenMatters(n1, d, seen, inflate);
      forall e | e in rest
        ensures Fragments(n1, e.body.dinode) == Fragments(n2, e.body.dinode)
      {
        var j :| 0 <= j < |rest| && rest[j] == e;
        assert live[j + 1] == e;
      }
      RebuildAllSame(n1, n2, rest, seen + {d.body.dinode}, inflate);
      var r := Rebuild(n1, d, {}, inflate);
      assert r.Ok? ==> [r.value] + later == files[0 := r.value];
    } else {
      FragmentsDecide(n1, n2, d, seen, inflate);
      assert forall j :: 0 <= j < |rest| ==> rest[j] == live[j + 1];
      RebuildAllExcept(n1, n2, rest, seen + {d.body.dinode}, later, i - 1, inflate);
      var r := Rebuild(n1, live[i], {}, inflate);
      assert r.Ok? ==> [f] + later[i - 1 := r.value] == files[i := r.value];
    }
  }

  // ----- two fragments of one file -----

  /** The file's own fragment and the phantom, in version order. */
  lemma TwoSorted(x: Node, p: Node, both: seq<Node>)
    requires both == [x, p] || both == [p, x]
    requires VersionOf(x) == 1
    ensures VersionOf(p) == 0 ==> Sort(both, VersionLe) == [p, x]
    ensures VersionOf(p) >= 2 ==> Sort(both, VersionLe) == [x, p]
    ensures VersionOf(p) == 1 ==> Sort(both, VersionLe) == both
  {
    assert [x, p][1..] == [p] && [p, x][1..] == [x];
    SortOne(x, VersionLe);
    SortOne(p, VersionLe);
    assert Insert(x, [p], VersionLe) == if VersionLe(x, p) then [x] + [p] else [p] + Insert(x, [], VersionLe);
    assert Insert(p, [x], VersionLe) == if VersionLe(p, x) then [p] + [x] else [x] + Insert(p, [], VersionLe);
    assert [p, x][1..] == [x] && [x] + [p] == [x, p] && [p] + [x] == [p, x];
    assert [p] + [x] == [p, x];
  }

  lemma FilterTwo(a: Node, b: Node, q: Node -> bool)
    ensures Filter([a, b], q) == (if q(a) then [a] else []) + (if q(b) then [b] else [])
  {
    assert [a, b] == [a] + [b];
    FilterAppend([a], [b], q);
    assert [a][1..] == [] && [b][1..] == [];
  }

  /** A fragment that covers the whole file leaves nothing of what was there. */
  lemma OverlayCovers(before: bytes, data: bytes)
    requires |before| == |data|
    ensures Overlay(before, 0, data) == data
  {
    if data != [] {
      assert data[..|data|] == data;
    }
  }

  lemma ReplayTwo(data: bytes, a: Node, b: Node, inflate: Inflate)
    requires a.body.Inode? && b.body.Inode?
    ensures AllInodes([a, b])
    ensures Replay(data, [a, b], inflate) ==
            (var da := Decode(a.body, inflate);
             if da.Err? then Err(da.reason)
             else
               var db := Decode(b.body, inflate);
               if db.Err? then Err(db.reason)
               else Ok(Overlay(Overlay(data, a.body.fileOffset, da.value), b.body.fileOffset, db.value)))
  {
    hide Decode, Overlay;
    assert [a, b][1..] == [b] && [b][1..] == [];
    var da := Decode(a.body, inflate);
    if da.Ok? {
      var mid := Overlay(data, a.body.fileOffset, da.value);
      var db := Decode(b.body, inflate);
      if db.Ok? {
        assert Replay(Overlay(mid, b.body.fileOffset, db.value), [], inflate) ==
               Ok(Overlay(mid, b.body.fileOffset, db.value));
      }
      assert Replay(mid, [b], inflate) == if db.Err? then Err(db.reason)
             else Ok(Overlay(mid, b.body.fileOffset, db.value));
    }
  }

  /** The metadata a fragment would give the file. */
  predicate SameMeta(b: Body, f: ConfigFile)
    requires b.Inode?
  {
    && b.mode == f.mode && b.uid == f.uid && b.gid == f.gid && b.atime == f.atime && b.mtime == f.mtime
    && b.ctime == f.ctime
    && b.flags == f.flags && b.fileSize == |f.data|
  }

  /**
   Exactly the phantoms that leave a file as it is: an older one that can be decoded, or a newer one with the
   file's metadata whose bytes are the file's own.
   */
  predicate LeavesFile(b: Body, f: ConfigFile, inflate: Inflate)
    requires b.Inode?
  {
    var decoded := Decode(b, inflate);
    if b.version == 0 then decoded.Ok?
    else b.version >= 2 && SameMeta(b, f) && decoded.Ok? && Overlay(f.data, b.fileOffset, decoded.value) == f.data
  }

  lemma FragmentsTwo(nodes: seq<Node>, inode: u32, x: Node, p: Node)
    requires x.body.Inode? && x.body.version == 1 && p.body.Inode?
    requires var both := Filter(nodes, IsFragmentOf(inode)); both == [x, p] || both == [p, x]
    ensures p.body.version == 0 ==> Fragments(nodes, inode) == [p, x]
    ensures p.body.version >= 2 ==> Fragments(nodes, inode) == [x, p]
    ensures p.body.version == 1 ==> Fragments(nodes, inode) == [x, p] || Fragments(nodes, inode) == [p, x]
  {
    hide Filter, Sort;
    TwoSorted(x, p, Filter(nodes, IsFragmentOf(inode)));
  }

  lemma DataDecodes(x: Node, f: ConfigFile, inflate: Inflate)
    requires Packable(f) && IsDataOf(x, f) && |f.data| <= CONFIG_SIZE
    ensures x.body.Inode? && x.body.version == 1 && x.body.fileOffset == 0 && SameMeta(x.body, f)
    ensures Decode(x.body, inflate) == Ok(f.data)
  {
  }

  /** An entry whose inode has exactly two fragments. */
  lemma RebuildTwoWith(nodes: seq<Node>, d: Node, a: Node, b: Node, f: ConfigFile, inflate: Inflate)
    requires GoodFile(f) && d.body.Dirent? && d.body.name == f.name && d.body.dinode == f.inode
             && d.body.dtype == f.dtype
    requires d.body.mctime == f.direntMctime && a.body.Inode? && b.body.Inode? && Fragments(nodes, f.inode) == [a, b]
    requires AllInodes([a, b])
    ensures a.body.version == b.body.version ==> Rebuild(nodes, d, {}, inflate).Err?
    ensures a.body.version != b.body.version ==>
              var replayed := Replay(Repeat(0, b.body.fileSize), [a, b], inflate);
              Rebuild(nodes, d, {}, inflate) == Ok(f) <==> SameMeta(b.body, f) && replayed == Ok(f.data)
  {
    hide Fragments, Replay, Filter, SafeName;
    FilterTwo(a, b, HasVersion(b.body.version));
    FragmentsAreInodes(nodes, f.inode);
    if Replay(Repeat(0, b.body.fileSize), [a, b], inflate).Ok? {
      ReplayLength(Repeat(0, b.body.fileSize), [a, b], inflate);
    }
  }

  lemma RebuildTwo(nodes: seq<Node>, d: Node, x: Node, p: Node, f: ConfigFile, inflate: Inflate)
    requires GoodFile(f) && Packable(f) && IsEntryOf(d, f) && IsDataOf(x, f) && p.body.Inode?
    requires var both := Filter(nodes, IsFragmentOf(f.inode)); both == [x, p] || both == [p, x]
    ensures d.body.Dirent? && (Rebuild(nodes, d, {}, inflate) == Ok(f) <==> LeavesFile(p.body, f, inflate))
  {
    hide Fragments, Filter, Rebuild, Replay, Decode, Overlay, GoodFile, SameMeta;
    DataSize(f);
    DataDecodes(x, f, inflate);
    FragmentsTwo(nodes, f.inode, x, p);
    ReplayTwo(Repeat(0, |f.data|), p, x, inflate);
    ReplayTwo(Repeat(0, p.body.fileSize), x, p, inflate);
    if p.body.version == 0 {
      RebuildTwoWith(nodes, d, p, x, f, inflate);
      MetaSize(x.body, f);
      var decoded := Decode(p.body, inflate);
      if decoded.Ok? {
        OverlayCovers(Overlay(Repeat(0, |f.data|), p.body.fileOffset, decoded.value), f.data);
      }
    } else if p.body.version == 1 {
      if Fragments(nodes, f.inode) == [x, p] {
        RebuildTwoWith(nodes, d, x, p, f, inflate);
      } else {
        RebuildTwoWith(nodes, d, p, x, f, inflate);
      }
    } else {
      RebuildTwoWith(nodes, d, x, p, f, inflate);
      if SameMeta(p.body, f) {
        MetaSize(p.body, f);
        OverlayCovers(Repeat(0, |f.data|), f.data);
      }
    }
  }

  lemma DataSize(f: ConfigFile)
    requires GoodFile(f)
    ensures |f.data| <= CONFIG_SIZE
  {
  }

  lemma MetaSize(b: Body, f: ConfigFile)
    requires b.Inode? && SameMeta(b, f)
    ensures b.fileSize == |f.data|
  {
  }

  // ----- the serial among two candidates -----

  /** The live serial read from the candidates of one inode. */
  lemma LiveSerialFrom(nodes: seq<Node>, dict: seq<Node>, files: seq<ConfigFile>, m: nat)
    requires EntriesOf(dict, files) && GoodFiles(files) && m < |files| && files[m].name == SERIAL_NAME
    ensures AllInodes(Filter(nodes, IsLiveSerialOf(files[m].inode)))
    ensures var candidates := Filter(nodes, IsLiveSerialOf(files[m].inode));
            candidates != [] ==>
              var newest := Filter(candidates, HasVersion(MaxVersion(candidates)));
              |newest| == 1 && newest[0].body.Inode? ==> LiveSerial(nodes, dict) == Ok(Some(newest[0].body.payload))
  {
    hide ValidSerial, MaxVersion, HasVersion, IsLiveSerialOf;
    LiveSerialsAreInodes(nodes, files[m].inode);
    assert IsEntryOf(dict[m], files[m]) && GoodFile(files[m]);
    forall j | 0 <= j < |dict| && j != m
      ensures !SerialEntries()(dict[j])
    {
      assert IsEntryOf(dict[j], files[j]);
      assert j < m || m < j;
    }
    FilterOne(dict, m, SerialEntries());
  }

  /** A phantom that leaves serial.cfg as it is leaves the recovered serial as it is. */
  lemma SerialOfTwo(nodes: seq<Node>, dict: seq<Node>, files: seq<ConfigFile>, m: nat, x: Node, p: Node,
                    inflate: Inflate)
    requires EntriesOf(dict, files) && GoodFiles(files) && m < |files| && files[m].name == SERIAL_NAME
             && ValidSerial(files[m].data)
    requires Packable(files[m]) && IsDataOf(x, files[m]) && p.body.Inode? && LeavesFile(p.body, files[m], inflate)
    requires var both := Filter(nodes, IsFragmentOf(files[m].inode)); both == [x, p] || both == [p, x]
    ensures LiveSerial(nodes, dict) == Ok(Some(files[m].data))
  {
    var f := files[m];
    var q := IsLiveSerialOf(f.inode);
    hide ValidSerial, LiveSerial, GoodFiles, EntriesOf, Filter;
    FilterTwice(nodes, IsFragmentOf(f.inode), q);
    FilterTwo(x, p, q);
    FilterTwo(p, x, q);
    assert q(x);
    LiveSerialFrom(nodes, dict, files, m);
    var candidates := Filter(nodes, q);
    if q(p) {
      if p.body.version >= 2 {
        CandidatePayload(p, f, inflate);
      }
      NewestOfTwo(x, p);
    } else {
      assert candidates == [x];
      NewestOfOne(x);
    }
  }

  lemma NewestOfOne(x: Node)
    requires x.body.Inode?
    ensures AllInodes([x]) && Filter([x], HasVersion(MaxVersion([x]))) == [x]
  {
    FilterAll([x], HasVersion(MaxVersion([x])));
  }

  lemma NewestOfTwo(x: Node, p: Node)
    requires x.body.Inode? && p.body.Inode? && x.body.version == 1 && p.body.version != 1
    ensures AllInodes([x, p]) && AllInodes([p, x])
    ensures var newest := if p.body.version == 0 then [x] else [p];
            Filter([x, p], HasVersion(MaxVersion([x, p]))) == newest
            && Filter([p, x], HasVersion(MaxVersion([p, x]))) == newest
  {
    var v := if p.body.version == 0 then 1 else p.body.version;
    MaxOfTwo(x, p);
    MaxOfTwo(p, x);
    FilterTwo(x, p, HasVersion(v));
    FilterTwo(p, x, HasVersion(v));
  }

  lemma MaxOfTwo(a: Node, b: Node)
    requires a.body.Inode? && b.body.Inode?
    ensures AllInodes([a, b]) && MaxVersion([a, b]) as int == Max(a.body.version, b.body.version)
  {
    assert a in [a, b] && b in [a, b];
  }

  /** A newer candidate for the serial that leaves the file as it is carries the file's own data. */
  lemma CandidatePayload(p: Node, f: ConfigFile, inflate: Inflate)
    requires p.body.Inode? && HoldsSerial(p) && LeavesFile(p.body, f, inflate) && p.body.version >= 2
    ensures p.body.payload == f.data
  {
    hide ValidSerial;
    OverlayCovers(f.data, p.body.payload);
  }

  // ----- the outcome -----

  /** What a successful build implies about the extraction of what was found. */
  lemma BuiltMeans(files: seq<ConfigFile>, serial: bytes, inflate: Inflate)
    requires Buildable(files, serial) && BuildPreserved(files, inflate).Ok?
    ensures var back := ExtractNodes(Found(files), true, true, inflate);
            back.Ok? && back.value.files.Some? && forall f :: f in back.value.files.value <==> f in files
  {
    hide ExtractNodes, GoodFiles, HasSerial, FitsFrom, PreservedRecords, Filter, BuilderAccepts;
    GoodFilesArePackable(files);
    CheckPassed(RebuiltPartition(files), files, inflate);
    SameFiles(Extract(RebuiltPartition(files), true, true, inflate).value.files.value, files, files);
  }

  lemma WithSerialKeeps(files: seq<ConfigFile>, serial: bytes)
    requires WithSerial(files, serial).Ok?
    ensures forall f :: f in files ==> f in WithSerial(files, serial).value
  {
    var out := WithSerial(files, serial).value;
    if Filter(files, IsSerialFile()) == [] {
      var more := files + [RecoveredFile(FreshInode(InodesOf(files), 2), serial)];
      SortKeeps(more, FileLe);
      SameMembers(more, out);
    }
  }

  /** A reconstructed file that is not among the files makes the final check fail. */
  lemma StrangerRefused(files: seq<ConfigFile>, serial: bytes, dict: seq<Node>, g: ConfigFile, inflate: Inflate)
    requires Buildable(files, serial) && Collect(Found(files), []) == Ok(dict) && g !in files
    requires Reconstruct(Found(files), dict, inflate).Ok? ==> g in Reconstruct(Found(files), dict, inflate).value
    ensures BuildPreserved(files, inflate).Err?
  {
    hide GoodFiles, HasSerial, FitsFrom, PreservedRecords, Filter, BuildPreserved, Collect, Reconstruct,
      RecoverSerial, WithSerial, Found;
    if BuildPreserved(files, inflate).Ok? {
      BuiltMeans(files, serial, inflate);
      var fs := Reconstruct(Found(files), dict, inflate).value;
      var s := RecoverSerial(Found(files), dict).value.payload;
      WithSerialKeeps(fs, s);
    }
  }

  lemma ReconstructionRefused(files: seq<ConfigFile>, serial: bytes, dict: seq<Node>, inflate: Inflate)
    requires Buildable(files, serial) && Collect(Found(files), []) == Ok(dict)
    requires Reconstruct(Found(files), dict, inflate).Err?
    ensures BuildPreserved(files, inflate).Err?
  {
    hide GoodFiles, HasSerial, FitsFrom, PreservedRecords, Filter, BuildPreserved, Collect, Reconstruct,
      RecoverSerial, WithSerial, Found;
    if BuildPreserved(files, inflate).Ok? {
      BuiltMeans(files, serial, inflate);
    }
  }

  lemma NothingObsolete(files: seq<ConfigFile>, k: nat)
    requires AllPackable(files) && FitsFrom(PreservedRecords(files), 0) && OnePhantom(files, k)
    ensures forall n :: n in Found(files) ==> !IsObsolete(n)
  {
    hide FitsFrom, PreservedRecords, Found, IsPhantom;
    forall n | n in Found(files)
      ensures !IsObsolete(n)
    {
      var j :| 0 <= j < |Found(files)| && Found(files)[j] == n;
      if !IsPhantom(n, files) {
        WrittenCurrent(files, n);
      }
    }
  }

  /** A test the phantom fails selects the written nodes only. */
  lemma PhantomUnseen(files: seq<ConfigFile>, k: nat, q: Node -> bool)
    requires AllPackable(files) && FitsFrom(PreservedRecords(files), 0) && OnePhantom(files, k) && !q(Found(files)[k])
    requires forall n :: Inert(n, files) ==> !q(n)
    ensures Filter(Found(files), q) == Filter(Written(files), q)
  {
    hide FitsFrom, PreservedRecords, Found, IsPhantom, Inert, Written;
    forall n | n in Found(files) && IsPhantom(n, files)
      ensures !q(n)
    {
      var j :| 0 <= j < |Found(files)| && Found(files)[j] == n;
    }
    OnlyWritten(files, q);
  }

  /** A test the phantom passes selects it beside the written nodes. */
  lemma PhantomSeen(files: seq<ConfigFile>, k: nat, q: Node -> bool) returns (a: seq<Node>, b: seq<Node>)
    requires AllPackable(files) && FitsFrom(PreservedRecords(files), 0) && OnePhantom(files, k) && q(Found(files)[k])
    requires forall n :: Inert(n, files) ==> !q(n)
    ensures Filter(Found(files), q) == a + [Found(files)[k]] + b && Filter(Written(files), q) == a + b
  {
    hide FitsFrom, PreservedRecords, Found, Inert, Written;
    FoundWritten(files);
    a, b := FilterExtra(Found(files), k, IsWritten(Starts(PreservedRecords(files), 0)), q);
  }

  lemma Beside(a: seq<Node>, p: Node, b: seq<Node>, x: Node)
    requires a + b == [x]
    ensures a + [p] + b == [x, p] || a + [p] + b == [p, x]
  {
    if a == [] {
      assert b == [x];
    } else {
      assert a == [x] && b == [];
    }
  }

  /** The written fragment of a file, and what the scan finds of its inode. */
  lemma FragmentsOfFile(files: seq<ConfigFile>, k: nat, i: nat) returns (x: Node)
    requires AllPackable(files) && GoodFiles(files) && FitsFrom(PreservedRecords(files), 0) && OnePhantom(files, k)
             && i < |files|
    requires Found(files)[k].body.Inode? && Found(files)[k].body.inode == files[i].inode
    ensures files[i] in files && IsDataOf(x, files[i])
    ensures var both := Filter(Found(files), IsFragmentOf(files[i].inode));
            both == [x, Found(files)[k]] || both == [Found(files)[k], x]
  {
    hide FitsFrom, PreservedRecords, Found, Written, Rebuilt, OnePhantom, Filter;
    FoundWritten(files);
    PairAt(Written(files), files, i);
    x := Written(files)[2 * i + 2];
    var q := IsFragmentOf(files[i].inode);
    PhantomCurrent(files, k);
    var a, b := PhantomSeen(files, k, q);
    OnlyDataOf(Written(files), files, i, q);
    Beside(a, Found(files)[k], b, x);
  }

  lemma PhantomCurrent(files: seq<ConfigFile>, k: nat)
    requires AllPackable(files) && FitsFrom(PreservedRecords(files), 0) && OnePhantom(files, k)
    ensures k < |Found(files)| && Found(files)[k].status.Current?
  {
  }

  lemma OtherFragments(files: seq<ConfigFile>, k: nat, i: nat, j: nat)
    requires AllPackable(files) && GoodFiles(files) && FitsFrom(PreservedRecords(files), 0) && OnePhantom(files, k)
    requires i < |files| && j < |files| && i != j
    requires Found(files)[k].body.Inode? && Found(files)[k].body.inode == files[i].inode
    ensures Filter(Found(files), IsFragmentOf(files[j].inode)) == Filter(Written(files), IsFragmentOf(files[j].inode))
  {
    hide FitsFrom, PreservedRecords, Found, Written, OnePhantom, Filter;
    assert files[i].inode != files[j].inode by {
      if i < j {
        assert files[i].inode != files[j].inode;
      } else {
        assert files[j].inode != files[i].inode;
      }
    }
    assert files[j] in files;
    PhantomUnseen(files, k, IsFragmentOf(files[j].inode));
  }

  /** Reconstruction around the one file whose inode has a second fragment. */
  lemma AroundPhantom(files: seq<ConfigFile>, k: nat, i: nat, inflate: Inflate) returns (dict: seq<Node>)
    requires AllPackable(files) && GoodFiles(files) && FitsFrom(PreservedRecords(files), 0) && OnePhantom(files, k)
             && i < |files|
    requires Found(files)[k].body.Inode? && Found(files)[k].body.inode == files[i].inode
    ensures Collect(Found(files), []) == Ok(dict) && EntriesOf(dict, files) && dict[i].body.Dirent?
    ensures var r := Rebuild(Found(files), dict[i], {}, inflate);
            if r.Err? then Reconstruct(Found(files), dict, inflate).Err?
            else Reconstruct(Found(files), dict, inflate) == Ok(files[i := r.value])
  {
    hide FitsFrom, PreservedRecords, Found, Written, Rebuilt, OnePhantom, Filter, Collect, GoodFiles, Rebuild, LiveRoot;
    FoundWritten(files);
    dict := ReconstructBack(Written(files), files, inflate);
    PhantomUnseen(files, k, IsCurrentDirent);
    CollectFiltered(Found(files), []);
    CollectFiltered(Written(files), []);
    EntriesCollected(dict, files);
    forall j | 0 <= j < |dict|
      ensures dict[j].body.Dirent? && dict[j].body.dinode == files[j].inode
    {
      assert IsEntryOf(dict[j], files[j]);
    }
    forall j | 0 <= j < |dict| && j != i
      ensures Fragments(Found(files), dict[j].body.dinode) == Fragments(Written(files), dict[j].body.dinode)
    {
      OtherFragments(files, k, i, j);
    }
    LiveRootMembers(dict);
    RebuildAllExcept(Found(files), Written(files), dict, {}, files, i, inflate);
  }

  /** The serial survives a phantom that leaves its file as it is. */
  lemma SerialSurvives(files: seq<ConfigFile>, serial: bytes, k: nat, i: nat, dict: seq<Node>, inflate: Inflate)
    requires Buildable(files, serial) && OnePhantom(files, k) && i < |files| && EntriesOf(dict, files)
    requires Found(files)[k].body.Inode? && Found(files)[k].body.inode == files[i].inode
    requires LeavesFile(Found(files)[k].body, files[i], inflate)
    ensures RecoverSerial(Found(files), dict) == Ok(Serial(serial, false)) && WithSerial(files, serial) == Ok(files)
  {
    var m :| 0 <= m < |files| && files[m].name == SERIAL_NAME && files[m].data == serial && ValidSerial(serial);
    hide *;
    if m == i {
      SerialAtPhantom(files, serial, k, i, dict, inflate);
    } else {
      SerialAway(files, serial, k, i, m, dict);
    }
  }

  lemma SerialAtPhantom(files: seq<ConfigFile>, serial: bytes, k: nat, i: nat, dict: seq<Node>, inflate: Inflate)
    requires Buildable(files, serial) && OnePhantom(files, k) && i < |files| && EntriesOf(dict, files)
    requires Found(files)[k].body.Inode? && Found(files)[k].body.inode == files[i].inode
    requires LeavesFile(Found(files)[k].body, files[i], inflate)
    requires files[i].name == SERIAL_NAME && files[i].data == serial && ValidSerial(serial)
    ensures RecoverSerial(Found(files), dict) == Ok(Serial(serial, false)) && WithSerial(files, serial) == Ok(files)
  {
    hide FitsFrom, PreservedRecords, Found, OnePhantom, Filter, GoodFiles, LiveSerial, EntriesOf, WithSerial,
      ValidSerial, LeavesFile, HistoricalSerial, HasSerial;
    SerialKept(files, i);
    PhantomCurrent(files, k);
    var x := FragmentsOfFile(files, k, i);
    GoodAt(files, i);
    SerialOfTwo(Found(files), dict, files, i, x, Found(files)[k], inflate);
  }

  lemma SerialAway(files: seq<ConfigFile>, serial: bytes, k: nat, i: nat, m: nat, dict: seq<Node>)
    requires Buildable(files, serial) && OnePhantom(files, k) && i < |files| && EntriesOf(dict, files)
    requires Found(files)[k].body.Inode? && Found(files)[k].body.inode == files[i].inode
    requires m < |files| && m != i && files[m].name == SERIAL_NAME
    ensures RecoverSerial(Found(files), dict) == Ok(Serial(serial, false)) && WithSerial(files, serial) == Ok(files)
  {
    hide FitsFrom, PreservedRecords, Found, Written, Rebuilt, OnePhantom, Filter, GoodFiles, LiveSerial, EntriesOf,
      WithSerial, ValidSerial, HistoricalSerial, HasSerial, RecoverSerial;
    OtherFragments(files, k, i, m);
    FoundWritten(files);
    SerialOf(Written(files), dict, files, serial);
    SerialElsewhere(Found(files), Written(files), dict, files, m);
    RecoverSame(Found(files), Written(files), dict);
  }

  lemma SerialElsewhere(n1: seq<Node>, n2: seq<Node>, dict: seq<Node>, files: seq<ConfigFile>, m: nat)
    requires GoodFiles(files) && EntriesOf(dict, files) && m < |files| && files[m].name == SERIAL_NAME
    requires Filter(n1, IsFragmentOf(files[m].inode)) == Filter(n2, IsFragmentOf(files[m].inode))
    ensures LiveSerial(n1, dict) == LiveSerial(n2, dict)
  {
    hide ValidSerial;
    SerialCandidates(n1, n2, files[m].inode);
    LiveSerialsAreInodes(n1, files[m].inode);
    assert IsEntryOf(dict[m], files[m]) && GoodFile(files[m]);
    forall j | 0 <= j < |dict| && j != m
      ensures !SerialEntries()(dict[j])
    {
      assert IsEntryOf(dict[j], files[j]);
      assert j < m || m < j;
    }
    FilterOne(dict, m, SerialEntries());
  }

  lemma OtherFile(files: seq<ConfigFile>, i: nat, g: ConfigFile)
    requires InOrder(files) && i < |files| && g.name == files[i].name && g != files[i]
    ensures g !in files
  {
    forall j | 0 <= j < |files|
      ensures files[j] != g
    {
      assert j < i ==> files[j].name != files[i].name;
    }
  }

  /**
   One current phantom inode of a file's own inode number: the builder succeeds if and only if the phantom
   leaves that file as it is. (Of any other inode number it is ignored: BuildsExactly.)
   */
  lemma InodePhantom(files: seq<ConfigFile>, serial: bytes, k: nat, i: nat, inflate: Inflate)
    requires Buildable(files, serial) && OnePhantom(files, k) && i < |files|
    requires Found(files)[k].body.Inode? && Found(files)[k].body.inode == files[i].inode
    ensures BuildPreserved(files, inflate).Ok? <==> LeavesFile(Found(files)[k].body, files[i], inflate)
  {
    hide FitsFrom, PreservedRecords, Found, Written, OnePhantom, Filter, Collect, GoodFiles, Rebuild, LeavesFile,
      BuildPreserved, Reconstruct, EntriesOf, HasSerial, RecoverSerial, WithSerial;
    var f := files[i];
    PhantomCurrent(files, k);
    var dict := AroundPhantom(files, k, i, inflate);
    var x := FragmentsOfFile(files, k, i);
    GoodAt(files, i);
    EntryAt(dict, files, i);
    RebuildTwo(Found(files), dict[i], x, Found(files)[k], f, inflate);
    var r := Rebuild(Found(files), dict[i], {}, inflate);
    if r == Ok(f) {
      assert files[i := f] == files;
      SerialSurvives(files, serial, k, i, dict, inflate);
      NothingObsolete(files, k);
      ExtractParts(Found(files), dict, files, serial, inflate);
      BuildsWhenExtracted(files, serial, inflate);
    } else if r.Ok? {
      RebuiltUnseen(Found(files), dict[i], {}, inflate);
      OtherFile(files, i, r.value);
      assert files[i := r.value][i] == r.value;
      StrangerRefused(files, serial, dict, r.value, inflate);
    } else {
      ReconstructionRefused(files, serial, dict, inflate);
    }
  }

  lemma GoodAt(files: seq<ConfigFile>, i: nat)
    requires AllPackable(files) && GoodFiles(files) && i < |files|
    ensures files[i] in files && GoodFile(files[i]) && Packable(files[i]) && InOrder(files)
  {
  }

  lemma EntryAt(dict: seq<Node>, files: seq<ConfigFile>, i: nat)
    requires EntriesOf(dict, files) && i < |files|
    ensures |dict| == |files| && IsEntryOf(dict[i], files[i]) && dict[i].body.Dirent?
            && dict[i].body.name == files[i].name
  {
  }
}

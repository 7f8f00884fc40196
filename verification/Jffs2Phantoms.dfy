/** Compaction with any phantoms whatever: exactly when the builder succeeds. */
module Jffs2Phantoms {
  import opened Bytes
  import opened Lists
  import opened Jffs2Node
  import opened Jffs2Log
  import opened Jffs2Config
  import opened Jffs2Build
  import opened Jffs2Compaction
  import opened Jffs2PhantomScan
  import opened Jffs2PhantomInode
  import opened Jffs2PhantomEntry
  import opened Jffs2PhantomData

  // ----- what survives -----

  /** The live entries name these files, in order, with their inodes, times and types. */
  ghost predicate Heads(live: seq<Node>, files: seq<ConfigFile>) {
    |live| == |files| && forall i :: 0 <= i < |live| ==> SameHead(live[i].body, files[i])
  }

  ghost predicate AllIntact(nodes: seq<Node>, files: seq<ConfigFile>, inflate: Inflate) {
    forall f :: f in files ==> Intact(nodes, f, inflate)
  }

  /** Every file stands: its entry, its bytes, and for serial.cfg one copy newer than all others. */
  ghost predicate AllStand(nodes: seq<Node>, live: seq<Node>, files: seq<ConfigFile>, inflate: Inflate) {
    && Heads(live, files) && AllIntact(nodes, files, inflate)
    && forall f :: f in files && f.name == SERIAL_NAME ==> SerialHeld(nodes, f)
  }

  /** Only serial.cfg lost its entry, and recovery writes it again as it was. */
  ghost predicate SerialReturns(live: seq<Node>, files: seq<ConfigFile>, i: nat, inflate: Inflate)
    requires AllPackable(files) && FitsFrom(PreservedRecords(files), 0)
  {
    && i < |files| && files[i].name == SERIAL_NAME && Heads(live, Without(files, i))
    && AllIntact(Found(files), Without(files, i), inflate) && Recoverable(files, i)
  }

  /** What the newest entries of everything found have to say. */
  ghost predicate Survives(files: seq<ConfigFile>, inflate: Inflate)
    requires AllPackable(files) && FitsFrom(PreservedRecords(files), 0)
  {
    var d := Collect(Found(files), []);
    && d.Ok? && (forall e :: e in d.value ==> !IsLiveBelowRoot(e))
    && (AllStand(Found(files), LiveRoot(d.value), files, inflate)
        || exists i: nat :: SerialReturns(LiveRoot(d.value), files, i, inflate))
  }

  // ----- names -----

  lemma WrittenFound(files: seq<ConfigFile>, i: nat) returns (x: Node)
    requires AllPackable(files) && FitsFrom(PreservedRecords(files), 0) && i < |files|
    ensures files[i] in files && x in Found(files) && IsDataOf(x, files[i])
  {
    hide FitsFrom, PreservedRecords, Found, Written, Rebuilt, IsWritten;
    FoundWritten(files);
    PairAt(Written(files), files, i);
    x := Written(files)[2 * i + 2];
    FilterMembers(Found(files), IsWritten(Starts(PreservedRecords(files), 0)));
    assert x in Written(files);
  }

  /** One file is rebuilt from an entry with its head if and only if it is intact. */
  lemma HeadRebuilds(files: seq<ConfigFile>, i: nat, e: Node, inflate: Inflate)
    requires AllPackable(files) && GoodFiles(files) && FitsFrom(PreservedRecords(files), 0) && i < |files|
    requires SameHead(e.body, files[i])
    ensures files[i] in files && e.body.Dirent?
    ensures Rebuild(Found(files), e, {}, inflate) == Ok(files[i]) <==> Intact(Found(files), files[i], inflate)
  {
    hide FitsFrom, PreservedRecords, Found, Rebuild, Intact, GoodFiles, IsDataOf;
    var x := WrittenFound(files, i);
    GoodAt(files, i);
    RebuildIntact(Found(files), e, x, files[i], inflate);
  }

  /** Two lists in strict name order with the same members are one list. */
  lemma SameInOrder(xs: seq<ConfigFile>, ys: seq<ConfigFile>)
    requires InOrder(xs) && InOrder(ys) && forall f :: f in xs <==> f in ys
    ensures xs == ys
  {
    hide LexLe;
    assert Sorted(ys, FileLe) && NamesDiffer(ys);
    SameSortedFiles(xs, ys);
  }

  /** There is one serial.cfg. */
  lemma SerialPlace(files: seq<ConfigFile>, serial: bytes) returns (m: nat)
    requires GoodFiles(files) && HasSerial(files, serial)
    ensures m < |files| && files[m] in files && files[m].name == SERIAL_NAME && files[m].data == serial
    ensures ValidSerial(serial)
    ensures forall j :: 0 <= j < |files| && j != m ==> files[j].name != SERIAL_NAME
  {
    hide ValidSerial, LexLe;
    m :| 0 <= m < |files| && files[m].name == SERIAL_NAME && files[m].data == serial;
    forall j | 0 <= j < |files| && j != m
      ensures files[j].name != SERIAL_NAME
    {
      assert j < m || m < j;
    }
  }

  lemma WithoutMembers(files: seq<ConfigFile>, i: nat)
    requires GoodFiles(files) && i < |files|
    ensures InOrder(Without(files, i)) && InodesDiffer(Without(files, i))
    ensures forall f :: f in Without(files, i) <==> f in files && f != files[i]
  {
    hide LexLe;
    var rest := Without(files, i);
    assert forall a :: 0 <= a < |rest| ==> rest[a] == files[if a < i then a else a + 1];
    forall f
      ensures f in rest <==> f in files && f != files[i]
    {
      if f in files && f != files[i] {
        var j :| 0 <= j < |files| && files[j] == f;
        assert rest[if j < i then j else j - 1] == f;
      }
      if f in rest {
        var a :| 0 <= a < |rest| && rest[a] == f;
        var j := if a < i then a else a + 1;
        assert files[j] == f && j != i;
        assert j < i || i < j;
      }
    }
  }

  // ----- the live entries -----

  lemma HeadInodes(live: seq<Node>, files: seq<ConfigFile>)
    requires Heads(live, files) && InodesDiffer(files)
    ensures AllDirents(live)
    ensures forall i, j :: 0 <= i < j < |live| ==> EntryInode(live[i]) != EntryInode(live[j])
  {
    forall e | e in live
      ensures e.body.Dirent?
    {
      var i :| 0 <= i < |live| && live[i] == e;
      assert SameHead(live[i].body, files[i]);
    }
    forall i, j | 0 <= i < j < |live|
      ensures EntryInode(live[i]) != EntryInode(live[j])
    {
      assert SameHead(live[i].body, files[i]) && SameHead(live[j].body, files[j]);
    }
  }

  /** Entries with the heads of intact files are rebuilt as those files. */
  lemma HeadsRebuild(files: seq<ConfigFile>, some: seq<ConfigFile>, d: seq<Node>, inflate: Inflate)
    requires AllPackable(files) && GoodFiles(files) && FitsFrom(PreservedRecords(files), 0)
    requires InodesDiffer(some) && (forall f :: f in some ==> f in files) && AllIntact(Found(files), some, inflate)
    requires Heads(LiveRoot(d), some) && forall e :: e in d ==> !IsLiveBelowRoot(e)
    ensures Reconstruct(Found(files), d, inflate) == Ok(some)
  {
    hide FitsFrom, PreservedRecords, Found, Rebuild, Intact, GoodFiles, SameHead, LiveRoot, InodesDiffer;
    var live := LiveRoot(d);
    LiveRootMembers(d);
    HeadInodes(live, some);
    forall i | 0 <= i < |live|
      ensures live[i].body.Dirent? && Rebuild(Found(files), live[i], {}, inflate) == Ok(some[i])
    {
      assert some[i] in some && some[i] in files;
      var j :| 0 <= j < |files| && files[j] == some[i];
      HeadRebuilds(files, j, live[i], inflate);
    }
    RebuildAllIntact(Found(files), live, some, {}, inflate);
    FilterNone(d, IsLiveBelowRoot);
  }

  /** Files that were reconstructed have the heads of the live entries. */
  lemma ReconstructedHeads(nodes: seq<Node>, d: seq<Node>, inflate: Inflate)
    requires Reconstruct(nodes, d, inflate).Ok?
    ensures Heads(LiveRoot(d), Reconstruct(nodes, d, inflate).value)
    ensures forall e :: e in d ==> !IsLiveBelowRoot(e)
    ensures forall i :: 0 <= i < |LiveRoot(d)| ==>
                          && LiveRoot(d)[i].body.Dirent?
                          && Rebuild(nodes, LiveRoot(d)[i], {}, inflate) == Ok(Reconstruct(nodes, d, inflate).value[i])
  {
    hide Rebuild, LiveRoot, Filter, IsLiveBelowRoot;
    var live, fs := LiveRoot(d), Reconstruct(nodes, d, inflate).value;
    LiveRootMembers(d);
    FilterMembers(d, IsLiveBelowRoot);
    RebuiltSize(nodes, live, {}, inflate);
    forall i | 0 <= i < |live|
      ensures live[i].body.Dirent? && SameHead(live[i].body, fs[i])
      ensures Rebuild(nodes, live[i], {}, inflate) == Ok(fs[i])
    {
      RebuiltEach(nodes, live, {}, i, inflate);
      RebuiltUnseen(nodes, live[i], {}, inflate);
    }
  }

  lemma {:induction false} RebuiltSize(nodes: seq<Node>, live: seq<Node>, seen: set<u32>, inflate: Inflate)
    requires AllDirents(live) && RebuildAll(nodes, live, seen, inflate).Ok?
    ensures |RebuildAll(nodes, live, seen, inflate).value| == |live|
    decreases |live|
  {
    hide Rebuild;
    if live != [] {
      assert live[0] in live;
      RebuiltSize(nodes, live[1..], seen + {live[0].body.dinode}, inflate);
    }
  }

  // ----- the serial -----

  /** The live serial entry among entries with different keys. */
  lemma SerialEntryIs(d: seq<Node>, files: seq<ConfigFile>, m: nat)
    requires KeysDiffer(d) && Heads(LiveRoot(d), files) && m < |files| && files[m].name == SERIAL_NAME
    ensures m < |LiveRoot(d)| && LiveRoot(d)[m].body.Dirent? && LiveRoot(d)[m].body.dinode == files[m].inode
    ensures Filter(d, SerialEntries()) == [LiveRoot(d)[m]]
  {
    hide LiveRoot, Filter;
    LiveRootMembers(d);
    var e := LiveRoot(d)[m];
    assert e in LiveRoot(d) && SameHead(e.body, files[m]);
    var t :| 0 <= t < |d| && d[t] == e;
    forall j | 0 <= j < |d| && j != t
      ensures !SerialEntries()(d[j])
    {
      assert j < t || t < j;
      assert SameEntry(d[j], e) ==> SameEntry(e, d[j]);
    }
    FilterOne(d, t, SerialEntries());
  }

  /** Without a live serial file there is no live serial entry. */
  lemma NoSerialHead(d: seq<Node>, files: seq<ConfigFile>)
    requires Heads(LiveRoot(d), files) && forall f :: f in files ==> f.name != SERIAL_NAME
    ensures Filter(d, SerialEntries()) == []
  {
    hide LiveRoot, Filter;
    LiveRootMembers(d);
    forall e | e in d
      ensures !SerialEntries()(e)
    {
      if IsLive(e) {
        assert e in LiveRoot(d);
        var j :| 0 <= j < |LiveRoot(d)| && LiveRoot(d)[j] == e;
        assert SameHead(LiveRoot(d)[j].body, files[j]) && files[j] in files;
      }
    }
    FilterNone(d, SerialEntries());
  }

  /** What the live serial is read as. */
  lemma LiveSerialIs(nodes: seq<Node>, d: seq<Node>, e: Node, f: ConfigFile, x: Node)
    requires Filter(d, SerialEntries()) == [e] && e.body.Dirent? && e.body.dinode == f.inode
    requires Packable(f) && ValidSerial(f.data) && x in nodes && IsDataOf(x, f)
    ensures SerialHeld(nodes, f) ==> LiveSerial(nodes, d) == Ok(Some(f.data))
    ensures LiveSerial(nodes, d) == Ok(Some(f.data)) ==> SerialHeld(nodes, f)
    ensures LiveSerial(nodes, d).Err? || LiveSerial(nodes, d).value.Some?
  {
    hide ValidSerial, MaxVersion, HasVersion, IsNewest, Filter;
    var q := IsLiveSerialOf(f.inode);
    LiveSerialsAreInodes(nodes, f.inode);
    FilterMembers(nodes, q);
    assert q(x) && x in Filter(nodes, q);
    CopiesNewest(nodes, q);
    var newest := Filter(Filter(nodes, q), HasVersion(MaxVersion(Filter(nodes, q))));
    if |newest| == 1 {
      var c: nat :| IsNewest(nodes, q, c);
      NewestPasses(nodes, q, c);
    }
  }

  lemma NewestPasses(nodes: seq<Node>, q: Node -> bool, c: nat)
    requires IsNewest(nodes, q, c)
    ensures c < |nodes| && q(nodes[c])
  {
  }

  /** The serial of files that all stand is their own. */
  lemma SerialStands(files: seq<ConfigFile>, serial: bytes, d: seq<Node>)
    requires Buildable(files, serial) && KeysDiffer(d) && Heads(LiveRoot(d), files)
    ensures (forall f :: f in files && f.name == SERIAL_NAME ==> SerialHeld(Found(files), f)) <==>
            RecoverSerial(Found(files), d).Ok? && RecoverSerial(Found(files), d).value.payload == serial
    ensures RecoverSerial(Found(files), d).Ok? && RecoverSerial(Found(files), d).value.payload == serial ==>
              RecoverSerial(Found(files), d) == Ok(Serial(serial, false))
    ensures WithSerial(files, serial) == Ok(files)
    ensures forall p :: WithSerial(files, p).Ok? ==> p == serial
  {
    hide FitsFrom, PreservedRecords, Found, GoodFiles, HasSerial, LiveSerial, SerialHeld, ValidSerial, WithSerial,
      HistoricalSerial, Filter, KeysDiffer, Heads;
    var m := SerialPlace(files, serial);
    var x := WrittenFound(files, m);
    SerialEntryIs(d, files, m);
    LiveSerialIs(Found(files), d, LiveRoot(d)[m], files[m], x);
    OnlySerial(files, m);
    SerialKept(files, m);
    assert forall f :: f in files && f.name == SERIAL_NAME ==> f == files[m];
  }

  /** The live file's content is compared with the recovered serial. */
  lemma OnlySerial(files: seq<ConfigFile>, m: nat)
    requires m < |files| && files[m].name == SERIAL_NAME
    requires forall j :: 0 <= j < |files| && j != m ==> files[j].name != SERIAL_NAME
    ensures forall p :: WithSerial(files, p).Ok? ==> p == files[m].data
  {
    FilterOne(files, m, IsSerialFile());
  }

  // ----- sufficient -----

  lemma StandingBuilds(files: seq<ConfigFile>, serial: bytes, d: seq<Node>, inflate: Inflate)
    requires Buildable(files, serial) && forall n :: n in Found(files) ==> !IsObsolete(n)
    requires Collect(Found(files), []) == Ok(d) && forall e :: e in d ==> !IsLiveBelowRoot(e)
    requires AllStand(Found(files), LiveRoot(d), files, inflate)
    ensures BuildPreserved(files, inflate).Ok?
  {
    hide FitsFrom, PreservedRecords, Found, GoodFiles, HasSerial, Collect, Reconstruct, BuildPreserved, ExtractNodes,
      AllIntact, Heads, SerialHeld, RecoverSerial, WithSerial, LiveRoot, KeysDiffer;
    EmptyKeys();
    CollectKeepsKeys(Found(files), []);
    GoodDiffer(files);
    HeadsRebuild(files, files, d, inflate);
    SerialStands(files, serial, d);
    FoundWritten(files);
    ExtractParts(Found(files), d, files, serial, inflate);
    BuildsWhenExtracted(files, serial, inflate);
  }

  lemma GoodDiffer(files: seq<ConfigFile>)
    requires GoodFiles(files)
    ensures InodesDiffer(files)
  {
  }

  lemma ReturningBuilds(files: seq<ConfigFile>, serial: bytes, d: seq<Node>, i: nat, inflate: Inflate)
    requires Buildable(files, serial) && forall n :: n in Found(files) ==> !IsObsolete(n)
    requires Collect(Found(files), []) == Ok(d) && forall e :: e in d ==> !IsLiveBelowRoot(e)
    requires SerialReturns(LiveRoot(d), files, i, inflate)
    ensures BuildPreserved(files, inflate).Ok?
  {
    hide FitsFrom, PreservedRecords, Found, GoodFiles, HasSerial, Collect, Reconstruct, BuildPreserved, ExtractNodes,
      AllIntact, Heads, RecoverSerial, WithSerial, LiveRoot, ValidSerial, HistoricalSerial, SerialsAgree, Filter, Sort;
    var rest, payload := Without(files, i), files[i].data;
    var m := SerialPlace(files, serial);
    assert m == i;
    WithoutMembers(files, i);
    HeadsRebuild(files, rest, d, inflate);
    HistoricalFound(files, i);
    NoSerialLeft(files, i);
    NamesLeft(files, i);
    NoSerialHead(d, rest);
    NoLiveSerial(Found(files), d);
    var inode := FreshInode(InodesOf(rest), 2);
    RecoveredSet(files, i, RecoveredFile(inode, payload));
    FoundWritten(files);
    DeletedExtract(files, d, rest, RecoveredFile(inode, payload), inode, payload, inflate);
    AcceptedAsSet(files, serial, ExtractNodes(Found(files), true, true, inflate).value, inflate);
  }

  lemma NamesLeft(files: seq<ConfigFile>, i: nat)
    requires GoodFiles(files) && i < |files| && files[i].name == SERIAL_NAME
    ensures forall f :: f in Without(files, i) ==> f.name != SERIAL_NAME
  {
    hide Filter;
    NoSerialLeft(files, i);
    NoSerialNames(Without(files, i));
  }

  // ----- necessary -----

  /** The parts of a successful extraction. */
  lemma ExtractOpens(nodes: seq<Node>, inflate: Inflate)
    returns (d: seq<Node>, s: Serial, fs: seq<ConfigFile>, out: seq<ConfigFile>)
    requires ExtractNodes(nodes, true, true, inflate).Ok?
    ensures Collect(nodes, []) == Ok(d) && RecoverSerial(nodes, d) == Ok(s) && Reconstruct(nodes, d, inflate) == Ok(fs)
    ensures WithSerial(fs, s.payload) == Ok(out)
    ensures ExtractNodes(nodes, true, true, inflate).value.files == Some(out)
  {
    hide Collect, RecoverSerial, Reconstruct, WithSerial, Filter;
    d := Collect(nodes, []).value;
    s := RecoverSerial(nodes, d).value;
    fs := Reconstruct(nodes, d, inflate).value;
    out := WithSerial(fs, s.payload).value;
  }

  lemma BuiltIntact(files: seq<ConfigFile>, some: seq<ConfigFile>, d: seq<Node>, inflate: Inflate)
    requires AllPackable(files) && GoodFiles(files) && FitsFrom(PreservedRecords(files), 0)
    requires Reconstruct(Found(files), d, inflate) == Ok(some) && forall f :: f in some ==> f in files
    ensures Heads(LiveRoot(d), some) && AllIntact(Found(files), some, inflate)
    ensures forall e :: e in d ==> !IsLiveBelowRoot(e)
  {
    hide FitsFrom, PreservedRecords, Found, GoodFiles, Rebuild, Intact, Reconstruct, LiveRoot, SameHead;
    ReconstructedHeads(Found(files), d, inflate);
    forall f | f in some
      ensures Intact(Found(files), f, inflate)
    {
      var i :| 0 <= i < |some| && some[i] == f;
      var j :| 0 <= j < |files| && files[j] == f;
      assert SameHead(LiveRoot(d)[i].body, some[i]);
      HeadRebuilds(files, j, LiveRoot(d)[i], inflate);
    }
  }

  /** The files come back from live entries alone, or with a recovered serial.cfg. */
  lemma BuiltSurvives(files: seq<ConfigFile>, serial: bytes, inflate: Inflate)
    requires Buildable(files, serial) && BuildPreserved(files, inflate).Ok?
    ensures Survives(files, inflate)
  {
    hide FitsFrom, PreservedRecords, Found, GoodFiles, HasSerial, Collect, Reconstruct, BuildPreserved, ExtractNodes,
      AllIntact, Heads, RecoverSerial, WithSerial, LiveRoot, KeysDiffer, AllStand, SerialReturns, Filter;
    BuiltMeans(files, serial, inflate);
    var d, s, fs, out := ExtractOpens(Found(files), inflate);
    EmptyKeys();
    CollectKeepsKeys(Found(files), []);
    ReconstructGood(Found(files), d, inflate);
    if Filter(fs, IsSerialFile()) != [] {
      BuiltStanding(files, serial, d, s, fs, out, inflate);
    } else {
      var i := BuiltReturning(files, serial, d, s, fs, out, inflate);
    }
  }

  lemma BuiltStanding(files: seq<ConfigFile>, serial: bytes, d: seq<Node>, s: Serial, fs: seq<ConfigFile>,
                      out: seq<ConfigFile>, inflate: Inflate)
    requires Buildable(files, serial) && Collect(Found(files), []) == Ok(d) && KeysDiffer(d)
    requires RecoverSerial(Found(files), d) == Ok(s) && Reconstruct(Found(files), d, inflate) == Ok(fs)
    requires WithSerial(fs, s.payload) == Ok(out) && (forall f :: f in out <==> f in files)
    requires GoodFiles(fs) && Filter(fs, IsSerialFile()) != []
    ensures AllStand(Found(files), LiveRoot(d), files, inflate) && forall e :: e in d ==> !IsLiveBelowRoot(e)
  {
    hide FitsFrom, PreservedRecords, Found, HasSerial, Collect, Reconstruct, AllIntact, Heads, RecoverSerial, LiveRoot,
      KeysDiffer, SerialHeld, Filter, InOrder, InodesDiffer, GoodFile;
    assert out == fs;
    SameInOrder(fs, files);
    BuiltIntact(files, files, d, inflate);
    SerialStands(files, serial, d);
  }

  lemma BuiltReturning(files: seq<ConfigFile>, serial: bytes, d: seq<Node>, s: Serial, fs: seq<ConfigFile>,
                       out: seq<ConfigFile>, inflate: Inflate) returns (i: nat)
    requires Buildable(files, serial) && Collect(Found(files), []) == Ok(d)
    requires RecoverSerial(Found(files), d) == Ok(s) && Reconstruct(Found(files), d, inflate) == Ok(fs)
    requires WithSerial(fs, s.payload) == Ok(out) && (forall f :: f in out <==> f in files)
    requires GoodFiles(fs) && Filter(fs, IsSerialFile()) == []
    ensures SerialReturns(LiveRoot(d), files, i, inflate) && forall e :: e in d ==> !IsLiveBelowRoot(e)
  {
    hide FitsFrom, PreservedRecords, Found, HasSerial, Collect, Reconstruct, AllIntact, Heads, RecoverSerial, LiveRoot,
      Filter, InOrder, InodesDiffer, GoodFile, ValidSerial, HistoricalSerial, SerialsAgree, FreshInode, GoodFiles,
      InodesOf, Sort;
    var inode := FreshInode(InodesOf(fs), 2);
    var g := RecoveredFile(inode, s.payload);
    RecoveredMembers(fs, g, out);
    i := SerialPlace(files, serial);
    assert g in out;
    assert g in files;
    var j :| 0 <= j < |files| && files[j] == g;
    assert j == i;
    WithoutMembers(files, i);
    NoSerialNames(fs);
    GoodInOrder(fs);
    SameInOrder(fs, Without(files, i));
    BuiltIntact(files, fs, d, inflate);
    NoSerialHead(d, fs);
    NoLiveSerial(Found(files), d);
    HistoricalFound(files, i);
  }

  lemma NoSerialNames(fs: seq<ConfigFile>)
    requires Filter(fs, IsSerialFile()) == []
    ensures forall f :: f in fs ==> f.name != SERIAL_NAME
  {
    hide Filter;
    FilterMembers(fs, IsSerialFile());
    forall f | f in fs
      ensures f.name != SERIAL_NAME
    {
      assert IsSerialFile()(f) ==> f in Filter(fs, IsSerialFile());
    }
  }

  lemma RecoveredMembers(fs: seq<ConfigFile>, g: ConfigFile, out: seq<ConfigFile>)
    requires out == Sort(fs + [g], FileLe)
    ensures forall f :: f in out <==> f in fs || f == g
  {
    hide FileLe, Sort;
    SortKeeps(fs + [g], FileLe);
    SameMembers(fs + [g], out);
  }

  // ----- the outcome -----

  /**
   Whatever phantoms there are: the builder succeeds if and only if nothing found is obsolete, and the newest
   entries of everything found name exactly these files, each still reading byte for byte as it was written, or
   all but a serial.cfg that recovery writes again as it was.
   */
  lemma AnyPhantoms(files: seq<ConfigFile>, serial: bytes, inflate: Inflate)
    requires Buildable(files, serial)
    ensures BuildPreserved(files, inflate).Ok? <==>
            (forall n :: n in Found(files) ==> !IsObsolete(n)) && Survives(files, inflate)
  {
    hide FitsFrom, PreservedRecords, Found, GoodFiles, HasSerial, Collect, BuildPreserved, LiveRoot, AllStand,
      SerialReturns;
    if BuildPreserved(files, inflate).Ok? {
      BuiltSurvives(files, serial, inflate);
      if n :| n in Found(files) && IsObsolete(n) {
        ObsoleteRefused(files, serial, n, inflate);
      }
    } else if (forall n :: n in Found(files) ==> !IsObsolete(n)) && Survives(files, inflate) {
      var d := Collect(Found(files), []).value;
      if AllStand(Found(files), LiveRoot(d), files, inflate) {
        StandingBuilds(files, serial, d, inflate);
      } else {
        var i: nat :| SerialReturns(LiveRoot(d), files, i, inflate);
        ReturningBuilds(files, serial, d, i, inflate);
      }
    }
  }

  /**
   Compaction decided for every accepted log: its files are rebuilt if and only if they fit, nothing in the new
   partition is obsolete and they survive; and what is rebuilt reads back as exactly those files.
   */
  lemma CompactionDecided(config: bytes, inflate: Inflate)
    requires Extract(config, true, true, inflate).Ok?
    ensures var info := Extract(config, true, true, inflate).value;
            && info.files.Some? && AllPackable(info.files.value)
            && var files := info.files.value;
            && (BuildPreserved(files, inflate).Ok? <==>
                && FitsFrom(PreservedRecords(files), 0)
                && (forall n :: n in Found(files) ==> !IsObsolete(n)) && Survives(files, inflate))
            && (BuildPreserved(files, inflate).Ok? ==>
                  var back := Extract(BuildPreserved(files, inflate).value, true, true, inflate);
                  back.Ok? && back.value.files == Some(files))
  {
    hide Extract, PreservedRecords, FitsFrom, Found, Survives, BuildPreserved, Buildable, Sort, Filter;
    ExtractedBuildable(config, inflate);
    var info := Extract(config, true, true, inflate).value;
    var files := info.files.value;
    UnfitAndOrder(config, inflate);
    if FitsFrom(PreservedRecords(files), 0) {
      AnyPhantoms(files, info.serial.payload, inflate);
    }
    if BuildPreserved(files, inflate).Ok? {
      BuiltReadsBack(files, inflate);
    }
  }

  lemma UnfitAndOrder(config: bytes, inflate: Inflate)
    requires Extract(config, true, true, inflate).Ok?
    ensures var info := Extract(config, true, true, inflate).value;
            && info.files.Some? && AllPackable(info.files.value) && Sort(info.files.value, FileLe) == info.files.value
            && (!FitsFrom(PreservedRecords(info.files.value), 0) ==> BuildPreserved(info.files.value, inflate).Err?)
  {
    hide ExtractNodes, Scan, GoodFiles, HasSerial, PreservedRecords, FitsFrom, BuildPreserved, Sort;
    ExtractedFilesAreGood(Scan(config, 0), inflate);
    var files := Extract(config, true, true, inflate).value.files.value;
    GoodFilesArePackable(files);
    if !FitsFrom(PreservedRecords(files), 0) {
      UnfitRefused(files, inflate);
    }
  }
}

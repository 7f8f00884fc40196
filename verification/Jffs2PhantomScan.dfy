/**
 What the scan of a rebuilt partition holds besides the written nodes, and which of it extraction ignores:
 with phantoms of the ignored kinds, the builder fails exactly when one of them is obsolete.
 */
module Jffs2PhantomScan {
  import opened Bytes
  import opened Lists
  import opened Jffs2Node
  import opened Jffs2Log
  import opened Jffs2Config
  import opened Jffs2Build
  import opened Jffs2Compaction
  import opened Jffs2Obsolete
  import opened Jffs2Phantom

  // ----- the written nodes among the scanned ones -----

  function IsWritten(starts: set<nat>): Node -> bool {
    (n: Node) => n.offset in starts
  }

  /** The nodes found from one offset up to another. */
  function ScanTo(data: bytes, a: nat, b: nat): seq<Node>
    decreases b - a
  {
    if a >= b || a + 12 > |data| then [] else Listed(ParseAt(data, a)) + ScanTo(data, a + 4, b)
  }

  lemma {:induction false} ScanSplit(data: bytes, a: nat, b: nat)
    requires a <= b && a % 4 == 0 && b % 4 == 0
    ensures Scan(data, a) == ScanTo(data, a, b) + Scan(data, b)
    decreases b - a
  {
    hide ParseAt;
    if a < b && a + 12 <= |data| {
      ScanSplit(data, a + 4, b);
    }
  }

  lemma {:induction false} ScanOffsets(data: bytes, a: nat)
    ensures forall n :: n in Scan(data, a) ==> a <= n.offset
    decreases |data| - a
  {
    hide ParseAt;
    if a + 12 <= |data| {
      ScanOffsets(data, a + 4);
      if ParseAt(data, a).Some? {
        ParsedOffset(data, a);
      }
    }
  }

  lemma {:induction false} ScanToOffsets(data: bytes, a: nat, b: nat)
    ensures forall n :: n in ScanTo(data, a, b) ==> a <= n.offset < b
    decreases b - a
  {
    hide ParseAt;
    if a < b && a + 12 <= |data| {
      ScanToOffsets(data, a + 4, b);
      if ParseAt(data, a).Some? {
        ParsedOffset(data, a);
      }
    }
  }

  /** The record at an offset is found there, whatever is inside it. */
  lemma RecordFound(data: bytes, rec: bytes, at: nat)
    requires at % 4 == 0 && Whole(rec) && at + |rec| <= |data| && data[at..at + |rec|] == rec
    ensures at + 12 <= |data| && ParseAt(rec, 0).Some?
    ensures ParseAt(data, at) == Some(ParseAt(rec, 0).value.(offset := at))
  {
    hide ParseAt, HeaderStatus, Reads;
    assert rec[0..0 + |rec|] == rec;
    ParseAgree(rec, 0, data, at, |rec|);
  }

  /** Whatever else the scan finds, the nodes at the starts of records are the written ones. */
  lemma {:induction false} ScanWritten(data: bytes, recs: seq<bytes>, at: nat)
    requires AllWhole(recs) && at % 4 == 0 && at + |Log(recs)| <= |data|
    requires data[at..at + |Log(recs)|] == Log(recs)
    requires forall i :: at + |Log(recs)| <= i < |data| ==> data[i] == 0xFF
    ensures Filter(Scan(data, at), IsWritten(Starts(recs, at))) == NodesAt(recs, at)
    decreases |recs|
  {
    hide ParseAt, HeaderStatus, Reads, Scan, Whole, ScanTo;
    if recs == [] {
      ScanErased(data, at);
    } else {
      var rec, next := recs[0], at + Align4(|recs[0]|);
      LogParts(data, recs, at);
      FirstSize(recs);
      assert rec in recs;
      RecordFound(data, rec, at);
      ScanWritten(data, recs[1..], next);
      ScanPiece(data, recs, at, ParseAt(rec, 0).value.(offset := at));
    }
  }

  lemma ScanPiece(data: bytes, recs: seq<bytes>, at: nat, n: Node)
    requires recs != [] && |recs[0]| >= 12 && at % 4 == 0 && at + 12 <= |data| && ParseAt(data, at) == Some(n)
             && n.offset == at
    ensures var next := at + Align4(|recs[0]|);
            Filter(Scan(data, at), IsWritten(Starts(recs, at))) ==
            [n] + Filter(Scan(data, next), IsWritten(Starts(recs[1..], next)))
  {
    hide ParseAt, Scan, ScanTo;
    var next := at + Align4(|recs[0]|);
    var here, later := IsWritten(Starts(recs, at)), IsWritten(Starts(recs[1..], next));
    var between := ScanTo(data, at + 4, next);
    ScanUnfold(data, at);
    ScanSplit(data, at + 4, next);
    StartsFrom(recs[1..], next);
    ScanToOffsets(data, at + 4, next);
    ScanOffsets(data, next);
    assert Scan(data, at) == [n] + (between + Scan(data, next));
    FilterAppend([n], between + Scan(data, next), here);
    FilterAppend(between, Scan(data, next), here);
    FilterAll([n], here);
    FilterNone(between, here);
    FilterSame(Scan(data, next), here, later);
  }

  // ----- what extraction ignores -----

  /** Current nodes that extraction never looks at when it rebuilds these files. */
  ghost predicate Inert(n: Node, files: seq<ConfigFile>) {
    n.status.Current? && (n.body.CleanMarker? || n.body.Other?
      || (n.body.Inode? && forall f :: f in files ==> f.inode != n.body.inode))
  }

  lemma {:induction false} RebuildAllSame(n1: seq<Node>, n2: seq<Node>, live: seq<Node>, seen: set<u32>,
                                          inflate: Inflate)
    requires AllDirents(live) && forall d :: d in live ==> Fragments(n1, d.body.dinode) == Fragments(n2, d.body.dinode)
    ensures RebuildAll(n1, live, seen, inflate) == RebuildAll(n2, live, seen, inflate)
    decreases |live|
  {
    hide Fragments, Rebuild;
    if live != [] {
      assert live[0] in live && forall d :: d in live[1..] ==> d in live;
      FragmentsDecide(n1, n2, live[0], seen, inflate);
      RebuildAllSame(n1, n2, live[1..], seen + {live[0].body.dinode}, inflate);
    }
  }

  /** The candidates for the serial are among the fragments of its inode. */
  lemma SerialCandidates(n1: seq<Node>, n2: seq<Node>, inode: u32)
    requires Filter(n1, IsFragmentOf(inode)) == Filter(n2, IsFragmentOf(inode))
    ensures Filter(n1, IsLiveSerialOf(inode)) == Filter(n2, IsLiveSerialOf(inode))
  {
    FilterTwice(n1, IsFragmentOf(inode), IsLiveSerialOf(inode));
    FilterTwice(n2, IsFragmentOf(inode), IsLiveSerialOf(inode));
  }

  lemma LiveSerialSame(n1: seq<Node>, n2: seq<Node>, dict: seq<Node>)
    requires forall d :: d in dict && d.body.Dirent? ==>
               Filter(n1, IsFragmentOf(d.body.dinode)) == Filter(n2, IsFragmentOf(d.body.dinode))
    ensures LiveSerial(n1, dict) == LiveSerial(n2, dict)
  {
    hide ValidSerial;
    var entries := Filter(dict, SerialEntries());
    FilterMembers(dict, SerialEntries());
    if entries != [] && entries[0].body.Dirent? {
      assert entries[0] in entries;
      SerialCandidates(n1, n2, entries[0].body.dinode);
      LiveSerialsAreInodes(n1, entries[0].body.dinode);
    }
  }

  /** A log with the same entries and the same fragments of the files' inodes gives the same files and serial. */
  lemma ExtractSame(n1: seq<Node>, n2: seq<Node>, files: seq<ConfigFile>, serial: bytes, inflate: Inflate)
    requires AllPackable(files) && GoodFiles(files) && HasSerial(files, serial) && Rebuilt(n2, files) && n1 != []
    requires Filter(n1, IsCurrentDirent) == Filter(n2, IsCurrentDirent)
    requires forall f :: f in files ==> Filter(n1, IsFragmentOf(f.inode)) == Filter(n2, IsFragmentOf(f.inode))
    ensures ExtractNodes(n1, true, true, inflate) == Ok(Info(n1, Serial(serial, false), Some(files)))
  {
    hide GoodFiles, Reconstruct, Collect, WithSerial, RecoverSerial, LiveSerial, Rebuilt, Filter, ExtractNodes,
      EntriesOf, HasSerial;
    var dict := ReconstructBack(n2, files, inflate);
    CollectFiltered(n1, []);
    CollectFiltered(n2, []);
    EntriesFragments(n1, n2, files, dict);
    LiveSerialSame(n1, n2, dict);
    ReconstructSame(n1, n2, dict, inflate);
    SerialOf(n2, dict, files, serial);
    RecoverSame(n1, n2, dict);
    ExtractParts(n1, dict, files, serial, inflate);
  }

  /** The serial of the written nodes, and that adding it changes nothing. */
  lemma SerialOf(nodes: seq<Node>, dict: seq<Node>, files: seq<ConfigFile>, serial: bytes)
    requires AllPackable(files) && GoodFiles(files) && HasSerial(files, serial) && Rebuilt(nodes, files)
             && EntriesOf(dict, files)
    ensures RecoverSerial(nodes, dict) == Ok(Serial(serial, false)) && WithSerial(files, serial) == Ok(files)
  {
    var i :| 0 <= i < |files| && files[i].name == SERIAL_NAME && files[i].data == serial;
    hide GoodFiles, RecoverSerial, WithSerial, ValidSerial, Rebuilt, EntriesOf;
    SerialBack(nodes, dict, files, i);
    SerialKept(files, i);
  }

  lemma RecoverSame(n1: seq<Node>, n2: seq<Node>, dict: seq<Node>)
    requires LiveSerial(n1, dict) == LiveSerial(n2, dict)
    requires RecoverSerial(n2, dict).Ok? && !RecoverSerial(n2, dict).value.historical
    ensures RecoverSerial(n1, dict) == RecoverSerial(n2, dict)
  {
    hide LiveSerial, HistoricalSerial;
  }

  lemma ExtractParts(nodes: seq<Node>, dict: seq<Node>, files: seq<ConfigFile>, serial: bytes, inflate: Inflate)
    requires nodes != [] && Collect(nodes, []) == Ok(dict) && RecoverSerial(nodes, dict) == Ok(Serial(serial, false))
    requires Reconstruct(nodes, dict, inflate) == Ok(files) && WithSerial(files, serial) == Ok(files)
    ensures ExtractNodes(nodes, true, true, inflate) == Ok(Info(nodes, Serial(serial, false), Some(files)))
  {
    hide Collect, RecoverSerial, Reconstruct, WithSerial, Filter;
  }

  lemma EntriesFragments(n1: seq<Node>, n2: seq<Node>, files: seq<ConfigFile>, dict: seq<Node>)
    requires EntriesOf(dict, files)
    requires forall f :: f in files ==> Filter(n1, IsFragmentOf(f.inode)) == Filter(n2, IsFragmentOf(f.inode))
    ensures forall d :: d in dict && d.body.Dirent? ==>
              Filter(n1, IsFragmentOf(d.body.dinode)) == Filter(n2, IsFragmentOf(d.body.dinode))
  {
    forall d | d in dict && d.body.Dirent?
      ensures Filter(n1, IsFragmentOf(d.body.dinode)) == Filter(n2, IsFragmentOf(d.body.dinode))
    {
      var i :| 0 <= i < |dict| && dict[i] == d;
      assert IsEntryOf(dict[i], files[i]) && files[i] in files;
    }
  }

  lemma ReconstructSame(n1: seq<Node>, n2: seq<Node>, dict: seq<Node>, inflate: Inflate)
    requires forall d :: d in dict && d.body.Dirent? ==>
               Filter(n1, IsFragmentOf(d.body.dinode)) == Filter(n2, IsFragmentOf(d.body.dinode))
    ensures Reconstruct(n1, dict, inflate) == Reconstruct(n2, dict, inflate)
  {
    hide RebuildAll, LiveRoot, Filter, IsFragmentOf;
    LiveRootMembers(dict);
    forall d | d in LiveRoot(dict)
      ensures Fragments(n1, d.body.dinode) == Fragments(n2, d.body.dinode)
    {
    }
    RebuildAllSame(n1, n2, LiveRoot(dict), {}, inflate);
  }

  // ----- harmless phantoms -----

  /** A scanned node that was not written. */
  ghost predicate IsPhantom(n: Node, files: seq<ConfigFile>)
    requires AllPackable(files)
  {
    n.offset !in Starts(PreservedRecords(files), 0)
  }

  /** What the scan of the rebuilt partition finds. */
  ghost function Found(files: seq<ConfigFile>): seq<Node>
    requires AllPackable(files) && FitsFrom(PreservedRecords(files), 0)
  {
    Scan(RebuiltPartition(files), 0)
  }

  ghost function Written(files: seq<ConfigFile>): seq<Node>
    requires AllPackable(files)
  {
    RebuiltNodes(files);
    NodesAt(PreservedRecords(files), 0)
  }

  ghost predicate Buildable(files: seq<ConfigFile>, serial: bytes) {
    AllPackable(files) && GoodFiles(files) && HasSerial(files, serial) && FitsFrom(PreservedRecords(files), 0)
  }

  lemma FoundWritten(files: seq<ConfigFile>)
    requires AllPackable(files) && FitsFrom(PreservedRecords(files), 0)
    ensures Filter(Found(files), IsWritten(Starts(PreservedRecords(files), 0))) == Written(files)
    ensures Rebuilt(Written(files), files) && Found(files) != []
  {
    hide Scan, PreservedRecords, FitsFrom, Rebuilt, AllWhole, IsWritten;
    var recs := PreservedRecords(files);
    RebuiltNodes(files);
    FitsBound(recs, 0);
    var p := RebuiltPartition(files);
    assert p[0..0 + |Log(recs)|] == Log(recs);
    ScanWritten(p, recs, 0);
    WrittenNonempty(files);
  }

  lemma WrittenNonempty(files: seq<ConfigFile>)
    requires AllPackable(files)
    ensures Written(files) != []
  {
    RebuiltNodes(files);
  }

  /** A test that no phantom passes selects from the scan what it selects from the written nodes. */
  lemma OnlyWritten(files: seq<ConfigFile>, q: Node -> bool)
    requires AllPackable(files) && FitsFrom(PreservedRecords(files), 0)
    requires forall n :: n in Found(files) && IsPhantom(n, files) ==> !q(n)
    ensures Filter(Found(files), q) == Filter(Written(files), q)
  {
    hide PreservedRecords, FitsFrom, Found, Written;
    FoundWritten(files);
    FilterWithin(Found(files), IsWritten(Starts(PreservedRecords(files), 0)), q);
  }

  /** Written nodes are current. */
  lemma WrittenCurrent(files: seq<ConfigFile>, n: Node)
    requires AllPackable(files) && FitsFrom(PreservedRecords(files), 0) && n in Found(files) && !IsPhantom(n, files)
    ensures n.status.Current?
  {
    hide PreservedRecords, FitsFrom, Found, Written, Rebuilt;
    FoundWritten(files);
    FilterMembers(Found(files), IsWritten(Starts(PreservedRecords(files), 0)));
    AllCurrent(Written(files), files);
  }

  /** An obsolete node anywhere makes the final check fail. */
  lemma ObsoleteRefused(files: seq<ConfigFile>, serial: bytes, n: Node, inflate: Inflate)
    requires Buildable(files, serial) && n in Found(files) && n.status.Obsolete?
    ensures BuildPreserved(files, inflate).Err?
  {
    hide BuilderAccepts, FitsFrom, PreservedRecords, ExtractNodes, GoodFiles, HasSerial;
    GoodFilesArePackable(files);
    var built := RebuiltPartition(files);
    FilterMembers(Scan(built, 0), IsObsolete);
    assert n in Filter(Scan(built, 0), IsObsolete);
    if SelfCheck(built, files, inflate).Ok? {
      ExtractedNodes(built, inflate);
    }
  }

  /** When extraction gives the files back and nothing is obsolete, the builder succeeds. */
  lemma BuildsWhenExtracted(files: seq<ConfigFile>, serial: bytes, inflate: Inflate)
    requires Buildable(files, serial) && forall n :: n in Found(files) ==> !IsObsolete(n)
    requires ExtractNodes(Found(files), true, true, inflate) ==
             Ok(Info(Found(files), Serial(serial, false), Some(files)))
    ensures BuildPreserved(files, inflate) == Ok(RebuiltPartition(files))
    ensures Extract(RebuiltPartition(files), true, true, inflate)
         == Ok(Info(Found(files), Serial(serial, false), Some(files)))
  {
    hide BuilderAccepts, FitsFrom, PreservedRecords, ExtractNodes, GoodFiles, HasSerial, Scan;
    GoodFilesArePackable(files);
    GoodFilesAccepted(files, serial);
    FilterNone(Found(files), IsObsolete);
  }

  /**
   With phantoms of the ignored kinds only, beside obsolete ones, the builder succeeds if and only if nothing
   found is obsolete; and then extraction returns exactly the files and the serial.
   */
  lemma BuildsExactly(files: seq<ConfigFile>, serial: bytes, inflate: Inflate)
    requires Buildable(files, serial)
    requires forall n :: n in Found(files) && IsPhantom(n, files) ==> Inert(n, files) || n.status.Obsolete?
    ensures BuildPreserved(files, inflate).Ok? <==> forall n :: n in Found(files) ==> !IsObsolete(n)
    ensures BuildPreserved(files, inflate).Ok? ==>
              && BuildPreserved(files, inflate).value == RebuiltPartition(files)
              && Extract(RebuiltPartition(files), true, true, inflate)
                 == Ok(Info(Found(files), Serial(serial, false), Some(files)))
  {
    hide FitsFrom, PreservedRecords, GoodFiles, HasSerial, Found, Written, Rebuilt, Extract, ExtractNodes,
      BuildPreserved, RebuiltPartition;
    if n :| n in Found(files) && IsObsolete(n) {
      ObsoleteRefused(files, serial, n, inflate);
    } else {
      FoundWritten(files);
      OnlyWritten(files, IsCurrentDirent);
      forall f | f in files
        ensures Filter(Found(files), IsFragmentOf(f.inode)) == Filter(Written(files), IsFragmentOf(f.inode))
      {
        OnlyWritten(files, IsFragmentOf(f.inode));
      }
      ExtractSame(Found(files), Written(files), files, serial, inflate);
      BuildsWhenExtracted(files, serial, inflate);
    }
  }

  /** Whatever extraction accepts in preserve mode and fits is buildable. */
  lemma ExtractedBuildable(config: bytes, inflate: Inflate)
    requires Extract(config, true, true, inflate).Ok?
    ensures var info := Extract(config, true, true, inflate).value;
            && info.files.Some? && AllPackable(info.files.value)
            && (FitsFrom(PreservedRecords(info.files.value), 0) ==> Buildable(info.files.value, info.serial.payload))
  {
    hide ExtractNodes, Scan, GoodFiles, HasSerial, PreservedRecords, FitsFrom;
    ExtractedFilesAreGood(Scan(config, 0), inflate);
    GoodFilesArePackable(Extract(config, true, true, inflate).value.files.value);
  }

  /**
   Compaction of any accepted log whose files fit and whose only phantoms are of the ignored kinds or obsolete:
   it succeeds if and only if none is obsolete, and then preserves exactly the files and the serial.
   */
  lemma CompactionExactly(config: bytes, inflate: Inflate)
    requires Extract(config, true, true, inflate).Ok?
    ensures var info := Extract(config, true, true, inflate).value;
            && info.files.Some? && AllPackable(info.files.value)
            && var files := info.files.value;
            FitsFrom(PreservedRecords(files), 0)
            && (forall n :: n in Found(files) && IsPhantom(n, files) ==> Inert(n, files) || n.status.Obsolete?) ==>
              && (BuildPreserved(files, inflate).Ok? <==> forall n :: n in Found(files) ==> !IsObsolete(n))
              && (BuildPreserved(files, inflate).Ok? ==>
                    Extract(BuildPreserved(files, inflate).value, true, true, inflate)
                    == Ok(Info(Found(files), Serial(info.serial.payload, false), Some(files))))
  {
    hide Extract, PreservedRecords, FitsFrom, Found, IsPhantom, Inert, BuildPreserved, Buildable;
    ExtractedBuildable(config, inflate);
    var info := Extract(config, true, true, inflate).value;
    var files := info.files.value;
    if FitsFrom(PreservedRecords(files), 0)
       && forall n :: n in Found(files) && IsPhantom(n, files) ==> Inert(n, files) || n.status.Obsolete?
    {
      BuildsExactly(files, info.serial.payload, inflate);
    }
  }
}

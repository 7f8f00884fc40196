/** What a whole config partition says: exactly when it is accepted, its serial, and its files. */
module Jffs2Meaning {
  import opened Bytes
  import opened Lists
  import opened Jffs2Node
  import opened Jffs2Config
  import opened Jffs2Compaction
  import opened Jffs2Replay
  import opened Jffs2Obsolete
  import opened Jffs2Extract
  import opened Jffs2Serial

  // ----- completing the files -----

  /** The file that is added when no live name holds the serial. */
  predicate AddedSerial(r: ConfigFile, serial: bytes) {
    && r.name == Ascii("serial.cfg") && r.data == serial && r.mode == 0x81A4 && r.uid == r.gid == 0
    && r.atime == r.mtime == r.ctime == 18 && r.flags == 0 && r.direntMctime == 1 && r.dtype == 8
  }

  /** The smallest inode number from 2 on that no file has. */
  predicate FirstFree(files: seq<ConfigFile>, inode: nat) {
    && 2 <= inode < 0xFFFF_FFFF && (forall f :: f in files ==> f.inode != inode)
    && forall k {:trigger k in InodesOf(files)} :: 2 <= k < inode ==> k in InodesOf(files)
  }

  /** The live files, all with the recovered serial in serial.cfg; or the live files and one more, in name order. */
  ghost predicate Completed(live: seq<ConfigFile>, serial: bytes, files: seq<ConfigFile>) {
    if exists f :: f in live && f.name == Ascii("serial.cfg") then
      files == live && forall f :: f in live && f.name == Ascii("serial.cfg") ==> f.data == serial
    else
      InOrder(files) && exists r :: AddedSerial(r, serial) && FirstFree(live, r.inode)
                                    && forall f :: f in files <==> f in live || f == r
  }

  lemma NoSerial(live: seq<ConfigFile>)
    ensures Filter(live, IsSerialFile()) == [] <==> !exists f :: f in live && f.name == Ascii("serial.cfg")
  {
    TextExactly([]);
    hide Ascii, Filter;
    var found := Filter(live, IsSerialFile());
    FilterMembers(live, IsSerialFile());
    forall f
      ensures f in found <==> f in live && f.name == Ascii("serial.cfg")
    {
      assert IsSerialFile()(f) <==> f.name == SERIAL_NAME;
    }
    if found != [] {
      assert found[0] in found;
    }
  }

  /** There is at most one file of a name. */
  lemma OneSerial(live: seq<ConfigFile>, serial: bytes)
    requires InOrder(live) && Filter(live, IsSerialFile()) != []
    ensures Filter(live, IsSerialFile())[0].data == serial <==>
            forall f :: f in live && f.name == Ascii("serial.cfg") ==> f.data == serial
  {
    TextExactly([]);
    hide Ascii, Filter, LexLe;
    var found := Filter(live, IsSerialFile());
    FilterMembers(live, IsSerialFile());
    var g := found[0];
    assert g in found && IsSerialFile()(g);
    forall f | f in live && f.name == Ascii("serial.cfg")
      ensures f == g
    {
      var i :| 0 <= i < |live| && live[i] == f;
      var j :| 0 <= j < |live| && live[j] == g;
      assert i == j;
    }
  }

  lemma FreeExactly(live: seq<ConfigFile>, inode: nat)
    ensures FirstFree(live, inode) <==> inode < 0xFFFF_FFFF && inode == FreshInode(InodesOf(live), 2)
  {
    var found := FreshInode(InodesOf(live), 2);
    forall f | f in live
      ensures f.inode in InodesOf(live)
    {
    }
    if FirstFree(live, inode) {
      assert inode !in InodesOf(live);
      assert found < inode ==> found in InodesOf(live);
      assert inode < found ==> inode in InodesOf(live);
    }
  }

  lemma AddedExactly(r: ConfigFile, serial: bytes)
    ensures AddedSerial(r, serial) <==> r == RecoveredFile(r.inode, serial)
  {
    TextExactly([]);
    hide Ascii;
  }

  /** One list is in name order and has the live files and the added one. */
  lemma AddedInOrder(live: seq<ConfigFile>, serial: bytes, r: ConfigFile, files: seq<ConfigFile>)
    requires GoodFiles(live) && ValidSerial(serial) && Filter(live, IsSerialFile()) == []
    requires FreshInode(InodesOf(live), 2) < 0xFFFF_FFFF && r == RecoveredFile(FreshInode(InodesOf(live), 2), serial)
    ensures files == Sort(live + [r], FileLe) <==> InOrder(files) && forall f :: f in files <==> f in live || f == r
  {
    WithSerialGood(live, serial);
    hide ValidSerial, FreshInode, GoodFile, Sort, LexLe;
    var out := Sort(live + [r], FileLe);
    SortKeeps(live + [r], FileLe);
    SameMembers(live + [r], out);
    if InOrder(files) && forall f :: f in files <==> f in live || f == r {
      FilePreorder();
      SortSorted(live + [r], FileLe);
      SameSortedFiles(files, out);
    }
  }

  lemma CompletedExactly(live: seq<ConfigFile>, serial: bytes, files: seq<ConfigFile>)
    requires GoodFiles(live) && ValidSerial(serial)
    ensures WithSerial(live, serial) == Ok(files) <==> Completed(live, serial, files)
  {
    hide ValidSerial, Filter, FreshInode, GoodFile, AddedSerial, FirstFree, Ascii, Sort, RecoveredFile;
    NoSerial(live);
    if Filter(live, IsSerialFile()) != [] {
      OneSerial(live, serial);
    } else {
      var inode := FreshInode(InodesOf(live), 2);
      forall r: ConfigFile
        ensures AddedSerial(r, serial) && FirstFree(live, r.inode) <==>
                inode < 0xFFFF_FFFF && r == RecoveredFile(inode, serial)
      {
        AddedIs(live, serial, r);
      }
      if inode < 0xFFFF_FFFF {
        RecoveredInode(inode, serial);
        AddedInOrder(live, serial, RecoveredFile(inode, serial), files);
      }
    }
  }

  lemma RecoveredInode(inode: u32, serial: bytes)
    ensures RecoveredFile(inode, serial).inode == inode
  {
  }

  lemma AddedIs(live: seq<ConfigFile>, serial: bytes, r: ConfigFile)
    ensures var inode := FreshInode(InodesOf(live), 2);
            AddedSerial(r, serial) && FirstFree(live, r.inode) <==>
            inode < 0xFFFF_FFFF && r == RecoveredFile(inode, serial)
  {
    hide FreshInode, FirstFree, AddedSerial;
    FreeExactly(live, r.inode);
    AddedExactly(r, serial);
  }

  // ----- the whole log -----

  /** The six names of the strict mode. */
  predicate KnownName(name: bytes) {
    name in [Ascii("serial.cfg"), Ascii("uvc.attr"), Ascii("uvc2.attr"), Ascii("uvc.config"),
             Ascii("uvc_dualstream.config"), Ascii("dev_config.cfg")]
  }

  ghost predicate AllKnown(nodes: seq<Node>) {
    forall n :: n in nodes && n.body.Dirent? ==> KnownName(n.body.name)
  }

  lemma KnownExactly(nodes: seq<Node>)
    ensures Filter(nodes, IsUnknownDirent) == [] <==> AllKnown(nodes)
  {
    hide Filter, Ascii;
    var found := Filter(nodes, IsUnknownDirent);
    FilterMembers(nodes, IsUnknownDirent);
    if found != [] {
      assert found[0] in found;
    }
  }

  ghost predicate SerialIs(nodes: seq<Node>, s: Serial) {
    if s.historical then !LiveCopy(nodes) && AgreedText(nodes, s.payload) else LiveText(nodes, s.payload)
  }

  ghost predicate FilesAre(nodes: seq<Node>, serial: bytes, files: seq<ConfigFile>, inflate: Inflate) {
    && RootOnly(nodes)
    && exists live, ds :: Live(nodes, ds) && HoldsEach(nodes, ds, live, inflate) && Completed(live, serial, files)
  }

  /** What extract_serial_and_config_info says of a log. */
  ghost predicate Says(nodes: seq<Node>, allowUnknown: bool, preserve: bool, inflate: Inflate, info: Info) {
    && nodes != [] && (allowUnknown || AllKnown(nodes)) && NoTies(nodes)
    && info.nodes == nodes && SerialIs(nodes, info.serial)
    && match info.files
       case Some(files) => preserve && FilesAre(nodes, info.serial.payload, files, inflate)
       case None => !preserve
  }

  lemma FilesExactly(nodes: seq<Node>, dict: seq<Node>, serial: bytes, files: seq<ConfigFile>, inflate: Inflate)
    requires Collect(nodes, []) == Ok(dict) && KeysDiffer(dict) && NoTies(nodes) && ValidSerial(serial)
    ensures (Reconstruct(nodes, dict, inflate).Ok?
             && WithSerial(Reconstruct(nodes, dict, inflate).value, serial) == Ok(files))
            <==> FilesAre(nodes, serial, files, inflate)
  {
    hide Collect, Reconstruct, RootOnly, Live, HoldsEach, Completed, WithSerial, GoodFiles, NoTies, KeysDiffer,
      ValidSerial;
    var r := Reconstruct(nodes, dict, inflate);
    assert LiveFiles(nodes, inflate) == r;
    if r.Ok? {
      LiveFilesExactly(nodes, r.value, inflate);
      ReconstructGood(nodes, dict, inflate);
      CompletedExactly(r.value, serial, files);
    }
    if FilesAre(nodes, serial, files, inflate) {
      var live, ds :| Live(nodes, ds) && HoldsEach(nodes, ds, live, inflate) && Completed(live, serial, files);
      LiveFilesExactly(nodes, live, inflate);
    }
  }

  lemma SerialOf(nodes: seq<Node>, dict: seq<Node>, s: Serial)
    requires NoTies(nodes) && HoldsNewest(dict, nodes)
    ensures RecoverSerial(nodes, dict) == Ok(s) <==> SerialIs(nodes, s)
  {
    hide NoTies, HoldsNewest, RecoverSerial, LiveCopy, LiveText, AgreedText;
    SerialExactly(nodes, dict, s.payload);
  }

  /** Extraction succeeds with an answer if and only if the log says it. */
  lemma ExtractExactly(nodes: seq<Node>, allowUnknown: bool, preserve: bool, inflate: Inflate, info: Info)
    ensures ExtractNodes(nodes, allowUnknown, preserve, inflate) == Ok(info) <==>
            Says(nodes, allowUnknown, preserve, inflate, info)
  {
    hide Collect, Reconstruct, FilesAre, SerialIs, WithSerial, NoTies, RecoverSerial, AllKnown, Filter, IsUnknownDirent;
    KnownExactly(nodes);
    TiesDecide(nodes);
    if NoTies(nodes) {
      var dict := Collect(nodes, []).value;
      SerialOf(nodes, dict, info.serial);
      if RecoverSerial(nodes, dict) == Ok(info.serial) && info.files.Some? {
        RecoveredSerialValid(nodes, dict);
        FilesExactly(nodes, dict, info.serial.payload, info.files.value, inflate);
      }
    }
  }
}

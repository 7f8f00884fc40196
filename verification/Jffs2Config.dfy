/**
 Reading a config partition: the live directory entries, the replay of inode
 fragments by version, and the recovery of serial.cfg.
 */
module Jffs2Config {
  import opened Bytes
  import opened Lists
  import opened Jffs2Node
  import opened Jffs2Log

  datatype ConfigFile = ConfigFile(name: bytes, data: bytes, inode: u32, mode: u32, uid: u16, gid: u16,
                                   atime: u32, mtime: u32, ctime: u32, flags: u16, direntMctime: u32, dtype: byte)

  /** What zlib makes of a payload that is exactly one complete stream; nothing otherwise. */
  type Inflate = bytes -> Option<bytes>

  /** b"serial.cfg" */
  const SERIAL_NAME: bytes := [0x73, 0x65, 0x72, 0x69, 0x61, 0x6C, 0x2E, 0x63, 0x66, 0x67]

  // ----- directory entries -----

  predicate IsCurrentDirent(n: Node) {
    n.status.Current? && n.body.Dirent?
  }

  predicate SameEntry(a: Node, b: Node) {
    a.body.Dirent? && b.body.Dirent? && a.body.parent == b.body.parent && a.body.name == b.body.name
  }

  /** current_dirents[key] = node, in a dictionary that keeps insertion order. */
  function Put(dict: seq<Node>, n: Node): Result<seq<Node>>
    requires n.body.Dirent?
  {
    if dict == [] then Ok([n])
    else if SameEntry(dict[0], n) then
      if n.body.dversion == dict[0].body.dversion then Err("ambiguous current directory entries")
      else if n.body.dversion > dict[0].body.dversion then Ok([n] + dict[1..])
      else Ok(dict)
    else
      var rest :- Put(dict[1..], n);
      Ok([dict[0]] + rest)
  }

  function Collect(nodes: seq<Node>, dict: seq<Node>): Result<seq<Node>>
    decreases |nodes|
  {
    if nodes == [] then Ok(dict)
    else if !IsCurrentDirent(nodes[0]) then Collect(nodes[1..], dict)
    else
      var next :- Put(dict, nodes[0]);
      Collect(nodes[1..], next)
  }

  /** The loop over valid_dirents. */
  method CollectDirents(nodes: seq<Node>) returns (r: Result<seq<Node>>)
    ensures r == Collect(nodes, [])
  {
    hide Put;
    var dict := [];
    for i := 0 to |nodes|
      invariant Collect(nodes[i..], dict) == Collect(nodes, [])
    {
      assert nodes[i..][1..] == nodes[i + 1..];
      if IsCurrentDirent(nodes[i]) {
        var next := Put(dict, nodes[i]);
        if next.Err? {
          return Err(next.reason);
        }
        dict := next.value;
      }
    }
    return Ok(dict);
  }

  predicate IsLive(d: Node) {
    d.body.Dirent? && d.body.parent == 1 && d.body.dinode != 0
  }

  predicate IsLiveBelowRoot(d: Node) {
    d.body.Dirent? && d.body.parent != 1 && d.body.dinode != 0
  }

  function NameOf(n: Node): bytes {
    if n.body.Dirent? then n.body.name else []
  }

  predicate NameLe(a: Node, b: Node) {
    LexLe(NameOf(a), NameOf(b))
  }

  /** The live entries of the root directory in name order. */
  function LiveRoot(dict: seq<Node>): seq<Node> {
    Sort(Filter(dict, IsLive), NameLe)
  }

  // ----- fragments -----

  function IsFragmentOf(inode: u32): Node -> bool {
    (n: Node) => n.status.Current? && n.body.Inode? && n.body.inode == inode
  }

  function VersionOf(n: Node): nat {
    if n.body.Inode? then n.body.version else 0
  }

  predicate VersionLe(a: Node, b: Node) {
    VersionOf(a) <= VersionOf(b)
  }

  /** The current fragments of an inode, oldest version first, log order among equals. */
  function Fragments(nodes: seq<Node>, inode: u32): seq<Node> {
    Sort(Filter(nodes, IsFragmentOf(inode)), VersionLe)
  }

  /** decode_jffs2_fragment. */
  function Decode(b: Body, inflate: Inflate): Result<bytes>
    requires b.Inode?
  {
    if b.dsize > CONFIG_SIZE then Err("fragment larger than the config partition")
    else if b.compression == 0 then
      if |b.payload| == b.dsize then Ok(b.payload) else Err("decompressed-size mismatch")
    else if b.compression == 1 then
      if b.csize != 0 then Err("malformed zero compression") else Ok(Repeat(0, b.dsize))
    else if b.compression == 6 then
      var plain := inflate(b.payload);
      if plain.None? then Err("invalid JFFS2 zlib data")
      else if |plain.value| != b.dsize then Err("decompressed-size mismatch")
      else Ok(plain.value)
    else Err("unsupported JFFS2 compression")
  }

  /** data[start:end] = decoded[: end - start], for a fragment that starts inside the file. */
  function Overlay(data: bytes, start: nat, decoded: bytes): (r: bytes)
    ensures |r| == |data|
  {
    if start >= |data| || decoded == [] then data
    else Splice(data, start, decoded[..Min(start + |decoded|, |data|) - start])
  }

  predicate AllInodes(frags: seq<Node>) {
    forall n :: n in frags ==> n.body.Inode?
  }

  function Replay(data: bytes, frags: seq<Node>, inflate: Inflate): Result<bytes>
    requires AllInodes(frags)
    decreases |frags|
  {
    if frags == [] then Ok(data)
    else
      assert frags[0] in frags;
      var decoded :- Decode(frags[0].body, inflate);
      Replay(Overlay(data, frags[0].body.fileOffset, decoded), frags[1..], inflate)
  }

  /** The inner loop of reconstruct_live_config_files, over a mutable buffer. */
  method ReplayFragments(size: nat, frags: seq<Node>, inflate: Inflate) returns (r: Result<bytes>)
    requires AllInodes(frags)
    ensures r == Replay(Repeat(0, size), frags, inflate)
  {
    hide Decode, Overlay;
    var data: array<byte> := new byte[size](_ => 0);
    ghost var whole := Replay(Repeat(0, size), frags, inflate);
    assert data[..] == Repeat(0, size) && frags[0..] == frags;
    assert whole == Replay(data[..], frags[0..], inflate);
    for i := 0 to |frags|
      invariant AllInodes(frags[i..])
      invariant Replay(data[..], frags[i..], inflate) == whole
    {
      assert frags[i] in frags && frags[i..][1..] == frags[i + 1..] && frags[i..][0] == frags[i];
      var decoded := Decode(frags[i].body, inflate);
      if decoded.Err? {
        return Err(decoded.reason);
      }
      OverlayInPlace(data, frags[i].body.fileOffset, decoded.value);
    }
    assert frags[|frags|..] == [];
    return Ok(data[..]);
  }

  method OverlayInPlace(data: array<byte>, start: nat, decoded: bytes)
    modifies data
    ensures data[..] == Overlay(old(data[..]), start, decoded)
  {
    if start >= data.Length || |decoded| == 0 {
      return;
    }
    var end := Min(start + |decoded|, data.Length);
    PutAll(data, start, decoded[..end - start]);
  }

  // ----- whole files -----

  predicate SafeName(name: bytes) {
    0 < |name| <= 255 && 0x2F !in name && 0 !in name
  }

  function NewestVersion(frags: seq<Node>): Node
    requires frags != []
  {
    frags[|frags| - 1]
  }

  function HasVersion(v: u32): Node -> bool {
    (n: Node) => n.body.Inode? && n.body.version == v
  }

  function FileOf(d: Node, meta: Body, data: bytes): ConfigFile
    requires d.body.Dirent? && meta.Inode?
  {
    ConfigFile(d.body.name, data, d.body.dinode, meta.mode, meta.uid, meta.gid, meta.atime, meta.mtime, meta.ctime,
               meta.flags, d.body.mctime, d.body.dtype)
  }

  lemma FragmentsAreInodes(nodes: seq<Node>, inode: u32)
    ensures AllInodes(Fragments(nodes, inode))
    ensures forall n :: n in Fragments(nodes, inode) <==> n in nodes && IsFragmentOf(inode)(n)
  {
    var picked := Filter(nodes, IsFragmentOf(inode));
    FilterMembers(nodes, IsFragmentOf(inode));
    SortKeeps(picked, VersionLe);
    SameMembers(picked, Fragments(nodes, inode));
  }

  /** One live name becomes one file. */
  function Rebuild(nodes: seq<Node>, d: Node, seen: set<u32>, inflate: Inflate): Result<ConfigFile>
    requires d.body.Dirent?
  {
    var inode := d.body.dinode;
    if !SafeName(d.body.name) || d.body.dtype != 8 then Err("cannot safely recreate config entry")
    else if inode <= 1 then Err("invalid inode number")
    else if inode in seen then Err("multiple live names for one inode")
    else
      FragmentsAreInodes(nodes, inode);
      var frags := Fragments(nodes, inode);
      if frags == [] then Err("no CRC-valid current inode")
      else
        var meta := NewestVersion(frags).body;
        assert NewestVersion(frags) in frags;
        if |Filter(frags, HasVersion(meta.version))| != 1 then Err("ambiguous newest metadata")
        else if meta.mode / 0x1000 % 0x10 != 8 then Err("supports only regular files")
        else if meta.fileSize > CONFIG_SIZE then Err("impossible size")
        else
          var data :- Replay(Repeat(0, meta.fileSize), frags, inflate);
          Ok(FileOf(d, meta, data))
  }

  predicate AllDirents(ds: seq<Node>) {
    forall d :: d in ds ==> d.body.Dirent?
  }

  function RebuildAll(nodes: seq<Node>, live: seq<Node>, seen: set<u32>, inflate: Inflate): Result<seq<ConfigFile>>
    requires AllDirents(live)
    decreases |live|
  {
    if live == [] then Ok([])
    else
      assert live[0] in live;
      var f :- Rebuild(nodes, live[0], seen, inflate);
      var rest :- RebuildAll(nodes, live[1..], seen + {live[0].body.dinode}, inflate);
      Ok([f] + rest)
  }

  lemma LiveRootMembers(dict: seq<Node>)
    ensures AllDirents(LiveRoot(dict))
    ensures forall d :: d in LiveRoot(dict) <==> d in dict && IsLive(d)
  {
    var picked := Filter(dict, IsLive);
    FilterMembers(dict, IsLive);
    SortKeeps(picked, NameLe);
    SameMembers(picked, LiveRoot(dict));
  }

  function Reconstruct(nodes: seq<Node>, dict: seq<Node>, inflate: Inflate): Result<seq<ConfigFile>> {
    LiveRootMembers(dict);
    if Filter(dict, IsLiveBelowRoot) != [] then Err("does not support live config subdirectories")
    else RebuildAll(nodes, LiveRoot(dict), {}, inflate)
  }

  /** reconstruct_live_config_files: the loop over the live names. */
  method ReconstructLiveConfigFiles(nodes: seq<Node>, dict: seq<Node>, inflate: Inflate)
    returns (r: Result<seq<ConfigFile>>)
    ensures r == Reconstruct(nodes, dict, inflate)
  {
    hide Rebuild, LiveRoot, Filter;
    if Filter(dict, IsLiveBelowRoot) != [] {
      return Err("does not support live config subdirectories");
    }
    LiveRootMembers(dict);
    var live, files, seen := LiveRoot(dict), [], {};
    ghost var whole := RebuildAll(nodes, live, {}, inflate);
    assert live[0..] == live && (whole.Ok? ==> [] + whole.value == whole.value);
    for i := 0 to |live|
      invariant AllDirents(live[i..])
      invariant var rest := RebuildAll(nodes, live[i..], seen, inflate);
                if rest.Err? then whole == rest else whole == Ok(files + rest.value)
    {
      assert live[i] in live && live[i..][0] == live[i] && live[i..][1..] == live[i + 1..];
      var f := Rebuild(nodes, live[i], seen, inflate);
      if f.Err? {
        return Err(f.reason);
      }
      ghost var rest := RebuildAll(nodes, live[i + 1..], seen + {live[i].body.dinode}, inflate);
      assert rest.Ok? ==> files + ([f.value] + rest.value) == (files + [f.value]) + rest.value;
      files := files + [f.value];
      seen := seen + {live[i].body.dinode};
    }
    assert live[|live|..] == [] && files + [] == files;
    return Ok(files);
  }

  // ----- serial.cfg -----

  /** b"serial=12PSSSS" */
  const SERIAL_PREFIX: bytes := [0x73, 0x65, 0x72, 0x69, 0x61, 0x6C, 0x3D, 0x31, 0x32, 0x50, 0x53, 0x53, 0x53, 0x53]

  predicate IsUpperOrDigit(b: byte) {
    0x41 <= b <= 0x5A || 0x30 <= b <= 0x39
  }

  /** SERIAL_PATTERN: the prefix, one of 3, 4 and 5, 28 capitals or digits, a newline. */
  predicate ValidSerial(p: bytes) {
    && |p| == 44 && p[..14] == SERIAL_PREFIX && 0x33 <= p[14] <= 0x35
    && (forall i :: 15 <= i < 43 ==> IsUpperOrDigit(p[i]))
    && p[43] == 0x0A
  }

  /** An inode node that holds a complete, uncompressed serial.cfg. */
  predicate HoldsSerial(n: Node) {
    && n.body.Inode? && n.body.fileOffset == 0 && n.body.compression == 0
    && n.body.csize == n.body.dsize && n.body.fileSize == n.body.dsize && ValidSerial(n.body.payload)
  }

  function IsLiveSerialOf(inode: u32): Node -> bool {
    (n: Node) => n.status.Current? && HoldsSerial(n) && n.body.inode == inode
  }

  function MaxVersion(ns: seq<Node>): (v: u32)
    requires ns != [] && AllInodes(ns)
    ensures exists n :: n in ns && n.body.version == v
    ensures forall n :: n in ns ==> n.body.version <= v
  {
    assert ns[0] in ns;
    if |ns| == 1 then ns[0].body.version
    else
      assert ns == [ns[0]] + ns[1..];
      var rest := MaxVersion(ns[1..]);
      if ns[0].body.version >= rest then ns[0].body.version else rest
  }

  lemma LiveSerialsAreInodes(nodes: seq<Node>, inode: u32)
    ensures AllInodes(Filter(nodes, IsLiveSerialOf(inode)))
  {
    FilterMembers(nodes, IsLiveSerialOf(inode));
    forall n | n in Filter(nodes, IsLiveSerialOf(inode))
      ensures n.body.Inode?
    {
      assert IsLiveSerialOf(inode)(n);
    }
  }

  function SerialEntries(): Node -> bool {
    (d: Node) => IsLive(d) && d.body.name == SERIAL_NAME
  }

  /** The serial of the live serial.cfg entry: the newest complete inode, which must be unique. */
  function LiveSerial(nodes: seq<Node>, dict: seq<Node>): Result<Option<bytes>> {
    var entries := Filter(dict, SerialEntries());
    if entries == [] || !entries[0].body.Dirent? then Ok(None)
    else
      var inode := entries[0].body.dinode;
      LiveSerialsAreInodes(nodes, inode);
      var candidates := Filter(nodes, IsLiveSerialOf(inode));
      if candidates == [] then Ok(None)
      else
        var newest := Filter(candidates, HasVersion(MaxVersion(candidates)));
        if |newest| != 1 || !newest[0].body.Inode? then Err("multiple equally current serial.cfg inode candidates")
        else Ok(Some(newest[0].body.payload))
  }

  predicate AllHold(ns: seq<Node>, payload: bytes) {
    forall n :: n in ns ==> n.body.Inode? && n.body.payload == payload
  }

  /** The fallback: every serial-looking inode ever written must agree. */
  function HistoricalSerial(nodes: seq<Node>): Result<bytes> {
    var holders := Filter(nodes, HoldsSerial);
    if holders != [] && holders[0].body.Inode? && AllHold(holders, holders[0].body.payload)
    then Ok(holders[0].body.payload)
    else Err("could not recover exactly one unambiguous serial.cfg payload")
  }

  datatype Serial = Serial(payload: bytes, historical: bool)

  function RecoverSerial(nodes: seq<Node>, dict: seq<Node>): Result<Serial> {
    var live :- LiveSerial(nodes, dict);
    if live.Some? then Ok(Serial(live.value, false))
    else
      var payload :- HistoricalSerial(nodes);
      Ok(Serial(payload, true))
  }

  // ----- the whole extraction -----

  /** The first inode number from a bound on that no live file uses. */
  function FreshInode(used: set<u32>, from: nat): (inode: nat)
    ensures from <= inode && inode !in used
    ensures forall k :: from <= k < inode ==> k in used
    decreases |used|
  {
    if from in used then
      var inode := FreshInode(used - {from}, from + 1);
      assert forall k :: from < k < inode ==> k in used by {
        forall k | from < k < inode
          ensures k in used
        {
          assert k in used - {from};
        }
      }
      inode
    else from
  }

  function InodesOf(files: seq<ConfigFile>): set<u32> {
    set f | f in files :: f.inode
  }

  predicate FileLe(a: ConfigFile, b: ConfigFile) {
    LexLe(a.name, b.name)
  }

  function IsSerialFile(): ConfigFile -> bool {
    (f: ConfigFile) => f.name == SERIAL_NAME
  }

  function RecoveredFile(inode: u32, payload: bytes): ConfigFile {
    ConfigFile(SERIAL_NAME, payload, inode, 0x81A4, 0, 0, 18, 18, 18, 0, 1, 8)
  }

  /** Preserve mode: the live files, completed by the recovered serial when it has no live name. */
  function WithSerial(files: seq<ConfigFile>, serial: bytes): Result<seq<ConfigFile>> {
    var live := Filter(files, IsSerialFile());
    if live == [] then
      var inode := FreshInode(InodesOf(files), 2);
      if inode >= 0xFFFF_FFFF then Err("no free inode number")
      else Ok(Sort(files + [RecoveredFile(inode, serial)], FileLe))
    else if live[0].data != serial then Err("live serial.cfg content differs from the recovered serial")
    else Ok(files)
  }

  datatype Info = Info(nodes: seq<Node>, serial: Serial, files: Option<seq<ConfigFile>>)

  predicate IsUnknownDirent(n: Node) {
    n.body.Dirent? && n.body.name !in KnownNames()
  }

  /** KNOWN_CONFIG_NAMES */
  function KnownNames(): set<bytes> {
    {Ascii("serial.cfg"), Ascii("uvc.attr"), Ascii("uvc2.attr"), Ascii("uvc.config"), Ascii("uvc_dualstream.config"),
     Ascii("dev_config.cfg")}
  }

  /** extract_serial_and_config_info after the scan. */
  function ExtractNodes(nodes: seq<Node>, allowUnknown: bool, preserve: bool, inflate: Inflate): Result<Info> {
    if nodes == [] then Err("no CRC-valid JFFS2 nodes")
    else if !allowUnknown && Filter(nodes, IsUnknownDirent) != [] then Err("unexpected CRC-valid names")
    else
      var dict :- Collect(nodes, []);
      var serial :- RecoverSerial(nodes, dict);
      if !preserve then Ok(Info(nodes, serial, None))
      else
        var live :- Reconstruct(nodes, dict, inflate);
        var files :- WithSerial(live, serial.payload);
        Ok(Info(nodes, serial, Some(files)))
  }

  /** extract_serial_and_config_info. */
  function Extract(config: bytes, allowUnknown: bool, preserve: bool, inflate: Inflate): Result<Info> {
    ExtractNodes(Scan(config, 0), allowUnknown, preserve, inflate)
  }
}

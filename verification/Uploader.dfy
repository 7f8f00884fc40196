/**
 The Linux-side file uploader: its session as a value, one transition function per
 0x3xxx command, and the class whose methods mutate the daemon's globals in place.
 */
module Uploader {
  import opened Bytes
  import opened CStrings
  import opened NormalReport

  const CAPACITY: nat := 0x0100_0200
  const PATH_SIZE: nat := 128

  const ST_OK: u32 := 0
  const ST_FAIL: u32 := 1
  const ST_BAD_REPORT_ID: u32 := 2
  const ST_BAD_MAGIC: u32 := 3
  const ST_BAD_CRC: u32 := 4
  const ST_UNKNOWN_GROUP: u32 := 5

  datatype UploadState = Idle | NeedTarget | Receiving | Ready | Error

  /** The uploader's globals; data is the filled part of the receive buffer while one is allocated. */
  datatype Session = Session(
    state: UploadState, data: Option<bytes>, capacity: u32, used: u32, last: u32,
    target: Option<bytes>, sawFinal: bool, files: map<bytes, bytes>)

  datatype Disk = CannotOpen | Short(written: nat) | Writes

  /** What the system does during a command: malloc, the sensor's own path, and the file system. */
  datatype Env = Env(allocates: bool, derived: Option<bytes>, disk: Disk)

  /** The new session and the status replied, if any. */
  datatype Outcome = Outcome(next: Session, status: Option<u32>)

  /** The destination a payload names: a C string, cut again at its first space. */
  function TargetOf(payload: bytes): bytes {
    Until(Until(payload, 0), 0x20)
  }

  predicate LiteralTarget(command: u16) {
    command in {0x3110, 0x3111, 0x3112, 0x3113, 0x3116, 0x3120, 0x3150, 0x31f0}
  }

  // ----- the commands as functions -----

  function Began(s: Session, allocates: bool): Option<Session> {
    if s.data.None? && !allocates then None
    else Some(s.(data := Some([]), capacity := CAPACITY, used := 0, last := 0, target := None, sawFinal := false))
  }

  /** Sequence numbers 0 and 1 are always in order; the sum is a 32-bit one. */
  predicate Fits(s: Session, f: Frame) {
    && (f.status >= 2 ==> f.status == Wrap32(s.last as int + 1))
    && Wrap32(s.used as int + |f.payload|) <= s.capacity
  }

  function Appended(s: Session, f: Frame): Session
    requires s.data.Some? && |f.payload| < 0x1_0000
  {
    s.(data := Some(s.data.value + f.payload), used := Wrap32(s.used as int + |f.payload|), last := f.status,
    sawFinal := s.sawFinal || f.frameType == 2, state := if f.frameType == 2 then Ready else s.state)
  }

  /** upload_commit: remove, create, write, release the buffer. */
  function Committed(s: Session, disk: Disk): Outcome
    requires s.sawFinal ==> s.data.Some? && s.target.Some?
  {
    if !s.sawFinal then Outcome(s, Some(ST_FAIL))
    else
      var at := s.target.value;
      if disk.CannotOpen? then Outcome(s.(files := s.files - {at}), Some(ST_FAIL))
      else if disk.Short? && disk.written < |s.data.value| then
        Outcome(s.(files := s.files[at := s.data.value[..disk.written]]), Some(ST_FAIL))
      else Outcome(s.(files := s.files[at := s.data.value], data := None), Some(ST_OK))
  }

  /** Lengths stay inside the path buffer, and the buffer a packet is copied to or a file written from exists. */
  predicate InBounds(s: Session, f: Frame, env: Env) {
    && |f.payload| <= PAYLOAD_MAX
    && (LiteralTarget(f.command) && s.state == NeedTarget ==> |f.payload| < PATH_SIZE)
    && (f.command in {0x3114, 0x3115} && s.state == NeedTarget && env.derived.Some? ==> |env.derived.value| < PATH_SIZE)
    && (f.command == 0x3200 && s.state in {Receiving, Error} && Fits(s, f) ==>
          s.data.Some? && s.used as int + |f.payload| <= CAPACITY)
    && (f.command == 0x3300 && s.state in {Ready, Error} && s.sawFinal ==> s.data.Some? && s.target.Some?)
  }

  /** dispatch_upload; an unknown command gets no reply. */
  function Step(s: Session, f: Frame, env: Env): Outcome
    requires InBounds(s, f, env)
  {
    if f.command == 0x3000 then
      if s.state != Idle then Outcome(s, Some(ST_OK))
      else
        var begun := Began(s, env.allocates);
        if begun.None? then Outcome(s, Some(ST_FAIL)) else Outcome(begun.value.(state := NeedTarget), Some(ST_OK))
    else if LiteralTarget(f.command) then
      if s.state != NeedTarget then Outcome(s, Some(ST_OK))
      else Outcome(s.(target := Some(TargetOf(f.payload)), state := Receiving), Some(ST_OK))
    else if f.command in {0x3114, 0x3115} then
      if s.state != NeedTarget then Outcome(s, Some(ST_OK))
      else if env.derived.None? then Outcome(s, Some(ST_FAIL))
      else Outcome(s.(target := Some(Until(env.derived.value, 0)), state := Receiving), Some(ST_OK))
    else if f.command == 0x3200 then
      if s.state !in {Receiving, Error} then Outcome(s, Some(ST_OK))
      else if !Fits(s, f) then Outcome(s.(state := Error), Some(ST_FAIL))
      else Outcome(Appended(s, f), Some(ST_OK))
    else if f.command == 0x3300 then
      if s.state !in {Ready, Error} then Outcome(s, Some(ST_OK))
      else
        var done := Committed(s, env.disk);
        if done.status == Some(ST_FAIL) then Outcome(done.next.(state := Error, data := None), Some(ST_FAIL))
        else Outcome(done.next.(state := Idle), Some(ST_OK))
    else Outcome(s, None)
  }

  lemma SpliceExtends(buffer: bytes, used: nat, piece: bytes)
    requires used + |piece| <= |buffer|
    ensures Splice(buffer, used, piece)[..used + |piece|] == buffer[..used] + piece
  {
  }

  // ----- C strings -----

  lemma {:induction false} UntilTwice(data: bytes, n: nat)
    requires n <= |data| && (forall i :: 0 <= i < n ==> data[i] != 0 && data[i] != 0x20)
    requires n == |data| || data[n] == 0 || data[n] == 0x20
    ensures TargetOf(data) == data[..n]
  {
    if n > 0 {
      UntilTwice(data[1..], n - 1);
      var cut := Until(data, 0);
      assert cut[0] == data[0] && cut[1..] == Until(data[1..], 0);
      assert data[..n] == [data[0]] + data[1..][..n - 1];
    }
  }

  // ----- the daemon -----

  datatype Reply = Silent | Sent(report: bytes) | OtherGroup

  function Response(command: u16, status: u32): bytes {
    Report(ResponseFrame(command, status, 0, []))
  }

  class Daemon {
    var state: UploadState
    var data: array?<byte>
    var capacity: u32
    var used: u32
    var last: u32
    var hasDestination: bool
    var sawFinal: bool
    const path: array<byte>
    var files: map<bytes, bytes>

    ghost predicate Valid()
      reads this, path
    {
      && path.Length == PATH_SIZE && path[PATH_SIZE - 1] == 0
      && (data != null ==> data.Length == CAPACITY && data != path && used <= CAPACITY)
    }

    ghost function Abs(): Session
      reads this, data, path
      requires Valid()
    {
      Session(state, if data == null then None else Some(data[..used]), capacity, used, last,
              if hasDestination then Some(Until(path[..], 0)) else None, sawFinal, files)
    }

    constructor (files: map<bytes, bytes>)
      ensures Valid() && fresh(path)
      ensures Abs() == Session(Idle, None, 0, 0, 0, None, false, files)
    {
      state, data := Idle, null;
      capacity, used, last := 0, 0, 0;
      hasDestination, sawFinal := false, false;
      path := new byte[PATH_SIZE](_ => 0);
      this.files := files;
    }

    method UploadInit(allocates: bool) returns (ok: bool)
      requires Valid()
      modifies this
      ensures Valid() && (data == old(data) || fresh(data))
      ensures ok == Began(old(Abs()), allocates).Some?
      ensures Abs() == if ok then Began(old(Abs()), allocates).value else old(Abs())
    {
      if data == null && allocates {
        data := new byte[CAPACITY];
      }
      if data == null {
        return false;
      }
      capacity := CAPACITY;
      used, last := 0, 0;
      hasDestination, sawFinal := false, false;
      return true;
    }

    method UploadAppend(f: Frame) returns (ok: bool)
      requires Valid() && |f.payload| < 0x1_0000
      requires Fits(Abs(), f) ==> data != null && used as int + |f.payload| <= CAPACITY
      modifies this, data
      ensures Valid() && data == old(data)
      ensures ok == Fits(old(Abs()), f)
      ensures Abs() == if ok then Appended(old(Abs()), f) else old(Abs())
    {
      hide Splice, Until;
      var sequence, length := f.status, |f.payload|;
      if sequence >= 2 && sequence != Wrap32(last as int + 1) {
        return false;
      }
      if Wrap32(used as int + length) > capacity {
        return false;
      }
      SpliceExtends(data[..], used, f.payload);
      PutAll(data, used, f.payload);
      assert data[..used as int + length] == old(data[..used]) + f.payload;
      if f.frameType == 2 {
        sawFinal := true;
        state := Ready;
      }
      used := Wrap32(used as int + length);
      last := sequence;
      return true;
    }

    /** strchr(path, ' ') within the C string, which is cut there. */
    method CutAtSpace()
      requires Valid()
      modifies path
      ensures Valid() && Until(path[..], 0) == TargetOf(old(path[..]))
    {
      var i := 0;
      while path[i] != 0 && path[i] != 0x20
        invariant 0 <= i < PATH_SIZE
        decreases PATH_SIZE - i
        invariant forall k :: 0 <= k < i ==> path[k] != 0 && path[k] != 0x20
      {
        i := i + 1;
      }
      UntilTwice(path[..], i);
      if path[i] == 0x20 {
        path[i] := 0;
      }
      UntilIs(path[..], 0, i);
    }

    /** The literal destination: clear, copy, cut at the first space. */
    method SetTarget(payload: bytes)
      requires Valid() && |payload| < PATH_SIZE
      modifies this, path
      ensures Valid()
      ensures data == old(data)
      ensures Abs() == old(Abs()).(target := Some(TargetOf(payload)))
    {
      hide Until;
      forall i | 0 <= i < PATH_SIZE {
        path[i] := 0;
      }
      PutAll(path, 0, payload);
      assert path[..] == payload + Repeat(0, PATH_SIZE - |payload|);
      UntilPadded(payload, 0, Repeat(0, PATH_SIZE - |payload|));
      assert TargetOf(path[..]) == TargetOf(payload);
      CutAtSpace();
      assert Until(path[..], 0) == TargetOf(payload);
      assert data != null ==> data[..used] == old(data[..used]);
      hasDestination := true;
    }

    /** sprintf of the sensor's path, with its terminator. */
    method SetDerived(name: bytes)
      requires Valid() && |name| < PATH_SIZE
      modifies this, path
      ensures Valid() && data == old(data)
      ensures Abs() == old(Abs()).(target := Some(Until(name, 0)))
    {
      hide Until;
      PutAll(path, 0, name);
      path[|name|] := 0;
      assert path[..] == name + path[|name|..];
      UntilPadded(name, 0, path[|name|..]);
      hasDestination := true;
    }

    method UploadCommit(disk: Disk) returns (ok: bool)
      requires Valid() && (sawFinal ==> data != null && hasDestination)
      modifies this
      ensures Valid() && (data == old(data) || data == null)
      ensures Committed(old(Abs()), disk) == Outcome(Abs(), Some(if ok then ST_OK else ST_FAIL))
    {
      hide Until;
      if !sawFinal {
        return false;
      }
      var at := Until(path[..], 0);
      files := files - {at};
      if disk.CannotOpen? {
        return false;
      }
      if disk.Short? && disk.written < used {
        assert data[..used][..disk.written] == data[..disk.written];
        files := files[at := data[..disk.written]];
        return false;
      }
      files := files[at := data[..used]];
      data := null;
      return true;
    }

    /** dispatch_upload. */
    method DispatchUpload(f: Frame, env: Env) returns (status: Option<u32>)
      requires Valid() && InBounds(Abs(), f, env)
      modifies this, path, data
      ensures Valid() && (data == old(data) || data == null || fresh(data))
      ensures Step(old(Abs()), f, env) == Outcome(Abs(), status)
    {
      hide Began, Appended, TargetOf, Until, Fits, Committed;
      if f.command == 0x3000 {
        if state != Idle {
          return Some(ST_OK);
        }
        var ok := UploadInit(env.allocates);
        if !ok {
          return Some(ST_FAIL);
        }
        state := NeedTarget;
        return Some(ST_OK);
      }
      if LiteralTarget(f.command) {
        if state != NeedTarget {
          return Some(ST_OK);
        }
        SetTarget(f.payload);
        state := Receiving;
        return Some(ST_OK);
      }
      if f.command == 0x3114 || f.command == 0x3115 {
        if state != NeedTarget {
          return Some(ST_OK);
        }
        if env.derived.None? {
          return Some(ST_FAIL);
        }
        SetDerived(env.derived.value);
        state := Receiving;
        return Some(ST_OK);
      }
      if f.command == 0x3200 {
        if !(state == Receiving || state == Error) {
          return Some(ST_OK);
        }
        var ok := UploadAppend(f);
        if !ok {
          state := Error;
          return Some(ST_FAIL);
        }
        return Some(ST_OK);
      }
      if f.command == 0x3300 {
        if !(state == Ready || state == Error) {
          return Some(ST_OK);
        }
        var ok := UploadCommit(env.disk);
        if !ok {
          state := Error;
          data := null;
          return Some(ST_FAIL);
        }
        state := Idle;
        return Some(ST_OK);
      }
      return None;
    }

    /** dispatch_normal_report, up to the command groups that are not the uploader's. */
    method Dispatch(r: bytes, env: Env) returns (reply: Reply)
      requires Valid() && |r| == REPORT_SIZE && (Recognised(r) ==> Enclosed(r))
      requires Parse(r).Ok? && Parse(r).value.command / 0x1000 == 3 ==> InBounds(Abs(), Parse(r).value, env)
      modifies this, path, data
      ensures Valid() && (data == old(data) || data == null || fresh(data))
      ensures reply == OtherGroup <==> Parse(r).Ok? && Parse(r).value.command / 0x1000 in {0, 1, 2, 4}
      ensures Parse(r).Ok? && Parse(r).value.command / 0x1000 > 4 ==> reply == Sent(Response(Parse(r).value.command, 5))
      ensures if Parse(r).Ok? && Parse(r).value.command / 0x1000 == 3
              then var done := Step(old(Abs()), Parse(r).value, env);
                   && Abs() == done.next
                   && reply == if done.status.None? then Silent
                   else Sent(Response(Parse(r).value.command, done.status.value))
              else Abs() == old(Abs())
      ensures Parse(r).Err? ==>
                reply == Sent(Response(Read16(r, 3), if r[0] != 1 then 2 else if r[1..3] != [0x5a, 0x5a] then 3 else 4))
    {
      hide Step, Report, InBounds, Until;
      var command := Read16(r, 3);
      var verdict := CheckReport(r);
      if verdict == BadReportId {
        return Sent(Response(command, ST_BAD_REPORT_ID));
      }
      if verdict == BadMagic {
        return Sent(Response(command, ST_BAD_MAGIC));
      }
      if verdict == BadCrc {
        return Sent(Response(command, ST_BAD_CRC));
      }
      if command / 0x1000 == 3 {
        var status := DispatchUpload(Frame(command, r[5], Read32(r, 8),
          r[PAYLOAD_OFFSET..PAYLOAD_OFFSET + Read16(r, 6)]), env);
        if status.None? {
          return Silent;
        }
        return Sent(Response(command, status.value));
      }
      if command / 0x1000 > 4 {
        return Sent(Response(command, ST_UNKNOWN_GROUP));
      }
      return OtherGroup;
    }
  }
}

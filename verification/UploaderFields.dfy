/** What each uploader command does, in numbers: which states it acts in, and exactly how. */
module UploaderFields {
  import opened Bytes
  import opened CStrings
  import opened NormalReport
  import Crc16
  import opened Uploader

  const WRAP: nat := 0x1_0000_0000

  /** Sequence numbers 0 and 1 are always in order, any other has to follow the last one. */
  predicate InOrder(s: Session, f: Frame) {
    f.status < 2 || f.status as int == (s.last as int + 1) % WRAP
  }

  /** The 32-bit sum of what was received and what comes stays within the capacity. */
  predicate HasRoom(s: Session, f: Frame) {
    (s.used as int + |f.payload|) % WRAP <= s.capacity
  }

  /** A data packet out of order or too large puts the session into the error state; any other extends the buffer. */
  lemma PacketExactly(s: Session, f: Frame, env: Env)
    requires s.state in {Receiving, Error} && f.command == 0x3200 && InBounds(s, f, env)
    ensures !InOrder(s, f) || !HasRoom(s, f) ==> Step(s, f, env) == Outcome(s.(state := Error), Some(1))
    ensures InOrder(s, f) && HasRoom(s, f) ==>
              && s.data.Some?
              && Step(s, f, env).status == Some(0)
              && Step(s, f, env).next == s.(data := Some(s.data.value + f.payload),
                                         used := (s.used as int + |f.payload|) % WRAP, last := f.status,
                                         sawFinal := s.sawFinal || f.frameType == 2,
                                         state := if f.frameType == 2 then Ready else s.state)
  {
  }

  /** Every command with the one state, or the two, in which it acts. */
  predicate Acts(state: UploadState, command: u16) {
    || (command == 0x3000 && state == Idle)
    || (command in {0x3110, 0x3111, 0x3112, 0x3113, 0x3114, 0x3115, 0x3116, 0x3120, 0x3150, 0x31F0}
        && state == NeedTarget)
    || (command == 0x3200 && (state == Receiving || state == Error))
    || (command == 0x3300 && (state == Ready || state == Error))
  }

  predicate Known(command: u16) {
    command in {0x3000, 0x3110, 0x3111, 0x3112, 0x3113, 0x3114, 0x3115, 0x3116, 0x3120, 0x3150, 0x31F0, 0x3200, 0x3300}
  }

  /** A known command in a wrong state is answered with success and does nothing; an unknown one is not answered. */
  lemma WrongState(s: Session, f: Frame, env: Env)
    requires InBounds(s, f, env) && !Acts(s.state, f.command)
    ensures Step(s, f, env) == Outcome(s, if Known(f.command) then Some(0) else None)
  {
    hide TargetOf, Until, Fits;
  }

  /** Init opens an empty session, or fails for want of memory. */
  lemma InitExactly(s: Session, f: Frame, env: Env)
    requires s.state == Idle && f.command == 0x3000 && InBounds(s, f, env)
    ensures Step(s, f, env) ==
            if s.data.None? && !env.allocates then Outcome(s, Some(1))
            else Outcome(Session(NeedTarget, Some([]), 0x0100_0200, 0, 0, None, false, s.files), Some(0))
  {
  }

  /** The longest prefix without any of the given bytes. */
  ghost predicate CutAt(cut: bytes, data: bytes, stops: set<byte>) {
    && cut <= data && (forall b :: b in cut ==> b !in stops)
    && (|cut| < |data| ==> data[|cut|] in stops)
  }

  lemma TargetIsCut(payload: bytes)
    ensures CutAt(TargetOf(payload), payload, {0, 0x20})
  {
    hide Until;
    var text := Until(payload, 0);
    UntilStops(payload, 0);
    UntilStops(text, 0x20);
    assert forall b :: b in TargetOf(payload) ==> b in text;
  }

  /** A target names the payload up to its first NUL or space; the sensor commands name the path of the system. */
  lemma TargetExactly(s: Session, f: Frame, env: Env)
    requires s.state == NeedTarget && Acts(NeedTarget, f.command) && InBounds(s, f, env)
    ensures f.command !in {0x3114, 0x3115} ==>
              && Step(s, f, env) == Outcome(s.(target := Some(TargetOf(f.payload)), state := Receiving), Some(0))
              && CutAt(TargetOf(f.payload), f.payload, {0, 0x20})
    ensures f.command in {0x3114, 0x3115} && env.derived.None? ==> Step(s, f, env) == Outcome(s, Some(1))
    ensures f.command in {0x3114, 0x3115} && env.derived.Some? ==>
              && Step(s, f, env).next == s.(target := Some(Until(env.derived.value, 0)), state := Receiving)
              && Step(s, f, env).status == Some(0)
              && CutAt(Until(env.derived.value, 0), env.derived.value, {0})
  {
    hide TargetOf, Until, Fits;
    TargetIsCut(f.payload);
    if env.derived.Some? {
      UntilStops(env.derived.value, 0);
    }
  }

  /** A commit without a final packet fails and drops the buffer, and with one it removes, writes and maybe fails. */
  lemma CommitCases(s: Session, f: Frame, env: Env)
    requires s.state in {Ready, Error} && f.command == 0x3300 && InBounds(s, f, env)
    ensures !s.sawFinal ==> Step(s, f, env) == Outcome(s.(state := Error, data := None), Some(1))
    ensures s.sawFinal ==>
              && s.data.Some? && s.target.Some?
              && var at, content, done := s.target.value, s.data.value, Step(s, f, env);
              && (env.disk == CannotOpen ==>
                    done == Outcome(s.(state := Error, data := None, files := s.files - {at}), Some(1)))
              && (env.disk.Short? && env.disk.written < |content| ==>
                    done == Outcome(s.(state := Error, data := None,
                                    files := s.files[at := content[..env.disk.written]]), Some(1)))
              && (env.disk.Writes? || (env.disk.Short? && env.disk.written >= |content|) ==>
                    done == Outcome(s.(state := Idle, data := None, files := s.files[at := content]), Some(0)))
  {
  }

  /** A status reply: the command and the status under their CRC, no payload, type 0 and zeros. */
  lemma ResponseExactly(command: u16, status: u32)
    ensures var r := Response(command, status);
            && |r| == 1024 && r[0] == 0x01 && r[1] == 0x5A && r[2] == 0x5A && r[5] == 0 && r[6] == r[7] == 0
            && r[3] as int + 0x100 * r[4] as int == command
            && r[8] as int + 0x100 * r[9] as int + 0x1_0000 * r[10] as int + 0x100_0000 * r[11] as int == status
            && r[12..14] == Crc16.Stored(Crc16.Crc(r[..12])) && forall i :: 14 <= i < 1024 ==> r[i] == 0
  {
    hide Crc16.Stored, Crc16.Crc, Pack16, Pack32;
    var f := ResponseFrame(command, status, 0, []);
    ReportFields(f);
    var r := Report(f);
    assert Checked(f) == Header(f);
    assert Header(f)[6..8] == Pack16(0) && r[..12][6..8] == r[6..8];
    ZeroSize(r[6], r[7], r[6..8]);
    assert forall i :: 14 <= i < 1024 ==> r[i] == 0;
  }

  lemma ZeroSize(a: byte, b: byte, size: bytes)
    requires size == Pack16(0) && size == [a, b]
    ensures a == b == 0
  {
  }
}

/** What the uploader keeps over every run of commands without a failed commit. */
module UploaderRuns {
  import opened Bytes
  import opened CStrings
  import opened NormalReport
  import opened Uploader

  datatype Command = Command(f: Frame, env: Env)

  /** In-report lengths, and paths that fit their buffer. */
  predicate Lengths(c: Command) {
    && |c.f.payload| <= PAYLOAD_MAX && (LiteralTarget(c.f.command) ==> |c.f.payload| < PATH_SIZE)
    && (c.env.derived.Some? ==> |c.env.derived.value| < PATH_SIZE)
  }

  predicate AllLengths(cmds: seq<Command>) {
    forall c :: c in cmds ==> Lengths(c)
  }

  /**
   While a session is open its buffer exists and is within capacity; a destination is known from
   the receiving state on; and a final packet was seen exactly in the ready state.
   */
  predicate Inv(s: Session) {
    && (s.state == Idle ==> s.data.None?)
    && (s.state != Idle ==>
          && s.data.Some? && |s.data.value| == s.used && s.used <= CAPACITY && s.capacity == CAPACITY
          && (s.sawFinal <==> s.state == Ready))
    && (s.state in {Receiving, Ready, Error} ==> s.target.Some?)
  }

  predicate FailedCommit(s: Session, c: Command)
    requires InBounds(s, c.f, c.env)
  {
    c.f.command == 0x3300 && Step(s, c.f, c.env).status == Some(ST_FAIL)
  }

  /** The file system lets the commit of that much data succeed. */
  predicate CanWrite(disk: Disk, size: nat) {
    disk.Writes? || (disk.Short? && disk.written >= size)
  }

  lemma StepInBounds(s: Session, c: Command)
    requires Inv(s) && Lengths(c)
    ensures InBounds(s, c.f, c.env)
  {
  }

  lemma StepKeepsInv(s: Session, c: Command)
    requires Inv(s) && InBounds(s, c.f, c.env) && !FailedCommit(s, c)
    ensures Inv(Step(s, c.f, c.env).next)
  {
    hide LiteralTarget, TargetOf, Until;
  }

  /**
   Although the commit's state test also lets the error state through, only a session whose final
   packet was accepted writes a file; every other commit leaves the files alone.
   */
  lemma CommitExactly(s: Session, c: Command)
    requires Inv(s) && InBounds(s, c.f, c.env) && c.f.command == 0x3300
    ensures var done := Step(s, c.f, c.env);
            && (s.state != Ready ==> done.next.files == s.files && done.next.state == s.state)
            && (s.state == Ready && CanWrite(c.env.disk, s.used) ==>
                  done.status == Some(ST_OK) && done.next == s.(state := Idle, data := None,
                                                             files := s.files[s.target.value := s.data.value]))
            && (s.state == Ready && !CanWrite(c.env.disk, s.used) ==>
                  done.status == Some(ST_FAIL) && done.next.state == Error
                  && done.next.files - {s.target.value} == s.files - {s.target.value})
  {
  }

  // ----- runs -----

  predicate NoFailedCommit(s: Session, cmds: seq<Command>)
    decreases |cmds|
  {
    cmds == [] || !InBounds(s, cmds[0].f, cmds[0].env)
    || (!FailedCommit(s, cmds[0]) && NoFailedCommit(Step(s, cmds[0].f, cmds[0].env).next, cmds[1..]))
  }

  predicate RunInBounds(s: Session, cmds: seq<Command>)
    decreases |cmds|
  {
    cmds == []
    || (InBounds(s, cmds[0].f, cmds[0].env) && RunInBounds(Step(s, cmds[0].f, cmds[0].env).next, cmds[1..]))
  }

  function Run(s: Session, cmds: seq<Command>): Session
    requires RunInBounds(s, cmds)
    decreases |cmds|
  {
    if cmds == [] then s else Run(Step(s, cmds[0].f, cmds[0].env).next, cmds[1..])
  }

  /** An accepted data packet. */
  predicate Takes(s: Session, f: Frame) {
    f.command == 0x3200 && s.state in {Receiving, Error} && Fits(s, f)
  }

  /** The payloads accepted since the last init, and the files those concatenations were written to. */
  datatype Ledger = Ledger(gathered: bytes, files: map<bytes, bytes>)

  function Entered(l: Ledger, s: Session, f: Frame): Ledger {
    if f.command == 0x3000 && s.state == Idle then l.(gathered := [])
    else if Takes(s, f) then l.(gathered := l.gathered + f.payload)
    else if f.command == 0x3300 && s.state == Ready && s.target.Some?
    then l.(files := l.files[s.target.value := l.gathered])
    else l
  }

  function Account(l: Ledger, s: Session, cmds: seq<Command>): Ledger
    requires RunInBounds(s, cmds)
    decreases |cmds|
  {
    if cmds == [] then l
    else Account(Entered(l, s, cmds[0].f), Step(s, cmds[0].f, cmds[0].env).next, cmds[1..])
  }

  predicate Agrees(l: Ledger, s: Session) {
    l.files == s.files && (s.data.Some? ==> s.data.value == l.gathered)
  }

  lemma StepAgrees(l: Ledger, s: Session, c: Command)
    requires Inv(s) && InBounds(s, c.f, c.env) && !FailedCommit(s, c) && Agrees(l, s)
    ensures Agrees(Entered(l, s, c.f), Step(s, c.f, c.env).next)
  {
    hide TargetOf, Until, Fits;
    if c.f.command == 0x3300 {
      CommitExactly(s, c);
    }
  }

  /**
   Over every command sequence with in-report lengths and no failed commit: the invariant holds, the
   buffer is the concatenation of the payloads accepted since the last init, and files change only by
   exactly such concatenations.
   */
  lemma {:induction false} RunKeepsInv(l: Ledger, s: Session, cmds: seq<Command>)
    requires Inv(s) && AllLengths(cmds) && NoFailedCommit(s, cmds) && Agrees(l, s)
    ensures RunInBounds(s, cmds) && Inv(Run(s, cmds)) && Agrees(Account(l, s, cmds), Run(s, cmds))
    decreases |cmds|
  {
    hide Inv, Step, Agrees, InBounds, Entered, FailedCommit;
    if cmds != [] {
      var c := cmds[0];
      StepInBounds(s, c);
      StepKeepsInv(s, c);
      StepAgrees(l, s, c);
      RunKeepsInv(Entered(l, s, c.f), Step(s, c.f, c.env).next, cmds[1..]);
    }
  }

  lemma {:induction false} RunAppend(s: Session, a: seq<Command>, b: seq<Command>)
    requires RunInBounds(s, a) && RunInBounds(Run(s, a), b)
    ensures RunInBounds(s, a + b) && Run(s, a + b) == Run(Run(s, a), b)
    decreases |a|
  {
    hide Step, InBounds;
    if a == [] {
      assert a + b == b;
    } else {
      assert (a + b)[0] == a[0] && (a + b)[1..] == a[1..] + b;
      RunAppend(Step(s, a[0].f, a[0].env).next, a[1..], b);
    }
  }

  lemma RunOne(s: Session, c: Command)
    requires InBounds(s, c.f, c.env)
    ensures RunInBounds(s, [c]) && Run(s, [c]) == Step(s, c.f, c.env).next
  {
    hide Step, InBounds;
    assert [c][1..] == [];
  }

  // ----- after a failed commit -----

  /** A failed commit ends in the error state without a buffer. */
  lemma FailedCommitLeaves(s: Session, c: Command)
    requires Inv(s) && InBounds(s, c.f, c.env) && FailedCommit(s, c)
    ensures var t := Step(s, c.f, c.env).next; t.state == Error && t.data.None?
  {
  }

  /** A data packet that is refused by its sequence number is in bounds even then, and is answered with failure. */
  lemma RefusedPacket(s: Session, c: Command)
    requires s.state == Error && c.f.command == 0x3200 && |c.f.payload| <= PAYLOAD_MAX && !Fits(s, c.f)
    ensures InBounds(s, c.f, c.env) && Step(s, c.f, c.env) == Outcome(s, Some(ST_FAIL))
  {
    hide Fits;
  }

  lemma StaysFailed(s: Session, c: Command)
    requires s.state == Error && s.data.None? && InBounds(s, c.f, c.env)
    ensures var t := Step(s, c.f, c.env).next;
            t.state == Error && t.data.None? && t.files == s.files
  {
    hide LiteralTarget, TargetOf, Until;
  }

  lemma {:induction false} RunStaysFailed(s: Session, cmds: seq<Command>)
    requires s.state == Error && s.data.None? && RunInBounds(s, cmds)
    ensures var t := Run(s, cmds); t.state == Error && t.data.None? && t.files == s.files
    decreases |cmds|
  {
    hide Step, InBounds;
    if cmds != [] {
      StaysFailed(s, cmds[0]);
      RunStaysFailed(Step(s, cmds[0].f, cmds[0].env).next, cmds[1..]);
    }
  }

  /** A failed commit is final: no later command sequence that stays in bounds opens a session or changes a file. */
  lemma FailedCommitIsFinal(s: Session, c: Command, later: seq<Command>)
    requires Inv(s) && RunInBounds(s, [c] + later) && FailedCommit(s, c)
    ensures var failed := Step(s, c.f, c.env).next;
            && RunInBounds(failed, later) && Run(s, [c] + later) == Run(failed, later)
            && Run(failed, later).state == Error && Run(failed, later).data.None?
            && Run(failed, later).files == failed.files
  {
    assert ([c] + later)[0] == c && ([c] + later)[1..] == later;
    FailedCommitLeaves(s, c);
    RunStaysFailed(Step(s, c.f, c.env).next, later);
  }
}

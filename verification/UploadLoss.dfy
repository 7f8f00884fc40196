/** Losing one data packet of an upload: exactly when the daemon notices. */
module UploadLoss {
  import opened Bytes
  import opened Chunks
  import opened NormalReport
  import opened Uploader
  import opened UploaderRuns
  import opened Upload
  import UploaderFields

  /** The data commands of packets a up to b. */
  function DataRange(content: bytes, a: nat, b: nat, env: nat -> Env): seq<Command>
    requires a <= b
    decreases b - a
  {
    if a == b then [] else [Command(DataFrame(content, a), env(a + 2))] + DataRange(content, a + 1, b, env)
  }

  /** One upload's commands without data packet k. */
  function LosingCommands(job: Job, k: nat): seq<Command>
    requires k < Packets(|job.content|, CHUNK_SIZE)
  {
    [Command(InitFrame, job.env(0))] + ([Command(TargetFrame(job.path), job.env(1))]
                                        + (DataRange(job.content, 0, k, job.env)
                                           + (DataRange(job.content, k + 1, Packets(|job.content|, CHUNK_SIZE), job.env)
                                              + [Command(CommitFrame, AtCommit(job.content, job.env))])))
  }

  // ----- before the loss -----

  lemma {:induction false} PrefixRun(s: Session, path: bytes, content: bytes, a: nat, b: nat, files: map<bytes, bytes>,
                                     env: nat -> Env)
    requires Uploadable(content) && a <= b < Packets(|content|, CHUNK_SIZE) && Filling(s, path, content, a, files)
    ensures RunInBounds(s, DataRange(content, a, b, env))
    ensures Filling(Run(s, DataRange(content, a, b, env)), path, content, b, files)
    decreases b - a
  {
    hide Filling, Step, InBounds, Packets, DataFrame;
    if a == b {
      assert RunInBounds(s, []) && Run(s, []) == s;
    } else {
      DataStep(s, path, content, a, files, env(a + 2));
      var c := Command(DataFrame(content, a), env(a + 2));
      RunOne(s, c);
      PrefixRun(Step(s, c.f, c.env).next, path, content, a + 1, b, files, env);
      RunAppend(s, [c], DataRange(content, a + 1, b, env));
    }
  }

  // ----- after the loss of any packet but the first -----

  /** No packet from j on can follow the last one that was taken. */
  predicate Stuck(s: Session, j: nat) {
    && s.state in {Receiving, Error} && !s.sawFinal && s.data.Some? && s.last as int + 1 < j && 2 <= j
  }

  lemma StuckStep(s: Session, content: bytes, j: nat, env: Env)
    requires Stuck(s, j) && j < 0x1_0000
    ensures InBounds(s, DataFrame(content, j), env)
    ensures Step(s, DataFrame(content, j), env) == Outcome(s.(state := Error), Some(1))
  {
    var f := DataFrame(content, j);
    assert f.status == j && !UploaderFields.InOrder(s, f);
    UploaderFields.PacketExactly(s, f, env);
  }

  lemma {:induction false} StuckRun(s: Session, content: bytes, j: nat, n: nat, env: nat -> Env)
    requires Stuck(s, j) && j <= n < 0x1_0000
    ensures RunInBounds(s, DataRange(content, j, n, env))
    ensures Run(s, DataRange(content, j, n, env)) == if j == n then s else s.(state := Error)
    decreases n - j
  {
    hide Step, InBounds, DataFrame;
    if j == n {
      assert RunInBounds(s, []) && Run(s, []) == s;
    } else {
      StuckStep(s, content, j, env(j + 2));
      var c := Command(DataFrame(content, j), env(j + 2));
      RunOne(s, c);
      StuckRun(s.(state := Error), content, j + 1, n, env);
      RunAppend(s, [c], DataRange(content, j + 1, n, env));
    }
  }

  lemma UnfinishedCommit(s: Session, env: Env)
    requires s.state in {Receiving, Error} && !s.sawFinal
    ensures InBounds(s, CommitFrame, env) && Step(s, CommitFrame, env).next.files == s.files
  {
  }

  // ----- after the loss of the first packet -----

  /** The receiving session after packets 1 up to j. */
  ghost predicate Late(s: Session, path: bytes, content: bytes, j: nat, files: map<bytes, bytes>)
    requires Uploadable(content)
  {
    && 1 <= j < Packets(|content|, CHUNK_SIZE) && CHUNK_SIZE <= j * CHUNK_SIZE <= |content|
    && s.state == Receiving && s.data == Some(content[CHUNK_SIZE..j * CHUNK_SIZE])
    && s.used == j * CHUNK_SIZE - CHUNK_SIZE && s.capacity == CAPACITY && s.target == Some(path) && !s.sawFinal
    && s.files == files && (j > 1 ==> s.last == j - 1)
  }

  lemma LateStep(s: Session, path: bytes, content: bytes, j: nat, files: map<bytes, bytes>, env: Env)
    requires Uploadable(content) && Late(s, path, content, j, files)
    ensures InBounds(s, DataFrame(content, j), env)
    ensures var done := Step(s, DataFrame(content, j), env);
            && (j + 1 < Packets(|content|, CHUNK_SIZE) ==> Late(done.next, path, content, j + 1, files))
            && (j + 1 == Packets(|content|, CHUNK_SIZE) ==> Filled(done.next, path, content[CHUNK_SIZE..], files))
  {
    hide Packets, Chunk, Step, InBounds, Late, Filled, Fits, Appended, DataFrame;
    LateFits(s, path, content, j, files);
    AppendStep(s, DataFrame(content, j), env);
    LateExtends(s, path, content, j, files);
  }

  lemma LateFits(s: Session, path: bytes, content: bytes, j: nat, files: map<bytes, bytes>)
    requires Uploadable(content) && Late(s, path, content, j, files)
    ensures var f := DataFrame(content, j);
            && s.state == Receiving && f.command == 0x3200 && Fits(s, f) && |f.payload| <= PAYLOAD_MAX && s.data.Some?
            && s.used as int + |f.payload| <= CAPACITY
  {
    FewPackets(content);
    PacketStart(content, CHUNK_SIZE, j);
    hide Packets, Chunk;
  }

  lemma LateExtends(s: Session, path: bytes, content: bytes, j: nat, files: map<bytes, bytes>)
    requires Uploadable(content) && Late(s, path, content, j, files)
    ensures var t := Appended(s, DataFrame(content, j));
            && (j + 1 < Packets(|content|, CHUNK_SIZE) ==> Late(t, path, content, j + 1, files))
            && (j + 1 == Packets(|content|, CHUNK_SIZE) ==> Filled(t, path, content[CHUNK_SIZE..], files))
  {
    FewPackets(content);
    PacketStart(content, CHUNK_SIZE, j);
    var at, chunk := j * CHUNK_SIZE, Chunk(content, CHUNK_SIZE, j);
    hide Packets, Chunk;
    assert content[CHUNK_SIZE..at] + chunk == content[CHUNK_SIZE..at + |chunk|];
    assert content[CHUNK_SIZE..|content|] == content[CHUNK_SIZE..];
  }

  lemma {:induction false} LateRun(s: Session, path: bytes, content: bytes, j: nat, files: map<bytes, bytes>,
                                   env: nat -> Env)
    requires Uploadable(content) && Late(s, path, content, j, files)
    ensures var n := Packets(|content|, CHUNK_SIZE);
            && j <= n && RunInBounds(s, DataRange(content, j, n, env))
            && Filled(Run(s, DataRange(content, j, n, env)), path, content[CHUNK_SIZE..], files)
    decreases Packets(|content|, CHUNK_SIZE) - j
  {
    LateStep(s, path, content, j, files, env(j + 2));
    assert j < Packets(|content|, CHUNK_SIZE);
    hide Late, Filled, Step, InBounds, Packets, DataFrame;
    var c, n := Command(DataFrame(content, j), env(j + 2)), Packets(|content|, CHUNK_SIZE);
    var t := Step(s, c.f, c.env).next;
    RunOne(s, c);
    if j + 1 < n {
      LateRun(t, path, content, j + 1, files, env);
    } else {
      assert RunInBounds(t, []) && Run(t, []) == t;
    }
    RunAppend(s, [c], DataRange(content, j + 1, n, env));
  }

  // ----- the outcome -----

  /** The data and the commit, from a session that has just been opened. */
  lemma LosingData(s: Session, job: Job, k: nat, files: map<bytes, bytes>)
    requires Uploadable(job.content) && Filling(s, job.path, job.content, 0, files)
    requires k < Packets(|job.content|, CHUNK_SIZE)
    ensures var n, commit := Packets(|job.content|, CHUNK_SIZE), Command(CommitFrame, AtCommit(job.content, job.env));
            var cmds := DataRange(job.content, 0, k, job.env)
                        + (DataRange(job.content, k + 1, n, job.env) + [commit]);
            && RunInBounds(s, cmds)
            && (k > 0 || n == 1 ==> Run(s, cmds).files == files)
            && (k == 0 && n > 1 && CanWrite(commit.env.disk, |job.content| - CHUNK_SIZE) ==>
                  Run(s, cmds).files == files[job.path := job.content[CHUNK_SIZE..]])
  {
    var path, content, env := job.path, job.content, job.env;
    var n, commit := Packets(|content|, CHUNK_SIZE), Command(CommitFrame, AtCommit(content, env));
    FewPackets(content);
    PacketStart(content, CHUNK_SIZE, 0);
    PrefixRun(s, path, content, 0, k, files, env);
    var before, rest := DataRange(content, 0, k, env), DataRange(content, k + 1, n, env);
    var m := Run(s, before);
    if k > 0 || n == 1 {
      StuckAfter(m, path, content, k, files, env);
    } else {
      FirstLost(m, path, content, files, env);
    }
    RunOne(Run(m, rest), commit);
    hide *;
    RunAppend(m, rest, [commit]);
    RunAppend(s, before, rest + [commit]);
  }

  lemma StuckAfter(m: Session, path: bytes, content: bytes, k: nat, files: map<bytes, bytes>, env: nat -> Env)
    requires Uploadable(content) && Filling(m, path, content, k, files)
    requires k > 0 || Packets(|content|, CHUNK_SIZE) == 1
    ensures var n := Packets(|content|, CHUNK_SIZE);
            && RunInBounds(m, DataRange(content, k + 1, n, env))
            && var t := Run(m, DataRange(content, k + 1, n, env));
            && InBounds(t, CommitFrame, AtCommit(content, env))
            && Step(t, CommitFrame, AtCommit(content, env)).next.files == files
  {
    var n := Packets(|content|, CHUNK_SIZE);
    FewPackets(content);
    hide Packets, Step, InBounds, DataFrame, AtCommit;
    if n == 1 {
      assert DataRange(content, 1, 1, env) == [];
      assert RunInBounds(m, []) && Run(m, []) == m;
      UnfinishedCommit(m, AtCommit(content, env));
    } else {
      StuckRun(m, content, k + 1, n, env);
      UnfinishedCommit(if k + 1 == n then m else m.(state := Error), AtCommit(content, env));
    }
  }

  lemma FirstLost(m: Session, path: bytes, content: bytes, files: map<bytes, bytes>, env: nat -> Env)
    requires Uploadable(content) && Filling(m, path, content, 0, files) && Packets(|content|, CHUNK_SIZE) > 1
    ensures var n := Packets(|content|, CHUNK_SIZE);
            && |content| >= CHUNK_SIZE && RunInBounds(m, DataRange(content, 1, n, env))
            && var t := Run(m, DataRange(content, 1, n, env));
            && InBounds(t, CommitFrame, AtCommit(content, env))
            && (CanWrite(AtCommit(content, env).disk, |content| - CHUNK_SIZE) ==>
                  Step(t, CommitFrame, AtCommit(content, env)).next.files == files[path := content[CHUNK_SIZE..]])
  {
    PacketStart(content, CHUNK_SIZE, 0);
    PacketStart(content, CHUNK_SIZE, 1);
    assert content[..0] == [] && content[CHUNK_SIZE..CHUNK_SIZE] == [];
    hide Packets, Step, InBounds, DataFrame, AtCommit, CanWrite;
    LateRun(m, path, content, 1, files, env);
    var t := Run(m, DataRange(content, 1, Packets(|content|, CHUNK_SIZE), env));
    CommitStep(t, path, content[CHUNK_SIZE..], files, AtCommit(content, env));
  }

  /**
   One data packet lost from an upload: the daemon writes nothing, whichever packet it is, unless it is the first of
   several. Sequence number 1 is always taken, so that a file without its first chunk is then written as a success.
   */
  lemma LosingOnePacket(s: Session, job: Job, k: nat)
    requires AtRest(s) && SafePath(job.path) && Uploadable(job.content) && job.env(0).allocates
    requires k < Packets(|job.content|, CHUNK_SIZE)
    ensures RunInBounds(s, LosingCommands(job, k))
    ensures k > 0 || Packets(|job.content|, CHUNK_SIZE) == 1 ==> Run(s, LosingCommands(job, k)).files == s.files
    ensures k == 0 && Packets(|job.content|, CHUNK_SIZE) > 1
            && CanWrite(AtCommit(job.content, job.env).disk, |job.content| - CHUNK_SIZE) ==>
              Run(s, LosingCommands(job, k)).files == s.files[job.path := job.content[CHUNK_SIZE..]]
  {
    var path, content, env := job.path, job.content, job.env;
    OpenStep(s, path, content, env(0), env(1));
    var begun := Step(s, InitFrame, env(0)).next;
    var named := Step(begun, TargetFrame(path), env(1)).next;
    SeveralPackets(content);
    LosingData(named, job, k, s.files);
    var n, commit := Packets(|content|, CHUNK_SIZE), Command(CommitFrame, AtCommit(content, env));
    var cmds := DataRange(content, 0, k, env) + (DataRange(content, k + 1, n, env) + [commit]);
    RunOne(begun, Command(TargetFrame(path), env(1)));
    RunOne(s, Command(InitFrame, env(0)));
    hide Filling, Filled, Step, InBounds, Packets, DataRange, Run, RunInBounds, SafePath, AtRest, AtCommit, CanWrite;
    RunAppend(begun, [Command(TargetFrame(path), env(1))], cmds);
    RunAppend(s, [Command(InitFrame, env(0))], [Command(TargetFrame(path), env(1))] + cmds);
  }

  lemma SeveralPackets(content: bytes)
    requires Uploadable(content)
    ensures Packets(|content|, CHUNK_SIZE) > 1 ==> |content| >= CHUNK_SIZE
  {
    PacketsBound(|content|, CHUNK_SIZE);
  }
}

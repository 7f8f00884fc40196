/** Uploading a file end to end: the host's requests against the daemon. */
module Upload {
  import opened Bytes
  import opened Chunks
  import opened NormalReport
  import opened Uploader
  import opened UploaderRuns

  const CHUNK_SIZE: nat := 1010

  // ----- the host's requests -----

  predicate SafeByte(b: byte) {
    0x41 <= b <= 0x5A || 0x61 <= b <= 0x7A || 0x30 <= b <= 0x39 || b in {0x5F, 0x2E, 0x2F, 0x2D}
  }

  predicate SafePath(path: bytes) {
    0 < |path| <= 127 && forall i :: 0 <= i < |path| ==> SafeByte(path[i])
  }

  const InitFrame: Frame := Frame(0x3000, 1, 0, [])
  const CommitFrame: Frame := Frame(0x3300, 1, 0, [])

  function TargetFrame(path: bytes): Frame {
    Frame(0x3110, 1, 0, path)
  }

  function DataFrame(content: bytes, k: nat): (f: Frame)
    ensures |f.payload| <= PAYLOAD_MAX
  {
    Frame(0x3200, if k + 1 == Packets(|content|, CHUNK_SIZE) then 2 else 1, Wrap32(k), Chunk(content, CHUNK_SIZE, k))
  }

  /** A safe path is the destination it names. */
  lemma SafeTarget(path: bytes)
    requires SafePath(path)
    ensures TargetOf(path) == path
  {
    UntilTwice(path, |path|);
  }

  // ----- the session -----

  predicate Uploadable(content: bytes) {
    0 < |content| <= CAPACITY
  }

  /** The receiving session after k packets. */
  ghost predicate Filling(s: Session, path: bytes, content: bytes, k: nat, files: map<bytes, bytes>)
    requires Uploadable(content)
  {
    && k < Packets(|content|, CHUNK_SIZE) && k * CHUNK_SIZE <= |content|
    && s.state == Receiving && s.data == Some(content[..k * CHUNK_SIZE]) && s.used == k * CHUNK_SIZE
    && s.capacity == CAPACITY && s.target == Some(path) && !s.sawFinal && s.files == files
    && (k > 0 ==> s.last == k - 1)
  }

  ghost predicate Filled(s: Session, path: bytes, content: bytes, files: map<bytes, bytes>) {
    && s.state == Ready && s.data == Some(content) && s.used == |content| && s.target == Some(path) && s.sawFinal
    && s.files == files
  }

  /** The session between uploads. */
  predicate AtRest(s: Session) {
    s.state == Idle && s.data.None?
  }

  lemma FewPackets(content: bytes)
    requires Uploadable(content)
    ensures 0 < Packets(|content|, CHUNK_SIZE) < 0x1_0000
  {
    PacketsBound(|content|, CHUNK_SIZE);
  }

  /** Initialising and naming a target open a session with nothing in it. */
  lemma OpenStep(s: Session, path: bytes, content: bytes, env: Env, later: Env)
    requires AtRest(s) && SafePath(path) && Uploadable(content)
    ensures InBounds(s, InitFrame, env)
    ensures !env.allocates ==> Step(s, InitFrame, env) == Outcome(s, Some(ST_FAIL))
    ensures env.allocates ==>
              var begun := Step(s, InitFrame, env);
              && begun.status == Some(ST_OK) && InBounds(begun.next, TargetFrame(path), later)
              && var named := Step(begun.next, TargetFrame(path), later);
              && named.status == Some(ST_OK) && Filling(named.next, path, content, 0, s.files)
  {
    SafeTarget(path);
    FewPackets(content);
    hide TargetOf, SafePath, Packets;
  }

  lemma AppendStep(s: Session, f: Frame, env: Env)
    requires s.state == Receiving && f.command == 0x3200 && Fits(s, f) && |f.payload| <= PAYLOAD_MAX
    requires s.data.Some? && s.used as int + |f.payload| <= CAPACITY
    ensures InBounds(s, f, env) && Step(s, f, env) == Outcome(Appended(s, f), Some(ST_OK))
  {
    hide Fits, Appended;
  }

  /** Each packet in turn extends the buffer by its chunk; the last completes it. */
  lemma DataStep(s: Session, path: bytes, content: bytes, k: nat, files: map<bytes, bytes>, env: Env)
    requires Uploadable(content) && Filling(s, path, content, k, files)
    ensures InBounds(s, DataFrame(content, k), env)
    ensures var done := Step(s, DataFrame(content, k), env);
            && done.status == Some(ST_OK)
            && (k + 1 < Packets(|content|, CHUNK_SIZE) ==> Filling(done.next, path, content, k + 1, files))
            && (k + 1 == Packets(|content|, CHUNK_SIZE) ==> Filled(done.next, path, content, files))
  {
    FewPackets(content);
    PacketStart(content, CHUNK_SIZE, k);
    var f := DataFrame(content, k);
    var at, chunk := k * CHUNK_SIZE, Chunk(content, CHUNK_SIZE, k);
    hide Packets, Chunk, Step, InBounds;
    assert content[..at] + chunk == content[..at + |chunk|];
    assert content[..|content|] == content;
    AppendStep(s, f, env);
  }

  /** The commit writes the file and returns to rest, or fails with the file lost or cut short. */
  lemma CommitStep(s: Session, path: bytes, content: bytes, files: map<bytes, bytes>, env: Env)
    requires Filled(s, path, content, files)
    ensures InBounds(s, CommitFrame, env)
    ensures var done := Step(s, CommitFrame, env);
            if CanWrite(env.disk, |content|)
            then done.status == Some(ST_OK) && AtRest(done.next) && done.next.files == files[path := content]
            else done.status == Some(ST_FAIL) && done.next.files - {path} == files - {path}
  {
  }

  // ----- the host -----

  /** exchange_normal with a request for the uploader. */
  method ExchangeNormal(dev: Daemon, request: bytes, env: Env) returns (r: Result<Frame>)
    requires dev.Valid() && |request| == REPORT_SIZE
    requires Parse(request).Ok? ==> Parse(request).value.command / 0x1000 == 3
                                    && InBounds(dev.Abs(), Parse(request).value, env)
    modifies dev, dev.path, dev.data
    ensures dev.Valid() && (dev.data == old(dev.data) || dev.data == null || fresh(dev.data))
    ensures Parse(request).Err? ==> r.Err? && dev.Abs() == old(dev.Abs())
    ensures Parse(request).Ok? ==>
              var done := Step(old(dev.Abs()), Parse(request).value, env);
              dev.Abs() == done.next && (r.Ok? <==> done.status == Some(ST_OK))
  {
    hide Step, InBounds, Report;
    var sent :- Parse(request);
    var reply := dev.Dispatch(request, env);
    if reply.Silent? {
      return Err("timed out waiting for HID response");
    }
    ghost var status := Step(old(dev.Abs()), sent, env).status.value;
    ParseReport(ResponseFrame(sent.command, status, 0, []));
    var response := Parse(reply.report).value;
    if response.command != sent.command {
      return Err("normal updater replied to another command");
    }
    if response.status != 0 {
      return Err("normal updater rejected the command");
    }
    return Ok(response);
  }

  /** build_upload_target_request for a literal target. */
  method BuildTargetRequest(path: bytes) returns (r: Result<bytes>)
    ensures r.Ok? <==> SafePath(path)
    ensures r.Ok? ==> r.value == Report(TargetFrame(path))
  {
    if |path| == 0 || |path| > 127 {
      return Err("upload path must be 1-127 safe ASCII path bytes");
    }
    for i := 0 to |path|
      invariant forall k :: 0 <= k < i ==> SafeByte(path[k])
    {
      if !SafeByte(path[i]) {
        return Err("upload path must be 1-127 safe ASCII path bytes");
      }
    }
    r := BuildNormalReport(0x3110, path, 1, 0);
  }

  /** One request built, sent and answered. */
  method Request(dev: Daemon, f: Frame, env: Env) returns (r: Result<()>)
    requires dev.Valid() && f.command / 0x1000 == 3 && f.frameType in {1, 2} && InBounds(dev.Abs(), f, env)
    requires |f.payload| <= PAYLOAD_MAX
    modifies dev, dev.path, dev.data
    ensures dev.Valid() && (dev.data == old(dev.data) || dev.data == null || fresh(dev.data))
    ensures var done := Step(old(dev.Abs()), f, env);
            dev.Abs() == done.next && (r.Ok? <==> done.status == Some(ST_OK))
  {
    hide Step, InBounds, Report;
    var built := BuildNormalReport(f.command, f.payload, f.frameType, f.status);
    ParseReport(f);
    var answer := ExchangeNormal(dev, built.value, env);
    return if answer.Ok? then Ok(()) else Err(answer.reason);
  }

  /** The data requests, in sequence; DataStep shows that none of them is refused. */
  method SendChunks(dev: Daemon, path: bytes, content: bytes, env: nat -> Env, ghost before: map<bytes, bytes>)
    returns (r: Result<()>)
    requires dev.Valid() && Uploadable(content) && Filling(dev.Abs(), path, content, 0, before)
    modifies dev, dev.path, dev.data
    ensures dev.Valid() && (dev.data == old(dev.data) || dev.data == null || fresh(dev.data))
    ensures r.Ok? && Filled(dev.Abs(), path, content, before)
  {
    FewPackets(content);
    hide Filling, Filled, Step, InBounds, Packets, Chunk;
    var n := Packets(|content|, CHUNK_SIZE);
    for k := 0 to n
      invariant dev.Valid() && (dev.data == old(dev.data) || dev.data == null || fresh(dev.data))
      invariant k < n ==> Filling(dev.Abs(), path, content, k, before)
      invariant k == n ==> Filled(dev.Abs(), path, content, before)
    {
      DataStep(dev.Abs(), path, content, k, before, env(k + 2));
      var sent := Request(dev, DataFrame(content, k), env(k + 2));
    }
    return Ok(());
  }

  /** What the system does when the commit of a content arrives, after init, target and the data requests. */
  function AtCommit(content: bytes, env: nat -> Env): Env {
    env(Packets(|content|, CHUNK_SIZE) + 2)
  }

  /**
   upload_normal_file against a daemon at rest, the system doing something of its own at every request. It
   returns exactly when the content and the path are acceptable, init can allocate the buffer and commit can
   write the file; then the file holds exactly the content, every other file is unchanged and the daemon is
   at rest again.
   */
  method UploadNormalFile(dev: Daemon, path: bytes, content: bytes, env: nat -> Env) returns (r: Result<()>)
    requires dev.Valid() && AtRest(dev.Abs())
    modifies dev, dev.path, dev.data
    ensures dev.Valid()
    ensures r.Ok? <==>
            && 0 < |content| <= 0x0100_0200 && SafePath(path) && env(0).allocates
            && CanWrite(AtCommit(content, env).disk, |content|)
    ensures r.Ok? ==> AtRest(dev.Abs()) && dev.files == old(dev.files)[path := content]
    ensures r.Err? ==> dev.files - {path} == old(dev.files) - {path}
    ensures !(Uploadable(content) && SafePath(path) && env(0).allocates) ==> dev.Abs() == old(dev.Abs())
  {
    hide Filling, Filled, Step, InBounds, Report, SafePath, Packets, CanWrite, AtCommit;
    if |content| == 0 {
      return Err("normal upload content must not be empty");
    }
    if |content| > CAPACITY {
      return Err("normal upload exceeds the device's receive buffer");
    }
    var target :- BuildTargetRequest(path);
    OpenStep(dev.Abs(), path, content, env(0), env(1));
    var initialized :- Request(dev, InitFrame, env(0));
    SafePathLength(path);
    ParseReport(TargetFrame(path));
    var named := ExchangeNormal(dev, target, env(1));
    var sent := SendChunks(dev, path, content, env, old(dev.files));
    CommitStep(dev.Abs(), path, content, old(dev.files), AtCommit(content, env));
    r := Request(dev, CommitFrame, AtCommit(content, env));
  }

  lemma SafePathLength(path: bytes)
    requires SafePath(path)
    ensures |path| <= PAYLOAD_MAX
  {
  }

  // ----- series of uploads -----

  /** A file to upload, and what the system does at each of its requests. */
  datatype Job = Job(path: bytes, content: bytes, env: nat -> Env)

  predicate Acceptable(job: Job) {
    && SafePath(job.path) && Uploadable(job.content)
    && job.env(0).allocates && AtCommit(job.content, job.env).disk.Writes?
  }

  /** The data commands from packet k on. */
  function DataFrom(content: bytes, k: nat, env: nat -> Env): seq<Command>
    requires k <= Packets(|content|, CHUNK_SIZE)
    decreases Packets(|content|, CHUNK_SIZE) - k
  {
    if k == Packets(|content|, CHUNK_SIZE) then []
    else [Command(DataFrame(content, k), env(k + 2))] + DataFrom(content, k + 1, env)
  }

  /** Everything the host sends for one file. */
  function Commands(job: Job): seq<Command> {
    var commit := Command(CommitFrame, AtCommit(job.content, job.env));
    [Command(InitFrame, job.env(0))]
    + ([Command(TargetFrame(job.path), job.env(1))] + (DataFrom(job.content, 0, job.env) + [commit]))
  }

  function SeriesCommands(jobs: seq<Job>): seq<Command> {
    if jobs == [] then [] else Commands(jobs[0]) + SeriesCommands(jobs[1..])
  }

  lemma {:induction false} DataRun(s: Session, path: bytes, content: bytes, k: nat, files: map<bytes, bytes>,
                                   env: nat -> Env)
    requires Uploadable(content) && Filling(s, path, content, k, files)
    ensures k <= Packets(|content|, CHUNK_SIZE)
    ensures RunInBounds(s, DataFrom(content, k, env))
    ensures Filled(Run(s, DataFrom(content, k, env)), path, content, files)
    decreases Packets(|content|, CHUNK_SIZE) - k
  {
    DataStep(s, path, content, k, files, env(k + 2));
    var c := Command(DataFrame(content, k), env(k + 2));
    assert k < Packets(|content|, CHUNK_SIZE);
    hide Filling, Filled, Step, InBounds, Packets, DataFrame;
    var t := Step(s, c.f, c.env).next;
    RunOne(s, c);
    if k + 1 < Packets(|content|, CHUNK_SIZE) {
      DataRun(t, path, content, k + 1, files, env);
    } else {
      assert RunInBounds(t, []) && Run(t, []) == t;
    }
    RunAppend(s, [c], DataFrom(content, k + 1, env));
  }

  /** One file's commands, run from rest, write that file and return to rest. */
  lemma CommandsRun(s: Session, job: Job)
    requires AtRest(s) && Acceptable(job)
    ensures RunInBounds(s, Commands(job))
    ensures var t := Run(s, Commands(job));
            AtRest(t) && t.files == s.files[job.path := job.content]
  {
    hide Filling, Filled, Step, InBounds, Packets, DataFrom, Run, RunInBounds, SafePath, AtRest, AtCommit;
    var path, content, env := job.path, job.content, job.env;
    OpenStep(s, path, content, env(0), env(1));
    var begun := Step(s, InitFrame, env(0)).next;
    var named := Step(begun, TargetFrame(path), env(1)).next;
    var data, commit := DataFrom(content, 0, env), [Command(CommitFrame, AtCommit(content, env))];
    DataRun(named, path, content, 0, s.files, env);
    var full := Run(named, data);
    CommitStep(full, path, content, s.files, AtCommit(content, env));
    RunOne(full, commit[0]);
    RunAppend(named, data, commit);
    RunOne(begun, Command(TargetFrame(path), env(1)));
    RunAppend(begun, [Command(TargetFrame(path), env(1))], data + commit);
    RunOne(s, Command(InitFrame, env(0)));
    RunAppend(s, [Command(InitFrame, env(0))], [Command(TargetFrame(path), env(1))] + (data + commit));
  }

  /** The content of the last job for a path, if any. */
  function LastContent(jobs: seq<Job>, path: bytes): Option<bytes> {
    if jobs == [] then None
    else
      var later := LastContent(jobs[1..], path);
      if later.None? && jobs[0].path == path then Some(jobs[0].content) else later
  }

  ghost predicate HoldsLast(files: map<bytes, bytes>, before: map<bytes, bytes>, jobs: seq<Job>) {
    forall p ::
      match LastContent(jobs, p)
      case Some(content) => p in files && files[p] == content
      case None => (p in files <==> p in before) && (p in files ==> files[p] == before[p])
  }

  /** Any series of uploads leaves each path with its last content, and every other file as it was. */
  lemma {:induction false} SeriesRun(s: Session, jobs: seq<Job>)
    requires AtRest(s) && forall j :: j in jobs ==> Acceptable(j)
    ensures RunInBounds(s, SeriesCommands(jobs))
    ensures var t := Run(s, SeriesCommands(jobs));
            AtRest(t) && HoldsLast(t.files, s.files, jobs)
    decreases |jobs|
  {
    hide Acceptable, Commands, Step, InBounds, AtRest;
    if jobs != [] {
      CommandsRun(s, jobs[0]);
      hide Run, RunInBounds;
      var t := Run(s, Commands(jobs[0]));
      SeriesRun(t, jobs[1..]);
      RunAppend(s, Commands(jobs[0]), SeriesCommands(jobs[1..]));
    }
  }
}

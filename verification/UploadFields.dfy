/** The commands of one upload by their place, in numbers. */
module UploadFields {
  import opened Bytes
  import opened Chunks
  import NormalReport
  import Uploader
  import UploaderRuns
  import opened Upload

  /** Letters, digits and four more characters; at least one and at most 127 of them. */
  lemma SafeExactly(path: bytes)
    ensures SafePath(path) <==>
            1 <= |path| <= 127
            && forall i :: 0 <= i < |path| ==>
                             || 'A' as int <= path[i] as int <= 'Z' as int || 'a' as int <= path[i] as int <= 'z' as int
                             || '0' as int <= path[i] as int <= '9' as int || path[i] as int == '_' as int
                             || path[i] as int == '.' as int || path[i] as int == '/' as int
                             || path[i] as int == '-' as int
  {
  }

  /** The commands of one upload by their place: opening, target, numbered data, commit. */
  predicate CommandAt(c: UploaderRuns.Command, job: Job, i: nat) {
    var f, n, packets := c.f, |job.content|, (|job.content| + 1009) / 1010;
    && c.env == job.env(i)
    && (i == 0 ==> f == NormalReport.Frame(0x3000, 1, 0, []))
    && (i == 1 ==> f == NormalReport.Frame(0x3110, 1, 0, job.path))
    && (2 <= i < packets + 2 ==>
          && f.command == 0x3200 && f.frameType == (if i == packets + 1 then 2 else 1) && f.status == i - 2
          && f.payload == Clip(job.content, (i - 2) * 1010, (i - 2) * 1010 + 1010))
    && (i == packets + 2 ==> f == NormalReport.Frame(0x3300, 1, 0, []))
  }

  lemma {:induction false} DataAt(content: bytes, k: nat, env: nat -> Uploader.Env, i: nat)
    requires k <= Packets(|content|, CHUNK_SIZE) && i < Packets(|content|, CHUNK_SIZE) - k
    ensures |DataFrom(content, k, env)| == Packets(|content|, CHUNK_SIZE) - k
    ensures DataFrom(content, k, env)[i] == UploaderRuns.Command(DataFrame(content, k + i), env(k + i + 2))
    decreases i
  {
    hide Packets, DataFrame;
    if i > 0 {
      DataAt(content, k + 1, env, i - 1);
    } else {
      DataSize(content, k, env);
    }
  }

  lemma {:induction false} DataSize(content: bytes, k: nat, env: nat -> Uploader.Env)
    requires k <= Packets(|content|, CHUNK_SIZE)
    ensures |DataFrom(content, k, env)| == Packets(|content|, CHUNK_SIZE) - k
    decreases Packets(|content|, CHUNK_SIZE) - k
  {
    hide Packets, DataFrame;
    if k < Packets(|content|, CHUNK_SIZE) {
      DataSize(content, k + 1, env);
    }
  }

  lemma CommandsExactly(job: Job, i: nat)
    requires 0 < |job.content| <= 0x0100_0200 && i < (|job.content| + 1009) / 1010 + 3
    ensures |Commands(job)| == (|job.content| + 1009) / 1010 + 3
    ensures CommandAt(Commands(job)[i], job, i)
  {
    var packets := (|job.content| + 1009) / 1010;
    DataSize(job.content, 0, job.env);
    assert packets == Packets(|job.content|, CHUNK_SIZE);
    hide Packets, DataFrom, DataFrame;
    if 2 <= i < packets + 2 {
      DataAt(job.content, 0, job.env, i - 2);
      assert Commands(job)[i] == DataFrom(job.content, 0, job.env)[i - 2];
      DataNumbered(job.content, i - 2);
    }
  }

  lemma DataNumbered(content: bytes, k: nat)
    requires 0 < |content| <= 0x0100_0200 && k < Packets(|content|, CHUNK_SIZE)
    ensures var f := DataFrame(content, k);
            && f.command == 0x3200 && f.frameType == (if k + 1 == Packets(|content|, CHUNK_SIZE) then 2 else 1)
            && f.status == k && f.payload == Clip(content, k * 1010, k * 1010 + 1010)
  {
    FewPackets(content);
  }
}

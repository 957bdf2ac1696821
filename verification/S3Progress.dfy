// When the upload loop comes to an end against the S3 service, and when it never does. Requests may arrive late or
// repeated, those of the file itself included, and the server may forget its sessions at any moment.
module S3Progress {
  import opened Wrappers
  import opened LocalUpload
  import opened UploadClient
  import opened S3Upload

  ghost predicate Stuck(c: Client, s: Sessions) {
    c.status == Uploading && c.fileId.Some? && c.fileId.value in s.rows
  }

  function RequestFor(chunkSize: nat, content: Bytes, name: string, c: Client): Request
    requires chunkSize > 0
  {
    RequestOf(Limits(chunkSize, 0, None), content, name, c)
  }

  /** The row is written, but the reply that would tell the client so is lost. */
  ghost predicate HiddenFinal(chunkSize: nat, content: Bytes, name: string, c: Client, s: Sessions, a: S3Upload.Attempt)
    requires chunkSize > 0
  {
    && c.status == Uploading && c.fileId.Some? && a.fate.ReplyLost? && c.index == Total(content, chunkSize) - 1
    && CreatePart(Others(s, a.before), RequestFor(chunkSize, content, name, c), a.newId, a.fault).1.Some?
  }

  /** The row is written without the client being told, by this request or by one that arrived before it. */
  ghost predicate Hidden(chunkSize: nat, content: Bytes, name: string, c: Client, s: Sessions, a: S3Upload.Attempt)
    requires chunkSize > 0
  {
    || (c.status == Uploading && c.fileId.Some? && c.fileId.value in Others(s, a.before).rows)
    || HiddenFinal(chunkSize, content, name, c, s, a)
  }

  /** Requests for other files, and no restart of the server. */
  ghost predicate LeavesAlone(before: seq<Other>, id: FileId) {
    forall o | o in before :: o.Other? && Target(o.r, o.newId) != id
  }

  /** No call to S3 fails, the answer arrives, and what arrives meanwhile is for other files. */
  ghost predicate FaultFree(c: Client, a: S3Upload.Attempt) {
    a.fate == Delivered && a.fault == NoFault && (c.fileId.Some? ==> LeavesAlone(a.before, c.fileId.value))
  }

  lemma {:induction false} LeftAlone(s: Sessions, before: seq<Other>, id: FileId)
    requires LeavesAlone(before, id)
    ensures var s' := Others(s, before);
      (id in s'.rows <==> id in s.rows) && (id in s'.sessions <==> id in s.sessions)
    decreases |before|
  {
    if before != [] {
      assert before[0] in before;
      LeftAlone(Between(s, before[0]), before[1..], id);
    }
  }

  /** A newly drawn id is in no use yet. */
  ghost predicate GoodStep(c: Client, s: Sessions, a: S3Upload.Attempt) {
    && (c.fileId.None? ==> a.newId !in Others(s, a.before).rows)
    && (a.fate.NotProcessed? ==> GetUnexpectedChunkIndex(a.fate.f).None?)
  }

  ghost predicate InLoop(content: Bytes, chunkSize: nat, c: Client) {
    && chunkSize > 0
    && (c.fileId.None? ==> c.index == 0)
    && (c.status == Uploading ==> c.index < Total(content, chunkSize))
  }

  lemma StepKeepsInLoop(content: Bytes, chunkSize: nat, name: string, c: Client, s: Sessions, a: S3Upload.Attempt)
    requires InLoop(content, chunkSize, c) && GoodStep(c, s, a)
    ensures InLoop(content, chunkSize, S3Upload.Step(chunkSize, content, name, c, s, a).0)
  {
  }

  lemma {:induction false} RowsGrow(s: Sessions, before: seq<Other>)
    ensures s.rows.Keys <= Others(s, before).rows.Keys
    decreases |before|
  {
    if before != [] {
      RowsGrow(Between(s, before[0]), before[1..]);
    }
  }

  /** From an attempt that hides the row the client is stuck or gives up; from any other it is not stuck. */
  lemma OnlyHiddenSticks(content: Bytes, chunkSize: nat, name: string, c: Client, s: Sessions, a: S3Upload.Attempt)
    requires InLoop(content, chunkSize, c) && GoodStep(c, s, a)
    ensures var (c', s') := S3Upload.Step(chunkSize, content, name, c, s, a);
      && (Hidden(chunkSize, content, name, c, s, a) ==> Stuck(c', s') || c'.status == Failed)
      && (Stuck(c', s') ==> Hidden(chunkSize, content, name, c, s, a))
  {
  }

  lemma StuckStays(content: Bytes, chunkSize: nat, name: string, c: Client, s: Sessions, a: S3Upload.Attempt)
    requires InLoop(content, chunkSize, c) && GoodStep(c, s, a) && Stuck(c, s)
    ensures var (c', s') := S3Upload.Step(chunkSize, content, name, c, s, a); Stuck(c', s') || c'.status == Failed
  {
    RowsGrow(s, a.before);
    OnlyHiddenSticks(content, chunkSize, name, c, s, a);
  }

  /** The chunks still to send; a lost session costs one attempt more. */
  ghost function Measure(content: Bytes, chunkSize: nat, c: Client, s: Sessions): int
    requires chunkSize > 0
  {
    if c.fileId.Some? && c.index > 0 && c.fileId.value !in s.sessions then Total(content, chunkSize) + 1
    else Total(content, chunkSize) - c.index
  }

  lemma FaultFreeProgress(content: Bytes, chunkSize: nat, name: string, c: Client, s: Sessions, a: S3Upload.Attempt)
    requires InLoop(content, chunkSize, c) && GoodStep(c, s, a) && !Stuck(c, s)
    requires FaultFree(c, a) && c.status == Uploading
    ensures var (c', s') := S3Upload.Step(chunkSize, content, name, c, s, a);
      c'.status == Succeeded || (c'.status == Uploading && 0 < Measure(content, chunkSize, c', s') < Measure(content, chunkSize, c, s))
  {
    if c.fileId.Some? {
      LeftAlone(s, a.before, c.fileId.value);
    }
  }

  // ---------------------------------------------------------------- whole runs

  ghost predicate GoodRun(chunkSize: nat, content: Bytes, name: string, c: Client, s: Sessions, attempts: seq<S3Upload.Attempt>)
    requires chunkSize > 0
    decreases |attempts|
  {
    attempts != [] ==>
      var (c', s') := S3Upload.Step(chunkSize, content, name, c, s, attempts[0]);
      GoodStep(c, s, attempts[0]) && GoodRun(chunkSize, content, name, c', s', attempts[1..])
  }

  /** As long as the loop runs, its attempts are without fault. */
  ghost predicate FaultFreeRun(chunkSize: nat, content: Bytes, name: string, c: Client, s: Sessions, attempts: seq<S3Upload.Attempt>)
    requires chunkSize > 0
    decreases |attempts|
  {
    attempts != [] && c.status == Uploading ==>
      var (c', s') := S3Upload.Step(chunkSize, content, name, c, s, attempts[0]);
      FaultFree(c, attempts[0]) && FaultFreeRun(chunkSize, content, name, c', s', attempts[1..])
  }

  ghost predicate EverHidden(chunkSize: nat, content: Bytes, name: string, c: Client, s: Sessions, attempts: seq<S3Upload.Attempt>)
    requires chunkSize > 0
    decreases |attempts|
  {
    attempts != [] &&
    (Hidden(chunkSize, content, name, c, s, attempts[0]) ||
     var (c', s') := S3Upload.Step(chunkSize, content, name, c, s, attempts[0]);
     EverHidden(chunkSize, content, name, c', s', attempts[1..]))
  }

  lemma {:induction false} StuckNeverSucceeds(content: Bytes, chunkSize: nat, name: string, c: Client, s: Sessions, attempts: seq<S3Upload.Attempt>)
    requires InLoop(content, chunkSize, c) && GoodRun(chunkSize, content, name, c, s, attempts)
    requires Stuck(c, s) || c.status == Failed
    ensures S3Upload.Upload(chunkSize, content, name, c, s, attempts).0.status != Succeeded
    decreases |attempts|
  {
    if attempts != [] {
      var a := attempts[0];
      StepKeepsInLoop(content, chunkSize, name, c, s, a);
      if Stuck(c, s) {
        StuckStays(content, chunkSize, name, c, s, a);
      }
      var (c', s') := S3Upload.Step(chunkSize, content, name, c, s, a);
      StuckNeverSucceeds(content, chunkSize, name, c', s', attempts[1..]);
    }
  }

  lemma {:induction false} Ended(content: Bytes, chunkSize: nat, name: string, c: Client, s: Sessions, attempts: seq<S3Upload.Attempt>)
    requires chunkSize > 0 && c.status != Uploading
    ensures S3Upload.Upload(chunkSize, content, name, c, s, attempts) == (c, s)
    ensures !EverHidden(chunkSize, content, name, c, s, attempts)
    decreases |attempts|
  {
    if attempts != [] {
      Ended(content, chunkSize, name, c, s, attempts[1..]);
    }
  }

  /** A run of attempts and a tail after its first attempt. */
  lemma RunFirst(content: Bytes, chunkSize: nat, name: string, c: Client, s: Sessions, attempts: seq<S3Upload.Attempt>, tail: seq<S3Upload.Attempt>)
    requires chunkSize > 0 && attempts != []
    ensures var (c', s') := S3Upload.Step(chunkSize, content, name, c, s, attempts[0]);
      var rest := attempts[1..];
      && S3Upload.Upload(chunkSize, content, name, c, s, attempts) == S3Upload.Upload(chunkSize, content, name, c', s', rest)
      && S3Upload.Upload(chunkSize, content, name, c, s, attempts + tail) == S3Upload.Upload(chunkSize, content, name, c', s', rest + tail)
      && (GoodRun(chunkSize, content, name, c, s, attempts + tail) ==>
            GoodStep(c, s, attempts[0]) && GoodRun(chunkSize, content, name, c', s', rest + tail))
      && (EverHidden(chunkSize, content, name, c, s, attempts) <==>
            Hidden(chunkSize, content, name, c, s, attempts[0]) || EverHidden(chunkSize, content, name, c', s', rest))
  {
    assert (attempts + tail)[0] == attempts[0] && (attempts + tail)[1..] == attempts[1..] + tail;
  }

  /**
   * After any attempts with faults, followed by enough attempts without, other files being uploaded all the time:
   * unless an answer from elsewhere ended the loop for good, it returns true exactly when the row was never written
   * without the client being told.
   */
  lemma {:induction false} UploadOutcome(content: Bytes, chunkSize: nat, name: string, c: Client, s: Sessions, attempts: seq<S3Upload.Attempt>, tail: seq<S3Upload.Attempt>)
    requires InLoop(content, chunkSize, c) && !Stuck(c, s)
    requires GoodRun(chunkSize, content, name, c, s, attempts + tail)
    requires var (c', s') := S3Upload.Upload(chunkSize, content, name, c, s, attempts); FaultFreeRun(chunkSize, content, name, c', s', tail)
    requires |tail| >= Total(content, chunkSize) + 1
    ensures var (c', _) := S3Upload.Upload(chunkSize, content, name, c, s, attempts + tail);
      c'.status != Failed ==>
        (c'.status == Succeeded <==> !EverHidden(chunkSize, content, name, c, s, attempts))
    decreases |attempts|
  {
    if c.status != Uploading {
      Ended(content, chunkSize, name, c, s, attempts + tail);
      Ended(content, chunkSize, name, c, s, attempts);
    } else if attempts == [] {
      assert attempts + tail == tail;
      FaultFreeEnds(content, chunkSize, name, c, s, tail);
    } else {
      var a := attempts[0];
      RunFirst(content, chunkSize, name, c, s, attempts, tail);
      StepKeepsInLoop(content, chunkSize, name, c, s, a);
      OnlyHiddenSticks(content, chunkSize, name, c, s, a);
      var (c', s') := S3Upload.Step(chunkSize, content, name, c, s, a);
      if Hidden(chunkSize, content, name, c, s, a) {
        StuckNeverSucceeds(content, chunkSize, name, c', s', attempts[1..] + tail);
      } else {
        UploadOutcome(content, chunkSize, name, c', s', attempts[1..], tail);
      }
    }
  }

  lemma {:induction false} FaultFreeEnds(content: Bytes, chunkSize: nat, name: string, c: Client, s: Sessions, tail: seq<S3Upload.Attempt>)
    requires InLoop(content, chunkSize, c) && !Stuck(c, s)
    requires GoodRun(chunkSize, content, name, c, s, tail) && FaultFreeRun(chunkSize, content, name, c, s, tail)
    requires c.status == Uploading && |tail| >= Measure(content, chunkSize, c, s) > 0
    ensures S3Upload.Upload(chunkSize, content, name, c, s, tail).0.status == Succeeded
    decreases |tail|
  {
    var a := tail[0];
    if c.fileId.Some? {
      LeftAlone(s, a.before, c.fileId.value);
    }
    StepKeepsInLoop(content, chunkSize, name, c, s, a);
    OnlyHiddenSticks(content, chunkSize, name, c, s, a);
    FaultFreeProgress(content, chunkSize, name, c, s, a);
    var (c', s') := S3Upload.Step(chunkSize, content, name, c, s, a);
    if c'.status == Succeeded {
      Ended(content, chunkSize, name, c', s', tail[1..]);
    } else {
      FaultFreeEnds(content, chunkSize, name, c', s', tail[1..]);
    }
  }
}

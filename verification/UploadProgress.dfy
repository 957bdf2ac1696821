// When the upload loop of EditableUpload.tsx comes to an end, and when it never does.
module UploadProgress {
  import opened Wrappers
  import opened LocalUpload
  import opened UploadSafety
  import opened UploadClient

  /** The share already has a row for the id the client is still uploading under. */
  ghost predicate Stuck(c: Client, s: Store) {
    c.status == Uploading && c.fileId.Some? && HasRow(s.rows, c.fileId.value)
  }

  /** This attempt gets the file recorded, but its reply is lost. */
  ghost predicate HiddenFinal(limits: Limits, content: Bytes, name: string, c: Client, s: Store, a: Attempt)
    requires limits.chunkSize > 0
  {
    && c.status == Uploading && c.fileId.Some? && a.fate.ReplyLost?
    && c.index == Total(content, limits.chunkSize) - 1
    && Create(limits, Arrival(limits, s, a), RequestOf(limits, content, name, c), a.newId, a.space).1.Stored?
  }

  /**
   * The file gets recorded without the client being told: a late or repeated copy of its last chunk arrives before
   * this attempt does, or the reply to this attempt is lost.
   */
  ghost predicate Hidden(limits: Limits, content: Bytes, name: string, c: Client, s: Store, a: Attempt)
    requires limits.chunkSize > 0
  {
    || (c.status == Uploading && c.fileId.Some? && HasRow(Arrival(limits, s, a).rows, c.fileId.value))
    || HiddenFinal(limits, content, name, c, s, a)
  }

  ghost predicate NobodyRemoves(events: seq<Event>, id: FileId) {
    forall e | e in events :: e.Remove? ==> e.id != id
  }

  /** Nobody removes the file meanwhile, and a newly drawn id is in no use yet. */
  ghost predicate OwnId(limits: Limits, c: Client, s: Store, a: Attempt)
    requires limits.chunkSize > 0
  {
    if c.fileId.Some? then NobodyRemoves(a.before, c.fileId.value)
    else
      var arrived := Arrival(limits, s, a);
      a.newId !in arrived.temp && !HasRow(arrived.rows, a.newId)
  }

  /** Requests for other files, clean-ups and removals of others, and locks: nothing that concerns this id. */
  ghost predicate LeavesAlone(events: seq<Event>, id: FileId) {
    forall e | e in events ::
      && (e.Received? ==> Target(e.r, e.newId) != id)
      && (e.CleanUp? ==> id !in e.aged)
      && (e.Remove? ==> e.id != id)
  }

  /** The answer arrives, and whatever else happens to the share meanwhile leaves the file of the client alone. */
  ghost predicate FaultFree(c: Client, a: Attempt) {
    a.fate == Delivered && (c.fileId.Some? ==> LeavesAlone(a.before, c.fileId.value))
  }

  lemma HasRowAppend(rows: seq<Row>, row: Row, id: FileId)
    ensures HasRow(rows + [row], id) <==> HasRow(rows, id) || row.id == id
  {
    assert (rows + [row])[|rows|] == row;
    if HasRow(rows, id) {
      var k :| 0 <= k < |rows| && rows[k].id == id;
      assert (rows + [row])[k].id == id;
    }
  }

  /** Which ids have a row after one request. */
  lemma RowsAfterCreate(limits: Limits, s: Store, r: Request, newId: FileId, space: nat, id: FileId)
    requires limits.chunkSize > 0
    ensures var (s', reply) := Create(limits, s, r, newId, space);
      HasRow(s'.rows, id) <==> HasRow(s.rows, id) || (reply == Stored(id) && r.index == r.total - 1)
  {
    HasRowAppend(s.rows, Row(Target(r, newId), r.name, |TempOf(s, Target(r, newId)) + r.data|), id);
  }

  /** A last chunk is recorded only under an id that had no row. */
  lemma FinalNeedsNoRow(limits: Limits, s: Store, r: Request, newId: FileId, space: nat)
    requires limits.chunkSize > 0
    requires Create(limits, s, r, newId, space).1.Stored? && r.index == r.total - 1
    ensures !HasRow(s.rows, Target(r, newId))
  {
  }

  lemma {:induction false} RowStays(limits: Limits, s: Store, events: seq<Event>, id: FileId)
    requires limits.chunkSize > 0 && NobodyRemoves(events, id) && HasRow(s.rows, id)
    ensures HasRow(Run(limits, s, events).rows, id)
    decreases |events|
  {
    if events != [] {
      var e := events[0];
      assert e in events;
      match e {
        case Received(r, newId, space) => RowsAfterCreate(limits, s, r, newId, space, id);
        case CleanUp(aged) =>
        case Remove(other) => OtherRowStays(s.rows, other, id);
        case SetLock(_) =>
      }
      RowStays(limits, Apply(limits, s, e), events[1..], id);
    }
  }

  lemma OtherRowStays(rows: seq<Row>, removed: FileId, id: FileId)
    requires removed != id
    ensures HasRow(WithoutRow(rows, removed), id) <==> HasRow(rows, id)
  {
    WithoutRowKeeps(rows, removed);
    var rest := WithoutRow(rows, removed);
    if HasRow(rows, id) {
      var k :| 0 <= k < |rows| && rows[k].id == id;
      assert rows[k] in rest;
    }
    if HasRow(rest, id) {
      var k :| 0 <= k < |rest| && rest[k].id == id;
      assert rest[k] in rows;
    }
  }

  /** What leaves an id alone changes neither its temporary file nor whether it has a row. */
  lemma {:induction false} LeftAlone(limits: Limits, s: Store, events: seq<Event>, id: FileId)
    requires limits.chunkSize > 0 && LeavesAlone(events, id)
    ensures var s' := Run(limits, s, events);
      TempOf(s', id) == TempOf(s, id) && (HasRow(s'.rows, id) <==> HasRow(s.rows, id))
    decreases |events|
  {
    if events != [] {
      var e := events[0];
      assert e in events;
      match e {
        case Received(r, newId, space) =>
          OnlyTargetChanges(limits, s, r, newId, space, id);
          RowsAfterCreate(limits, s, r, newId, space, id);
          if Create(limits, s, r, newId, space).1.Stored? {
            AcceptedInStep(limits, s, r, newId, space);
          }
        case CleanUp(aged) =>
        case Remove(other) => OtherRowStays(s.rows, other, id);
        case SetLock(_) =>
      }
      LeftAlone(limits, Apply(limits, s, e), events[1..], id);
    }
  }

  // ---------------------------------------------------------------- the only way to get stuck

  /** A request that is answered leaves the client stuck, or fails for good, exactly if its id had a row before. */
  lemma AnsweredSticks(limits: Limits, contents: Contents, content: Bytes, name: string, c: Client, s: Store, newId: FileId, space: nat)
    requires ClientInv(limits, contents, content, c, s) && c.status == Uploading
    requires newId in contents && contents[newId] == content
    ensures var r := RequestOf(limits, content, name, c);
      var (s', reply) := Create(limits, s, r, newId, space);
      var c' := Advance(c, Total(content, limits.chunkSize), Some(reply), NoResponse);
      && (Stuck(c', s') ==> HasRow(s.rows, Target(r, newId)))
      && (HasRow(s.rows, Target(r, newId)) && c.fileId.Some? ==> Stuck(c', s') || c'.status == Failed)
  {
    var r := RequestOf(limits, content, name, c);
    var reply := Create(limits, s, r, newId, space).1;
    ExpectedInRange(limits, contents, s, Target(r, newId));
    RowsAfterCreate(limits, s, r, newId, space, Target(r, newId));
    if reply.Stored? {
      AcceptedInStep(limits, s, r, newId, space);
      if r.index == r.total - 1 {
        FinalNeedsNoRow(limits, s, r, newId, space);
      }
    } else {
      PermanentErrors(reply.error);
    }
  }

  /** From an attempt that hides the recording the client is stuck or gives up; from any other it is not stuck. */
  lemma OnlyHiddenSticks(limits: Limits, contents: Contents, content: Bytes, name: string, c: Client, s: Store, a: Attempt)
    requires ClientInv(limits, contents, content, c, s) && GoodAttempt(limits, contents, content, a)
    requires OwnId(limits, c, s, a)
    ensures var (c', s') := Step(limits, content, name, c, s, a);
      && (Hidden(limits, content, name, c, s, a) ==> Stuck(c', s') || c'.status == Failed)
      && (Stuck(c', s') ==> Hidden(limits, content, name, c, s, a))
  {
    if c.status == Uploading {
      var arrived, r := Arrival(limits, s, a), RequestOf(limits, content, name, c);
      RunKeepsInv(limits, contents, s, a.before);
      if a.fate.Delivered? {
        AnsweredSticks(limits, contents, content, name, c, arrived, a.newId, a.space);
      } else {
        RowsAfterCreate(limits, arrived, r, a.newId, a.space, Target(r, a.newId));
        if a.fate.ReplyLost? && Create(limits, arrived, r, a.newId, a.space).1.Stored? {
          AcceptedInStep(limits, arrived, r, a.newId, a.space);
        }
      }
    }
  }

  /** Once stuck, no attempt ever makes the loop return true. */
  lemma StuckStays(limits: Limits, contents: Contents, content: Bytes, name: string, c: Client, s: Store, a: Attempt)
    requires ClientInv(limits, contents, content, c, s) && GoodAttempt(limits, contents, content, a)
    requires OwnId(limits, c, s, a) && Stuck(c, s)
    ensures var (c', s') := Step(limits, content, name, c, s, a); Stuck(c', s') || c'.status == Failed
  {
    RowStays(limits, s, a.before, c.fileId.value);
    OnlyHiddenSticks(limits, contents, content, name, c, s, a);
  }

  // ---------------------------------------------------------------- progress without faults

  /** The chunks the server still waits for, and whether the client is out of step. */
  ghost function Measure(limits: Limits, content: Bytes, c: Client, s: Store): int
    requires limits.chunkSize > 0
  {
    var expected := if c.fileId.Some? then Expected(limits, s, c.fileId.value) else 0;
    2 * (Total(content, limits.chunkSize) - expected) + (if c.index == expected then 0 else 1)
  }

  ghost predicate FirstChunkFirst(c: Client) {
    c.fileId.None? ==> c.index == 0
  }

  lemma StepFirstChunkFirst(limits: Limits, content: Bytes, name: string, c: Client, s: Store, a: Attempt)
    requires limits.chunkSize > 0 && OwnId(limits, c, s, a) && FirstChunkFirst(c)
    requires a.fate.NotProcessed? ==> GetUnexpectedChunkIndex(a.fate.f).None?
    ensures FirstChunkFirst(Step(limits, content, name, c, s, a).0)
  {
    if c.fileId.None? && !a.fate.NotProcessed? {
      CeilDivMultiple(0, limits.chunkSize);
    }
  }

  /** The index the server expects after it accepted a chunk that was not the last. */
  lemma NextExpected(limits: Limits, contents: Contents, s: Store, r: Request, newId: FileId, space: nat)
    requires Inv(limits, contents, s) && Honest(limits, contents, r, newId)
    requires Create(limits, s, r, newId, space).1.Stored? && r.index < r.total - 1
    ensures Expected(limits, Create(limits, s, r, newId, space).0, Target(r, newId)) == r.index + 1
  {
    AcceptedInStep(limits, s, r, newId, space);
    ChunkAdded(limits, contents, s, r, newId);
    PrefixIndex(contents[Target(r, newId)], limits.chunkSize, r.index + 1);
  }

  /** An answer to a request in step either ends the loop or moves the server on; one out of step puts the client in step. */
  lemma AnswerProgress(limits: Limits, contents: Contents, content: Bytes, name: string, c: Client, s: Store, newId: FileId, space: nat)
    requires ClientInv(limits, contents, content, c, s) && c.status == Uploading
    requires newId in contents && contents[newId] == content
    requires !HasRow(s.rows, Target(RequestOf(limits, content, name, c), newId))
    ensures var r := RequestOf(limits, content, name, c);
      var (s', reply) := Create(limits, s, r, newId, space);
      var c' := Advance(c, Total(content, limits.chunkSize), Some(reply), NoResponse);
      c'.status == Uploading ==>
        if Expected(limits, s, Target(r, newId)) == c.index then
          c'.fileId == Some(Target(r, newId)) && c'.index == c.index + 1 == Expected(limits, s', Target(r, newId))
        else s' == s && c'.fileId == c.fileId && c'.index == Expected(limits, s, Target(r, newId))
  {
    var r := RequestOf(limits, content, name, c);
    var reply := Create(limits, s, r, newId, space).1;
    RequestIsHonest(limits, contents, content, name, c, s, newId);
    if reply.Stored? {
      AcceptedInStep(limits, s, r, newId, space);
      if r.index < r.total - 1 {
        NextExpected(limits, contents, s, r, newId, space);
      }
    } else {
      PermanentErrors(reply.error);
    }
  }

  /** The request finds the file of the client as the client left it, however much else arrived before. */
  lemma ArrivesInStep(limits: Limits, c: Client, s: Store, a: Attempt)
    requires limits.chunkSize > 0 && OwnId(limits, c, s, a) && !Stuck(c, s) && FaultFree(c, a) && c.status == Uploading
    ensures var arrived := Arrival(limits, s, a);
      if c.fileId.Some? then
        !HasRow(arrived.rows, c.fileId.value) && Expected(limits, arrived, c.fileId.value) == Expected(limits, s, c.fileId.value)
      else !HasRow(arrived.rows, a.newId) && Expected(limits, arrived, a.newId) == 0
  {
    if c.fileId.Some? {
      LeftAlone(limits, s, a.before, c.fileId.value);
    }
    CeilDivMultiple(0, limits.chunkSize);
  }

  lemma FaultFreeProgress(limits: Limits, contents: Contents, content: Bytes, name: string, c: Client, s: Store, a: Attempt)
    requires ClientInv(limits, contents, content, c, s) && GoodAttempt(limits, contents, content, a)
    requires OwnId(limits, c, s, a) && FirstChunkFirst(c) && !Stuck(c, s) && FaultFree(c, a) && c.status == Uploading
    ensures var (c', s') := Step(limits, content, name, c, s, a);
      c'.status == Uploading ==> 0 < Measure(limits, content, c', s') < Measure(limits, content, c, s)
  {
    var arrived, id := Arrival(limits, s, a), Target(RequestOf(limits, content, name, c), a.newId);
    RunKeepsInv(limits, contents, s, a.before);
    ArrivesInStep(limits, c, s, a);
    AnswerProgress(limits, contents, content, name, c, arrived, a.newId, a.space);
    StepKeepsInv(limits, contents, content, name, c, s, a);
    ExpectedInRange(limits, contents, arrived, id);
  }

  // ---------------------------------------------------------------- whole runs

  ghost predicate OwnRun(limits: Limits, content: Bytes, name: string, c: Client, s: Store, attempts: seq<Attempt>)
    requires limits.chunkSize > 0
    decreases |attempts|
  {
    attempts != [] ==>
      var (c', s') := Step(limits, content, name, c, s, attempts[0]);
      OwnId(limits, c, s, attempts[0]) && OwnRun(limits, content, name, c', s', attempts[1..])
  }

  /** As long as the loop runs, its attempts are without fault. */
  ghost predicate FaultFreeRun(limits: Limits, content: Bytes, name: string, c: Client, s: Store, attempts: seq<Attempt>)
    requires limits.chunkSize > 0
    decreases |attempts|
  {
    attempts != [] && c.status == Uploading ==>
      var (c', s') := Step(limits, content, name, c, s, attempts[0]);
      FaultFree(c, attempts[0]) && FaultFreeRun(limits, content, name, c', s', attempts[1..])
  }

  /** At some attempt of the run the file gets recorded without the client being told. */
  ghost predicate EverHidden(limits: Limits, content: Bytes, name: string, c: Client, s: Store, attempts: seq<Attempt>)
    requires limits.chunkSize > 0
    decreases |attempts|
  {
    attempts != [] &&
    (Hidden(limits, content, name, c, s, attempts[0]) ||
     var (c', s') := Step(limits, content, name, c, s, attempts[0]);
     EverHidden(limits, content, name, c', s', attempts[1..]))
  }

  lemma {:induction false} StuckNeverSucceeds(limits: Limits, contents: Contents, content: Bytes, name: string, c: Client, s: Store, attempts: seq<Attempt>)
    requires ClientInv(limits, contents, content, c, s) && GoodAttempts(limits, contents, content, attempts)
    requires OwnRun(limits, content, name, c, s, attempts) && (Stuck(c, s) || c.status == Failed)
    ensures var (c', s') := Upload(limits, content, name, c, s, attempts); Stuck(c', s') || c'.status == Failed
    decreases |attempts|
  {
    if attempts != [] {
      var a := attempts[0];
      assert a in attempts;
      StepKeepsInv(limits, contents, content, name, c, s, a);
      if Stuck(c, s) {
        StuckStays(limits, contents, content, name, c, s, a);
      }
      var (c', s') := Step(limits, content, name, c, s, a);
      StuckNeverSucceeds(limits, contents, content, name, c', s', attempts[1..]);
    }
  }

  /** A run that starts well ends stuck or failed if it ever hid the recording, and not stuck otherwise. */
  lemma {:induction false} HiddenDecides(limits: Limits, contents: Contents, content: Bytes, name: string, c: Client, s: Store, attempts: seq<Attempt>)
    requires ClientInv(limits, contents, content, c, s) && GoodAttempts(limits, contents, content, attempts)
    requires OwnRun(limits, content, name, c, s, attempts) && !Stuck(c, s) && FirstChunkFirst(c)
    ensures var (c', s') := Upload(limits, content, name, c, s, attempts);
      && ClientInv(limits, contents, content, c', s') && FirstChunkFirst(c')
      && (if EverHidden(limits, content, name, c, s, attempts) then Stuck(c', s') || c'.status == Failed
          else !Stuck(c', s'))
    decreases |attempts|
  {
    if attempts != [] {
      var a := attempts[0];
      assert a in attempts;
      StepKeepsInv(limits, contents, content, name, c, s, a);
      OnlyHiddenSticks(limits, contents, content, name, c, s, a);
      StepFirstChunkFirst(limits, content, name, c, s, a);
      var (c', s') := Step(limits, content, name, c, s, a);
      if Hidden(limits, content, name, c, s, a) {
        UploadKeepsInv(limits, contents, content, name, c', s', attempts[1..]);
        StuckNeverSucceeds(limits, contents, content, name, c', s', attempts[1..]);
        RunFirstChunkFirst(limits, contents, content, name, c', s', attempts[1..]);
      } else {
        HiddenDecides(limits, contents, content, name, c', s', attempts[1..]);
      }
    }
  }

  lemma {:induction false} RunFirstChunkFirst(limits: Limits, contents: Contents, content: Bytes, name: string, c: Client, s: Store, attempts: seq<Attempt>)
    requires limits.chunkSize > 0 && GoodAttempts(limits, contents, content, attempts)
    requires OwnRun(limits, content, name, c, s, attempts) && FirstChunkFirst(c)
    ensures FirstChunkFirst(Upload(limits, content, name, c, s, attempts).0)
    decreases |attempts|
  {
    if attempts != [] {
      assert attempts[0] in attempts;
      StepFirstChunkFirst(limits, content, name, c, s, attempts[0]);
      var (c', s') := Step(limits, content, name, c, s, attempts[0]);
      RunFirstChunkFirst(limits, contents, content, name, c', s', attempts[1..]);
    }
  }

  lemma {:induction false} FaultFreeEnds(limits: Limits, contents: Contents, content: Bytes, name: string, c: Client, s: Store, tail: seq<Attempt>)
    requires ClientInv(limits, contents, content, c, s) && GoodAttempts(limits, contents, content, tail)
    requires OwnRun(limits, content, name, c, s, tail) && !Stuck(c, s) && FirstChunkFirst(c)
    requires FaultFreeRun(limits, content, name, c, s, tail)
    requires c.status == Uploading ==> |tail| >= Measure(limits, content, c, s) > 0
    ensures Upload(limits, content, name, c, s, tail).0.status != Uploading
    decreases |tail|
  {
    if c.status != Uploading {
      UploadEnded(limits, content, name, c, s, tail);
    } else {
      var a := tail[0];
      assert a in tail;
      StepKeepsInv(limits, contents, content, name, c, s, a);
      OnlyHiddenSticks(limits, contents, content, name, c, s, a);
      ArrivesInStep(limits, c, s, a);
      StepFirstChunkFirst(limits, content, name, c, s, a);
      FaultFreeProgress(limits, contents, content, name, c, s, a);
      var (c', s') := Step(limits, content, name, c, s, a);
      FaultFreeEnds(limits, contents, content, name, c', s', tail[1..]);
    }
  }

  // ---------------------------------------------------------------- room for the file

  /** The share is open, and the file fits in beside the rows it has. */
  ghost predicate Room(limits: Limits, content: Bytes, s: Store) {
    !s.locked && Fits(limits, SumSizes(s.rows) + |content|)
  }

  /** A request that arrives finds room for the file, and no answer from elsewhere ends the loop. */
  ghost predicate Ample(limits: Limits, content: Bytes, s: Store, a: Attempt)
    requires limits.chunkSize > 0
  {
    if a.fate.NotProcessed? then !IsPermanentUploadError(a.fate.f)
    else a.space >= |content| && Room(limits, content, Arrival(limits, s, a))
  }

  ghost predicate AmpleRun(limits: Limits, content: Bytes, name: string, c: Client, s: Store, attempts: seq<Attempt>)
    requires limits.chunkSize > 0
    decreases |attempts|
  {
    attempts != [] && c.status == Uploading ==>
      var (c', s') := Step(limits, content, name, c, s, attempts[0]);
      Ample(limits, content, s, attempts[0]) && AmpleRun(limits, content, name, c', s', attempts[1..])
  }

  /** With room for the file at its arrival no request makes the loop give up. */
  lemma RoomStep(limits: Limits, contents: Contents, content: Bytes, name: string, c: Client, s: Store, a: Attempt)
    requires ClientInv(limits, contents, content, c, s) && GoodAttempt(limits, contents, content, a)
    requires c.status == Uploading && Ample(limits, content, s, a)
    ensures Step(limits, content, name, c, s, a).0.status != Failed
  {
    if a.fate.Delivered? {
      RunKeepsInv(limits, contents, s, a.before);
      RoomAnswer(limits, contents, content, name, c, Arrival(limits, s, a), a.newId, a.space);
    }
  }

  lemma RoomAnswer(limits: Limits, contents: Contents, content: Bytes, name: string, c: Client, s: Store, newId: FileId, space: nat)
    requires ClientInv(limits, contents, content, c, s) && c.status == Uploading
    requires newId in contents && contents[newId] == content && space >= |content| && Room(limits, content, s)
    ensures var reply := Create(limits, s, RequestOf(limits, content, name, c), newId, space).1;
      Advance(c, Total(content, limits.chunkSize), Some(reply), NoResponse).status != Failed
  {
    var r := RequestOf(limits, content, name, c);
    var reply := Create(limits, s, r, newId, space).1;
    RequestIsHonest(limits, contents, content, name, c, s, newId);
    if Expected(limits, s, Target(r, newId)) == r.index {
      ChunkAdded(limits, contents, s, r, newId);
    }
    if reply.Refused? {
      PermanentErrors(reply.error);
    }
  }

  /** Whatever faults there are and whatever else happens, the loop does not give up while every request finds room. */
  lemma {:induction false} RoomSuffices(limits: Limits, contents: Contents, content: Bytes, name: string, c: Client, s: Store, attempts: seq<Attempt>)
    requires ClientInv(limits, contents, content, c, s) && GoodAttempts(limits, contents, content, attempts)
    requires c.status != Failed && AmpleRun(limits, content, name, c, s, attempts)
    ensures Upload(limits, content, name, c, s, attempts).0.status != Failed
    decreases |attempts|
  {
    if c.status != Uploading {
      UploadEnded(limits, content, name, c, s, attempts);
    } else if attempts != [] {
      var a := attempts[0];
      assert a in attempts;
      StepKeepsInv(limits, contents, content, name, c, s, a);
      RoomStep(limits, contents, content, name, c, s, a);
      var (c', s') := Step(limits, content, name, c, s, a);
      RoomSuffices(limits, contents, content, name, c', s', attempts[1..]);
    }
  }

  lemma {:induction false} UploadAppend(limits: Limits, content: Bytes, name: string, c: Client, s: Store, a: seq<Attempt>, b: seq<Attempt>)
    requires limits.chunkSize > 0
    ensures var (c', s') := Upload(limits, content, name, c, s, a);
      && Upload(limits, content, name, c, s, a + b) == Upload(limits, content, name, c', s', b)
      && (OwnRun(limits, content, name, c, s, a + b) <==>
            OwnRun(limits, content, name, c, s, a) && OwnRun(limits, content, name, c', s', b))
    decreases |a|
  {
    if a == [] {
      assert a + b == b;
    } else {
      assert (a + b)[0] == a[0] && (a + b)[1..] == a[1..] + b;
      var (c', s') := Step(limits, content, name, c, s, a[0]);
      UploadAppend(limits, content, name, c', s', a[1..], b);
    }
  }

  /**
   * After any attempts with faults, followed by enough attempts without, other uploads of the share going on all the
   * time: unless the server refuses for good, the loop returns true exactly when the file never got recorded without
   * the client being told. And the server does not refuse for good as long as requests find room for the file.
   */
  lemma UploadOutcome(limits: Limits, contents: Contents, content: Bytes, name: string, s: Store, attempts: seq<Attempt>, tail: seq<Attempt>)
    requires Inv(limits, contents, s)
    requires GoodAttempts(limits, contents, content, attempts) && GoodAttempts(limits, contents, content, tail)
    requires OwnRun(limits, content, name, Start, s, attempts + tail)
    requires |tail| >= 2 * Total(content, limits.chunkSize) + 1
    ensures var (c, s') := Upload(limits, content, name, Start, s, attempts);
      var end := Upload(limits, content, name, Start, s, attempts + tail).0;
      FaultFreeRun(limits, content, name, c, s', tail) ==>
        && (end.status != Failed ==>
              (end.status == Succeeded <==> !EverHidden(limits, content, name, Start, s, attempts)))
        && (c.status != Failed && !EverHidden(limits, content, name, Start, s, attempts) ==>
              (AmpleRun(limits, content, name, c, s', tail) ==> end.status == Succeeded))
  {
    var (c, s') := Upload(limits, content, name, Start, s, attempts);
    UploadAppend(limits, content, name, Start, s, attempts, tail);
    HiddenDecides(limits, contents, content, name, Start, s, attempts);
    if EverHidden(limits, content, name, Start, s, attempts) {
      StuckNeverSucceeds(limits, contents, content, name, c, s', tail);
    } else if FaultFreeRun(limits, content, name, c, s', tail) {
      if c.status == Uploading && c.fileId.Some? {
        ExpectedInRange(limits, contents, s', c.fileId.value);
      }
      FaultFreeEnds(limits, contents, content, name, c, s', tail);
      if c.status != Failed && AmpleRun(limits, content, name, c, s', tail) {
        RoomSuffices(limits, contents, content, name, c, s', tail);
      }
    }
  }

  /** Two chunks, the second one stored but its reply lost: from then on the loop never returns true. */
  lemma LostFinalReply(limits: Limits, contents: Contents, content: Bytes, name: string, id: FileId, retries: seq<Attempt>)
    requires limits.chunkSize == 1 && |content| == 2 && Fits(limits, 2)
    requires id in contents && contents[id] == content && GoodAttempts(limits, contents, content, retries)
    requires forall a | a in retries :: NobodyRemoves(a.before, id)
    ensures var sent := [Attempt([], Delivered, id, 1), Attempt([], ReplyLost, id, 1)];
      && EverHidden(limits, content, name, Start, EmptyStore, sent)
      && Upload(limits, content, name, Start, EmptyStore, sent + retries).0.status != Succeeded
  {
    var first, second := Attempt([], Delivered, id, 1), Attempt([], ReplyLost, id, 1);
    FirstDelivered(limits, content, name, id);
    var (c1, s1) := Step(limits, content, name, Start, EmptyStore, first);
    SecondStored(limits, content, name, id, s1);
    assert HiddenFinal(limits, content, name, c1, s1, second);
    SecondHidden(limits, content, name, Start, EmptyStore, first, second);
    HiddenRetries(limits, contents, content, name, EmptyStore, [first, second], retries);
  }

  /**
   * Two chunks, the request for the second one delayed until after the client has given up waiting: it records the
   * file while the client starts over, and from then on the loop never returns true.
   */
  lemma LateFinalChunk(limits: Limits, contents: Contents, content: Bytes, name: string, id: FileId, retries: seq<Attempt>)
    requires limits.chunkSize == 1 && |content| == 2 && Fits(limits, 2)
    requires id in contents && contents[id] == content && GoodAttempts(limits, contents, content, retries)
    requires forall a | a in retries :: NobodyRemoves(a.before, id)
    ensures var late := RequestOf(limits, content, name, Client(1, Some(id), Uploading));
      var sent := [Attempt([], Delivered, id, 1), Attempt([], NotProcessed(NoResponse), id, 1), Attempt([Received(late, id, 1)], Delivered, id, 1)];
      && EverHidden(limits, content, name, Start, EmptyStore, sent)
      && Upload(limits, content, name, Start, EmptyStore, sent + retries).0.status != Succeeded
  {
    var late := RequestOf(limits, content, name, Client(1, Some(id), Uploading));
    var first, second := Attempt([], Delivered, id, 1), Attempt([], NotProcessed(NoResponse), id, 1);
    var third := Attempt([Received(late, id, 1)], Delivered, id, 1);
    LateHidden(limits, content, name, id);
    HiddenRetries(limits, contents, content, name, EmptyStore, [first, second, third], retries);
  }

  lemma LateHidden(limits: Limits, content: Bytes, name: string, id: FileId)
    requires limits.chunkSize == 1 && |content| == 2 && Fits(limits, 2)
    ensures var late := RequestOf(limits, content, name, Client(1, Some(id), Uploading));
      var sent := [Attempt([], Delivered, id, 1), Attempt([], NotProcessed(NoResponse), id, 1), Attempt([Received(late, id, 1)], Delivered, id, 1)];
      && EverHidden(limits, content, name, Start, EmptyStore, sent) && OwnRun(limits, content, name, Start, EmptyStore, sent)
      && Upload(limits, content, name, Start, EmptyStore, sent).0.fileId == Some(id)
  {
    var late := RequestOf(limits, content, name, Client(1, Some(id), Uploading));
    var first, second := Attempt([], Delivered, id, 1), Attempt([], NotProcessed(NoResponse), id, 1);
    var third := Attempt([Received(late, id, 1)], Delivered, id, 1);
    FirstDelivered(limits, content, name, id);
    var (c1, s1) := Step(limits, content, name, Start, EmptyStore, first);
    var (c2, s2) := Step(limits, content, name, c1, s1, second);
    assert c2 == Client(0, Some(id), Uploading) && s2 == s1;
    LateRecorded(limits, content, name, id, s2);
    assert Hidden(limits, content, name, c2, s2, third);
    KeepsId(limits, content, name, c2, s2, third);
    ThirdHidden(limits, content, name, Start, EmptyStore, first, second, third);
  }

  lemma SecondHidden(limits: Limits, content: Bytes, name: string, c: Client, s: Store, a1: Attempt, a2: Attempt)
    requires limits.chunkSize > 0
    ensures var (c1, s1) := Step(limits, content, name, c, s, a1);
      && Upload(limits, content, name, c, s, [a1, a2]) == Step(limits, content, name, c1, s1, a2)
      && (Hidden(limits, content, name, c1, s1, a2) ==> EverHidden(limits, content, name, c, s, [a1, a2]))
      && (OwnId(limits, c, s, a1) && OwnId(limits, c1, s1, a2) ==> OwnRun(limits, content, name, c, s, [a1, a2]))
  {
    var (c1, s1) := Step(limits, content, name, c, s, a1);
    var (c2, s2) := Step(limits, content, name, c1, s1, a2);
    assert [a1, a2][1..] == [a2] && [a2][1..] == [];
    assert Upload(limits, content, name, c, s, [a1, a2]) == Upload(limits, content, name, c1, s1, [a2])
        == Upload(limits, content, name, c2, s2, []);
    assert OwnRun(limits, content, name, c2, s2, []);
    assert OwnRun(limits, content, name, c1, s1, [a2]) <==> OwnId(limits, c1, s1, a2);
    assert Hidden(limits, content, name, c1, s1, a2) ==> EverHidden(limits, content, name, c1, s1, [a2]);
  }

  lemma ThirdHidden(limits: Limits, content: Bytes, name: string, c: Client, s: Store, a1: Attempt, a2: Attempt, a3: Attempt)
    requires limits.chunkSize > 0
    ensures var (c1, s1) := Step(limits, content, name, c, s, a1);
      var (c2, s2) := Step(limits, content, name, c1, s1, a2);
      && Upload(limits, content, name, c, s, [a1, a2, a3]) == Step(limits, content, name, c2, s2, a3)
      && (Hidden(limits, content, name, c2, s2, a3) ==> EverHidden(limits, content, name, c, s, [a1, a2, a3]))
      && (OwnId(limits, c, s, a1) && OwnId(limits, c1, s1, a2) && OwnId(limits, c2, s2, a3) ==>
            OwnRun(limits, content, name, c, s, [a1, a2, a3]))
  {
    var (c1, s1) := Step(limits, content, name, c, s, a1);
    assert [a1, a2, a3][1..] == [a2, a3];
    SecondHidden(limits, content, name, c1, s1, a2, a3);
  }

  /** Once the recording was hidden, no retries make the loop return true, however they go, if nobody removes the file. */
  lemma HiddenRetries(limits: Limits, contents: Contents, content: Bytes, name: string, s: Store, attempts: seq<Attempt>, retries: seq<Attempt>)
    requires Inv(limits, contents, s)
    requires GoodAttempts(limits, contents, content, attempts) && GoodAttempts(limits, contents, content, retries)
    requires OwnRun(limits, content, name, Start, s, attempts) && EverHidden(limits, content, name, Start, s, attempts)
    requires var c := Upload(limits, content, name, Start, s, attempts).0;
      c.fileId.Some? && forall a | a in retries :: NobodyRemoves(a.before, c.fileId.value)
    ensures Upload(limits, content, name, Start, s, attempts + retries).0.status != Succeeded
  {
    var (c, s') := Upload(limits, content, name, Start, s, attempts);
    UploadAppend(limits, content, name, Start, s, attempts, retries);
    HiddenDecides(limits, contents, content, name, Start, s, attempts);
    RetriesOwn(limits, content, name, c, s', retries);
    StuckNeverSucceeds(limits, contents, content, name, c, s', retries);
  }

  /** The second one arrives and is recorded. */
  lemma SecondStored(limits: Limits, content: Bytes, name: string, id: FileId, s: Store)
    requires limits.chunkSize == 1 && |content| == 2 && Fits(limits, 2)
    requires s == Store(map[id := content[0..1]], map[], [], false)
    ensures var r := RequestOf(limits, content, name, Client(1, Some(id), Uploading));
      Create(limits, s, r, id, 1).1 == Stored(id) && r.index == r.total - 1
  {
    assert Total(content, 1) == 2 && |Slice(content, 1, 1)| == 1 && CeilDiv(1, 1) == 1;
    assert SumSizes([]) == 0;
  }

  /** The second one arrives late, on its own. */
  lemma LateRecorded(limits: Limits, content: Bytes, name: string, id: FileId, s: Store)
    requires limits.chunkSize == 1 && |content| == 2 && Fits(limits, 2)
    requires s == Store(map[id := content[0..1]], map[], [], false)
    ensures var late := RequestOf(limits, content, name, Client(1, Some(id), Uploading));
      HasRow(Run(limits, s, [Received(late, id, 1)]).rows, id)
  {
    var late := RequestOf(limits, content, name, Client(1, Some(id), Uploading));
    SecondStored(limits, content, name, id, s);
    RowsAfterCreate(limits, s, late, id, 1, id);
    assert [Received(late, id, 1)][1..] == [];
    assert Run(limits, s, [Received(late, id, 1)]) == Run(limits, Create(limits, s, late, id, 1).0, []);
  }

  /** The first of two chunks of one byte arrives. */
  lemma FirstDelivered(limits: Limits, content: Bytes, name: string, id: FileId)
    requires limits.chunkSize == 1 && |content| == 2 && Fits(limits, 2)
    ensures Step(limits, content, name, Start, EmptyStore, Attempt([], Delivered, id, 1))
         == (Client(1, Some(id), Uploading), Store(map[id := content[0..1]], map[], [], false))
  {
    var chunk := Slice(content, 1, 0);
    assert chunk == content[0..1] && [] + chunk == chunk && CeilDiv(0, 1) == 0;
  }

  /** Once the client has an id it keeps it. */
  lemma {:induction false} RetriesOwn(limits: Limits, content: Bytes, name: string, c: Client, s: Store, attempts: seq<Attempt>)
    requires limits.chunkSize > 0 && c.fileId.Some?
    requires forall a | a in attempts :: NobodyRemoves(a.before, c.fileId.value)
    ensures OwnRun(limits, content, name, c, s, attempts)
    decreases |attempts|
  {
    if attempts != [] {
      var a := attempts[0];
      assert a in attempts;
      KeepsId(limits, content, name, c, s, a);
      var (c', s') := Step(limits, content, name, c, s, a);
      RetriesOwn(limits, content, name, c', s', attempts[1..]);
    }
  }

  lemma KeepsId(limits: Limits, content: Bytes, name: string, c: Client, s: Store, a: Attempt)
    requires limits.chunkSize > 0 && c.fileId.Some?
    ensures Step(limits, content, name, c, s, a).0.fileId == c.fileId
  {
    if !a.fate.NotProcessed? {
      var arrived, r := Arrival(limits, s, a), RequestOf(limits, content, name, c);
      if Create(limits, arrived, r, a.newId, a.space).1.Stored? {
        AcceptedInStep(limits, arrived, r, a.newId, a.space);
      }
    }
  }
}

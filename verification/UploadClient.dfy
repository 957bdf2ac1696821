// frontend/src/components/upload/EditableUpload.tsx, uploadFiles, against the server of local.service.ts;
// frontend/src/utils/upload.util.ts, the classification of errors the loop branches on.
module UploadClient {
  import opened Wrappers
  import opened LocalUpload
  import opened UploadSafety

  // ---------------------------------------------------------------- errors as the browser sees them

  /** An HTTP error as axios reports it; no response at all is `NoResponse`. */
  datatype Failure =
    | NoResponse
    | Response(status: nat, unexpectedIndex: Option<nat>, message: string)

  const LOW_DISK_ERROR_MESSAGE := "Not enough space on the server"

  function GetUnexpectedChunkIndex(f: Failure): Option<nat> {
    if f.Response? then f.unexpectedIndex else None
  }

  predicate IsPermanentUploadError(f: Failure) {
    && f.Response? && f.status != 0
    && ((400 <= f.status < 500 && f.status != 408 && f.status != 429)
        || (f.status == 500 && f.message == LOW_DISK_ERROR_MESSAGE))
  }

  /** The HTTP answer to each error of the server. */
  function ToFailure(e: Error): Failure {
    match e
    case InvalidId => Response(400, None, "Invalid file ID format")
    case ShareLocked => Response(400, None, "Share is already completed")
    case UnexpectedChunk(expected) => Response(400, Some(expected), "Unexpected chunk received")
    case NoSpace => Response(500, None, LOW_DISK_ERROR_MESSAGE)
    case TooLarge => Response(413, None, "Max share size exceeded")
    case InsertFailed => Response(500, None, "Internal server error")
  }

  /** Of the errors of the server the loop gives up on exactly four. */
  lemma PermanentErrors(e: Error)
    ensures GetUnexpectedChunkIndex(ToFailure(e)).Some? <==> e.UnexpectedChunk?
    ensures !e.UnexpectedChunk? ==>
      (IsPermanentUploadError(ToFailure(e)) <==> e.InvalidId? || e.ShareLocked? || e.NoSpace? || e.TooLarge?)
  {
  }

  /** Answers from elsewhere: no response, time-outs, too many requests and server errors are tried again. */
  lemma TriedAgain(status: nat, index: Option<nat>, message: string)
    ensures !IsPermanentUploadError(NoResponse)
    ensures status in {0, 408, 429} || status < 400 || status > 500 ==> !IsPermanentUploadError(Response(status, index, message))
    ensures status == 500 ==>
      (IsPermanentUploadError(Response(status, index, message)) <==> message == "Not enough space on the server")
    ensures 400 <= status < 500 && status != 408 && status != 429 ==> IsPermanentUploadError(Response(status, index, message))
  {
  }

  // ---------------------------------------------------------------- one attempt of the loop

  datatype Status = Uploading | Succeeded | Failed

  /** The variables of the loop, and how it ended. */
  datatype Client = Client(index: nat, fileId: Option<FileId>, status: Status)

  const Start := Client(0, None, Uploading)

  /** What becomes of one request. */
  datatype Fate =
    | Delivered
    | ReplyLost
    | NotProcessed(f: Failure)

  /** One iteration: what else happens to the share first, then the fate of the request. */
  datatype Attempt = Attempt(before: seq<Event>, fate: Fate, newId: FileId, space: nat)

  /** The loop condition after a change of the index. */
  function Continue(c: Client, chunks: nat): Client {
    if c.index < chunks then c else c.(status := Succeeded)
  }

  /** The `then` and `catch` branches: go on, jump to the index the server expects, give up, or start over. */
  function Advance(c: Client, chunks: nat, outcome: Option<Reply>, lost: Failure): Client {
    if outcome.Some? && outcome.value.Stored? then
      Continue(Client(c.index + 1, Some(outcome.value.id), Uploading), chunks)
    else
      var f := if outcome.Some? then ToFailure(outcome.value.error) else lost;
      if GetUnexpectedChunkIndex(f).Some? then
        Continue(c.(index := GetUnexpectedChunkIndex(f).value), chunks)
      else if IsPermanentUploadError(f) then c.(status := Failed)
      else c.(index := 0)
  }

  /** The request for the current chunk. */
  function RequestOf(limits: Limits, content: Bytes, name: string, c: Client): Request
    requires limits.chunkSize > 0
  {
    Request(if c.fileId.Some? then Uuid(c.fileId.value) else NoId, name, c.index,
            Total(content, limits.chunkSize), Slice(content, limits.chunkSize, c.index))
  }

  /** The store when the request arrives. */
  function Arrival(limits: Limits, s: Store, a: Attempt): Store
    requires limits.chunkSize > 0
  {
    Run(limits, s, a.before)
  }

  function Step(limits: Limits, content: Bytes, name: string, c: Client, s: Store, a: Attempt): (Client, Store)
    requires limits.chunkSize > 0
  {
    var chunks := Total(content, limits.chunkSize);
    var arrived := Arrival(limits, s, a);
    if c.status != Uploading then (c, s)
    else if a.fate.NotProcessed? then (Advance(c, chunks, None, a.fate.f), arrived)
    else
      var (stored, reply) := Create(limits, arrived, RequestOf(limits, content, name, c), a.newId, a.space);
      if a.fate.ReplyLost? then (Advance(c, chunks, None, NoResponse), stored)
      else (Advance(c, chunks, Some(reply), NoResponse), stored)
  }

  /**
   * The loop gives up at an attempt exactly when it is told that the id is bad, the share closed, the disk full or the
   * share too large, or when an answer from elsewhere is a permanent error without an index.
   */
  lemma GivesUpExactly(limits: Limits, content: Bytes, name: string, c: Client, s: Store, a: Attempt)
    requires limits.chunkSize > 0 && c.status == Uploading
    ensures var reply := Create(limits, Arrival(limits, s, a), RequestOf(limits, content, name, c), a.newId, a.space).1;
      Step(limits, content, name, c, s, a).0.status == Failed <==>
        match a.fate
        case Delivered => reply.Refused? && reply.error in {InvalidId, ShareLocked, NoSpace, TooLarge}
        case ReplyLost => false
        case NotProcessed(f) => IsPermanentUploadError(f) && GetUnexpectedChunkIndex(f).None?
  {
  }

  function Upload(limits: Limits, content: Bytes, name: string, c: Client, s: Store, attempts: seq<Attempt>): (Client, Store)
    requires limits.chunkSize > 0
    decreases |attempts|
  {
    if attempts == [] then (c, s)
    else
      var (c', s') := Step(limits, content, name, c, s, attempts[0]);
      Upload(limits, content, name, c', s', attempts[1..])
  }

  // ---------------------------------------------------------------- success means stored

  /** The share has a row for the file, and its bytes are the content. */
  ghost predicate IsStored(s: Store, id: FileId, content: Bytes) {
    && id in s.files && s.files[id] == content
    && exists k | 0 <= k < |s.rows| :: s.rows[k].id == id && s.rows[k].size == |content|
  }

  ghost predicate KnownId(contents: Contents, c: Client, content: Bytes) {
    c.fileId.Some? ==> c.fileId.value in contents && contents[c.fileId.value] == content
  }

  /** Requests of others are honest, an id drawn for this file stands for its content. */
  ghost predicate GoodAttempt(limits: Limits, contents: Contents, content: Bytes, a: Attempt)
    requires limits.chunkSize > 0
  {
    && HonestRun(limits, contents, a.before)
    && a.newId in contents && contents[a.newId] == content
    && (a.fate.NotProcessed? ==> GetUnexpectedChunkIndex(a.fate.f).None?)
  }

  ghost predicate GoodAttempts(limits: Limits, contents: Contents, content: Bytes, attempts: seq<Attempt>)
    requires limits.chunkSize > 0
  {
    forall a | a in attempts :: GoodAttempt(limits, contents, content, a)
  }

  ghost predicate ClientInv(limits: Limits, contents: Contents, content: Bytes, c: Client, s: Store)
  {
    && Inv(limits, contents, s)
    && KnownId(contents, c, content)
    && (c.status == Uploading ==> c.index < Total(content, limits.chunkSize))
    && (c.status == Succeeded ==> c.fileId.Some? && IsStored(s, c.fileId.value, content))
  }

  lemma ExpectedInRange(limits: Limits, contents: Contents, s: Store, id: FileId)
    requires Inv(limits, contents, s) && id in contents
    ensures Expected(limits, s, id) < Total(contents[id], limits.chunkSize)
    ensures TempOf(s, id) == Prefix(contents[id], limits.chunkSize, Expected(limits, s, id))
  {
    if id !in s.temp {
      CeilDivMultiple(0, limits.chunkSize);
    }
  }

  lemma RequestIsHonest(limits: Limits, contents: Contents, content: Bytes, name: string, c: Client, s: Store, newId: FileId)
    requires ClientInv(limits, contents, content, c, s) && c.status == Uploading
    requires newId in contents && contents[newId] == content
    ensures Honest(limits, contents, RequestOf(limits, content, name, c), newId)
  {
  }

  /** The reply to the last chunk is only positive once the whole content is recorded. */
  lemma LastChunkStored(limits: Limits, contents: Contents, s: Store, r: Request, newId: FileId, space: nat)
    requires Inv(limits, contents, s) && Honest(limits, contents, r, newId)
    requires Create(limits, s, r, newId, space).1.Stored? && r.index == r.total - 1
    ensures var (s', reply) := Create(limits, s, r, newId, space);
      reply.id in contents && IsStored(s', reply.id, contents[reply.id])
  {
    ChunkAdded(limits, contents, s, r, newId);
    var (s', reply) := Create(limits, s, r, newId, space);
    assert s'.rows[|s'.rows| - 1].id == reply.id;
  }

  lemma AcceptedState(limits: Limits, contents: Contents, content: Bytes, c: Client, s: Store, id: FileId)
    requires Inv(limits, contents, s) && id in contents && contents[id] == content
    requires c.index + 1 >= Total(content, limits.chunkSize) ==> IsStored(s, id, content)
    ensures ClientInv(limits, contents, content, Advance(c, Total(content, limits.chunkSize), Some(Stored(id)), NoResponse), s)
  {
  }

  lemma AcceptedKeepsInv(limits: Limits, contents: Contents, content: Bytes, name: string, c: Client, s: Store, newId: FileId, space: nat)
    requires ClientInv(limits, contents, content, c, s) && c.status == Uploading
    requires newId in contents && contents[newId] == content
    requires Create(limits, s, RequestOf(limits, content, name, c), newId, space).1.Stored?
    ensures var (stored, reply) := Create(limits, s, RequestOf(limits, content, name, c), newId, space);
      ClientInv(limits, contents, content, Advance(c, Total(content, limits.chunkSize), Some(reply), NoResponse), stored)
  {
    var r := RequestOf(limits, content, name, c);
    CreateKeepsInv(limits, contents, s, r, newId, space);
    AcceptedInStep(limits, s, r, newId, space);
    if r.index == r.total - 1 {
      LastChunkStored(limits, contents, s, r, newId, space);
    }
    var (stored, reply) := Create(limits, s, r, newId, space);
    assert reply == Stored(Target(r, newId));
    AcceptedState(limits, contents, content, c, stored, Target(r, newId));
  }

  lemma RefusedKeepsInv(limits: Limits, contents: Contents, content: Bytes, name: string, c: Client, s: Store, newId: FileId, space: nat)
    requires ClientInv(limits, contents, content, c, s) && c.status == Uploading
    requires newId in contents && contents[newId] == content
    requires Create(limits, s, RequestOf(limits, content, name, c), newId, space).1.Refused?
    ensures var (stored, reply) := Create(limits, s, RequestOf(limits, content, name, c), newId, space);
      ClientInv(limits, contents, content, Advance(c, Total(content, limits.chunkSize), Some(reply), NoResponse), stored)
  {
    var r := RequestOf(limits, content, name, c);
    CreateKeepsInv(limits, contents, s, r, newId, space);
    ExpectedInRange(limits, contents, s, Target(r, newId));
    PermanentErrors(Create(limits, s, r, newId, space).1.error);
  }

  lemma StepKeepsInv(limits: Limits, contents: Contents, content: Bytes, name: string, c: Client, s: Store, a: Attempt)
    requires ClientInv(limits, contents, content, c, s) && GoodAttempt(limits, contents, content, a)
    ensures var (c', s') := Step(limits, content, name, c, s, a); ClientInv(limits, contents, content, c', s')
  {
    if c.status == Uploading {
      RunKeepsInv(limits, contents, s, a.before);
      var arrived := Arrival(limits, s, a);
      var r := RequestOf(limits, content, name, c);
      if a.fate.ReplyLost? {
        CreateKeepsInv(limits, contents, arrived, r, a.newId, a.space);
      } else if a.fate.Delivered? {
        if Create(limits, arrived, r, a.newId, a.space).1.Stored? {
          AcceptedKeepsInv(limits, contents, content, name, c, arrived, a.newId, a.space);
        } else {
          RefusedKeepsInv(limits, contents, content, name, c, arrived, a.newId, a.space);
        }
      }
    }
  }

  lemma {:induction false} UploadKeepsInv(limits: Limits, contents: Contents, content: Bytes, name: string, c: Client, s: Store, attempts: seq<Attempt>)
    requires ClientInv(limits, contents, content, c, s) && GoodAttempts(limits, contents, content, attempts)
    ensures var (c', s') := Upload(limits, content, name, c, s, attempts); ClientInv(limits, contents, content, c', s')
    decreases |attempts|
  {
    if attempts != [] {
      assert attempts[0] in attempts;
      StepKeepsInv(limits, contents, content, name, c, s, attempts[0]);
      var (c', s') := Step(limits, content, name, c, s, attempts[0]);
      UploadKeepsInv(limits, contents, content, name, c', s', attempts[1..]);
    }
  }

  /** The loop over one file, with the network and the rest of the share as a schedule of attempts. */
  method UploadFile(server: LocalFileService, content: Bytes, name: string, attempts: seq<Attempt>) returns (c: Client)
    requires server.limits.chunkSize > 0
    modifies server
    ensures (c, server.View()) == Upload(server.limits, content, name, Start, old(server.View()), attempts)
  {
    var chunks := CeilDiv(|content|, server.limits.chunkSize);
    if chunks == 0 {
      chunks := chunks + 1;
    }
    c := Start;
    var next := 0;
    while c.status == Uploading && next < |attempts|
      invariant 0 <= next <= |attempts|
      invariant Upload(server.limits, content, name, Start, old(server.View()), attempts)
             == Upload(server.limits, content, name, c, server.View(), attempts[next..])
    {
      var a := attempts[next];
      assert attempts[next..][0] == a && attempts[next..][1..] == attempts[next + 1..];
      Environment(server, a.before);
      var outcome, lost := None, NoResponse;
      if a.fate.NotProcessed? {
        lost := a.fate.f;
      } else {
        var reply := server.HandleCreate(RequestOf(server.limits, content, name, c), a.newId, a.space);
        if a.fate.Delivered? {
          outcome := Some(reply);
        }
      }
      c := Advance(c, chunks, outcome, lost);
      next := next + 1;
    }
    UploadEnded(server.limits, content, name, c, server.View(), attempts[next..]);
  }

  lemma {:induction false} UploadEnded(limits: Limits, content: Bytes, name: string, c: Client, s: Store, attempts: seq<Attempt>)
    requires limits.chunkSize > 0 && (c.status != Uploading || attempts == [])
    ensures Upload(limits, content, name, c, s, attempts) == (c, s)
    decreases |attempts|
  {
    if attempts != [] {
      UploadEnded(limits, content, name, c, s, attempts[1..]);
    }
  }

  method Environment(server: LocalFileService, events: seq<Event>)
    requires server.limits.chunkSize > 0
    modifies server
    ensures server.View() == Run(server.limits, old(server.View()), events)
  {
    for k := 0 to |events|
      invariant Run(server.limits, server.View(), events[k..]) == Run(server.limits, old(server.View()), events)
    {
      assert events[k..][0] == events[k] && events[k..][1..] == events[k + 1..];
      match events[k] {
        case Received(r, newId, space) =>
          var _ := server.HandleCreate(r, newId, space);
        case CleanUp(aged) =>
          server.temp := server.temp - aged;
        case Remove(id) =>
          if HasRow(server.rows, id) {
            server.files := server.files - {id};
            server.rows := WithoutRow(server.rows, id);
          }
        case SetLock(locked) =>
          server.locked := locked;
      }
    }
  }

  /**
   * If the loop returns true, the share has a row under the id the client holds, and the bytes stored
   * for it are the bytes of the file, whatever was lost, repeated or cleaned up on the way.
   */
  lemma SuccessMeansStored(limits: Limits, contents: Contents, content: Bytes, name: string, s: Store, attempts: seq<Attempt>)
    requires Inv(limits, contents, s) && GoodAttempts(limits, contents, content, attempts)
    ensures var (c, s') := Upload(limits, content, name, Start, s, attempts);
      c.status == Succeeded ==> c.fileId.Some? && IsStored(s', c.fileId.value, content)
  {
    UploadKeepsInv(limits, contents, content, name, Start, s, attempts);
  }
}

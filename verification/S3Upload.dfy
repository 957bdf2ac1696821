// backend/src/file/s3.service.ts, create: multipart sessions kept in memory, driven by the loop of
// frontend/src/components/upload/EditableUpload.tsx.
module S3Upload {
  import opened Wrappers
  import opened LocalUpload
  import opened UploadClient

  /** An uploaded part: its number and the bytes its ETag stands for. */
  datatype Part = Part(number: nat, data: Bytes)

  /** A multipart upload that S3 has completed, with the part list it was given. */
  datatype Completed = Completed(id: FileId, parts: seq<Part>)

  /** A row of the file table. */
  datatype Listing = Listing(name: string, size: nat)

  /** The sessions in memory, the uploads completed at S3, and the rows of the file table by id. */
  datatype Sessions = Sessions(sessions: map<FileId, seq<Part>>, completed: seq<Completed>, rows: map<FileId, Listing>)

  const NoSessions := Sessions(map[], [], map[])

  /** Which call to S3 or to the file table fails during a request, if any. */
  datatype Fault = NoFault | InitFails | PartFails | CompleteFails | SizeFails

  /** The size S3 tells for an object put together from these parts. */
  function ObjectSize(parts: seq<Part>): nat {
    if parts == [] then 0 else ObjectSize(parts[..|parts| - 1]) + |parts[|parts| - 1].data|
  }

  /** None is the error answered after a failure; the session is gone then. */
  function CreatePart(s: Sessions, r: Request, newId: FileId, fault: Fault): (Sessions, Option<FileId>) {
    var id := Target(r, newId);
    var sessions := if r.index == 0 then s.sessions[id := []] else s.sessions;
    if r.id.Malformed? then (s, None)
    else if r.index == 0 && fault.InitFails? then (s.(sessions := s.sessions - {id}), None)
    else if id !in sessions || fault.PartFails? || r.index < 0 then (s.(sessions := sessions - {id}), None)
    else
      var parts := sessions[id] + [Part(r.index + 1, r.data)];
      if r.index != r.total - 1 then (s.(sessions := sessions[id := parts]), Some(id))
      else if fault.CompleteFails? then (s.(sessions := sessions - {id}), None)
      else
        var done := s.(sessions := sessions - {id}, completed := s.completed + [Completed(id, parts)]);
        if fault.SizeFails? || id in s.rows then (done, None)
        else (done.(rows := s.rows[id := Listing(r.name, ObjectSize(parts))]), Some(id))
  }

  class S3FileService {
    var multipartUploads: map<FileId, seq<Part>>
    var completed: seq<Completed>
    var rows: map<FileId, Listing>

    ghost function View(): Sessions
      reads this
    {
      Sessions(multipartUploads, completed, rows)
    }

    constructor ()
      ensures View() == NoSessions
    {
      multipartUploads, completed, rows := map[], [], map[];
    }

    /** The body of the `try`; false stands for an exception. */
    method UploadChunk(id: FileId, r: Request, fault: Fault) returns (ok: bool)
      modifies this
      ensures rows == old(rows)
      ensures var sessions := if r.index == 0 then old(multipartUploads)[id := []] else old(multipartUploads);
        if r.index == 0 && fault.InitFails? then !ok && multipartUploads == old(multipartUploads) && completed == old(completed)
        else if id !in sessions || fault.PartFails? || r.index < 0 then
          !ok && multipartUploads == sessions && completed == old(completed)
        else
          var parts := sessions[id] + [Part(r.index + 1, r.data)];
          if r.index != r.total - 1 then ok && multipartUploads == sessions[id := parts] && completed == old(completed)
          else if fault.CompleteFails? then !ok && multipartUploads == sessions[id := parts] && completed == old(completed)
          else ok && multipartUploads == sessions - {id} && completed == old(completed) + [Completed(id, parts)]
    {
      if r.index == 0 {
        if fault.InitFails? {
          return false;
        }
        multipartUploads := multipartUploads[id := []];
      }
      if id !in multipartUploads || fault.PartFails? || r.index < 0 {
        return false;
      }
      var parts := multipartUploads[id] + [Part(r.index + 1, r.data)];
      multipartUploads := multipartUploads[id := parts];
      if r.index == r.total - 1 {
        if fault.CompleteFails? {
          return false;
        }
        completed := completed + [Completed(id, parts)];
        multipartUploads := multipartUploads - {id};
      }
      ok := true;
    }

    method HandleCreate(r: Request, newId: FileId, fault: Fault) returns (reply: Option<FileId>)
      modifies this
      ensures (View(), reply) == CreatePart(old(View()), r, newId, fault)
    {
      if r.id.Malformed? {
        return None;
      }
      var id := Target(r, newId);
      var ok := UploadChunk(id, r, fault);
      if !ok {
        if id in multipartUploads {
          multipartUploads := multipartUploads - {id};
        }
        assert multipartUploads == old(multipartUploads) - {id};
        assert old(multipartUploads)[id := []] - {id} == old(multipartUploads) - {id};
        return None;
      }
      if r.index == r.total - 1 {
        if fault.SizeFails? || id in rows {
          return None;
        }
        var fileSize := ObjectSize(completed[|completed| - 1].parts);
        rows := rows[id := Listing(r.name, fileSize)];
      }
      reply := Some(id);
    }
  }

  // ---------------------------------------------------------------- the loop against this server

  /** A request of someone else, or a restart of the server, which forgets the sessions in memory. */
  datatype Other = Other(r: Request, newId: FileId, fault: Fault) | Restart

  function Between(s: Sessions, o: Other): Sessions {
    if o.Restart? then s.(sessions := map[]) else CreatePart(s, o.r, o.newId, o.fault).0
  }

  datatype Attempt = Attempt(before: seq<Other>, fate: Fate, newId: FileId, fault: Fault)

  const Aborted := Response(500, None, "Internal server error")

  function Others(s: Sessions, before: seq<Other>): Sessions
    decreases |before|
  {
    if before == [] then s
    else Others(Between(s, before[0]), before[1..])
  }

  function Step(chunkSize: nat, content: Bytes, name: string, c: Client, s: Sessions, a: Attempt): (Client, Sessions)
    requires chunkSize > 0
  {
    var chunks, arrived := Total(content, chunkSize), Others(s, a.before);
    if c.status != Uploading then (c, s)
    else if a.fate.NotProcessed? then (Advance(c, chunks, None, a.fate.f), arrived)
    else
      var (stored, reply) := CreatePart(arrived, RequestOf(Limits(chunkSize, 0, None), content, name, c), a.newId, a.fault);
      if a.fate.ReplyLost? then (Advance(c, chunks, None, NoResponse), stored)
      else if reply.Some? then (Advance(c, chunks, Some(Stored(reply.value)), NoResponse), stored)
      else (Advance(c, chunks, None, Aborted), stored)
  }

  function Upload(chunkSize: nat, content: Bytes, name: string, c: Client, s: Sessions, attempts: seq<Attempt>): (Client, Sessions)
    requires chunkSize > 0
    decreases |attempts|
  {
    if attempts == [] then (c, s)
    else
      var (c', s') := Step(chunkSize, content, name, c, s, attempts[0]);
      Upload(chunkSize, content, name, c', s', attempts[1..])
  }

  /** Which request fails, what is left of its session then, and that other files are left alone. */
  lemma FailsExactly(s: Sessions, r: Request, newId: FileId, fault: Fault, other: FileId)
    ensures var (s', reply) := CreatePart(s, r, newId, fault);
      var id, last := Target(r, newId), r.index == r.total - 1;
      && (reply.None? <==>
            || r.id.Malformed? || r.index < 0
            || (if r.index == 0 then fault.InitFails? else id !in s.sessions)
            || fault.PartFails? || (last && (fault.CompleteFails? || fault.SizeFails? || id in s.rows)))
      && (reply.None? && !r.id.Malformed? ==> id !in s'.sessions && s'.rows == s.rows)
      && (reply.Some? ==> reply.value == id && (id in s'.sessions <==> !last) && (id in s'.rows <==> last || id in s.rows))
      && (other != id ==>
            && (other in s'.sessions <==> other in s.sessions) && (other in s.sessions ==> s'.sessions[other] == s.sessions[other])
            && (other in s'.rows <==> other in s.rows) && (other in s.rows ==> s'.rows[other] == s.rows[other]))
  {
  }

  // ---------------------------------------------------------------- parts in order

  /** The first `n` slices of the content as parts 1 to n. */
  function PartsUpTo(content: Bytes, chunkSize: nat, n: nat): seq<Part> {
    seq(n, k requires 0 <= k < n => Part(k + 1, Slice(content, chunkSize, k)))
  }

  function Glue(parts: seq<Part>): Bytes {
    if parts == [] then [] else Glue(parts[..|parts| - 1]) + parts[|parts| - 1].data
  }

  lemma {:induction false} GluedPrefix(content: Bytes, chunkSize: nat, n: nat)
    ensures Glue(PartsUpTo(content, chunkSize, n)) == Prefix(content, chunkSize, n)
  {
    if n > 0 {
      assert PartsUpTo(content, chunkSize, n)[..n - 1] == PartsUpTo(content, chunkSize, n - 1);
      GluedPrefix(content, chunkSize, n - 1);
      PrefixExtend(content, chunkSize, n - 1);
    }
  }

  /** All completed uploads under the client's own ids carry the parts 1 to total of its file. */
  ghost predicate OwnCompleted(content: Bytes, chunkSize: nat, own: set<FileId>, completed: seq<Completed>)
    requires chunkSize > 0
  {
    forall u | u in completed && u.id in own :: u.parts == PartsUpTo(content, chunkSize, Total(content, chunkSize))
  }

  ghost predicate HasCompleted(completed: seq<Completed>, id: FileId) {
    exists u :: u in completed && u.id == id
  }

  lemma CompletedAppend(content: Bytes, chunkSize: nat, own: set<FileId>, completed: seq<Completed>, u: Completed)
    requires chunkSize > 0 && OwnCompleted(content, chunkSize, own, completed)
    requires u.id in own ==> u.parts == PartsUpTo(content, chunkSize, Total(content, chunkSize))
    ensures OwnCompleted(content, chunkSize, own, completed + [u]) && HasCompleted(completed + [u], u.id)
  {
    assert (completed + [u])[|completed|] == u;
  }

  /** Rows under the client's own ids have the name of its file and the size of its content. */
  ghost predicate OwnListed(content: Bytes, own: set<FileId>, name: string, rows: map<FileId, Listing>) {
    forall id | id in own && id in rows :: rows[id] == Listing(name, |content|)
  }

  ghost predicate Inv(content: Bytes, chunkSize: nat, own: set<FileId>, name: string, c: Client, s: Sessions)
  {
    && chunkSize > 0
    && OwnListed(content, own, name, s.rows)
    && OwnCompleted(content, chunkSize, own, s.completed)
    && (c.fileId.Some? ==> c.fileId.value in own)
    && (c.fileId.None? ==> c.index == 0)
    && (c.status == Uploading ==> c.index < Total(content, chunkSize))
    && (c.status == Uploading && c.index > 0 && c.fileId.value in s.sessions ==>
          s.sessions[c.fileId.value] == PartsUpTo(content, chunkSize, c.index))
    && (c.status == Succeeded ==> c.fileId.Some? && c.fileId.value in s.rows && HasCompleted(s.completed, c.fileId.value))
  }

  /** Others work under other ids; the ids drawn for this file are its own. */
  ghost predicate GoodAttempt(own: set<FileId>, a: Attempt) {
    && a.newId in own
    && (forall o | o in a.before :: o.Other? ==> Target(o.r, o.newId) !in own)
    && (a.fate.NotProcessed? ==> GetUnexpectedChunkIndex(a.fate.f).None?)
  }

  lemma {:induction false} OthersKeepOwn(content: Bytes, chunkSize: nat, own: set<FileId>, s: Sessions, before: seq<Other>)
    requires chunkSize > 0 && OwnCompleted(content, chunkSize, own, s.completed)
    requires forall o | o in before :: o.Other? ==> Target(o.r, o.newId) !in own
    ensures var s' := Others(s, before);
      && OwnCompleted(content, chunkSize, own, s'.completed)
      && forall id | id in own ::
           && (id in s'.rows <==> id in s.rows) && (id in s.rows ==> s'.rows[id] == s.rows[id])
           && (id in s'.sessions ==> id in s.sessions && s'.sessions[id] == s.sessions[id])
    decreases |before|
  {
    if before != [] {
      var o := before[0];
      assert o in before;
      var s1 := Between(s, o);
      assert OwnCompleted(content, chunkSize, own, s1.completed);
      OthersKeepOwn(content, chunkSize, own, s1, before[1..]);
    }
  }

  /** The parts the session of the client holds once its request has been processed. */
  lemma SentParts(content: Bytes, chunkSize: nat, index: nat)
    ensures PartsUpTo(content, chunkSize, 0) == []
    ensures PartsUpTo(content, chunkSize, index) + [Part(index + 1, Slice(content, chunkSize, index))] == PartsUpTo(content, chunkSize, index + 1)
  {
  }

  lemma MiddleRequest(content: Bytes, chunkSize: nat, own: set<FileId>, name: string, c: Client, s: Sessions, newId: FileId, fault: Fault)
    requires Inv(content, chunkSize, own, name, c, s) && c.status == Uploading && newId in own && c.index < Total(content, chunkSize) - 1
    ensures var r := RequestOf(Limits(chunkSize, 0, None), content, name, c);
      var (s', reply) := CreatePart(s, r, newId, fault);
      && s'.completed == s.completed && s'.rows == s.rows
      && (reply.Some? ==>
            && reply.value == Target(r, newId)
            && reply.value in s'.sessions && s'.sessions[reply.value] == PartsUpTo(content, chunkSize, c.index + 1))
  {
    SentParts(content, chunkSize, c.index);
  }

  /** A last part that makes the given parts whole completes them, or leaves uploads and rows alone. */
  lemma LastPart(s: Sessions, r: Request, newId: FileId, fault: Fault, whole: seq<Part>)
    requires !r.id.Malformed? && r.index >= 0 && r.index == r.total - 1
    requires var held := if r.index == 0 then s.sessions[Target(r, newId) := []] else s.sessions;
      Target(r, newId) in held ==> held[Target(r, newId)] + [Part(r.index + 1, r.data)] == whole
    ensures var (s', reply) := CreatePart(s, r, newId, fault);
      var id, done := Target(r, newId), s.completed + [Completed(Target(r, newId), whole)];
      && (reply.Some? ==> reply.value == id && s'.completed == done && s'.rows == s.rows[id := Listing(r.name, ObjectSize(whole))])
      && (reply.None? ==> s'.rows == s.rows && (s'.completed == s.completed || s'.completed == done))
  {
    var id := Target(r, newId);
    var held := if r.index == 0 then s.sessions[id := []] else s.sessions;
    if id in held {
      var parts := held[id] + [Part(r.index + 1, r.data)];
      assert parts == whole;
    }
  }

  /** The session the client's request finds, or opens, holds the parts before it. */
  lemma HeldParts(content: Bytes, chunkSize: nat, own: set<FileId>, name: string, c: Client, s: Sessions, newId: FileId)
    requires Inv(content, chunkSize, own, name, c, s) && c.status == Uploading
    ensures var r := RequestOf(Limits(chunkSize, 0, None), content, name, c);
      var held := if r.index == 0 then s.sessions[Target(r, newId) := []] else s.sessions;
      Target(r, newId) in held ==>
        held[Target(r, newId)] + [Part(r.index + 1, r.data)] == PartsUpTo(content, chunkSize, c.index + 1)
  {
    SentParts(content, chunkSize, c.index);
  }

  lemma LastRequest(content: Bytes, chunkSize: nat, own: set<FileId>, name: string, c: Client, s: Sessions, newId: FileId, fault: Fault)
    requires Inv(content, chunkSize, own, name, c, s) && c.status == Uploading && c.index == Total(content, chunkSize) - 1
    ensures var r := RequestOf(Limits(chunkSize, 0, None), content, name, c);
      var (s', reply) := CreatePart(s, r, newId, fault);
      var id := Target(r, newId);
      var done := s.completed + [Completed(id, PartsUpTo(content, chunkSize, Total(content, chunkSize)))];
      && (reply.Some? ==> reply.value == id && s'.completed == done && s'.rows == s.rows[id := Listing(name, |content|)])
      && (reply.None? ==> s'.rows == s.rows && (s'.completed == s.completed || s'.completed == done))
  {
    HeldParts(content, chunkSize, own, name, c, s, newId);
    GluedWhole(content, chunkSize);
    LastPart(s, RequestOf(Limits(chunkSize, 0, None), content, name, c), newId, fault, PartsUpTo(content, chunkSize, c.index + 1));
  }

  lemma {:induction false} GluedSize(parts: seq<Part>)
    ensures ObjectSize(parts) == |Glue(parts)|
  {
    if parts != [] {
      GluedSize(parts[..|parts| - 1]);
    }
  }

  lemma GluedWhole(content: Bytes, chunkSize: nat)
    requires chunkSize > 0
    ensures Glue(PartsUpTo(content, chunkSize, Total(content, chunkSize))) == content
    ensures ObjectSize(PartsUpTo(content, chunkSize, Total(content, chunkSize))) == |content|
  {
    GluedSize(PartsUpTo(content, chunkSize, Total(content, chunkSize)));
    GluedPrefix(content, chunkSize, Total(content, chunkSize));
    PrefixWhole(content, chunkSize);
  }

  /** What one request of the client does to its own session, to the completed uploads and to the rows. */
  lemma OwnRequest(content: Bytes, chunkSize: nat, own: set<FileId>, name: string, c: Client, s: Sessions, newId: FileId, fault: Fault)
    requires Inv(content, chunkSize, own, name, c, s) && c.status == Uploading && newId in own
    ensures var r := RequestOf(Limits(chunkSize, 0, None), content, name, c);
      var (s', reply) := CreatePart(s, r, newId, fault);
      && OwnCompleted(content, chunkSize, own, s'.completed) && OwnListed(content, own, name, s'.rows)
      && (reply.Some? ==> reply.value == Target(r, newId))
      && (reply.Some? && c.index == r.total - 1 ==> reply.value in s'.rows && HasCompleted(s'.completed, reply.value))
      && (reply.Some? && c.index != r.total - 1 ==>
            reply.value in s'.sessions && s'.sessions[reply.value] == PartsUpTo(content, chunkSize, c.index + 1))
  {
    if c.index == Total(content, chunkSize) - 1 {
      var id := Target(RequestOf(Limits(chunkSize, 0, None), content, name, c), newId);
      LastRequest(content, chunkSize, own, name, c, s, newId, fault);
      CompletedAppend(content, chunkSize, own, s.completed, Completed(id, PartsUpTo(content, chunkSize, Total(content, chunkSize))));
    } else {
      MiddleRequest(content, chunkSize, own, name, c, s, newId, fault);
    }
  }

  lemma StepKeepsInv(content: Bytes, chunkSize: nat, own: set<FileId>, name: string, c: Client, s: Sessions, a: Attempt)
    requires Inv(content, chunkSize, own, name, c, s) && GoodAttempt(own, a)
    ensures var (c', s') := Step(chunkSize, content, name, c, s, a); Inv(content, chunkSize, own, name, c', s')
  {
    if c.status == Uploading {
      OthersKeepOwn(content, chunkSize, own, s, a.before);
      var arrived := Others(s, a.before);
      assert Inv(content, chunkSize, own, name, c, arrived);
      OwnRequest(content, chunkSize, own, name, c, arrived, a.newId, a.fault);
    }
  }

  lemma {:induction false} UploadKeepsInv(content: Bytes, chunkSize: nat, own: set<FileId>, name: string, c: Client, s: Sessions, attempts: seq<Attempt>)
    requires Inv(content, chunkSize, own, name, c, s) && forall a | a in attempts :: GoodAttempt(own, a)
    ensures var (c', s') := Upload(chunkSize, content, name, c, s, attempts); Inv(content, chunkSize, own, name, c', s')
    decreases |attempts|
  {
    if attempts != [] {
      assert attempts[0] in attempts;
      StepKeepsInv(content, chunkSize, own, name, c, s, attempts[0]);
      var (c', s') := Step(chunkSize, content, name, c, s, attempts[0]);
      UploadKeepsInv(content, chunkSize, own, name, c', s', attempts[1..]);
    }
  }

  /**
   * Whatever fails or is lost on the way, every upload completed for this file lists the parts 1 to total
   * once each and in order, the parts together are the file, and success means there is such an upload and a row with
   * the name and the size of the file.
   */
  lemma CompletedInOrder(content: Bytes, chunkSize: nat, own: set<FileId>, name: string, attempts: seq<Attempt>)
    requires chunkSize > 0 && forall a | a in attempts :: GoodAttempt(own, a)
    ensures var (c, s) := Upload(chunkSize, content, name, Start, NoSessions, attempts);
      && (forall u | u in s.completed && u.id in own ::
            && |u.parts| == Total(content, chunkSize)
            && (forall k | 0 <= k < |u.parts| :: u.parts[k] == Part(k + 1, Slice(content, chunkSize, k)))
            && Glue(u.parts) == content)
      && (c.status == Succeeded ==>
            c.fileId.Some? && c.fileId.value in s.rows && s.rows[c.fileId.value] == Listing(name, |content|)
            && HasCompleted(s.completed, c.fileId.value))
  {
    UploadKeepsInv(content, chunkSize, own, name, Start, NoSessions, attempts);
    GluedPrefix(content, chunkSize, Total(content, chunkSize));
    PrefixWhole(content, chunkSize);
  }
}

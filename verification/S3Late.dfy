// Requests of the file itself that reach the S3 service late or repeated: what they do to the uploads it completes.
module S3Late {
  import opened Wrappers
  import opened LocalUpload
  import opened UploadClient
  import opened S3Upload
  import opened S3Progress

  /** The request carries one chunk of the file. */
  ghost predicate OneChunk(content: Bytes, chunkSize: nat, r: Request)
    requires chunkSize > 0
  {
    r.total == Total(content, chunkSize) && 0 <= r.index < r.total && r.data == Slice(content, chunkSize, r.index)
  }

  /** What arrives under the ids of this file are chunks of this file, in any order and number. */
  ghost predicate LateAttempt(content: Bytes, chunkSize: nat, own: set<FileId>, a: S3Upload.Attempt)
    requires chunkSize > 0
  {
    && a.newId in own
    && (forall o | o in a.before :: o.Other? && Target(o.r, o.newId) in own ==> OneChunk(content, chunkSize, o.r))
    && (a.fate.NotProcessed? ==> GetUnexpectedChunkIndex(a.fate.f).None?)
  }

  /** Every upload completed for this file by the end of the run carries all its parts in order. */
  ghost predicate KeepsContent(content: Bytes, chunkSize: nat, own: set<FileId>, name: string, attempts: seq<S3Upload.Attempt>)
    requires chunkSize > 0
  {
    (forall a | a in attempts :: LateAttempt(content, chunkSize, own, a)) ==>
      OwnCompleted(content, chunkSize, own, S3Upload.Upload(chunkSize, content, name, Start, NoSessions, attempts).1.completed)
  }

  // ---------------------------------------------------------------- one or two chunks

  /** A session of the file always holds its first part and nothing else. */
  ghost predicate ShortInv(content: Bytes, chunkSize: nat, own: set<FileId>, s: Sessions)
    requires chunkSize > 0
  {
    && OwnCompleted(content, chunkSize, own, s.completed)
    && forall id | id in own && id in s.sessions :: Total(content, chunkSize) == 2 && s.sessions[id] == PartsUpTo(content, chunkSize, 1)
  }

  lemma ShortParts(content: Bytes, chunkSize: nat)
    ensures [] + [Part(1, Slice(content, chunkSize, 0))] == PartsUpTo(content, chunkSize, 1)
    ensures PartsUpTo(content, chunkSize, 1) + [Part(2, Slice(content, chunkSize, 1))] == PartsUpTo(content, chunkSize, 2)
  {
  }

  /** What the first and what the second chunk does. */
  lemma ShortStep(content: Bytes, chunkSize: nat, s: Sessions, r: Request, newId: FileId, fault: Fault)
    requires chunkSize > 0 && Total(content, chunkSize) <= 2 && !r.id.Malformed? && OneChunk(content, chunkSize, r)
    requires var id := Target(r, newId); id in s.sessions ==> Total(content, chunkSize) == 2 && s.sessions[id] == PartsUpTo(content, chunkSize, 1)
    ensures var id, s' := Target(r, newId), CreatePart(s, r, newId, fault).0;
      && (id in s'.sessions ==> Total(content, chunkSize) == 2 && s'.sessions[id] == PartsUpTo(content, chunkSize, 1))
      && (s'.completed == s.completed
          || s'.completed == s.completed + [Completed(id, PartsUpTo(content, chunkSize, Total(content, chunkSize)))])
  {
    ShortParts(content, chunkSize);
  }

  lemma ShortRequest(content: Bytes, chunkSize: nat, own: set<FileId>, s: Sessions, r: Request, newId: FileId, fault: Fault)
    requires chunkSize > 0 && Total(content, chunkSize) <= 2 && ShortInv(content, chunkSize, own, s)
    requires Target(r, newId) in own ==> OneChunk(content, chunkSize, r)
    ensures ShortInv(content, chunkSize, own, CreatePart(s, r, newId, fault).0)
  {
    if !r.id.Malformed? {
      ShortCompleted(content, chunkSize, own, s, r, newId, fault);
      ShortSessions(content, chunkSize, own, s, r, newId, fault);
    }
  }

  lemma ShortCompleted(content: Bytes, chunkSize: nat, own: set<FileId>, s: Sessions, r: Request, newId: FileId, fault: Fault)
    requires chunkSize > 0 && Total(content, chunkSize) <= 2 && ShortInv(content, chunkSize, own, s) && !r.id.Malformed?
    requires Target(r, newId) in own ==> OneChunk(content, chunkSize, r)
    ensures OwnCompleted(content, chunkSize, own, CreatePart(s, r, newId, fault).0.completed)
  {
    var id, s' := Target(r, newId), CreatePart(s, r, newId, fault).0;
    if s'.completed != s.completed {
      if id in own {
        ShortStep(content, chunkSize, s, r, newId, fault);
      }
      CompletedAppend(content, chunkSize, own, s.completed, s'.completed[|s.completed|]);
    }
  }

  lemma ShortSessions(content: Bytes, chunkSize: nat, own: set<FileId>, s: Sessions, r: Request, newId: FileId, fault: Fault)
    requires chunkSize > 0 && Total(content, chunkSize) <= 2 && ShortInv(content, chunkSize, own, s) && !r.id.Malformed?
    requires Target(r, newId) in own ==> OneChunk(content, chunkSize, r)
    ensures var s' := CreatePart(s, r, newId, fault).0;
      forall id | id in own && id in s'.sessions :: Total(content, chunkSize) == 2 && s'.sessions[id] == PartsUpTo(content, chunkSize, 1)
  {
    var s' := CreatePart(s, r, newId, fault).0;
    forall id | id in own && id in s'.sessions
      ensures Total(content, chunkSize) == 2 && s'.sessions[id] == PartsUpTo(content, chunkSize, 1)
    {
      if id == Target(r, newId) {
        ShortStep(content, chunkSize, s, r, newId, fault);
      } else {
        FailsExactly(s, r, newId, fault, id);
      }
    }
  }

  lemma {:induction false} ShortOthers(content: Bytes, chunkSize: nat, own: set<FileId>, s: Sessions, before: seq<Other>)
    requires chunkSize > 0 && Total(content, chunkSize) <= 2 && ShortInv(content, chunkSize, own, s)
    requires forall o | o in before :: o.Other? && Target(o.r, o.newId) in own ==> OneChunk(content, chunkSize, o.r)
    ensures ShortInv(content, chunkSize, own, Others(s, before))
    decreases |before|
  {
    if before != [] {
      var o := before[0];
      assert o in before;
      if o.Other? {
        ShortRequest(content, chunkSize, own, s, o.r, o.newId, o.fault);
      }
      ShortOthers(content, chunkSize, own, Between(s, o), before[1..]);
    }
  }

  lemma {:induction false} ShortUpload(content: Bytes, chunkSize: nat, own: set<FileId>, name: string, c: Client, s: Sessions, attempts: seq<S3Upload.Attempt>)
    requires chunkSize > 0 && Total(content, chunkSize) <= 2 && ShortInv(content, chunkSize, own, s)
    requires (c.status == Uploading ==> c.index < Total(content, chunkSize)) && (c.fileId.Some? ==> c.fileId.value in own)
    requires forall a | a in attempts :: LateAttempt(content, chunkSize, own, a)
    ensures ShortInv(content, chunkSize, own, S3Upload.Upload(chunkSize, content, name, c, s, attempts).1)
    decreases |attempts|
  {
    if attempts != [] {
      var a := attempts[0];
      assert a in attempts;
      if c.status == Uploading {
        ShortOthers(content, chunkSize, own, s, a.before);
        ShortRequest(content, chunkSize, own, Others(s, a.before), RequestFor(chunkSize, content, name, c), a.newId, a.fault);
      }
      var (c', s') := S3Upload.Step(chunkSize, content, name, c, s, a);
      ShortUpload(content, chunkSize, own, name, c', s', attempts[1..]);
    }
  }

  // ---------------------------------------------------------------- three chunks or more

  lemma {:induction false} UploadAppend(content: Bytes, chunkSize: nat, name: string, c: Client, s: Sessions, a: seq<S3Upload.Attempt>, b: seq<S3Upload.Attempt>)
    requires chunkSize > 0
    ensures var (c', s') := S3Upload.Upload(chunkSize, content, name, c, s, a);
      S3Upload.Upload(chunkSize, content, name, c, s, a + b) == S3Upload.Upload(chunkSize, content, name, c', s', b)
    decreases |a|
  {
    if a == [] {
      assert a + b == b;
    } else {
      assert (a + b)[0] == a[0] && (a + b)[1..] == a[1..] + b;
      var (c', s') := S3Upload.Step(chunkSize, content, name, c, s, a[0]);
      UploadAppend(content, chunkSize, name, c', s', a[1..], b);
    }
  }

  lemma UploadOne(content: Bytes, chunkSize: nat, name: string, c: Client, s: Sessions, a: S3Upload.Attempt)
    requires chunkSize > 0
    ensures S3Upload.Upload(chunkSize, content, name, c, s, [a]) == S3Upload.Step(chunkSize, content, name, c, s, a)
  {
    assert [a][1..] == [];
  }

  function InTime(id: FileId, n: nat): seq<S3Upload.Attempt> {
    seq(n, _ => S3Upload.Attempt([], Delivered, id, NoFault))
  }

  /** A chunk other than the last is delivered: the first one opens a new session, the others extend the one there is. */
  lemma Deliver(content: Bytes, chunkSize: nat, name: string, c: Client, id: FileId, sessions: map<FileId, seq<Part>>)
    requires chunkSize > 0 && c.status == Uploading && c.index < Total(content, chunkSize) - 1
    requires if c.fileId.Some? then c.fileId.value == id else c.index == 0
    requires sessions.Keys <= {id} && (c.index > 0 ==> id in sessions)
    ensures var before := if c.index == 0 then [] else sessions[id];
      S3Upload.Step(chunkSize, content, name, c, Sessions(sessions, [], map[]), S3Upload.Attempt([], Delivered, id, NoFault))
      == (Client(c.index + 1, Some(id), Uploading),
          Sessions(map[id := before + [Part(c.index + 1, Slice(content, chunkSize, c.index))]], [], map[]))
  {
    var r := RequestFor(chunkSize, content, name, c);
    var current := if r.index == 0 then sessions[id := []] else sessions;
    assert current[id := current[id] + [Part(r.index + 1, r.data)]] == map[id := current[id] + [Part(r.index + 1, r.data)]];
  }

  /** Where an upload stands after its first chunks without any fault. */
  lemma {:induction false} FirstChunks(content: Bytes, chunkSize: nat, name: string, id: FileId, n: nat)
    requires chunkSize > 0 && 1 <= n < Total(content, chunkSize)
    ensures S3Upload.Upload(chunkSize, content, name, Start, NoSessions, InTime(id, n))
         == (Client(n, Some(id), Uploading), Sessions(map[id := PartsUpTo(content, chunkSize, n)], [], map[]))
  {
    var a, sent := S3Upload.Attempt([], Delivered, id, NoFault), PartsUpTo(content, chunkSize, n - 1);
    assert InTime(id, n) == InTime(id, n - 1) + [a];
    UploadAppend(content, chunkSize, name, Start, NoSessions, InTime(id, n - 1), [a]);
    assert PartsUpTo(content, chunkSize, n) == sent + [Part(n, Slice(content, chunkSize, n - 1))];
    if n == 1 {
      assert InTime(id, 0) == [] && sent == [];
      UploadOne(content, chunkSize, name, Start, NoSessions, a);
      Deliver(content, chunkSize, name, Start, id, map[]);
    } else {
      FirstChunks(content, chunkSize, name, id, n - 1);
      UploadOne(content, chunkSize, name, Client(n - 1, Some(id), Uploading), Sessions(map[id := sent], [], map[]), a);
      Deliver(content, chunkSize, name, Client(n - 1, Some(id), Uploading), id, map[id := sent]);
    }
  }

  function Unanswered(before: seq<Other>, id: FileId): S3Upload.Attempt {
    S3Upload.Attempt(before, NotProcessed(NoResponse), id, NoFault)
  }

  /**
   * The request for the last chunk is delayed until after the client has given up waiting and sent the first chunk
   * again; then it arrives as a copy of what the client sent.
   */
  function LateLast(content: Bytes, chunkSize: nat, name: string, id: FileId): seq<S3Upload.Attempt>
    requires chunkSize > 0
  {
    var n := Total(content, chunkSize);
    var late := RequestFor(chunkSize, content, name, Client(n - 1, Some(id), Uploading));
    InTime(id, n - 1)
    + [Unanswered([], id), S3Upload.Attempt([], Delivered, id, NoFault), Unanswered([Other(late, id, NoFault)], id)]
  }

  lemma LateArrives(content: Bytes, chunkSize: nat, name: string, id: FileId, parts: seq<Part>)
    requires chunkSize > 0 && Total(content, chunkSize) >= 2
    ensures var n := Total(content, chunkSize);
      var late := RequestFor(chunkSize, content, name, Client(n - 1, Some(id), Uploading));
      Others(Sessions(map[id := parts], [], map[]), [Other(late, id, NoFault)])
      == Sessions(map[], [Completed(id, parts + [Part(n, Slice(content, chunkSize, n - 1))])],
                  map[id := Listing(name, ObjectSize(parts + [Part(n, Slice(content, chunkSize, n - 1))]))])
  {
    var n, s := Total(content, chunkSize), Sessions(map[id := parts], [], map[]);
    var late := RequestFor(chunkSize, content, name, Client(n - 1, Some(id), Uploading));
    assert [Other(late, id, NoFault)][1..] == [];
    assert Others(s, [Other(late, id, NoFault)]) == Others(CreatePart(s, late, id, NoFault).0, []);
    assert map[id := parts] - {id} == map[];
  }

  /** The upload that is completed then has the first and the last part only, and a row. */
  lemma LateLastLosesParts(content: Bytes, chunkSize: nat, name: string, id: FileId)
    requires chunkSize > 0 && Total(content, chunkSize) >= 2
    ensures var n := Total(content, chunkSize);
      var s := S3Upload.Upload(chunkSize, content, name, Start, NoSessions, LateLast(content, chunkSize, name, id)).1;
      && s.completed == [Completed(id, [Part(1, Slice(content, chunkSize, 0)), Part(n, Slice(content, chunkSize, n - 1))])]
      && id in s.rows
  {
    var n := Total(content, chunkSize);
    var late := RequestFor(chunkSize, content, name, Client(n - 1, Some(id), Uploading));
    var sent, first := PartsUpTo(content, chunkSize, n - 1), [Part(1, Slice(content, chunkSize, 0))];
    var s1, s2 := Sessions(map[id := sent], [], map[]), Sessions(map[id := first], [], map[]);
    var lost, again, last := Unanswered([], id), S3Upload.Attempt([], Delivered, id, NoFault), Unanswered([Other(late, id, NoFault)], id);
    FirstChunks(content, chunkSize, name, id, n - 1);
    UploadAppend(content, chunkSize, name, Start, NoSessions, InTime(id, n - 1), [lost, again, last]);
    StartsOver(content, chunkSize, name, Client(n - 1, Some(id), Uploading), s1, []);
    assert S3Upload.Step(chunkSize, content, name, Client(n - 1, Some(id), Uploading), s1, lost) == (Client(0, Some(id), Uploading), s1);
    Deliver(content, chunkSize, name, Client(0, Some(id), Uploading), id, map[id := sent]);
    assert [] + first == first;
    assert S3Upload.Step(chunkSize, content, name, Client(0, Some(id), Uploading), s1, again) == (Client(1, Some(id), Uploading), s2);
    StartsOver(content, chunkSize, name, Client(1, Some(id), Uploading), s2, last.before);
    UploadThree(content, chunkSize, name, Client(n - 1, Some(id), Uploading), s1, lost, again, last);
    assert S3Upload.Upload(chunkSize, content, name, Client(n - 1, Some(id), Uploading), s1, [lost, again, last]).1 == Others(s2, last.before);
    LateArrives(content, chunkSize, name, id, first);
    assert first + [Part(n, Slice(content, chunkSize, n - 1))] == [Part(1, Slice(content, chunkSize, 0)), Part(n, Slice(content, chunkSize, n - 1))];
    assert LateLast(content, chunkSize, name, id) == InTime(id, n - 1) + [lost, again, last];
  }

  lemma StartsOver(content: Bytes, chunkSize: nat, name: string, c: Client, s: Sessions, before: seq<Other>)
    requires chunkSize > 0 && c.status == Uploading && c.fileId.Some?
    ensures S3Upload.Step(chunkSize, content, name, c, s, Unanswered(before, c.fileId.value)) == (c.(index := 0), Others(s, before))
  {
  }

  lemma UploadThree(content: Bytes, chunkSize: nat, name: string, c: Client, s: Sessions, a1: S3Upload.Attempt, a2: S3Upload.Attempt, a3: S3Upload.Attempt)
    requires chunkSize > 0
    ensures var (c1, s1) := S3Upload.Step(chunkSize, content, name, c, s, a1);
      var (c2, s2) := S3Upload.Step(chunkSize, content, name, c1, s1, a2);
      S3Upload.Upload(chunkSize, content, name, c, s, [a1, a2, a3]) == S3Upload.Step(chunkSize, content, name, c2, s2, a3)
  {
    var (c1, s1) := S3Upload.Step(chunkSize, content, name, c, s, a1);
    var (c2, s2) := S3Upload.Step(chunkSize, content, name, c1, s1, a2);
    assert [a1, a2, a3][1..] == [a2, a3] && [a2, a3][1..] == [a3];
    UploadOne(content, chunkSize, name, c2, s2, a3);
    assert S3Upload.Upload(chunkSize, content, name, c1, s1, [a2, a3]) == S3Upload.Upload(chunkSize, content, name, c2, s2, [a3]);
  }

  lemma LateLastBreaks(content: Bytes, chunkSize: nat, own: set<FileId>, name: string, id: FileId)
    requires chunkSize > 0 && Total(content, chunkSize) > 2 && id in own
    ensures !KeepsContent(content, chunkSize, own, name, LateLast(content, chunkSize, name, id))
  {
    var attempts := LateLast(content, chunkSize, name, id);
    assert forall a | a in attempts :: LateAttempt(content, chunkSize, own, a);
    LateLastLosesParts(content, chunkSize, name, id);
    var completed := S3Upload.Upload(chunkSize, content, name, Start, NoSessions, attempts).1.completed;
    assert completed[0] in completed && completed[0].id in own && |completed[0].parts| == 2;
    assert |PartsUpTo(content, chunkSize, Total(content, chunkSize))| != 2;
  }

  /**
   * Late or repeated copies of its own requests leave what is completed for a file intact in all runs exactly when
   * the file has at most two chunks.
   */
  lemma LateCopiesHarmless(content: Bytes, chunkSize: nat, own: set<FileId>, name: string)
    requires chunkSize > 0 && own != {}
    ensures (forall attempts :: KeepsContent(content, chunkSize, own, name, attempts)) <==> Total(content, chunkSize) <= 2
  {
    if Total(content, chunkSize) <= 2 {
      forall attempts ensures KeepsContent(content, chunkSize, own, name, attempts) {
        if forall a | a in attempts :: LateAttempt(content, chunkSize, own, a) {
          ShortUpload(content, chunkSize, own, name, Start, NoSessions, attempts);
        }
      }
    } else {
      var id :| id in own;
      LateLastBreaks(content, chunkSize, own, name, id);
      assert !KeepsContent(content, chunkSize, own, name, LateLast(content, chunkSize, name, id));
    }
  }
}

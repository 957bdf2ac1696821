// Which files the upload loop finishes under every schedule that keeps to the rules: those of a single chunk.
module SingleChunk {
  import opened Wrappers
  import opened LocalUpload
  import opened UploadSafety
  import opened UploadClient
  import opened UploadProgress
  import S3Upload
  import S3Progress
  import S3Late

  // ---------------------------------------------------------------- the local service

  /** On this schedule the file never gets recorded without the client being told. */
  ghost predicate NeverHidden(limits: Limits, contents: Contents, content: Bytes, name: string, attempts: seq<Attempt>)
    requires limits.chunkSize > 0
  {
    GoodAttempts(limits, contents, content, attempts) && OwnRun(limits, content, name, Start, EmptyStore, attempts) ==>
      !EverHidden(limits, content, name, Start, EmptyStore, attempts)
  }

  /** Over a single chunk the client learns the id only when it is done. */
  lemma {:induction false} OneChunkNotHidden(limits: Limits, content: Bytes, name: string, c: Client, s: Store, attempts: seq<Attempt>)
    requires limits.chunkSize > 0 && Total(content, limits.chunkSize) == 1
    requires c.status == Uploading ==> c.fileId.None?
    ensures !EverHidden(limits, content, name, c, s, attempts)
    decreases |attempts|
  {
    if attempts != [] {
      var (c', s') := Step(limits, content, name, c, s, attempts[0]);
      OneChunkNotHidden(limits, content, name, c', s', attempts[1..]);
    }
  }

  function InTime(id: FileId, space: nat, n: nat): seq<Attempt> {
    seq(n, _ => Attempt([], Delivered, id, space))
  }

  /** What the server holds after the first chunks. */
  function Sent(limits: Limits, content: Bytes, id: FileId, n: nat): Store {
    Store(if n == 0 then map[] else map[id := Prefix(content, limits.chunkSize, n)], map[], [], false)
  }

  /** A chunk that is in step is accepted. */
  lemma ChunkFits(limits: Limits, content: Bytes, id: FileId, n: nat)
    requires limits.chunkSize > 0 && n < Total(content, limits.chunkSize) && Fits(limits, |content|)
    ensures var s := Sent(limits, content, id, n);
      && Expected(limits, s, id) == n
      && |Slice(content, limits.chunkSize, n)| <= |content|
      && TempOf(s, id) + Slice(content, limits.chunkSize, n) == Prefix(content, limits.chunkSize, n + 1)
      && Fits(limits, SumSizes([]) + |Prefix(content, limits.chunkSize, n + 1)|)
  {
    assert Prefix(content, limits.chunkSize, 0) == [];
    PrefixIndex(content, limits.chunkSize, n);
    PrefixExtend(content, limits.chunkSize, n);
  }

  lemma DeliverChunk(limits: Limits, content: Bytes, name: string, id: FileId, n: nat)
    requires limits.chunkSize > 0 && n < Total(content, limits.chunkSize) - 1 && Fits(limits, |content|)
    ensures var c := Client(n, if n == 0 then None else Some(id), Uploading);
      Step(limits, content, name, c, Sent(limits, content, id, n), Attempt([], Delivered, id, |content|))
      == (Client(n + 1, Some(id), Uploading), Sent(limits, content, id, n + 1))
  {
    var c, s := Client(n, if n == 0 then None else Some(id), Uploading), Sent(limits, content, id, n);
    ChunkFits(limits, content, id, n);
    var stored := Prefix(content, limits.chunkSize, n + 1);
    assert s.temp[id := stored] == map[id := stored];
    assert Create(limits, s, RequestOf(limits, content, name, c), id, |content|)
        == (Sent(limits, content, id, n + 1), Stored(id));
  }

  lemma UploadOne(limits: Limits, content: Bytes, name: string, c: Client, s: Store, a: Attempt)
    requires limits.chunkSize > 0
    ensures Upload(limits, content, name, c, s, [a]) == Step(limits, content, name, c, s, a)
    ensures OwnRun(limits, content, name, c, s, [a]) <==> OwnId(limits, c, s, a)
    ensures EverHidden(limits, content, name, c, s, [a]) <==> Hidden(limits, content, name, c, s, a)
  {
    assert [a][1..] == [];
    var (c', s') := Step(limits, content, name, c, s, a);
    assert OwnRun(limits, content, name, c', s', []) && !EverHidden(limits, content, name, c', s', []);
  }

  lemma {:induction false} FirstChunks(limits: Limits, content: Bytes, name: string, id: FileId, n: nat)
    requires limits.chunkSize > 0 && n < Total(content, limits.chunkSize) && Fits(limits, |content|)
    ensures Upload(limits, content, name, Start, EmptyStore, InTime(id, |content|, n))
         == (Client(n, if n == 0 then None else Some(id), Uploading), Sent(limits, content, id, n))
    ensures OwnRun(limits, content, name, Start, EmptyStore, InTime(id, |content|, n))
  {
    if n > 0 {
      var a := Attempt([], Delivered, id, |content|);
      var c := Client(n - 1, if n == 1 then None else Some(id), Uploading);
      assert InTime(id, |content|, n) == InTime(id, |content|, n - 1) + [a];
      FirstChunks(limits, content, name, id, n - 1);
      UploadAppend(limits, content, name, Start, EmptyStore, InTime(id, |content|, n - 1), [a]);
      UploadOne(limits, content, name, c, Sent(limits, content, id, n - 1), a);
      DeliverChunk(limits, content, name, id, n - 1);
    }
  }

  lemma {:induction false} HiddenAppend(limits: Limits, content: Bytes, name: string, c: Client, s: Store, a: seq<Attempt>, b: seq<Attempt>)
    requires limits.chunkSize > 0
    requires var (c', s') := Upload(limits, content, name, c, s, a); EverHidden(limits, content, name, c', s', b)
    ensures EverHidden(limits, content, name, c, s, a + b)
    decreases |a|
  {
    if a == [] {
      assert a + b == b;
    } else {
      assert (a + b)[0] == a[0] && (a + b)[1..] == a[1..] + b;
      var (c', s') := Step(limits, content, name, c, s, a[0]);
      HiddenAppend(limits, content, name, c', s', a[1..], b);
    }
  }

  /** All chunks arrive, and only the last reply is lost. */
  function LastReplyLost(limits: Limits, content: Bytes, id: FileId): seq<Attempt>
    requires limits.chunkSize > 0
  {
    InTime(id, |content|, Total(content, limits.chunkSize) - 1) + [Attempt([], ReplyLost, id, |content|)]
  }

  lemma LastReplyHidden(limits: Limits, contents: Contents, content: Bytes, name: string, id: FileId)
    requires limits.chunkSize > 0 && Total(content, limits.chunkSize) > 1 && Fits(limits, |content|)
    requires id in contents && contents[id] == content
    ensures !NeverHidden(limits, contents, content, name, LastReplyLost(limits, content, id))
  {
    var n, last := Total(content, limits.chunkSize) - 1, Attempt([], ReplyLost, id, |content|);
    var c, s := Client(n, Some(id), Uploading), Sent(limits, content, id, n);
    FirstChunks(limits, content, name, id, n);
    ChunkFits(limits, content, id, n);
    assert HiddenFinal(limits, content, name, c, s, last) by {
      assert Create(limits, s, RequestOf(limits, content, name, c), id, |content|).1 == Stored(id);
    }
    UploadOne(limits, content, name, c, s, last);
    UploadAppend(limits, content, name, Start, EmptyStore, InTime(id, |content|, n), [last]);
    HiddenAppend(limits, content, name, Start, EmptyStore, InTime(id, |content|, n), [last]);
  }

  /**
   * For a file that fits into the share: no schedule ever gets it recorded without the client being told, so that
   * the loop comes to its end once faults stop, exactly when the file takes a single chunk.
   */
  lemma SingleChunkIsSafe(limits: Limits, contents: Contents, content: Bytes, name: string, id: FileId)
    requires limits.chunkSize > 0 && Fits(limits, |content|) && id in contents && contents[id] == content
    ensures (forall attempts :: NeverHidden(limits, contents, content, name, attempts)) <==> Total(content, limits.chunkSize) == 1
  {
    if Total(content, limits.chunkSize) == 1 {
      forall attempts ensures NeverHidden(limits, contents, content, name, attempts) {
        OneChunkNotHidden(limits, content, name, Start, EmptyStore, attempts);
      }
    } else {
      LastReplyHidden(limits, contents, content, name, id);
    }
  }

  // ---------------------------------------------------------------- the S3 service

  ghost predicate S3NeverHidden(content: Bytes, chunkSize: nat, name: string, attempts: seq<S3Upload.Attempt>)
    requires chunkSize > 0
  {
    S3Progress.GoodRun(chunkSize, content, name, Start, S3Upload.NoSessions, attempts) ==>
      !S3Progress.EverHidden(chunkSize, content, name, Start, S3Upload.NoSessions, attempts)
  }

  lemma {:induction false} S3OneChunk(content: Bytes, chunkSize: nat, name: string, c: Client, s: S3Upload.Sessions, attempts: seq<S3Upload.Attempt>)
    requires chunkSize > 0 && Total(content, chunkSize) == 1
    requires c.status == Uploading ==> c.fileId.None?
    ensures !S3Progress.EverHidden(chunkSize, content, name, c, s, attempts)
    decreases |attempts|
  {
    if attempts != [] {
      var (c', s') := S3Upload.Step(chunkSize, content, name, c, s, attempts[0]);
      S3OneChunk(content, chunkSize, name, c', s', attempts[1..]);
    }
  }

  lemma {:induction false} S3Append(content: Bytes, chunkSize: nat, name: string, c: Client, s: S3Upload.Sessions, a: seq<S3Upload.Attempt>, last: S3Upload.Attempt)
    requires chunkSize > 0
    requires var (c', s') := S3Upload.Upload(chunkSize, content, name, c, s, a);
      S3Progress.GoodStep(c', s', last) && S3Progress.Hidden(chunkSize, content, name, c', s', last)
    ensures S3Progress.EverHidden(chunkSize, content, name, c, s, a + [last])
    ensures S3Progress.GoodRun(chunkSize, content, name, c, s, a) ==> S3Progress.GoodRun(chunkSize, content, name, c, s, a + [last])
    decreases |a|
  {
    if a == [] {
      assert a + [last] == [last] && [last][1..] == [];
      var (c', s') := S3Upload.Step(chunkSize, content, name, c, s, last);
      assert S3Progress.GoodRun(chunkSize, content, name, c', s', []);
    } else {
      assert (a + [last])[0] == a[0] && (a + [last])[1..] == a[1..] + [last];
      var (c', s') := S3Upload.Step(chunkSize, content, name, c, s, a[0]);
      S3Append(content, chunkSize, name, c', s', a[1..], last);
    }
  }

  lemma {:induction false} S3GoodInTime(content: Bytes, chunkSize: nat, name: string, id: FileId, c: Client, s: S3Upload.Sessions, n: nat)
    requires chunkSize > 0 && (c.fileId.None? ==> id !in s.rows)
    requires S3Progress.InLoop(content, chunkSize, c) && c.index + n < Total(content, chunkSize)
    ensures S3Progress.GoodRun(chunkSize, content, name, c, s, S3Late.InTime(id, n))
    decreases n
  {
    if n > 0 {
      var a := S3Upload.Attempt([], Delivered, id, S3Upload.NoFault);
      assert S3Late.InTime(id, n)[0] == a && S3Late.InTime(id, n)[1..] == S3Late.InTime(id, n - 1);
      var (c', s') := S3Upload.Step(chunkSize, content, name, c, s, a);
      S3GoodInTime(content, chunkSize, name, id, c', s', n - 1);
    }
  }

  lemma S3LastReplyHidden(content: Bytes, chunkSize: nat, name: string, id: FileId)
    requires chunkSize > 0 && Total(content, chunkSize) > 1
    ensures var last := S3Upload.Attempt([], ReplyLost, id, S3Upload.NoFault);
      !S3NeverHidden(content, chunkSize, name, S3Late.InTime(id, Total(content, chunkSize) - 1) + [last])
  {
    var n, last := Total(content, chunkSize) - 1, S3Upload.Attempt([], ReplyLost, id, S3Upload.NoFault);
    S3Late.FirstChunks(content, chunkSize, name, id, n);
    S3GoodInTime(content, chunkSize, name, id, Start, S3Upload.NoSessions, n);
    S3Append(content, chunkSize, name, Start, S3Upload.NoSessions, S3Late.InTime(id, n), last);
  }

  /** The same with S3, whatever the file size. */
  lemma S3SingleChunkIsSafe(content: Bytes, chunkSize: nat, name: string)
    requires chunkSize > 0
    ensures (forall attempts :: S3NeverHidden(content, chunkSize, name, attempts)) <==> Total(content, chunkSize) == 1
  {
    if Total(content, chunkSize) == 1 {
      forall attempts ensures S3NeverHidden(content, chunkSize, name, attempts) {
        S3OneChunk(content, chunkSize, name, Start, S3Upload.NoSessions, attempts);
      }
    } else {
      S3LastReplyHidden(content, chunkSize, name, "");
    }
  }
}

// backend/src/file/local.service.ts, create, and the temp-file job of backend/src/jobs/jobs.service.ts.
module LocalUpload {
  import opened Wrappers

  type FileId = string
  type Bytes = seq<bv8>

  /** A row of the file table. */
  datatype Row = Row(id: FileId, name: string, size: nat)

  /** What the settings and the reverse share allow; a reverse share limit is optional. */
  datatype Limits = Limits(chunkSize: nat, maxSize: nat, reverseMaxSize: Option<nat>)

  /** The directory of one share and its rows: temporary files, finished files, file table, upload lock. */
  datatype Store = Store(temp: map<FileId, Bytes>, files: map<FileId, Bytes>, rows: seq<Row>, locked: bool)

  /** The id a request carries: none, one that is no UUID, or a UUID. */
  datatype SentId = NoId | Malformed | Uuid(id: FileId)

  datatype Request = Request(id: SentId, name: string, index: int, total: int, data: Bytes)

  datatype Error =
    | InvalidId
    | ShareLocked
    | UnexpectedChunk(expected: nat)
    | NoSpace
    | TooLarge
    | InsertFailed

  datatype Reply = Stored(id: FileId) | Refused(error: Error)

  const EmptyStore := Store(map[], map[], [], false)

  // ---------------------------------------------------------------- arithmetic of chunks

  function Min(a: nat, b: nat): nat {
    if a < b then a else b
  }

  /** `Math.ceil(n / d)` */
  function CeilDiv(n: nat, d: nat): nat
    requires d > 0
  {
    (n + d - 1) / d
  }

  lemma CeilDivAbove(n: nat, d: nat, k: nat)
    requires d > 0
    ensures k < CeilDiv(n, d) <==> k * d < n
  {
    var q, m := CeilDiv(n, d), n + d - 1;
    assert m == q * d + m % d;
    if k < q {
      assert (k + 1) * d <= q * d;
    } else {
      assert q * d <= k * d;
    }
  }

  lemma CeilDivMultiple(k: nat, d: nat)
    requires d > 0
    ensures CeilDiv(k * d, d) == k
  {
    CeilDivAbove(k * d, d, k);
    if k > 0 {
      CeilDivAbove(k * d, d, k - 1);
      assert (k - 1) * d < k * d;
    }
  }

  /** The number of chunks of a file: an empty file still takes one. */
  function Total(content: Bytes, chunkSize: nat): (n: nat)
    requires chunkSize > 0
    ensures n >= 1
  {
    var chunks := CeilDiv(|content|, chunkSize);
    if chunks == 0 then 1 else chunks
  }

  /** The first `k` chunks. */
  function Prefix(content: Bytes, chunkSize: nat, k: nat): Bytes {
    content[..Min(k * chunkSize, |content|)]
  }

  /** `file.slice(index * chunkSize, (index + 1) * chunkSize)` */
  function Slice(content: Bytes, chunkSize: nat, index: nat): Bytes {
    var from, to := index * chunkSize, index * chunkSize + chunkSize;
    content[Min(from, |content|)..Min(to, |content|)]
  }

  lemma PrefixExtend(content: Bytes, chunkSize: nat, k: nat)
    ensures Prefix(content, chunkSize, k) + Slice(content, chunkSize, k) == Prefix(content, chunkSize, k + 1)
  {
  }

  lemma PrefixWhole(content: Bytes, chunkSize: nat)
    requires chunkSize > 0
    ensures Prefix(content, chunkSize, Total(content, chunkSize)) == content
  {
  }

  /** From the size of an incomplete prefix the next index can be computed. */
  lemma PrefixIndex(content: Bytes, chunkSize: nat, k: nat)
    requires chunkSize > 0 && k < Total(content, chunkSize)
    ensures CeilDiv(|Prefix(content, chunkSize, k)|, chunkSize) == k
    ensures k > 0 ==> |Prefix(content, chunkSize, k)| == k * chunkSize
  {
    CeilDivAbove(|content|, chunkSize, k);
    CeilDivMultiple(k, chunkSize);
  }

  // ---------------------------------------------------------------- one request

  function SumSizes(rows: seq<Row>): nat {
    if rows == [] then 0 else SumSizes(rows[..|rows| - 1]) + rows[|rows| - 1].size
  }

  predicate HasRow(rows: seq<Row>, id: FileId) {
    exists k | 0 <= k < |rows| :: rows[k].id == id
  }

  function TempOf(s: Store, id: FileId): Bytes {
    if id in s.temp then s.temp[id] else []
  }

  /** The index the server expects next for a file. */
  function Expected(limits: Limits, s: Store, id: FileId): nat
    requires limits.chunkSize > 0
  {
    CeilDiv(|TempOf(s, id)|, limits.chunkSize)
  }

  predicate Fits(limits: Limits, size: nat) {
    size <= limits.maxSize && (limits.reverseMaxSize.Some? ==> size <= limits.reverseMaxSize.value)
  }

  /** The file a request is about: the id it carries or the one newly drawn for it. */
  function Target(r: Request, newId: FileId): FileId {
    if r.id.Uuid? then r.id.id else newId
  }

  /** The answer to a request and what is stored afterwards. */
  function Create(limits: Limits, s: Store, r: Request, newId: FileId, space: nat): (Store, Reply)
    requires limits.chunkSize > 0
  {
    var id := Target(r, newId);
    var stored := TempOf(s, id) + r.data;
    if r.id.Malformed? then (s, Refused(InvalidId))
    else if s.locked then (s, Refused(ShareLocked))
    else if Expected(limits, s, id) != r.index then (s, Refused(UnexpectedChunk(Expected(limits, s, id))))
    else if space < |r.data| then (s, Refused(NoSpace))
    else if !Fits(limits, SumSizes(s.rows) + |stored|) then (s, Refused(TooLarge))
    else if r.index != r.total - 1 then (s.(temp := s.temp[id := stored]), Stored(id))
    else
      var renamed := s.(temp := s.temp - {id}, files := s.files[id := stored]);
      if HasRow(s.rows, id) then (renamed, Refused(InsertFailed))
      else (renamed.(rows := s.rows + [Row(id, r.name, |stored|)]), Stored(id))
  }

  /** Sizes add up row by row. */
  lemma SumSizesAppend(rows: seq<Row>, row: Row)
    ensures SumSizes([]) == 0 && SumSizes(rows + [row]) == SumSizes(rows) + row.size
  {
    assert (rows + [row])[..|rows|] == rows;
  }

  /** Which request is refused with which error: the checks in their order. */
  lemma RefusedExactly(limits: Limits, s: Store, r: Request, newId: FileId, space: nat)
    requires limits.chunkSize > 0
    ensures var reply := Create(limits, s, r, newId, space).1;
      var held := |TempOf(s, Target(r, newId))|;
      var open := !r.id.Malformed? && !s.locked;
      var inStep := open && r.index >= 0 && (r.index - 1) * limits.chunkSize < held <= r.index * limits.chunkSize;
      var sum := SumSizes(s.rows) + held + |r.data|;
      var tooLarge := sum > limits.maxSize || (limits.reverseMaxSize.Some? && sum > limits.reverseMaxSize.value);
      && (reply == Refused(InvalidId) <==> r.id.Malformed?)
      && (reply == Refused(ShareLocked) <==> !r.id.Malformed? && s.locked)
      && (reply.Refused? && reply.error.UnexpectedChunk? <==> open && !inStep)
      && (reply.Refused? && reply.error.UnexpectedChunk? ==>
            (reply.error.expected - 1) * limits.chunkSize < held <= reply.error.expected * limits.chunkSize)
      && (reply == Refused(NoSpace) <==> inStep && space < |r.data|)
      && (reply == Refused(TooLarge) <==> inStep && space >= |r.data| && tooLarge)
      && (reply == Refused(InsertFailed) <==>
            inStep && space >= |r.data| && !tooLarge && r.index == r.total - 1 && HasRow(s.rows, Target(r, newId)))
      && (reply.Stored? ==> reply.id == if r.id.Uuid? then r.id.id else newId)
  {
    var held, d := |TempOf(s, Target(r, newId))|, limits.chunkSize;
    CeilDivExactly(held, d, CeilDiv(held, d));
    CeilDivExactly(held, d, r.index);
  }

  /** Rounding up, said by bounds. */
  lemma CeilDivExactly(n: nat, d: nat, k: int)
    requires d > 0
    ensures k == CeilDiv(n, d) <==> k >= 0 && (k - 1) * d < n <= k * d
  {
    var q := CeilDiv(n, d);
    if k >= 0 {
      CeilDivAbove(n, d, k);
      if k > 0 {
        CeilDivAbove(n, d, k - 1);
      } else {
        assert (k - 1) * d == 0 - d;
      }
    }
  }

  /** A file is recorded under the name it was sent with and with the size it has. */
  lemma RecordedAs(limits: Limits, s: Store, r: Request, newId: FileId, space: nat)
    requires limits.chunkSize > 0
    ensures var (s', reply) := Create(limits, s, r, newId, space);
      if reply.Stored? && r.index == r.total - 1 then
        && |s'.rows| == |s.rows| + 1 && s.rows <= s'.rows && reply.id in s'.files
        && var row := s'.rows[|s.rows|]; row.id == reply.id && row.name == r.name && row.size == |s'.files[reply.id]|
      else s'.rows == s.rows
  {
  }

  /** A chunk is only accepted at the index expected for its file, which the reply names. */
  lemma AcceptedInStep(limits: Limits, s: Store, r: Request, newId: FileId, space: nat)
    requires limits.chunkSize > 0 && Create(limits, s, r, newId, space).1.Stored?
    ensures Create(limits, s, r, newId, space).1.id == Target(r, newId)
    ensures !r.id.Malformed? && r.index == Expected(limits, s, Target(r, newId))
  {
  }

  /** A request changes nothing but the files and rows of its own id, and nothing at all once the share is locked. */
  lemma OnlyTargetChanges(limits: Limits, s: Store, r: Request, newId: FileId, space: nat, other: FileId)
    requires limits.chunkSize > 0
    ensures var s' := Create(limits, s, r, newId, space).0;
      && (s.locked ==> s' == s)
      && (space < |r.data| ==> s' == s)
      && s.rows <= s'.rows && s'.locked == s.locked
      && (other != Target(r, newId) ==>
            && (other in s'.temp <==> other in s.temp) && TempOf(s', other) == TempOf(s, other)
            && (other in s'.files <==> other in s.files) && (other in s.files ==> s'.files[other] == s.files[other]))
  {
  }

  class LocalFileService {
    var temp: map<FileId, Bytes>
    var files: map<FileId, Bytes>
    var rows: seq<Row>
    var locked: bool
    const limits: Limits

    ghost function View(): Store
      reads this
    {
      Store(temp, files, rows, locked)
    }

    constructor (limits: Limits)
      ensures View() == EmptyStore && this.limits == limits
    {
      this.limits := limits;
      temp, files, rows, locked := map[], map[], [], false;
    }

    method FileSizeSum() returns (sum: nat)
      ensures sum == SumSizes(rows)
    {
      sum := 0;
      for i := 0 to |rows|
        invariant sum == SumSizes(rows[..i])
      {
        assert rows[..i + 1][..i] == rows[..i];
        sum := sum + rows[i].size;
      }
      assert rows[..|rows|] == rows;
    }

    method HandleCreate(r: Request, newId: FileId, space: nat) returns (reply: Reply)
      requires limits.chunkSize > 0
      modifies this
      ensures (View(), reply) == Create(limits, old(View()), r, newId, space)
    {
      var id := newId;
      if r.id.Uuid? {
        id := r.id.id;
      } else if r.id.Malformed? {
        return Refused(InvalidId);
      }
      if locked {
        return Refused(ShareLocked);
      }
      var diskFileSize := 0;
      if id in temp {
        diskFileSize := |temp[id]|;
      }
      var expectedChunkIndex := CeilDiv(diskFileSize, limits.chunkSize);
      if expectedChunkIndex != r.index {
        return Refused(UnexpectedChunk(expectedChunkIndex));
      }
      if space < |r.data| {
        return Refused(NoSpace);
      }
      var fileSizeSum := FileSizeSum();
      var shareSizeSum := fileSizeSum + diskFileSize + |r.data|;
      if shareSizeSum > limits.maxSize
        || (limits.reverseMaxSize.Some? && shareSizeSum > limits.reverseMaxSize.value) {
        return Refused(TooLarge);
      }
      temp := temp[id := (if id in temp then temp[id] else []) + r.data];
      var isLastChunk := r.index == r.total - 1;
      if isLastChunk {
        files := files[id := temp[id]];
        temp := temp - {id};
        assert temp == old(temp) - {id};
        if HasRow(rows, id) {
          return Refused(InsertFailed);
        }
        rows := rows + [Row(id, r.name, |files[id]|)];
      }
      reply := Stored(id);
    }
  }
}

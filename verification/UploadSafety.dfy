// What every run of the local upload server keeps: requests lost, repeated and reordered in any way,
// temporary files cleaned up, files removed and the share locked or opened again at any moment.
module UploadSafety {
  import opened Wrappers
  import opened LocalUpload

  /** The content each file id stands for: one content per id. */
  type Contents = map<FileId, Bytes>

  /** A temporary file holds some, but not all, of the leading chunks. */
  ghost predicate PartOf(content: Bytes, chunkSize: nat, stored: Bytes)
    requires chunkSize > 0
  {
    var k := CeilDiv(|stored|, chunkSize);
    1 <= k < Total(content, chunkSize) && stored == Prefix(content, chunkSize, k)
  }

  ghost predicate TempsArePrefixes(limits: Limits, contents: Contents, temp: map<FileId, Bytes>)
    requires limits.chunkSize > 0
  {
    forall id | id in temp :: id in contents && PartOf(contents[id], limits.chunkSize, temp[id])
  }

  ghost predicate FilesAreWhole(contents: Contents, files: map<FileId, Bytes>) {
    forall id | id in files :: id in contents && files[id] == contents[id]
  }

  ghost predicate RowsMatchFiles(files: map<FileId, Bytes>, rows: seq<Row>) {
    && (forall k | 0 <= k < |rows| :: rows[k].id in files && rows[k].size == |files[rows[k].id]|)
    && DistinctIds(rows)
  }

  ghost predicate Inv(limits: Limits, contents: Contents, s: Store) {
    && limits.chunkSize > 0
    && TempsArePrefixes(limits, contents, s.temp)
    && FilesAreWhole(contents, s.files)
    && RowsMatchFiles(s.files, s.rows)
    && Fits(limits, SumSizes(s.rows))
  }

  /** A request that carries one slice of the content its file id stands for. */
  ghost predicate Honest(limits: Limits, contents: Contents, r: Request, newId: FileId)
    requires limits.chunkSize > 0
  {
    !r.id.Malformed? ==>
      var id := Target(r, newId);
      && id in contents
      && r.total == Total(contents[id], limits.chunkSize)
      && 0 <= r.index < r.total
      && r.data == Slice(contents[id], limits.chunkSize, r.index)
  }

  /** The chunk that a request adds to a prefix makes the next prefix. */
  lemma ChunkAdded(limits: Limits, contents: Contents, s: Store, r: Request, newId: FileId)
    requires Inv(limits, contents, s) && Honest(limits, contents, r, newId) && !r.id.Malformed?
    requires Expected(limits, s, Target(r, newId)) == r.index
    ensures var content := contents[Target(r, newId)];
      && TempOf(s, Target(r, newId)) == Prefix(content, limits.chunkSize, r.index)
      && TempOf(s, Target(r, newId)) + r.data == Prefix(content, limits.chunkSize, r.index + 1)
      && (r.index == r.total - 1 ==> TempOf(s, Target(r, newId)) + r.data == content)
      && (r.index < r.total - 1 ==> PartOf(content, limits.chunkSize, TempOf(s, Target(r, newId)) + r.data))
  {
    var id := Target(r, newId);
    var content := contents[id];
    if id !in s.temp {
      CeilDivMultiple(0, limits.chunkSize);
      assert Prefix(content, limits.chunkSize, 0) == [];
    }
    PrefixExtend(content, limits.chunkSize, r.index);
    if r.index == r.total - 1 {
      PrefixWhole(content, limits.chunkSize);
    } else {
      PrefixIndex(content, limits.chunkSize, r.index + 1);
    }
  }

  lemma AppendKeepsInv(limits: Limits, contents: Contents, s: Store, id: FileId, stored: Bytes)
    requires Inv(limits, contents, s) && id in contents && PartOf(contents[id], limits.chunkSize, stored)
    ensures Inv(limits, contents, s.(temp := s.temp[id := stored]))
  {
  }

  lemma RenameKeepsInv(limits: Limits, contents: Contents, s: Store, id: FileId)
    requires Inv(limits, contents, s) && id in contents
    ensures Inv(limits, contents, s.(temp := s.temp - {id}, files := s.files[id := contents[id]]))
  {
  }

  lemma InsertKeepsInv(limits: Limits, contents: Contents, s: Store, row: Row)
    requires Inv(limits, contents, s) && row.id in s.files && row.size == |s.files[row.id]|
    requires !HasRow(s.rows, row.id) && Fits(limits, SumSizes(s.rows) + row.size)
    ensures Inv(limits, contents, s.(rows := s.rows + [row]))
  {
    var rows := s.rows + [row];
    assert rows[..|rows| - 1] == s.rows;
  }

  /** One request keeps the invariant. */
  lemma CreateKeepsInv(limits: Limits, contents: Contents, s: Store, r: Request, newId: FileId, space: nat)
    requires Inv(limits, contents, s) && Honest(limits, contents, r, newId)
    ensures Inv(limits, contents, Create(limits, s, r, newId, space).0)
  {
    var id := Target(r, newId);
    var s' := Create(limits, s, r, newId, space).0;
    if s' != s {
      ChunkAdded(limits, contents, s, r, newId);
      if r.index != r.total - 1 {
        AppendKeepsInv(limits, contents, s, id, TempOf(s, id) + r.data);
      } else {
        RenameKeepsInv(limits, contents, s, id);
        var renamed := s.(temp := s.temp - {id}, files := s.files[id := contents[id]]);
        if !HasRow(s.rows, id) {
          InsertKeepsInv(limits, contents, renamed, Row(id, r.name, |contents[id]|));
        }
      }
    }
  }

  // ---------------------------------------------------------------- removing files, cleaning up, locking

  /** What can happen to a share directory. */
  datatype Event =
    | Received(r: Request, newId: FileId, space: nat)
    | CleanUp(aged: set<FileId>)
    | Remove(id: FileId)
    | SetLock(locked: bool)

  function WithoutRow(rows: seq<Row>, id: FileId): seq<Row> {
    if rows == [] then []
    else
      var front, last := WithoutRow(rows[..|rows| - 1], id), rows[|rows| - 1];
      if last.id == id then front else front + [last]
  }

  ghost predicate DistinctIds(rows: seq<Row>) {
    forall j, k | 0 <= j < k < |rows| :: rows[j].id != rows[k].id
  }

  lemma {:induction false} WithoutRowMembers(rows: seq<Row>, id: FileId)
    ensures forall r :: r in WithoutRow(rows, id) <==> r in rows && r.id != id
  {
    if rows != [] {
      WithoutRowMembers(rows[..|rows| - 1], id);
      assert rows == rows[..|rows| - 1] + [rows[|rows| - 1]];
    }
  }

  lemma {:induction false} WithoutRowSum(rows: seq<Row>, id: FileId)
    ensures SumSizes(WithoutRow(rows, id)) <= SumSizes(rows)
  {
    if rows != [] {
      var front, last := WithoutRow(rows[..|rows| - 1], id), rows[|rows| - 1];
      WithoutRowSum(rows[..|rows| - 1], id);
      assert (front + [last])[..|front|] == front;
    }
  }

  lemma {:induction false} WithoutRowDistinct(rows: seq<Row>, id: FileId)
    requires DistinctIds(rows)
    ensures DistinctIds(WithoutRow(rows, id))
  {
    if rows != [] {
      var front := rows[..|rows| - 1];
      WithoutRowDistinct(front, id);
      WithoutRowMembers(front, id);
      var kept := WithoutRow(front, id);
      forall j | 0 <= j < |kept| ensures kept[j].id != rows[|rows| - 1].id {
        assert kept[j] in front;
      }
    }
  }

  /** Removing a file takes its row away and no other, and never raises the sum of sizes. */
  lemma WithoutRowKeeps(rows: seq<Row>, id: FileId)
    ensures var rest := WithoutRow(rows, id);
      && SumSizes(rest) <= SumSizes(rows)
      && (forall r :: r in rest <==> r in rows && r.id != id)
      && (DistinctIds(rows) ==> DistinctIds(rest))
  {
    WithoutRowMembers(rows, id);
    WithoutRowSum(rows, id);
    if DistinctIds(rows) {
      WithoutRowDistinct(rows, id);
    }
  }

  function Apply(limits: Limits, s: Store, e: Event): Store
    requires limits.chunkSize > 0
  {
    match e
    case Received(r, newId, space) => Create(limits, s, r, newId, space).0
    case CleanUp(aged) => s.(temp := s.temp - aged)
    case Remove(id) =>
      if HasRow(s.rows, id) then s.(files := s.files - {id}, rows := WithoutRow(s.rows, id)) else s
    case SetLock(locked) => s.(locked := locked)
  }

  ghost predicate HonestEvent(limits: Limits, contents: Contents, e: Event)
    requires limits.chunkSize > 0
  {
    e.Received? ==> Honest(limits, contents, e.r, e.newId)
  }

  lemma ApplyKeepsInv(limits: Limits, contents: Contents, s: Store, e: Event)
    requires Inv(limits, contents, s) && HonestEvent(limits, contents, e)
    ensures Inv(limits, contents, Apply(limits, s, e))
  {
    match e
    case Received(r, newId, space) => CreateKeepsInv(limits, contents, s, r, newId, space);
    case CleanUp(aged) =>
    case Remove(id) =>
      WithoutRowKeeps(s.rows, id);
      var rest := WithoutRow(s.rows, id);
      forall k | 0 <= k < |rest| ensures rest[k] in s.rows && rest[k].id != id {
        assert rest[k] in rest;
      }
    case SetLock(_) =>
  }

  /** What clean-up, removal and locking do, file by file. */
  lemma EventEffects(limits: Limits, s: Store, e: Event, id: FileId)
    requires limits.chunkSize > 0 && !e.Received?
    ensures var s' := Apply(limits, s, e);
      && (id in s'.temp <==> id in s.temp && !(e.CleanUp? && id in e.aged)) && (id in s'.temp ==> s'.temp[id] == s.temp[id])
      && (id in s'.files <==> id in s.files && !(e.Remove? && e.id == id && HasRow(s.rows, id)))
      && (id in s'.files ==> s'.files[id] == s.files[id])
      && (forall row :: row in s'.rows <==> row in s.rows && !(e.Remove? && row.id == e.id))
      && s'.locked == if e.SetLock? then e.locked else s.locked
  {
    if e.Remove? {
      WithoutRowMembers(s.rows, e.id);
      if !HasRow(s.rows, e.id) {
        assert forall row | row in s.rows :: row.id != e.id;
      }
    }
  }

  function Run(limits: Limits, s: Store, events: seq<Event>): Store
    requires limits.chunkSize > 0
    decreases |events|
  {
    if events == [] then s else Run(limits, Apply(limits, s, events[0]), events[1..])
  }

  ghost predicate HonestRun(limits: Limits, contents: Contents, events: seq<Event>)
    requires limits.chunkSize > 0
  {
    forall e | e in events :: HonestEvent(limits, contents, e)
  }

  lemma {:induction false} RunKeepsInv(limits: Limits, contents: Contents, s: Store, events: seq<Event>)
    requires Inv(limits, contents, s) && HonestRun(limits, contents, events)
    ensures Inv(limits, contents, Run(limits, s, events))
    decreases |events|
  {
    if events != [] {
      assert events[0] in events;
      ApplyKeepsInv(limits, contents, s, events[0]);
      RunKeepsInv(limits, contents, Apply(limits, s, events[0]), events[1..]);
    }
  }

  /**
   * From an empty share directory, whatever happens and in whatever order: a temporary file is a proper
   * prefix of whole chunks, a finished file is the whole content, every row tells the size of its
   * finished file, and the rows stay within both size limits.
   */
  lemma EveryRunIsSafe(limits: Limits, contents: Contents, events: seq<Event>, id: FileId)
    requires limits.chunkSize > 0 && HonestRun(limits, contents, events)
    ensures var s := Run(limits, EmptyStore, events);
      && (id in s.temp ==> id in contents && exists k: nat ::
            && 1 <= k < Total(contents[id], limits.chunkSize)
            && k * limits.chunkSize < |contents[id]|
            && s.temp[id] == contents[id][..k * limits.chunkSize])
      && (id in s.files ==> id in contents && s.files[id] == contents[id])
      && (forall row | row in s.rows :: row.id in s.files && row.size == |s.files[row.id]|)
      && SumSizes(s.rows) <= limits.maxSize
      && (limits.reverseMaxSize.Some? ==> SumSizes(s.rows) <= limits.reverseMaxSize.value)
  {
    RunKeepsInv(limits, contents, EmptyStore, events);
    var s := Run(limits, EmptyStore, events);
    if id in s.temp {
      var k := CeilDiv(|s.temp[id]|, limits.chunkSize);
      CeilDivAbove(|contents[id]|, limits.chunkSize, k);
      assert s.temp[id] == contents[id][..k * limits.chunkSize];
    }
  }

  /** The limit binds the rows only: two uploads under way may together hold more than the share allows. */
  lemma TempsMayExceedLimit(a: FileId, b: FileId, first: bv8, second: bv8)
    requires a != b
    ensures var limits := Limits(1, 1, None);
      var events := [
        Received(Request(Uuid(a), "a", 0, 2, [first]), a, 1),
        Received(Request(Uuid(b), "b", 0, 2, [second]), b, 1)];
      var s := Run(limits, EmptyStore, events);
      a in s.temp && b in s.temp && |s.temp[a]| + |s.temp[b]| > limits.maxSize
  {
    var limits := Limits(1, 1, None);
    var e1 := Received(Request(Uuid(a), "a", 0, 2, [first]), a, 1);
    var e2 := Received(Request(Uuid(b), "b", 0, 2, [second]), b, 1);
    assert [e1, e2][1..] == [e2] && [e2][1..] == [];
    var s1 := Apply(limits, EmptyStore, e1);
    assert CeilDiv(0, 1) == 0 && [] + [first] == [first] && [] + [second] == [second];
    assert s1 == EmptyStore.(temp := map[a := [first]]);
    assert Apply(limits, s1, e2) == EmptyStore.(temp := map[a := [first], b := [second]]);
    assert Run(limits, EmptyStore, [e1, e2]) == Run(limits, s1, [e2]) == Apply(limits, s1, e2);
  }
}

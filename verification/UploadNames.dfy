// Under which name a file is listed: the one its uploader sent with it.
module UploadNames {
  import opened LocalUpload
  import opened UploadSafety
  import opened UploadClient

  /** The name each file id stands for: one name per id. */
  type Names = map<FileId, string>

  /** A request that carries the name its file id stands for. */
  ghost predicate Named(names: Names, r: Request, newId: FileId) {
    !r.id.Malformed? ==> Target(r, newId) in names && r.name == names[Target(r, newId)]
  }

  ghost predicate NamedEvents(names: Names, events: seq<Event>) {
    forall e | e in events :: e.Received? ==> Named(names, e.r, e.newId)
  }

  ghost predicate RowsNamed(names: Names, s: Store) {
    forall row | row in s.rows :: row.id in names && row.name == names[row.id]
  }

  lemma CreateKeepsNames(limits: Limits, names: Names, s: Store, r: Request, newId: FileId, space: nat)
    requires limits.chunkSize > 0 && RowsNamed(names, s) && Named(names, r, newId)
    ensures RowsNamed(names, Create(limits, s, r, newId, space).0)
  {
    RecordedAs(limits, s, r, newId, space);
    AcceptedTarget(limits, s, r, newId, space);
    var s' := Create(limits, s, r, newId, space).0;
    if |s'.rows| > |s.rows| {
      assert s'.rows == s.rows + [s'.rows[|s.rows|]];
    }
  }

  lemma AcceptedTarget(limits: Limits, s: Store, r: Request, newId: FileId, space: nat)
    requires limits.chunkSize > 0
    ensures var reply := Create(limits, s, r, newId, space).1; reply.Stored? ==> !r.id.Malformed? && reply.id == Target(r, newId)
  {
  }

  lemma {:induction false} RunKeepsNames(limits: Limits, names: Names, s: Store, events: seq<Event>)
    requires limits.chunkSize > 0 && RowsNamed(names, s) && NamedEvents(names, events)
    ensures RowsNamed(names, Run(limits, s, events))
    decreases |events|
  {
    if events != [] {
      var e := events[0];
      assert e in events;
      match e {
        case Received(r, newId, space) => CreateKeepsNames(limits, names, s, r, newId, space);
        case CleanUp(_) =>
        case Remove(id) => WithoutRowMembers(s.rows, id);
        case SetLock(_) =>
      }
      RunKeepsNames(limits, names, Apply(limits, s, e), events[1..]);
    }
  }

  /** In every run every row has the name its file was sent with. */
  lemma EveryRowNamed(limits: Limits, names: Names, events: seq<Event>)
    requires limits.chunkSize > 0 && NamedEvents(names, events)
    ensures forall row | row in Run(limits, EmptyStore, events).rows :: row.id in names && row.name == names[row.id]
  {
    RunKeepsNames(limits, names, EmptyStore, events);
  }

  // ---------------------------------------------------------------- the upload loop

  ghost predicate NamedAttempt(names: Names, name: string, a: Attempt) {
    NamedEvents(names, a.before) && a.newId in names && names[a.newId] == name
  }

  ghost predicate ClientNamed(names: Names, name: string, c: Client, s: Store) {
    RowsNamed(names, s) && (c.fileId.Some? ==> c.fileId.value in names && names[c.fileId.value] == name)
  }

  lemma StepKeepsNames(limits: Limits, names: Names, content: Bytes, name: string, c: Client, s: Store, a: Attempt)
    requires limits.chunkSize > 0 && ClientNamed(names, name, c, s) && NamedAttempt(names, name, a)
    ensures var (c', s') := Step(limits, content, name, c, s, a); ClientNamed(names, name, c', s')
  {
    RunKeepsNames(limits, names, s, a.before);
    var arrived, r := Arrival(limits, s, a), RequestOf(limits, content, name, c);
    CreateKeepsNames(limits, names, arrived, r, a.newId, a.space);
    AcceptedTarget(limits, arrived, r, a.newId, a.space);
  }

  lemma {:induction false} UploadKeepsNames(limits: Limits, names: Names, content: Bytes, name: string, c: Client, s: Store, attempts: seq<Attempt>)
    requires limits.chunkSize > 0 && ClientNamed(names, name, c, s) && forall a | a in attempts :: NamedAttempt(names, name, a)
    ensures var (c', s') := Upload(limits, content, name, c, s, attempts); ClientNamed(names, name, c', s')
    decreases |attempts|
  {
    if attempts != [] {
      assert attempts[0] in attempts;
      StepKeepsNames(limits, names, content, name, c, s, attempts[0]);
      var (c', s') := Step(limits, content, name, c, s, attempts[0]);
      UploadKeepsNames(limits, names, content, name, c', s', attempts[1..]);
    }
  }

  /** If the loop returns true, the share lists the file under its own name, with its size, and holds its bytes. */
  lemma SuccessMeansListed(limits: Limits, contents: Contents, names: Names, content: Bytes, name: string, s: Store, attempts: seq<Attempt>)
    requires Inv(limits, contents, s) && RowsNamed(names, s) && GoodAttempts(limits, contents, content, attempts)
    requires forall a | a in attempts :: NamedAttempt(names, name, a)
    ensures var (c, s') := Upload(limits, content, name, Start, s, attempts);
      c.status == Succeeded ==>
        && c.fileId.Some? && c.fileId.value in s'.files && s'.files[c.fileId.value] == content
        && Row(c.fileId.value, name, |content|) in s'.rows
  {
    UploadKeepsNames(limits, names, content, name, Start, s, attempts);
    SuccessMeansStored(limits, contents, content, name, s, attempts);
    var (c, s') := Upload(limits, content, name, Start, s, attempts);
    if c.status == Succeeded {
      var k :| 0 <= k < |s'.rows| && s'.rows[k].id == c.fileId.value && s'.rows[k].size == |content|;
      assert s'.rows[k] in s'.rows;
    }
  }
}

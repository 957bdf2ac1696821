// backend/src/share/share.service.ts, createSecurityUpdateInput and normalizeAllowedIps: how a patch of the
// access rule of a share becomes one database operation.
module ShareSecurity {
  import opened Wrappers
  import opened Text
  import ShareAccess

  /** A password hash, never empty. */
  datatype Hash = Hash(digest: string)

  /** The stored rule with its allow list and the addresses claimed under its limit. */
  datatype Security = Security(
    password: Option<Hash>, maxViews: Option<int>, maxIps: Option<int>, allowedIps: seq<string>, claimed: seq<string>)

  /** A property of a patch: left out, or given a value. */
  datatype Field<+T> = Keep | Set(value: T)

  /** A password is text or null, a number may be null, and so may the list. */
  datatype Patch = Patch(
    password: Field<Option<string>>, maxViews: Field<Option<int>>, maxIps: Field<Option<int>>,
    allowedIps: Field<Option<seq<string>>>)

  datatype CreateData = CreateData(password: Option<Hash>, maxViews: Option<int>, maxIps: Option<int>, allowedIps: seq<string>)

  /** The properties an update touches; the two address rules are always written together. */
  datatype UpdateData = UpdateData(
    password: Field<Option<Hash>>, maxViews: Field<Option<int>>, ips: Field<(Option<int>, seq<string>)>)

  datatype Operation = NoOperation | Delete | Upsert(create: CreateData, update: UpdateData)

  datatype Outcome<+T> = Ok(value: T) | BadRequest

  /** The foreign parts: hashing a password, and the normal form of an address. */
  datatype Foreign = Foreign(hash: string -> Hash, normalize: string -> Option<string>)

  // ---------------------------------------------------------------- the code

  /** A JavaScript number that is neither missing nor zero. */
  predicate Truthy(n: Option<int>) {
    n.Some? && n.value != 0
  }

  /** Trimmed, blank entries dropped, normalised, each address once; any bad address spoils the list. */
  function NormalizeAllowedIps(f: Foreign, ips: seq<string>): Outcome<seq<string>> {
    if ips == [] then Ok([])
    else
      var front, entry := NormalizeAllowedIps(f, ips[..|ips| - 1]), Trim(ips[|ips| - 1]);
      if front.BadRequest? || entry == "" then front
      else
        var normal := f.normalize(entry);
        if normal.None? || normal.value == "" then BadRequest
        else if normal.value in front.value then front
        else Ok(front.value + [normal.value])
  }

  function PasswordUpdate(f: Foreign, password: Option<string>): Option<Hash> {
    if password.None? || password.value == "" then None else Some(f.hash(password.value))
  }

  function CreateSecurityUpdate(f: Foreign, patch: Option<Patch>, current: Option<Security>): Outcome<Operation> {
    if patch.None? then Ok(NoOperation)
    else
      var p := patch.value;
      var password :=
        if p.password.Set? then PasswordUpdate(f, p.password.value)
        else if current.Some? then current.value.password else None;
      var maxViews :=
        if p.maxViews.Set? then p.maxViews.value else if current.Some? then current.value.maxViews else None;
      var allowed :=
        if p.allowedIps.Set? then
          NormalizeAllowedIps(f, if p.allowedIps.value.Some? then p.allowedIps.value.value else [])
        else if p.maxIps.Set? && Truthy(p.maxIps.value) then Ok([])
        else Ok(if current.Some? then current.value.allowedIps else []);
      if allowed.BadRequest? then BadRequest
      else
        var allowedIps := allowed.value;
        var currentMaxIps := if current.Some? then current.value.maxIps else None;
        var maxIps :=
          if p.maxIps.Set? then p.maxIps.value
          else if p.allowedIps.Set? then (if |allowedIps| > 0 then None else currentMaxIps)
          else currentMaxIps;
        if Truthy(maxIps) && |allowedIps| > 0 then BadRequest
        else
          var hasSecurity := password.Some? || maxViews.Some? || maxIps.Some? || |allowedIps| > 0;
          if !hasSecurity then Ok(if current.Some? then Delete else NoOperation)
          else
            var touchesIps := p.maxIps.Set? || p.allowedIps.Set?;
            var update := UpdateData(
              if p.password.Set? then Set(password) else Keep,
              if p.maxViews.Set? then Set(maxViews) else Keep,
              if touchesIps then Set((maxIps, allowedIps)) else Keep);
            if update == UpdateData(Keep, Keep, Keep) && current.Some? then Ok(NoOperation)
            else Ok(Upsert(CreateData(password, maxViews, maxIps, allowedIps), update))
  }

  /** What the database does with an operation on the row of the share. */
  function ApplyOperation(op: Operation, row: Option<Security>): Option<Security> {
    match op
    case NoOperation => row
    case Delete => None
    case Upsert(create, update) =>
      if row.None? then
        Some(Security(create.password, create.maxViews, create.maxIps, create.allowedIps, []))
      else
        var s := row.value;
        Some(Security(
          if update.password.Set? then update.password.value else s.password,
          if update.maxViews.Set? then update.maxViews.value else s.maxViews,
          if update.ips.Set? then update.ips.value.0 else s.maxIps,
          if update.ips.Set? then update.ips.value.1 else s.allowedIps,
          if update.ips.Set? then [] else s.claimed))
  }

  // ---------------------------------------------------------------- the rule a patch asks for

  const NoRule := Security(None, None, None, [], [])

  function Get<T>(field: Field<T>, current: T): T {
    if field.Set? then field.value else current
  }

  predicate HasRule(s: Security) {
    s.password.Some? || s.maxViews.Some? || s.maxIps.Some? || s.allowedIps != []
  }

  /** The address rules cannot be combined: a limit given alone drops the list, a list given alone the limit. */
  function MergeIps(p: Patch, s: Security, list: seq<string>): (Option<int>, seq<string>) {
    match (p.maxIps, p.allowedIps)
    case (Keep, Keep) => (s.maxIps, s.allowedIps)
    case (Set(n), Keep) => (n, if Truthy(n) then [] else s.allowedIps)
    case (Keep, Set(_)) => (if list == [] then s.maxIps else None, list)
    case (Set(n), Set(_)) => (n, list)
  }

  /** The field-by-field merge of a patch into the old rule; no row is kept for a share without any rule. */
  function Merge(f: Foreign, p: Patch, row: Option<Security>): Outcome<Option<Security>> {
    var s := if row.Some? then row.value else NoRule;
    var list := NormalizeAllowedIps(f, if p.allowedIps.Set? && p.allowedIps.value.Some? then p.allowedIps.value.value else []);
    if list.BadRequest? then BadRequest
    else
      var (maxIps, allowedIps) := MergeIps(p, s, list.value);
      var merged := Security(
        if p.password.Set? then PasswordUpdate(f, p.password.value) else s.password,
        Get(p.maxViews, s.maxViews), maxIps, allowedIps,
        if p.maxIps.Set? || p.allowedIps.Set? then [] else s.claimed);
      if Truthy(maxIps) && allowedIps != [] then BadRequest
      else Ok(if HasRule(merged) then Some(merged) else None)
  }

  /**
   * The stored rules: a row exists only with some rule, a limit and a list exclude each other, the list holds
   * distinct normal forms, and addresses are claimed only under a limit and not beyond it.
   */
  ghost predicate RowInv(f: Foreign, row: Option<Security>) {
    row.Some? ==>
      var s := row.value;
      && HasRule(s)
      && !(Truthy(s.maxIps) && s.allowedIps != [])
      && NormalForms(f, s.allowedIps)
      && (s.claimed != [] ==> Truthy(s.maxIps) && |s.claimed| <= s.maxIps.value)
  }

  ghost predicate NormalForms(f: Foreign, ips: seq<string>) {
    && (forall k | 0 <= k < |ips| :: IsNormalForm(f, ips[k]))
    && (forall j, k | 0 <= j < k < |ips| :: ips[j] != ips[k])
  }

  ghost predicate IsNormalForm(f: Foreign, ip: string) {
    ip != "" && exists entry :: f.normalize(entry) == Some(ip)
  }

  /** The operation does to the row what the patch asks for, and is refused exactly when the merge is. */
  lemma OperationIsMerge(f: Foreign, p: Patch, row: Option<Security>)
    ensures var op, merged := CreateSecurityUpdate(f, Some(p), row), Merge(f, p, row);
      && (op.BadRequest? <==> merged.BadRequest?)
      && (op.Ok? ==> ApplyOperation(op.value, row) == merged.value)
      && (op.Ok? && op.value.Delete? ==> row.Some?)
  {
  }

  /** The rule after a patch that is accepted; a missing row is no rule. */
  function After(f: Foreign, p: Patch, row: Option<Security>): Security {
    var op := CreateSecurityUpdate(f, Some(p), row);
    var after := if op.Ok? then ApplyOperation(op.value, row) else row;
    if after.Some? then after.value else NoRule
  }

  /** The password that is stored: the hash of a text that is not empty, none for null and the empty text, or the old one. */
  lemma PasswordStored(f: Foreign, p: Patch, row: Option<Security>)
    requires CreateSecurityUpdate(f, Some(p), row).Ok?
    ensures After(f, p, row).password ==
      match p.password
      case Keep => if row.Some? then row.value.password else None
      case Set(t) => if t.Some? && t.value != "" then Some(f.hash(t.value)) else None
  {
  }

  lemma ViewsStored(f: Foreign, p: Patch, row: Option<Security>)
    requires CreateSecurityUpdate(f, Some(p), row).Ok?
    ensures After(f, p, row).maxViews ==
      match p.maxViews
      case Keep => if row.Some? then row.value.maxViews else None
      case Set(n) => n
  {
  }

  /**
   * The address rules that are stored. A limit that is not zero drops the old list, a list that is not empty the old
   * limit, and whoever has claimed an address loses it as soon as the patch has a word on addresses.
   */
  lemma AddressesStored(f: Foreign, p: Patch, row: Option<Security>)
    requires CreateSecurityUpdate(f, Some(p), row).Ok?
    ensures var s, after := if row.Some? then row.value else NoRule, After(f, p, row);
      match (p.maxIps, p.allowedIps)
      case (Keep, Keep) => after.maxIps == s.maxIps && after.allowedIps == s.allowedIps && (after != NoRule ==> after.claimed == s.claimed)
      case (Set(n), Keep) =>
        after.maxIps == n && after.claimed == [] && after.allowedIps == if n.Some? && n.value != 0 then [] else s.allowedIps
      case (Keep, Set(l)) =>
        && NormalizeAllowedIps(f, if l.Some? then l.value else []) == Ok(after.allowedIps) && after.claimed == []
        && after.maxIps == if after.allowedIps == [] then s.maxIps else None
      case (Set(n), Set(l)) =>
        && NormalizeAllowedIps(f, if l.Some? then l.value else []) == Ok(after.allowedIps) && after.claimed == []
        && after.maxIps == n
  {
  }

  /** A row is stored exactly if there is a password, a limit or a list. */
  lemma RowStored(f: Foreign, p: Patch, row: Option<Security>)
    requires CreateSecurityUpdate(f, Some(p), row).Ok?
    ensures var stored, after := ApplyOperation(CreateSecurityUpdate(f, Some(p), row).value, row), After(f, p, row);
      stored.Some? <==> (after.password.Some? || after.maxViews.Some? || after.maxIps.Some? || after.allowedIps != [])
    ensures CreateSecurityUpdate(f, None, row) == Ok(NoOperation)
  {
  }

  /** A patch is refused exactly for a bad list, or for a list and a limit together. */
  lemma PatchRefused(f: Foreign, p: Patch, row: Option<Security>)
    requires RowInv(f, row)
    ensures var list := NormalizeAllowedIps(f, if p.allowedIps.Set? && p.allowedIps.value.Some? then p.allowedIps.value.value else []);
      CreateSecurityUpdate(f, Some(p), row).BadRequest? <==>
        (list.BadRequest? || (list.value != [] && p.maxIps.Set? && p.maxIps.value.Some? && p.maxIps.value.value != 0))
  {
  }

  /** A list is refused exactly for an entry that is not blank and has no normal form. */
  lemma {:induction false} ListRefused(f: Foreign, ips: seq<string>)
    ensures NormalizeAllowedIps(f, ips).BadRequest? <==>
      exists k :: 0 <= k < |ips| && Trim(ips[k]) != "" && (f.normalize(Trim(ips[k])).None? || f.normalize(Trim(ips[k])).value == "")
  {
    if ips != [] {
      var front := ips[..|ips| - 1];
      ListRefused(f, front);
      if NormalizeAllowedIps(f, front).BadRequest? {
        var k :| 0 <= k < |front| && Trim(front[k]) != "" && (f.normalize(Trim(front[k])).None? || f.normalize(Trim(front[k])).value == "");
        assert ips[k] == front[k];
      } else {
        forall k | 0 <= k < |front| && Trim(ips[k]) != ""
          ensures f.normalize(Trim(ips[k])).Some? && f.normalize(Trim(ips[k])).value != ""
        {
          assert front[k] == ips[k];
        }
      }
    }
  }

  lemma {:induction false} NormalizedList(f: Foreign, ips: seq<string>)
    ensures var r := NormalizeAllowedIps(f, ips); r.Ok? ==> NormalForms(f, r.value)
  {
    if ips != [] {
      NormalizedList(f, ips[..|ips| - 1]);
    }
  }

  /** An address is on the stored list exactly when some entry of the patch has it as its normal form. */
  lemma {:induction false} ListMembers(f: Foreign, ips: seq<string>, ip: string)
    requires NormalizeAllowedIps(f, ips).Ok?
    ensures ip in NormalizeAllowedIps(f, ips).value <==>
      ip != "" && exists k :: 0 <= k < |ips| && Trim(ips[k]) != "" && f.normalize(Trim(ips[k])) == Some(ip)
  {
    if ips != [] {
      var front := ips[..|ips| - 1];
      ListMembers(f, front, ip);
      if ip != "" && exists k :: 0 <= k < |ips| && Trim(ips[k]) != "" && f.normalize(Trim(ips[k])) == Some(ip) {
        var k :| 0 <= k < |ips| && Trim(ips[k]) != "" && f.normalize(Trim(ips[k])) == Some(ip);
        assert k < |front| ==> front[k] == ips[k];
      }
      if ip in NormalizeAllowedIps(f, front).value {
        var k :| 0 <= k < |front| && Trim(front[k]) != "" && f.normalize(Trim(front[k])) == Some(ip);
        assert ips[k] == front[k];
      }
    }
  }

  lemma MergeKeepsInv(f: Foreign, p: Patch, row: Option<Security>)
    requires RowInv(f, row) && Merge(f, p, row).Ok?
    ensures RowInv(f, Merge(f, p, row).value)
  {
    NormalizedList(f, if p.allowedIps.Set? && p.allowedIps.value.Some? then p.allowedIps.value.value else []);
  }

  // ---------------------------------------------------------------- patches and visits in any order

  datatype Event = Update(patch: Option<Patch>) | Visit(ip: string)

  /** A patch as the service applies it, or an atomic visit that may claim an address. */
  function Handle(f: Foreign, row: Option<Security>, e: Event): Option<Security> {
    match e
    case Update(patch) =>
      var op := CreateSecurityUpdate(f, patch, row);
      if op.BadRequest? then row else ApplyOperation(op.value, row)
    case Visit(ip) =>
      if row.None? || row.value.allowedIps != [] || !Truthy(row.value.maxIps) then row
      else Some(row.value.(claimed := ShareAccess.Assign(row.value.maxIps.value, row.value.claimed, ip).0))
  }

  function History(f: Foreign, row: Option<Security>, events: seq<Event>): Option<Security>
    decreases |events|
  {
    if events == [] then row else History(f, Handle(f, row, events[0]), events[1..])
  }

  lemma HandleKeepsInv(f: Foreign, row: Option<Security>, e: Event)
    requires RowInv(f, row)
    ensures RowInv(f, Handle(f, row, e))
  {
    if e.Update? && e.patch.Some? {
      OperationIsMerge(f, e.patch.value, row);
      if Merge(f, e.patch.value, row).Ok? {
        MergeKeepsInv(f, e.patch.value, row);
      }
    }
  }

  /** Over all histories of patches and visits, starting without any rule, the stored rule is sound. */
  lemma {:induction false} EveryHistoryIsSound(f: Foreign, row: Option<Security>, events: seq<Event>)
    requires RowInv(f, row)
    ensures RowInv(f, History(f, row, events))
    decreases |events|
  {
    if events != [] {
      HandleKeepsInv(f, row, events[0]);
      EveryHistoryIsSound(f, Handle(f, row, events[0]), events[1..]);
    }
  }
}

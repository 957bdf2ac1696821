// backend/src/share/guard/shareSecurity.guard.ts, canActivate, and of backend/src/share/share.service.ts
// assertShareIpAccess, assignShareIpAddress, getShareToken and increaseViewCount.
module ShareAccess {
  import opened Wrappers

  /** The access rule of a share; 0 stands for a limit that is absent or zero, which the code treats alike. */
  datatype Rule = Rule(password: bool, maxViews: int, maxIps: int, allowedIps: seq<string>)

  /** What the checks before the security rule say: refuse, let an administrator through, or go on. */
  datatype Gate = Blocked | AdminAccess | Open

  /** A request at the guard, or a request for a share token. */
  datatype Visit =
    | Guarded(gate: Gate, hasToken: bool, tokenValid: bool, ip: Option<string>)
    | TokenRequest(passwordValid: bool, ip: Option<string>)

  datatype Reason = NotAllowed | PasswordRequired | BadToken | ViewsExceeded | IpNotAllowed | IpLimitExceeded

  /**
   * Where a visit stands. Between the steps other visits run: `Assigning` and `Writing` remember the view
   * counter of the snapshot the visit was checked against.
   */
  datatype Phase =
    | Arriving
    | Assigning(snapshotViews: nat)
    | Writing(snapshotViews: nat)
    | Admitted(counted: bool)
    | Denied(reason: Reason)

  /** The stored row, the order in which assignment transactions committed, and the phase of every visit. */
  datatype World = World(views: nat, claimed: seq<string>, commits: seq<string>, phases: seq<Phase>)

  // ---------------------------------------------------------------- the checks on a snapshot

  /** What `assertShareIpAccess` finds in the snapshot. */
  datatype IpCheck = Pass | Fail | AssignFirst

  function CheckIp(rule: Rule, claimed: seq<string>, ip: Option<string>): IpCheck {
    if rule.allowedIps == [] && rule.maxIps == 0 then Pass
    else if ip.None? then Fail
    else if rule.allowedIps != [] then (if ip.value in rule.allowedIps then Pass else Fail)
    else if ip.value in claimed then Pass
    else AssignFirst
  }

  predicate CountsView(v: Visit) {
    v.TokenRequest? || !v.hasToken
  }

  /** The step after the addresses are settled: count the view, or let the holder of a token in. */
  function Enter(v: Visit, snapshotViews: nat): Phase {
    if CountsView(v) then Writing(snapshotViews) else Admitted(false)
  }

  function CheckRule(rule: Rule, views: nat, claimed: seq<string>, v: Visit): Phase {
    if CountsView(v) && rule.maxViews != 0 && rule.maxViews <= views then Denied(ViewsExceeded)
    else
      match CheckIp(rule, claimed, v.ip)
      case Pass => Enter(v, views)
      case Fail => Denied(IpNotAllowed)
      case AssignFirst => Assigning(views)
  }

  /** All checks up to the first write. */
  function Check(rule: Rule, views: nat, claimed: seq<string>, v: Visit): Phase {
    match v
    case Guarded(gate, hasToken, tokenValid, ip) =>
      if gate.Blocked? then Denied(NotAllowed)
      else if gate.AdminAccess? then Admitted(false)
      else if rule.password && !hasToken then
        if CheckIp(rule, claimed, ip).Fail? then Denied(IpNotAllowed) else Denied(PasswordRequired)
      else if hasToken && !tokenValid then Denied(BadToken)
      else CheckRule(rule, views, claimed, v)
    case TokenRequest(passwordValid, ip) =>
      if rule.password && !passwordValid then Denied(PasswordRequired)
      else CheckRule(rule, views, claimed, v)
  }

  /** The transaction of `assignShareIpAddress`: the claimed addresses afterwards, and whether it succeeds. */
  function Assign(maxIps: int, claimed: seq<string>, ip: string): (seq<string>, bool) {
    if maxIps == 0 || ip in claimed then (claimed, true)
    else if |claimed| >= maxIps then (claimed, false)
    else (claimed + [ip], true)
  }

  /** One step of visit `i`: the snapshot with its checks, the transaction, or the write of the counter. */
  function Step(rule: Rule, visits: seq<Visit>, w: World, i: nat): World
    requires |w.phases| == |visits|
  {
    if i >= |visits| then w
    else
      match w.phases[i]
      case Arriving => w.(phases := w.phases[i := Check(rule, w.views, w.claimed, visits[i])])
      case Assigning(snapshotViews) =>
        if visits[i].ip.None? then w
        else
          var ip := visits[i].ip.value;
          var (claimed, ok) := Assign(rule.maxIps, w.claimed, ip);
          var next := if ok then Enter(visits[i], snapshotViews) else Denied(IpLimitExceeded);
          w.(claimed := claimed, commits := w.commits + [ip], phases := w.phases[i := next])
      case Writing(snapshotViews) => w.(views := snapshotViews + 1, phases := w.phases[i := Admitted(true)])
      case Admitted(_) => w
      case Denied(_) => w
  }

  function Run(rule: Rule, visits: seq<Visit>, w: World, schedule: seq<nat>): (w': World)
    requires |w.phases| == |visits|
    ensures |w'.phases| == |visits|
    decreases |schedule|
  {
    if schedule == [] then w else Run(rule, visits, Step(rule, visits, w, schedule[0]), schedule[1..])
  }

  function Begin(views: nat, visits: seq<Visit>): World {
    World(views, [], [], seq(|visits|, _ => Arriving))
  }

  // ---------------------------------------------------------------- the same steps on the stored row

  class ShareRow {
    var views: nat
    var claimed: seq<string>
    const rule: Rule

    constructor (rule: Rule, views: nat)
      ensures this.rule == rule && this.views == views && claimed == []
    {
      this.rule := rule;
      this.views := views;
      claimed := [];
    }

    method AssignShareIpAddress(ip: string, maxIps: int) returns (ok: bool)
      modifies this`claimed
      ensures (claimed, ok) == Assign(maxIps, old(claimed), ip)
    {
      if maxIps == 0 {
        return true;
      }
      if ip in claimed {
        return true;
      }
      if |claimed| >= maxIps {
        return false;
      }
      claimed := claimed + [ip];
      ok := true;
    }

    method IncreaseViewCount(snapshotViews: nat)
      modifies this`views
      ensures views == snapshotViews + 1
    {
      views := snapshotViews + 1;
    }

    /** A visit with no other visit in between. */
    method Handle(v: Visit) returns (outcome: Phase)
      modifies this
      ensures var w := Run(rule, [v], World(old(views), old(claimed), [], [Arriving]), [0, 0, 0]);
        w.views == views && w.claimed == claimed && w.phases == [outcome]
    {
      ghost var w0 := World(views, claimed, [], [Arriving]);
      var snapshotViews := views;
      outcome := Check(rule, views, claimed, v);
      ghost var w1 := Step(rule, [v], w0, 0);
      if outcome.Assigning? && v.ip.Some? {
        var wasAssigned := AssignShareIpAddress(v.ip.value, rule.maxIps);
        outcome := if wasAssigned then Enter(v, snapshotViews) else Denied(IpLimitExceeded);
      }
      if outcome.Writing? {
        IncreaseViewCount(snapshotViews);
        outcome := Admitted(true);
      }
      ThreeSteps(rule, v, w0);
    }
  }

  lemma ThreeSteps(rule: Rule, v: Visit, w: World)
    requires |w.phases| == 1
    ensures Run(rule, [v], w, [0, 0, 0])
         == Step(rule, [v], Step(rule, [v], Step(rule, [v], w, 0), 0), 0)
  {
    var w1 := Step(rule, [v], w, 0);
    var w2 := Step(rule, [v], w1, 0);
    assert [0, 0, 0][1..] == [0, 0] && [0, 0][1..] == [0] && [0][1..] == [];
    assert Run(rule, [v], w, [0, 0, 0]) == Run(rule, [v], w1, [0, 0]) == Run(rule, [v], w2, [0]);
  }
}

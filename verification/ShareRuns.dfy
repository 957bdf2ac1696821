// Any interleaving of visits to one share: who is admitted, and what the view counter says.
module ShareRuns {
  import opened Wrappers
  import opened ShareAccess

  /** The rule admits addresses on a first come, first served basis. */
  predicate FirstComeRule(rule: Rule) {
    rule.maxIps > 0 && rule.allowedIps == []
  }

  predicate NeedsAddress(v: Visit) {
    v.TokenRequest? || v.gate.Open?
  }

  // ---------------------------------------------------------------- addresses

  /** The list without repetitions, each entry at its first place. */
  function Distinct(ips: seq<string>): seq<string> {
    if ips == [] then []
    else
      var front, last := Distinct(ips[..|ips| - 1]), ips[|ips| - 1];
      if last in front then front else front + [last]
  }

  function FirstN(ips: seq<string>, n: int): seq<string> {
    if |ips| <= n then ips else if n <= 0 then [] else ips[..n]
  }

  ghost predicate NoRepeats(ips: seq<string>) {
    forall j, k | 0 <= j < k < |ips| :: ips[j] != ips[k]
  }

  lemma {:induction false} DistinctNoRepeats(ips: seq<string>)
    ensures NoRepeats(Distinct(ips)) && forall ip :: ip in Distinct(ips) <==> ip in ips
  {
    if ips != [] {
      DistinctNoRepeats(ips[..|ips| - 1]);
      assert ips == ips[..|ips| - 1] + [ips[|ips| - 1]];
    }
  }

  ghost predicate AddressInv(rule: Rule, visits: seq<Visit>, w: World) {
    && |w.phases| == |visits|
    && w.claimed == FirstN(Distinct(w.commits), rule.maxIps)
    && forall i | 0 <= i < |visits| && NeedsAddress(visits[i]) :: AddressPhase(rule, visits[i], w.phases[i], w.claimed)
  }

  /** How the phase of a visit and the claimed addresses fit together. */
  ghost predicate AddressPhase(rule: Rule, v: Visit, phase: Phase, claimed: seq<string>) {
    match phase
    case Assigning(_) => v.ip.Some?
    case Writing(_) => v.ip.Some? && v.ip.value in claimed
    case Admitted(_) => v.ip.Some? && v.ip.value in claimed
    case Denied(reason) =>
      reason.IpLimitExceeded? ==> v.ip.Some? && v.ip.value !in claimed && |claimed| == rule.maxIps
    case Arriving => true
  }

  /** The transaction keeps the claimed addresses the first ones to commit. */
  lemma AssignKeepsFirst(maxIps: nat, commits: seq<string>, ip: string)
    requires maxIps > 0
    ensures var claimed := FirstN(Distinct(commits), maxIps);
      var (claimed', ok) := Assign(maxIps, claimed, ip);
      && claimed' == FirstN(Distinct(commits + [ip]), maxIps)
      && claimed <= claimed'
      && (ok <==> ip in claimed')
      && (!ok ==> |claimed| == maxIps)
  {
    assert (commits + [ip])[..|commits|] == commits;
    DistinctNoRepeats(commits);
    var all := Distinct(commits);
    if ip in all && ip !in FirstN(all, maxIps) {
      assert |all| > maxIps;
    }
  }

  /** More claimed addresses only ever confirm a phase, as long as a full list stays as it is. */
  lemma GrownPhases(rule: Rule, visits: seq<Visit>, w: World, claimed: seq<string>)
    requires AddressInv(rule, visits, w)
    requires w.claimed <= claimed && |claimed| <= rule.maxIps
    ensures forall i | 0 <= i < |visits| && NeedsAddress(visits[i]) :: AddressPhase(rule, visits[i], w.phases[i], claimed)
  {
    forall i | 0 <= i < |visits| && NeedsAddress(visits[i]) ensures AddressPhase(rule, visits[i], w.phases[i], claimed) {
      assert AddressPhase(rule, visits[i], w.phases[i], w.claimed);
      if |w.claimed| == rule.maxIps {
        assert claimed == w.claimed;
      }
    }
  }

  lemma CheckedPhase(rule: Rule, views: nat, claimed: seq<string>, v: Visit)
    requires FirstComeRule(rule) && NeedsAddress(v)
    ensures AddressPhase(rule, v, Check(rule, views, claimed, v), claimed)
  {
  }

  lemma AssignedPhase(rule: Rule, v: Visit, phase: Phase, commits: seq<string>)
    requires FirstComeRule(rule) && phase.Assigning? && v.ip.Some?
    ensures var claimed := FirstN(Distinct(commits), rule.maxIps);
      var (claimed', ok) := Assign(rule.maxIps, claimed, v.ip.value);
      && claimed' == FirstN(Distinct(commits + [v.ip.value]), rule.maxIps) && claimed <= claimed'
      && AddressPhase(rule, v, if ok then Enter(v, phase.snapshotViews) else Denied(IpLimitExceeded), claimed')
  {
    AssignKeepsFirst(rule.maxIps, commits, v.ip.value);
  }

  lemma StepKeepsAddressInv(rule: Rule, visits: seq<Visit>, w: World, i: nat)
    requires FirstComeRule(rule) && AddressInv(rule, visits, w)
    ensures AddressInv(rule, visits, Step(rule, visits, w, i))
  {
    if i < |visits| {
      var v, phase := visits[i], w.phases[i];
      if phase.Arriving? {
        if NeedsAddress(v) {
          CheckedPhase(rule, w.views, w.claimed, v);
        }
      } else if phase.Assigning? && v.ip.Some? {
        AssignedPhase(rule, v, phase, w.commits);
        GrownPhases(rule, visits, w, Step(rule, visits, w, i).claimed);
      } else {
        assert NeedsAddress(v) ==> AddressPhase(rule, v, phase, w.claimed);
      }
    }
  }

  lemma {:induction false} RunKeepsAddressInv(rule: Rule, visits: seq<Visit>, w: World, schedule: seq<nat>)
    requires FirstComeRule(rule) && AddressInv(rule, visits, w)
    ensures AddressInv(rule, visits, Run(rule, visits, w, schedule))
    decreases |schedule|
  {
    if schedule != [] {
      StepKeepsAddressInv(rule, visits, w, schedule[0]);
      RunKeepsAddressInv(rule, visits, Step(rule, visits, w, schedule[0]), schedule[1..]);
    }
  }

  /** The visit was let past the limit on addresses; at most the write of the counter is left. */
  predicate LetIn(p: Phase) {
    p.Writing? || p.Admitted?
  }

  /** Some visit that needs an address was let in with this one. */
  ghost predicate HasVisit(visits: seq<Visit>, phases: seq<Phase>, ip: string)
    requires |phases| == |visits|
  {
    exists i | 0 <= i < |visits| :: NeedsAddress(visits[i]) && visits[i].ip == Some(ip) && LetIn(phases[i])
  }

  /** Only visits that need an address wait for one, and every claimed address has a visit that was let in. */
  ghost predicate ClaimedInv(visits: seq<Visit>, w: World) {
    && |w.phases| == |visits|
    && (forall i | 0 <= i < |visits| && w.phases[i].Assigning? :: NeedsAddress(visits[i]))
    && forall ip | ip in w.claimed :: HasVisit(visits, w.phases, ip)
  }

  lemma StepKeepsClaimedInv(rule: Rule, visits: seq<Visit>, w: World, i: nat)
    requires rule.maxIps != 0 && ClaimedInv(visits, w)
    ensures ClaimedInv(visits, Step(rule, visits, w, i))
  {
    var w' := Step(rule, visits, w, i);
    forall ip | ip in w'.claimed ensures HasVisit(visits, w'.phases, ip) {
      if ip in w.claimed {
        var k :| 0 <= k < |visits| && NeedsAddress(visits[k]) && visits[k].ip == Some(ip) && LetIn(w.phases[k]);
        assert LetIn(w'.phases[k]);
      } else {
        assert visits[i].ip == Some(ip) && LetIn(w'.phases[i]);
      }
    }
  }

  lemma {:induction false} RunKeepsClaimedInv(rule: Rule, visits: seq<Visit>, w: World, schedule: seq<nat>)
    requires rule.maxIps != 0 && ClaimedInv(visits, w)
    ensures ClaimedInv(visits, Run(rule, visits, w, schedule))
    decreases |schedule|
  {
    if schedule != [] {
      StepKeepsClaimedInv(rule, visits, w, schedule[0]);
      RunKeepsClaimedInv(rule, visits, Step(rule, visits, w, schedule[0]), schedule[1..]);
    }
  }

  /**
   * For every schedule: the claimed addresses are the first `maxIps` distinct ones whose transactions
   * committed, and they are exactly the addresses of the visits that were let in; everyone refused for the
   * limit has none of them and the list is full.
   */
  lemma FirstComeFirstServed(rule: Rule, visits: seq<Visit>, views: nat, schedule: seq<nat>)
    requires FirstComeRule(rule)
    ensures var w := Run(rule, visits, Begin(views, visits), schedule);
      && w.claimed == FirstN(Distinct(w.commits), rule.maxIps)
      && |w.claimed| <= rule.maxIps && NoRepeats(w.claimed)
      && (forall ip :: ip in w.claimed <==> HasVisit(visits, w.phases, ip))
      && forall i | 0 <= i < |visits| && NeedsAddress(visits[i]) ::
           && (w.phases[i].Admitted? ==> visits[i].ip.Some? && visits[i].ip.value in w.claimed)
           && (w.phases[i] == Denied(IpLimitExceeded) ==>
                 visits[i].ip.Some? && visits[i].ip.value !in w.claimed && |w.claimed| == rule.maxIps)
  {
    RunKeepsAddressInv(rule, visits, Begin(views, visits), schedule);
    RunKeepsClaimedInv(rule, visits, Begin(views, visits), schedule);
    var w := Run(rule, visits, Begin(views, visits), schedule);
    DistinctNoRepeats(w.commits);
    forall i | 0 <= i < |visits| && NeedsAddress(visits[i])
      ensures AddressPhase(rule, visits[i], w.phases[i], w.claimed)
    {
    }
  }

  // ---------------------------------------------------------------- passwords, tokens and the allow list

  /** The visit meets every condition of the rule that does not depend on other visits. */
  predicate Entitled(rule: Rule, v: Visit) {
    && (v.Guarded? ==>
          && !v.gate.Blocked?
          && (v.gate.Open? ==> (rule.password ==> v.hasToken) && (v.hasToken ==> v.tokenValid)))
    && (v.TokenRequest? ==> rule.password ==> v.passwordValid)
    && (NeedsAddress(v) && rule.allowedIps != [] ==> v.ip.Some? && v.ip.value in rule.allowedIps)
  }

  ghost predicate OnlyEntitled(rule: Rule, visits: seq<Visit>, w: World) {
    && |w.phases| == |visits|
    && forall i | 0 <= i < |visits| && !w.phases[i].Arriving? && !w.phases[i].Denied? :: Entitled(rule, visits[i])
  }

  lemma {:induction false} RunKeepsEntitled(rule: Rule, visits: seq<Visit>, w: World, schedule: seq<nat>)
    requires OnlyEntitled(rule, visits, w)
    ensures OnlyEntitled(rule, visits, Run(rule, visits, w, schedule))
    decreases |schedule|
  {
    if schedule != [] {
      RunKeepsEntitled(rule, visits, Step(rule, visits, w, schedule[0]), schedule[1..]);
    }
  }

  /** However the visits interleave, nobody gets in without the password, a valid token and an allowed address. */
  lemma AdmittedAreEntitled(rule: Rule, visits: seq<Visit>, views: nat, schedule: seq<nat>)
    ensures var w := Run(rule, visits, Begin(views, visits), schedule);
      forall i | 0 <= i < |visits| && w.phases[i].Admitted? :: Entitled(rule, visits[i])
  {
    RunKeepsEntitled(rule, visits, Begin(views, visits), schedule);
  }

  /** An administrator with access to all shares is not bound by the rule. */
  predicate IsAdmin(v: Visit) {
    v.Guarded? && v.gate.AdminAccess?
  }

  predicate WithinViews(rule: Rule, views: nat, v: Visit) {
    (v.TokenRequest? || !v.hasToken) && rule.maxViews != 0 ==> views < rule.maxViews
  }

  /** Under a limit the address is already claimed, or there is room for one more. */
  predicate WithinIps(rule: Rule, claimed: seq<string>, v: Visit) {
    rule.allowedIps == [] && rule.maxIps != 0 ==> v.ip.Some? && (v.ip.value in claimed || |claimed| < rule.maxIps)
  }

  /**
   * A visit without interruption is admitted exactly when it is entitled to and the limits leave room, or it is an
   * administrator's; then it claims its address if it has to, and is counted unless it carries a token.
   */
  lemma AdmittedExactly(rule: Rule, v: Visit, w: World)
    requires w.phases == [Arriving]
    ensures var w' := Run(rule, [v], w, [0, 0, 0]);
      var bound := !IsAdmin(v);
      && (w'.phases[0].Admitted? <==>
            Entitled(rule, v) && (bound ==> WithinViews(rule, w.views, v) && WithinIps(rule, w.claimed, v)))
      && (w'.phases[0].Admitted? ==>
            && w'.views == w.views + (if bound && (v.TokenRequest? || !v.hasToken) then 1 else 0)
            && w'.claimed == w.claimed +
                 (if bound && rule.allowedIps == [] && rule.maxIps != 0 && v.ip.value !in w.claimed then [v.ip.value] else []))
      && (!w'.phases[0].Admitted? ==> w'.phases[0].Denied? && w'.views == w.views && w'.claimed == w.claimed)
  {
    ThreeSteps(rule, v, w);
  }

  /** The address is not known although the rule needs one, or it is not on the list. */
  predicate BadAddress(rule: Rule, v: Visit) {
    if rule.allowedIps != [] then v.ip.None? || v.ip.value !in rule.allowedIps else rule.maxIps != 0 && v.ip.None?
  }

  /** The password or a valid token has been given, or is not asked for. */
  predicate PastPassword(rule: Rule, v: Visit) {
    match v
    case Guarded(gate, hasToken, tokenValid, _) => gate.Open? && (if hasToken then tokenValid else !rule.password)
    case TokenRequest(passwordValid, _) => rule.password ==> passwordValid
  }

  /**
   * Why a visit without interruption is refused, reason by reason: it is not for this visitor at all; the password is
   * asked for, but not from an address that is not allowed; the token is no good; no views are left; the address is
   * not allowed; all places are taken.
   */
  lemma DeniedExactly(rule: Rule, v: Visit, w: World)
    requires w.phases == [Arriving]
    ensures var p := Run(rule, [v], w, [0, 0, 0]).phases[0];
      var asks := v.Guarded? && v.gate.Open? && rule.password && !v.hasToken;
      var within := WithinViews(rule, w.views, v);
      && (p == Denied(NotAllowed) <==> v.Guarded? && v.gate.Blocked?)
      && (p == Denied(PasswordRequired) <==>
            (asks && !BadAddress(rule, v)) || (v.TokenRequest? && rule.password && !v.passwordValid))
      && (p == Denied(BadToken) <==> v.Guarded? && v.gate.Open? && v.hasToken && !v.tokenValid)
      && (p == Denied(ViewsExceeded) <==> PastPassword(rule, v) && !within)
      && (p == Denied(IpNotAllowed) <==> BadAddress(rule, v) && (asks || (PastPassword(rule, v) && within)))
      && (p == Denied(IpLimitExceeded) <==>
            PastPassword(rule, v) && within && !BadAddress(rule, v) && rule.allowedIps == [] && rule.maxIps != 0
            && v.ip.value !in w.claimed && |w.claimed| >= rule.maxIps)
  {
    ThreeSteps(rule, v, w);
  }

  // ---------------------------------------------------------------- the view counter

  /** The visits that were admitted and counted. */
  function Counted(phases: seq<Phase>): nat {
    if phases == [] then 0
    else Counted(phases[..|phases| - 1]) + (if phases[|phases| - 1] == Admitted(true) then 1 else 0)
  }

  function PhasePoint(p: Phase): nat {
    if p == Admitted(true) then 1 else 0
  }

  lemma {:induction false} CountedUpdate(phases: seq<Phase>, i: nat, p: Phase)
    requires i < |phases|
    ensures Counted(phases[i := p]) == Counted(phases) - PhasePoint(phases[i]) + PhasePoint(p)
  {
    var n := |phases| - 1;
    if i == n {
      assert phases[i := p][..n] == phases[..n];
    } else {
      assert phases[i := p][..n] == phases[..n][i := p];
      CountedUpdate(phases[..n], i, p);
    }
  }

  /** The counter of the snapshot that a visit still carries with it. */
  predicate Carries(p: Phase) {
    p.Assigning? || p.Writing?
  }

  ghost predicate CounterInv(rule: Rule, visits: seq<Visit>, initial: nat, w: World) {
    && |w.phases| == |visits|
    && w.views <= initial + Counted(w.phases)
    && (rule.maxViews > 0 ==> w.views <= initial || w.views <= rule.maxViews)
    && forall i | 0 <= i < |visits| && Carries(w.phases[i]) :: CarriedInv(rule, visits[i], initial, w, w.phases[i])
  }

  /** A carried snapshot is never ahead of the count, and if it is level with it, the counter is still what it was. */
  ghost predicate CarriedInv(rule: Rule, v: Visit, initial: nat, w: World, p: Phase)
    requires Carries(p)
  {
    && p.snapshotViews <= initial + Counted(w.phases)
    && (p.snapshotViews == initial + Counted(w.phases) ==> w.views == p.snapshotViews)
    && (rule.maxViews > 0 && CountsView(v) ==> p.snapshotViews < rule.maxViews)
    && (p.Writing? ==> CountsView(v))
  }

  /** The step writes a counter that another visit has changed since the snapshot was read. */
  ghost predicate StaleWrite(w: World, i: nat) {
    i < |w.phases| && w.phases[i].Writing? && w.phases[i].snapshotViews != w.views
  }

  lemma StepKeepsCounterInv(rule: Rule, visits: seq<Visit>, initial: nat, w: World, i: nat)
    requires CounterInv(rule, visits, initial, w)
    ensures var w' := Step(rule, visits, w, i);
      && CounterInv(rule, visits, initial, w')
      && (w'.views == initial + Counted(w'.phases) <==> w.views == initial + Counted(w.phases) && !StaleWrite(w, i))
  {
    if i < |visits| {
      var w' := Step(rule, visits, w, i);
      CountedUpdate(w.phases, i, w'.phases[i]);
      assert w'.phases == w.phases[i := w'.phases[i]];
      assert Carries(w.phases[i]) ==> CarriedInv(rule, visits[i], initial, w, w.phases[i]);
      forall k | 0 <= k < |visits| && Carries(w'.phases[k]) ensures CarriedInv(rule, visits[k], initial, w', w'.phases[k]) {
        if k != i {
          assert CarriedInv(rule, visits[k], initial, w, w.phases[k]);
        }
      }
    }
  }

  /** Some step of the run overwrites the counter with a value computed from an outdated snapshot. */
  ghost predicate EverStale(rule: Rule, visits: seq<Visit>, w: World, schedule: seq<nat>)
    requires |w.phases| == |visits|
    decreases |schedule|
  {
    schedule != [] &&
    (StaleWrite(w, schedule[0]) || EverStale(rule, visits, Step(rule, visits, w, schedule[0]), schedule[1..]))
  }

  lemma {:induction false} RunKeepsCounterInv(rule: Rule, visits: seq<Visit>, initial: nat, w: World, schedule: seq<nat>)
    requires CounterInv(rule, visits, initial, w)
    ensures var w' := Run(rule, visits, w, schedule);
      && CounterInv(rule, visits, initial, w')
      && (w'.views == initial + Counted(w'.phases) <==>
            w.views == initial + Counted(w.phases) && !EverStale(rule, visits, w, schedule))
    decreases |schedule|
  {
    if schedule != [] {
      StepKeepsCounterInv(rule, visits, initial, w, schedule[0]);
      RunKeepsCounterInv(rule, visits, initial, Step(rule, visits, w, schedule[0]), schedule[1..]);
    }
  }

  lemma {:induction false} NobodyCounted(n: nat)
    ensures Counted(seq(n, _ => Arriving)) == 0
  {
    if n > 0 {
      assert seq(n, _ => Arriving)[..n - 1] == seq(n - 1, _ => Arriving);
      NobodyCounted(n - 1);
    }
  }

  /**
   * For every schedule: the counter never passes the larger of its first value and the limit, it never counts
   * more views than were admitted, and it counts every one of them exactly when no write was stale.
   */
  lemma CounterBounds(rule: Rule, visits: seq<Visit>, initial: nat, schedule: seq<nat>)
    ensures var w := Run(rule, visits, Begin(initial, visits), schedule);
      && (rule.maxViews > 0 ==> w.views <= initial || w.views <= rule.maxViews)
      && w.views <= initial + Counted(w.phases)
      && (w.views == initial + Counted(w.phases) <==> !EverStale(rule, visits, Begin(initial, visits), schedule))
  {
    NobodyCounted(|visits|);
    RunKeepsCounterInv(rule, visits, initial, Begin(initial, visits), schedule);
  }

  // ---------------------------------------------------------------- one visit at a time

  /** Visits that run their steps without anyone in between. */
  function OneByOne(order: seq<nat>): seq<nat>
    decreases |order|
  {
    if order == [] then [] else [order[0], order[0], order[0]] + OneByOne(order[1..])
  }

  /** No visit has begun without being finished. */
  ghost predicate Quiet(w: World) {
    forall k | 0 <= k < |w.phases| :: !Carries(w.phases[k])
  }

  lemma StaleNext(rule: Rule, visits: seq<Visit>, w: World, i: nat, rest: seq<nat>)
    requires |w.phases| == |visits|
    ensures EverStale(rule, visits, w, [i] + rest) <==> StaleWrite(w, i) || EverStale(rule, visits, Step(rule, visits, w, i), rest)
  {
    assert ([i] + rest)[1..] == rest;
  }

  /** After three steps of one visit nobody has begun without being finished, and no write of its was stale. */
  lemma QuietSteps(rule: Rule, visits: seq<Visit>, w: World, i: nat)
    requires |w.phases| == |visits| && Quiet(w)
    ensures var w1 := Step(rule, visits, w, i);
      var w2 := Step(rule, visits, w1, i);
      Quiet(Step(rule, visits, w2, i)) && !StaleWrite(w, i) && !StaleWrite(w1, i) && !StaleWrite(w2, i)
  {
  }

  lemma QuietVisit(rule: Rule, visits: seq<Visit>, w: World, i: nat, rest: seq<nat>)
    requires |w.phases| == |visits| && Quiet(w)
    ensures var w1 := Step(rule, visits, w, i);
      var w2 := Step(rule, visits, w1, i);
      var w3 := Step(rule, visits, w2, i);
      && Quiet(w3)
      && (EverStale(rule, visits, w, [i, i, i] + rest) <==> EverStale(rule, visits, w3, rest))
  {
    var w1 := Step(rule, visits, w, i);
    var w2 := Step(rule, visits, w1, i);
    QuietSteps(rule, visits, w, i);
    assert [i, i, i] + rest == [i] + ([i] + ([i] + rest));
    StaleNext(rule, visits, w, i, [i] + ([i] + rest));
    StaleNext(rule, visits, w1, i, [i] + rest);
    StaleNext(rule, visits, w2, i, rest);
  }

  lemma {:induction false} OneByOneNotStale(rule: Rule, visits: seq<Visit>, w: World, order: seq<nat>)
    requires |w.phases| == |visits| && Quiet(w)
    ensures !EverStale(rule, visits, w, OneByOne(order))
    decreases |order|
  {
    if order != [] {
      QuietVisit(rule, visits, w, order[0], OneByOne(order[1..]));
      var w1 := Step(rule, visits, w, order[0]);
      var w2 := Step(rule, visits, w1, order[0]);
      OneByOneNotStale(rule, visits, Step(rule, visits, w2, order[0]), order[1..]);
    }
  }

  /** Visits that come one at a time are counted exactly once each, and never more than the limit allows. */
  lemma OneByOneCounted(rule: Rule, visits: seq<Visit>, initial: nat, order: seq<nat>)
    ensures var w := Run(rule, visits, Begin(initial, visits), OneByOne(order));
      && w.views == initial + Counted(w.phases)
      && (rule.maxViews > 0 ==> Counted(w.phases) == 0 || initial + Counted(w.phases) <= rule.maxViews)
  {
    OneByOneNotStale(rule, visits, Begin(initial, visits), order);
    CounterBounds(rule, visits, initial, OneByOne(order));
  }

  /** Two visits that overlap may both be admitted where the limit allows one view, and only one is counted. */
  lemma OverlapExceedsLimit()
    ensures var v := Guarded(Open, false, false, None);
      var w := Run(Rule(false, 1, 0, []), [v, v], Begin(0, [v, v]), [0, 1, 0, 1]);
      w.views == 1 && Counted(w.phases) == 2
  {
    var v, rule := Guarded(Open, false, false, None), Rule(false, 1, 0, []);
    var visits := [v, v];
    var w0 := Begin(0, visits);
    var w1 := Step(rule, visits, w0, 0);
    var w2 := Step(rule, visits, w1, 1);
    var w3 := Step(rule, visits, w2, 0);
    var w4 := Step(rule, visits, w3, 1);
    assert w2.phases == [Writing(0), Writing(0)];
    assert w4.phases == [Admitted(true), Admitted(true)] && w4.views == 1;
    assert [0, 1, 0, 1][1..] == [1, 0, 1] && [1, 0, 1][1..] == [0, 1] && [0, 1][1..] == [1] && [1][1..] == [];
    assert Run(rule, visits, w0, [0, 1, 0, 1]) == Run(rule, visits, w1, [1, 0, 1])
        == Run(rule, visits, w2, [0, 1]) == Run(rule, visits, w3, [1]) == Run(rule, visits, w4, []);
    var one := [Admitted(true)];
    assert w4.phases[..1] == one && one[..0] == [];
    assert Counted(one) == 1;
  }
}

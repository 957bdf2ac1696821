// How many views can be counted when visits overlap: exactly when the limit on views can be passed, and exactly when
// the counter can be wrong.
module ViewLimit {
  import opened Sets
  import opened ShareAccess
  import opened ShareRuns

  /** The views that are left. */
  function Remaining(rule: Rule, initial: nat): nat {
    if initial < rule.maxViews then rule.maxViews - initial else 0
  }

  /** Views are counted at all: there is no limit, or it is not reached yet. */
  predicate StillOpen(rule: Rule, initial: nat) {
    rule.maxViews == 0 || initial < rule.maxViews
  }

  /** At most so many addresses can be claimed. */
  function Places(rule: Rule): nat {
    if rule.maxIps > 0 then rule.maxIps else 0
  }

  /** A visit that may be counted, if the addresses that get claimed are these. */
  predicate Wanted(rule: Rule, v: Visit, ips: set<string>) {
    && CountsView(v) && !IsAdmin(v) && Entitled(rule, v)
    && (rule.allowedIps == [] && rule.maxIps != 0 ==> v.ip.Some? && v.ip.value in ips)
  }

  function WantedCount(rule: Rule, visits: seq<Visit>, ips: set<string>): nat {
    if visits == [] then 0
    else
      WantedCount(rule, visits[..|visits| - 1], ips) + (if Wanted(rule, visits[|visits| - 1], ips) then 1 else 0)
  }

  // ---------------------------------------------------------------- no more than these

  /** What is or will be counted is wanted by the addresses claimed so far. */
  ghost predicate CountedInv(rule: Rule, visits: seq<Visit>, w: World) {
    && |w.phases| == |visits|
    && |w.claimed| <= Places(rule)
    && forall i | 0 <= i < |visits| :: PhaseInv(rule, visits[i], w.phases[i], w.claimed)
  }

  ghost predicate PhaseInv(rule: Rule, v: Visit, phase: Phase, claimed: seq<string>) {
    && (phase.Writing? || phase == Admitted(true) ==> Wanted(rule, v, SetOf(claimed)))
    && (phase.Assigning? ==> Entitled(rule, v) && !IsAdmin(v))
  }

  lemma StepKeepsCountedInv(rule: Rule, visits: seq<Visit>, w: World, i: nat)
    requires CountedInv(rule, visits, w)
    ensures CountedInv(rule, visits, Step(rule, visits, w, i))
  {
    var w' := Step(rule, visits, w, i);
    assert SetOf(w.claimed) <= SetOf(w'.claimed);
    forall k | 0 <= k < |visits| ensures PhaseInv(rule, visits[k], w'.phases[k], w'.claimed) {
      assert PhaseInv(rule, visits[k], w.phases[k], w.claimed);
    }
  }

  lemma {:induction false} RunKeepsCountedInv(rule: Rule, visits: seq<Visit>, w: World, schedule: seq<nat>)
    requires CountedInv(rule, visits, w)
    ensures CountedInv(rule, visits, Run(rule, visits, w, schedule))
    decreases |schedule|
  {
    if schedule != [] {
      StepKeepsCountedInv(rule, visits, w, schedule[0]);
      RunKeepsCountedInv(rule, visits, Step(rule, visits, w, schedule[0]), schedule[1..]);
    }
  }

  lemma {:induction false} CountCompared(rule: Rule, visits: seq<Visit>, phases: seq<Phase>, ips: set<string>)
    requires |phases| == |visits|
    ensures (forall i | 0 <= i < |visits| :: phases[i] == Admitted(true) ==> Wanted(rule, visits[i], ips)) ==>
      Counted(phases) <= WantedCount(rule, visits, ips)
    ensures (forall i | 0 <= i < |visits| :: Wanted(rule, visits[i], ips) ==> phases[i] == Admitted(true)) ==>
      Counted(phases) >= WantedCount(rule, visits, ips)
  {
    if visits != [] {
      CountCompared(rule, visits[..|visits| - 1], phases[..|phases| - 1], ips);
    }
  }

  lemma CountedWithin(rule: Rule, visits: seq<Visit>, w: World) returns (ips: set<string>)
    requires CountedInv(rule, visits, w)
    ensures |ips| <= Places(rule) && Counted(w.phases) <= WantedCount(rule, visits, ips)
  {
    ips := SetOf(w.claimed);
    SetOfSize(w.claimed);
    forall i | 0 <= i < |visits| && w.phases[i] == Admitted(true) ensures Wanted(rule, visits[i], ips) {
      assert PhaseInv(rule, visits[i], w.phases[i], w.claimed);
    }
    CountCompared(rule, visits, w.phases, ips);
  }

  /** For every schedule there are no more counted views than visits wanted by as many addresses as have a place. */
  lemma CountedAreWanted(rule: Rule, visits: seq<Visit>, initial: nat, schedule: seq<nat>) returns (ips: set<string>)
    ensures |ips| <= Places(rule)
    ensures Counted(Run(rule, visits, Begin(initial, visits), schedule).phases) <= WantedCount(rule, visits, ips)
  {
    RunKeepsCountedInv(rule, visits, Begin(initial, visits), schedule);
    ips := CountedWithin(rule, visits, Run(rule, visits, Begin(initial, visits), schedule));
  }

  // ---------------------------------------------------------------- everyone reads, then everyone writes

  /** The wanted visits among the first `n`, in order. */
  function WantedOrder(rule: Rule, visits: seq<Visit>, ips: set<string>, n: nat): seq<nat>
    requires n <= |visits|
  {
    if n == 0 then []
    else WantedOrder(rule, visits, ips, n - 1) + (if Wanted(rule, visits[n - 1], ips) then [n - 1] else [])
  }

  lemma {:induction false} RunAppend(rule: Rule, visits: seq<Visit>, w: World, a: seq<nat>, b: seq<nat>)
    requires |w.phases| == |visits|
    ensures Run(rule, visits, w, a + b) == Run(rule, visits, Run(rule, visits, w, a), b)
    decreases |a|
  {
    if a == [] {
      assert a + b == b;
    } else {
      assert (a + b)[0] == a[0] && (a + b)[1..] == a[1..] + b;
      RunAppend(rule, visits, Step(rule, visits, w, a[0]), a[1..], b);
    }
  }

  /** How far a visit is after so many steps. */
  ghost predicate AtRank(rule: Rule, p: Phase, initial: nat, rank: nat) {
    || (rank == 0 && p == Arriving)
    || (rank == 1 && p == Assigning(initial) && rule.allowedIps == [] && rule.maxIps != 0)
    || (rank == 1 && p == Writing(initial))
    || (rank == 2 && (p == Writing(initial) || p == Admitted(true)))
    || (rank == 3 && p == Admitted(true))
  }

  /** The first `n` wanted visits have taken one step more than the others. */
  ghost predicate PassInv(rule: Rule, visits: seq<Visit>, ips: set<string>, initial: nat, rank: nat, n: nat, w: World) {
    && |w.phases| == |visits|
    && NoRepeats(w.claimed) && SetOf(w.claimed) <= ips
    && w.views <= initial + 1 && (rank == 0 ==> w.views == initial)
    && forall i | 0 <= i < |visits| && Wanted(rule, visits[i], ips) :: AtRank(rule, w.phases[i], initial, if i < n then rank + 1 else rank)
  }

  lemma {:induction false} NoRepeatsSize(ips: seq<string>)
    requires NoRepeats(ips)
    ensures |SetOf(ips)| == |ips|
  {
    if ips != [] {
      var front, last := ips[..|ips| - 1], ips[|ips| - 1];
      NoRepeatsSize(front);
      assert ips == front + [last];
      assert SetOf(ips) == SetOf(front) + {last};
    }
  }

  /** Only wanted addresses are claimed, so there is room for one of them. */
  lemma RoomForWanted(rule: Rule, claimed: seq<string>, ips: set<string>, ip: string)
    requires NoRepeats(claimed) && SetOf(claimed) <= ips && |ips| <= Places(rule) && ip in ips
    ensures var (claimed', ok) := Assign(rule.maxIps, claimed, ip);
      ok && NoRepeats(claimed') && SetOf(claimed') <= ips
  {
    NoRepeatsSize(claimed);
    if ip !in claimed {
      SubsetSize(SetOf(claimed) + {ip}, ips);
    }
  }

  lemma PassStep(rule: Rule, visits: seq<Visit>, ips: set<string>, initial: nat, rank: nat, n: nat, w: World)
    requires StillOpen(rule, initial) && |ips| <= Places(rule) && rank < 3
    requires n < |visits| && PassInv(rule, visits, ips, initial, rank, n, w)
    ensures PassInv(rule, visits, ips, initial, rank, n + 1, if Wanted(rule, visits[n], ips) then Step(rule, visits, w, n) else w)
  {
    if Wanted(rule, visits[n], ips) {
      var v, p := visits[n], w.phases[n];
      assert AtRank(rule, p, initial, rank);
      if p.Assigning? {
        RoomForWanted(rule, w.claimed, ips, v.ip.value);
      }
    }
  }

  lemma RunOrder(rule: Rule, visits: seq<Visit>, ips: set<string>, w: World, n: nat)
    requires |w.phases| == |visits| && 0 < n <= |visits|
    ensures var w' := Run(rule, visits, w, WantedOrder(rule, visits, ips, n - 1));
      Run(rule, visits, w, WantedOrder(rule, visits, ips, n)) == if Wanted(rule, visits[n - 1], ips) then Step(rule, visits, w', n - 1) else w'
  {
    var order := WantedOrder(rule, visits, ips, n - 1);
    if Wanted(rule, visits[n - 1], ips) {
      var w' := Run(rule, visits, w, order);
      RunAppend(rule, visits, w, order, [n - 1]);
      assert Run(rule, visits, w', [n - 1]) == Step(rule, visits, w', n - 1);
    } else {
      assert order + [] == order;
    }
  }

  lemma {:induction false} Pass(rule: Rule, visits: seq<Visit>, ips: set<string>, initial: nat, rank: nat, n: nat, w: World)
    requires StillOpen(rule, initial) && |ips| <= Places(rule) && rank < 3
    requires n <= |visits| && PassInv(rule, visits, ips, initial, rank, 0, w)
    ensures PassInv(rule, visits, ips, initial, rank, n, Run(rule, visits, w, WantedOrder(rule, visits, ips, n)))
  {
    if n > 0 {
      Pass(rule, visits, ips, initial, rank, n - 1, w);
      PassStep(rule, visits, ips, initial, rank, n - 1, Run(rule, visits, w, WantedOrder(rule, visits, ips, n - 1)));
      RunOrder(rule, visits, ips, w, n);
    }
  }

  /** All wanted visits take their first step, then all their second, then all their third. */
  function InRounds(rule: Rule, visits: seq<Visit>, ips: set<string>): seq<nat> {
    var round := WantedOrder(rule, visits, ips, |visits|);
    round + round + round
  }

  lemma RoundsCountAll(rule: Rule, visits: seq<Visit>, ips: set<string>, initial: nat)
    requires StillOpen(rule, initial) && |ips| <= Places(rule)
    ensures var w := Run(rule, visits, Begin(initial, visits), InRounds(rule, visits, ips));
      Counted(w.phases) >= WantedCount(rule, visits, ips) && w.views <= initial + 1
  {
    var round, n := WantedOrder(rule, visits, ips, |visits|), |visits|;
    var w0 := Begin(initial, visits);
    var w1 := Run(rule, visits, w0, round);
    var w2 := Run(rule, visits, w1, round);
    var w3 := Run(rule, visits, w2, round);
    Pass(rule, visits, ips, initial, 0, n, w0);
    assert PassInv(rule, visits, ips, initial, 1, 0, w1);
    Pass(rule, visits, ips, initial, 1, n, w1);
    assert PassInv(rule, visits, ips, initial, 2, 0, w2);
    Pass(rule, visits, ips, initial, 2, n, w2);
    RunAppend(rule, visits, w0, round, round);
    RunAppend(rule, visits, w0, round + round, round);
    forall i | 0 <= i < |visits| && Wanted(rule, visits[i], ips) ensures w3.phases[i] == Admitted(true) {
      assert AtRank(rule, w3.phases[i], initial, 3);
    }
    CountCompared(rule, visits, w3.phases, ips);
  }

  // ---------------------------------------------------------------- the exact condition

  ghost predicate StaysWithin(rule: Rule, visits: seq<Visit>, initial: nat, schedule: seq<nat>) {
    Counted(Run(rule, visits, Begin(initial, visits), schedule).phases) <= Remaining(rule, initial)
  }

  /** No choice of addresses lets more visits in than views are left. */
  ghost predicate FewWanted(rule: Rule, visits: seq<Visit>, initial: nat) {
    forall ips: set<string> | |ips| <= Places(rule) :: WantedCount(rule, visits, ips) <= Remaining(rule, initial)
  }

  /** Once the limit is reached nobody is counted any more, whatever the schedule. */
  lemma {:induction false} NobodyOnceReached(rule: Rule, visits: seq<Visit>, w: World, schedule: seq<nat>)
    requires rule.maxViews != 0 && rule.maxViews <= w.views && |w.phases| == |visits|
    requires forall i | 0 <= i < |visits| :: w.phases[i] != Admitted(true) && !w.phases[i].Writing? && (w.phases[i].Assigning? ==> !CountsView(visits[i]))
    ensures var w' := Run(rule, visits, w, schedule); Counted(w'.phases) == 0 && w'.views == w.views
    decreases |schedule|
  {
    if schedule == [] {
      NoneCounted(w.phases);
    } else {
      NobodyOnceReached(rule, visits, Step(rule, visits, w, schedule[0]), schedule[1..]);
    }
  }

  lemma {:induction false} NoneCounted(phases: seq<Phase>)
    requires forall i | 0 <= i < |phases| :: phases[i] != Admitted(true)
    ensures Counted(phases) == 0
  {
    if phases != [] {
      NoneCounted(phases[..|phases| - 1]);
    }
  }

  /**
   * All interleavings of the visits count no more views than are left exactly when the limit is reached already or
   * no more visits than that want to be counted, where each limited address set stands for who gets a place.
   */
  lemma LimitHoldsExactly(rule: Rule, visits: seq<Visit>, initial: nat)
    requires rule.maxViews > 0
    ensures (forall schedule :: StaysWithin(rule, visits, initial, schedule)) <==>
      initial >= rule.maxViews || FewWanted(rule, visits, initial)
  {
    if initial >= rule.maxViews {
      forall schedule ensures StaysWithin(rule, visits, initial, schedule) {
        NobodyOnceReached(rule, visits, Begin(initial, visits), schedule);
      }
    } else if FewWanted(rule, visits, initial) {
      forall schedule ensures StaysWithin(rule, visits, initial, schedule) {
        var ips := CountedAreWanted(rule, visits, initial, schedule);
      }
    } else {
      var ips: set<string> :| |ips| <= Places(rule) && WantedCount(rule, visits, ips) > Remaining(rule, initial);
      RoundsCountAll(rule, visits, ips, initial);
      assert !StaysWithin(rule, visits, initial, InRounds(rule, visits, ips));
    }
  }

  /** Without a limit on addresses it is enough to count the visits that want to be counted. */
  lemma LimitHoldsWithoutIps(rule: Rule, visits: seq<Visit>, initial: nat)
    requires rule.maxIps == 0 && initial < rule.maxViews
    ensures (forall schedule :: StaysWithin(rule, visits, initial, schedule)) <==>
      initial + WantedCount(rule, visits, {}) <= rule.maxViews
  {
    LimitHoldsExactly(rule, visits, initial);
    if initial + WantedCount(rule, visits, {}) <= rule.maxViews {
      forall ips: set<string> | |ips| <= Places(rule) ensures WantedCount(rule, visits, ips) <= Remaining(rule, initial) {
        assert ips == {};
      }
    } else {
      var none: set<string> := {};
      assert |none| <= Places(rule) && WantedCount(rule, visits, none) > Remaining(rule, initial);
      assert !FewWanted(rule, visits, initial);
    }
  }

  // ---------------------------------------------------------------- the counter

  ghost predicate CountsExactly(rule: Rule, visits: seq<Visit>, initial: nat, schedule: seq<nat>) {
    var w := Run(rule, visits, Begin(initial, visits), schedule);
    w.views == initial + Counted(w.phases)
  }

  /** No choice of addresses lets two visits in that want to be counted. */
  ghost predicate OneWanted(rule: Rule, visits: seq<Visit>) {
    forall ips: set<string> | |ips| <= Places(rule) :: WantedCount(rule, visits, ips) <= 1
  }

  /** As long as nobody is counted, the counter and all snapshots of it are what they were. */
  ghost predicate ExactInv(initial: nat, w: World) {
    && w.views == initial + Counted(w.phases)
    && (Counted(w.phases) == 0 ==>
          forall i | 0 <= i < |w.phases| && Carries(w.phases[i]) :: w.phases[i].snapshotViews == initial)
  }

  lemma StepKeepsExactInv(rule: Rule, visits: seq<Visit>, initial: nat, w: World, i: nat)
    requires CountedInv(rule, visits, w) && OneWanted(rule, visits) && ExactInv(initial, w)
    ensures ExactInv(initial, Step(rule, visits, w, i))
  {
    if i < |visits| {
      var w' := Step(rule, visits, w, i);
      StepKeepsCountedInv(rule, visits, w, i);
      var ips := CountedWithin(rule, visits, w');
      CountedUpdate(w.phases, i, w'.phases[i]);
      assert w'.phases == w.phases[i := w'.phases[i]];
    }
  }

  lemma {:induction false} RunKeepsExactInv(rule: Rule, visits: seq<Visit>, initial: nat, w: World, schedule: seq<nat>)
    requires CountedInv(rule, visits, w) && OneWanted(rule, visits) && ExactInv(initial, w)
    ensures ExactInv(initial, Run(rule, visits, w, schedule))
    decreases |schedule|
  {
    if schedule != [] {
      StepKeepsCountedInv(rule, visits, w, schedule[0]);
      StepKeepsExactInv(rule, visits, initial, w, schedule[0]);
      RunKeepsExactInv(rule, visits, initial, Step(rule, visits, w, schedule[0]), schedule[1..]);
    }
  }

  /**
   * The counter says in all interleavings how many views were admitted exactly when the limit is reached already or
   * no two visits want to be counted, whoever gets a place.
   */
  lemma CounterExactly(rule: Rule, visits: seq<Visit>, initial: nat)
    ensures (forall schedule :: CountsExactly(rule, visits, initial, schedule)) <==>
      !StillOpen(rule, initial) || OneWanted(rule, visits)
  {
    NobodyCounted(|visits|);
    if !StillOpen(rule, initial) {
      forall schedule ensures CountsExactly(rule, visits, initial, schedule) {
        NobodyOnceReached(rule, visits, Begin(initial, visits), schedule);
      }
    } else if OneWanted(rule, visits) {
      forall schedule ensures CountsExactly(rule, visits, initial, schedule) {
        RunKeepsExactInv(rule, visits, initial, Begin(initial, visits), schedule);
      }
    } else {
      var ips: set<string> :| |ips| <= Places(rule) && WantedCount(rule, visits, ips) > 1;
      RoundsCountAll(rule, visits, ips, initial);
      assert !CountsExactly(rule, visits, initial, InRounds(rule, visits, ips));
    }
  }
}

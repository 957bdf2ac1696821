// backend/src/apiToken/guard/apiV1Throttler.guard.ts: a sliding-window limiter over a map of timestamps.
module RateLimiter {
  import opened Wrappers

  datatype Policy = Policy(limit: nat, ttlMs: nat)

  /** `timestamps.filter((timestamp) => timestamp > now - ttlMs)` */
  function Recent(times: seq<int>, now: int, ttlMs: nat): seq<int> {
    if times == [] then []
    else
      var front, last := Recent(times[..|times| - 1], now, ttlMs), times[|times| - 1];
      if last > now - ttlMs then front + [last] else front
  }

  function TimesOf(requests: map<string, seq<int>>, id: string): seq<int> {
    if id in requests then requests[id] else []
  }

  /** The map after a request and whether the request may pass. */
  function Decide(requests: map<string, seq<int>>, id: string, policy: Policy, now: int): (map<string, seq<int>>, bool) {
    var timestamps := Recent(TimesOf(requests, id), now, policy.ttlMs);
    if |timestamps| >= policy.limit then (requests, false)
    else (requests[id := timestamps + [now]], true)
  }

  /** A request that passes is stored with its time behind the recent ones; nothing else is changed, by others neither. */
  lemma DecideStores(requests: map<string, seq<int>>, id: string, policy: Policy, now: int)
    ensures var (after, pass) := Decide(requests, id, policy, now);
      && (!pass ==> after == requests)
      && (pass ==> id in after && |after[id]| >= 1 && after[id][|after[id]| - 1] == now)
      && (pass ==> forall t | t in after[id][..|after[id]| - 1] :: t in TimesOf(requests, id) && t > now - policy.ttlMs)
      && (forall other | other != id :: TimesOf(after, other) == TimesOf(requests, other))
  {
    RecentMembers(TimesOf(requests, id), now, policy.ttlMs);
    var (after, pass) := Decide(requests, id, policy, now);
    if pass {
      var times := Recent(TimesOf(requests, id), now, policy.ttlMs);
      assert after[id] == times + [now] && after[id][..|times|] == times;
    }
  }

  class ApiV1ThrottlerGuard {
    var requests: map<string, seq<int>>

    constructor ()
      ensures requests == map[]
    {
      requests := map[];
    }

    method CanActivate(isOptions: bool, policy: Option<Policy>, id: string, now: int) returns (pass: bool)
      modifies this
      ensures isOptions || policy.None? ==> pass && requests == old(requests)
      ensures !isOptions && policy.Some? ==> (requests, pass) == Decide(old(requests), id, policy.value, now)
    {
      if isOptions {
        return true;
      }
      if policy.None? {
        return true;
      }
      var timestamps := Recent(if id in requests then requests[id] else [], now, policy.value.ttlMs);
      if |timestamps| >= policy.value.limit {
        return false;
      }
      timestamps := timestamps + [now];
      requests := requests[id := timestamps];
      pass := true;
    }
  }

  // ---------------------------------------------------------------- the limiter that forgets nothing

  /** The accepted times after requests at the given times, by a limiter that keeps all of them. */
  function Accepted(policy: Policy, times: seq<int>): seq<int> {
    if times == [] then []
    else
      var before, now := Accepted(policy, times[..|times| - 1]), times[|times| - 1];
      if |Recent(before, now, policy.ttlMs)| < policy.limit then before + [now] else before
  }

  ghost predicate Sorted(times: seq<int>) {
    forall j, k | 0 <= j < k < |times| :: times[j] <= times[k]
  }

  /** The requests that reach the guard, and the times of those with one identifier. */
  datatype Call = Call(id: string, now: int)

  function TimesFor(calls: seq<Call>, id: string): seq<int> {
    if calls == [] then []
    else
      var front, last := TimesFor(calls[..|calls| - 1], id), calls[|calls| - 1];
      if last.id == id then front + [last.now] else front
  }

  /** The map after all calls, each identifier with its own policy. */
  function After(policyOf: string -> Policy, calls: seq<Call>): map<string, seq<int>> {
    if calls == [] then map[]
    else
      var c := calls[|calls| - 1];
      Decide(After(policyOf, calls[..|calls| - 1]), c.id, policyOf(c.id), c.now).0
  }

  ghost predicate ClockRuns(calls: seq<Call>) {
    forall j, k | 0 <= j < k < |calls| :: calls[j].now <= calls[k].now
  }

  lemma {:induction false} RecentMembers(times: seq<int>, now: int, ttlMs: nat)
    ensures forall t | t in Recent(times, now, ttlMs) :: t in times && t > now - ttlMs
    ensures |Recent(times, now, ttlMs)| <= |times|
  {
    if times != [] {
      RecentMembers(times[..|times| - 1], now, ttlMs);
    }
  }

  /** Discarding what is old now changes nothing later. */
  lemma {:induction false} RecentTwice(times: seq<int>, earlier: int, now: int, ttlMs: nat)
    requires earlier <= now
    ensures Recent(Recent(times, earlier, ttlMs), now, ttlMs) == Recent(times, now, ttlMs)
  {
    if times != [] {
      var front, last := times[..|times| - 1], times[|times| - 1];
      RecentTwice(front, earlier, now, ttlMs);
      var kept := Recent(front, earlier, ttlMs);
      assert (kept + [last])[..|kept|] == kept;
    }
  }

  lemma RecentAppend(times: seq<int>, last: int, now: int, ttlMs: nat)
    ensures Recent(times + [last], now, ttlMs) == Recent(times, now, ttlMs) + (if last > now - ttlMs then [last] else [])
  {
  }

  /** The stored list agrees with the full history on everything that still counts at a later time. */
  lemma {:induction false} StoredAgrees(policyOf: string -> Policy, calls: seq<Call>, id: string, now: int)
    requires ClockRuns(calls) && forall k | 0 <= k < |calls| :: calls[k].now <= now
    ensures var ttl := policyOf(id).ttlMs;
      Recent(TimesOf(After(policyOf, calls), id), now, ttl)
      == Recent(Accepted(policyOf(id), TimesFor(calls, id)), now, ttl)
  {
    if calls != [] {
      var front, c := calls[..|calls| - 1], calls[|calls| - 1];
      var policy := policyOf(id);
      var stored, history := TimesOf(After(policyOf, front), id), Accepted(policy, TimesFor(front, id));
      StoredAgrees(policyOf, front, id, now);
      if c.id == id {
        StoredAgrees(policyOf, front, id, c.now);
        assert TimesFor(calls, id)[..|TimesFor(calls, id)| - 1] == TimesFor(front, id);
        if |Recent(stored, c.now, policy.ttlMs)| < policy.limit {
          RecentTwice(stored, c.now, now, policy.ttlMs);
          RecentAppend(Recent(stored, c.now, policy.ttlMs), c.now, now, policy.ttlMs);
          RecentAppend(history, c.now, now, policy.ttlMs);
        }
      }
    }
  }

  lemma ClockPrefix(calls: seq<Call>, call: Call)
    requires ClockRuns(calls + [call])
    ensures ClockRuns(calls) && forall k | 0 <= k < |calls| :: calls[k].now <= call.now
  {
    var all := calls + [call];
    assert all[|calls|] == call && forall k | 0 <= k < |calls| :: all[k] == calls[k];
  }

  /** With a clock that never runs backwards every decision is that of the limiter that forgets nothing. */
  lemma DecidesLikeFullHistory(policyOf: string -> Policy, calls: seq<Call>, call: Call)
    requires ClockRuns(calls + [call])
    ensures var history := Accepted(policyOf(call.id), TimesFor(calls, call.id));
      Decide(After(policyOf, calls), call.id, policyOf(call.id), call.now).1
      <==> Accepted(policyOf(call.id), TimesFor(calls + [call], call.id)) == history + [call.now]
  {
    assert (calls + [call])[..|calls|] == calls;
    ClockPrefix(calls, call);
    StoredAgrees(policyOf, calls, call.id, call.now);
    var times := TimesFor(calls + [call], call.id);
    assert times[..|times| - 1] == TimesFor(calls, call.id);
  }

  /** No more than the limit is ever stored for an identifier, whatever the clock does. */
  lemma {:induction false} StoredWithinLimit(policyOf: string -> Policy, calls: seq<Call>, id: string)
    ensures |TimesOf(After(policyOf, calls), id)| <= policyOf(id).limit
  {
    if calls != [] {
      StoredWithinLimit(policyOf, calls[..|calls| - 1], id);
    }
  }

  // ---------------------------------------------------------------- the window

  lemma SortedAppend(times: seq<int>, last: int)
    requires Sorted(times) && forall t | t in times :: t <= last
    ensures Sorted(times + [last])
  {
    forall j, k | 0 <= j < k < |times + [last]| ensures (times + [last])[j] <= (times + [last])[k] {
      assert times[j] in times;
    }
  }

  lemma {:induction false} AcceptedSorted(policy: Policy, times: seq<int>)
    requires Sorted(times)
    ensures Sorted(Accepted(policy, times))
    ensures forall t | t in Accepted(policy, times) :: t in times
  {
    if times != [] {
      var front := times[..|times| - 1];
      AcceptedSorted(policy, front);
      forall t | t in Accepted(policy, front) ensures t <= times[|times| - 1] {
        assert t in front;
      }
      SortedAppend(Accepted(policy, front), times[|times| - 1]);
    }
  }

  /** In a sorted list the last `n` times are recent as soon as the earliest of them is. */
  lemma {:induction false} TailRecent(times: seq<int>, n: nat, now: int, ttlMs: nat)
    requires Sorted(times) && n <= |times|
    requires n > 0 ==> times[|times| - n] > now - ttlMs
    ensures |Recent(times, now, ttlMs)| >= n
  {
    if n > 0 {
      TailRecent(times[..|times| - 1], n - 1, now, ttlMs);
    }
  }

  /** Of any `limit + 1` accepted requests the last comes at least one window after the first. */
  lemma {:induction false} WindowHolds(policy: Policy, times: seq<int>, i: nat)
    requires Sorted(times)
    ensures var accepted := Accepted(policy, times);
      i + policy.limit < |accepted| ==> accepted[i + policy.limit] >= accepted[i] + policy.ttlMs
  {
    var accepted := Accepted(policy, times);
    if times != [] && i + policy.limit < |accepted| {
      var front := times[..|times| - 1];
      var before := Accepted(policy, front);
      AcceptedSorted(policy, front);
      if i + policy.limit < |before| {
        WindowHolds(policy, front, i);
      } else if policy.limit > 0 && accepted[i] > accepted[i + policy.limit] - policy.ttlMs {
        TailRecent(before, policy.limit, times[|times| - 1], policy.ttlMs);
      }
    }
  }

  lemma {:induction false} OldTail(times: seq<int>, n: nat, now: int, ttlMs: nat)
    requires Sorted(times) && n < |times| && times[|times| - 1 - n] <= now - ttlMs
    ensures |Recent(times, now, ttlMs)| <= n
  {
    if n > 0 {
      OldTail(times[..|times| - 1], n - 1, now, ttlMs);
    } else {
      NothingRecent(times, now, ttlMs);
    }
  }

  lemma {:induction false} NothingRecent(times: seq<int>, now: int, ttlMs: nat)
    requires Sorted(times) && times != [] && times[|times| - 1] <= now - ttlMs
    ensures Recent(times, now, ttlMs) == []
  {
    if |times| > 1 {
      NothingRecent(times[..|times| - 1], now, ttlMs);
    }
  }

  /** Fewer than `limit` times, or the `limit`-th last of them is a window old. */
  predicate HasRoom(policy: Policy, times: seq<int>, now: int)
    requires policy.limit > 0
  {
    |times| < policy.limit || times[|times| - policy.limit] <= now - policy.ttlMs
  }

  /** Of sorted times fewer than `limit` are recent exactly when there is room for one more. */
  lemma RecentSorted(policy: Policy, times: seq<int>, now: int)
    requires Sorted(times) && policy.limit > 0
    ensures |Recent(times, now, policy.ttlMs)| < policy.limit <==> HasRoom(policy, times, now)
  {
    RecentMembers(times, now, policy.ttlMs);
    if |times| >= policy.limit {
      if times[|times| - policy.limit] <= now - policy.ttlMs {
        OldTail(times, policy.limit - 1, now, policy.ttlMs);
      } else {
        TailRecent(times, policy.limit, now, policy.ttlMs);
      }
    }
  }

  lemma {:induction false} TimesForSorted(calls: seq<Call>, id: string)
    requires ClockRuns(calls)
    ensures Sorted(TimesFor(calls, id))
    ensures forall t | t in TimesFor(calls, id) :: exists k | 0 <= k < |calls| :: calls[k].now == t
  {
    if calls != [] {
      var front := calls[..|calls| - 1];
      TimesForSorted(front, id);
      assert forall k | 0 <= k < |front| :: front[k] == calls[k];
      SortedAppend(TimesFor(front, id), calls[|front|].now);
    }
  }

  /** The same for one identifier among any others that use the guard at the same time. */
  lemma WindowHoldsForIdentifier(policyOf: string -> Policy, calls: seq<Call>, id: string, i: nat)
    requires ClockRuns(calls)
    ensures var accepted, policy := Accepted(policyOf(id), TimesFor(calls, id)), policyOf(id);
      i + policy.limit < |accepted| ==> accepted[i + policy.limit] >= accepted[i] + policy.ttlMs
  {
    TimesForSorted(calls, id);
    WindowHolds(policyOf(id), TimesFor(calls, id), i);
  }

  // ---------------------------------------------------------------- what the guard lets pass

  /** The times at which the guard lets requests with an identifier pass. */
  function Passed(policyOf: string -> Policy, calls: seq<Call>, id: string): seq<int> {
    if calls == [] then []
    else
      var front, c := calls[..|calls| - 1], calls[|calls| - 1];
      var before := Passed(policyOf, front, id);
      if c.id == id && Decide(After(policyOf, front), id, policyOf(id), c.now).1 then before + [c.now] else before
  }

  lemma AcceptedNext(policyOf: string -> Policy, calls: seq<Call>, call: Call)
    requires ClockRuns(calls + [call])
    ensures var before, id := Accepted(policyOf(call.id), TimesFor(calls, call.id)), call.id;
      Accepted(policyOf(id), TimesFor(calls + [call], id)) ==
        if Decide(After(policyOf, calls), id, policyOf(id), call.now).1 then before + [call.now] else before
  {
    DecidesLikeFullHistory(policyOf, calls, call);
    assert (calls + [call])[..|calls|] == calls;
    var times := TimesFor(calls + [call], call.id);
    assert times[..|times| - 1] == TimesFor(calls, call.id);
  }

  lemma {:induction false} PassedAreAccepted(policyOf: string -> Policy, calls: seq<Call>, id: string)
    requires ClockRuns(calls)
    ensures Passed(policyOf, calls, id) == Accepted(policyOf(id), TimesFor(calls, id))
  {
    if calls != [] {
      var front, c := calls[..|calls| - 1], calls[|calls| - 1];
      PassedAreAccepted(policyOf, front, id);
      if c.id == id {
        assert calls == front + [c];
        AcceptedNext(policyOf, front, c);
      }
    }
  }

  /** Of any `limit + 1` requests the guard lets pass, the last comes at least one window after the first. */
  lemma PassedWithinWindow(policyOf: string -> Policy, calls: seq<Call>, id: string, i: nat)
    requires ClockRuns(calls)
    ensures var passed, policy := Passed(policyOf, calls, id), policyOf(id);
      i + policy.limit < |passed| ==> passed[i + policy.limit] >= passed[i] + policy.ttlMs
  {
    PassedAreAccepted(policyOf, calls, id);
    WindowHoldsForIdentifier(policyOf, calls, id, i);
  }

  lemma GuardDecides(policyOf: string -> Policy, calls: seq<Call>, call: Call)
    requires ClockRuns(calls + [call])
    ensures var policy := policyOf(call.id);
      Decide(After(policyOf, calls), call.id, policy, call.now).1
      <==> |Recent(Passed(policyOf, calls, call.id), call.now, policy.ttlMs)| < policy.limit
  {
    ClockPrefix(calls, call);
    PassedAreAccepted(policyOf, calls, call.id);
    StoredAgrees(policyOf, calls, call.id, call.now);
  }

  lemma PassedSorted(policyOf: string -> Policy, calls: seq<Call>, id: string)
    requires ClockRuns(calls)
    ensures Sorted(Passed(policyOf, calls, id))
  {
    PassedAreAccepted(policyOf, calls, id);
    TimesForSorted(calls, id);
    AcceptedSorted(policyOf(id), TimesFor(calls, id));
  }

  /** The guard lets a request pass exactly when there is room beside those it has let pass. */
  lemma GuardPassesExactly(policyOf: string -> Policy, calls: seq<Call>, call: Call)
    requires ClockRuns(calls + [call]) && policyOf(call.id).limit > 0
    ensures Decide(After(policyOf, calls), call.id, policyOf(call.id), call.now).1
      <==> HasRoom(policyOf(call.id), Passed(policyOf, calls, call.id), call.now)
  {
    GuardDecides(policyOf, calls, call);
    ClockPrefix(calls, call);
    PassedSorted(policyOf, calls, call.id);
    RecentSorted(policyOf(call.id), Passed(policyOf, calls, call.id), call.now);
  }
}

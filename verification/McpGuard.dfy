// The in-process guard of the MCP endpoint: a sliding-window limiter per client key
// and a counter of consecutive failures. Times are nanoseconds of a monotone clock.
module McpGuard {

  const WINDOW: int := 60_000_000_000
  const CALLS_PER_WINDOW: nat := 60
  const DESTRUCTIVE_PER_WINDOW: nat := 10
  const ANOMALY_FAILURES: nat := 5

  // ---- The whole history, which the guard itself does not keep ----

  // An accepted call: `checkedAt` is when the limits were read, `at` when it was recorded.
  datatype Call = Call(key: string, checkedAt: int, at: int, destructive: bool)

  datatype Outcome = Outcome(key: string, success: bool)

  ghost function TimesOf(h: seq<Call>, key: string, destructiveOnly: bool): seq<int> {
    if h == [] then []
    else
      var rest, c := TimesOf(h[..|h| - 1], key, destructiveOnly), h[|h| - 1];
      if c.key == key && (destructiveOnly ==> c.destructive) then rest + [c.at] else rest
  }

  // The times at or after the cutoff, in order.
  ghost function Since(ts: seq<int>, cutoff: int): (r: seq<int>)
    ensures |r| <= |ts|
    ensures forall t :: t in r ==> t in ts && t >= cutoff
  {
    if ts == [] then []
    else
      var rest, t := Since(ts[..|ts| - 1], cutoff), ts[|ts| - 1];
      if t >= cutoff then rest + [t] else rest
  }

  ghost function CountIn(ts: seq<int>, lo: int, hi: int): nat {
    if ts == [] then 0
    else CountIn(ts[..|ts| - 1], lo, hi) + if lo <= ts[|ts| - 1] <= hi then 1 else 0
  }

  ghost predicate Sorted(ts: seq<int>) {
    forall i, j :: 0 <= i < j < |ts| ==> ts[i] <= ts[j]
  }

  ghost predicate AllAtMost(ts: seq<int>, bound: int) {
    forall i :: 0 <= i < |ts| ==> ts[i] <= bound
  }

  // The limits, read off the full history.
  ghost predicate Allowed(h: seq<Call>, c: Call) {
    && |Since(TimesOf(h, c.key, false), c.checkedAt - WINDOW)| < CALLS_PER_WINDOW
    && (c.destructive ==>
          |Since(TimesOf(h, c.key, true), c.checkedAt - WINDOW)| < DESTRUCTIVE_PER_WINDOW)
  }

  // A history in which time moves forward and every call was within the limits.
  ghost predicate Admitted(h: seq<Call>) {
    h == [] ||
    (var p, c := h[..|h| - 1], h[|h| - 1];
     && Admitted(p)
     && (p != [] ==> p[|p| - 1].at <= c.checkedAt)
     && c.checkedAt <= c.at
     && Allowed(p, c))
  }

  ghost function OutcomesOf(o: seq<Outcome>, key: string): seq<bool> {
    if o == [] then []
    else
      var rest, x := OutcomesOf(o[..|o| - 1], key), o[|o| - 1];
      if x.key == key then rest + [x.success] else rest
  }

  ghost function TrailingFailures(s: seq<bool>): nat {
    if s == [] || s[|s| - 1] then 0 else 1 + TrailingFailures(s[..|s| - 1])
  }

  // ---- Facts about the history ----

  lemma {:induction false} SinceSince(ts: seq<int>, a: int, b: int)
    requires a <= b
    ensures Since(Since(ts, a), b) == Since(ts, b)
  {
    if ts != [] {
      var init := ts[..|ts| - 1];
      SinceSince(init, a, b);
      var r := Since(ts, a);
      if ts[|ts| - 1] >= a {
        assert r[..|r| - 1] == Since(init, a);
      }
    }
  }

  lemma SinceSnoc(ts: seq<int>, t: int, cutoff: int)
    ensures Since(ts + [t], cutoff) == Since(ts, cutoff) + if t >= cutoff then [t] else []
  {
    assert (ts + [t])[..|ts|] == ts;
  }

  lemma {:induction false} SinceAll(ts: seq<int>, cutoff: int)
    requires forall i :: 0 <= i < |ts| ==> ts[i] >= cutoff
    ensures Since(ts, cutoff) == ts
  {
    if ts != [] {
      SinceAll(ts[..|ts| - 1], cutoff);
      assert ts == ts[..|ts| - 1] + [ts[|ts| - 1]];
    }
  }

  // Popping an old front element does not change what is recent.
  lemma {:induction false} SincePop(ts: seq<int>, cutoff: int)
    requires ts != [] && ts[0] < cutoff
    ensures Since(ts[1..], cutoff) == Since(ts, cutoff)
  {
    if |ts| > 1 {
      SincePop(ts[..|ts| - 1], cutoff);
      assert ts[..|ts| - 1][1..] == ts[1..][..|ts| - 2];
    }
  }

  lemma TimesOfSnoc(h: seq<Call>, c: Call, key: string, destructiveOnly: bool)
    ensures TimesOf(h + [c], key, destructiveOnly) ==
            TimesOf(h, key, destructiveOnly)
            + if c.key == key && (destructiveOnly ==> c.destructive) then [c.at] else []
  {
    assert (h + [c])[..|h|] == h;
  }

  lemma OutcomesOfSnoc(o: seq<Outcome>, x: Outcome, key: string)
    ensures OutcomesOf(o + [x], key) == OutcomesOf(o, key) + if x.key == key then [x.success] else []
  {
    assert (o + [x])[..|o|] == o;
  }

  lemma {:induction false} CountAtMostSince(ts: seq<int>, lo: int, hi: int, cutoff: int)
    requires cutoff <= lo
    ensures CountIn(ts, lo, hi) <= |Since(ts, cutoff)|
  {
    if ts != [] {
      CountAtMostSince(ts[..|ts| - 1], lo, hi, cutoff);
    }
  }

  lemma OneMoreInWindow(ts: seq<int>, at: int, from: int, cutoff: int, limit: nat)
    requires CountIn(ts, from, from + WINDOW) <= limit
    requires |Since(ts, cutoff)| < limit && cutoff <= at - WINDOW
    ensures CountIn(ts + [at], from, from + WINDOW) <= limit
  {
    assert (ts + [at])[..|ts|] == ts;
    if from <= at <= from + WINDOW {
      CountAtMostSince(ts, from, from + WINDOW, cutoff);
    }
  }

  // No closed interval of one minute ever holds more accepted calls of a key than the
  // limit allows, although eviction only looks back from the present.
  lemma {:induction false} WindowBound(h: seq<Call>, key: string, destructiveOnly: bool, from: int)
    requires Admitted(h)
    ensures CountIn(TimesOf(h, key, destructiveOnly), from, from + WINDOW)
         <= if destructiveOnly then DESTRUCTIVE_PER_WINDOW else CALLS_PER_WINDOW
  {
    if h != [] {
      var p, c := h[..|h| - 1], h[|h| - 1];
      WindowBound(p, key, destructiveOnly, from);
      if c.key == key && (destructiveOnly ==> c.destructive) {
        OneMoreInWindow(TimesOf(p, key, destructiveOnly), c.at, from, c.checkedAt - WINDOW,
                        if destructiveOnly then DESTRUCTIVE_PER_WINDOW else CALLS_PER_WINDOW);
      }
    }
  }

  // Calls of other keys never change a decision.
  lemma OtherKeysIrrelevant(h: seq<Call>, other: Call, c: Call)
    requires other.key != c.key
    ensures Allowed(h + [other], c) <==> Allowed(h, c)
  {
    TimesOfSnoc(h, other, c.key, false);
    TimesOfSnoc(h, other, c.key, true);
  }

  // The trailing run: the last n outcomes failed, and the one before them did not.
  lemma {:induction false} TrailingFailuresIsTheRun(s: seq<bool>)
    ensures var n := TrailingFailures(s);
      && n <= |s|
      && (forall i :: |s| - n <= i < |s| ==> !s[i])
      && (n < |s| ==> s[|s| - n - 1])
  {
    if s != [] && !s[|s| - 1] {
      var init := s[..|s| - 1];
      TrailingFailuresIsTheRun(init);
      var n := TrailingFailures(s);
      forall i | |s| - n <= i < |s|
        ensures !s[i]
      {
        if i < |s| - 1 { assert !init[i]; }
      }
    }
  }

  // ---- The guard ----

  datatype KeyState = KeyState(callTimes: seq<int>, destructiveTimes: seq<int>, consecutiveFailures: nat)

  const EMPTY: KeyState := KeyState([], [], 0)

  datatype Verdict = Accepted | RateLimited | DestructiveLimited

  // The deque agrees with the full list on everything still inside the window.
  ghost predicate Follows(deque: seq<int>, full: seq<int>, clock: int) {
    Sorted(deque) && AllAtMost(deque, clock) && Since(deque, clock - WINDOW) == Since(full, clock - WINDOW)
  }

  lemma FollowsLater(deque: seq<int>, full: seq<int>, clock: int, later: int)
    requires Follows(deque, full, clock) && clock <= later
    ensures Follows(deque, full, later)
  {
    SinceSince(deque, clock - WINDOW, later - WINDOW);
    SinceSince(full, clock - WINDOW, later - WINDOW);
  }

  lemma FollowsNow(full: seq<int>, deque: seq<int>, now: int)
    requires Follows(deque, full, now)
    ensures Follows(Since(full, now - WINDOW), full, now)
    decreases |deque|
  {
    if deque != [] && deque[0] < now - WINDOW {
      SincePop(deque, now - WINDOW);
      FollowsNow(full, deque[1..], now);
    } else {
      SinceAll(deque, now - WINDOW);
    }
  }

  lemma FollowsCall(deque: seq<int>, h: seq<Call>, c: Call, key: string, destructiveOnly: bool)
    requires c.checkedAt <= c.at
    requires Follows(deque, TimesOf(h, key, destructiveOnly), c.checkedAt)
    ensures var mine := c.key == key && (destructiveOnly ==> c.destructive);
      Follows(if mine then deque + [c.at] else deque, TimesOf(h + [c], key, destructiveOnly), c.at)
  {
    var full := TimesOf(h, key, destructiveOnly);
    TimesOfSnoc(h, c, key, destructiveOnly);
    FollowsLater(deque, full, c.checkedAt, c.at);
    if c.key == key && (destructiveOnly ==> c.destructive) {
      FollowsPush(deque, full, c.at);
    } else {
      assert full + [] == full;
    }
  }

  lemma FollowsPush(deque: seq<int>, full: seq<int>, t: int)
    requires Follows(deque, full, t)
    ensures Follows(deque + [t], full + [t], t)
  {
    SortedPush(deque, t);
    SinceSnoc(deque, t, t - WINDOW);
    SinceSnoc(full, t, t - WINDOW);
  }

  lemma SortedPush(deque: seq<int>, t: int)
    requires Sorted(deque) && AllAtMost(deque, t)
    ensures Sorted(deque + [t]) && AllAtMost(deque + [t], t)
  {
  }

  ghost predicate Refines(s: KeyState, h: seq<Call>, o: seq<Outcome>, key: string, clock: int) {
    && Follows(s.callTimes, TimesOf(h, key, false), clock)
    && Follows(s.destructiveTimes, TimesOf(h, key, true), clock)
    && s.consecutiveFailures == TrailingFailures(OutcomesOf(o, key))
  }

  function Lookup(keys: map<string, KeyState>, key: string): KeyState {
    if key in keys then keys[key] else EMPTY
  }

  ghost predicate AllRefine(keys: map<string, KeyState>, h: seq<Call>, o: seq<Outcome>, clock: int) {
    forall key :: Refines(Lookup(keys, key), h, o, key, clock)
  }

  // What eviction leaves of a key.
  ghost function Evicted(s: KeyState, h: seq<Call>, key: string, now: int): KeyState {
    KeyState(Since(TimesOf(h, key, false), now - WINDOW),
             Since(TimesOf(h, key, true), now - WINDOW),
             s.consecutiveFailures)
  }

  lemma EvictRefines(keys: map<string, KeyState>, keys': map<string, KeyState>,
                     h: seq<Call>, o: seq<Outcome>, key: string, clock: int, now: int)
    requires AllRefine(keys, h, o, clock) && clock <= now
    requires Lookup(keys', key) == Evicted(Lookup(keys, key), h, key, now)
    requires forall k :: k != key ==> Lookup(keys', k) == Lookup(keys, k)
    ensures AllRefine(keys', h, o, now)
  {
    forall k
      ensures Refines(Lookup(keys', k), h, o, k, now)
    {
      var s := Lookup(keys, k);
      FollowsLater(s.callTimes, TimesOf(h, k, false), clock, now);
      FollowsLater(s.destructiveTimes, TimesOf(h, k, true), clock, now);
      if k == key {
        FollowsNow(TimesOf(h, k, false), s.callTimes, now);
        FollowsNow(TimesOf(h, k, true), s.destructiveTimes, now);
      }
    }
  }

  lemma UpdateOne(keys: map<string, KeyState>, key: string, s: KeyState)
    ensures keys[key := s] - {key} == keys - {key}
    ensures Lookup(keys[key := s], key) == s
  {
  }

  lemma TouchRefines(keys: map<string, KeyState>, h: seq<Call>, o: seq<Outcome>, key: string, clock: int)
    requires AllRefine(keys, h, o, clock)
    ensures AllRefine(keys[key := Lookup(keys, key)], h, o, clock)
  {
    var keys' := keys[key := Lookup(keys, key)];
    forall k
      ensures Refines(Lookup(keys', k), h, o, k, clock)
    {
      assert Refines(Lookup(keys, k), h, o, k, clock);
    }
  }

  function WithCall(s: KeyState, c: Call): KeyState {
    s.(callTimes := s.callTimes + [c.at],
       destructiveTimes := if c.destructive then s.destructiveTimes + [c.at] else s.destructiveTimes)
  }

  function WithOutcome(s: KeyState, success: bool): KeyState {
    s.(consecutiveFailures := if success then 0 else s.consecutiveFailures + 1)
  }

  lemma CallRefines(keys: map<string, KeyState>, h: seq<Call>, o: seq<Outcome>, c: Call)
    requires AllRefine(keys, h, o, c.checkedAt) && c.checkedAt <= c.at
    ensures AllRefine(keys[c.key := WithCall(Lookup(keys, c.key), c)], h + [c], o, c.at)
  {
    var keys' := keys[c.key := WithCall(Lookup(keys, c.key), c)];
    forall k
      ensures Refines(Lookup(keys', k), h + [c], o, k, c.at)
    {
      OneKeyCall(Lookup(keys, k), h, o, c, k);
    }
  }

  lemma OneKeyCall(s: KeyState, h: seq<Call>, o: seq<Outcome>, c: Call, key: string)
    requires Refines(s, h, o, key, c.checkedAt) && c.checkedAt <= c.at
    ensures Refines(if c.key == key then WithCall(s, c) else s, h + [c], o, key, c.at)
  {
    FollowsCall(s.callTimes, h, c, key, false);
    FollowsCall(s.destructiveTimes, h, c, key, true);
  }

  lemma OutcomeRefines(keys: map<string, KeyState>, h: seq<Call>, o: seq<Outcome>, clock: int, x: Outcome)
    requires AllRefine(keys, h, o, clock)
    ensures AllRefine(keys[x.key := WithOutcome(Lookup(keys, x.key), x.success)], h, o + [x], clock)
  {
    var keys' := keys[x.key := WithOutcome(Lookup(keys, x.key), x.success)];
    forall k
      ensures Refines(Lookup(keys', k), h, o + [x], k, clock)
    {
      OneKeyOutcome(Lookup(keys, k), h, o, clock, x, k);
    }
  }

  lemma OneKeyOutcome(s: KeyState, h: seq<Call>, o: seq<Outcome>, clock: int, x: Outcome, key: string)
    requires Refines(s, h, o, key, clock)
    ensures Refines(if x.key == key then WithOutcome(s, x.success) else s, h, o + [x], key, clock)
  {
    OutcomesOfSnoc(o, x, key);
    TrailingFailuresSnoc(OutcomesOf(o, key), x.success);
    if x.key == key {
      var s' := WithOutcome(s, x.success);
      assert s'.callTimes == s.callTimes && s'.destructiveTimes == s.destructiveTimes;
    }
  }

  lemma TrailingFailuresSnoc(s: seq<bool>, success: bool)
    ensures TrailingFailures(s + [success]) == if success then 0 else TrailingFailures(s) + 1
    ensures s + [] == s
  {
    assert (s + [success])[..|s|] == s;
  }

  // The eviction loop over one deque.
  method PopOld(deque: seq<int>, cutoff: int) returns (r: seq<int>)
    requires Sorted(deque)
    ensures r == Since(deque, cutoff)
  {
    r := deque;
    while r != [] && r[0] < cutoff
      invariant Sorted(r)
      invariant Since(r, cutoff) == Since(deque, cutoff)
    {
      SincePop(r, cutoff);
      r := r[1..];
    }
    SinceAll(r, cutoff);
  }

  class Guard {
    var keys: map<string, KeyState>

    ghost var history: seq<Call>
    ghost var outcomes: seq<Outcome>
    ghost var clock: int

    ghost predicate Valid()
      reads this
    {
      && Admitted(history)
      && (history != [] ==> history[|history| - 1].at <= clock)
      && AllRefine(keys, history, outcomes, clock)
    }

    constructor (now: int)
      ensures Valid() && keys == map[] && history == [] && outcomes == [] && clock == now
    {
      keys := map[];
      history, outcomes, clock := [], [], now;
    }

    // Drops what has left the window, and the key itself once nothing is left of it.
    method EvictOld(key: string, now: int)
      requires Valid() && clock <= now
      modifies this`keys, this`clock
      ensures Valid() && clock == now
      ensures Lookup(keys, key) == Evicted(old(Lookup(keys, key)), history, key, now)
      ensures key in old(keys) ==> (key in keys <==> Lookup(keys, key) != EMPTY)
      ensures key !in old(keys) ==> keys == old(keys)
      ensures keys - {key} == old(keys) - {key}
    {
      ghost var s0 := Lookup(keys, key);
      ghost var calls0, destructive0 := TimesOf(history, key, false), TimesOf(history, key, true);
      assert Refines(s0, history, outcomes, key, clock);
      FollowsLater(s0.callTimes, calls0, clock, now);
      FollowsLater(s0.destructiveTimes, destructive0, clock, now);
      if key in keys {
        var calls := PopOld(keys[key].callTimes, now - WINDOW);
        var destructive := PopOld(keys[key].destructiveTimes, now - WINDOW);
        var s := KeyState(calls, destructive, keys[key].consecutiveFailures);
        if calls == [] && destructive == [] && s.consecutiveFailures == 0 {
          keys := keys - {key};
        } else {
          keys := keys[key := s];
        }
      }
      EvictRefines(old(keys), keys, history, outcomes, key, clock, now);
      clock := now;
    }

    // The bucket of a key, created when it is missing.
    method State(key: string) returns (s: KeyState)
      requires Valid()
      modifies this`keys
      ensures Valid() && key in keys && s == keys[key] == old(Lookup(keys, key))
      ensures keys - {key} == old(keys) - {key}
    {
      s := Lookup(keys, key);
      UpdateOne(keys, key, s);
      TouchRefines(keys, history, outcomes, key, clock);
      keys := keys[key := s];
    }

    // The bucket of a key after eviction: exactly its recent calls.
    method Bucket(key: string, now: int) returns (s: KeyState)
      requires Valid() && clock <= now
      modifies this`keys, this`clock
      ensures Valid() && clock == now && key in keys && s == keys[key]
      ensures s.callTimes == Since(TimesOf(history, key, false), now - WINDOW)
      ensures s.destructiveTimes == Since(TimesOf(history, key, true), now - WINDOW)
      ensures keys - {key} == old(keys) - {key}
    {
      EvictOld(key, now);
      s := State(key);
    }

    // Checks both limits and, when they allow it, records the call.
    method CheckAndRecord(key: string, destructive: bool, checkedAt: int, now: int) returns (v: Verdict)
      requires Valid() && clock <= checkedAt <= now
      modifies this`keys, this`clock, this`history
      ensures Valid()
      ensures v.Accepted? <==> Allowed(old(history), Call(key, checkedAt, now, destructive))
      ensures v.RateLimited? <==>
                |Since(TimesOf(old(history), key, false), checkedAt - WINDOW)| >= CALLS_PER_WINDOW
      ensures history == if v.Accepted? then old(history) + [Call(key, checkedAt, now, destructive)]
                         else old(history)
      ensures keys - {key} == old(keys) - {key}
    {
      var s := Bucket(key, checkedAt);
      if |s.callTimes| >= CALLS_PER_WINDOW {
        return RateLimited;
      }
      if destructive && |s.destructiveTimes| >= DESTRUCTIVE_PER_WINDOW {
        return DestructiveLimited;
      }
      Push(key, s, Call(key, checkedAt, now, destructive));
      return Accepted;
    }

    method Push(key: string, s: KeyState, c: Call)
      requires Valid() && clock == c.checkedAt <= c.at
      requires key in keys && s == keys[key] && c.key == key && Allowed(history, c)
      modifies this`keys, this`clock, this`history
      ensures Valid() && history == old(history) + [c]
      ensures keys - {key} == old(keys) - {key}
    {
      var s' := s.(
        callTimes := s.callTimes + [c.at],
        destructiveTimes := if c.destructive then s.destructiveTimes + [c.at] else s.destructiveTimes);
      PushKeepsValid(keys, history, outcomes, c, s');
      keys := keys[key := s'];
      history, clock := history + [c], c.at;
    }

    // Counts a failure or, on success, starts over; true when the anomaly threshold is reached.
    method RecordOutcome(key: string, success: bool) returns (anomaly: bool)
      requires Valid()
      modifies this`keys, this`outcomes
      ensures Valid() && outcomes == old(outcomes) + [Outcome(key, success)]
      ensures anomaly <==> TrailingFailures(OutcomesOf(outcomes, key)) >= 5
      ensures keys - {key} == old(keys) - {key}
    {
      var s := State(key);
      var s' := s.(consecutiveFailures := if success then 0 else s.consecutiveFailures + 1);
      assert s' == WithOutcome(s, success);
      OutcomeRefines(keys, history, outcomes, clock, Outcome(key, success));
      UpdateOne(keys, key, s');
      keys := keys[key := s'];
      outcomes := outcomes + [Outcome(key, success)];
      anomaly := !success && s'.consecutiveFailures >= ANOMALY_FAILURES;
      RefinesFailures(keys, history, outcomes, key, clock);
    }
  }

  lemma PushKeepsValid(keys: map<string, KeyState>, h: seq<Call>, o: seq<Outcome>, c: Call, s': KeyState)
    requires AllRefine(keys, h, o, c.checkedAt) && Admitted(h) && Allowed(h, c)
    requires (h != [] ==> h[|h| - 1].at <= c.checkedAt) && c.checkedAt <= c.at
    requires s' == WithCall(Lookup(keys, c.key), c)
    ensures AllRefine(keys[c.key := s'], h + [c], o, c.at) && Admitted(h + [c])
    ensures keys[c.key := s'] - {c.key} == keys - {c.key}
  {
    CallRefines(keys, h, o, c);
    AdmittedSnoc(h, c);
  }

  lemma AdmittedSnoc(h: seq<Call>, c: Call)
    requires Admitted(h) && (h != [] ==> h[|h| - 1].at <= c.checkedAt) && c.checkedAt <= c.at
    requires Allowed(h, c)
    ensures Admitted(h + [c])
  {
    assert (h + [c])[..|h|] == h;
  }

  lemma RefinesFailures(keys: map<string, KeyState>, h: seq<Call>, o: seq<Outcome>, key: string, clock: int)
    requires AllRefine(keys, h, o, clock)
    ensures Lookup(keys, key).consecutiveFailures == TrailingFailures(OutcomesOf(o, key))
  {
    assert Refines(Lookup(keys, key), h, o, key, clock);
  }

  // The bounds, for every state a guard can be in.
  lemma GuardIsBounded(guard: Guard, key: string, from: int)
    requires guard.Valid()
    ensures CountIn(TimesOf(guard.history, key, false), from, from + WINDOW) <= CALLS_PER_WINDOW
    ensures CountIn(TimesOf(guard.history, key, true), from, from + WINDOW) <= DESTRUCTIVE_PER_WINDOW
    ensures Lookup(guard.keys, key).consecutiveFailures == TrailingFailures(OutcomesOf(guard.outcomes, key))
  {
    WindowBound(guard.history, key, false, from);
    WindowBound(guard.history, key, true, from);
    assert Refines(Lookup(guard.keys, key), guard.history, guard.outcomes, key, guard.clock);
  }
}

// Many filter processes checking the rate-limit rules at once: for every rule each reads
// the clock, and some time later it gets a connection and does its upsert.
module RateRuns {
  import opened Text
  import opened RateRules

  // A rule that counted the message within its limit, and the time read for it.
  datatype Charge = Charge(rule: Rule, at: nat)

  // Timed: it has read the clock for its next rule and has yet to do the upsert.
  datatype Status = Running | Timed(at: nat) | Done(verdict: Verdict)

  // One process: its rules, how many of them it has been through, and its charges.
  datatype Filter = Filter(rules: seq<Rule>, message: Message, passed: nat, charges: seq<Charge>, status: Status)

  datatype World = World(counts: Counts, clock: nat, filters: seq<Filter>)

  datatype Step = Tick(seconds: nat) | Arrive(rules: seq<Rule>, message: Message) | Advance(i: nat)

  // The next action of one process: going past a rule that does not apply, reading the
  // clock for one that does, or its upsert, which is atomic.
  function NextAction(f: Filter, counts: Counts, now: nat): (Filter, Counts) {
    if f.status.Done? then (f, counts)
    else if f.passed >= |f.rules| then (f.(status := Done(Admitted)), counts)
    else
      var r := f.rules[f.passed];
      if f.status.Running? then
        (if Applies(r, f.message) then f.(status := Timed(now)) else f.(passed := f.passed + 1), counts)
      else if r.windowSeconds == 0 then (f.(status := Done(DivisionByZero)), counts)
      else
        var at := f.status.at;
        var k := KeyOf(r, f.message, at);
        var count := CountOf(counts, k) + 1;
        if count > r.maxMessages then (f.(status := Done(Exceeded(r.name))), counts[k := count])
        else (f.(passed := f.passed + 1, charges := f.charges + [Charge(r, at)], status := Running), counts[k := count])
  }

  function Apply(w: World, s: Step): World {
    match s
    case Tick(seconds) => w.(clock := w.clock + seconds)
    case Arrive(rules, message) => w.(filters := w.filters + [Filter(rules, message, 0, [], Running)])
    case Advance(i) =>
      if i < |w.filters| then
        var (f, counts) := NextAction(w.filters[i], w.counts, w.clock);
        World(counts, w.clock, w.filters[i := f])
      else w
  }

  function Run(w: World, steps: seq<Step>): World
    decreases |steps|
  {
    if steps == [] then w else Run(Apply(w, steps[0]), steps[1..])
  }

  // ---- Counting charges ----

  // Which charges count: those of a rule and sender, at some times.
  datatype Query = Query(rule: Rule, sender: string)

  function ChargesIn(charges: seq<Charge>, r: Rule, times: nat -> bool): nat {
    if charges == [] then 0
    else
      var c := charges[|charges| - 1];
      ChargesIn(charges[..|charges| - 1], r, times) + if c.rule == r && times(c.at) then 1 else 0
  }

  function FilterCharges(f: Filter, q: Query, times: nat -> bool): nat {
    if Lower(f.message.sender) == q.sender then ChargesIn(f.charges, q.rule, times) else 0
  }

  function Total(filters: seq<Filter>, q: Query, times: nat -> bool): nat {
    if filters == [] then 0
    else Total(filters[..|filters| - 1], q, times) + FilterCharges(filters[|filters| - 1], q, times)
  }

  lemma {:induction false} TotalUpdate(filters: seq<Filter>, i: nat, f: Filter, q: Query, times: nat -> bool)
    requires i < |filters|
    ensures Total(filters[i := f], q, times)
         == Total(filters, q, times) - FilterCharges(filters[i], q, times) + FilterCharges(f, q, times)
  {
    var n := |filters| - 1;
    if i < n {
      TotalUpdate(filters[..n], i, f, q, times);
      assert filters[i := f][..n] == filters[..n][i := f];
    } else {
      assert filters[i := f][..n] == filters[..n];
    }
  }

  lemma TotalSnoc(filters: seq<Filter>, f: Filter, q: Query, times: nat -> bool)
    ensures Total(filters + [f], q, times) == Total(filters, q, times) + FilterCharges(f, q, times)
  {
    assert (filters + [f])[..|filters|] == filters;
  }

  lemma ChargesSnoc(charges: seq<Charge>, c: Charge, r: Rule, times: nat -> bool)
    ensures ChargesIn(charges + [c], r, times)
         == ChargesIn(charges, r, times) + if c.rule == r && times(c.at) then 1 else 0
  {
    assert (charges + [c])[..|charges|] == charges;
  }

  // ---- The invariant ----

  function InFixed(window: int, start: int): nat -> bool
    requires window != 0
  {
    (t: nat) => WindowStart(t, window) == start
  }

  function InSpan(from: nat, to: nat): nat -> bool {
    t => from <= t < to
  }

  ghost predicate Covered(w: World, q: Query, start: int)
    requires q.rule.windowSeconds > 0
  {
    var n := Total(w.filters, q, InFixed(q.rule.windowSeconds, start));
    n <= CountOf(w.counts, Key(q.rule.id, q.sender, start)) && (n == 0 || n <= q.rule.maxMessages)
  }

  ghost predicate Inv(w: World) {
    forall q: Query, start: int :: q.rule.windowSeconds > 0 ==> Covered(w, q, start)
  }

  // What one action does to the charges of its process, and to the counter of any key.
  lemma ActionCharges(f: Filter, counts: Counts, now: nat, q: Query, times: nat -> bool)
    ensures var (f', counts') := NextAction(f, counts, now);
      && f'.message == f.message && f'.rules == f.rules
      && (f'.charges != f.charges ==> f.status.Timed?)
      && FilterCharges(f', q, times) == FilterCharges(f, q, times)
           + if f'.charges != f.charges && f.rules[f.passed] == q.rule && times(f.status.at)
                && Lower(f.message.sender) == q.sender then 1 else 0
  {
    var f' := NextAction(f, counts, now).0;
    if f'.charges != f.charges {
      NewCharge(f, counts, now);
      ChargesSnoc(f.charges, Charge(f.rules[f.passed], f.status.at), q.rule, times);
    }
  }

  lemma NewCharge(f: Filter, counts: Counts, now: nat)
    requires NextAction(f, counts, now).0.charges != f.charges
    ensures f.passed < |f.rules| && f.status.Timed?
    ensures NextAction(f, counts, now).0.charges == f.charges + [Charge(f.rules[f.passed], f.status.at)]
  {
  }

  lemma ActionCounts(f: Filter, counts: Counts, now: nat)
    ensures var (f', counts') := NextAction(f, counts, now);
      && (forall k :: CountOf(counts', k) >= CountOf(counts, k))
      && (f'.charges != f.charges ==>
            f.passed < |f.rules| && f.status.Timed? && var r := f.rules[f.passed];
            r.windowSeconds != 0 && var k := KeyOf(r, f.message, f.status.at);
            CountOf(counts', k) == CountOf(counts, k) + 1 <= r.maxMessages)
  {
  }

  lemma AdvanceKeepsCovered(w: World, i: nat, q: Query, start: int)
    requires i < |w.filters| && q.rule.windowSeconds > 0 && Covered(w, q, start)
    ensures Covered(Apply(w, Advance(i)), q, start)
  {
    var f, times := w.filters[i], InFixed(q.rule.windowSeconds, start);
    var f' := NextAction(f, w.counts, w.clock).0;
    ActionCharges(f, w.counts, w.clock, q, times);
    ActionCounts(f, w.counts, w.clock);
    TotalUpdate(w.filters, i, f', q, times);
  }

  lemma StepKeepsInv(w: World, s: Step)
    requires Inv(w)
    ensures Inv(Apply(w, s))
  {
    forall q: Query, start: int | q.rule.windowSeconds > 0
      ensures Covered(Apply(w, s), q, start)
    {
      assert Covered(w, q, start);
      match s
      case Tick(_) =>
      case Arrive(rules, message) =>
        TotalSnoc(w.filters, Filter(rules, message, 0, [], Running), q, InFixed(q.rule.windowSeconds, start));
      case Advance(i) => if i < |w.filters| { AdvanceKeepsCovered(w, i, q, start); }
    }
  }

  lemma {:induction false} RunKeepsInv(w: World, steps: seq<Step>)
    requires Inv(w)
    ensures Inv(Run(w, steps))
    decreases |steps|
  {
    if steps != [] {
      StepKeepsInv(w, steps[0]);
      RunKeepsInv(Apply(w, steps[0]), steps[1..]);
    }
  }

  // ---- Intervals ----

  lemma {:induction false} ChargesSplit(charges: seq<Charge>, r: Rule, from: nat)
    requires r.windowSeconds > 0
    ensures var w, s := r.windowSeconds, WindowStart(from, r.windowSeconds);
      ChargesIn(charges, r, InSpan(from, from + w))
      <= ChargesIn(charges, r, InFixed(w, s)) + ChargesIn(charges, r, InFixed(w, s + w))
  {
    if charges != [] {
      ChargesSplit(charges[..|charges| - 1], r, from);
      var t := charges[|charges| - 1].at;
      if from <= t < from + r.windowSeconds { TwoWindows(t, from, r.windowSeconds); }
    }
  }

  lemma {:induction false} TotalSplits(filters: seq<Filter>, q: Query, from: nat)
    requires q.rule.windowSeconds > 0
    ensures var w, s := q.rule.windowSeconds, WindowStart(from, q.rule.windowSeconds);
      Total(filters, q, InSpan(from, from + w))
      <= Total(filters, q, InFixed(w, s)) + Total(filters, q, InFixed(w, s + w))
  {
    if filters != [] {
      TotalSplits(filters[..|filters| - 1], q, from);
      ChargesSplit(filters[|filters| - 1].charges, q.rule, from);
    }
  }

  // ---- What an admitted message was charged for ----

  ghost predicate HasCharge(charges: seq<Charge>, r: Rule) {
    exists j :: 0 <= j < |charges| && charges[j].rule == r
  }

  // Every applicable rule a process has been through charged it.
  ghost predicate Accounted(f: Filter) {
    && f.passed <= |f.rules|
    && (f.status == Done(Admitted) ==> f.passed == |f.rules|)
    && forall j :: 0 <= j < f.passed && Applies(f.rules[j], f.message) ==> HasCharge(f.charges, f.rules[j])
  }

  lemma ActionAccounted(f: Filter, counts: Counts, now: nat)
    requires Accounted(f)
    ensures Accounted(NextAction(f, counts, now).0)
  {
    var f' := NextAction(f, counts, now).0;
    forall j | 0 <= j < f'.passed && Applies(f'.rules[j], f'.message)
      ensures HasCharge(f'.charges, f'.rules[j])
    {
      if j < f.passed {
        var k :| 0 <= k < |f.charges| && f.charges[k].rule == f.rules[j];
        assert f'.charges[k].rule == f.rules[j];
      } else {
        assert f'.charges[|f.charges|].rule == f.rules[j];
      }
    }
  }

  ghost predicate AllAccounted(w: World) {
    forall i :: 0 <= i < |w.filters| ==> Accounted(w.filters[i])
  }

  lemma {:induction false} RunKeepsAccounts(w: World, steps: seq<Step>)
    requires AllAccounted(w)
    ensures AllAccounted(Run(w, steps))
    decreases |steps|
  {
    if steps != [] {
      var s := steps[0];
      if s.Advance? && s.i < |w.filters| { ActionAccounted(w.filters[s.i], w.counts, w.clock); }
      RunKeepsAccounts(Apply(w, s), steps[1..]);
    }
  }

  // ---- Admitted messages ----

  // Whether a process was admitted, and counted by the rule at one of these times.
  predicate AdmittedBy(f: Filter, q: Query, times: nat -> bool) {
    f.status == Done(Admitted) && FilterCharges(f, q, times) > 0
  }

  function AdmittedCount(filters: seq<Filter>, q: Query, times: nat -> bool): nat {
    if filters == [] then 0
    else AdmittedCount(filters[..|filters| - 1], q, times)
         + if AdmittedBy(filters[|filters| - 1], q, times) then 1 else 0
  }

  lemma {:induction false} AdmittedAreCharged(filters: seq<Filter>, q: Query, times: nat -> bool)
    ensures AdmittedCount(filters, q, times) <= Total(filters, q, times)
  {
    if filters != [] { AdmittedAreCharged(filters[..|filters| - 1], q, times); }
  }

  lemma {:induction false} ChargedSometime(charges: seq<Charge>, r: Rule)
    requires HasCharge(charges, r)
    ensures ChargesIn(charges, r, t => true) > 0
  {
    var j :| 0 <= j < |charges| && charges[j].rule == r;
    if j < |charges| - 1 {
      assert charges[..|charges| - 1][j].rule == r;
      ChargedSometime(charges[..|charges| - 1], r);
    }
  }

  ghost predicate Fresh(w: World) {
    w.counts == map[] && w.filters == []
  }

  // In every interleaving from empty counters: for every rule with a positive window and
  // every sender, at most max_messages admitted messages are counted in a fixed window
  // and at most twice as many in any half-open interval of that length.
  lemma LimitInEveryInterleaving(w: World, steps: seq<Step>, q: Query, from: nat)
    requires Fresh(w) && q.rule.windowSeconds > 0
    ensures var filters, window, max := Run(w, steps).filters, q.rule.windowSeconds, q.rule.maxMessages;
      && (forall start :: AdmittedCount(filters, q, InFixed(window, start)) <= if max > 0 then max else 0)
      && AdmittedCount(filters, q, InSpan(from, from + window)) <= if max > 0 then 2 * max else 0
  {
    var end, window := Run(w, steps), q.rule.windowSeconds;
    RunKeepsInv(w, steps);
    forall start
      ensures AdmittedCount(end.filters, q, InFixed(window, start)) <= Total(end.filters, q, InFixed(window, start))
      ensures Covered(end, q, start)
    {
      AdmittedAreCharged(end.filters, q, InFixed(window, start));
    }
    AdmittedAreCharged(end.filters, q, InSpan(from, from + window));
    TotalSplits(end.filters, q, from);
    assert Covered(end, q, WindowStart(from, window));
    assert Covered(end, q, WindowStart(from, window) + window);
  }

  // And every admitted message is among those counted, by each rule that applies to it.
  lemma EveryAdmittedIsCounted(w: World, steps: seq<Step>, i: nat, r: Rule)
    requires Fresh(w) && i < |Run(w, steps).filters|
    requires var f := Run(w, steps).filters[i]; f.status == Done(Admitted) && r in f.rules && Applies(r, f.message)
    ensures var f := Run(w, steps).filters[i];
      AdmittedBy(f, Query(r, Lower(f.message.sender)), t => true)
  {
    RunKeepsAccounts(w, steps);
    var f := Run(w, steps).filters[i];
    assert Accounted(f);
    var j :| 0 <= j < |f.rules| && f.rules[j] == r;
    assert HasCharge(f.charges, f.rules[j]);
    ChargedSometime(f.charges, r);
  }

  // ---- One process alone ----

  // All the remaining actions of one process with no other in between.
  function Finish(f: Filter, counts: Counts, now: nat): (Filter, Counts)
    decreases |f.rules| - f.passed, if f.status.Running? then 2 else if f.status.Timed? then 1 else 0
  {
    if f.status.Done? then (f, counts)
    else
      var (f', counts') := NextAction(f, counts, now);
      if f.passed >= |f.rules| then (f', counts') else Finish(f', counts', now)
  }

  // One rule of a process left alone: nothing, or the clock and the upsert.
  lemma FinishRule(f: Filter, counts: Counts, now: nat)
    requires f.status.Running? && f.passed < |f.rules|
    ensures var r := f.rules[f.passed];
      Finish(f, counts, now)
      == if !Applies(r, f.message) then Finish(f.(passed := f.passed + 1), counts, now)
         else if r.windowSeconds == 0 then (f.(status := Done(DivisionByZero)), counts)
         else
           var k := KeyOf(r, f.message, now);
           var count := CountOf(counts, k) + 1;
           if count > r.maxMessages then (f.(status := Done(Exceeded(r.name))), counts[k := count])
           else Finish(f.(passed := f.passed + 1, charges := f.charges + [Charge(r, now)]), counts[k := count], now)
  {
    if Applies(f.rules[f.passed], f.message) {
      var (f1, _) := NextAction(f, counts, now);
      assert Finish(f, counts, now) == Finish(f1, counts, now);
    }
  }

  // Left alone within one second, a process decides and counts as the check does.
  lemma {:induction false} AloneIsCheck(f: Filter, counts: Counts, now: nat)
    requires f.status.Running? && f.passed <= |f.rules|
    ensures var (f', counts') := Finish(f, counts, now);
      f'.status.Done? && (f'.status.verdict, counts') == Check(f.rules[f.passed..], counts, f.message, now)
    decreases |f.rules| - f.passed
  {
    if f.passed < |f.rules| {
      var r, rest := f.rules[f.passed], f.rules[f.passed..];
      assert rest[0] == r && rest[1..] == f.rules[f.passed + 1..];
      FinishRule(f, counts, now);
      if !Applies(r, f.message) {
        AloneIsCheck(f.(passed := f.passed + 1), counts, now);
      } else if r.windowSeconds != 0 {
        var k := KeyOf(r, f.message, now);
        var f' := f.(passed := f.passed + 1, charges := f.charges + [Charge(r, now)]);
        AloneIsCheck(f', counts[k := CountOf(counts, k) + 1], now);
      }
    }
  }
}

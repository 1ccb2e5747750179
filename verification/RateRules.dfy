// Rate-limit rules of the content filter: condition matching and the per-sender
// counters kept in fixed windows.
module RateRules {
  import opened Text

  datatype Condition = Condition(field: string, operator: string, value: string)

  datatype Rule = Rule(id: int, name: string, matchMode: string, conditions: seq<Condition>,
                       maxMessages: int, windowSeconds: int, enabled: bool)

  datatype Message = Message(sender: string, recipient: string, subject: string, size: nat)

  // ---- Decimal numbers ----

  const USIZE_MAX: nat := 0xFFFF_FFFF_FFFF_FFFF

  function Digits(n: nat): (s: string)
    ensures s != [] && forall i :: 0 <= i < |s| ==> '0' <= s[i] <= '9'
  {
    if n < 10 then [('0' as int + n) as char] else Digits(n / 10) + [('0' as int + n % 10) as char]
  }

  function ParseDigits(s: string): Option<nat> {
    if s == [] then None
    else
      var c := s[|s| - 1];
      if !('0' <= c <= '9') then None
      else
        var d := c as int - '0' as int;
        if |s| == 1 then Some(d)
        else
          match ParseDigits(s[..|s| - 1])
          case None => None
          case Some(n) => Some(10 * n + d)
  }

  // Rust `parse::<usize>().unwrap_or(0)`: an optional plus sign, then digits in range.
  function ParseOrZero(s: string): nat {
    var digits := if s != [] && s[0] == '+' then s[1..] else s;
    match ParseDigits(digits)
    case None => 0
    case Some(n) => if n <= USIZE_MAX then n else 0
  }

  lemma {:induction false} ParseDigitsOfDigits(n: nat)
    ensures ParseDigits(Digits(n)) == Some(n)
  {
    if n >= 10 {
      ParseDigitsOfDigits(n / 10);
      var s := Digits(n);
      assert s[..|s| - 1] == Digits(n / 10);
    }
  }

  // ---- Matching ----

  function FieldValue(field: string, m: Message): Option<string> {
    match field
    case "sender" => Some(Lower(m.sender))
    case "recipient" => Some(Lower(m.recipient))
    case "subject" => Some(Lower(m.subject))
    case "size" => Some(Digits(m.size))
    case _ => None
  }

  predicate EvaluateCondition(c: Condition, m: Message) {
    match FieldValue(c.field, m)
    case None => false
    case Some(field) => Compare(c.operator, field, Lower(c.value))
  }

  predicate Compare(operator: string, field: string, value: string) {
    match operator
    case "contains" => Contains(field, value)
    case "not_contains" => !Contains(field, value)
    case "equals" => field == value
    case "not_equals" => field != value
    case "starts_with" => StartsWith(field, value)
    case "ends_with" => EndsWith(field, value)
    case "larger_than" => ParseOrZero(field) > ParseOrZero(value)
    case "smaller_than" => ParseOrZero(field) < ParseOrZero(value)
    case _ => false
  }

  predicate EvaluateRule(r: Rule, m: Message) {
    && r.conditions != []
    && if r.matchMode == "OR" then exists c :: c in r.conditions && EvaluateCondition(c, m)
       else forall c :: c in r.conditions ==> EvaluateCondition(c, m)
  }

  // The size comparisons compare the numbers, through the decimal text in between.
  lemma SizeComparesNumbers(m: Message, threshold: nat)
    requires m.size <= USIZE_MAX && threshold <= USIZE_MAX
    ensures EvaluateCondition(Condition("size", "larger_than", Digits(threshold)), m) <==> m.size > threshold
    ensures EvaluateCondition(Condition("size", "smaller_than", Digits(threshold)), m) <==> m.size < threshold
  {
    NumberReadsBack(m.size);
    NumberReadsBack(threshold);
  }

  lemma NumberReadsBack(n: nat)
    requires n <= USIZE_MAX
    ensures ParseOrZero(Digits(n)) == n && Lower(Digits(n)) == Digits(n)
  {
    ParseDigitsOfDigits(n);
    assert Digits(n)[0] != '+';
  }

  // The rule is applied to a message whose sender is already in lower case.
  predicate Applies(r: Rule, m: Message) {
    r.enabled && EvaluateRule(r, m.(sender := Lower(m.sender)))
  }

  // ---- The counters ----

  datatype Key = Key(rule: int, sender: string, windowStart: int)

  type Counts = map<Key, int>

  // Rust integer division truncates toward zero; times are not negative.
  function WindowStart(now: nat, window: int): int
    requires window != 0
  {
    if window > 0 then (now / window) * window else (-(now / -window)) * window
  }

  function KeyOf(r: Rule, m: Message, now: nat): Key
    requires r.windowSeconds != 0
  {
    Key(r.id, Lower(m.sender), WindowStart(now, r.windowSeconds))
  }

  function CountOf(counts: Counts, k: Key): int {
    if k in counts then counts[k] else 0
  }

  // Division by a zero window panics.
  datatype Verdict = Admitted | Exceeded(rule: string) | DivisionByZero

  function Check(rules: seq<Rule>, counts: Counts, m: Message, now: nat): (Verdict, Counts) {
    if rules == [] then (Admitted, counts)
    else
      var r := rules[0];
      if !Applies(r, m) then Check(rules[1..], counts, m, now)
      else if r.windowSeconds == 0 then (DivisionByZero, counts)
      else
        var k := KeyOf(r, m, now);
        var count := CountOf(counts, k) + 1;
        if count > r.maxMessages then (Exceeded(r.name), counts[k := count])
        else Check(rules[1..], counts[k := count], m, now)
  }

  // ---- What one check does to the counters ----

  lemma {:induction false} CheckOnlyAdds(rules: seq<Rule>, counts: Counts, m: Message, now: nat, k: Key)
    ensures CountOf(Check(rules, counts, m, now).1, k) >= CountOf(counts, k)
  {
    if rules != [] {
      var r := rules[0];
      if !Applies(r, m) {
        CheckOnlyAdds(rules[1..], counts, m, now, k);
      } else if r.windowSeconds != 0 {
        var k0 := KeyOf(r, m, now);
        CheckOnlyAdds(rules[1..], counts[k0 := CountOf(counts, k0) + 1], m, now, k);
      }
    }
  }

  // An admitted message was charged by every rule that applies to it, within its limit.
  lemma {:induction false} AdmittedIsCharged(rules: seq<Rule>, counts: Counts, m: Message, now: nat, r: Rule)
    requires Check(rules, counts, m, now).0.Admitted?
    requires r in rules && Applies(r, m)
    ensures r.windowSeconds != 0
    ensures CountOf(counts, KeyOf(r, m, now)) + 1 <= r.maxMessages
    ensures CountOf(Check(rules, counts, m, now).1, KeyOf(r, m, now)) >= CountOf(counts, KeyOf(r, m, now)) + 1
  {
    var first := rules[0];
    var rest := rules[1..];
    if !Applies(first, m) {
      AdmittedIsCharged(rest, counts, m, now, r);
    } else {
      var k0 := KeyOf(first, m, now);
      var counts' := counts[k0 := CountOf(counts, k0) + 1];
      if first == r {
        CheckOnlyAdds(rest, counts', m, now, k0);
      } else {
        AdmittedIsCharged(rest, counts', m, now, r);
      }
    }
  }

  // ---- Whole histories ----

  // One call of the check, with the rules listed at that moment.
  datatype Entry = Entry(rules: seq<Rule>, message: Message, now: nat, admitted: bool)

  ghost predicate CountsFor(e: Entry, r: Rule, sender: string) {
    e.admitted && r in e.rules && Applies(r, e.message) && Lower(e.message.sender) == sender
  }

  // The admitted messages of a sender under a rule, in one of its fixed windows.
  ghost function InWindow(log: seq<Entry>, r: Rule, sender: string, start: int): nat
    requires r.windowSeconds > 0
  {
    if log == [] then 0
    else
      var e := log[|log| - 1];
      InWindow(log[..|log| - 1], r, sender, start)
      + if CountsFor(e, r, sender) && WindowStart(e.now, r.windowSeconds) == start then 1 else 0
  }

  // The same, in the half-open interval from `from` to `to`.
  ghost function InInterval(log: seq<Entry>, r: Rule, sender: string, from: nat, to: nat): nat {
    if log == [] then 0
    else
      var e := log[|log| - 1];
      InInterval(log[..|log| - 1], r, sender, from, to)
      + if CountsFor(e, r, sender) && from <= e.now < to then 1 else 0
  }

  // The counters and the bound after a history.
  ghost predicate Bounded(log: seq<Entry>, counts: Counts, r: Rule, sender: string, start: int)
    requires r.windowSeconds > 0
  {
    && InWindow(log, r, sender, start) <= CountOf(counts, Key(r.id, sender, start))
    && (InWindow(log, r, sender, start) == 0 || InWindow(log, r, sender, start) <= r.maxMessages)
  }

  ghost predicate AllBounded(log: seq<Entry>, counts: Counts) {
    forall r: Rule, sender: string, start: int ::
      r.windowSeconds > 0 ==> Bounded(log, counts, r, sender, start)
  }

  lemma CheckKeepsBounded(log: seq<Entry>, counts: Counts, rules: seq<Rule>, m: Message, now: nat,
                          r: Rule, sender: string, start: int)
    requires r.windowSeconds > 0 && Bounded(log, counts, r, sender, start)
    ensures var (v, counts') := Check(rules, counts, m, now);
      Bounded(log + [Entry(rules, m, now, v.Admitted?)], counts', r, sender, start)
  {
    var (v, counts') := Check(rules, counts, m, now);
    var e := Entry(rules, m, now, v.Admitted?);
    assert (log + [e])[..|log|] == log;
    CheckOnlyAdds(rules, counts, m, now, Key(r.id, sender, start));
    if CountsFor(e, r, sender) && WindowStart(now, r.windowSeconds) == start {
      AdmittedIsCharged(rules, counts, m, now, r);
      assert KeyOf(r, m, now) == Key(r.id, sender, start);
    }
  }

  class Limiter {
    var counts: Counts
    ghost var log: seq<Entry>

    ghost predicate Valid()
      reads this
    {
      AllBounded(log, counts)
    }

    constructor ()
      ensures Valid() && counts == map[] && log == []
    {
      counts, log := map[], [];
    }

    // One message: every applicable rule in turn counts it, until one is exceeded.
    method CheckRateLimit(rules: seq<Rule>, m: Message, now: nat) returns (v: Verdict)
      requires Valid()
      modifies this
      ensures Valid()
      ensures (v, counts) == Check(rules, old(counts), m, now)
      ensures log == old(log) + [Entry(rules, m, now, v.Admitted?)]
    {
      ghost var after := Check(rules, counts, m, now);
      forall r: Rule, sender: string, start: int | r.windowSeconds > 0
        ensures Bounded(log + [Entry(rules, m, now, after.0.Admitted?)], after.1, r, sender, start)
      {
        assert Bounded(log, counts, r, sender, start);
        CheckKeepsBounded(log, counts, rules, m, now, r, sender, start);
      }
      log := log + [Entry(rules, m, now, after.0.Admitted?)];
      v := Run(rules, m, now);
    }

    method Run(rules: seq<Rule>, m: Message, now: nat) returns (v: Verdict)
      modifies this`counts
      ensures (v, counts) == Check(rules, old(counts), m, now)
    {
      for i := 0 to |rules|
        invariant Check(rules[i..], counts, m, now) == Check(rules, old(counts), m, now)
      {
        var r := rules[i];
        assert rules[i..][0] == r && rules[i..][1..] == rules[i + 1..];
        if !Applies(r, m) {
          continue;
        }
        if r.windowSeconds == 0 {
          return DivisionByZero;
        }
        var k := KeyOf(r, m, now);
        var count := CountOf(counts, k) + 1;
        counts := counts[k := count];
        if count > r.maxMessages {
          return Exceeded(r.name);
        }
      }
      v := Admitted;
    }
  }

  // ---- From fixed windows to any interval ----

  lemma WindowOf(t: nat, w: nat, q: nat)
    requires w > 0 && q * w <= t < q * w + w
    ensures WindowStart(t, w) == q * w
  {
    DivIs(t, w, q);
  }

  lemma DivIs(t: nat, w: nat, q: nat)
    requires w > 0 && q * w <= t < q * w + w
    ensures t / w == q
  {
    var d := t / w;
    assert t == d * w + t % w;
    MulMono(d + 1, q, w);
    MulMono(q + 1, d, w);
  }

  lemma MulMono(a: nat, b: nat, w: nat)
    ensures a <= b ==> a * w <= b * w
  {
  }

  // An interval of one window length meets at most two fixed windows.
  lemma TwoWindows(t: nat, from: nat, w: nat)
    requires w > 0 && from <= t < from + w
    ensures WindowStart(t, w) == WindowStart(from, w) || WindowStart(t, w) == WindowStart(from, w) + w
  {
    var q := from / w;
    assert from == q * w + from % w;
    if t < q * w + w {
      WindowOf(t, w, q);
    } else {
      assert (q + 1) * w == q * w + w;
      WindowOf(t, w, q + 1);
    }
  }

  lemma {:induction false} IntervalSplits(log: seq<Entry>, r: Rule, sender: string, from: nat)
    requires r.windowSeconds > 0
    ensures var w, s := r.windowSeconds, WindowStart(from, r.windowSeconds);
      InInterval(log, r, sender, from, from + w)
      <= InWindow(log, r, sender, s) + InWindow(log, r, sender, s + w)
  {
    if log != [] {
      IntervalSplits(log[..|log| - 1], r, sender, from);
      var e := log[|log| - 1];
      if from <= e.now < from + r.windowSeconds {
        TwoWindows(e.now, from, r.windowSeconds);
      }
    }
  }

  // Per fixed window at most the limit, in any interval of that length at most twice.
  lemma LimitPerWindowAndInterval(log: seq<Entry>, counts: Counts, r: Rule, sender: string, from: nat)
    requires AllBounded(log, counts) && r.windowSeconds > 0
    ensures forall start :: InWindow(log, r, sender, start) <= if r.maxMessages > 0 then r.maxMessages else 0
    ensures InInterval(log, r, sender, from, from + r.windowSeconds)
         <= if r.maxMessages > 0 then 2 * r.maxMessages else 0
  {
    forall start
      ensures InWindow(log, r, sender, start) <= if r.maxMessages > 0 then r.maxMessages else 0
    {
      assert Bounded(log, counts, r, sender, start);
    }
    IntervalSplits(log, r, sender, from);
  }
}

// Which messages a rate-limit rule counts, said of the fields of rule and message, and
// what the check makes of that.
module RateMatching {
  import opened Text
  import opened TextFacts
  import opened RateRules

  // ---- Conditions ----

  // The text a condition looks at.
  function FieldText(field: string, m: Message): Option<string> {
    if field == "sender" then Some(m.sender)
    else if field == "recipient" then Some(m.recipient)
    else if field == "subject" then Some(m.subject)
    else if field == "size" then Some(Digits(m.size))
    else None
  }

  ghost predicate Begins(text: string, value: string) {
    |value| <= |text| && SameText(text[..|value|], value)
  }

  ghost predicate Ends(text: string, value: string) {
    |value| <= |text| && SameText(text[|text| - |value|..], value)
  }

  // What each operator asks of the text.
  ghost predicate Asks(operator: string, text: string, value: string) {
    || (operator == "contains" && Occurs(text, value))
    || (operator == "not_contains" && !Occurs(text, value))
    || (operator == "equals" && SameText(text, value))
    || (operator == "not_equals" && !SameText(text, value))
    || (operator == "starts_with" && Begins(text, value))
    || (operator == "ends_with" && Ends(text, value))
    || (operator == "larger_than" && ParseOrZero(Lower(text)) > ParseOrZero(Lower(value)))
    || (operator == "smaller_than" && ParseOrZero(Lower(text)) < ParseOrZero(Lower(value)))
  }

  ghost predicate Meets(c: Condition, m: Message) {
    FieldText(c.field, m).Some? && Asks(c.operator, FieldText(c.field, m).value, c.value)
  }

  lemma BeginsIff(text: string, value: string)
    ensures StartsWith(Lower(text), Lower(value)) <==> Begins(text, value)
  {
    if |value| <= |text| {
      SameTextIff(text[..|value|], value);
      assert Lower(text)[..|value|] == Lower(text[..|value|]);
    }
  }

  lemma EndsIff(text: string, value: string)
    ensures EndsWith(Lower(text), Lower(value)) <==> Ends(text, value)
  {
    if |value| <= |text| {
      SameTextIff(text[|text| - |value|..], value);
      assert Lower(text)[|text| - |value|..] == Lower(text[|text| - |value|..]);
    }
  }

  lemma DigitsStay(n: nat)
    ensures Lower(Digits(n)) == Digits(n)
  {
  }

  lemma FieldValueIs(field: string, m: Message)
    ensures FieldText(field, m).Some? <==> FieldValue(field, m).Some?
    ensures FieldText(field, m).Some? ==> FieldValue(field, m) == Some(Lower(FieldText(field, m).value))
  {
    DigitsStay(m.size);
  }

  lemma CompareIff(operator: string, text: string, value: string)
    ensures Compare(operator, Lower(text), Lower(value)) <==> Asks(operator, text, value)
  {
    CompareChooses(operator, Lower(text), Lower(value));
    OccursIff(text, value);
    BeginsIff(text, value);
    EndsIff(text, value);
    SameTextIff(text, value);
  }

  lemma CompareChooses(operator: string, field: string, value: string)
    ensures Compare(operator, field, value) <==>
      || (operator == "contains" && Contains(field, value))
      || (operator == "not_contains" && !Contains(field, value))
      || (operator == "equals" && field == value)
      || (operator == "not_equals" && field != value)
      || (operator == "starts_with" && StartsWith(field, value))
      || (operator == "ends_with" && EndsWith(field, value))
      || (operator == "larger_than" && ParseOrZero(field) > ParseOrZero(value))
      || (operator == "smaller_than" && ParseOrZero(field) < ParseOrZero(value))
  {
  }

  lemma ConditionIff(c: Condition, m: Message)
    ensures EvaluateCondition(c, m) <==> Meets(c, m)
  {
    FieldValueIs(c.field, m);
    if FieldText(c.field, m).Some? {
      CompareIff(c.operator, FieldText(c.field, m).value, c.value);
    }
  }

  // The case of the sender makes no difference.
  lemma SenderCase(c: Condition, m: Message)
    ensures Meets(c, m.(sender := Lower(m.sender))) <==> Meets(c, m)
  {
    if c.field == "sender" {
      LowerTwice(m.sender);
      ConditionIff(c, m);
      ConditionIff(c, m.(sender := Lower(m.sender)));
    } else {
      assert FieldText(c.field, m.(sender := Lower(m.sender))) == FieldText(c.field, m);
    }
  }

  lemma LowerTwice(s: string)
    ensures Lower(Lower(s)) == Lower(s)
  {
  }

  // ---- Rules ----

  // A rule in force whose conditions, at least one, are met: one of them in mode OR, and
  // all of them in any other mode.
  ghost predicate Matches(r: Rule, m: Message) {
    && r.enabled && |r.conditions| > 0
    && (r.matchMode == "OR" ==> exists i :: 0 <= i < |r.conditions| && Meets(r.conditions[i], m))
    && (r.matchMode != "OR" ==> forall i :: 0 <= i < |r.conditions| ==> Meets(r.conditions[i], m))
  }

  lemma AppliesIff(r: Rule, m: Message)
    ensures Applies(r, m) <==> Matches(r, m)
  {
    var lowered := m.(sender := Lower(m.sender));
    forall i | 0 <= i < |r.conditions|
      ensures EvaluateCondition(r.conditions[i], lowered) <==> Meets(r.conditions[i], m)
    {
      ConditionIff(r.conditions[i], lowered);
      SenderCase(r.conditions[i], m);
    }
  }

  // ---- The check ----

  lemma {:induction false} SkippedAnywhere(a: seq<Rule>, r: Rule, b: seq<Rule>, counts: Counts, m: Message, now: nat)
    requires !Applies(r, m)
    ensures Check(a + [r] + b, counts, m, now) == Check(a + b, counts, m, now)
    decreases |a|
  {
    if a == [] {
      assert a + [r] + b == [r] + b && ([r] + b)[1..] == b && a + b == b;
    } else {
      var x, rest := a[0], a[1..];
      assert a + [r] + b == [x] + (rest + [r] + b) && a + b == [x] + (rest + b);
      SkippedAnywhere(rest, r, b, counts, m, now);
      if Applies(x, m) && x.windowSeconds != 0 {
        var k := KeyOf(x, m, now);
        SkippedAnywhere(rest, r, b, counts[k := CountOf(counts, k) + 1], m, now);
      }
      CheckFirst(x, rest + [r] + b, counts, m, now);
      CheckFirst(x, rest + b, counts, m, now);
    }
  }

  lemma CheckFirst(x: Rule, rest: seq<Rule>, counts: Counts, m: Message, now: nat)
    ensures Check([x] + rest, counts, m, now)
         == if !Applies(x, m) then Check(rest, counts, m, now)
            else if x.windowSeconds == 0 then (DivisionByZero, counts)
            else
              var k := KeyOf(x, m, now);
              var count := CountOf(counts, k) + 1;
              if count > x.maxMessages then (Exceeded(x.name), counts[k := count])
              else Check(rest, counts[k := count], m, now)
  {
    assert ([x] + rest)[1..] == rest;
  }

  // A rule that does not match a message neither counts nor refuses it, wherever it stands
  // among the others.
  lemma UnmatchedIsIdle(a: seq<Rule>, r: Rule, b: seq<Rule>, counts: Counts, m: Message, now: nat)
    requires !Matches(r, m)
    ensures Check(a + [r] + b, counts, m, now) == Check(a + b, counts, m, now)
  {
    AppliesIff(r, m);
    SkippedAnywhere(a, r, b, counts, m, now);
  }

  // One condition that is not met is enough to spare the message where all are asked for.
  lemma AndNeedsAll(a: seq<Rule>, r: Rule, b: seq<Rule>, counts: Counts, m: Message, now: nat, i: nat)
    requires r.matchMode != "OR" && i < |r.conditions| && !Meets(r.conditions[i], m)
    ensures Check(a + [r] + b, counts, m, now) == Check(a + b, counts, m, now)
  {
    UnmatchedIsIdle(a, r, b, counts, m, now);
  }

  // The window a point in time lies in, counted from the beginning of time; its length is
  // taken without its sign.
  function Window(now: nat, seconds: int): int
    requires seconds != 0
  {
    var length := if seconds > 0 then seconds else -seconds;
    now - now % length
  }

  lemma WindowIs(now: nat, seconds: int)
    requires seconds != 0
    ensures WindowStart(now, seconds) == Window(now, seconds)
  {
    var length := if seconds > 0 then seconds else -seconds;
    var q := now / length;
    assert now == q * length + now % length;
    assert (-q) * (-length) == q * length;
  }

  // A rule that matches counts the message once for its sender and window, and refuses it
  // exactly when that is more than the limit.
  lemma MatchedCounts(r: Rule, rest: seq<Rule>, counts: Counts, m: Message, now: nat)
    requires Matches(r, m) && r.windowSeconds != 0
    ensures var k := Key(r.id, Lower(m.sender), Window(now, r.windowSeconds));
      var count := (if k in counts then counts[k] else 0) + 1;
      Check([r] + rest, counts, m, now)
      == if count > r.maxMessages then (Exceeded(r.name), counts[k := count])
         else Check(rest, counts[k := count], m, now)
  {
    AppliesIff(r, m);
    WindowIs(now, r.windowSeconds);
    CheckFirst(r, rest, counts, m, now);
  }

  // A window of no length ends the check before anything is counted.
  lemma NoWindow(r: Rule, rest: seq<Rule>, counts: Counts, m: Message, now: nat)
    requires Matches(r, m) && r.windowSeconds == 0
    ensures Check([r] + rest, counts, m, now) == (DivisionByZero, counts)
  {
    AppliesIff(r, m);
    CheckFirst(r, rest, counts, m, now);
  }

  // One condition that is met is enough to count the message where one is asked for.
  lemma OrNeedsOne(r: Rule, counts: Counts, m: Message, now: nat, i: nat)
    requires r.enabled && r.matchMode == "OR" && i < |r.conditions| && Meets(r.conditions[i], m)
    requires r.windowSeconds > 0
    ensures var k := Key(r.id, Lower(m.sender), Window(now, r.windowSeconds));
      var counts' := Check([r], counts, m, now).1;
      k in counts' && counts'[k] == (if k in counts then counts[k] else 0) + 1
  {
    MatchedCounts(r, [], counts, m, now);
    assert [r] + [] == [r];
  }

  // ---- Below every limit ----

  // The rules are numbered without repetition, and each that matches has room.
  ghost predicate HasRoom(rules: seq<Rule>, counts: Counts, m: Message, now: nat) {
    && (forall i, j :: 0 <= i < j < |rules| ==> rules[i].id != rules[j].id)
    && forall i :: 0 <= i < |rules| && Matches(rules[i], m) ==>
         && rules[i].windowSeconds > 0
         && var k := Key(rules[i].id, Lower(m.sender), Window(now, rules[i].windowSeconds));
            (if k in counts then counts[k] else 0) < rules[i].maxMessages
  }

  lemma RoomStays(r: Rule, rest: seq<Rule>, counts: Counts, m: Message, now: nat, counts': Counts)
    requires HasRoom([r] + rest, counts, m, now)
    requires forall k: Key :: k.rule != r.id ==> (k in counts <==> k in counts') && (k in counts ==> counts[k] == counts'[k])
    ensures HasRoom(rest, counts', m, now)
  {
    var rules := [r] + rest;
    forall i | 0 <= i < |rest|
      ensures rest[i] == rules[i + 1] && rest[i].id != rules[0].id
    {
    }
  }

  // A message for which every matching rule has room is admitted.
  lemma {:induction false} BelowLimitsIsAdmitted(rules: seq<Rule>, counts: Counts, m: Message, now: nat)
    requires HasRoom(rules, counts, m, now)
    ensures Check(rules, counts, m, now).0 == Admitted
    decreases |rules|, 0
  {
    if rules != [] {
      var r, rest := rules[0], rules[1..];
      assert rules == [r] + rest;
      if Matches(r, m) {
        MatchedWithRoom(r, rest, counts, m, now);
      } else {
        UnmatchedIsIdle([], r, rest, counts, m, now);
        assert [] + [r] + rest == rules && [] + rest == rest;
        RoomStays(r, rest, counts, m, now, counts);
        BelowLimitsIsAdmitted(rest, counts, m, now);
      }
    }
  }

  lemma {:induction false} MatchedWithRoom(r: Rule, rest: seq<Rule>, counts: Counts, m: Message, now: nat)
    requires HasRoom([r] + rest, counts, m, now) && Matches(r, m)
    ensures Check([r] + rest, counts, m, now).0 == Admitted
    decreases |rest|, 1
  {
    assert ([r] + rest)[0] == r;
    var k := Key(r.id, Lower(m.sender), Window(now, r.windowSeconds));
    var counts' := counts[k := (if k in counts then counts[k] else 0) + 1];
    MatchedCounts(r, rest, counts, m, now);
    RoomStays(r, rest, counts, m, now, counts');
    BelowLimitsIsAdmitted(rest, counts', m, now);
  }

  // ---- Numbers in text ----

  // A number is read with or without a plus sign, unless it is too large.
  lemma NumberIsRead(n: nat)
    ensures ParseOrZero(Digits(n)) == if n < 0x1_0000_0000_0000_0000 then n else 0
    ensures ParseOrZero("+" + Digits(n)) == ParseOrZero(Digits(n))
  {
    ParseDigitsOfDigits(n);
    var d := Digits(n);
    assert d[0] != '+';
    assert ("+" + d)[1..] == d;
  }

  lemma {:induction false} NoDigits(s: string, i: nat)
    requires i < |s| && !(48 <= s[i] as int <= 57)
    ensures ParseDigits(s).None?
  {
    if i < |s| - 1 { NoDigits(s[..|s| - 1], i); }
  }

  // Any other text counts as zero.
  lemma OtherTextIsZero(s: string, i: nat)
    requires i < |s| && !(48 <= s[i] as int <= 57) && (i == 0 ==> s[0] != '+')
    ensures ParseOrZero(s) == 0
  {
    if s[0] == '+' {
      NoDigits(s[1..], i - 1);
    } else {
      NoDigits(s, i);
    }
  }

  lemma NoTextIsZero()
    ensures ParseOrZero("") == 0 && ParseOrZero("+") == 0
  {
    assert "+"[1..] == "";
  }
}

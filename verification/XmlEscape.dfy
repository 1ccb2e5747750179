// XML escaping: the chain of five replacements, the one-pass loop, and unescaping.
module XmlEscape {
  import opened Text

  // `str::replace` of a one-character pattern.
  function ReplaceChar(s: string, c: char, with: string): string {
    if s == [] then [] else (if s[0] == c then with else [s[0]]) + ReplaceChar(s[1..], c, with)
  }

  function EscapeChain(s: string): string {
    ReplaceChar(ReplaceChar(ReplaceChar(ReplaceChar(ReplaceChar(s,
      '&', "&amp;"), '<', "&lt;"), '>', "&gt;"), '\"', "&quot;"), '\'', "&apos;")
  }

  function EscapeChar(c: char): string {
    match c
    case '&' => "&amp;"
    case '<' => "&lt;"
    case '>' => "&gt;"
    case '\"' => "&quot;"
    case '\'' => "&apos;"
    case _ => [c]
  }

  function Escape(s: string): string {
    if s == [] then [] else EscapeChar(s[0]) + Escape(s[1..])
  }

  lemma EscapeSnoc(s: string, c: char)
    ensures Escape(s + [c]) == Escape(s) + EscapeChar(c)
  {
    if s == [] {
      assert s + [c] == [c];
    } else {
      assert (s + [c])[1..] == s[1..] + [c];
      EscapeSnoc(s[1..], c);
    }
  }

  // The single-pass form of the autoconfig endpoint.
  method EscapeLoop(s: string) returns (out: string)
    ensures out == Escape(s)
  {
    out := "";
    for i := 0 to |s|
      invariant out == Escape(s[..i])
    {
      EscapeSnoc(s[..i], s[i]);
      assert s[..i + 1] == s[..i] + [s[i]];
      match s[i]
      case '&' => out := out + "&amp;";
      case '<' => out := out + "&lt;";
      case '>' => out := out + "&gt;";
      case '\"' => out := out + "&quot;";
      case '\'' => out := out + "&apos;";
      case _ => out := out + [s[i]];
    }
    assert s[..|s|] == s;
  }

  lemma {:induction false} ReplaceCharAppend(a: string, b: string, c: char, with: string)
    ensures ReplaceChar(a + b, c, with) == ReplaceChar(a, c, with) + ReplaceChar(b, c, with)
  {
    if a == [] {
      assert a + b == b;
    } else {
      assert (a + b)[1..] == a[1..] + b;
      ReplaceCharAppend(a[1..], b, c, with);
    }
  }

  lemma {:induction false} ReplaceAbsent(s: string, c: char, with: string)
    requires c !in s
    ensures ReplaceChar(s, c, with) == s
  {
    if s != [] {
      assert s == [s[0]] + s[1..];
      ReplaceAbsent(s[1..], c, with);
    }
  }

  lemma {:induction false} ChainAppend(a: string, b: string)
    ensures EscapeChain(a + b) == EscapeChain(a) + EscapeChain(b)
  {
    var a1, b1 := ReplaceChar(a, '&', "&amp;"), ReplaceChar(b, '&', "&amp;");
    var a2, b2 := ReplaceChar(a1, '<', "&lt;"), ReplaceChar(b1, '<', "&lt;");
    var a3, b3 := ReplaceChar(a2, '>', "&gt;"), ReplaceChar(b2, '>', "&gt;");
    var a4, b4 := ReplaceChar(a3, '\"', "&quot;"), ReplaceChar(b3, '\"', "&quot;");
    ReplaceCharAppend(a, b, '&', "&amp;");
    ReplaceCharAppend(a1, b1, '<', "&lt;");
    ReplaceCharAppend(a2, b2, '>', "&gt;");
    ReplaceCharAppend(a3, b3, '\"', "&quot;");
    ReplaceCharAppend(a4, b4, '\'', "&apos;");
  }

  lemma ReplaceOne(c: char, d: char, with: string)
    ensures ReplaceChar([c], d, with) == if c == d then with else [c]
  {
    assert [c][1..] == [];
  }

  // On one character the later replacements leave what an earlier one wrote alone.
  lemma ChainOne(c: char)
    ensures EscapeChain([c]) == EscapeChar(c)
  {
    ReplaceOne(c, '&', "&amp;");
    var s1 := ReplaceChar([c], '&', "&amp;");
    assert s1 == if c == '&' then EscapeChar(c) else [c];
    Step(c, s1, '<', "&lt;");
    var s2 := ReplaceChar(s1, '<', "&lt;");
    Step(c, s2, '>', "&gt;");
    var s3 := ReplaceChar(s2, '>', "&gt;");
    Step(c, s3, '\"', "&quot;");
    var s4 := ReplaceChar(s3, '\"', "&quot;");
    Step(c, s4, '\'', "&apos;");
  }

  lemma EntityText(c: char, d: char)
    requires EscapeChar(c) != [c] && d in "<>\"\'"
    ensures d !in EscapeChar(c)
  {
  }

  lemma Step(c: char, s: string, d: char, with: string)
    requires d in "<>\"\'" && with == EscapeChar(d)
    requires s == EscapeChar(c) || s == [c]
    requires c == d ==> s == [c]
    ensures ReplaceChar(s, d, with) == if c == d then EscapeChar(c) else s
  {
    if s == [c] {
      ReplaceOne(c, d, with);
    } else {
      EntityText(c, d);
      ReplaceAbsent(s, d, with);
    }
  }

  // Five passes over the whole string, in that order, are one pass over its characters.
  lemma {:induction false} ChainIsOnePass(s: string)
    ensures EscapeChain(s) == Escape(s)
  {
    if s != [] {
      assert s == [s[0]] + s[1..];
      ChainAppend([s[0]], s[1..]);
      ChainOne(s[0]);
      ChainIsOnePass(s[1..]);
    }
  }

  // ---- What the output looks like ----

  const ENTITIES: seq<string> := ["&amp;", "&lt;", "&gt;", "&quot;", "&apos;"]

  // Some predefined entity of section 4.6 of XML 1.0 starts at i.
  ghost predicate EntityAt(s: string, i: nat) {
    exists e :: e in ENTITIES && MatchAt(s, i, e)
  }

  ghost predicate OnlyEntities(s: string) {
    forall i: nat :: i < |s| && s[i] == '&' ==> EntityAt(s, i)
  }

  lemma HeadSafe(c: char)
    ensures forall d :: d in EscapeChar(c) ==> d !in "<>\"\'"
    ensures OnlyEntities(EscapeChar(c))
  {
    var e := EscapeChar(c);
    if e != [c] {
      assert e in ENTITIES && e[..|e|] == e && MatchAt(e, 0, e);
    }
  }

  lemma OnlyEntitiesAppend(a: string, b: string)
    requires OnlyEntities(a) && OnlyEntities(b)
    ensures OnlyEntities(a + b)
  {
    var s := a + b;
    forall i: nat | i < |s| && s[i] == '&'
      ensures EntityAt(s, i)
    {
      if i < |a| {
        var e :| e in ENTITIES && MatchAt(a, i, e);
        assert s[i..i + |e|] == a[i..i + |e|];
      } else {
        assert EntityAt(b, i - |a|);
        var e :| e in ENTITIES && MatchAt(b, i - |a|, e);
        assert s[i..i + |e|] == b[i - |a|..i - |a| + |e|];
      }
    }
  }

  lemma {:induction false} EscapedIsSafe(s: string)
    ensures forall c :: c in Escape(s) ==> c !in "<>\"\'"
    ensures OnlyEntities(Escape(s))
  {
    if s != [] {
      HeadSafe(s[0]);
      EscapedIsSafe(s[1..]);
      OnlyEntitiesAppend(EscapeChar(s[0]), Escape(s[1..]));
    }
  }

  // Reads the five predefined entities back; any other text stands for itself.
  function Unescape(s: string): string
    decreases |s|
  {
    if s == [] then []
    else if StartsWith(s, "&amp;") then "&" + Unescape(s[5..])
    else if StartsWith(s, "&lt;") then "<" + Unescape(s[4..])
    else if StartsWith(s, "&gt;") then ">" + Unescape(s[4..])
    else if StartsWith(s, "&quot;") then "\"" + Unescape(s[6..])
    else if StartsWith(s, "&apos;") then "\'" + Unescape(s[6..])
    else [s[0]] + Unescape(s[1..])
  }

  lemma NotPrefix(s: string, e: string, i: nat)
    requires i < |s| && i < |e| && s[i] != e[i]
    ensures !StartsWith(s, e)
  {
    if |e| <= |s| { assert s[..|e|][i] != e[i]; }
  }

  lemma UnescapeOne(c: char, tail: string)
    ensures Unescape(EscapeChar(c) + tail) == [c] + Unescape(tail)
  {
    var e := EscapeChar(c);
    var s := e + tail;
    assert s[..|e|] == e && s[|e|..] == tail;
    if e == [c] {
      forall f | f in ENTITIES
        ensures !StartsWith(s, f)
      {
        NotPrefix(s, f, 0);
      }
      assert "&amp;" in ENTITIES && "&lt;" in ENTITIES && "&gt;" in ENTITIES;
      assert "&quot;" in ENTITIES && "&apos;" in ENTITIES;
    } else {
      assert s[1] == e[1] && s[2] == e[2];
      if c != '&' {
        if c == '\'' { NotPrefix(s, "&amp;", 2); } else { NotPrefix(s, "&amp;", 1); }
      }
      if c != '<' { NotPrefix(s, "&lt;", 1); }
      if c != '>' { NotPrefix(s, "&gt;", 1); }
      if c != '\"' { NotPrefix(s, "&quot;", 1); }
    }
  }

  lemma {:induction false} UnescapeEscape(s: string)
    ensures Unescape(Escape(s)) == s
  {
    if s != [] {
      UnescapeOne(s[0], Escape(s[1..]));
      UnescapeEscape(s[1..]);
      assert [s[0]] + s[1..] == s;
    }
  }

  // ---- When escaping changes nothing ----

  predicate NoSpecials(s: string) {
    forall c :: c in s ==> c !in "&<>\"\'"
  }

  lemma {:induction false} EscapeFixedIff(s: string)
    ensures |Escape(s)| >= |s|
    ensures Escape(s) == s <==> NoSpecials(s)
  {
    if s != [] {
      EscapeFixedIff(s[1..]);
      assert s == [s[0]] + s[1..];
      if s[0] in "&<>\"\'" {
        assert |Escape(s)| > |s|;
      } else {
        assert Escape(s)[1..] == Escape(s[1..]);
      }
    }
  }

  lemma {:induction false} EscapeAppend(a: string, b: string)
    ensures Escape(a + b) == Escape(a) + Escape(b)
  {
    if a == [] {
      assert a + b == b;
    } else {
      assert (a + b)[1..] == a[1..] + b;
      EscapeAppend(a[1..], b);
    }
  }
}

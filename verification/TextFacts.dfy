// What the string operations mean, said of characters and positions.
module TextFacts {
  import opened Text

  // ---- Parts of a text ----

  lemma ContainsIff(s: string, pat: string)
    ensures Contains(s, pat) <==> exists a, b :: s == a + pat + b
  {
    if Contains(s, pat) {
      var i := Find(s, pat).value;
      assert s == s[..i] + pat + s[i + |pat|..];
    }
    if exists a, b :: s == a + pat + b {
      var a, b :| s == a + pat + b;
      assert s[|a|..|a| + |pat|] == pat;
      assert MatchAt(s, |a|, pat);
    }
  }

  lemma StartsWithIff(s: string, prefix: string)
    ensures StartsWith(s, prefix) <==> exists b :: s == prefix + b
  {
    if StartsWith(s, prefix) {
      assert s == prefix + s[|prefix|..];
    }
  }

  lemma EndsWithIff(s: string, suffix: string)
    ensures EndsWith(s, suffix) <==> exists a :: s == a + suffix
  {
    if EndsWith(s, suffix) {
      assert s == s[..|s| - |suffix|] + suffix;
    }
  }

  // ---- Letters ----

  // The i-th letter, A being the one with code 65 and a the one with code 97.
  lemma LettersChange(i: nat)
    requires i < 26
    ensures var capital, small := (65 + i) as char, (97 + i) as char;
      && LowerChar(capital) == small == LowerChar(small)
      && UpperChar(small) == capital == UpperChar(capital)
  {
  }

  lemma OthersStay(c: char)
    requires !(65 <= c as int < 91) && !(97 <= c as int < 123)
    ensures LowerChar(c) == c == UpperChar(c)
  {
  }

  // The same letter in either case, or the same character.
  predicate SameChar(c: char, d: char) {
    || c == d
    || ('a' <= c <= 'z' && 'A' <= d <= 'Z' && c as int == d as int + 32)
    || ('a' <= d <= 'z' && 'A' <= c <= 'Z' && d as int == c as int + 32)
  }

  ghost predicate SameText(a: string, b: string) {
    |a| == |b| && forall i :: 0 <= i < |a| ==> SameChar(a[i], b[i])
  }

  lemma SameTextIff(a: string, b: string)
    ensures SameText(a, b) <==> Lower(a) == Lower(b)
    ensures SameText(a, b) <==> Upper(a) == Upper(b)
  {
    forall i | 0 <= i < |a| && i < |b|
      ensures SameChar(a[i], b[i]) <==> Lower(a)[i] == Lower(b)[i]
      ensures SameChar(a[i], b[i]) <==> Upper(a)[i] == Upper(b)[i]
    {
    }
  }

  // The value stands at a place of the text, in upper or lower case.
  ghost predicate OccursAt(text: string, value: string, i: int) {
    0 <= i && i + |value| <= |text| && SameText(text[i..i + |value|], value)
  }

  ghost predicate Occurs(text: string, value: string) {
    exists i :: OccursAt(text, value, i)
  }

  lemma OccursIff(text: string, value: string)
    ensures Contains(Lower(text), Lower(value)) <==> Occurs(text, value)
  {
    var t, v := Lower(text), Lower(value);
    forall i: int
      ensures MatchAt(t, i, v) <==> OccursAt(text, value, i)
    {
      OccursAtIff(text, value, i);
    }
  }

  lemma OccursAtIff(text: string, value: string, i: int)
    ensures MatchAt(Lower(text), i, Lower(value)) <==> OccursAt(text, value, i)
  {
    if 0 <= i && i + |value| <= |text| {
      SameTextIff(text[i..i + |value|], value);
      assert Lower(text)[i..i + |value|] == Lower(text[i..i + |value|]);
    }
  }

  // ---- White space ----

  // Space, tab, line feed, vertical tab, form feed and carriage return.
  predicate White(c: char) {
    c as int == 32 || 9 <= c as int <= 13
  }

  ghost predicate Blank(s: string) {
    forall i :: 0 <= i < |s| ==> White(s[i])
  }

  ghost predicate Tight(s: string) {
    s != [] ==> !White(s[0]) && !White(s[|s| - 1])
  }

  // Trimming takes white space off both ends and stops at other characters.
  lemma TrimIs(s: string)
    ensures Tight(Trim(s))
    ensures exists a, b :: Blank(a) && Blank(b) && s == a + Trim(s) + b
  {
    TrimIsTight(s);
    var t := TrimStart(s);
    var a, b := StartCut(s), EndCut(t);
    CutOut(s, a, t, TrimEnd(t), b);
  }

  lemma TrimIsTight(s: string)
    ensures Tight(Trim(s))
  {
  }

  function StartCut(s: string): (a: string)
    ensures Blank(a) && s == a + TrimStart(s)
  {
    s[..|s| - |TrimStart(s)|]
  }

  function EndCut(s: string): (b: string)
    ensures Blank(b) && s == TrimEnd(s) + b
  {
    s[|TrimEnd(s)|..]
  }

  lemma CutOut(s: string, a: string, t: string, u: string, b: string)
    requires s == a + t && t == u + b && Blank(a) && Blank(b)
    ensures exists a, b :: Blank(a) && Blank(b) && s == a + u + b
  {
    assert s == a + u + b;
  }

  // And nothing else is white space to it.
  lemma TrimmedIs(a: string, s: string, b: string)
    requires Blank(a) && Blank(b) && Tight(s)
    ensures Trim(a + s + b) == s
  {
    if s == [] {
      assert a + s + b == (a + b) + [];
      TrimStartIs(a + b, []);
    } else {
      assert a + s + b == a + (s + b);
      TrimStartIs(a, s + b);
      TrimEndIs(s, b);
    }
  }

  lemma SpaceIsWhite()
    ensures forall c :: IsSpace(c) <==> White(c)
  {
  }

  lemma TrimStartIs(a: string, s: string)
    requires Blank(a) && (s != [] ==> !White(s[0]))
    ensures TrimStart(a + s) == s
  {
    var all, r := a + s, TrimStart(a + s);
    SpaceIsWhite();
    assert s != [] ==> all[|a|] == s[0];
    assert r != [] ==> r[0] == all[|all| - |r|];
    assert forall i :: 0 <= i < |a| ==> all[i] == a[i];
  }

  lemma TrimEndIs(s: string, b: string)
    requires Blank(b) && s != [] && !White(s[|s| - 1])
    ensures TrimEnd(s + b) == s
  {
    var all, r := s + b, TrimEnd(s + b);
    SpaceIsWhite();
    assert all[|s| - 1] == s[|s| - 1];
    assert r != [] ==> r[|r| - 1] == all[|r| - 1];
    assert forall i :: |s| <= i < |all| ==> all[i] == b[i - |s|];
  }

  // ---- Lines ----

  // A line and whether CRLF ends it, or LF alone.
  datatype EndedLine = EndedLine(text: string, crlf: bool)

  function TextOf(lines: seq<EndedLine>, rest: string): string {
    if lines == [] then rest
    else lines[0].text + (if lines[0].crlf then "\r\n" else "\n") + TextOf(lines[1..], rest)
  }

  function TextsOf(lines: seq<EndedLine>): seq<string> {
    if lines == [] then [] else [lines[0].text] + TextsOf(lines[1..])
  }

  // No line feed inside, and no CR at the end that would belong to the ending.
  predicate IsLine(l: EndedLine) {
    '\n' !in l.text && (l.text != [] && !l.crlf ==> l.text[|l.text| - 1] != '\r')
  }

  // Lines with any endings are read as their texts, and an unended rest as one more line.
  lemma {:induction false} LinesOfText(lines: seq<EndedLine>, rest: string)
    requires (forall l :: l in lines ==> IsLine(l)) && '\n' !in rest
    ensures Lines(TextOf(lines, rest)) == TextsOf(lines) + if rest == [] then [] else [rest]
  {
    if lines == [] {
      LinesOfRest(rest);
    } else {
      var more := lines[1..];
      assert lines[0] in lines && forall l :: l in more ==> l in lines;
      LinesOfText(more, rest);
      LinesStep(lines[0], TextOf(more, rest), TextsOf(more), if rest == [] then [] else [rest]);
    }
  }

  lemma LinesOfRest(rest: string)
    requires '\n' !in rest
    ensures Lines(rest) == [] + if rest == [] then [] else [rest]
  {
    IndexOfIs(rest, '\n', |rest|);
  }

  lemma LinesStep(l: EndedLine, tail: string, texts: seq<string>, last: seq<string>)
    requires IsLine(l) && Lines(tail) == texts + last
    ensures Lines(l.text + (if l.crlf then "\r\n" else "\n") + tail) == ([l.text] + texts) + last
  {
    FirstOfLines(l.text, l.crlf, tail);
  }

  lemma FirstOfLines(text: string, crlf: bool, tail: string)
    requires '\n' !in text && (text != [] && !crlf ==> text[|text| - 1] != '\r')
    ensures Lines(text + (if crlf then "\r\n" else "\n") + tail) == [text] + Lines(tail)
  {
    var s, i := text + (if crlf then "\r\n" else "\n") + tail, if crlf then |text| + 1 else |text|;
    IndexOfIs(s, '\n', i);
    assert s[i + 1..] == tail;
    if crlf {
      assert s[..i] == text + "\r" && (text + "\r")[..|text|] == text;
    } else {
      assert s[..i] == text;
    }
  }
}

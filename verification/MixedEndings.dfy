// Header lines and signatures in messages that mix CRLF with bare line feeds: what the
// filter does to the message's own header and body, and when that is what it is for.
module MixedEndings {
  import opened Text
  import opened Folding
  import opened DkimStrip
  import opened Rewrite
  import opened MessageParts

  // ---- When the filter cuts at the blank line ----

  // Its separator is the end of the last header line and the blank line.
  ghost predicate CutsRight(email: string, p: Parts) {
    && HeaderEnd(email).Some?
    && HeaderEnd(email).value + |Eol(email)| == |RawText(p.header)|
    && BodySection(email) == p.body
  }

  predicate EndsAlike(p: Parts, eol: string) {
    p.header != [] && Break(p.crlf) == eol && Break(p.header[|p.header| - 1].crlf) == eol
  }

  lemma {:induction false} RawAppend(a: seq<RawLine>, b: seq<RawLine>)
    ensures RawText(a + b) == RawText(a) + RawText(b)
  {
    if a == [] {
      assert a + b == b;
    } else {
      assert (a + b)[1..] == a[1..] + b;
      RawAppend(a[1..], b);
      Assoc(a[0].text + Break(a[0].crlf), RawText(a[1..]), RawText(b));
    }
  }

  lemma RawSnoc(a: seq<RawLine>, l: RawLine)
    ensures RawText(a + [l]) == (RawText(a) + l.text) + Break(l.crlf)
  {
    RawAppend(a, [l]);
    assert [l][1..] == [];
    assert RawText([l]) == l.text + Break(l.crlf) + [];
    Assoc(RawText(a), l.text, Break(l.crlf));
  }

  // The header text without the last ending.
  lemma LastLine(p: Parts)
    requires p.header != []
    ensures var n := |p.header| - 1;
      RawText(p.header) == (RawText(p.header[..n]) + p.header[n].text) + Break(p.header[n].crlf)
  {
    var n := |p.header| - 1;
    assert p.header == p.header[..n] + [p.header[n]];
    RawSnoc(p.header[..n], p.header[n]);
  }

  lemma AlikeCutsRight(email: string, p: Parts)
    requires ReadMessage(email) == Some(p) && EndsAlike(p, Eol(email))
    ensures CutsRight(email, p)
  {
    var n, eol := |p.header| - 1, Eol(email);
    WrittenParts(email, p);
    NoEarlierSep(email, eol, p);
    LastLine(p);
    SepFound(email, RawText(p.header[..n]) + p.header[n].text, eol, p.body);
  }

  lemma SepFound(s: string, front: string, eol: string, body: string)
    requires IsEol(eol) && s == (front + eol) + eol + body
    requires forall j: nat :: MatchAt(s, j, eol + eol) ==> |front + eol| <= j + |eol|
    ensures Find(s, eol + eol) == Some(|front|) && s[|front| + |eol + eol|..] == body
  {
    assert s[|front|..|front| + |eol + eol|] == eol + eol;
    FindIs(s, eol + eol, |front|);
  }

  // The ending of a line can be told from the text.
  lemma EndingShows(p: Parts, text: string, eol: string)
    requires p.header != [] && ValidLines(p.header) && IsEol(eol) && text == RawText(p.header)
    requires |eol| <= |text| && text[|text| - |eol|..] == eol
    requires eol == "\n" ==> !Contains(text, "\r\n")
    ensures Break(p.header[|p.header| - 1].crlf) == eol
  {
    var n := |p.header| - 1;
    LastLine(p);
    assert ValidLine(p.header[n]);
    if eol == "\n" { NotAtTheEnd(text); }
    EndingOf(text, RawText(p.header[..n]), p.header[n].text, p.header[n].crlf, eol);
  }

  lemma NotAtTheEnd(text: string)
    requires !Contains(text, "\r\n") && |text| >= 2
    ensures text[|text| - 2] != '\r' || text[|text| - 1] != '\n'
  {
    assert !MatchAt(text, |text| - 2, "\r\n");
    assert text[|text| - 2..|text|] == [text[|text| - 2], text[|text| - 1]];
  }

  lemma EndingOf(s: string, front: string, text: string, crlf: bool, eol: string)
    requires IsEol(eol) && text != [] && (EndsInCr(text) ==> crlf) && s == (front + text) + Break(crlf)
    requires |s| >= 2 && s[|s| - |eol|..] == eol
    requires eol == "\n" ==> s[|s| - 2] != '\r' || s[|s| - 1] != '\n'
    ensures Break(crlf) == eol
  {
    assert s[|s| - 2] == if crlf then '\r' else text[|text| - 1];
    assert s[|s| - |eol|..][0] == s[|s| - |eol|];
  }

  lemma NoCrLfInFront(s: string, n: nat)
    requires n <= |s| && !Contains(s, "\r\n")
    ensures !Contains(s[..n], "\r\n")
  {
    forall j | 0 <= j
      ensures !MatchAt(s[..n], j, "\r\n")
    {
      if j + 2 <= n { assert s[..n][j..j + 2] == s[j..j + 2] && !MatchAt(s, j, "\r\n"); }
    }
  }

  lemma RightIsAlike(email: string, p: Parts)
    requires ReadMessage(email) == Some(p) && CutsRight(email, p)
    ensures EndsAlike(p, Eol(email))
  {
    var eol, pos, text := Eol(email), HeaderEnd(email).value, RawText(p.header);
    WrittenParts(email, p);
    CutsAlike(email, pos, eol, text, p.crlf, p.body);
    if eol == "\n" { NoCrLfInFront(email, |text|); }
    EndingShows(p, text, eol);
  }

  lemma CutsAlike(s: string, pos: nat, eol: string, text: string, crlf: bool, body: string)
    requires IsEol(eol) && MatchAt(s, pos, eol + eol) && s == text + Break(crlf) + body
    requires pos + |eol| == |text| && s[pos + |eol + eol|..] == body
    ensures Break(crlf) == eol && s[..|text|] == text && text[|text| - |eol|..] == eol
  {
    assert |s| == pos + 2 * |eol| + |body|;
    SepSplits(s, pos, eol);
    assert text[|text| - |eol|..] == s[pos..pos + |eol|];
  }

  // The filter cuts exactly there when the last header line and the blank line have the
  // ending it looks for.
  lemma CutsRightIff(email: string, p: Parts)
    requires ReadMessage(email) == Some(p)
    ensures CutsRight(email, p) <==> EndsAlike(p, Eol(email))
  {
    if EndsAlike(p, Eol(email)) { AlikeCutsRight(email, p); }
    if CutsRight(email, p) { RightIsAlike(email, p); }
  }

  // ---- Where it cuts otherwise ----

  // Otherwise its separator lies behind the header: at the blank line itself, or wholly
  // behind it.
  lemma CutsLate(email: string, p: Parts)
    requires ReadMessage(email) == Some(p) && HeaderEnd(email).Some? && !CutsRight(email, p)
    ensures var pos, eol, at := HeaderEnd(email).value, Eol(email), |RawText(p.header)|;
      || (at == pos && Break(p.crlf) == eol && p.body == eol + email[pos + 2 * |eol|..])
      || at + |Break(p.crlf)| <= pos
  {
    WrittenParts(email, p);
    NoEarlierSep(email, Eol(email), p);
    LateText(email, p);
  }

  lemma LateText(email: string, p: Parts)
    requires email == RawText(p.header) + Break(p.crlf) + p.body && HeaderEnd(email).Some? && !CutsRight(email, p)
    requires |RawText(p.header)| <= HeaderEnd(email).value + |Eol(email)|
    ensures var pos, eol, at := HeaderEnd(email).value, Eol(email), |RawText(p.header)|;
      || (at == pos && Break(p.crlf) == eol && p.body == eol + email[pos + 2 * |eol|..])
      || at + |Break(p.crlf)| <= pos
  {
    HeaderEndsInFeed(p);
    LateSep(email, HeaderEnd(email).value, Eol(email), RawText(p.header), p.crlf, p.body);
  }

  // The same, said of the text alone.
  lemma LateSep(s: string, pos: nat, eol: string, text: string, crlf: bool, body: string)
    requires IsEol(eol) && MatchAt(s, pos, eol + eol) && s == text + Break(crlf) + body
    requires |text| <= pos + |eol| && (text != [] ==> text[|text| - 1] == '\n')
    requires eol == "\n" ==> !Contains(s, "\r\n")
    ensures var at := |text|;
      || (at == pos + |eol| && body == s[pos + 2 * |eol|..])
      || (at == pos && Break(crlf) == eol && body == eol + s[pos + 2 * |eol|..])
      || at + |Break(crlf)| <= pos
  {
    if |text| == pos + |eol| {
      AtSecond(s, pos, eol, text, crlf, body);
    } else if |text| == pos {
      AtFirst(s, pos, eol, text, crlf, body);
    } else {
      SepSplits(s, pos, eol);
      BeforeSep(s, pos, eol, text, crlf, body);
    }
  }

  lemma AtSecond(s: string, pos: nat, eol: string, text: string, crlf: bool, body: string)
    requires IsEol(eol) && MatchAt(s, pos, eol + eol) && s == text + Break(crlf) + body && |text| == pos + |eol|
    ensures body == s[pos + 2 * |eol|..]
  {
    SepSplits(s, pos, eol);
    BlankAt(s, pos + |eol|, eol, text, crlf, body);
  }

  lemma AtFirst(s: string, pos: nat, eol: string, text: string, crlf: bool, body: string)
    requires IsEol(eol) && MatchAt(s, pos, eol + eol) && s == text + Break(crlf) + body && |text| == pos
    ensures Break(crlf) == eol && body == eol + s[pos + 2 * |eol|..]
  {
    SepSplits(s, pos, eol);
    BlankAt(s, pos, eol, text, crlf, body);
    CutOff(s, pos + |eol|, eol);
  }

  lemma CutOff(s: string, j: nat, eol: string)
    requires MatchAt(s, j, eol)
    ensures s[j..] == eol + s[j + |eol|..]
  {
    assert s[j..] == s[j..j + |eol|] + s[j + |eol|..];
  }

  lemma BeforeSep(s: string, pos: nat, eol: string, text: string, crlf: bool, body: string)
    requires IsEol(eol) && MatchAt(s, pos, eol) && s == text + Break(crlf) + body
    requires |text| < pos + |eol| && |text| != pos && (text != [] ==> text[|text| - 1] == '\n')
    requires eol == "\n" ==> !Contains(s, "\r\n")
    ensures |text| + |Break(crlf)| <= pos
  {
    var at := |text|;
    assert s[pos] == s[pos..pos + |eol|][0] == eol[0];
    assert at > 0 ==> s[at - 1] == '\n';
    if crlf {
      assert s[at..at + 2] == "\r\n" && s[at + 1] == '\n';
      assert MatchAt(s, at, "\r\n");
    }
  }

  lemma BlankAt(s: string, at: nat, eol: string, text: string, crlf: bool, body: string)
    requires IsEol(eol) && at == |text| && s == text + Break(crlf) + body && MatchAt(s, at, eol)
    ensures Break(crlf) == eol && body == s[at + |eol|..]
  {
    assert s[at] == s[at..at + |eol|][0] == eol[0];
    assert s[at] == Break(crlf)[0];
  }

  lemma HeaderEndsInFeed(p: Parts)
    ensures var t := RawText(p.header); t != [] ==> t[|t| - 1] == '\n'
  {
    if p.header != [] { LastLine(p); }
  }

  // ---- Injecting header lines ----

  // The header lines as they are to be: the first new one run on to the last old one,
  // as the filter has it, or on its own where there is none.
  function Wanted(texts: seq<string>, more: seq<string>): seq<string>
    requires more != []
  {
    if texts == [] then more else Merged(texts, more)
  }

  // The new lines are in the message's own header, and its body is what it was.
  ghost predicate InjectsRight(email: string, p: Parts, headers: string)
    requires headers != []
  {
    match ReadMessage(Injected(email, headers))
    case None => false
    case Some(q) => Texts(q.header) == Wanted(Texts(p.header), Lines(headers)) && q.body == p.body
  }

  function WithEnding(texts: seq<string>, crlf: bool): seq<RawLine> {
    seq(|texts|, k requires 0 <= k < |texts| => RawLine(texts[k], crlf))
  }

  lemma {:induction false} RenderIsRaw(texts: seq<string>, crlf: bool)
    ensures RawText(WithEnding(texts, crlf)) == Render(texts, Break(crlf))
  {
    if texts != [] {
      assert WithEnding(texts, crlf)[1..] == WithEnding(texts[1..], crlf);
      RenderIsRaw(texts[1..], crlf);
    }
  }

  lemma PlainAreValid(texts: seq<string>, crlf: bool)
    requires PlainLines(texts)
    ensures ValidLines(WithEnding(texts, crlf))
  {
    forall k | 0 <= k < |texts|
      ensures ValidLine(WithEnding(texts, crlf)[k])
    {
      assert texts[k] in texts;
    }
  }

  // The header lines after injection at the right place.
  function Extended(header: seq<RawLine>, more: seq<string>, crlf: bool): seq<RawLine>
    requires header != [] && more != []
  {
    var n := |header| - 1;
    header[..n] + ([RawLine(header[n].text + more[0], crlf)] + WithEnding(more[1..], crlf))
  }

  lemma ExtendedFacts(p: Parts, more: seq<string>, crlf: bool)
    requires p.header != [] && more != [] && ValidLines(p.header) && PlainLines(more)
    ensures var n, h := |p.header| - 1, Extended(p.header, more, crlf);
      && ValidLines(h) && Texts(h) == Merged(Texts(p.header), more)
      && RawText(h) == (RawText(p.header[..n]) + p.header[n].text) + Render(more, Break(crlf))
  {
    var n := |p.header| - 1;
    var l, tail := RawLine(p.header[n].text + more[0], crlf), WithEnding(more[1..], crlf);
    assert more[0] in more && forall t :: t in more[1..] ==> t in more;
    PlainAreValid(more[1..], crlf);
    LineAndTail(l, tail);
    ValidAppend(p.header[..n], [l] + tail);
    RawAppend(p.header[..n], [l] + tail);
    RenderIsRaw(more[1..], crlf);
    MergedText(RawText(p.header[..n]), p.header[n].text, more, Break(crlf));
    ExtendedTexts(p.header, more, crlf);
  }

  lemma LineAndTail(l: RawLine, tail: seq<RawLine>)
    requires ValidLine(l) && ValidLines(tail)
    ensures ValidLines([l] + tail) && RawText([l] + tail) == l.text + Break(l.crlf) + RawText(tail)
  {
    assert ([l] + tail)[1..] == tail;
  }

  lemma ExtendedTexts(header: seq<RawLine>, more: seq<string>, crlf: bool)
    requires header != [] && more != []
    ensures Texts(Extended(header, more, crlf)) == Merged(Texts(header), more)
  {
  }

  lemma ValidAppend(a: seq<RawLine>, b: seq<RawLine>)
    requires ValidLines(a) && ValidLines(b)
    ensures ValidLines(a + b)
  {
  }

  lemma MergedText(a: string, t: string, more: seq<string>, eol: string)
    requires more != []
    ensures a + ((t + more[0]) + eol + Render(more[1..], eol)) == (a + t) + Render(more, eol)
  {
  }

  lemma CutRightInjectsRight(email: string, p: Parts, headers: string)
    requires ReadMessage(email) == Some(p) && CutsRight(email, p)
    requires headers != [] && PlainLines(Lines(headers))
    ensures InjectsRight(email, p, headers)
  {
    var more, n := Lines(headers), |p.header| - 1;
    var front := RawText(p.header[..n]) + p.header[n].text;
    CutsRightIff(email, p);
    WrittenParts(email, p);
    ExtendedFacts(p, more, p.crlf);
    HeaderFront(email, p);
    InjectedIs(email, headers, front, p.body);
    ReadParts(Extended(p.header, more, p.crlf), p.crlf, p.body, Injected(email, headers));
  }

  lemma HeaderFront(email: string, p: Parts)
    requires ReadMessage(email) == Some(p) && CutsRight(email, p) && EndsAlike(p, Eol(email))
    ensures HeaderSection(email) == RawText(p.header[..|p.header| - 1]) + p.header[|p.header| - 1].text
  {
    var n := |p.header| - 1;
    WrittenParts(email, p);
    LastLine(p);
    FrontOfFour(email, RawText(p.header[..n]) + p.header[n].text, Eol(email), Break(p.crlf), p.body);
  }

  lemma InjectedIs(email: string, headers: string, front: string, body: string)
    requires HeaderEnd(email).Some? && HeaderSection(email) == front && BodySection(email) == body
    ensures Injected(email, headers) == (front + Render(Lines(headers), Eol(email))) + Eol(email) + body
  {
  }

  lemma FrontOfFour(s: string, a: string, b: string, c: string, d: string)
    requires s == (a + b) + c + d
    ensures s[..|a|] == a && s[..|a + b|] == a + b
  {
  }

  lemma LateInjectsWrong(email: string, p: Parts, headers: string)
    requires ReadMessage(email) == Some(p) && !CutsRight(email, p)
    requires headers != [] && PlainLines(Lines(headers))
    ensures !InjectsRight(email, p, headers)
  {
    var more := Lines(headers);
    NotAsWanted(Texts(p.header), more);
    if HeaderEnd(email).Some? {
      var pos, eol := HeaderEnd(email).value, Eol(email);
      CutsLate(email, p);
      if |RawText(p.header)| == pos {
        BodyLosesALine(email, p, headers);
      } else {
        HeaderIsLeftAlone(email, p, headers);
      }
    }
  }

  lemma NotAsWanted(texts: seq<string>, more: seq<string>)
    requires more != [] && PlainLines(more)
    ensures Wanted(texts, more) != texts
  {
    assert more[0] in more;
    if texts != [] {
      var n := |texts| - 1;
      assert |Merged(texts, more)[n]| > |texts[n]|;
    }
  }

  lemma BodyLosesALine(email: string, p: Parts, headers: string)
    requires ReadMessage(email) == Some(p) && HeaderEnd(email).Some? && PlainLines(Lines(headers))
    requires var pos, eol := HeaderEnd(email).value, Eol(email);
      |RawText(p.header)| == pos && Break(p.crlf) == eol && p.body == eol + email[pos + 2 * |eol|..]
    ensures var q := ReadMessage(Injected(email, headers)); q.Some? && |q.value.body| < |p.body|
  {
    WrittenParts(email, p);
    HeaderIsAll(email, p);
    InjectedIs(email, headers, RawText(p.header), BodySection(email));
    LinesAdded(p, Lines(headers), BodySection(email), Injected(email, headers));
  }

  lemma HeaderIsAll(email: string, p: Parts)
    requires email == RawText(p.header) + Break(p.crlf) + p.body
    requires HeaderEnd(email).Some? && |RawText(p.header)| == HeaderEnd(email).value
    ensures HeaderSection(email) == RawText(p.header)
  {
    FrontOfThree(email, RawText(p.header), Break(p.crlf), p.body);
  }

  lemma FrontOfThree(s: string, a: string, b: string, c: string)
    requires s == a + b + c
    ensures s[..|a|] == a
  {
  }

  lemma LinesAdded(p: Parts, more: seq<string>, body: string, out: string)
    requires ValidLines(p.header) && PlainLines(more)
    requires out == (RawText(p.header) + Render(more, Break(p.crlf))) + Break(p.crlf) + body
    ensures ReadMessage(out) == Some(Parts(p.header + WithEnding(more, p.crlf), p.crlf, body))
  {
    var added := WithEnding(more, p.crlf);
    PlainAreValid(more, p.crlf);
    RenderIsRaw(more, p.crlf);
    RawAppend(p.header, added);
    ValidAppend(p.header, added);
    ReadParts(p.header + added, p.crlf, body, out);
  }

  lemma HeaderIsLeftAlone(email: string, p: Parts, headers: string)
    requires ReadMessage(email) == Some(p) && HeaderEnd(email).Some?
    requires |RawText(p.header)| + |Break(p.crlf)| <= HeaderEnd(email).value
    ensures var q := ReadMessage(Injected(email, headers));
      q.Some? && q.value.header == p.header && q.value.crlf == p.crlf
  {
    var out, front := Injected(email, headers), RawText(p.header) + Break(p.crlf);
    WrittenParts(email, p);
    SharedFront(email, out, HeaderEnd(email).value, front);
    ReadParts(p.header, p.crlf, out[|front|..], out);
  }

  lemma SharedFront(s: string, out: string, pos: nat, front: string)
    requires |front| <= pos <= |s| && pos <= |out| && out[..pos] == s[..pos] && s[..|front|] == front
    ensures out == front + out[|front|..]
  {
    assert out[..|front|] == out[..pos][..|front|] == s[..pos][..|front|] == front;
  }

  // New header lines reach the message's own header, and leave its body alone, exactly
  // when the last header line and the blank line have the ending the filter looks for.
  lemma InjectsRightIff(email: string, p: Parts, headers: string)
    requires ReadMessage(email) == Some(p) && headers != [] && PlainLines(Lines(headers))
    ensures InjectsRight(email, p, headers) <==> EndsAlike(p, Eol(email))
  {
    CutsRightIff(email, p);
    if CutsRight(email, p) {
      CutRightInjectsRight(email, p, headers);
    } else {
      LateInjectsWrong(email, p, headers);
    }
  }
}

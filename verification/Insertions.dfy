// Where footer and pixel land: in the body of a message, or in a header line that holds
// a closing body tag.
module Insertions {
  import opened Text
  import opened DkimStrip
  import opened Splice
  import opened MessageParts
  import opened MixedEndings

  // The lines up to the blank one, itself included, are those of the message.
  ghost predicate HeaderStays(p: Parts, out: string) {
    match ReadMessage(out)
    case None => false
    case Some(q) => q.header == p.header && q.crlf == p.crlf
  }

  // There is no closing body tag, or there is one in the body.
  predicate TagInBody(m: string, p: Parts) {
    BodyTag(m).None? || Contains(Lower(p.body), CLOSE_BODY)
  }

  // ---- The last tag ----

  lemma LowerSplits(front: string, body: string)
    ensures Lower(front + body) == Lower(front) + Lower(body)
  {
  }

  lemma MatchSplits(a: string, b: string, j: int, pat: string)
    requires j >= |a|
    ensures MatchAt(a + b, j, pat) <==> MatchAt(b, j - |a|, pat)
  {
    var k := j - |a|;
    if k + |pat| <= |b| { assert (a + b)[j..j + |pat|] == b[k..k + |pat|]; }
  }

  // The last tag lies behind a given front exactly if there is one behind it.
  lemma LastBehindIff(a: string, b: string, pat: string)
    requires RFind(a + b, pat).Some?
    ensures RFind(a + b, pat).value >= |a| <==> Contains(b, pat)
  {
    var pos := RFind(a + b, pat).value;
    if pos >= |a| {
      MatchSplits(a, b, pos, pat);
      assert MatchAt(b, pos - |a|, pat);
    }
    if Contains(b, pat) {
      var j :| 0 <= j && MatchAt(b, j, pat);
      MatchSplits(a, b, |a| + j, pat);
    }
  }

  lemma TagBehindIff(m: string, front: string, body: string)
    requires m == front + body && BodyTag(m).Some?
    ensures BodyTag(m).value >= |front| <==> Contains(Lower(body), CLOSE_BODY)
  {
    LowerSplits(front, body);
    LastBehindIff(Lower(front), Lower(body), CLOSE_BODY);
  }

  // ---- What becomes of the header ----

  // An insertion of other text in front of the tag, before the blank line, shows.
  lemma InHeaderShows(m: string, p: Parts, pos: nat, text: string)
    requires ReadMessage(m) == Some(p) && pos < |RawText(p.header) + Break(p.crlf)| && pos <= |m|
    requires MatchAt(Lower(m), pos, CLOSE_BODY) && |text| >= 2 && text[1] != '/'
    ensures !HeaderStays(p, InsertAt(m, pos, text))
  {
    var out, front := InsertAt(m, pos, text), RawText(p.header) + Break(p.crlf);
    WrittenParts(m, p);
    TagIsOnOneLine(m, front, p.body, pos);
    FrontDiffers(m, front, p.body, pos, text);
    if HeaderStays(p, out) {
      FrontStays(p, out);
    }
  }

  lemma FrontStays(p: Parts, out: string)
    requires HeaderStays(p, out)
    ensures out == RawText(p.header) + Break(p.crlf) + ReadMessage(out).value.body
  {
    WrittenParts(out, ReadMessage(out).value);
  }

  lemma FrontDiffers(m: string, front: string, body: string, pos: nat, text: string)
    requires m == front + body && pos + 1 < |front| && m[pos + 1] == '/' && |text| >= 2 && text[1] != '/'
    ensures forall b :: InsertAt(m, pos, text) != front + b
  {
    assert InsertAt(m, pos, text)[pos + 1] == text[1];
    forall b: string
      ensures InsertAt(m, pos, text) != front + b
    {
      assert (front + b)[pos + 1] == front[pos + 1] == m[pos + 1];
    }
  }

  lemma TagIsOnOneLine(m: string, front: string, body: string, pos: nat)
    requires m == front + body && front != [] && front[|front| - 1] == '\n'
    requires pos < |front| && MatchAt(Lower(m), pos, CLOSE_BODY)
    ensures pos + 1 < |front| && m[pos + 1] == '/'
  {
    var low := Lower(m);
    var cut := low[pos..pos + |CLOSE_BODY|];
    assert cut[0] == low[pos] == '<' && cut[1] == low[pos + 1] == '/';
    assert low[pos] == LowerChar(m[pos]) && low[pos + 1] == LowerChar(m[pos + 1]);
  }

  // Spliced before the last tag, a text of this kind leaves the header alone exactly if
  // there is a tag in the body.
  lemma SpliceIff(m: string, p: Parts, text: string)
    requires ReadMessage(m) == Some(p) && BodyTag(m).Some? && |text| >= 2 && text[1] != '/'
    ensures HeaderStays(p, InsertAt(m, BodyTag(m).value, text)) <==> Contains(Lower(p.body), CLOSE_BODY)
  {
    var pos, front := BodyTag(m).value, RawText(p.header) + Break(p.crlf);
    WrittenParts(m, p);
    TagBehindIff(m, front, p.body);
    if pos >= |front| {
      BehindStays(m, p, pos, text);
    } else {
      InHeaderShows(m, p, pos, text);
    }
  }

  // Text put behind the blank line changes the body only.
  lemma BehindStays(m: string, p: Parts, pos: nat, text: string)
    requires ReadMessage(m) == Some(p) && |RawText(p.header) + Break(p.crlf)| <= pos <= |m|
    ensures HeaderStays(p, InsertAt(m, pos, text))
  {
    var out, front := InsertAt(m, pos, text), RawText(p.header) + Break(p.crlf);
    WrittenParts(m, p);
    SharedFront(m, out, pos, front);
    ReadParts(p.header, p.crlf, out[|front|..], out);
  }

  // A footer that is put in leaves the header lines alone exactly if the message has no
  // closing body tag or one in its body.
  lemma FooterInBodyIff(m: string, p: Parts, html: string)
    requires ReadMessage(m) == Some(p) && WithFooter(m, html) != m
    ensures HeaderStays(p, WithFooter(m, html)) <==> TagInBody(m, p)
  {
    match BodyTag(m)
    case Some(pos) =>
      BlockBegins(html);
      SpliceIff(m, p, FooterBlock(html));
    case None =>
      AppendedStays(m, p, PlainFooter(html));
  }

  lemma BlockBegins(html: string)
    ensures var b := FooterBlock(html); |b| >= 2 && b[0] == '<' && b[1] == 'd'
  {
    assert FOOTER_OPEN[..5] == "<div ";
    assert FOOTER_OPEN[0] == FOOTER_OPEN[..5][0] && FOOTER_OPEN[1] == FOOTER_OPEN[..5][1];
  }

  lemma AppendedStays(m: string, p: Parts, plain: string)
    requires ReadMessage(m) == Some(p)
    ensures HeaderStays(p, m + ("\n\n-- \n" + plain))
  {
    var text := "\n\n-- \n" + plain;
    WrittenParts(m, p);
    BehindStays(m, p, |m|, text);
    AtTheEnd(m, text);
  }

  lemma AtTheEnd(m: string, text: string)
    ensures InsertAt(m, |m|, text) == m + text
  {
    assert m[..|m|] == m && m[|m|..] == [] && text + [] == text;
  }

  // The same of the pixel, which is an image tag.
  lemma PixelInBodyIff(m: string, p: Parts, tag: string)
    requires ReadMessage(m) == Some(p) && WithPixel(m, tag) != m && StartsWith(tag, "<img ")
    ensures HeaderStays(p, WithPixel(m, tag)) <==> TagInBody(m, p)
  {
    assert tag[1] == tag[..5][1] == 'i';
    SpliceIff(m, p, tag);
  }

  // The only closing body tag takes the footer, wherever it stands.
  lemma FooterAtTag(a: string, rest: string, html: string)
    requires !IsBlank(html) && !Contains(Lower(rest), CLOSE_BODY)
    requires !Encoded(a + (CLOSE_BODY + rest), |a|)
    ensures WithFooter(a + (CLOSE_BODY + rest), html) == a + (FooterBlock(html) + (CLOSE_BODY + rest))
  {
    var m := a + (CLOSE_BODY + rest);
    OnlyTag(a, rest);
    assert m[..|a|] == a && m[|a|..] == CLOSE_BODY + rest;
  }

  lemma OnlyTag(a: string, rest: string)
    requires !Contains(Lower(rest), CLOSE_BODY)
    ensures BodyTag(a + (CLOSE_BODY + rest)) == Some(|a|)
  {
    var m := a + (CLOSE_BODY + rest);
    var low := Lower(m);
    assert low[|a|..|a| + |CLOSE_BODY|] == CLOSE_BODY;
    assert MatchAt(low, |a|, CLOSE_BODY);
    forall j | |a| < j
      ensures !MatchAt(low, j, CLOSE_BODY)
    {
      NotWithin(a, rest, j);
    }
  }

  lemma NotWithin(a: string, rest: string, j: nat)
    requires !Contains(Lower(rest), CLOSE_BODY) && |a| < j
    ensures !MatchAt(Lower(a + (CLOSE_BODY + rest)), j, CLOSE_BODY)
  {
    var front, m := a + CLOSE_BODY, a + (CLOSE_BODY + rest);
    assert m == front + rest;
    LowerSplits(front, rest);
    if j >= |front| {
      MatchSplits(Lower(front), Lower(rest), j, CLOSE_BODY);
    } else {
      assert Lower(m)[j] == LowerChar(m[j]) && m[j] == CLOSE_BODY[j - |a|] != '<';
      assert j + |CLOSE_BODY| <= |m| ==> Lower(m)[j..j + |CLOSE_BODY|][0] == Lower(m)[j];
    }
  }

  lemma {:induction false} TrimEolIsFront(s: string)
    ensures |TrimEol(s)| <= |s| && TrimEol(s) == s[..|TrimEol(s)|]
  {
    if s != [] && (s[|s| - 1] == '\r' || s[|s| - 1] == '\n') { TrimEolIsFront(s[..|s| - 1]); }
  }

  // A first line that does not begin with a c declares no encoding.
  lemma FirstLineIsPlain(m: string, before: nat)
    requires 0 < before <= |m| && '\n' !in m[..before] && LowerChar(m[0]) != 'c'
    ensures !Encoded(m, before)
  {
    var line := LineText(m, 0);
    TrimEolIsFront(m[0..LineEnd(m, 0)]);
    assert |line| >= |CTE| ==> Lower(line)[..|CTE|][0] == LowerChar(m[0]);
    assert !IsCte(line);
    forall j | 0 < j < before
      ensures !LineStart(m, j)
    {
      assert m[..before][j - 1] == m[j - 1];
    }
  }

  // One such message, with the tag in its subject.
  lemma FooterInSubject(html: string)
    requires !IsBlank(html)
    ensures WithFooter("Subject: " + (CLOSE_BODY + "\n\nhi"), html)
         == "Subject: " + (FooterBlock(html) + (CLOSE_BODY + "\n\nhi"))
  {
    var a, rest := "Subject: ", "\n\nhi";
    var m := a + (CLOSE_BODY + rest);
    assert m[..|a|] == a;
    FirstLineIsPlain(m, |a|);
    assert |Lower(rest)| < |CLOSE_BODY|;
    FooterAtTag(a, rest, html);
  }
}

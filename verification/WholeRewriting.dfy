// A message and a plan: when the planned header lines are in the message that goes out,
// and its signatures out of it.
module WholeRewriting {
  import opened Text
  import opened DkimStrip
  import opened Rewrite
  import opened Splice
  import opened MessageParts
  import opened MixedEndings
  import opened Signatures
  import opened SignatureLines
  import opened MixedRewriting
  import opened Insertions

  // ---- What is planned ----

  predicate Sane(headers: Option<string>) {
    headers.Some? ==> headers.value != [] && PlainLines(Lines(headers.value))
  }

  function With(texts: seq<string>, headers: Option<string>): seq<string>
    requires Sane(headers)
  {
    if headers.None? then texts else Wanted(texts, Lines(headers.value))
  }

  lemma SaneLine(s: string)
    requires s != [] && '\n' !in s && '\r' !in s
    ensures Sane(Some(s))
  {
    IndexOfIs(s, '\n', |s|);
    assert Lines(s) == [s];
  }

  lemma SpamLineIsSane(plan: Plan)
    ensures Sane(SpamLine(plan))
  {
    SaneLine(SPAM_FLAG);
  }

  // The header lines with the planned ones behind them.
  function Planned(texts: seq<string>, plan: Plan): seq<string>
    requires Sane(plan.unsubscribe)
  {
    SpamLineIsSane(plan);
    With(With(texts, plan.unsubscribe), SpamLine(plan))
  }

  predicate NoHeaders(plan: Plan) {
    plan.unsubscribe.None? && !plan.spam
  }

  function WithHeaders(m: string, plan: Plan): string {
    HeaderStage(HeaderStage(m, plan.unsubscribe), SpamLine(plan))
  }

  // The planned lines are in the message's own header, and the body is what it was before.
  ghost predicate HeadersIn(p: Parts, before: string, plan: Plan)
    requires Sane(plan.unsubscribe)
  {
    match ReadMessage(before)
    case None => false
    case Some(q1) =>
      match ReadMessage(WithHeaders(before, plan))
      case None => false
      case Some(q3) => Texts(q3.header) == Planned(Texts(p.header), plan) && q3.body == q1.body
  }

  // ---- One header stage ----

  // The message reads as these lines, all with one ending, and this body.
  ghost predicate Reads(m: string, texts: seq<string>, eol: string, body: string) {
    match ReadMessage(m)
    case None => false
    case Some(q) => Uniform(q, eol) && Texts(q.header) == texts && q.body == body
  }

  lemma StageIn(m: string, texts: seq<string>, body: string, headers: Option<string>)
    requires Reads(m, texts, Eol(m), body) && Sane(headers)
    ensures Eol(HeaderStage(m, headers)) == Eol(m)
    ensures Reads(HeaderStage(m, headers), With(texts, headers), Eol(m), body)
  {
    if headers.Some? { InjectionStaysUniform(m, ReadMessage(m).value, headers.value); }
  }

  // The filter looks for CRLF, and the blank line has LF.
  ghost predicate LfHeader(m: string, p: Parts) {
    Eol(m) == "\r\n" && !p.crlf && HeaderStays(p, m)
  }

  lemma StageElsewhere(m: string, p: Parts, headers: Option<string>)
    requires LfHeader(m, p) && Sane(headers)
    ensures LfHeader(HeaderStage(m, headers), p)
  {
    if headers.Some? && HeaderEnd(m).Some? {
      var q := ReadMessage(m).value;
      CutsRightIff(m, q);
      CutsLate(m, q);
      HeaderIsLeftAlone(m, q, headers.value);
      InjectedEol(m, headers.value);
    }
  }

  // ---- All header stages ----

  lemma {:induction false} ConcatMerged(texts: seq<string>, more: seq<string>)
    requires more != []
    ensures |Concat(Wanted(texts, more))| == |Concat(texts)| + |Concat(more)|
  {
    if texts == [] {
    } else if |texts| == 1 {
      assert Wanted(texts, more)[1..] == more[1..];
    } else {
      var rest := texts[1..];
      assert texts[..|texts| - 1] == [texts[0]] + rest[..|rest| - 1];
      assert Wanted(texts, more) == [texts[0]] + Wanted(rest, more);
      assert Wanted(texts, more)[1..] == Wanted(rest, more);
      ConcatMerged(texts[1..], more);
    }
  }

  lemma WithGrows(texts: seq<string>, headers: Option<string>)
    requires Sane(headers)
    ensures |Concat(With(texts, headers))| >= |Concat(texts)|
    ensures headers.Some? ==> |Concat(With(texts, headers))| > |Concat(texts)|
  {
    if headers.Some? {
      var more := Lines(headers.value);
      ConcatMerged(texts, more);
      assert more[0] in more;
    }
  }

  lemma PlannedDiffers(texts: seq<string>, plan: Plan)
    requires Sane(plan.unsubscribe)
    ensures Planned(texts, plan) == texts <==> NoHeaders(plan)
  {
    SpamLineIsSane(plan);
    WithGrows(texts, plan.unsubscribe);
    WithGrows(With(texts, plan.unsubscribe), SpamLine(plan));
  }

  lemma UniformCrlf(m: string, q: Parts)
    requires ReadMessage(m) == Some(q) && Uniform(q, "\r\n")
    ensures Eol(m) == "\r\n"
  {
    WrittenParts(m, q);
    var at := |RawText(q.header)|;
    assert m[at..at + 2] == "\r\n" && MatchAt(m, at, "\r\n");
  }

  // For a message with one line ending whose header is still there: the planned lines are
  // in exactly when there are none or the filter still looks for that ending.
  lemma HeadersInIff(p: Parts, eol: string, before: string, plan: Plan)
    requires IsEol(eol) && Uniform(p, eol) && HeaderStays(p, before) && Sane(plan.unsubscribe)
    ensures HeadersIn(p, before, plan) <==> NoHeaders(plan) || Eol(before) == eol
  {
    var q := ReadMessage(before).value;
    SpamLineIsSane(plan);
    if Eol(before) == eol {
      StageIn(before, Texts(p.header), q.body, plan.unsubscribe);
      StageIn(HeaderStage(before, plan.unsubscribe), With(Texts(p.header), plan.unsubscribe), q.body, SpamLine(plan));
    } else {
      if eol == "\r\n" { UniformCrlf(before, q); }
      PlannedDiffers(Texts(p.header), plan);
      StageElsewhere(before, p, plan.unsubscribe);
      StageElsewhere(HeaderStage(before, plan.unsubscribe), p, SpamLine(plan));
    }
  }

  // ---- Signatures when the header has LF and the filter looks for CRLF ----

  lemma {:induction false} LfAgrees(q: Parts, skip: bool)
    requires ValidLines(q.header) && q.crlf == false && forall k :: 0 <= k < |q.header| ==> !q.header[k].crlf
    ensures var s := WriteMessage(q);
      LinesAgree("\r\n", s, false, skip) <==> !skip && !HasSignature(s) && BodyAgrees("\r\n", q.body, false)
    decreases |q.header|
  {
    if q.header == [] {
      LfBlank(q, skip);
    } else {
      var rest := q.(header := q.header[1..]);
      assert forall k :: 0 <= k < |rest.header| ==> rest.header[k] == q.header[k + 1];
      LfAgrees(rest, skip);
      LfLine(q, rest, WriteMessage(rest), false, skip);
    }
  }

  lemma LfBlank(q: Parts, skip: bool)
    requires q.header == [] && q.crlf == false
    ensures var s := WriteMessage(q);
      LinesAgree("\r\n", s, false, skip) <==> !skip && !HasSignature(s) && BodyAgrees("\r\n", q.body, false)
  {
    assert WriteMessage(q) == "\n" + q.body;
    BlankFirst(q.body, skip);
  }

  lemma BlankFirst(body: string, skip: bool)
    ensures var s := "\n" + body;
      !HasSignature(s) && (LinesAgree("\r\n", s, false, skip) <==> !skip && BodyAgrees("\r\n", body, false))
  {
    RawFirst("\n", body);
  }

  // The first of such header lines.
  lemma LfLine(q: Parts, rest: Parts, tail: string, anew: bool, skip: bool)
    requires q.header != [] && ValidLine(q.header[0]) && !q.header[0].crlf
    requires rest == q.(header := q.header[1..]) && tail == WriteMessage(rest)
    ensures var s, u := WriteMessage(q), q.header[0].text + "\n";
      && (HasSignature(s) <==> IsDkim(u) || HasSignature(tail))
      && (LinesAgree("\r\n", s, anew, skip) <==>
          (anew || SkipAfter(u, skip) == skip) && LinesAgree("\r\n", tail, false, SkipAfter(u, skip)))
      && (SkipAfter(u, false) <==> IsDkim(u))
  {
    var l := q.header[0];
    WriteFirst(q);
    RawOfLine(l);
    LineFirst(l.text + "\n", tail, anew, skip);
    ContinuationIsNotDkim(l.text + "\n");
  }

  lemma LineFirst(u: string, tail: string, anew: bool, skip: bool)
    requires u != [] && u[|u| - 1] == '\n' && '\n' !in u[..|u| - 1] && !IsBlankRaw(u)
    requires |u| >= 2 ==> u[|u| - 2] != '\r'
    ensures var s := u + tail;
      && (HasSignature(s) <==> IsDkim(u) || HasSignature(tail))
      && (LinesAgree("\r\n", s, anew, skip) <==>
          (anew || SkipAfter(u, skip) == skip) && LinesAgree("\r\n", tail, false, SkipAfter(u, skip)))
  {
    RawFirst(u, tail);
    assert !EndsWith(u, "\r\n");
  }

  // For such a message the pass is right exactly when there is no signature to take out and
  // none seems to begin in the body, or the filter finds no separator.
  lemma LfStrippableIff(m: string, q: Parts)
    requires ReadMessage(m) == Some(q) && Uniform(q, "\n") && Eol(m) == "\r\n"
    ensures Strippable(m) <==> !HasSignature(m) && (HeaderEnd(m).None? || BodyAgrees("\r\n", q.body, false))
  {
    WrittenIsRead(m);
    LfMessageAgrees(q);
    NotEndingFirst(m, q);
  }

  lemma LfMessageAgrees(q: Parts)
    requires Uniform(q, "\n") && ValidLines(q.header)
    ensures var s := WriteMessage(q);
      LinesAgree("\r\n", s, true, false) <==> !HasSignature(s) && BodyAgrees("\r\n", q.body, false)
  {
    var rest, u := q.(header := q.header[1..]), q.header[0].text + "\n";
    assert forall k :: 0 <= k < |rest.header| ==> rest.header[k] == q.header[k + 1];
    LfLine(q, rest, WriteMessage(rest), true, false);
    LfAgrees(rest, SkipAfter(u, false));
  }

  lemma NotEndingFirst(m: string, q: Parts)
    requires ReadMessage(m) == Some(q) && Uniform(q, "\n")
    ensures !StartsWith(m, "\r\n")
  {
    WrittenIsRead(m);
    WriteFirst(q);
    NoCrLfFirst(m, q.header[0].text, WriteMessage(q.(header := q.header[1..])));
  }

  lemma NoCrLfFirst(m: string, text: string, tail: string)
    requires m == text + "\n" + tail && text != [] && '\n' !in text && !EndsInCr(text)
    ensures !StartsWith(m, "\r\n")
  {
    assert m[..2][0] == m[0] == text[0] && m[..2][1] == m[1];
    assert |text| > 1 ==> m[1] == text[1];
  }

  // ---- The whole rewriting ----

  // The pixel is an image tag, as the filter makes it.
  predicate ImagePixel(plan: Plan) {
    plan.pixel.Some? ==> StartsWith(plan.pixel.value, "<img ")
  }

  // Footer and pixel are put behind the blank line, if anywhere.
  ghost predicate SplicedInBody(email: string, p: Parts, plan: Plan) {
    && TagInBody(email, p)
    && var m := WithHeaders(FooterStage(email, plan), plan);
       ReadMessage(m).Some? ==> TagInBody(m, ReadMessage(m).value)
  }

  lemma FooterStageStays(email: string, p: Parts, plan: Plan)
    requires ReadMessage(email) == Some(p) && TagInBody(email, p)
    ensures HeaderStays(p, FooterStage(email, plan))
  {
    if FooterStage(email, plan) != email { FooterInBodyIff(email, p, plan.footer); }
  }

  lemma PixelStageStays(m: string, q: Parts, plan: Plan)
    requires ReadMessage(m) == Some(q) && TagInBody(m, q) && ImagePixel(plan)
    ensures HeaderStays(q, PixelStage(m, plan))
  {
    if PixelStage(m, plan) != m { PixelInBodyIff(m, q, plan.pixel.value); }
  }

  // Whatever becomes of the planned lines, the header keeps its one line ending.
  lemma HeadersUniform(p: Parts, eol: string, before: string, plan: Plan)
    requires IsEol(eol) && Uniform(p, eol) && HeaderStays(p, before) && Sane(plan.unsubscribe)
    ensures var m := WithHeaders(before, plan); ReadMessage(m).Some? && Uniform(ReadMessage(m).value, eol)
  {
    var q := ReadMessage(before).value;
    SpamLineIsSane(plan);
    if Eol(before) == eol {
      StageIn(before, Texts(p.header), q.body, plan.unsubscribe);
      StageIn(HeaderStage(before, plan.unsubscribe), With(Texts(p.header), plan.unsubscribe), q.body, SpamLine(plan));
    } else {
      if eol == "\r\n" { UniformCrlf(before, q); }
      StageElsewhere(before, p, plan.unsubscribe);
      StageElsewhere(HeaderStage(before, plan.unsubscribe), p, SpamLine(plan));
    }
  }

  lemma RewrittenUniform(email: string, p: Parts, plan: Plan)
    requires ReadMessage(email) == Some(p) && Uniform(p, Eol(email)) && SplicedInBody(email, p, plan)
    requires Sane(plan.unsubscribe) && ImagePixel(plan)
    ensures ReadMessage(Rewritten(email, plan)).Some?
    ensures Uniform(ReadMessage(Rewritten(email, plan)).value, Eol(email))
  {
    var m := WithHeaders(FooterStage(email, plan), plan);
    FooterStageStays(email, p, plan);
    HeadersUniform(p, Eol(email), FooterStage(email, plan), plan);
    PixelStageStays(m, ReadMessage(m).value, plan);
  }

  // What goes out is the rewritten message without the signature fields of its header, or
  // the message itself if nothing was to change.
  predicate SignaturesOut(email: string, plan: Plan) {
    Rewritten(email, plan) != email ==> Outgoing(email, plan) == Unsigned(Rewritten(email, plan))
  }

  // The filter still looks for the ending of the header, or there is no signature and it
  // takes no line of the body for one.
  ghost predicate PassSees(email: string, plan: Plan) {
    var m := Rewritten(email, plan);
    || Eol(m) == Eol(email)
    || (!HasSignature(m) && (HeaderEnd(m).None? || (ReadMessage(m).Some? && BodyAgrees("\r\n", ReadMessage(m).value.body, false))))
  }

  lemma SignaturesOutIff(email: string, p: Parts, plan: Plan)
    requires ReadMessage(email) == Some(p) && Uniform(p, Eol(email)) && SplicedInBody(email, p, plan)
    requires Sane(plan.unsubscribe) && ImagePixel(plan)
    ensures SignaturesOut(email, plan) <==> PassSees(email, plan)
  {
    var m := Rewritten(email, plan);
    if m != email {
      RewrittenUniform(email, p, plan);
      var q := ReadMessage(m).value;
      OutgoingIsUnsignedIff(email, plan);
      if Eol(m) == Eol(email) {
        UniformGoesOutUnsigned(email, plan, q);
      } else {
        if Eol(email) == "\r\n" { UniformCrlf(m, q); }
        LfStrippableIff(m, q);
      }
    }
  }

  // For every message with one line ending up to its blank line, and every plan that
  // splices into its body: the planned header lines are in and the signatures out exactly
  // when the footer leaves the filter looking for that ending, unless no line is planned;
  // and footer and pixel do, unless there is no signature to take out or to mistake.
  lemma RewritesRightIff(email: string, p: Parts, plan: Plan)
    requires ReadMessage(email) == Some(p) && Uniform(p, Eol(email)) && SplicedInBody(email, p, plan)
    requires Sane(plan.unsubscribe) && ImagePixel(plan)
    ensures HeadersIn(p, FooterStage(email, plan), plan) && SignaturesOut(email, plan)
            <==> (NoHeaders(plan) || Eol(FooterStage(email, plan)) == Eol(email)) && PassSees(email, plan)
  {
    FooterStageStays(email, p, plan);
    HeadersInIff(p, Eol(email), FooterStage(email, plan), plan);
    SignaturesOutIff(email, p, plan);
  }

  // ---- Which footers make the filter look for another ending ----

  // What is put in for the footer.
  function FooterText(email: string, html: string): string {
    if BodyTag(email).Some? then FooterBlock(html) else PlainFooter(html)
  }

  lemma CrLfAt(s: string, j: int)
    ensures MatchAt(s, j, "\r\n") <==> 0 <= j && j + 2 <= |s| && s[j] == '\r' && s[j + 1] == '\n'
  {
    if 0 <= j && j + 2 <= |s| {
      assert s[j..j + 2] == [s[j], s[j + 1]];
    }
  }

  lemma NoCrEol(s: string)
    requires '\r' !in s
    ensures Eol(s) == "\n"
  {
    forall j | 0 <= j
      ensures !MatchAt(s, j, "\r\n")
    {
      CrLfAt(s, j);
    }
  }

  lemma PutInCrlf(a: string, text: string, b: string)
    requires '\r' !in a && '\r' !in b && (text == [] || text[|text| - 1] != '\r')
    ensures Contains(a + (text + b), "\r\n") <==> Contains(text, "\r\n")
  {
    var s := a + (text + b);
    if Contains(text, "\r\n") {
      var i :| 0 <= i && MatchAt(text, i, "\r\n");
      CrLfAt(text, i);
      CrLfAt(s, |a| + i);
    }
    if Contains(s, "\r\n") {
      var j :| 0 <= j && MatchAt(s, j, "\r\n");
      CrLfAt(s, j);
      assert |a| <= j < |a + text|;
      CrLfAt(text, j - |a|);
    }
  }

  // In a message without CR: exactly those whose text holds a CRLF.
  lemma FooterEolIff(email: string, html: string)
    requires '\r' !in email && WithFooter(email, html) != email
    ensures Eol(WithFooter(email, html)) == "\n" <==> !Contains(FooterText(email, html), "\r\n")
  {
    FooterIsPutIn(email, html);
    match BodyTag(email)
    case Some(pos) =>
      BlockEnds(html);
      BlockPutIn(email, pos, FooterBlock(html));
    case None =>
      PlainPutIn(email, PlainFooter(html));
  }

  lemma FooterIsPutIn(email: string, html: string)
    requires WithFooter(email, html) != email
    ensures WithFooter(email, html)
         == match BodyTag(email)
            case Some(pos) => InsertAt(email, pos, FooterBlock(html))
            case None => email + ("\n\n-- \n" + PlainFooter(html))
  {
  }

  lemma BlockPutIn(email: string, pos: nat, block: string)
    requires '\r' !in email && pos <= |email| && block != [] && block[|block| - 1] != '\r'
    ensures Contains(InsertAt(email, pos, block), "\r\n") <==> Contains(block, "\r\n")
  {
    PutInCrlf(email[..pos], block, email[pos..]);
  }

  lemma BlockEnds(html: string)
    ensures var b := FooterBlock(html); b != [] && b[|b| - 1] == '>'
  {
  }

  lemma PlainPutIn(email: string, plain: string)
    requires '\r' !in email && (plain == [] || plain[|plain| - 1] != '\r')
    ensures Contains(email + ("\n\n-- \n" + plain), "\r\n") <==> Contains(plain, "\r\n")
  {
    PutInCrlf(email + "\n\n-- \n", plain, "");
    assert email + ("\n\n-- \n" + plain) == (email + "\n\n-- \n") + (plain + "");
  }

  // So for a message without CR the planned header lines are in exactly when there are none
  // or no footer with a CRLF is put in.
  lemma HeadersInByFooterIff(email: string, p: Parts, plan: Plan)
    requires ReadMessage(email) == Some(p) && Uniform(p, "\n") && '\r' !in email && TagInBody(email, p)
    requires Sane(plan.unsubscribe)
    ensures HeadersIn(p, FooterStage(email, plan), plan)
            <==> NoHeaders(plan) || FooterStage(email, plan) == email || !Contains(FooterText(email, plan.footer), "\r\n")
  {
    var m := FooterStage(email, plan);
    FooterStageStays(email, p, plan);
    HeadersInIff(p, "\n", m, plan);
    assert Eol(m) == "\n" <==> m == email || !Contains(FooterText(email, plan.footer), "\r\n") by {
      if m == email { NoCrEol(email); } else { FooterEolIff(email, plan.footer); }
    }
  }

  // With CRLF it always does.
  lemma CrlfIsRewrittenRight(email: string, p: Parts, plan: Plan)
    requires ReadMessage(email) == Some(p) && Uniform(p, "\r\n") && SplicedInBody(email, p, plan)
    requires Sane(plan.unsubscribe) && ImagePixel(plan)
    ensures HeadersIn(p, FooterStage(email, plan), plan) && SignaturesOut(email, plan)
  {
    UniformCrlf(email, p);
    FooterStageStays(email, p, plan);
    RewrittenUniform(email, p, plan);
    UniformCrlf(FooterStage(email, plan), ReadMessage(FooterStage(email, plan)).value);
    UniformCrlf(Rewritten(email, plan), ReadMessage(Rewritten(email, plan)).value);
    RewritesRightIff(email, p, plan);
  }
}

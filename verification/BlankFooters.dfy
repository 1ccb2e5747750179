// A footer with a blank line in CRLF, in a message without: the filter takes everything up
// to that blank line for the header.
module BlankFooters {
  import opened Text
  import opened DkimStrip
  import opened Rewrite
  import opened Splice
  import opened MessageParts
  import opened Signatures
  import opened MixedRewriting
  import opened Insertions
  import opened WholeRewriting

  const BREAKS: string := "\r\n\r\n"

  // The footer is put in as plain text, and has its first blank line behind a first part.
  ghost predicate BlankFooter(email: string, plan: Plan, first: string, second: string) {
    && '\r' !in email && '<' !in email && !Encoded(email, |email|)
    && PlainFooter(plan.footer) == first + (BREAKS + second)
    && Find(PlainFooter(plan.footer), BREAKS) == Some(|first|)
  }

  // The message, the line in front of the footer, and the first part.
  function Front(email: string, first: string): string {
    email + "\n\n-- \n" + first
  }

  lemma FoundBehindBare(a: string, b: string, n: nat)
    requires '\r' !in a && Find(b, BREAKS) == Some(n)
    ensures Find(a + b, BREAKS) == Some(|a| + n)
  {
    forall j | 0 <= j < |a| + n
      ensures !MatchAt(a + b, j, BREAKS)
    {
      if j >= |a| {
        MatchSplits(a, b, j, BREAKS);
      } else {
        assert j + 4 <= |a + b| ==> (a + b)[j..j + 4][0] == (a + b)[j];
      }
    }
    MatchSplits(a, b, |a| + n, BREAKS);
    FindIs(a + b, BREAKS, |a| + n);
  }

  // What the filter takes for the header and the body of this text.
  ghost predicate SeenAs(m: string, header: string, body: string) {
    && Eol(m) == "\r\n" && HeaderEnd(m) == Some(|header|)
    && m == header + (BREAKS + body) && HeaderSection(m) == header && BodySection(m) == body
  }

  lemma SeenFrom(m: string, header: string, body: string)
    requires m == header + (BREAKS + body) && Find(m, BREAKS) == Some(|header|)
    ensures SeenAs(m, header, body)
  {
    assert "\r\n" + "\r\n" == BREAKS;
    assert m[|header|..|header| + 2] == "\r\n";
    assert MatchAt(m, |header|, "\r\n");
    assert m[..|header|] == header && m[|header| + 4..] == body;
  }

  lemma FooterIsSeen(email: string, plan: Plan, first: string, second: string)
    requires BlankFooter(email, plan, first, second)
    ensures SeenAs(FooterStage(email, plan), Front(email, first), second)
  {
    var plain := first + (BREAKS + second);
    FooterPutIn(email, plan, plain);
    PlainIsSeen(email, first, second, plain, FooterStage(email, plan));
  }

  lemma PlainIsSeen(email: string, first: string, second: string, plain: string, m: string)
    requires '\r' !in email && plain == first + (BREAKS + second) && Find(plain, BREAKS) == Some(|first|)
    requires m == email + ("\n\n-- \n" + plain)
    ensures SeenAs(m, Front(email, first), second)
  {
    var lead := email + "\n\n-- \n";
    FoundBehindBare(lead, plain, |first|);
    assert m == lead + plain && m == (lead + first) + (BREAKS + second);
    SeenFrom(m, Front(email, first), second);
  }

  lemma EmptyHasNoText()
    ensures PlainFooter("") == ""
  {
  }

  lemma FooterPutIn(email: string, plan: Plan, plain: string)
    requires '<' !in email && !Encoded(email, |email|) && PlainFooter(plan.footer) == plain != ""
    ensures FooterStage(email, plan) == email + ("\n\n-- \n" + plain)
  {
    EmptyHasNoText();
    FooterBehind(email, plan.footer);
  }

  // ---- Where the planned header lines go ----

  function HeaderText(headers: Option<string>): string {
    if headers.None? then "" else Join(Lines(headers.value), "\r\n")
  }

  lemma StageIsSeen(m: string, header: string, body: string, headers: Option<string>)
    requires SeenAs(m, header, body) && Sane(headers)
    ensures SeenAs(HeaderStage(m, headers), header + HeaderText(headers), body)
    ensures Split(header + HeaderText(headers), "\r\n") == With(Split(header, "\r\n"), headers)
  {
    if headers.None? {
      assert header + "" == header;
    } else {
      InjectedHeader(m, headers.value);
      InjectedIsSeen(Injected(m, headers.value), header, body, Lines(headers.value));
    }
  }

  lemma InjectedIsSeen(out: string, header: string, body: string, more: seq<string>)
    requires Eol(out) == "\r\n" && HeaderEnd(out).Some? && BodySection(out) == body && more != []
    requires Split(HeaderSection(out), "\r\n") == Merged(Split(header, "\r\n"), more)
    ensures SeenAs(out, header + Join(more, "\r\n"), body)
    ensures Split(header + Join(more, "\r\n"), "\r\n") == Merged(Split(header, "\r\n"), more)
  {
    var all := header + Join(more, "\r\n");
    assert HeaderSection(out) == all by {
      JoinSplit(header, "\r\n");
      JoinSplit(HeaderSection(out), "\r\n");
      JoinTwo(Split(header, "\r\n"), more, "\r\n");
    }
    EmailParts(out);
    assert Sep(out) == BREAKS;
  }

  // The header of the message is what it was; the planned lines follow the first part of
  // the footer, in the body.
  lemma HeadersGoToTheFooter(email: string, p: Parts, plan: Plan, first: string, second: string)
    requires ReadMessage(email) == Some(p) && BlankFooter(email, plan, first, second) && Sane(plan.unsubscribe)
    ensures var m := WithHeaders(FooterStage(email, plan), plan);
      && HeaderStays(p, m)
      && m == Front(email, first) + HeaderText(plan.unsubscribe) + HeaderText(SpamLine(plan)) + (BREAKS + second)
  {
    var m1 := FooterStage(email, plan);
    var m2 := HeaderStage(m1, plan.unsubscribe);
    var front := Front(email, first);
    FooterIsSeen(email, plan, first, second);
    SpamLineIsSane(plan);
    StageIsSeen(m1, front, second, plan.unsubscribe);
    StageIsSeen(m2, front + HeaderText(plan.unsubscribe), second, SpamLine(plan));
    BareBlank(email, p);
    FooterPutIn(email, plan, first + (BREAKS + second));
    AppendedStays(email, p, first + (BREAKS + second));
    StageElsewhere(m1, p, plan.unsubscribe);
    StageElsewhere(m2, p, SpamLine(plan));
  }

  lemma BareBlank(email: string, p: Parts)
    requires ReadMessage(email) == Some(p) && '\r' !in email
    ensures !p.crlf
  {
    WrittenParts(email, p);
    assert email[|RawText(p.header)|] == Break(p.crlf)[0] && Break(true)[0] == '\r';
  }

  // ---- What is left of the message ----

  // The stripping pass on a text it sees like this.
  lemma StrippedSeen(m: string, header: string, body: string, lines: seq<string>)
    requires SeenAs(m, header, body) && Split(header, "\r\n") == lines
    ensures Stripped(m) == Render(StripLines(lines, false), "\r\n") + "\r\n" + body
  {
    StrippedAt(m, |header|);
    LoopKeeps(lines);
  }

  lemma DkimBefore(email: string, tail: string)
    requires '\n' in email
    ensures IsDkim(email + tail) <==> IsDkim(email)
  {
    var k :| 0 <= k < |email| && email[k] == '\n';
    if |email| >= 15 {
      assert (email + tail)[..15] == email[..15];
    } else if |email + tail| >= 15 {
      assert Lower((email + tail)[..15])[k] == '\n';
      assert "dkim-signature:"[k] != '\n';
    }
  }

  // The first piece, kept or left out.
  lemma FirstGoesIff(lines: seq<string>)
    requires lines != [] && lines[0] != []
    ensures var goes := IsDkim(lines[0]);
      Render(StripLines(lines, false), "\r\n")
      == (if goes then [] else lines[0] + "\r\n") + Render(StripLines(lines[1..], goes), "\r\n")
  {
    ContinuationIsNotDkim(lines[0]);
    StripFirst(lines[0], lines[1..], false, "\r\n");
    assert [lines[0]] + lines[1..] == lines;
  }

  lemma PlannedFirst(piece: string, plan: Plan)
    requires Sane(plan.unsubscribe)
    ensures var lines := Planned([piece], plan); lines != [] && |lines[0]| >= |piece| && lines[0][..|piece|] == piece
    ensures NoHeaders(plan) ==> Planned([piece], plan) == [piece]
  {
    SpamLineIsSane(plan);
    WithFirst([piece], piece, plan.unsubscribe);
    WithFirst(With([piece], plan.unsubscribe), piece, SpamLine(plan));
  }

  lemma WithFirst(texts: seq<string>, piece: string, headers: Option<string>)
    requires Sane(headers) && texts != [] && |texts[0]| >= |piece| && texts[0][..|piece|] == piece
    ensures var lines := With(texts, headers); lines != [] && |lines[0]| >= |piece| && lines[0][..|piece|] == piece
  {
    if headers.Some? {
      var more := Lines(headers.value);
      assert Merged(texts, more)[0] == if |texts| == 1 then texts[0] + more[0] else texts[0];
    }
  }

  // What goes out when the first part of the footer is one line and no pixel is put in. The
  // message and that line are one piece to the filter: it goes as a whole if the message
  // begins with a signature, and else stays as a whole, with every signature in it.
  lemma BlankFooterOutgoing(email: string, p: Parts, plan: Plan, first: string, second: string)
    requires ReadMessage(email) == Some(p)
    requires BlankFooter(email, plan, first, second) && '\r' !in first && Sane(plan.unsubscribe)
    requires plan.pixel.None? || BodyTag(WithHeaders(FooterStage(email, plan), plan)).None?
    ensures var lines, goes := Planned([Front(email, first)], plan), IsDkim(email);
      && lines != [] && |lines[0]| >= |email| && lines[0][..|email|] == email
      && Outgoing(email, plan)
         == (if goes then [] else lines[0] + "\r\n") + Render(StripLines(lines[1..], goes), "\r\n") + "\r\n" + second
  {
    var front, lines := Front(email, first), Planned([Front(email, first)], plan);
    var m := WithHeaders(FooterStage(email, plan), plan);
    PlannedFirst(front, plan);
    FrontOfFront(email, front, lines[0]);
    var header := SeenAtLast(email, plan, first, second);
    StrippedBegins(email, p, m, header, second, lines);
    IsLonger(email, p, plan, first, second);
    OutgoingWithoutPixel(email, plan, m);
  }

  lemma FrontOfFront(a: string, b: string, c: string)
    requires |a| <= |b| <= |c| && b[..|a|] == a && c[..|b|] == b
    ensures c[..|a|] == a
  {
  }

  lemma OutgoingWithoutPixel(email: string, plan: Plan, m: string)
    requires m == WithHeaders(FooterStage(email, plan), plan) && |m| > |email|
    requires plan.pixel.None? || BodyTag(m).None?
    ensures Outgoing(email, plan) == Stripped(m)
  {
  }

  lemma StrippedBegins(email: string, p: Parts, m: string, header: string, body: string, lines: seq<string>)
    requires ReadMessage(email) == Some(p) && SeenAs(m, header, body) && Split(header, "\r\n") == lines
    requires lines != [] && |lines[0]| >= |email| && lines[0][..|email|] == email
    ensures var goes := IsDkim(email);
      Stripped(m)
      == (if goes then [] else lines[0] + "\r\n") + Render(StripLines(lines[1..], goes), "\r\n") + "\r\n" + body
  {
    StrippedSeen(m, header, body, lines);
    BeginsLike(email, p, lines[0]);
    FirstGoesIff(lines);
  }

  lemma SeenAtLast(email: string, plan: Plan, first: string, second: string) returns (header: string)
    requires BlankFooter(email, plan, first, second) && '\r' !in first && Sane(plan.unsubscribe)
    ensures SeenAs(WithHeaders(FooterStage(email, plan), plan), header, second)
    ensures Split(header, "\r\n") == Planned([Front(email, first)], plan)
  {
    var m1, front := FooterStage(email, plan), Front(email, first);
    FooterIsSeen(email, plan, first, second);
    SpamLineIsSane(plan);
    StageIsSeen(m1, front, second, plan.unsubscribe);
    var more := front + HeaderText(plan.unsubscribe);
    StageIsSeen(HeaderStage(m1, plan.unsubscribe), more, second, SpamLine(plan));
    header := more + HeaderText(SpamLine(plan));
    OnePiece(front);
  }

  lemma OnePiece(front: string)
    requires '\r' !in front
    ensures Split(front, "\r\n") == [front]
  {
    NoCrIsFree(front);
    SplitOne(front, "\r\n");
  }

  // The first piece begins as the message does.
  lemma BeginsLike(email: string, p: Parts, line: string)
    requires ReadMessage(email) == Some(p)
    requires |line| >= |email| && line[..|email|] == email
    ensures line != [] && (IsDkim(line) <==> IsDkim(email))
  {
    WrittenParts(email, p);
    LineFeedInside(email, p);
    DkimBefore(email, line[|email|..]);
    assert line == email + line[|email|..];
  }

  lemma LineFeedInside(email: string, p: Parts)
    requires ReadMessage(email) == Some(p)
    ensures '\n' in email
  {
    WrittenParts(email, p);
    var b := Break(p.crlf);
    assert email[|RawText(p.header)| + |b| - 1] == b[|b| - 1] == '\n';
  }

  lemma IsLonger(email: string, p: Parts, plan: Plan, first: string, second: string)
    requires ReadMessage(email) == Some(p) && BlankFooter(email, plan, first, second) && Sane(plan.unsubscribe)
    ensures |WithHeaders(FooterStage(email, plan), plan)| > |email|
  {
    HeadersGoToTheFooter(email, p, plan, first, second);
  }

  // A message that begins with a signature is lost: with no header lines planned, only what
  // follows the blank line of the footer goes out.
  lemma MessageIsLost(email: string, p: Parts, plan: Plan, first: string, second: string)
    requires ReadMessage(email) == Some(p) && IsDkim(email)
    requires BlankFooter(email, plan, first, second) && '\r' !in first && NoHeaders(plan)
    ensures Outgoing(email, plan) == "\r\n" + second
  {
    var lines := Planned([Front(email, first)], plan);
    PlannedFirst(Front(email, first), plan);
    assert lines[1..] == [];
    NoTagInFooter(email, plan, first, second);
    BlankFooterOutgoing(email, p, plan, first, second);
    NothingRendered(second);
  }

  lemma NothingRendered(body: string)
    ensures [] + Render(StripLines([], true), "\r\n") + "\r\n" + body == "\r\n" + body
  {
  }

  lemma {:induction false} UntaggedHasNone(s: string, inTag: bool)
    ensures '<' !in Untagged(s, inTag)
  {
    if s != [] {
      UntaggedHasNone(s[1..], false);
      UntaggedHasNone(s[1..], true);
    }
  }

  lemma TrimKeepsOut(s: string, c: char)
    requires c !in s
    ensures c !in Trim(s)
  {
    var t := TrimStart(s);
    assert t == s[|s| - |t|..] && Trim(s) == t[..|Trim(s)|];
  }

  lemma NoTagInFooter(email: string, plan: Plan, first: string, second: string)
    requires BlankFooter(email, plan, first, second) && NoHeaders(plan)
    ensures BodyTag(WithHeaders(FooterStage(email, plan), plan)).None?
  {
    var plain := PlainFooter(plan.footer);
    UntaggedHasNone(plan.footer, false);
    TrimKeepsOut(Untagged(plan.footer, false), '<');
    FooterPutIn(email, plan, plain);
    NoTagNoBody(email + ("\n\n-- \n" + plain));
  }

  // Such a footer: two lines of plain text with a blank one between them, as a form sends
  // them.
  lemma TwoParagraphs(email: string, plan: Plan, first: string, second: string)
    requires '\r' !in email && '<' !in email && !Encoded(email, |email|)
    requires PlainText(first) && PlainText(second) && plan.footer == first + (BREAKS + second)
    requires first != [] && !IsSpace(first[0]) && second != [] && !IsSpace(second[|second| - 1])
    ensures BlankFooter(email, plan, first, second)
  {
    var f := first + (BREAKS + second);
    assert forall i :: 0 <= i < |BREAKS| ==> BREAKS[i] != '<' && BREAKS[i] != '>';
    UntaggedIsItself(f);
    TrimId(f);
    FoundAtOnce(first, second);
  }

  lemma FoundAtOnce(first: string, second: string)
    requires '\r' !in first
    ensures Find(first + (BREAKS + second), BREAKS) == Some(|first|)
  {
    var b := BREAKS + second;
    assert b[0..4] == BREAKS && MatchAt(b, 0, BREAKS);
    FindIs(b, BREAKS, 0);
    FoundBehindBare(first, b, 0);
  }
}

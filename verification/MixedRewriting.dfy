// The whole rewriting of a message against its own header: which stages keep it
// readable to the next one, and a footer that switches the rest off.
module MixedRewriting {
  import opened Text
  import opened DkimStrip
  import opened Rewrite
  import opened Splice
  import opened MessageParts
  import opened MixedEndings
  import opened Signatures
  import opened SignatureLines
  import opened Insertions

  // ---- Stage by stage ----

  // After a change of the body the filter still finds the header lines exactly when it
  // still looks for the same ending.
  lemma BodyChangeIff(m: string, p: Parts, m': string, q: Parts)
    requires ReadMessage(m) == Some(p) && ReadMessage(m') == Some(q) && q.header == p.header && q.crlf == p.crlf
    requires Uniform(p, Eol(m))
    ensures ReadsRight(m', q) <==> Eol(m') == Eol(m)
  {
    ReadsRightIff(m', q);
  }

  // Injected header lines leave a uniform message uniform.
  lemma InjectionStaysUniform(m: string, p: Parts, headers: string)
    requires ReadMessage(m) == Some(p) && Uniform(p, Eol(m)) && headers != [] && PlainLines(Lines(headers))
    ensures Eol(Injected(m, headers)) == Eol(m)
    ensures match ReadMessage(Injected(m, headers))
            case None => false
            case Some(q) => Uniform(q, Eol(m)) && q.body == p.body && Texts(q.header) == Merged(Texts(p.header), Lines(headers))
  {
    CutsRightIff(m, p);
    InjectedEol(m, headers);
    InjectedParts(m, p, headers);
    WrittenParts(m, p);
    ExtendedTexts(p.header, Lines(headers), p.crlf);
    ExtendedUniform(p, Lines(headers), Eol(m));
  }

  lemma InjectedParts(m: string, p: Parts, headers: string)
    requires ReadMessage(m) == Some(p) && CutsRight(m, p) && EndsAlike(p, Eol(m))
    requires headers != [] && PlainLines(Lines(headers))
    ensures ReadMessage(Injected(m, headers)) == Some(Parts(Extended(p.header, Lines(headers), p.crlf), p.crlf, p.body))
  {
    var more, n := Lines(headers), |p.header| - 1;
    WrittenParts(m, p);
    ExtendedFacts(p, more, p.crlf);
    HeaderFront(m, p);
    InjectedIs(m, headers, RawText(p.header[..n]) + p.header[n].text, p.body);
    ReadParts(Extended(p.header, more, p.crlf), p.crlf, p.body, Injected(m, headers));
  }

  lemma ExtendedUniform(p: Parts, more: seq<string>, eol: string)
    requires Uniform(p, eol) && more != []
    ensures Uniform(p.(header := Extended(p.header, more, p.crlf)), eol)
  {
    var h, n := Extended(p.header, more, p.crlf), |p.header| - 1;
    forall k | 0 <= k < |h|
      ensures Break(h[k].crlf) == eol
    {
      if k < n { assert h[k] == p.header[k]; }
    }
  }

  // A changed message goes out without the signature fields of its header, and otherwise
  // as rewritten, exactly when its lines let the pass see them.
  lemma OutgoingIsUnsignedIff(email: string, plan: Plan)
    requires Rewritten(email, plan) != email
    ensures var m := Rewritten(email, plan);
      Outgoing(email, plan) == Unsigned(m) <==> Strippable(m)
  {
    StripsRightIff(Rewritten(email, plan));
  }

  lemma UniformGoesOutUnsigned(email: string, plan: Plan, q: Parts)
    requires Rewritten(email, plan) != email
    requires var m := Rewritten(email, plan); ReadMessage(m) == Some(q) && Uniform(q, Eol(m))
    ensures Outgoing(email, plan) == Unsigned(Rewritten(email, plan))
  {
    UniformStripsRight(Rewritten(email, plan), q);
  }

  // ---- A footer with CRLF in a message without ----

  lemma NoTagNoBody(m: string)
    requires '<' !in m
    ensures BodyTag(m).None? && !LooksLikeHtml(m)
  {
    var low := Lower(m);
    assert forall i :: 0 <= i < |low| ==> low[i] != '<';
    NoMatchWithout(low, CLOSE_BODY, '<');
    NoMatchWithout(low, "<html", '<');
  }

  lemma NoMatchWithout(s: string, pat: string, c: char)
    requires c !in s && pat != [] && pat[0] == c
    ensures !Contains(s, pat) && RFind(s, pat).None?
  {
    forall j | 0 <= j
      ensures !MatchAt(s, j, pat)
    {
      if j + |pat| <= |s| { assert s[j..j + |pat|][0] == s[j]; }
    }
  }

  // Without a blank line in the ending it looks for, the filter neither injects header
  // lines nor strips.
  lemma NothingMore(email: string, plan: Plan, m: string)
    requires m == FooterStage(email, plan) && HeaderEnd(m).None? && '<' !in m
    ensures Rewritten(email, plan) == m && Stripped(m) == m
  {
    NoTagNoBody(m);
  }

  lemma FooterBehind(email: string, html: string)
    requires '<' !in email && !Encoded(email, |email|) && PlainFooter(html) != ""
    ensures WithFooter(email, html) == email + ("\n\n-- \n" + PlainFooter(html))
  {
    NoTagNoBody(email);
    if IsBlank(html) { BlankHasNoText(html); }
  }

  lemma {:induction false} UntaggedSpaces(s: string, inTag: bool)
    requires forall i :: 0 <= i < |s| ==> IsSpace(s[i])
    ensures forall i :: 0 <= i < |Untagged(s, inTag)| ==> IsSpace(Untagged(s, inTag)[i])
  {
    if s != [] { UntaggedSpaces(s[1..], inTag); }
  }

  lemma OnlySpaces(s: string)
    ensures Trim(s) == "" <==> forall i :: 0 <= i < |s| ==> IsSpace(s[i])
  {
    var t := TrimStart(s);
    if t != [] {
      assert t[0] == s[|s| - |t|];
      assert !IsSpace(t[0]);
    }
  }

  lemma BlankHasNoText(html: string)
    requires IsBlank(html)
    ensures PlainFooter(html) == ""
  {
    OnlySpaces(html);
    UntaggedSpaces(html, false);
    OnlySpaces(Untagged(html, false));
  }

  lemma NoCrNoPair(a: string, b: string)
    requires '\r' !in a && Contains(b, "\r\n") && !Contains(b, "\r\n\r\n")
    ensures Contains(a + b, "\r\n") && !Contains(a + b, "\r\n\r\n")
  {
    var i := Find(b, "\r\n").value;
    assert (a + b)[|a| + i..|a| + i + 2] == b[i..i + 2];
    assert MatchAt(a + b, |a| + i, "\r\n");
    forall j | 0 <= j
      ensures !MatchAt(a + b, j, "\r\n\r\n")
    {
      if j + 4 <= |a + b| {
        assert (a + b)[j..j + 4][0] == (a + b)[j];
        if j >= |a| { assert (a + b)[j..j + 4] == b[j - |a|..j - |a| + 4] && !MatchAt(b, j - |a|, "\r\n\r\n"); }
      }
    }
  }

  // A message without CRLF that gets a plain-text footer with one goes out with nothing
  // but the footer: no header line is injected and no signature removed, whatever the
  // plan says.
  lemma CrlfFooterTurnsOff(email: string, p: Parts, plan: Plan)
    requires ReadMessage(email) == Some(p)
    requires '\r' !in email && '<' !in email && !Encoded(email, |email|)
    requires var plain := PlainFooter(plan.footer);
      '<' !in plain && Contains(plain, "\r\n") && !Contains(plain, "\r\n\r\n")
    ensures var out := Outgoing(email, plan);
      && out == email + ("\n\n-- \n" + PlainFooter(plan.footer)) && out != email
      && ReadMessage(out).Some? && ReadMessage(out).value.header == p.header
  {
    var plain := PlainFooter(plan.footer);
    OnlyTheFooter(email, plan);
    BehindAll(email, p, "\n\n-- \n" + plain);
  }

  lemma OnlyTheFooter(email: string, plan: Plan)
    requires '\r' !in email && '<' !in email && !Encoded(email, |email|)
    requires var plain := PlainFooter(plan.footer);
      '<' !in plain && Contains(plain, "\r\n") && !Contains(plain, "\r\n\r\n")
    ensures Outgoing(email, plan) == email + ("\n\n-- \n" + PlainFooter(plan.footer))
  {
    var plain := PlainFooter(plan.footer);
    FooterHasText(plan);
    FooterBehind(email, plan.footer);
    PlainTurnsOff(email, plain);
    GoesOutAs(email, plan, email + ("\n\n-- \n" + plain));
  }

  lemma PlainTurnsOff(email: string, plain: string)
    requires '\r' !in email && '<' !in email && '<' !in plain
    requires Contains(plain, "\r\n") && !Contains(plain, "\r\n\r\n")
    ensures var m := email + ("\n\n-- \n" + plain); HeaderEnd(m).None? && '<' !in m
  {
    Assoc(email, "\n\n-- \n", plain);
    NoCrNoPair(email + "\n\n-- \n", plain);
    NoSepIsKept(email + ("\n\n-- \n" + plain));
  }

  lemma GoesOutAs(email: string, plan: Plan, m: string)
    requires m == FooterStage(email, plan) && HeaderEnd(m).None? && '<' !in m && |m| > |email|
    ensures Outgoing(email, plan) == m
  {
    NothingMore(email, plan, m);
  }

  lemma FooterHasText(plan: Plan)
    requires Contains(PlainFooter(plan.footer), "\r\n")
    ensures PlainFooter(plan.footer) != "" && plan.footer != ""
  {
  }

  lemma BehindAll(m: string, p: Parts, text: string)
    requires ReadMessage(m) == Some(p)
    ensures ReadMessage(m + text).Some? && ReadMessage(m + text).value.header == p.header
  {
    WrittenParts(m, p);
    BehindStays(m, p, |m|, text);
    AtTheEnd(m, text);
  }

  lemma {:induction false} UntaggedIsItself(s: string)
    requires '<' !in s && '>' !in s
    ensures Untagged(s, false) == s
  {
    if s != [] {
      UntaggedIsItself(s[1..]);
      assert s == [s[0]] + s[1..];
    }
  }

  predicate PlainText(s: string) {
    '<' !in s && '>' !in s && '\r' !in s
  }

  // Such a footer: two lines of plain text, as a form sends them.
  lemma TwoLineFooter(email: string, p: Parts, plan: Plan, first: string, second: string)
    requires ReadMessage(email) == Some(p) && plan.footer == first + "\r\n" + second
    requires '\r' !in email && '<' !in email && !Encoded(email, |email|)
    requires PlainText(first) && PlainText(second)
    requires first != [] && !IsSpace(first[0]) && second != [] && !IsSpace(second[|second| - 1])
    ensures Outgoing(email, plan) == email + ("\n\n-- \n" + plan.footer) != email
    ensures ReadMessage(Outgoing(email, plan)).Some?
    ensures ReadMessage(Outgoing(email, plan)).value.header == p.header
  {
    TwoLineText(first, second);
    CrlfFooterTurnsOff(email, p, plan);
  }

  lemma TwoLineText(first: string, second: string)
    requires PlainText(first) && PlainText(second)
    requires first != [] && !IsSpace(first[0]) && second != [] && !IsSpace(second[|second| - 1])
    ensures var f := first + "\r\n" + second;
      PlainFooter(f) == f && '<' !in f && Contains(f, "\r\n") && !Contains(f, "\r\n\r\n")
  {
    var f := first + "\r\n" + second;
    UntaggedIsItself(f);
    TrimId(f);
    TwoLines(first, second);
  }

  lemma TwoLines(a: string, b: string)
    requires '\r' !in a && '\r' !in b
    ensures var s := a + "\r\n" + b; Contains(s, "\r\n") && !Contains(s, "\r\n\r\n")
  {
    var s := a + "\r\n" + b;
    assert s[|a|..|a| + 2] == "\r\n" && MatchAt(s, |a|, "\r\n");
    forall j | 0 <= j
      ensures !MatchAt(s, j, "\r\n\r\n")
    {
      if j + 4 <= |s| { assert s[j..j + 4][0] == s[j] && s[j..j + 4][2] == s[j + 2]; }
    }
  }
}

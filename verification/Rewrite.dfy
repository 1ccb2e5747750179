// How the content filter changes a message before handing it back: footer, extra
// header lines and tracking pixel.
module Rewrite {
  import opened Text
  import opened DkimStrip

  // ---- Subsequences ----

  // a can be had from b by deleting characters.
  ghost predicate Sub(a: string, b: string) {
    a == [] || (b != [] && ((a[0] == b[0] && Sub(a[1..], b[1..])) || Sub(a, b[1..])))
  }

  lemma {:induction false} SubSelf(a: string)
    ensures Sub(a, a)
  {
    if a != [] { SubSelf(a[1..]); }
  }

  lemma {:induction false} SubMore(a: string, x: string, b: string)
    requires Sub(a, b)
    ensures Sub(a, x + b)
  {
    if x == [] {
      assert x + b == b;
    } else {
      assert (x + b)[1..] == x[1..] + b;
      SubMore(a, x[1..], b);
    }
  }

  lemma {:induction false} SubUnder(p: string, a: string, b: string)
    requires Sub(a, b)
    ensures Sub(p + a, p + b)
  {
    if p == [] {
      assert p + a == a && p + b == b;
    } else {
      assert (p + a)[1..] == p[1..] + a && (p + b)[1..] == p[1..] + b;
      SubUnder(p[1..], a, b);
    }
  }

  // Inserting text anywhere keeps the original as a subsequence.
  lemma SubInsert(p: string, x: string, a: string)
    ensures Sub(p + a, p + (x + a))
  {
    SubSelf(a);
    SubMore(a, x, a);
    SubUnder(p, a, x + a);
  }

  lemma {:induction false} SubTrans(a: string, b: string, c: string)
    requires Sub(a, b) && Sub(b, c)
    ensures Sub(a, c)
    decreases |b| + |c|
  {
    if a != [] {
      if b[0] == c[0] && Sub(b[1..], c[1..]) {
        if a[0] == b[0] && Sub(a[1..], b[1..]) {
          SubTrans(a[1..], b[1..], c[1..]);
        } else {
          SubTrans(a, b[1..], c[1..]);
        }
      } else {
        SubTrans(a, b, c[1..]);
      }
    }
  }

  lemma {:induction false} SubLength(a: string, b: string)
    requires Sub(a, b)
    ensures |a| <= |b|
    decreases |b|
  {
    if a != [] {
      if a[0] == b[0] && Sub(a[1..], b[1..]) { SubLength(a[1..], b[1..]); } else { SubLength(a, b[1..]); }
    }
  }

  // ---- Extra header lines ----

  // The new lines follow the header section directly, without a line ending between.
  function Injected(email: string, headers: string): string {
    if HeaderEnd(email).None? then email
    else HeaderSection(email) + Render(Lines(headers), Eol(email)) + Eol(email) + BodySection(email)
  }

  method InjectHeaders(email: string, headers: string) returns (result: string)
    ensures result == Injected(email, headers)
  {
    var eol := if Contains(email, "\r\n") then "\r\n" else "\n";
    var sep := eol + eol;
    var pos := Find(email, sep);
    if pos.None? {
      return email;
    }
    result := AppendLines(email[..pos.value], Lines(headers), eol);
    result := result + eol;
    result := result + email[pos.value + |sep|..];
  }

  method AppendLines(start: string, lines: seq<string>, eol: string) returns (result: string)
    ensures result == start + Render(lines, eol)
  {
    result := start;
    assert start + Render(lines[0..], eol) == start + Render(lines, eol) by { assert lines[0..] == lines; }
    for i := 0 to |lines|
      invariant result + Render(lines[i..], eol) == start + Render(lines, eol)
    {
      ghost var before := result;
      assert lines[i..][0] == lines[i] && lines[i..][1..] == lines[i + 1..];
      result := result + lines[i];
      result := result + eol;
      assert result + Render(lines[i + 1..], eol) == before + (lines[i] + eol + Render(lines[i + 1..], eol));
    }
  }

  lemma CutAt(s: string, pos: nat, sep: string)
    requires MatchAt(s, pos, sep)
    ensures s == s[..pos] + (sep + s[pos + |sep|..])
  {
    assert s[pos..] == s[pos..pos + |sep|] + s[pos + |sep|..];
  }

  lemma EmailParts(email: string)
    requires HeaderEnd(email).Some?
    ensures email == HeaderSection(email) + (Sep(email) + BodySection(email))
  {
    CutAt(email, HeaderEnd(email).value, Sep(email));
  }

  lemma LinesOnlyInsert(header: string, lines: seq<string>, eol: string, body: string)
    requires lines != []
    ensures Sub(header + (eol + (eol + body)), header + Render(lines, eol) + eol + body)
  {
    RenderIsJoin(lines, eol);
    SubInsert(header, Join(lines, eol), eol + (eol + body));
    var j := Join(lines, eol);
    assert header + (j + eol) + eol + body == header + (j + (eol + (eol + body)));
  }

  lemma NoLinesShorten(header: string, eol: string, body: string)
    requires eol != []
    ensures !Sub(header + (eol + (eol + body)), header + Render([], eol) + eol + body)
  {
    var a, b := header + (eol + (eol + body)), header + Render([], eol) + eol + body;
    assert |b| < |a|;
    if Sub(a, b) { SubLength(a, b); }
  }

  // The original is a subsequence of the result exactly when there is a line to add,
  // or nowhere to add it.
  lemma InjectionOnlyInsertsIff(email: string, headers: string)
    ensures Sub(email, Injected(email, headers)) <==> HeaderEnd(email).None? || headers != []
  {
    if HeaderEnd(email).None? {
      SubSelf(email);
    } else {
      EmailParts(email);
      InsertedIff(HeaderSection(email), Lines(headers), Eol(email), BodySection(email));
    }
  }

  lemma InsertedIff(header: string, lines: seq<string>, eol: string, body: string)
    requires eol != []
    ensures Sub(header + ((eol + eol) + body), header + Render(lines, eol) + eol + body) <==> lines != []
  {
    assert (eol + eol) + body == eol + (eol + body);
    if lines == [] {
      NoLinesShorten(header, eol, body);
    } else {
      LinesOnlyInsert(header, lines, eol, body);
    }
  }

  // ---- What the header section becomes ----

  // Lines with some text and no line-ending character.
  predicate PlainLines(ls: seq<string>) {
    forall l :: l in ls ==> l != [] && '\r' !in l && '\n' !in l
  }

  // The first new line runs on from the last old one.
  function Merged(lines: seq<string>, more: seq<string>): seq<string>
    requires lines != [] && more != []
  {
    lines[..|lines| - 1] + [lines[|lines| - 1] + more[0]] + more[1..]
  }

  // Behind the first line the separator is where it was, and no blank line starts there.
  lemma SepInRest(line: string, eol: string, tail: string, n: nat)
    requires IsEol(eol) && EolFree(line, eol)
    requires Find(line + eol + tail, eol + eol) == Some(|line| + |eol| + n)
    ensures Find(tail, eol + eol) == Some(n) && !MatchAt(tail, 0, eol)
  {
    var s, k := line + eol + tail, |line| + |eol|;
    SepAfterFirst(line, eol, tail);
    forall j | 0 <= j < n
      ensures !MatchAt(tail, j, eol + eol)
    {
      assert !MatchAt(s, k + j, eol + eol);
    }
    assert MatchAt(s, k + n, eol + eol) <==> MatchAt(tail, n, eol + eol);
    FindIs(tail, eol + eol, n);
  }

  ghost predicate NoBlankLater(lines: seq<string>) {
    forall i :: 1 <= i < |lines| ==> lines[i] != []
  }

  lemma BlankLater(line: string, lines: seq<string>)
    requires lines != [] && lines[0] != [] && NoBlankLater(lines)
    ensures NoBlankLater([line] + lines)
  {
    forall i | 1 <= i < |lines| + 1
      ensures ([line] + lines)[i] != []
    {
      assert ([line] + lines)[i] == lines[i - 1];
    }
  }

  lemma {:induction false} NoBlankInside(header: string, eol: string, body: string)
    requires IsEol(eol) && Find(header + (eol + eol + body), eol + eol) == Some(|header|)
    ensures NoBlankLater(Split(header, eol))
    decreases |header|
  {
    if Find(header, eol).Some? {
      var i := Find(header, eol).value;
      var line, rest := header[..i], header[i + |eol|..];
      CutAt(header, i, eol);
      PieceIsFree(header, eol, i);
      RestHasSep(line, rest, eol, body);
      NoBlankInside(rest, eol, body);
      BlankLater(line, Split(rest, eol));
    }
  }

  // What follows the first line ending begins with a line that is not blank.
  lemma RestHasSep(line: string, rest: string, eol: string, body: string)
    requires IsEol(eol) && EolFree(line, eol)
    requires var header := line + (eol + rest);
      Find(header + (eol + eol + body), eol + eol) == Some(|header|)
    ensures Find(rest + (eol + eol + body), eol + eol) == Some(|rest|)
    ensures Split(rest, eol)[0] != []
  {
    var tail := rest + (eol + eol + body);
    assert (line + (eol + rest)) + (eol + eol + body) == line + eol + tail;
    SepInRest(line, eol, tail, |rest|);
    FirstPiece(rest, eol, body);
  }

  lemma PieceIsFree(header: string, eol: string, i: nat)
    requires eol != [] && Find(header, eol) == Some(i)
    ensures EolFree(header[..i], eol)
  {
    PiecesAreEolFree(header, eol);
    assert Split(header, eol)[0] == header[..i];
    assert header[..i] in Split(header, eol);
  }

  // A header rest that begins with a blank line begins with a line ending.
  lemma FirstPiece(rest: string, eol: string, body: string)
    requires IsEol(eol)
    ensures Split(rest, eol)[0] == [] ==> MatchAt(rest + (eol + eol + body), 0, eol)
  {
    var s := rest + (eol + eol + body);
    match Find(rest, eol)
    case None =>
      if rest == [] { assert s[0..|eol|] == eol; }
    case Some(i) =>
      if i == 0 { assert s[0..|eol|] == rest[0..|eol|]; }
  }

  lemma FreeAppend(a: string, b: string, eol: string)
    requires IsEol(eol) && EolFree(a, eol) && '\r' !in b && '\n' !in b
    ensures EolFree(a + b, eol)
  {
    var s, n := a + b, |eol|;
    forall j | 0 <= j
      ensures !MatchAt(s, j, eol)
    {
      if j + n <= |a| {
        assert s[j..j + n] == a[j..j + n] && !MatchAt(a, j, eol);
      } else if j + n <= |s| {
        assert s[j..j + n][n - 1] == s[j + n - 1] == b[j + n - 1 - |a|];
      }
    }
  }

  lemma {:induction false} JoinTwo(a: seq<string>, b: seq<string>, eol: string)
    requires a != [] && b != []
    ensures Join(a, eol) + Join(b, eol) == Join(Merged(a, b), eol)
  {
    var m := Merged(a, b);
    if |a| == 1 {
      assert m == [a[0] + b[0]] + b[1..];
      if |b| == 1 {
        assert m == [a[0] + b[0]];
      } else {
        assert m[1..] == b[1..];
        assert a[0] + (b[0] + eol + Join(b[1..], eol)) == (a[0] + b[0]) + eol + Join(b[1..], eol);
      }
    } else {
      assert m[0] == a[0] && m[1..] == Merged(a[1..], b);
      JoinTwo(a[1..], b, eol);
      assert (a[0] + eol + Join(a[1..], eol)) + Join(b, eol) == a[0] + eol + (Join(a[1..], eol) + Join(b, eol));
    }
  }

  // The facts about the old lines that survive the merge.
  lemma MergedIsFree(lines: seq<string>, more: seq<string>, eol: string)
    requires lines != [] && more != [] && IsEol(eol) && PlainLines(more)
    requires forall k :: k in lines ==> EolFree(k, eol)
    requires NoBlankLater(lines)
    ensures forall k :: k in Merged(lines, more) ==> EolFree(k, eol)
    ensures forall i :: 1 <= i < |Merged(lines, more)| ==> Merged(lines, more)[i] != []
  {
    var m, n := Merged(lines, more), |lines| - 1;
    FreeAppend(lines[n], more[0], eol);
    forall i | 0 <= i < |m|
      ensures EolFree(m[i], eol)
      ensures i >= 1 ==> m[i] != []
    {
      if i < n {
        assert m[i] == lines[i];
      } else if i > n {
        assert m[i] == more[i - n] && more[i - n] in more;
        assert EolFree("", eol) by { EmptyIsFree(eol); }
        FreeAppend("", more[i - n], eol);
        assert "" + more[i - n] == more[i - n];
      }
    }
  }

  lemma EmptyIsFree(eol: string)
    requires IsEol(eol)
    ensures EolFree("", eol)
  {
  }

  // The result, as lines and body.
  lemma InjectedText(email: string, headers: string)
    requires HeaderEnd(email).Some? && headers != []
    ensures var eol := Eol(email);
      Injected(email, headers)
      == Join(Merged(Split(HeaderSection(email), eol), Lines(headers)), eol) + (eol + eol + BodySection(email))
  {
    var eol, header, body := Eol(email), HeaderSection(email), BodySection(email);
    var lines, more := Split(header, eol), Lines(headers);
    JoinSplit(header, eol);
    RenderIsJoin(more, eol);
    JoinTwo(lines, more, eol);
    Regroup(header, Join(more, eol), eol, body);
  }

  lemma Regroup(h: string, j: string, eol: string, body: string)
    ensures h + (j + eol) + eol + body == (h + j) + (eol + eol + body)
  {
  }

  lemma InjectedEol(email: string, headers: string)
    requires HeaderEnd(email).Some? && PlainLines(Lines(headers))
    ensures Eol(Injected(email, headers)) == Eol(email)
  {
    var eol, header, body := Eol(email), HeaderSection(email), BodySection(email);
    var out := Injected(email, headers);
    var r := header + Render(Lines(headers), eol);
    if eol == "\r\n" {
      assert out[|r|..|r| + 2] == eol;
      assert MatchAt(out, |r|, "\r\n");
    } else {
      BareInjected(email, headers);
      BareIff(out);
    }
  }

  lemma HeaderIsUnix(email: string)
    requires HeaderEnd(email).Some? && Eol(email) == "\n"
    ensures Bare(HeaderSection(email) + "\n") && Bare("\n" + BodySection(email))
  {
    var pos := HeaderEnd(email).value;
    BareIff(email);
    assert email[pos] == email[pos..pos + 2][0] == '\n';
    assert email[..pos + 1] == HeaderSection(email) + "\n";
    BareHead(email, pos + 1);
    BareTail(email, pos + 2);
  }

  lemma BareHead(s: string, n: nat)
    requires Bare(s) && n <= |s|
    ensures Bare(s[..n])
  {
  }

  lemma BareAppend(a: string, b: string)
    requires Bare(a) && Bare(b) && (a == [] || a[|a| - 1] != '\r')
    ensures Bare(a + b)
  {
  }

  lemma BareInjected(email: string, headers: string)
    requires HeaderEnd(email).Some? && PlainLines(Lines(headers)) && Eol(email) == "\n"
    ensures Bare(Injected(email, headers))
  {
    var header, body := HeaderSection(email), BodySection(email);
    HeaderIsUnix(email);
    BareRender(Lines(headers), "\n" + body);
    BareHeaderAnd(header, Render(Lines(headers), "\n") + ("\n" + body));
    Regrouped(header, Render(Lines(headers), "\n"), body);
  }

  lemma BareHeaderAnd(header: string, rest: string)
    requires Bare(header + "\n") && Bare(rest)
    ensures Bare(header + rest)
  {
    var s := header + "\n";
    if header != [] { assert s[|header| - 1] == header[|header| - 1] && s[|header|] == '\n'; }
    assert s[..|header|] == header;
    BareHead(s, |header|);
    BareAppend(header, rest);
  }

  lemma Regrouped(header: string, lines: string, body: string)
    ensures header + lines + "\n" + body == header + (lines + ("\n" + body))
  {
  }

  // The body is what it was, and the header lines are the old ones with the first new
  // line run on to the last of them.
  lemma InjectedHeader(email: string, headers: string)
    requires HeaderEnd(email).Some? && headers != [] && PlainLines(Lines(headers))
    ensures var out, eol := Injected(email, headers), Eol(email);
      && Eol(out) == eol && HeaderEnd(out).Some?
      && BodySection(out) == BodySection(email)
      && Split(HeaderSection(out), eol) == Merged(Split(HeaderSection(email), eol), Lines(headers))
  {
    var out, eol, body := Injected(email, headers), Eol(email), BodySection(email);
    var pieces := Split(HeaderSection(email), eol);
    var lines := Merged(pieces, Lines(headers));
    HeaderPieces(email, pieces);
    MergedIsFree(pieces, Lines(headers), eol);
    InjectedText(email, headers);
    InjectedEol(email, headers);
    FindSepAfter(lines, eol, body);
    var head := Join(lines, eol);
    assert out[..|head|] == head && out[|head| + 2 * |eol|..] == body;
    SplitJoined(lines, eol);
  }

  lemma HeaderPieces(email: string, ps: seq<string>)
    requires HeaderEnd(email).Some? && ps == Split(HeaderSection(email), Eol(email))
    ensures (forall p :: p in ps ==> EolFree(p, Eol(email))) && NoBlankLater(ps)
  {
    EmailParts(email);
    PiecesAreEolFree(HeaderSection(email), Eol(email));
    NoBlankInside(HeaderSection(email), Eol(email), BodySection(email));
  }

  lemma {:induction false} NonBlankCount(lines: seq<string>)
    requires forall i :: 0 <= i < |lines| ==> lines[i] != []
    ensures NonBlank(lines) == lines
  {
    if lines != [] {
      NonBlankCount(lines[1..]);
    }
  }

  lemma NonBlankAfterFirst(lines: seq<string>)
    requires lines != [] && forall i :: 1 <= i < |lines| ==> lines[i] != []
    ensures NonBlank(lines) == if lines[0] == [] then lines[1..] else lines
  {
    NonBlankCount(lines[1..]);
  }

  // The new lines become header lines of their own, behind the old ones, exactly when
  // the header section was empty.
  lemma NewLinesStandAloneIff(email: string, headers: string)
    requires HeaderEnd(email).Some? && headers != [] && PlainLines(Lines(headers))
    ensures HeaderEnd(Injected(email, headers)).Some?
    ensures var eol := Eol(email);
      NonBlank(Split(HeaderSection(Injected(email, headers)), eol))
      == NonBlank(Split(HeaderSection(email), eol)) + Lines(headers)
      <==> HeaderSection(email) == ""
  {
    var eol, header, more := Eol(email), HeaderSection(email), Lines(headers);
    var lines := Split(header, eol);
    InjectedHeader(email, headers);
    HeaderPieces(email, lines);
    MergedIsFree(lines, more, eol);
    StandAlone(header, lines, more, eol);
  }

  lemma StandAlone(header: string, lines: seq<string>, more: seq<string>, eol: string)
    requires IsEol(eol) && lines == Split(header, eol) && more != [] && PlainLines(more)
    requires forall i :: 1 <= i < |lines| ==> lines[i] != []
    requires forall i :: 1 <= i < |Merged(lines, more)| ==> Merged(lines, more)[i] != []
    ensures NonBlank(Merged(lines, more)) == NonBlank(lines) + more <==> header == ""
  {
    var m := Merged(lines, more);
    NonBlankAfterFirst(lines);
    NonBlankAfterFirst(m);
    assert more[0] in more;
    if header == "" {
      assert lines == [""];
      assert m == [""] [..0] + ["" + more[0]] + more[1..];
      assert "" + more[0] == more[0];
      assert m == more && lines[1..] == [] && [] + more == more;
    } else {
      if |lines| == 1 { JoinSplit(header, eol); assert lines[0] == header; }
      assert |NonBlank(m)| < |NonBlank(lines) + more|;
    }
  }

  // One header line of its own is what the new line does not become.
  lemma FirstNewLineRunsOn(h: string, body: string, line: string)
    requires '\r' !in h && '\n' !in h && '\r' !in body && line != [] && '\r' !in line && '\n' !in line
    ensures Injected(h + ("\n\n" + body), line) == h + line + "\n" + ("\n" + body)
  {
    LoneHeader(h, body);
    assert Lines(line) == [line] by { IndexOfIs(line, '\n', |line|); }
    assert Render([line], "\n") == line + "\n" by { assert [line][1..] == []; }
  }

  lemma SubjectRunsOn()
    ensures Injected("Subject: a" + ("\n\n" + "b"), "X-Spam-Flag: YES")
         == "Subject: a" + "X-Spam-Flag: YES" + "\n" + ("\n" + "b")
  {
    FirstNewLineRunsOn("Subject: a", "b", "X-Spam-Flag: YES");
  }
}

// The parts of a message as its lines have them: header lines up to the first blank line,
// each line with its own ending, CRLF or a bare LF; and when the filter, which looks for
// two equal line endings in a row, finds the same parts.
module MessageParts {
  import opened Text
  import opened Folding
  import opened DkimStrip

  // A line and its ending.
  datatype RawLine = RawLine(text: string, crlf: bool)

  // The header lines, the ending of the blank line, and the body.
  datatype Parts = Parts(header: seq<RawLine>, crlf: bool, body: string)

  function Break(crlf: bool): string {
    if crlf then "\r\n" else "\n"
  }

  predicate EndsInCr(s: string) {
    s != [] && s[|s| - 1] == '\r'
  }

  // None when no line is blank.
  function ReadMessage(s: string): Option<Parts>
    decreases |s|
  {
    var i := IndexOf(s, '\n');
    if i >= |s| then None
    else
      var text, crlf, rest := StripCr(s[..i]), EndsInCr(s[..i]), s[i + 1..];
      if text == [] then Some(Parts([], crlf, rest))
      else
        match ReadMessage(rest)
        case None => None
        case Some(p) => Some(p.(header := [RawLine(text, crlf)] + p.header))
  }

  function RawText(lines: seq<RawLine>): string {
    if lines == [] then [] else lines[0].text + Break(lines[0].crlf) + RawText(lines[1..])
  }

  function WriteMessage(p: Parts): string {
    RawText(p.header) + (Break(p.crlf) + p.body)
  }

  predicate ValidLine(l: RawLine) {
    l.text != [] && '\n' !in l.text && (EndsInCr(l.text) ==> l.crlf)
  }

  predicate ValidLines(lines: seq<RawLine>) {
    forall k :: 0 <= k < |lines| ==> ValidLine(lines[k])
  }

  // ---- Reading and writing ----

  // The first line of a text.
  lemma ReadFirst(text: string, crlf: bool, rest: string)
    requires '\n' !in text && (EndsInCr(text) ==> crlf)
    ensures var s := text + Break(crlf) + rest;
      ReadMessage(s)
      == if text == [] then Some(Parts([], crlf, rest))
         else match ReadMessage(rest)
              case None => None
              case Some(p) => Some(p.(header := [RawLine(text, crlf)] + p.header))
  {
    var s := text + Break(crlf) + rest;
    var i := if crlf then |text| + 1 else |text|;
    FirstCut(text, crlf, rest, s, i);
    IndexOfIs(s, '\n', i);
    ReadCut(s, i, text, crlf, rest);
  }

  lemma FirstCut(text: string, crlf: bool, rest: string, s: string, i: nat)
    requires '\n' !in text && (EndsInCr(text) ==> crlf)
    requires s == text + Break(crlf) + rest && i == if crlf then |text| + 1 else |text|
    ensures i < |s| && s[i] == '\n' && '\n' !in s[..i] && s[i + 1..] == rest
    ensures StripCr(s[..i]) == text && EndsInCr(s[..i]) == crlf
  {
    if crlf {
      assert s[..i] == text + "\r";
      assert (text + "\r")[..|text|] == text;
    } else {
      assert s[..i] == text;
    }
  }

  lemma ReadCut(s: string, i: nat, text: string, crlf: bool, rest: string)
    requires IndexOf(s, '\n') == i < |s| && s[i + 1..] == rest
    requires StripCr(s[..i]) == text && EndsInCr(s[..i]) == crlf
    ensures ReadMessage(s)
      == if text == [] then Some(Parts([], crlf, rest))
         else match ReadMessage(rest)
              case None => None
              case Some(p) => Some(p.(header := [RawLine(text, crlf)] + p.header))
  {
  }

  lemma {:induction false} ReadWritten(p: Parts)
    requires ValidLines(p.header)
    ensures ReadMessage(WriteMessage(p)) == Some(p)
    decreases |p.header|
  {
    if p.header == [] {
      ReadBlank(p);
    } else {
      var rest := p.(header := p.header[1..]);
      ReadWritten(rest);
      ReadLine(p, rest, WriteMessage(rest));
      WriteFirst(p);
    }
  }

  lemma ReadBlank(p: Parts)
    requires p.header == []
    ensures ReadMessage(WriteMessage(p)) == Some(p)
  {
    ReadFirst("", p.crlf, p.body);
    assert "" + Break(p.crlf) + p.body == RawText([]) + (Break(p.crlf) + p.body);
  }

  lemma ReadLine(p: Parts, rest: Parts, w: string)
    requires p.header != [] && ValidLine(p.header[0]) && rest == p.(header := p.header[1..])
    requires ReadMessage(w) == Some(rest)
    ensures ReadMessage(p.header[0].text + Break(p.header[0].crlf) + w) == Some(p)
  {
    var l := p.header[0];
    ReadFirst(l.text, l.crlf, w);
    assert [l] + rest.header == p.header;
  }

  lemma WriteFirst(p: Parts)
    requires p.header != []
    ensures var l, rest := p.header[0], p.(header := p.header[1..]);
      WriteMessage(p) == l.text + Break(l.crlf) + WriteMessage(rest)
  {
    var l := p.header[0];
    Assoc(l.text + Break(l.crlf), RawText(p.header[1..]), Break(p.crlf) + p.body);
  }

  lemma Assoc(a: string, b: string, c: string)
    ensures (a + b) + c == a + (b + c)
  {
  }

  lemma ReadParts(header: seq<RawLine>, crlf: bool, body: string, s: string)
    requires ValidLines(header) && s == RawText(header) + Break(crlf) + body
    ensures ReadMessage(s) == Some(Parts(header, crlf, body))
  {
    Assoc(RawText(header), Break(crlf), body);
    ReadWritten(Parts(header, crlf, body));
  }

  lemma WrittenParts(s: string, p: Parts)
    requires ReadMessage(s) == Some(p)
    ensures ValidLines(p.header) && s == RawText(p.header) + Break(p.crlf) + p.body
  {
    WrittenIsRead(s);
    Assoc(RawText(p.header), Break(p.crlf), p.body);
  }

  // What is in front of the first line feed, as text and ending.
  lemma FirstLine(s: string, i: nat)
    requires i < |s| && s[i] == '\n' && '\n' !in s[..i]
    ensures var text, crlf := StripCr(s[..i]), EndsInCr(s[..i]);
      && s == text + Break(crlf) + s[i + 1..] && '\n' !in text && (EndsInCr(text) ==> crlf)
  {
    var cut := s[..i];
    assert s == cut + "\n" + s[i + 1..];
    if EndsInCr(cut) {
      assert cut == StripCr(cut) + "\r";
    }
  }

  lemma {:induction false} WrittenIsRead(s: string)
    requires ReadMessage(s).Some?
    ensures ValidLines(ReadMessage(s).value.header) && WriteMessage(ReadMessage(s).value) == s
    decreases |s|
  {
    var i := IndexOf(s, '\n');
    var text, crlf, rest := StripCr(s[..i]), EndsInCr(s[..i]), s[i + 1..];
    FirstLine(s, i);
    if text == [] {
      assert "" + Break(crlf) + rest == RawText([]) + (Break(crlf) + rest);
    } else {
      WrittenIsRead(rest);
      var p := ReadMessage(rest).value;
      OneLineMore(RawLine(text, crlf), p);
    }
  }

  lemma OneLineMore(l: RawLine, p: Parts)
    requires ValidLine(l) && ValidLines(p.header)
    ensures var more := p.(header := [l] + p.header);
      ValidLines(more.header) && WriteMessage(more) == l.text + Break(l.crlf) + WriteMessage(p)
  {
    assert ([l] + p.header)[1..] == p.header;
    forall k | 0 <= k < |[l] + p.header|
      ensures ValidLine(([l] + p.header)[k])
    {
      if k > 0 { assert ([l] + p.header)[k] == p.header[k - 1]; }
    }
  }

  // ---- Where the filter can cut ----

  // Two equal line endings in a row mean a blank line, not later than at the second.
  lemma {:induction false} SepMeansBlank(s: string, eol: string, j: nat)
    requires IsEol(eol) && MatchAt(s, j, eol + eol)
    ensures ReadMessage(s).Some? && |RawText(ReadMessage(s).value.header)| <= j + |eol|
    decreases |s|
  {
    var i, n := IndexOf(s, '\n'), |eol|;
    SepSplits(s, j, eol);
    FeedAt(s, j, eol);
    FeedAt(s, j + n, eol);
    var text, crlf, rest := StripCr(s[..i]), EndsInCr(s[..i]), s[i + 1..];
    if text != [] {
      if j + n - 1 == i {
        assert rest[0..n] == s[j + n..j + n + n];
        StartsBlank(rest, eol);
        FirstLength(s, i);
      } else {
        SepInTail(s, i + 1, j, eol);
        SepMeansBlank(rest, eol, j - (i + 1));
        FirstLength(s, i);
      }
    }
  }

  lemma SepInTail(s: string, cut: nat, j: nat, eol: string)
    requires IsEol(eol) && MatchAt(s, j, eol + eol) && cut <= j
    ensures MatchAt(s[cut..], j - cut, eol + eol)
  {
    assert s[cut..][j - cut..j - cut + |eol + eol|] == s[j..j + |eol + eol|];
  }

  lemma NoEarlierSep(s: string, eol: string, p: Parts)
    requires IsEol(eol) && ReadMessage(s) == Some(p)
    ensures forall j: nat :: MatchAt(s, j, eol + eol) ==> |RawText(p.header)| <= j + |eol|
  {
    forall j: nat | MatchAt(s, j, eol + eol)
      ensures |RawText(p.header)| <= j + |eol|
    {
      SepMeansBlank(s, eol, j);
    }
  }

  lemma FeedAt(s: string, j: nat, eol: string)
    requires IsEol(eol) && MatchAt(s, j, eol)
    ensures s[j + |eol| - 1] == '\n' && (|eol| == 2 ==> s[j] == '\r')
    ensures IndexOf(s, '\n') <= j + |eol| - 1
    ensures IndexOf(s, '\n') < j + |eol| - 1 ==> IndexOf(s, '\n') < j
  {
    assert s[j..j + |eol|][|eol| - 1] == s[j + |eol| - 1];
    assert s[j..j + |eol|][0] == s[j];
  }

  lemma StartsBlank(s: string, eol: string)
    requires IsEol(eol) && MatchAt(s, 0, eol)
    ensures ReadMessage(s) == Some(Parts([], eol == "\r\n", s[|eol|..]))
  {
    assert s[0..|eol|] == eol;
    assert s == "" + eol + s[|eol|..];
    ReadFirst("", eol == "\r\n", s[|eol|..]);
  }

  lemma FirstLength(s: string, i: nat)
    requires i < |s| && i == IndexOf(s, '\n') && StripCr(s[..i]) != [] && ReadMessage(s[i + 1..]).Some?
    ensures ReadMessage(s).Some?
    ensures |RawText(ReadMessage(s).value.header)| == i + 1 + |RawText(ReadMessage(s[i + 1..]).value.header)|
  {
    FirstLine(s, i);
    var text, crlf, rest := StripCr(s[..i]), EndsInCr(s[..i]), s[i + 1..];
    ReadFirst(text, crlf, rest);
    var p := ReadMessage(rest).value;
    assert ([RawLine(text, crlf)] + p.header)[1..] == p.header;
  }

  // ---- When the filter reads the message's own parts ----

  function Texts(lines: seq<RawLine>): seq<string> {
    seq(|lines|, k requires 0 <= k < |lines| => lines[k].text)
  }

  // The pieces between the endings it looks for are the header lines, and what is
  // behind the separator is the body.
  ghost predicate ReadsRight(email: string, p: Parts) {
    && HeaderEnd(email).Some?
    && Split(HeaderSection(email), Eol(email)) == Texts(p.header)
    && BodySection(email) == p.body
  }

  // There is a header, and every line up to the blank one, itself included, has this ending.
  predicate Uniform(p: Parts, eol: string) {
    && p.header != [] && Break(p.crlf) == eol
    && forall k :: 0 <= k < |p.header| ==> Break(p.header[k].crlf) == eol
  }

  lemma {:induction false} UniformText(lines: seq<RawLine>, eol: string)
    requires lines != [] && forall k :: 0 <= k < |lines| ==> Break(lines[k].crlf) == eol
    ensures RawText(lines) == Join(Texts(lines), eol) + eol
  {
    var t := Texts(lines);
    if |lines| == 1 {
      assert RawText(lines[1..]) == [];
      assert lines[0].text + eol + [] == lines[0].text + eol;
    } else {
      UniformText(lines[1..], eol);
      assert t[1..] == Texts(lines[1..]);
      assert t[0] + eol + (Join(t[1..], eol) + eol) == (t[0] + eol + Join(t[1..], eol)) + eol;
    }
  }

  lemma TextsAreFree(lines: seq<RawLine>, eol: string)
    requires IsEol(eol) && ValidLines(lines)
    ensures forall k :: k in Texts(lines) ==> EolFree(k, eol) && k != []
  {
    forall k | 0 <= k < |lines|
      ensures EolFree(Texts(lines)[k], eol) && Texts(lines)[k] != []
    {
      NoFeedIsFree(lines[k].text, eol);
    }
  }

  lemma NoFeedIsFree(s: string, eol: string)
    requires IsEol(eol) && '\n' !in s
    ensures EolFree(s, eol)
  {
    forall j | 0 <= j
      ensures !MatchAt(s, j, eol)
    {
      if j + |eol| <= |s| { assert s[j..j + |eol|][|eol| - 1] == s[j + |eol| - 1]; }
    }
  }

  lemma UniformReadsRight(email: string, p: Parts)
    requires ReadMessage(email) == Some(p) && Uniform(p, Eol(email))
    ensures ReadsRight(email, p)
  {
    var eol, texts := Eol(email), Texts(p.header);
    WrittenIsRead(email);
    UniformText(p.header, eol);
    TextsAreFree(p.header, eol);
    Assoc(Join(texts, eol), eol, eol + p.body);
    Assoc(eol, eol, p.body);
    JoinedSections(email, texts, p.body);
  }

  // Header lines joined, a blank line and a body, as the filter sees them.
  lemma JoinedSections(email: string, texts: seq<string>, body: string)
    requires texts != [] && email == Join(texts, Eol(email)) + (Eol(email) + Eol(email) + body)
    requires forall t :: t in texts ==> EolFree(t, Eol(email)) && t != []
    ensures HeaderEnd(email).Some? && BodySection(email) == body
    ensures HeaderSection(email) == Join(texts, Eol(email)) && Split(HeaderSection(email), Eol(email)) == texts
  {
    var eol := Eol(email);
    var head := Join(texts, eol);
    assert forall i :: 0 <= i < |texts| ==> texts[i] in texts;
    FindSepAfter(texts, eol, body);
    assert email[..|head|] == head && email[|head| + 2 * |eol|..] == body;
    SplitJoined(texts, eol);
  }

  // How long the endings are, all together.
  function Breaks(lines: seq<RawLine>): nat {
    if lines == [] then 0 else |Break(lines[0].crlf)| + Breaks(lines[1..])
  }

  lemma {:induction false} RawLength(lines: seq<RawLine>, eol: string)
    requires lines != []
    ensures |RawText(lines)| + (|lines| - 1) * |eol| == |Join(Texts(lines), eol)| + Breaks(lines)
  {
    var t := Texts(lines);
    if |lines| == 1 {
      assert RawText(lines[1..]) == [] && Breaks(lines[1..]) == 0;
    } else {
      RawLength(lines[1..], eol);
      assert t[1..] == Texts(lines[1..]);
      assert (|lines| - 1) * |eol| == (|lines| - 2) * |eol| + |eol|;
    }
  }

  lemma {:induction false} BreaksDecide(lines: seq<RawLine>, eol: string)
    requires IsEol(eol)
    ensures |lines| <= Breaks(lines) <= 2 * |lines|
    ensures Breaks(lines) == |lines| * |eol| ==> forall k :: 0 <= k < |lines| ==> Break(lines[k].crlf) == eol
  {
    if lines != [] {
      BreaksDecide(lines[1..], eol);
      assert |lines| * |eol| == (|lines| - 1) * |eol| + |eol|;
      if Breaks(lines) == |lines| * |eol| {
        forall k | 0 <= k < |lines|
          ensures Break(lines[k].crlf) == eol
        {
          if k > 0 { assert lines[k] == lines[1..][k - 1]; }
        }
      }
    }
  }

  lemma RightIsUniform(email: string, p: Parts)
    requires ReadMessage(email) == Some(p) && ReadsRight(email, p)
    ensures Uniform(p, Eol(email))
  {
    var eol, header, n := Eol(email), HeaderSection(email), |p.header|;
    assert |email| == |header| + 2 * |eol| + |p.body|;
    WrittenIsRead(email);
    JoinSplit(header, eol);
    assert |Texts(p.header)| == n;
    RightBySize(p, eol, header);
  }

  lemma RightBySize(p: Parts, eol: string, header: string)
    requires IsEol(eol) && p.header != [] && header == Join(Texts(p.header), eol)
    requires |RawText(p.header)| + |Break(p.crlf)| == |header| + 2 * |eol|
    ensures Uniform(p, eol)
  {
    RawLength(p.header, eol);
    Multiples(|p.header|, |eol|);
    AllBreaksAre(p, eol);
  }

  lemma Multiples(n: nat, e: nat)
    ensures (n + 1) * e == (n - 1) * e + 2 * e
  {
  }

  lemma AllBreaksAre(p: Parts, eol: string)
    requires IsEol(eol) && p.header != []
    requires Breaks(p.header) + |Break(p.crlf)| == (|p.header| + 1) * |eol|
    ensures Uniform(p, eol)
  {
    var n := |p.header|;
    var all := p.header + [RawLine("", p.crlf)];
    BreaksSnoc(p.header, RawLine("", p.crlf));
    BreaksDecide(all, eol);
    assert all[n].crlf == p.crlf;
    forall k | 0 <= k < n
      ensures Break(p.header[k].crlf) == eol
    {
      assert all[k] == p.header[k];
    }
  }

  lemma {:induction false} BreaksSnoc(lines: seq<RawLine>, l: RawLine)
    ensures Breaks(lines + [l]) == Breaks(lines) + |Break(l.crlf)|
  {
    if lines == [] {
      assert lines + [l] == [l] && [l][1..] == [];
    } else {
      assert (lines + [l])[1..] == lines[1..] + [l];
      BreaksSnoc(lines[1..], l);
    }
  }

  // The filter takes the message's own header lines and body for its header pieces and
  // body exactly when the message begins with a header line and all lines up to the
  // blank one, itself included, have the ending the filter looks for.
  lemma ReadsRightIff(email: string, p: Parts)
    requires ReadMessage(email) == Some(p)
    ensures ReadsRight(email, p) <==> Uniform(p, Eol(email))
  {
    if Uniform(p, Eol(email)) { UniformReadsRight(email, p); }
    if ReadsRight(email, p) { RightIsUniform(email, p); }
  }

  // Without a blank line the filter finds no header either.
  lemma NoBlankNoHeader(email: string)
    requires ReadMessage(email).None?
    ensures HeaderEnd(email).None?
  {
    if HeaderEnd(email).Some? { SepMeansBlank(email, Eol(email), HeaderEnd(email).value); }
  }
}

// Which header fields the stripping pass takes out, by the name in front of their first
// colon.
module FieldNames {
  import opened Text
  import opened TextFacts
  import opened Folding
  import opened DkimStrip
  import opened MessageParts
  import opened Signatures

  const SIGNATURE: string := "dkim-signature"

  // The text before the first colon is this name, in any letter case.
  ghost predicate Named(line: string, name: string) {
    exists k :: NamedUpTo(line, name, k)
  }

  ghost predicate NamedUpTo(line: string, name: string, k: int) {
    0 <= k < |line| && line[k] == ':' && ':' !in line[..k] && SameText(line[..k], name)
  }

  // The fields that are not called so, each with all its lines.
  ghost function NotNamed(fields: seq<seq<string>>, name: string): seq<seq<string>> {
    if fields == [] then []
    else (if fields[0] != [] && Named(fields[0][0], name) then [] else [fields[0]]) + NotNamed(fields[1..], name)
  }

  // ---- The test of the pass ----

  lemma PrefixIff(line: string, name: string, prefix: string)
    requires prefix == name + ":" && Lower(name) == name && ':' !in name
    ensures (|line| >= |prefix| && Lower(line[..|prefix|]) == prefix) <==> Named(line, name)
  {
    var n := |name|;
    if |line| > n {
      SameTextIff(line[..n], name);
      assert Lower(line[..n + 1]) == Lower(line[..n]) + [LowerChar(line[n])];
      assert prefix[..n] == name && prefix[n] == ':';
      assert LowerChar(line[n]) == ':' <==> line[n] == ':';
      if SameText(line[..n], name) && line[n] == ':' {
        NoColonInside(line[..n], name);
        assert NamedUpTo(line, name, n);
      }
    }
    if Named(line, name) {
      var k :| NamedUpTo(line, name, k);
      assert k == n;
    }
  }

  lemma NoColonInside(a: string, b: string)
    requires SameText(a, b) && ':' !in b
    ensures ':' !in a
  {
  }

  lemma SignatureIsLower()
    ensures Lower(SIGNATURE) == SIGNATURE && ':' !in SIGNATURE
    ensures "dkim-signature:" == SIGNATURE + ":" && |"dkim-signature:"| == 15
  {
  }

  lemma IsDkimIff(line: string)
    ensures IsDkim(line) <==> Named(line, SIGNATURE)
  {
    SignatureIsLower();
    PrefixIff(line, SIGNATURE, "dkim-signature:");
  }

  lemma {:induction false} WithoutByName(fields: seq<seq<string>>)
    requires forall f :: f in fields ==> f != []
    ensures WithoutDkim(fields) == NotNamed(fields, SIGNATURE)
  {
    if fields != [] {
      assert fields[0] in fields && forall f :: f in fields[1..] ==> f in fields;
      IsDkimIff(fields[0][0]);
      WithoutByName(fields[1..]);
    }
  }

  // A line that begins with a space or a tab goes on with the field before it.
  lemma ContinuationIff(line: string)
    ensures Continuation(line) <==> exists rest :: line == " " + rest || line == "\t" + rest
  {
    if Continuation(line) {
      assert line == [line[0]] + line[1..];
    }
  }

  // ---- The stripped message ----

  lemma {:induction false} KeptAreValid(lines: seq<RawLine>, skip: bool)
    requires ValidLines(lines)
    ensures ValidLines(KeptRaw(lines, skip))
  {
    if lines != [] {
      assert ValidLine(lines[0]);
      assert ValidLines(lines[1..]);
      KeptAreValid(lines[1..], SkipAfter(lines[0].text, skip));
    }
  }

  // With one line ending: the header fields of the stripped message are those whose name is
  // not the one of signatures, with all their continuation lines, and the body stays.
  lemma StrippedByName(email: string, p: Parts)
    requires ReadMessage(email) == Some(p) && Uniform(p, Eol(email))
    ensures match ReadMessage(Stripped(email))
            case None => false
            case Some(q) =>
              q.body == p.body && q.crlf == p.crlf
              && Texts(q.header) == Flat(NotNamed(Fields(Texts(p.header)), SIGNATURE))
  {
    var kept := KeptRaw(p.header, false);
    UniformStripsRight(email, p);
    UnsignedIs(email, p);
    WrittenIsRead(email);
    KeptAreValid(p.header, false);
    ReadWritten(p.(header := kept));
    FieldsAreUnfolded(Texts(p.header));
    WithoutByName(Fields(Texts(p.header)));
  }

  // ---- One field ----

  // A message of one field, a recipient and a body: the field goes if and only if it is
  // called so, however it is spelled.
  lemma OneFieldGoesIff(name: string, value: string, body: string)
    requires ':' !in name && '\n' !in name && '\n' !in value && '\r' !in name + value + body
    ensures var rest := "To: b\n\n" + body;
      Stripped(name + ":" + value + "\n" + rest)
      == if SameText(name, SIGNATURE) then rest else name + ":" + value + "\n" + rest
  {
    var line := name + ":" + value;
    var first, to := RawLine(line, false), RawLine("To: b", false);
    NamedFirst(name, value);
    IsDkimIff(line);
    SameEmail(line, body);
    assert line + "\n" + ("To: b\n\n" + body) == name + ":" + value + "\n" + ("To: b\n\n" + body);
    TwoFields(line + "\n" + ("To: b\n\n" + body), line, body);
  }

  lemma SameEmail(line: string, body: string)
    ensures line + "\n" + ("To: b\n\n" + body) == WriteMessage(Parts([RawLine(line, false), RawLine("To: b", false)], false, body))
  {
    var to := [RawLine("To: b", false)];
    assert ([RawLine(line, false)] + to)[1..] == to && to[1..] == [];
    assert RawText(to) == "To: b" + "\n" + [];
  }

  lemma TwoFields(email: string, line: string, body: string)
    requires email == WriteMessage(Parts([RawLine(line, false), RawLine("To: b", false)], false, body))
    requires line != [] && '\n' !in line && '\r' !in line && '\r' !in body
    requires '\r' !in email
    ensures Stripped(email) == if IsDkim(line) then "To: b\n\n" + body else email
  {
    var first, to := RawLine(line, false), RawLine("To: b", false);
    var p := Parts([first, to], false, body);
    assert ValidLine(first) && ValidLine(to);
    ReadWritten(p);
    BareEol(email);
    UniformStripsRight(email, p);
    UnsignedIs(email, p);
    KeptOfTwo(first, to);
    WrittenOne(body);
  }

  lemma NamedFirst(name: string, value: string)
    requires ':' !in name
    ensures Named(name + ":" + value, SIGNATURE) <==> SameText(name, SIGNATURE)
  {
    var line := name + ":" + value;
    assert line[..|name|] == name && line[|name|] == ':';
    if SameText(name, SIGNATURE) { assert NamedUpTo(line, SIGNATURE, |name|); }
    if Named(line, SIGNATURE) {
      var k :| NamedUpTo(line, SIGNATURE, k);
      var front := line[..k];
      assert forall j :: 0 <= j < |name| ==> line[j] == name[j];
      assert forall j :: 0 <= j < k ==> line[j] == front[j];
    }
  }

  lemma BareEol(s: string)
    requires '\r' !in s
    ensures Eol(s) == "\n"
  {
    forall j | 0 <= j
      ensures !MatchAt(s, j, "\r\n")
    {
      if j + 2 <= |s| { assert s[j..j + 2][0] == s[j]; }
    }
  }

  lemma WrittenOne(body: string)
    ensures WriteMessage(Parts([RawLine("To: b", false)], false, body)) == "To: b\n\n" + body
  {
    var to := [RawLine("To: b", false)];
    assert to[1..] == [];
    assert RawText(to) == "To: b" + "\n" + [];
  }

  lemma KeptOfTwo(first: RawLine, to: RawLine)
    requires to.text == "To: b" && first.text != []
    ensures KeptRaw([first, to], false) == if IsDkim(first.text) then [to] else [first, to]
  {
    ContinuationIsNotDkim(first.text);
    assert to.text[0] == 'T';
    KeptLast(to, false);
    KeptLast(to, true);
    assert [first, to][1..] == [to];
    assert [first] + [to] == [first, to] && [] + [to] == [to];
  }

  lemma KeptLast(l: RawLine, skip: bool)
    requires l.text != [] && !Continuation(l.text) && !IsDkim(l.text)
    ensures KeptRaw([l], skip) == [l]
  {
    assert [l][1..] == [] && [l] + [] == [l];
  }
}

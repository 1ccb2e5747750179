// What the content filter writes after DATA, and what a conforming receiver reads.
module DataPhase {
  import opened Text

  // A line that begins with a dot is sent with one more dot in front.
  function Stuff(line: string): string {
    if line != [] && line[0] == '.' then "." + line else line
  }

  function Wire(lines: seq<string>): string {
    if lines == [] then ".\r\n" else Stuff(lines[0]) + "\r\n" + Wire(lines[1..])
  }

  // The DATA phase of the filter's SMTP client, including the closing dot line.
  method WriteData(email: string) returns (wire: string)
    ensures wire == Wire(Lines(email))
  {
    var lines := Lines(email);
    wire := "";
    for k := 0 to |lines|
      invariant wire + Wire(lines[k..]) == Wire(lines)
    {
      var line := if StartsWith(lines[k], ".") then "." + lines[k] else lines[k];
      WireStep(lines, k, line);
      AppendAssoc(wire, line + "\r\n", Wire(lines[k + 1..]));
      wire := wire + (line + "\r\n");
    }
    assert lines[|lines|..] == [];
    wire := wire + ".\r\n";
  }

  lemma WireStep(lines: seq<string>, k: nat, line: string)
    requires k < |lines|
    requires line == if StartsWith(lines[k], ".") then "." + lines[k] else lines[k]
    ensures Wire(lines[k..]) == line + "\r\n" + Wire(lines[k + 1..])
  {
    var here := lines[k];
    assert StartsWith(here, ".") <==> here != [] && here[0] == '.' by {
      if here != [] { assert here[..1] == [here[0]]; }
    }
    assert lines[k..][0] == here && lines[k..][1..] == lines[k + 1..];
  }

  lemma AppendAssoc(a: string, b: string, c: string)
    ensures (a + b) + c == a + (b + c)
  {
  }

  // ---- The receiver of section 4.5.2 of RFC 5321 ----

  datatype Received = Incomplete | Complete(lines: seq<string>, rest: string)

  function Unstuff(line: string): string {
    if line != [] && line[0] == '.' then line[1..] else line
  }

  // Reads CRLF-ended lines; a line that is a single dot ends the mail data.
  function Receive(wire: string): Received
    decreases |wire|
  {
    match Find(wire, "\r\n")
    case None => Incomplete
    case Some(i) =>
      var line, rest := wire[..i], wire[i + 2..];
      if line == "." then Complete([], rest)
      else
        match Receive(rest)
        case Incomplete => Incomplete
        case Complete(ls, r) => Complete([Unstuff(line)] + ls, r)
  }

  lemma LineEnd(line: string, tail: string)
    requires '\n' !in line
    ensures Find(line + "\r\n" + tail, "\r\n") == Some(|line|)
  {
    forall j | 0 <= j
      ensures !MatchAt(line, j, "\r\n")
    {
      if j + 2 <= |line| { assert line[j..j + 2][1] == line[j + 1]; }
    }
    FindAfter(line, "\r\n", tail);
  }

  // One line of the transmission.
  lemma ReceiveLine(line: string, tail: string)
    requires '\n' !in line
    ensures Receive(line + "\r\n" + tail)
         == if line == "." then Complete([], tail)
            else match Receive(tail)
                 case Incomplete => Incomplete
                 case Complete(ls, r) => Complete([Unstuff(line)] + ls, r)
  {
    LineEnd(line, tail);
    CutLine(line, tail);
  }

  lemma CutLine(line: string, tail: string)
    ensures (line + "\r\n" + tail)[..|line|] == line && (line + "\r\n" + tail)[|line| + 2..] == tail
  {
  }

  lemma StuffedLine(line: string)
    requires '\n' !in line
    ensures Stuff(line) != "." && '\n' !in Stuff(line) && Unstuff(Stuff(line)) == line
  {
  }

  lemma {:induction false} ReceiveWire(lines: seq<string>, rest: string)
    requires forall k :: 0 <= k < |lines| ==> '\n' !in lines[k]
    ensures Receive(Wire(lines) + rest) == Complete(lines, rest)
  {
    if lines == [] {
      ReceiveLine(".", rest);
      assert Wire(lines) == "." + "\r\n";
    } else {
      var line, tail := Stuff(lines[0]), Wire(lines[1..]) + rest;
      StuffedLine(lines[0]);
      AppendAssoc(line + "\r\n", Wire(lines[1..]), rest);
      ReceiveLine(line, tail);
      ReceiveWire(lines[1..], rest);
      assert [lines[0]] + lines[1..] == lines;
    }
  }

  // Bytes that arrive later do not change mail data that is already complete.
  lemma {:induction false} ReceiveMonotone(wire: string, more: string)
    requires Receive(wire).Complete?
    ensures Receive(wire + more) == Complete(Receive(wire).lines, Receive(wire).rest + more)
    decreases |wire|
  {
    var i := Find(wire, "\r\n").value;
    var w := wire + more;
    forall j | 0 <= j < i
      ensures !MatchAt(w, j, "\r\n")
    {
      assert w[j..j + 2] == wire[j..j + 2];
      assert !MatchAt(wire, j, "\r\n");
    }
    assert w[i..i + 2] == wire[i..i + 2];
    FindIs(w, "\r\n", i);
    assert w[..i] == wire[..i] && w[i + 2..] == wire[i + 2..] + more;
    if wire[..i] != "." {
      ReceiveMonotone(wire[i + 2..], more);
    }
  }

  // The receiver gets back exactly the message's lines, and whatever the client
  // sends next stays unread.
  lemma ReceiverRecoversLines(email: string, next: string)
    ensures Receive(Wire(Lines(email)) + next) == Complete(Lines(email), next)
  {
    ReceiveWire(Lines(email), next);
  }

  // No line of the message is taken for the end of the mail data: cut anywhere
  // before its last byte, the transmission is still incomplete.
  lemma ReceiverStopsOnlyAtTheEnd(email: string, cut: nat)
    requires cut < |Wire(Lines(email))|
    ensures Receive(Wire(Lines(email))[..cut]) == Incomplete
  {
    var w := Wire(Lines(email));
    if Receive(w[..cut]).Complete? {
      ReceiveMonotone(w[..cut], w[cut..]);
      assert w[..cut] + w[cut..] == w == w + "";
      ReceiverRecoversLines(email, "");
    }
  }

  // ---- When the delivered text is the message itself ----

  // Every line of the text ends in CRLF, the last one included.
  predicate CrlfTerminated(s: string) {
    && (s == [] || s[|s| - 1] == '\n')
    && forall i :: 0 <= i < |s| && s[i] == '\n' ==> i > 0 && s[i - 1] == '\r'
  }

  lemma {:induction false} VerbatimIffCrlfTerminated(email: string)
    ensures CrlfText(Lines(email)) == email <==> CrlfTerminated(email)
    decreases |email|
  {
    var i := IndexOf(email, '\n');
    if email == [] {
    } else if i == |email| {
      assert |CrlfText([email])| == |email| + 2;
    } else {
      VerbatimIffCrlfTerminated(email[i + 1..]);
      if i > 0 && email[i - 1] == '\r' {
        FirstLineVerbatim(email, i);
        TailCrlfTerminated(email, i);
      } else {
        FirstLineChanged(email, i);
      }
    }
  }

  lemma FirstLineVerbatim(email: string, i: nat)
    requires i < |email| && i == IndexOf(email, '\n') && i > 0 && email[i - 1] == '\r'
    ensures CrlfText(Lines(email)) == email <==> CrlfText(Lines(email[i + 1..])) == email[i + 1..]
  {
    FirstLineOut(email, i);
    CrBack(email, i);
    SamePrefix(email[..i + 1], CrlfText(Lines(email[i + 1..])), email[i + 1..]);
    assert email == email[..i + 1] + email[i + 1..];
  }

  lemma CrBack(email: string, i: nat)
    requires 0 < i < |email| && email[i] == '\n' && email[i - 1] == '\r'
    ensures StripCr(email[..i]) + "\r\n" == email[..i + 1]
  {
    var cut := email[..i];
    assert cut[|cut| - 1] == '\r' && StripCr(cut) == email[..i - 1];
  }

  lemma FirstLineChanged(email: string, i: nat)
    requires i < |email| && i == IndexOf(email, '\n') && (i == 0 || email[i - 1] != '\r')
    ensures CrlfText(Lines(email)) != email && !CrlfTerminated(email)
  {
    FirstLineOut(email, i);
    assert StripCr(email[..i]) == email[..i];
    assert CrlfText(Lines(email))[i] == '\r';
  }

  lemma FirstLineOut(email: string, i: nat)
    requires i < |email| && i == IndexOf(email, '\n')
    ensures CrlfText(Lines(email)) == StripCr(email[..i]) + "\r\n" + CrlfText(Lines(email[i + 1..]))
  {
    LinesFirst(email, i);
    CrlfFirst(StripCr(email[..i]), Lines(email[i + 1..]));
  }

  lemma LinesFirst(email: string, i: nat)
    requires i < |email| && email[i] == '\n' && forall j :: 0 <= j < i ==> email[j] != '\n'
    ensures Lines(email) == [StripCr(email[..i])] + Lines(email[i + 1..])
  {
    IndexOfIs(email, '\n', i);
  }

  lemma CrlfFirst(line: string, lines: seq<string>)
    ensures CrlfText([line] + lines) == line + "\r\n" + CrlfText(lines)
  {
    assert ([line] + lines)[1..] == lines;
  }

  lemma SamePrefix(p: string, a: string, b: string)
    ensures p + a == p + b <==> a == b
  {
    if p + a == p + b {
      assert (p + a)[|p|..] == a && (p + b)[|p|..] == b;
    }
  }

  lemma TailCrlfTerminated(s: string, i: nat)
    requires i < |s| && s[i] == '\n' && i > 0 && s[i - 1] == '\r'
    requires forall j :: 0 <= j < i ==> s[j] != '\n'
    ensures CrlfTerminated(s) <==> CrlfTerminated(s[i + 1..])
  {
    var t := s[i + 1..];
    if CrlfTerminated(t) {
      forall j | 0 <= j < |s| && s[j] == '\n'
        ensures j > 0 && s[j - 1] == '\r'
      {
        if j > i { assert t[j - i - 1] == '\n'; }
      }
    }
    if CrlfTerminated(s) {
      forall j | 0 <= j < |t| && t[j] == '\n'
        ensures j > 0 && t[j - 1] == '\r'
      {
        assert s[j + i + 1] == '\n';
      }
    }
  }

  // A line that ends in a bare line feed is delivered with CRLF.
  lemma BareLineFeedIsChanged()
    ensures CrlfText(Lines("a\n")) == "a\r\n" != "a\n"
  {
    var s := "a\n";
    IndexOfIs(s, '\n', 1);
    FirstLineOut(s, 1);
    assert s[..1] == "a" && s[2..] == "" && StripCr("a") == "a";
    assert "a" + "\r\n" + "" == "a\r\n";
  }
}

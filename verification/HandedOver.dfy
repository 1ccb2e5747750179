// What the filter hands to the mail server, said of the message, the envelope and what the
// servers do.
module HandedOver {
  import opened Text
  import opened TextFacts
  import opened DataPhase
  import opened SmtpSession

  // ---- Which message each session writes ----

  // The k-th text was written, and right after DATA was answered with 354.
  predicate AfterData(t: Trace, k: nat)
    requires k <= |t.log|
  {
    k > 0 && t.log[k - 1].sent == "DATA\r\n" && StartsWith(t.log[k - 1].reply, "354") && TextAt(t, k) != ""
  }

  lemma WireEnds(lines: seq<string>)
    ensures var w := Wire(lines); |w| >= 3 && w[|w| - 3] == '.'
  {
  }

  // Only DATA is written as DATA.
  lemma DataIsData(e: Envelope, s: Stage)
    requires Sent(e, s) == "DATA\r\n"
    ensures s.Data?
  {
    var text := "DATA\r\n";
    assert text[0] == 'D' && text[|text| - 3] == 'A';
    match s
    case Mail => MailBegins(e.sender, Params(e.email));
    case MailPlain => PlainBegins(e.sender);
    case Rcpt(i) => RcptBegins(e, i);
    case Content => WireEnds(Lines(e.email));
    case _ =>
  }

  lemma MailBegins(sender: string, params: string)
    ensures ("MAIL FROM:<" + sender + ">" + params + "\r\n")[0] == 'M'
  {
  }

  lemma PlainBegins(sender: string)
    ensures ("MAIL FROM:<" + sender + ">\r\n")[0] == 'M'
  {
  }

  lemma RcptBegins(e: Envelope, i: nat)
    ensures Sent(e, Rcpt(i)) == "" || Sent(e, Rcpt(i))[0] == 'R'
  {
    if i < |e.recipients| { assert ("RCPT TO:<" + e.recipients[i] + ">\r\n")[0] == 'R'; }
  }

  lemma {:induction false} FaithfulAt(e: Envelope, s: Stage, log: seq<Exchange>, k: nat)
    requires Faithful(e, s, log) && k < |log|
    ensures log[k].sent == Sent(e, EndStage(e, s, log[..k])) && !Ended(EndStage(e, s, log[..k]))
    ensures EndStage(e, s, log[..k + 1]) == After(e, EndStage(e, s, log[..k]), log[k].reply)
    decreases k
  {
    if k == 0 {
      assert log[..1][1..] == [];
    } else {
      FaithfulAt(e, After(e, s, log[0].reply), log[1..], k - 1);
      assert log[1..][..k - 1] == log[..k][1..] && log[1..][..k] == log[..k + 1][1..];
    }
  }

  lemma ContentAfterData(e: Envelope, t: Trace, k: nat)
    requires FaithfulTrace(e, Greeting, t) && k <= |t.log| && AfterData(t, k)
    ensures TextAt(t, k) == Wire(Lines(e.email))
  {
    FaithfulAt(e, Greeting, t.log, k - 1);
    DataIsData(e, EndStage(e, Greeting, t.log[..k - 1]));
    assert EndStage(e, Greeting, t.log[..k]) == Content;
    if k < |t.log| {
      FaithfulAt(e, Greeting, t.log, k);
    } else {
      assert t.log[..k] == t.log;
    }
  }

  // The first session writes the rewritten message and no other, the second the message as
  // it came.
  lemma EachSessionWritesItsOwn(j: Job, first: Peer, second: Peer)
    ensures var (_, t1, t2) := FilterRun(j, first, second);
      && (forall k :: 0 <= k <= |t1.log| && AfterData(t1, k) ==> TextAt(t1, k) == Wire(Lines(j.outgoing)))
      && (forall k :: 0 <= k <= |t2.log| && AfterData(t2, k) ==> TextAt(t2, k) == Wire(Lines(j.original)))
  {
    var (_, t1, t2) := FilterRun(j, first, second);
    SessionFacts(First(j), first);
    SessionFacts(Fallback(j), second);
    forall k | 0 <= k <= |t1.log| && AfterData(t1, k)
      ensures TextAt(t1, k) == Wire(Lines(j.outgoing))
    {
      ContentAfterData(First(j), t1, k);
    }
    forall k | 0 <= k <= |t2.log| && AfterData(t2, k)
      ensures TextAt(t2, k) == Wire(Lines(j.original))
    {
      ContentAfterData(Fallback(j), t2, k);
    }
  }

  // ---- What a delivered run did ----

  // The sender was named, then each recipient in order, then the message was written and
  // acknowledged; nothing else in between.
  ghost predicate HandedAt(log: seq<Exchange>, email: string, sender: string, recipients: seq<string>, k: nat) {
    var n := |recipients|;
    && k + n + 2 < |log|
    && StartsWith(log[k].sent, "MAIL FROM:<" + sender + ">") && StartsWith(log[k].reply, "250")
    && (forall i :: 0 <= i < n ==> Answered(log[k + 1 + i], "RCPT TO:<" + recipients[i] + ">\r\n", "250"))
    && Answered(log[k + n + 1], "DATA\r\n", "354")
    && Answered(log[k + n + 2], Wire(Lines(email)), "250")
  }

  ghost predicate Handed(log: seq<Exchange>, email: string, sender: string, recipients: seq<string>) {
    exists k :: HandedAt(log, email, sender, recipients, k)
  }

  lemma CompleteIsHanded(e: Envelope, log: seq<Exchange>)
    requires CompleteSession(e, log)
    ensures Handed(log, e.email, e.sender, e.recipients)
  {
    var k := if Params(e.email) != "" && Permanent(log[2].reply) then 3 else 2;
    var rest := log[k + 1..];
    MailText(e.sender, Params(e.email));
    assert RecipientsThenData(e, 0, rest);
    HandedFrom(e, log, k, rest);
  }

  lemma MailText(sender: string, params: string)
    ensures StartsWith("MAIL FROM:<" + sender + ">" + params + "\r\n", "MAIL FROM:<" + sender + ">")
    ensures StartsWith("MAIL FROM:<" + sender + ">\r\n", "MAIL FROM:<" + sender + ">")
  {
    var m := "MAIL FROM:<" + sender + ">";
    assert (m + params + "\r\n")[..|m|] == m;
    assert "MAIL FROM:<" + sender + ">\r\n" == m + "\r\n";
    assert (m + "\r\n")[..|m|] == m;
  }

  lemma HandedFrom(e: Envelope, log: seq<Exchange>, k: nat, rest: seq<Exchange>)
    requires k < |log| && rest == log[k + 1..] && RecipientsThenData(e, 0, rest)
    requires StartsWith(log[k].sent, "MAIL FROM:<" + e.sender + ">") && StartsWith(log[k].reply, "250")
    ensures HandedAt(log, e.email, e.sender, e.recipients, k)
  {
    var n := |e.recipients|;
    var last := rest[n..];
    assert Finish(e, last);
    assert last[0] == log[k + n + 1] && last[1] == log[k + n + 2];
    forall i | 0 <= i < n
      ensures Answered(log[k + 1 + i], "RCPT TO:<" + e.recipients[i] + ">\r\n", "250")
    {
      assert rest[i] == log[k + 1 + i] && e.recipients[0 + i] == e.recipients[i];
    }
  }

  // A run that says delivered handed the rewritten message to the first server, for the
  // sender and every recipient, or, if that session failed, the original to the second.
  lemma DeliveredIsHanded(j: Job, first: Peer, second: Peer)
    ensures var (exit, t1, t2) := FilterRun(j, first, second);
      exit == Delivered ==>
        if t2 == Silent then Handed(t1.log, j.outgoing, j.sender, j.recipients)
        else Handed(t2.log, j.original, j.sender, j.recipients)
  {
    if FilterRun(j, first, second).0 == Delivered {
      if Session(First(j), first).0.Ok? {
        OkIsHanded(First(j), first);
      } else {
        OkIsHanded(Fallback(j), second);
      }
    }
  }

  lemma OkIsHanded(e: Envelope, peer: Peer)
    requires Session(e, peer).0.Ok?
    ensures var log := Session(e, peer).1.log; log != [] && Handed(log, e.email, e.sender, e.recipients)
  {
    OkSessionIsComplete(e, peer);
    CompleteIsHanded(e, Session(e, peer).1.log);
  }

  // A server that cannot be reached in time stops the run; one that refuses for another
  // reason makes the filter hand over the original.
  lemma RefusedFirst(j: Job, kind: ErrorKind) returns (second: Peer)
    requires j.readOk && !j.limited && !j.suppressed
    requires SafeAddress(j.sender) && forall i :: 0 <= i < |j.recipients| ==> SafeAddress(j.recipients[i])
    ensures var (exit, t1, t2) := FilterRun(j, Refused(kind), second);
      if kind == TimedOut || kind == WouldBlock then exit == TempFail && t1 == Silent && t2 == Silent
      else exit == Delivered && t1 == Silent && Handed(t2.log, j.original, j.sender, j.recipients)
  {
    second := CompletesWell(Fallback(j));
    if kind != TimedOut && kind != WouldBlock {
      AfterRefusal(j, kind, second);
    }
  }

  lemma AfterRefusal(j: Job, kind: ErrorKind, second: Peer)
    requires j.readOk && !j.limited && !j.suppressed && kind != TimedOut && kind != WouldBlock
    requires SafeEnvelope(Fallback(j)) && Session(Fallback(j), second).0.Ok?
    ensures FilterRun(j, Refused(kind), second) == (Delivered, Silent, Session(Fallback(j), second).1)
    ensures Handed(Session(Fallback(j), second).1.log, j.original, j.sender, j.recipients)
  {
    OkIsHanded(Fallback(j), second);
    assert Session(First(j), Refused(kind)) == (Err(kind), Silent);
  }

  // ---- Parameters and refusals ----

  predicate Plain7Bit(s: string) {
    forall i :: 0 <= i < |s| ==> s[i] as int < 128
  }

  // The header of a message, up to its first blank line with CRLF or, without one, with LF.
  ghost predicate HeaderBefore(email: string, header: string, body: string) {
    || (email == header + "\r\n\r\n" + body && Find(email, "\r\n\r\n") == Some(|header|))
    || (email == header + "\n\n" + body && !Contains(email, "\r\n\r\n") && Find(email, "\n\n") == Some(|header|))
    || (email == header && body == "" && !Contains(email, "\r\n\r\n") && !Contains(email, "\n\n"))
  }

  lemma HeaderIs(email: string, header: string, body: string)
    requires HeaderBefore(email, header, body)
    ensures HeaderText(email) == header
  {
    assert email == header + "\r\n\r\n" + body ==> email[..|header|] == header;
    assert email == header + "\n\n" + body ==> email[..|header|] == header;
  }

  lemma SevenBitIff(s: string)
    ensures IsAscii(s) <==> Plain7Bit(s)
  {
  }

  lemma ParamsAre(email: string, header: string)
    requires HeaderText(email) == header
    ensures Params(email) == if Plain7Bit(email) then "" else if Plain7Bit(header) then " BODY=8BITMIME"
                             else " BODY=8BITMIME SMTPUTF8"
  {
    SevenBitIff(email);
    SevenBitIff(header);
  }

  // MAIL asks for what the message needs: nothing for seven bits, 8BITMIME for more, and
  // SMTPUTF8 when the header has more.
  lemma ParamsNeeded(e: Envelope, header: string, body: string)
    requires HeaderBefore(e.email, header, body)
    ensures Sent(e, Mail)
         == "MAIL FROM:<" + e.sender + ">"
            + (if Plain7Bit(e.email) then "" else if Plain7Bit(header) then " BODY=8BITMIME" else " BODY=8BITMIME SMTPUTF8")
            + "\r\n"
  {
    HeaderIs(e.email, header, body);
    ParamsAre(e.email, header);
  }

  // A reply refuses for good if its first character that is no white space is a 5.
  ghost predicate BeginsWith5(reply: string) {
    exists w, b :: Blank(w) && reply == w + ("5" + b)
  }

  lemma PermanentBegins(reply: string)
    requires Permanent(reply)
    ensures BeginsWith5(reply)
  {
    var t, w := TrimStart(reply), StartCut(reply);
    assert t == "5" + t[1..];
    assert reply == w + ("5" + t[1..]);
  }

  lemma BeginsPermanent(reply: string, w: string, b: string)
    requires Blank(w) && reply == w + ("5" + b)
    ensures Permanent(reply)
  {
    TrimStartIs(w, "5" + b);
    assert ("5" + b)[..1] == "5";
  }

  lemma PermanentIff(reply: string)
    ensures Permanent(reply) <==> BeginsWith5(reply)
  {
    if Permanent(reply) { PermanentBegins(reply); }
    if BeginsWith5(reply) {
      var w, b :| Blank(w) && reply == w + ("5" + b);
      BeginsPermanent(reply, w, b);
    }
  }

  // ---- Envelope addresses ----

  ghost predicate CleanPart(s: string) {
    s != "" && s[0] != '.' && s[|s| - 1] != '.' && forall i :: 0 <= i < |s| - 1 ==> !(s[i] == '.' && s[i + 1] == '.')
  }

  ghost predicate CleanAddress(s: string, local: string, domain: string) {
    && s == local + "@" + domain && '@' !in local && '@' !in domain
    && CleanPart(local) && CleanPart(domain) && '.' in domain
    && forall i :: 0 <= i < |s| ==> 32 <= s[i] as int != 127
  }

  lemma DotsAt(s: string, i: int)
    ensures MatchAt(s, i, "..") <==> 0 <= i < |s| - 1 && s[i] == '.' && s[i + 1] == '.'
  {
    if 0 <= i < |s| - 1 { assert s[i..i + 2] == [s[i], s[i + 1]]; }
  }

  lemma NoDotsIff(s: string)
    ensures !Contains(s, "..") <==> forall i :: 0 <= i < |s| - 1 ==> !(s[i] == '.' && s[i + 1] == '.')
  {
    match Find(s, "..")
    case Some(k) => DotsAt(s, k);
    case None =>
      forall i | 0 <= i < |s| - 1
        ensures !(s[i] == '.' && s[i + 1] == '.')
      {
        DotsAt(s, i);
      }
  }

  lemma CleanPartIff(s: string)
    ensures SafePart(s) <==> CleanPart(s)
  {
    NoDotsIff(s);
  }

  // A session is opened exactly for addresses with one at sign, no control characters, and
  // parts without leading, trailing or doubled dots, the domain with a dot inside.
  lemma SafeAddressIff(s: string)
    ensures SafeAddress(s) <==> exists local, domain :: CleanAddress(s, local, domain)
  {
    var at := IndexOf(s, '@');
    if SafeAddress(s) {
      CleanPartIff(s[..at]);
      CleanPartIff(s[at + 1..]);
      assert CleanAddress(s, s[..at], s[at + 1..]);
    }
    if exists local, domain :: CleanAddress(s, local, domain) {
      var local, domain :| CleanAddress(s, local, domain);
      CleanIsSafe(s, local, domain);
    }
  }

  lemma CleanIsSafe(s: string, local: string, domain: string)
    requires CleanAddress(s, local, domain)
    ensures SafeAddress(s)
  {
    assert forall k :: 0 <= k < |local| ==> s[k] == local[k];
    IndexOfIs(s, '@', |local|);
    assert s[..|local|] == local && s[|local| + 1..] == domain;
    CleanPartIff(local);
    CleanPartIff(domain);
  }

  // ---- Replies and faults ----

  // A line ends a reply if and only if three characters and a space begin it.
  lemma FinalIff(line: string)
    ensures IsFinal(line) <==> exists code, text :: |code| == 3 && line == code + (" " + text)
  {
    if IsFinal(line) {
      assert line == line[..3] + (" " + line[4..]);
    }
  }

  // One stage answered by one line, whatever the next writes will do.
  lemma OneStage(e: Envelope, s: Stage, line: string, rest: seq<LineEvent>, writes: seq<WriteEvent>, next: Stage)
    requires !Ended(s) && IsFinal(line) && After(e, s, line) == next && !FailsToWrite(Sent(e, s), writes)
    ensures var more := Play(e, next, rest, AfterWrite(Sent(e, s), writes));
      Play(e, s, [Line(line)] + rest, writes) == (more.0, Behind([Exchange(Sent(e, s), line)], more.1))
  {
    var input := [Line(line)] + rest;
    assert "" + line == line && input[1..] == rest;
    assert ReadReply(input, "") == (Reply(line), rest);
    StageReplies(e, s, input, writes, line);
  }

  // Nothing is written before the greeting: a connection that fails at the first write has
  // been greeted, and nothing else was done.
  lemma FirstWriteFails(e: Envelope, line: string, kind: ErrorKind)
    requires SafeEnvelope(e) && IsFinal(line) && StartsWith(line, "220")
    ensures Session(e, Answers([Line(line)], [WriteFault(kind)])) == (Err(kind), Trace([Exchange("", line)], ""))
  {
    OneStage(e, Greeting, line, [], [WriteFault(kind)], Ehlo);
    FaultAt(e, Ehlo, kind);
    assert [Line(line)] + [] == [Line(line)];
    assert [Exchange("", line)] + [] == [Exchange("", line)];
  }

  lemma FaultAt(e: Envelope, s: Stage, kind: ErrorKind)
    requires s == Ehlo || s == Mail
    ensures Play(e, s, [], [WriteFault(kind)]) == (Err(kind), Silent)
  {
    StageFails(e, s, [], [WriteFault(kind)], kind);
  }

  // One whose first write works and whose second fails has had an answer to EHLO.
  lemma SecondWriteFails(e: Envelope, line: string, hello: string, kind: ErrorKind)
    requires SafeEnvelope(e) && IsFinal(line) && StartsWith(line, "220") && IsFinal(hello) && StartsWith(hello, "250")
    ensures Session(e, Answers([Line(line)] + [Line(hello)], [WriteOk, WriteFault(kind)]))
         == (Err(kind), Trace([Exchange("", line)] + [Exchange("EHLO localhost\r\n", hello)], ""))
  {
    var writes := [WriteOk, WriteFault(kind)];
    OneStage(e, Greeting, line, [Line(hello)], writes, Ehlo);
    AfterHello(e, hello, kind, writes);
  }

  lemma AfterHello(e: Envelope, hello: string, kind: ErrorKind, writes: seq<WriteEvent>)
    requires IsFinal(hello) && StartsWith(hello, "250") && writes == [WriteOk, WriteFault(kind)]
    ensures Play(e, Ehlo, [Line(hello)], writes) == (Err(kind), Trace([Exchange("EHLO localhost\r\n", hello)], ""))
  {
    assert writes[1..] == [WriteFault(kind)] && [Line(hello)] + [] == [Line(hello)];
    OneStage(e, Ehlo, hello, [], writes, Mail);
    FaultAt(e, Mail, kind);
    assert [Exchange("EHLO localhost\r\n", hello)] + [] == [Exchange("EHLO localhost\r\n", hello)];
  }
}

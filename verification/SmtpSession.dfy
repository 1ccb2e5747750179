// Handing a message back to the mail server: the SMTP client session and the filter's
// exit, with a failure possible at every read and write.
module SmtpSession {
  import opened Text
  import opened DataPhase

  datatype ErrorKind = TimedOut | WouldBlock | UnexpectedEof | InvalidInput | OtherError

  // ---- Reading one reply ----

  // One read_line call: a line with its line ending, no bytes at all, or an error.
  datatype LineEvent = Line(text: string) | ReadFault(kind: ErrorKind)

  datatype Reply = Reply(text: string) | NoReply(kind: ErrorKind)

  predicate IsFinal(line: string) {
    |line| >= 4 && line[3] == ' '
  }

  // The reply at the front of the input, and what is left of the input.
  function ReadReply(input: seq<LineEvent>, acc: string): (Reply, seq<LineEvent>) {
    if input == [] then (NoReply(UnexpectedEof), [])
    else
      match input[0]
      case ReadFault(kind) => (NoReply(kind), input[1..])
      case Line(text) =>
        if text == [] then (NoReply(UnexpectedEof), input[1..])
        else if IsFinal(text) then (Reply(acc + text), input[1..])
        else ReadReply(input[1..], acc + text)
  }

  // A run of lines of which only the last is final.
  predicate OneReply(lines: seq<string>) {
    && lines != []
    && IsFinal(lines[|lines| - 1])
    && forall i :: 0 <= i < |lines| ==> lines[i] != [] && (i < |lines| - 1 ==> !IsFinal(lines[i]))
  }

  function AsEvents(lines: seq<string>): seq<LineEvent> {
    if lines == [] then [] else [Line(lines[0])] + AsEvents(lines[1..])
  }

  // A complete reply is read whole, whatever follows it.
  lemma {:induction false} CompleteReplyIsRead(lines: seq<string>, rest: seq<LineEvent>, acc: string)
    requires OneReply(lines)
    ensures ReadReply(AsEvents(lines) + rest, acc) == (Reply(acc + Concat(lines)), rest)
  {
    var tail := lines[1..];
    EventsFirst(lines[0], tail, rest);
    assert [lines[0]] + tail == lines;
    if tail == [] {
      assert AsEvents(tail) + rest == rest;
      assert lines[0] + Concat(tail) == lines[0];
    } else {
      TailIsOneReply(lines);
      CompleteReplyIsRead(tail, rest, acc + lines[0]);
      assert (acc + lines[0]) + Concat(tail) == acc + (lines[0] + Concat(tail));
    }
  }

  lemma EventsFirst(line: string, tail: seq<string>, rest: seq<LineEvent>)
    ensures AsEvents([line] + tail) + rest == [Line(line)] + (AsEvents(tail) + rest)
    ensures ([Line(line)] + (AsEvents(tail) + rest))[1..] == AsEvents(tail) + rest
  {
    assert ([line] + tail)[1..] == tail;
  }

  lemma TailIsOneReply(lines: seq<string>)
    requires OneReply(lines) && |lines| > 1
    ensures OneReply(lines[1..]) && lines[0] != [] && !IsFinal(lines[0])
  {
    forall i | 0 <= i < |lines| - 1
      ensures lines[1..][i] == lines[i + 1]
    {
    }
  }

  // ---- Safe envelope addresses ----

  predicate SafePart(s: string) {
    && s != [] && s[0] != '.' && s[|s| - 1] != '.' && !Contains(s, "..")
  }

  predicate SafeAddress(s: string) {
    && (forall i :: 0 <= i < |s| ==> !IsControl(s[i]))
    && var at := IndexOf(s, '@');
       at < |s| && '@' !in s[at + 1..] && '.' in s[at + 1..] && SafePart(s[..at]) && SafePart(s[at + 1..])
  }

  // ---- The client ----

  datatype Envelope = Envelope(email: string, sender: string, recipients: seq<string>)

  predicate IsAscii(s: string) {
    forall i :: 0 <= i < |s| ==> s[i] < '\U{80}'
  }

  function HeaderText(email: string): string {
    match Find(email, "\r\n\r\n")
    case Some(i) => email[..i]
    case None =>
      match Find(email, "\n\n")
      case Some(i) => email[..i]
      case None => email
  }

  function Params(email: string): string {
    if IsAscii(email) then ""
    else if IsAscii(HeaderText(email)) then " BODY=8BITMIME"
    else " BODY=8BITMIME SMTPUTF8"
  }

  datatype Stage = Greeting | Ehlo | Mail | MailPlain | Rcpt(i: nat) | Data | Content | Quit | Done | Rejected

  // The stage in which the i-th recipient is named, or DATA when there are no more.
  function RcptFrom(e: Envelope, i: nat): Stage {
    if i < |e.recipients| then Rcpt(i) else Data
  }

  // What the client writes in a stage.
  function Sent(e: Envelope, s: Stage): string {
    match s
    case Ehlo => "EHLO localhost\r\n"
    case Mail => "MAIL FROM:<" + e.sender + ">" + Params(e.email) + "\r\n"
    case MailPlain => "MAIL FROM:<" + e.sender + ">\r\n"
    case Rcpt(i) => if i < |e.recipients| then "RCPT TO:<" + e.recipients[i] + ">\r\n" else ""
    case Data => "DATA\r\n"
    case Content => Wire(Lines(e.email))
    case Quit => "QUIT\r\n"
    case _ => ""
  }

  function Expect(reply: string, code: string, next: Stage): Stage {
    if StartsWith(reply, code) then next else Rejected
  }

  predicate Permanent(reply: string) {
    StartsWith(TrimStart(reply), "5")
  }

  // The stage after the reply to what was written in stage s.
  function After(e: Envelope, s: Stage, reply: string): Stage {
    match s
    case Greeting => Expect(reply, "220", Ehlo)
    case Ehlo => Expect(reply, "250", Mail)
    case Mail =>
      if Params(e.email) != "" && Permanent(reply) then MailPlain else Expect(reply, "250", RcptFrom(e, 0))
    case MailPlain => Expect(reply, "250", RcptFrom(e, 0))
    case Rcpt(i) => Expect(reply, "250", RcptFrom(e, i + 1))
    case Data => Expect(reply, "354", Content)
    case Content => Expect(reply, "250", Quit)
    case Quit => Done
    case _ => Rejected
  }

  // What was written, and the complete reply to it.
  datatype Exchange = Exchange(sent: string, reply: string)

  // What a session leaves behind: the exchanges completed, and the text written after
  // them that got no reply (empty if there is none).
  datatype Trace = Trace(log: seq<Exchange>, unanswered: string)

  function Behind(log: seq<Exchange>, t: Trace): Trace { Trace(log + t.log, t.unanswered) }

  const Silent := Trace([], "")

  datatype WriteEvent = WriteOk | WriteFault(kind: ErrorKind)

  datatype Result = Ok | Err(kind: ErrorKind)

  predicate Ended(s: Stage) { s.Done? || s.Rejected? }

  function Rank(e: Envelope, s: Stage): nat {
    var n := |e.recipients|;
    match s
    case Greeting => n + 8
    case Ehlo => n + 7
    case Mail => n + 6
    case MailPlain => n + 5
    case Rcpt(i) => if i < n then n - i + 4 else 4
    case Data => 3
    case Content => 2
    case Quit => 1
    case _ => 0
  }

  // The session from stage s on, against what the connection will do.
  function Play(e: Envelope, s: Stage, input: seq<LineEvent>, writes: seq<WriteEvent>): (Result, Trace)
    decreases Rank(e, s)
  {
    if s.Done? then (Ok, Silent)
    else if s.Rejected? then (Err(OtherError), Silent)
    else
      var text := Sent(e, s);
      if FailsToWrite(text, writes) then (Err(writes[0].kind), Silent)
      else
        var (r, input') := ReadReply(input, "");
        match r
        case NoReply(kind) => (Err(kind), Trace([], text))
        case Reply(t) =>
          RankDrops(e, s, t);
          var (res, trace) := Play(e, After(e, s, t), input', AfterWrite(text, writes));
          (res, Behind([Exchange(text, t)], trace))
  }

  predicate FailsToWrite(text: string, writes: seq<WriteEvent>) {
    text != [] && writes != [] && writes[0].WriteFault?
  }

  function AfterWrite(text: string, writes: seq<WriteEvent>): seq<WriteEvent> {
    if text != [] && writes != [] then writes[1..] else writes
  }

  // ---- The connection and the client program ----

  // A session that fails in its first stage completes no exchange.
  lemma StageFails(e: Envelope, s: Stage, input: seq<LineEvent>, writes: seq<WriteEvent>, kind: ErrorKind)
    requires !Ended(s)
    requires if FailsToWrite(Sent(e, s), writes) then kind == writes[0].kind
             else ReadReply(input, "").0 == NoReply(kind)
    ensures Play(e, s, input, writes) ==
            (Err(kind), Trace([], if FailsToWrite(Sent(e, s), writes) then "" else Sent(e, s)))
  {
  }

  // Otherwise it is the first exchange and the session from the next stage on.
  lemma StageReplies(e: Envelope, s: Stage, input: seq<LineEvent>, writes: seq<WriteEvent>, t: string)
    requires !Ended(s) && !FailsToWrite(Sent(e, s), writes)
    requires ReadReply(input, "").0 == Reply(t)
    ensures var rest := Play(e, After(e, s, t), ReadReply(input, "").1, AfterWrite(Sent(e, s), writes));
      Play(e, s, input, writes) == (rest.0, Behind([Exchange(Sent(e, s), t)], rest.1))
  {
  }

  // The whole session is what is in the log, followed by the session from stage s on.
  ghost predicate ResumesAt(e: Envelope, whole: (Result, Trace), s: Stage,
                            input: seq<LineEvent>, writes: seq<WriteEvent>, log: seq<Exchange>)
  {
    var (res, more) := Play(e, s, input, writes);
    whole == (res, Behind(log, more))
  }

  lemma ResumesAfter(e: Envelope, whole: (Result, Trace), s: Stage,
                     input: seq<LineEvent>, writes: seq<WriteEvent>, log: seq<Exchange>, t: string)
    requires !Ended(s) && !FailsToWrite(Sent(e, s), writes)
    requires ReadReply(input, "").0 == Reply(t) && ResumesAt(e, whole, s, input, writes, log)
    ensures ResumesAt(e, whole, After(e, s, t), ReadReply(input, "").1, AfterWrite(Sent(e, s), writes),
                      log + [Exchange(Sent(e, s), t)])
  {
    StageReplies(e, s, input, writes, t);
    var x, more := Exchange(Sent(e, s), t), Play(e, After(e, s, t), ReadReply(input, "").1, AfterWrite(Sent(e, s), writes)).1;
    assert log + ([x] + more.log) == (log + [x]) + more.log;
  }

  lemma AfterMail(e: Envelope, t: string)
    ensures After(e, Mail, t) == if Params(e.email) != "" && Permanent(t) then MailPlain
                                 else if StartsWith(t, "250") then RcptFrom(e, 0) else Rejected
  {
  }

  class Connection {
    var input: seq<LineEvent>
    var writes: seq<WriteEvent>
    ghost var log: seq<Exchange>
    ghost var unanswered: string

    constructor (input: seq<LineEvent>, writes: seq<WriteEvent>)
      ensures this.input == input && this.writes == writes && log == [] && unanswered == ""
    {
      this.input, this.writes, log, unanswered := input, writes, [], "";
    }

    method ReadResponse() returns (r: Reply)
      modifies this`input
      ensures (r, input) == ReadReply(old(input), "")
    {
      var response := "";
      while input != []
        invariant ReadReply(input, response) == ReadReply(old(input), "")
        decreases |input|
      {
        var event := input[0];
        input := input[1..];
        if event.ReadFault? {
          return NoReply(event.kind);
        }
        if event.text == [] {
          return NoReply(UnexpectedEof);
        }
        response := response + event.text;
        if IsFinal(event.text) {
          return Reply(response);
        }
      }
      r := NoReply(UnexpectedEof);
    }

    // Writes a text (nothing before the greeting) and reads the reply to it.
    method Turn(text: string) returns (r: Reply)
      modifies this
      ensures if FailsToWrite(text, old(writes))
              then r == NoReply(old(writes)[0].kind) && log == old(log) && unanswered == ""
              else (r, input) == ReadReply(old(input), "") && writes == AfterWrite(text, old(writes))
                   && (log, unanswered) == if r.Reply? then (old(log) + [Exchange(text, r.text)], "") else (old(log), text)
    {
      unanswered := "";
      if text != [] && writes != [] {
        var w := writes[0];
        writes := writes[1..];
        if w.WriteFault? {
          return NoReply(w.kind);
        }
      }
      unanswered := text;
      r := ReadResponse();
      if r.Reply? {
        log, unanswered := log + [Exchange(text, r.text)], "";
      }
    }

    ghost predicate Resumes(e: Envelope, whole: (Result, Trace), s: Stage)
      reads this
    {
      unanswered == "" && ResumesAt(e, whole, s, input, writes, log)
    }

    ghost function Left(): Trace
      reads this
    {
      Trace(log, unanswered)
    }

    // One stage of the session.
    method Say(e: Envelope, ghost whole: (Result, Trace), ghost s: Stage, text: string) returns (r: Reply)
      requires Resumes(e, whole, s) && !Ended(s) && text == Sent(e, s)
      modifies this
      ensures match r
              case Reply(t) => Resumes(e, whole, After(e, s, t))
              case NoReply(kind) => whole == (Err(kind), Left())
    {
      ghost var input0, writes0, before := input, writes, log;
      r := Turn(text);
      if r.Reply? {
        ResumesAfter(e, whole, s, input0, writes0, before, r.text);
      } else {
        StageFails(e, s, input0, writes0, r.kind);
        assert before + [] == before;
      }
    }

    // One stage whose reply must begin with a code.
    method SayExpecting(e: Envelope, ghost whole: (Result, Trace), ghost s: Stage, text: string,
                        code: string, ghost next: Stage) returns (r: Result)
      requires Resumes(e, whole, s) && !Ended(s) && text == Sent(e, s)
      requires forall reply :: After(e, s, reply) == Expect(reply, code, next)
      modifies this
      ensures if r.Ok? then Resumes(e, whole, next) else whole == (r, Left())
    {
      var reply := Say(e, whole, s, text);
      match reply
      case NoReply(kind) => r := Err(kind);
      case Reply(t) =>
        if StartsWith(t, code) {
          r := Ok;
        } else {
          assert log + [] == log;
          r := Err(OtherError);
        }
    }

    // MAIL FROM, once more without parameters if those are refused for good.
    method NameSender(e: Envelope, ghost whole: (Result, Trace)) returns (r: Result)
      requires Resumes(e, whole, Mail)
      modifies this
      ensures if r.Ok? then Resumes(e, whole, RcptFrom(e, 0)) else whole == (r, Left())
    {
      var params := Params(e.email);
      var reply := Say(e, whole, Mail, "MAIL FROM:<" + e.sender + ">" + params + "\r\n");
      match reply
      case NoReply(kind) => r := Err(kind);
      case Reply(t) =>
        AfterMail(e, t);
        if params != "" && Permanent(t) {
          r := SayExpecting(e, whole, MailPlain, "MAIL FROM:<" + e.sender + ">\r\n", "250", RcptFrom(e, 0));
        } else if StartsWith(t, "250") {
          r := Ok;
        } else {
          assert log + [] == log;
          r := Err(OtherError);
        }
    }

    method NameRecipients(e: Envelope, ghost whole: (Result, Trace)) returns (r: Result)
      requires Resumes(e, whole, RcptFrom(e, 0))
      modifies this
      ensures if r.Ok? then Resumes(e, whole, Data) else whole == (r, Left())
    {
      for i := 0 to |e.recipients|
        invariant Resumes(e, whole, RcptFrom(e, i))
      {
        r := SayExpecting(e, whole, Rcpt(i), "RCPT TO:<" + e.recipients[i] + ">\r\n", "250", RcptFrom(e, i + 1));
        if r.Err? {
          return;
        }
      }
      r := Ok;
    }

    method SendMessage(e: Envelope, ghost whole: (Result, Trace)) returns (r: Result)
      requires Resumes(e, whole, Data)
      modifies this
      ensures whole == (r, Left())
    {
      r := SayExpecting(e, whole, Data, "DATA\r\n", "354", Content);
      if r.Err? {
        return;
      }
      var wire := WriteData(e.email);
      r := SayExpecting(e, whole, Content, wire, "250", Quit);
      if r.Err? {
        return;
      }
      var reply := Say(e, whole, Quit, "QUIT\r\n");
      assert log + [] == log;
      r := if reply.Reply? then Ok else Err(reply.kind);
    }
  }

  // How connecting turns out, and what the connection will do.
  datatype Peer = Refused(kind: ErrorKind) | Answers(input: seq<LineEvent>, writes: seq<WriteEvent>)

  predicate SafeEnvelope(e: Envelope) {
    SafeAddress(e.sender) && forall i :: 0 <= i < |e.recipients| ==> SafeAddress(e.recipients[i])
  }

  function Session(e: Envelope, peer: Peer): (Result, Trace) {
    if !SafeEnvelope(e) then (Err(InvalidInput), Silent)
    else
      match peer
      case Refused(kind) => (Err(kind), Silent)
      case Answers(input, writes) => Play(e, Greeting, input, writes)
  }

  method ReinjectSmtp(e: Envelope, peer: Peer) returns (r: Result, ghost trace: Trace)
    ensures r == Session(e, peer).0
    ensures trace == Session(e, peer).1
  {
    trace := Silent;
    if !SafeEnvelope(e) {
      return Err(InvalidInput), Silent;
    }
    if peer.Refused? {
      return Err(peer.kind), Silent;
    }
    var conn := new Connection(peer.input, peer.writes);
    ghost var whole := Play(e, Greeting, peer.input, peer.writes);
    assert Behind([], whole.1) == whole.1;
    r := conn.SayExpecting(e, whole, Greeting, "", "220", Ehlo);
    if r.Ok? {
      r := conn.SayExpecting(e, whole, Ehlo, "EHLO localhost\r\n", "250", Mail);
    }
    if r.Ok? {
      r := conn.NameSender(e, whole);
    }
    if r.Ok? {
      r := conn.NameRecipients(e, whole);
    }
    if r.Ok? {
      r := conn.SendMessage(e, whole);
    }
    trace := conn.Left();
  }

  // ---- What a session did, read off its exchanges ----

  ghost function EndStage(e: Envelope, s: Stage, log: seq<Exchange>): Stage
    decreases |log|
  {
    if log == [] then s else EndStage(e, After(e, s, log[0].reply), log[1..])
  }

  // Every text was the one its stage calls for.
  ghost predicate Faithful(e: Envelope, s: Stage, log: seq<Exchange>)
    decreases |log|
  {
    log == [] || (!Ended(s) && log[0].sent == Sent(e, s) && Faithful(e, After(e, s, log[0].reply), log[1..]))
  }

  // So was the text left without a reply.
  ghost predicate FaithfulTrace(e: Envelope, s: Stage, t: Trace) {
    && Faithful(e, s, t.log)
    && (t.unanswered != "" ==> t.unanswered == Sent(e, EndStage(e, s, t.log)))
  }

  // The result tells whether the last stage was passed.
  ghost predicate Fits(e: Envelope, s: Stage, r: Result, t: Trace) {
    && (r.Ok? <==> EndStage(e, s, t.log) == Done)
    && (EndStage(e, s, t.log) == Rejected ==> r == Err(OtherError))
  }

  lemma {:induction false} PlayIsFaithful(e: Envelope, s: Stage, input: seq<LineEvent>, writes: seq<WriteEvent>)
    ensures var (r, t) := Play(e, s, input, writes);
      FaithfulTrace(e, s, t) && Fits(e, s, r, t)
    decreases Rank(e, s)
  {
    if !Ended(s) {
      var text := Sent(e, s);
      if FailsToWrite(text, writes) {
        StageFails(e, s, input, writes, writes[0].kind);
        FailsFaithfully(e, s, writes[0].kind, "");
      } else {
        var (reply, input') := ReadReply(input, "");
        match reply
        case NoReply(kind) =>
          StageFails(e, s, input, writes, kind);
          FailsFaithfully(e, s, kind, text);
        case Reply(t) =>
          var next, writes' := After(e, s, t), AfterWrite(text, writes);
          StageReplies(e, s, input, writes, t);
          RankDrops(e, s, t);
          PlayIsFaithful(e, next, input', writes');
          var (r, more) := Play(e, next, input', writes');
          FaithfulCons(e, s, t, r, more);
      }
    }
  }

  lemma FailsFaithfully(e: Envelope, s: Stage, kind: ErrorKind, text: string)
    requires !Ended(s) && (text == "" || text == Sent(e, s))
    ensures FaithfulTrace(e, s, Trace([], text)) && Fits(e, s, Err(kind), Trace([], text))
  {
  }

  lemma FaithfulCons(e: Envelope, s: Stage, reply: string, r: Result, more: Trace)
    requires !Ended(s) && FaithfulTrace(e, After(e, s, reply), more) && Fits(e, After(e, s, reply), r, more)
    ensures var t := Behind([Exchange(Sent(e, s), reply)], more); FaithfulTrace(e, s, t) && Fits(e, s, r, t)
  {
    assert ([Exchange(Sent(e, s), reply)] + more.log)[1..] == more.log;
  }

  predicate Answered(x: Exchange, sent: string, code: string) {
    x.sent == sent && StartsWith(x.reply, code)
  }

  ghost predicate Finish(e: Envelope, log: seq<Exchange>) {
    && |log| == 3
    && Answered(log[0], "DATA\r\n", "354")
    && Answered(log[1], Wire(Lines(e.email)), "250")
    && log[2].sent == "QUIT\r\n"
  }

  // From the i-th recipient on: one accepted command each, in order, then the message.
  ghost predicate RecipientsThenData(e: Envelope, i: nat, log: seq<Exchange>)
    requires i <= |e.recipients|
  {
    var n := |e.recipients| - i;
    && |log| == n + 3
    && (forall k :: 0 <= k < n ==> Answered(log[k], "RCPT TO:<" + e.recipients[i + k] + ">\r\n", "250"))
    && Finish(e, log[n..])
  }

  // A session in which everything was accepted. The sender is named a second time
  // exactly when parameters were given and refused for good.
  ghost predicate CompleteSession(e: Envelope, log: seq<Exchange>) {
    && |log| >= 4
    && Answered(log[0], "", "220") && Answered(log[1], "EHLO localhost\r\n", "250")
    && log[2].sent == "MAIL FROM:<" + e.sender + ">" + Params(e.email) + "\r\n"
    && if Params(e.email) != "" && Permanent(log[2].reply)
       then Answered(log[3], "MAIL FROM:<" + e.sender + ">\r\n", "250") && RecipientsThenData(e, 0, log[4..])
       else StartsWith(log[2].reply, "250") && RecipientsThenData(e, 0, log[3..])
  }

  lemma RejectedStays(e: Envelope, log: seq<Exchange>)
    ensures EndStage(e, Rejected, log) == Rejected
  {
    if log != [] { RejectedStays(e, log[1..]); }
  }

  // The log leads from stage s to the end.
  ghost predicate Finishes(e: Envelope, s: Stage, log: seq<Exchange>) {
    Faithful(e, s, log) && EndStage(e, s, log) == Done
  }

  lemma FinishesFirst(e: Envelope, s: Stage, log: seq<Exchange>)
    requires !Ended(s) && Finishes(e, s, log)
    ensures log != [] && log[0].sent == Sent(e, s) && Finishes(e, After(e, s, log[0].reply), log[1..])
    ensures !After(e, s, log[0].reply).Rejected?
  {
    RejectedStays(e, log[1..]);
  }

  // A stage that needs a code got it.
  lemma Passes(e: Envelope, s: Stage, log: seq<Exchange>, code: string, next: Stage)
    requires !Ended(s) && Finishes(e, s, log)
    requires forall reply :: After(e, s, reply) == Expect(reply, code, next)
    ensures log != [] && Answered(log[0], Sent(e, s), code) && Finishes(e, next, log[1..])
  {
    FinishesFirst(e, s, log);
  }

  lemma FinishFrom(e: Envelope, log: seq<Exchange>)
    requires Finishes(e, Data, log)
    ensures Finish(e, log)
  {
    var l1 := log[1..];
    Passes(e, Data, log, "354", Content);
    Passes(e, Content, l1, "250", Quit);
    var l2 := l1[1..];
    FinishesFirst(e, Quit, l2);
    assert l2[1..] == [];
    assert log[1] == l1[0] && log[2] == l2[0];
  }

  lemma {:induction false} RecipientsFrom(e: Envelope, i: nat, log: seq<Exchange>)
    requires i <= |e.recipients|
    requires Finishes(e, RcptFrom(e, i), log)
    ensures RecipientsThenData(e, i, log)
    decreases |e.recipients| - i
  {
    if i == |e.recipients| {
      FinishFrom(e, log);
      assert log[0..] == log;
    } else {
      var rest := log[1..];
      Passes(e, Rcpt(i), log, "250", RcptFrom(e, i + 1));
      RecipientsFrom(e, i + 1, rest);
      RecipientFirst(e, i, log);
    }
  }

  lemma RecipientFirst(e: Envelope, i: nat, log: seq<Exchange>)
    requires i < |e.recipients| && log != [] && RecipientsThenData(e, i + 1, log[1..])
    requires Answered(log[0], "RCPT TO:<" + e.recipients[i] + ">\r\n", "250")
    ensures RecipientsThenData(e, i, log)
  {
    var n, rest := |e.recipients| - i, log[1..];
    assert log[n..] == rest[n - 1..];
    forall k | 0 <= k < n
      ensures Answered(log[k], "RCPT TO:<" + e.recipients[i + k] + ">\r\n", "250")
    {
      if k > 0 { assert log[k] == rest[k - 1] && e.recipients[i + k] == e.recipients[(i + 1) + (k - 1)]; }
    }
  }

  lemma MailFrom(e: Envelope, log: seq<Exchange>)
    requires Finishes(e, Mail, log)
    ensures |log| >= 2 && log[0].sent == Sent(e, Mail)
    ensures if Params(e.email) != "" && Permanent(log[0].reply)
            then Answered(log[1], Sent(e, MailPlain), "250") && RecipientsThenData(e, 0, log[2..])
            else StartsWith(log[0].reply, "250") && RecipientsThenData(e, 0, log[1..])
  {
    var l1 := log[1..];
    FinishesFirst(e, Mail, log);
    if Params(e.email) != "" && Permanent(log[0].reply) {
      Passes(e, MailPlain, l1, "250", RcptFrom(e, 0));
      RecipientsFrom(e, 0, l1[1..]);
      assert l1[1..] == log[2..] && l1[0] == log[1];
    } else {
      RecipientsFrom(e, 0, l1);
    }
  }

  lemma CompleteFrom(e: Envelope, log: seq<Exchange>)
    requires Finishes(e, Greeting, log)
    ensures CompleteSession(e, log)
  {
    Passes(e, Greeting, log, "220", Ehlo);
    var l1 := log[1..];
    Passes(e, Ehlo, l1, "250", Mail);
    var l2 := l1[1..];
    MailFrom(e, l2);
    assert log[1] == l1[0] && log[2] == l2[0] && log[3] == l2[1];
    assert l2[1..] == log[3..] && l2[2..] == log[4..];
  }

  // Success means that everything was answered as it should be, in order.
  lemma OkSessionIsComplete(e: Envelope, peer: Peer)
    requires Session(e, peer).0.Ok?
    ensures SafeEnvelope(e) && CompleteSession(e, Session(e, peer).1.log)
  {
    PlayIsFaithful(e, Greeting, peer.input, peer.writes);
    CompleteFrom(e, Session(e, peer).1.log);
  }

  // ---- When content is written, answered and taken ----

  lemma {:induction false} EndStageSnoc(e: Envelope, s: Stage, log: seq<Exchange>, x: Exchange)
    ensures EndStage(e, s, log + [x]) == After(e, EndStage(e, s, log), x.reply)
    ensures Faithful(e, s, log + [x]) ==>
              Faithful(e, s, log) && !Ended(EndStage(e, s, log)) && x.sent == Sent(e, EndStage(e, s, log))
    decreases |log|
  {
    if log == [] {
      assert log + [x] == [x] && [x][1..] == [];
    } else {
      assert (log + [x])[1..] == log[1..] + [x];
      EndStageSnoc(e, After(e, s, log[0].reply), log[1..], x);
    }
  }

  // Before the client writes message content, the server answered DATA with 354.
  lemma ContentOnlyAfter354(e: Envelope, log: seq<Exchange>)
    requires Faithful(e, Greeting, log) && EndStage(e, Greeting, log) == Content
    ensures log != [] && Answered(log[|log| - 1], "DATA\r\n", "354")
  {
    if log != [] {
      var init, x := log[..|log| - 1], log[|log| - 1];
      assert log == init + [x];
      EndStageSnoc(e, Greeting, init, x);
    }
  }

  lemma {:induction false} EndStageSplit(e: Envelope, s: Stage, a: seq<Exchange>, b: seq<Exchange>)
    ensures EndStage(e, s, a + b) == EndStage(e, EndStage(e, s, a), b)
    decreases |a|
  {
    if a == [] {
      assert a + b == b;
    } else {
      assert (a + b)[1..] == a[1..] + b;
      EndStageSplit(e, After(e, s, a[0].reply), a[1..], b);
    }
  }

  // A session never goes back.
  lemma {:induction false} RankNeverGrows(e: Envelope, s: Stage, log: seq<Exchange>)
    ensures Rank(e, EndStage(e, s, log)) <= Rank(e, s)
    ensures log != [] && !Ended(s) ==> Rank(e, EndStage(e, s, log)) < Rank(e, s)
    decreases |log|
  {
    if log != [] {
      if Ended(s) {
        assert After(e, s, log[0].reply) == Rejected;
      } else {
        RankDrops(e, s, log[0].reply);
      }
      RankNeverGrows(e, After(e, s, log[0].reply), log[1..]);
    }
  }

  // The k-th text written, the unanswered one included.
  function TextAt(t: Trace, k: nat): string
    requires k <= |t.log|
  {
    if k < |t.log| then t.log[k].sent else t.unanswered
  }

  // It is the content, complete with its closing dot line.
  ghost predicate WrittenAt(e: Envelope, t: Trace, k: nat)
    requires k <= |t.log|
  {
    TextAt(t, k) == Wire(Lines(e.email)) && EndStage(e, Greeting, t.log[..k]) == Content
  }

  ghost predicate Wrote(e: Envelope, t: Trace) {
    exists k :: 0 <= k <= |t.log| && WrittenAt(e, t, k)
  }

  // How often the content was written.
  ghost function ContentWrites(e: Envelope, t: Trace): nat {
    |set k | 0 <= k <= |t.log| && WrittenAt(e, t, k)|
  }

  // The content was written at k, and the server said 250 to it.
  ghost predicate AcknowledgedAt(e: Envelope, t: Trace, k: nat)
    requires k <= |t.log|
  {
    WrittenAt(e, t, k) && k < |t.log| && StartsWith(t.log[k].reply, "250")
  }

  ghost predicate Acknowledged(e: Envelope, t: Trace) {
    exists k :: 0 <= k <= |t.log| && AcknowledgedAt(e, t, k)
  }

  // The content was written at k and the client saw no other reply to it than 250: whether
  // the server took the message is then not the client's to know.
  ghost predicate NotRefusedAt(e: Envelope, t: Trace, k: nat)
    requires k <= |t.log|
  {
    WrittenAt(e, t, k) && (k < |t.log| ==> StartsWith(t.log[k].reply, "250"))
  }

  ghost predicate MayBeTaken(e: Envelope, t: Trace) {
    exists k :: 0 <= k <= |t.log| && NotRefusedAt(e, t, k)
  }

  // A session writes its content at no more than one place.
  lemma WrittenAtOnePlace(e: Envelope, t: Trace, k1: nat, k2: nat)
    requires k1 <= |t.log| && k2 <= |t.log| && WrittenAt(e, t, k1) && WrittenAt(e, t, k2)
    ensures k1 == k2
  {
    if k1 < k2 {
      NotTwice(e, t.log, k1, k2);
    } else if k2 < k1 {
      NotTwice(e, t.log, k2, k1);
    }
  }

  lemma NotTwice(e: Envelope, log: seq<Exchange>, k1: nat, k2: nat)
    requires k1 < k2 <= |log| && EndStage(e, Greeting, log[..k1]) == Content
    ensures EndStage(e, Greeting, log[..k2]) != Content
  {
    var more := log[k1..k2];
    assert log[..k2] == log[..k1] + more;
    EndStageSplit(e, Greeting, log[..k1], more);
    RankNeverGrows(e, Content, more);
  }

  lemma WrittenOnce(e: Envelope, t: Trace)
    ensures ContentWrites(e, t) == if Wrote(e, t) then 1 else 0
  {
    var places := set k | 0 <= k <= |t.log| && WrittenAt(e, t, k);
    if Wrote(e, t) {
      var k :| 0 <= k <= |t.log| && WrittenAt(e, t, k);
      forall j | j in places
        ensures j == k
      {
        WrittenAtOnePlace(e, t, j, k);
      }
      assert places == {k};
    } else {
      assert places == {};
    }
  }

  // Acknowledged means that only QUIT was left, or nothing.
  lemma {:induction false} AcknowledgedIff(e: Envelope, t: Trace)
    requires Faithful(e, Greeting, t.log)
    ensures Acknowledged(e, t) <==> EndStage(e, Greeting, t.log).Quit? || EndStage(e, Greeting, t.log).Done?
    decreases |t.log|
  {
    if t.log == [] {
      assert !Acknowledged(e, t);
    } else {
      var init, x := t.log[..|t.log| - 1], t.log[|t.log| - 1];
      assert t.log == init + [x];
      EndStageSnoc(e, Greeting, init, x);
      AcknowledgedIff(e, Trace(init, x.sent));
      AcknowledgedSnoc(e, init, x, t.unanswered);
    }
  }

  lemma AcknowledgedSnoc(e: Envelope, log: seq<Exchange>, x: Exchange, text: string)
    ensures Acknowledged(e, Trace(log + [x], text)) <==>
            Acknowledged(e, Trace(log, x.sent))
            || (Answered(x, Wire(Lines(e.email)), "250") && EndStage(e, Greeting, log) == Content)
  {
    var t, t' := Trace(log, x.sent), Trace(log + [x], text);
    forall k | 0 <= k <= |log|
      ensures WrittenAt(e, t', k) <==> WrittenAt(e, t, k)
    {
      assert t'.log[..k] == log[..k];
    }
    assert t'.log[|log|] == x && log[..|log|] == log;
    if Acknowledged(e, t) {
      var k :| 0 <= k <= |log| && AcknowledgedAt(e, t, k);
      assert AcknowledgedAt(e, t', k);
    }
    if Acknowledged(e, t') {
      var k :| 0 <= k <= |t'.log| && AcknowledgedAt(e, t', k);
      if k < |log| { assert AcknowledgedAt(e, t, k); }
    }
    if Answered(x, Wire(Lines(e.email)), "250") && EndStage(e, Greeting, log) == Content {
      assert AcknowledgedAt(e, t', |log|);
    }
  }

  // The server may have the message when it acknowledged it, and when the session ended
  // with the content written and no reply to it; not otherwise.
  lemma MayBeTakenIff(e: Envelope, t: Trace)
    requires FaithfulTrace(e, Greeting, t)
    ensures MayBeTaken(e, t) <==>
            Acknowledged(e, t) || (EndStage(e, Greeting, t.log) == Content && t.unanswered != "")
  {
    if MayBeTaken(e, t) {
      var k :| 0 <= k <= |t.log| && NotRefusedAt(e, t, k);
      NotRefusedMeans(e, t, k);
    }
    if Acknowledged(e, t) {
      var k :| 0 <= k <= |t.log| && AcknowledgedAt(e, t, k);
      assert NotRefusedAt(e, t, k);
    }
    if EndStage(e, Greeting, t.log) == Content && t.unanswered != "" {
      UnansweredContent(e, t);
      assert NotRefusedAt(e, t, |t.log|);
    }
  }

  lemma NotRefusedMeans(e: Envelope, t: Trace, k: nat)
    requires k <= |t.log| && NotRefusedAt(e, t, k)
    ensures Acknowledged(e, t) || (EndStage(e, Greeting, t.log) == Content && t.unanswered != "")
  {
    if k < |t.log| {
      assert AcknowledgedAt(e, t, k);
    } else {
      assert t.log[..|t.log|] == t.log;
      WireIsNotEmpty(e.email);
    }
  }

  lemma UnansweredContent(e: Envelope, t: Trace)
    requires FaithfulTrace(e, Greeting, t) && EndStage(e, Greeting, t.log) == Content && t.unanswered != ""
    ensures NotRefusedAt(e, t, |t.log|)
  {
    assert t.log[..|t.log|] == t.log;
  }

  lemma WireIsNotEmpty(email: string)
    ensures Wire(Lines(email)) != ""
  {
  }

  lemma SessionFacts(e: Envelope, peer: Peer)
    ensures var (r, t) := Session(e, peer);
      && FaithfulTrace(e, Greeting, t)
      && (r.Ok? <==> EndStage(e, Greeting, t.log) == Done)
      && (Acknowledged(e, t) <==> r.Ok? || EndStage(e, Greeting, t.log) == Quit)
      && (MayBeTaken(e, t) ==> Wrote(e, t))
  {
    var t := Session(e, peer).1;
    if SafeEnvelope(e) && peer.Answers? {
      PlayIsFaithful(e, Greeting, peer.input, peer.writes);
    }
    AcknowledgedIff(e, t);
    if MayBeTaken(e, t) {
      var k :| 0 <= k <= |t.log| && NotRefusedAt(e, t, k);
      assert WrittenAt(e, t, k);
    }
  }

  // ---- Safe addresses keep a command on one line ----

  // A command with a safe address in it ends at its own CRLF and nowhere before.
  lemma EnvelopeCommandsAreOneLine(e: Envelope, s: Stage)
    requires SafeEnvelope(e) && (s.Mail? || s.MailPlain? || (s.Rcpt? && s.i < |e.recipients|))
    ensures Find(Sent(e, s), "\r\n") == Some(|Sent(e, s)| - 2)
  {
    if s.Mail? {
      MailIsOneLine(e);
    } else if s.MailPlain? {
      PlainMailIsOneLine(e);
    } else {
      RcptIsOneLine(e, s.i);
    }
  }

  lemma MailIsOneLine(e: Envelope)
    requires SafeAddress(e.sender)
    ensures Find(Sent(e, Mail), "\r\n") == Some(|Sent(e, Mail)| - 2)
  {
    NoLineFeed(e.sender);
    ParamsOneLine(e.email);
    OneCommand("MAIL FROM:<", e.sender, ">" + Params(e.email));
    assert Sent(e, Mail) == "MAIL FROM:<" + e.sender + (">" + Params(e.email)) + "\r\n";
  }

  lemma PlainMailIsOneLine(e: Envelope)
    requires SafeAddress(e.sender)
    ensures Find(Sent(e, MailPlain), "\r\n") == Some(|Sent(e, MailPlain)| - 2)
  {
    NoLineFeed(e.sender);
    OneCommand("MAIL FROM:<", e.sender, ">");
    assert ">" + "\r\n" == ">\r\n";
    assert Sent(e, MailPlain) == "MAIL FROM:<" + e.sender + ">" + "\r\n";
  }

  lemma RcptIsOneLine(e: Envelope, i: nat)
    requires i < |e.recipients| && SafeAddress(e.recipients[i])
    ensures Find(Sent(e, Rcpt(i)), "\r\n") == Some(|Sent(e, Rcpt(i))| - 2)
  {
    NoLineFeed(e.recipients[i]);
    OneCommand("RCPT TO:<", e.recipients[i], ">");
    assert ">" + "\r\n" == ">\r\n";
    assert Sent(e, Rcpt(i)) == "RCPT TO:<" + e.recipients[i] + ">" + "\r\n";
  }

  lemma OneCommand(verb: string, addr: string, rest: string)
    requires '\n' !in verb && '\n' !in addr && '\n' !in rest
    ensures var c := verb + addr + rest + "\r\n"; Find(c, "\r\n") == Some(|c| - 2)
  {
    OneLine(verb + addr + rest);
  }

  lemma ParamsOneLine(email: string)
    ensures '\n' !in Params(email)
  {
  }

  lemma OneLine(line: string)
    requires '\n' !in line
    ensures Find(line + "\r\n", "\r\n") == Some(|line|)
  {
    LineEnd(line, "");
    assert line + "\r\n" + "" == line + "\r\n";
  }

  lemma NoLineFeed(addr: string)
    requires SafeAddress(addr)
    ensures '\n' !in addr
  {
  }

  // ---- The filter's exit ----

  datatype Exit = Delivered | Discarded | TempFail

  // What is known about a message when it comes to delivery.
  datatype Job = Job(original: string, outgoing: string, sender: string, recipients: seq<string>,
                     readOk: bool, limited: bool, suppressed: bool)

  function First(j: Job): Envelope { Envelope(j.outgoing, j.sender, j.recipients) }

  function Fallback(j: Job): Envelope { Envelope(j.original, j.sender, j.recipients) }

  predicate Timeout(kind: ErrorKind) { kind.TimedOut? || kind.WouldBlock? }

  // Delivery is tried at all.
  predicate Tried(j: Job) { j.readOk && !j.limited && !j.suppressed }

  // The exit, and what the two possible sessions leave behind.
  function FilterRun(j: Job, first: Peer, second: Peer): (Exit, Trace, Trace) {
    if !j.readOk || j.limited then (TempFail, Silent, Silent)
    else if j.suppressed then (Discarded, Silent, Silent)
    else
      var (r1, t1) := Session(First(j), first);
      if r1.Ok? then (Delivered, t1, Silent)
      else if Timeout(r1.kind) then (TempFail, t1, Silent)
      else
        var (r2, t2) := Session(Fallback(j), second);
        (if r2.Ok? then Delivered else TempFail, t1, t2)
  }

  method RunFilter(j: Job, first: Peer, second: Peer)
    returns (exit: Exit, ghost t1: Trace, ghost t2: Trace)
    ensures exit == FilterRun(j, first, second).0
    ensures t1 == FilterRun(j, first, second).1 && t2 == FilterRun(j, first, second).2
  {
    t1, t2 := Silent, Silent;
    if !j.readOk || j.limited {
      return TempFail, Silent, Silent;
    }
    if j.suppressed {
      return Discarded, Silent, Silent;
    }
    var r;
    r, t1 := ReinjectSmtp(First(j), first);
    if r.Ok? {
      return Delivered, t1, Silent;
    }
    if Timeout(r.kind) {
      return TempFail, t1, Silent;
    }
    r, t2 := ReinjectSmtp(Fallback(j), second);
    exit := if r.Ok? then Delivered else TempFail;
  }

  // The first session failed in a way that makes the filter try the unmodified message.
  predicate FallsBack(j: Job, first: Peer) {
    Tried(j) && Session(First(j), first).0.Err? && !Timeout(Session(First(j), first).0.kind)
  }

  // A run discards exactly the suppressed messages, and says delivered only when a server
  // acknowledged the message.
  lemma EveryRunIsAccountedFor(j: Job, first: Peer, second: Peer)
    ensures var (exit, t1, t2) := FilterRun(j, first, second);
      && (exit.Discarded? <==> j.readOk && !j.limited && j.suppressed)
      && (exit.Delivered? ==> Acknowledged(First(j), t1) || Acknowledged(Fallback(j), t2))
      && (!Tried(j) ==> t1 == Silent && t2 == Silent)
      && (t2 != Silent ==> FallsBack(j, first))
  {
    SessionFacts(First(j), first);
    SessionFacts(Fallback(j), second);
  }

  lemma NothingIsWritten(e: Envelope)
    ensures !Wrote(e, Silent) && !Acknowledged(e, Silent) && !MayBeTaken(e, Silent)
  {
    forall k | 0 <= k <= |Silent.log|
      ensures !WrittenAt(e, Silent, k)
    {
      WireIsNotEmpty(e.email);
    }
  }

  // Whatever the servers do, a run writes a complete message at most twice, so two servers
  // at most can have it; twice exactly when the first session wrote it, failed for another
  // reason than a timeout, and the fallback wrote its own.
  lemma WrittenAtMostTwice(j: Job, first: Peer, second: Peer)
    ensures var (_, t1, t2) := FilterRun(j, first, second);
      var n := ContentWrites(First(j), t1) + ContentWrites(Fallback(j), t2);
      && n <= 2
      && (n == 2 <==> FallsBack(j, first) && Wrote(First(j), Session(First(j), first).1)
                      && Wrote(Fallback(j), Session(Fallback(j), second).1))
  {
    var (_, t1, t2) := FilterRun(j, first, second);
    WrittenOnce(First(j), t1);
    WrittenOnce(Fallback(j), t2);
    NothingIsWritten(First(j));
    NothingIsWritten(Fallback(j));
  }

  // The message was taken, for all the client can know, when only QUIT was left or when the
  // reply to the content is missing.
  ghost predicate EndsInDoubt(e: Envelope, t: Trace) {
    || EndStage(e, Greeting, t.log) == Quit
    || (EndStage(e, Greeting, t.log) == Content && t.unanswered != "")
  }

  // Both sessions may have had their message taken exactly when the first was lost at QUIT
  // or at the reply to the content, without a timeout, and the second was not refused.
  lemma TakenTwiceIff(j: Job, first: Peer, second: Peer)
    ensures var (_, t1, t2) := FilterRun(j, first, second);
      MayBeTaken(First(j), t1) && MayBeTaken(Fallback(j), t2)
      <==> FallsBack(j, first) && EndsInDoubt(First(j), Session(First(j), first).1)
           && MayBeTaken(Fallback(j), Session(Fallback(j), second).1)
  {
    SessionFacts(First(j), first);
    MayBeTakenIff(First(j), Session(First(j), first).1);
    NothingIsWritten(First(j));
    NothingIsWritten(Fallback(j));
  }

  // Both were acknowledged exactly when the first was lost at QUIT without a timeout and
  // the second was acknowledged.
  lemma AcknowledgedTwiceIff(j: Job, first: Peer, second: Peer)
    ensures var (_, t1, t2) := FilterRun(j, first, second);
      Acknowledged(First(j), t1) && Acknowledged(Fallback(j), t2)
      <==> FallsBack(j, first) && EndStage(First(j), Greeting, Session(First(j), first).1.log) == Quit
           && Acknowledged(Fallback(j), Session(Fallback(j), second).1)
  {
    SessionFacts(First(j), first);
    NothingIsWritten(First(j));
    NothingIsWritten(Fallback(j));
  }

  // ---- Taken twice ----

  function GoodCode(s: Stage): string {
    if s.Greeting? then "220" else if s.Data? then "354" else "250"
  }

  function GoodReply(s: Stage): string {
    GoodCode(s) + " ok\r\n"
  }

  // A server that answers well until the session comes to stage last, and then closes.
  function GoodInput(e: Envelope, s: Stage, last: Stage): seq<LineEvent>
    decreases Rank(e, s)
  {
    if s == last || Ended(s) then []
    else [Line(GoodReply(s))] + GoodInput(e, After(e, s, GoodReply(s)), last)
  }

  predicate Leads(e: Envelope, s: Stage, last: Stage) {
    !Ended(s) && (last.Content? || last.Quit?) && Rank(e, s) >= Rank(e, last)
  }

  lemma GoodReplyStarts(s: Stage)
    ensures StartsWith(GoodReply(s), GoodCode(s)) && !Permanent(GoodReply(s))
    ensures IsFinal(GoodReply(s)) && GoodReply(s) != []
  {
    var r := GoodReply(s);
    assert r[..3] == GoodCode(s);
    assert r[0] == GoodCode(s)[0];
    NotPermanent(r);
  }

  lemma NotPermanent(r: string)
    requires r != [] && !IsSpace(r[0]) && r[0] != '5'
    ensures !Permanent(r)
  {
    assert TrimStart(r) == r && r[..1][0] == r[0];
  }

  lemma GoodReplyIsGood(e: Envelope, s: Stage, last: Stage)
    requires Leads(e, s, last) && s != last
    ensures Leads(e, After(e, s, GoodReply(s)), last)
  {
    GoodReplyStarts(s);
    GoodReplyLeads(e, s, last, GoodReply(s));
  }

  lemma GoodReplyLeads(e: Envelope, s: Stage, last: Stage, reply: string)
    requires Leads(e, s, last) && s != last
    requires StartsWith(reply, GoodCode(s)) && !Permanent(reply)
    ensures Leads(e, After(e, s, reply), last)
  {
  }

  // The result of a session without write faults, the stage it ended in, and the text
  // left without a reply.
  ghost function Outcome(e: Envelope, s: Stage, input: seq<LineEvent>): (Result, Stage, string) {
    var (r, t) := Play(e, s, input, []);
    (r, EndStage(e, s, t.log), t.unanswered)
  }

  // One stage answered by one line.
  lemma OutcomeOfLine(e: Envelope, s: Stage, t: string, rest: seq<LineEvent>)
    requires !Ended(s) && IsFinal(t) && t != []
    ensures Outcome(e, s, [Line(t)] + rest) == Outcome(e, After(e, s, t), rest)
  {
    var input := [Line(t)] + rest;
    assert "" + t == t && input[1..] == rest;
    assert ReadReply(input, "") == (Reply(t), rest);
    var more := Play(e, After(e, s, t), rest, []).1.log;
    assert ([Exchange(Sent(e, s), t)] + more)[1..] == more;
  }

  lemma RankDrops(e: Envelope, s: Stage, reply: string)
    requires !Ended(s)
    ensures Rank(e, After(e, s, reply)) < Rank(e, s)
  {
  }

  lemma GoodInputFirst(e: Envelope, s: Stage, last: Stage, tail: seq<LineEvent>)
    requires Leads(e, s, last) && s != last
    ensures GoodInput(e, s, last) + tail ==
            [Line(GoodReply(s))] + (GoodInput(e, After(e, s, GoodReply(s)), last) + tail)
  {
    Prepend(Line(GoodReply(s)), GoodInput(e, After(e, s, GoodReply(s)), last), tail);
  }

  lemma Prepend(x: LineEvent, a: seq<LineEvent>, b: seq<LineEvent>)
    ensures ([x] + a) + b == [x] + (a + b)
  {
  }

  lemma GoodStep(e: Envelope, s: Stage, last: Stage, tail: seq<LineEvent>) returns (next: Stage)
    requires Leads(e, s, last) && s != last
    ensures Leads(e, next, last) && Rank(e, next) < Rank(e, s)
    ensures Outcome(e, s, GoodInput(e, s, last) + tail) == Outcome(e, next, GoodInput(e, next, last) + tail)
  {
    var t := GoodReply(s);
    next := After(e, s, t);
    RankDrops(e, s, t);
    GoodReplyIsGood(e, s, last);
    GoodReplyStarts(s);
    GoodInputFirst(e, s, last, tail);
    OutcomeOfLine(e, s, t, GoodInput(e, next, last) + tail);
  }

  lemma {:induction false} GoodServer(e: Envelope, s: Stage, last: Stage, tail: seq<LineEvent>)
    requires Leads(e, s, last)
    ensures Outcome(e, s, GoodInput(e, s, last) + tail) == Outcome(e, last, tail)
    decreases Rank(e, s)
  {
    if s == last {
      assert GoodInput(e, s, last) + tail == tail;
    } else {
      var next := GoodStep(e, s, last, tail);
      GoodServer(e, next, last, tail);
    }
  }

  // The server closes in stage s.
  lemma ClosedOutcome(e: Envelope, s: Stage)
    requires !Ended(s)
    ensures Outcome(e, s, []) == (Err(UnexpectedEof), s, Sent(e, s))
  {
    StageFails(e, s, [], [], UnexpectedEof);
  }

  lemma LastReply(e: Envelope, line: string)
    requires IsFinal(line)
    ensures Outcome(e, Quit, [Line(line)]) == (Ok, Done, "")
  {
    assert [Line(line)] + [] == [Line(line)];
    OutcomeOfLine(e, Quit, line, []);
  }

  // A server that answers well until stage last, and from then on as given.
  lemma ServerUntil(e: Envelope, last: Stage, tail: seq<LineEvent>) returns (input: seq<LineEvent>)
    requires last.Content? || last.Quit?
    ensures Outcome(e, Greeting, input) == Outcome(e, last, tail)
  {
    input := GoodInput(e, Greeting, last) + tail;
    GoodServer(e, Greeting, last, tail);
  }

  // What a session without write faults is known to have done, by its outcome.
  lemma DoneBy(e: Envelope, input: seq<LineEvent>, r: Result, s: Stage, unanswered: string)
    requires SafeEnvelope(e) && Outcome(e, Greeting, input) == (r, s, unanswered)
    ensures var done := Session(e, Answers(input, []));
      && done.0 == r
      && (Acknowledged(e, done.1) <==> r.Ok? || s == Quit)
      && (MayBeTaken(e, done.1) <==> r.Ok? || s == Quit || (s == Content && unanswered != ""))
  {
    SessionFacts(e, Answers(input, []));
    MayBeTakenIff(e, Session(e, Answers(input, [])).1);
  }

  lemma ServerClosingAt(e: Envelope, last: Stage) returns (input: seq<LineEvent>, text: string)
    requires last.Content? || last.Quit?
    ensures Outcome(e, Greeting, input) == (Err(UnexpectedEof), last, text) && text != ""
  {
    input := ServerUntil(e, last, []);
    text := Sent(e, last);
    ClosedOutcome(e, last);
    LastTextIsNotEmpty(e, last);
  }

  lemma LastTextIsNotEmpty(e: Envelope, last: Stage)
    requires last.Content? || last.Quit?
    ensures Sent(e, last) != ""
  {
    if last.Content? { WireIsNotEmpty(e.email); }
  }

  // There is a server that takes the content and closes, which makes the client report an
  // error; whether it still acknowledges the content or not.
  lemma LostAfterContent(e: Envelope, acknowledges: bool) returns (peer: Peer)
    requires SafeEnvelope(e)
    ensures Session(e, peer).0 == Err(UnexpectedEof)
    ensures MayBeTaken(e, Session(e, peer).1)
    ensures Acknowledged(e, Session(e, peer).1) <==> acknowledges
  {
    var last := if acknowledges then Quit else Content;
    var input, text := ServerClosingAt(e, last);
    DoneBy(e, input, Err(UnexpectedEof), last, text);
    peer := Answers(input, []);
  }

  // And one with which the session completes.
  lemma CompletesWell(e: Envelope) returns (peer: Peer)
    requires SafeEnvelope(e)
    ensures Session(e, peer).0.Ok? && Acknowledged(e, Session(e, peer).1)
  {
    var input := ServerUntil(e, Quit, [Line("221 bye\r\n")]);
    LastReply(e, "221 bye\r\n");
    DoneBy(e, input, Ok, Done, "");
    peer := Answers(input, []);
  }

  // The run says delivered, both servers may have the message, and the client saw the
  // given acknowledgements.
  ghost predicate TakenTwice(j: Job, first: Peer, second: Peer, acknowledged: bool) {
    var (exit, t1, t2) := FilterRun(j, first, second);
    && exit.Delivered?
    && MayBeTaken(First(j), t1) && (Acknowledged(First(j), t1) <==> acknowledged)
    && Acknowledged(Fallback(j), t2)
  }

  // For every message with a safe envelope there are servers that take it twice: one
  // closes the connection before answering QUIT or already before answering the content,
  // the other completes.
  lemma TakingTwiceHappens(j: Job, acknowledged: bool)
    requires Tried(j) && SafeEnvelope(First(j))
    ensures exists first, second :: TakenTwice(j, first, second, acknowledged)
  {
    var first := LostAfterContent(First(j), acknowledged);
    var second := CompletesWell(Fallback(j));
    TwiceFrom(j, first, second, acknowledged);
  }

  lemma TwiceFrom(j: Job, first: Peer, second: Peer, acknowledged: bool)
    requires Tried(j) && Session(First(j), first).0 == Err(UnexpectedEof)
    requires MayBeTaken(First(j), Session(First(j), first).1)
    requires Acknowledged(First(j), Session(First(j), first).1) <==> acknowledged
    requires Session(Fallback(j), second).0.Ok? && Acknowledged(Fallback(j), Session(Fallback(j), second).1)
    ensures TakenTwice(j, first, second, acknowledged)
  {
  }
}

// The shell quoting used for every remote command, and the word splitting a POSIX
// shell applies to it.
module ShellQuote {
  import opened Text

  const QUOTE: char := '\''
  const BACKSLASH: char := '\\'
  const ESCAPED_QUOTE: string := ['\'', '\\', '\'', '\'']

  function QuotedBody(s: string): string {
    if s == [] then [] else (if s[0] == QUOTE then ESCAPED_QUOTE else [s[0]]) + QuotedBody(s[1..])
  }

  function Quoted(s: string): string {
    [QUOTE] + QuotedBody(s) + [QUOTE]
  }

  lemma {:induction false} QuotedBodySnoc(s: string, c: char)
    ensures QuotedBody(s + [c]) == QuotedBody(s) + (if c == QUOTE then ESCAPED_QUOTE else [c])
  {
    if s == [] {
      assert s + [c] == [c];
    } else {
      assert (s + [c])[1..] == s[1..] + [c];
      QuotedBodySnoc(s[1..], c);
    }
  }

  method ShSingleQuote(s: string) returns (out: string)
    ensures out == Quoted(s)
  {
    out := [QUOTE];
    for i := 0 to |s|
      invariant out == [QUOTE] + QuotedBody(s[..i])
    {
      QuotedBodySnoc(s[..i], s[i]);
      assert s[..i + 1] == s[..i] + [s[i]];
      if s[i] == QUOTE {
        out := out + ESCAPED_QUOTE;
      } else {
        out := out + [s[i]];
      }
    }
    assert s[..|s|] == s;
    out := out + [QUOTE];
  }

  function QuotedAll(words: seq<string>): seq<string> {
    if words == [] then [] else [Quoted(words[0])] + QuotedAll(words[1..])
  }

  lemma {:induction false} QuotedAllSnoc(words: seq<string>, w: string)
    ensures QuotedAll(words + [w]) == QuotedAll(words) + [Quoted(w)]
  {
    if words == [] {
      assert words + [w] == [w];
    } else {
      assert (words + [w])[1..] == words[1..] + [w];
      QuotedAllSnoc(words[1..], w);
    }
  }

  // The command string `exec_argv` hands to the remote shell.
  method CommandLine(program: string, args: seq<string>) returns (cmd: string)
    ensures cmd == Join(QuotedAll([program] + args), " ")
  {
    var first := ShSingleQuote(program);
    var parts := [first];
    assert parts == QuotedAll([program] + args[..0]);
    for i := 0 to |args|
      invariant parts == QuotedAll([program] + args[..i])
    {
      var q := ShSingleQuote(args[i]);
      QuotedAllSnoc([program] + args[..i], args[i]);
      assert [program] + args[..i + 1] == [program] + args[..i] + [args[i]];
      parts := parts + [q];
    }
    assert args[..|args|] == args;
    cmd := Join(parts, " ");
  }

  // ---- Word splitting (sections 2.2.1 and 2.2.2 of the POSIX.1-2017 shell language) ----

  predicate Blank(c: char) { c == ' ' || c == '\t' }

  // Characters that, unquoted, mean something other than themselves to the shell.
  predicate Special(c: char) {
    c in "|&;<>()$`\"*?[#~=%{}!\n"
  }

  // `cur` is the word being read, None between words; `quoted` holds inside single
  // quotes. None as a result: an unquoted special character or an unfinished quote.
  function Words(cmd: string, cur: Option<string>, quoted: bool): Option<seq<string>>
    requires quoted ==> cur.Some?
    decreases |cmd|
  {
    if cmd == [] then
      if quoted then None else if cur.Some? then Some([cur.value]) else Some([])
    else
      var c, rest := cmd[0], cmd[1..];
      if quoted then
        if c == QUOTE then Words(rest, cur, false) else Words(rest, Some(cur.value + [c]), true)
      else if c == QUOTE then
        Words(rest, Some(Open(cur)), true)
      else if c == BACKSLASH then
        if rest == [] then None
        else if rest[0] == '\n' then Words(rest[1..], cur, false)
        else Words(rest[1..], Some(Open(cur) + [rest[0]]), false)
      else if Blank(c) then
        if cur.None? then Words(rest, None, false)
        else
          match Words(rest, None, false)
          case None => None
          case Some(ws) => Some([cur.value] + ws)
      else if Special(c) then None
      else Words(rest, Some(Open(cur) + [c]), false)
  }

  function Open(cur: Option<string>): string {
    if cur.Some? then cur.value else []
  }

  lemma {:induction false} ReadQuotedBody(s: string, acc: string, tail: string)
    ensures Words(QuotedBody(s) + [QUOTE] + tail, Some(acc), true) == Words(tail, Some(acc + s), false)
  {
    var input := QuotedBody(s) + [QUOTE] + tail;
    if s == [] {
      assert input[1..] == tail && acc + s == acc;
    } else {
      var rest := QuotedBody(s[1..]) + [QUOTE] + tail;
      ReadQuotedBody(s[1..], acc + [s[0]], tail);
      assert acc + [s[0]] + s[1..] == acc + s;
      if s[0] == QUOTE {
        assert input == ESCAPED_QUOTE + rest;
        ReadEscapedQuote(acc, rest);
      } else {
        assert input[1..] == rest;
      }
    }
  }

  lemma ReadEscapedQuote(acc: string, rest: string)
    ensures Words(ESCAPED_QUOTE + rest, Some(acc), true) == Words(rest, Some(acc + [QUOTE]), true)
  {
    var i0 := ESCAPED_QUOTE + rest;
    var i1 := i0[1..];
    assert i1 == [BACKSLASH, QUOTE, QUOTE] + rest;
    var i2 := i1[1..][1..];
    assert i1[1..][0] == QUOTE && i2 == [QUOTE] + rest;
    assert Words(i1, Some(acc), false) == Words(i2, Some(acc + [QUOTE]), false);
    assert i2[1..] == rest;
  }

  lemma ReadQuoted(s: string, tail: string)
    ensures Words(Quoted(s) + tail, None, false) == Words(tail, Some(s), false)
  {
    var input := Quoted(s) + tail;
    assert input[1..] == QuotedBody(s) + [QUOTE] + tail;
    ReadQuotedBody(s, [], tail);
    assert [] + s == s;
  }

  // The shell splits the composed command back into exactly the program and its
  // arguments, whatever characters they hold.
  lemma {:induction false} ShellReadsBack(words: seq<string>)
    ensures Words(Join(QuotedAll(words), " "), None, false) == Some(words)
  {
    if words == [] {
    } else if |words| == 1 {
      ReadQuoted(words[0], "");
      assert Quoted(words[0]) + "" == Quoted(words[0]);
      assert QuotedAll(words) == [Quoted(words[0])];
      assert [words[0]] == words;
    } else {
      var q, qs := Quoted(words[0]), QuotedAll(words[1..]);
      var tail := " " + Join(qs, " ");
      assert QuotedAll(words)[1..] == qs;
      assert Join(QuotedAll(words), " ") == q + tail;
      ReadQuoted(words[0], tail);
      assert tail[1..] == Join(qs, " ");
      ShellReadsBack(words[1..]);
      assert [words[0]] + words[1..] == words;
    }
  }

  lemma CommandLineReadsBack(program: string, args: seq<string>)
    ensures Words(Join(QuotedAll([program] + args), " "), None, false) == Some([program] + args)
  {
    ShellReadsBack([program] + args);
  }
}

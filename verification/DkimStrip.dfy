// Removing DKIM-Signature fields from a message whose content was changed.
module DkimStrip {
  import opened Text
  import opened Folding

  // ---- The parts of a message ----

  function Eol(email: string): string {
    if Contains(email, "\r\n") then "\r\n" else "\n"
  }

  function Sep(email: string): string {
    Eol(email) + Eol(email)
  }

  // Where the first blank line begins, if there is one.
  function HeaderEnd(email: string): Option<nat> {
    Find(email, Sep(email))
  }

  function HeaderSection(email: string): string
    requires HeaderEnd(email).Some?
  {
    email[..HeaderEnd(email).value]
  }

  function BodySection(email: string): string
    requires HeaderEnd(email).Some?
  {
    email[HeaderEnd(email).value + |Sep(email)|..]
  }

  // ---- Header fields (section 2.2.3 of RFC 5322) ----

  predicate IsDkim(line: string) {
    |line| >= 15 && Lower(line[..15]) == "dkim-signature:"
  }

  function NonBlank(lines: seq<string>): seq<string> {
    if lines == [] then []
    else if lines[0] == [] then NonBlank(lines[1..])
    else [lines[0]] + NonBlank(lines[1..])
  }

  function WithoutDkim(fields: seq<seq<string>>): seq<seq<string>> {
    if fields == [] then []
    else if fields[0] != [] && IsDkim(fields[0][0]) then WithoutDkim(fields[1..])
    else [fields[0]] + WithoutDkim(fields[1..])
  }

  // ---- The stripped message ----

  function Render(lines: seq<string>, eol: string): string {
    if lines == [] then [] else lines[0] + eol + Render(lines[1..], eol)
  }

  function KeptLines(header: string, eol: string): seq<string>
    requires eol != []
  {
    Flat(WithoutDkim(Fields(NonBlank(Split(header, eol)))))
  }

  function Stripped(email: string): string {
    if HeaderEnd(email).None? then email
    else Render(KeptLines(HeaderSection(email), Eol(email)), Eol(email)) + Eol(email) + BodySection(email)
  }

  // ---- The loop ----

  // What the loop keeps of the lines, given whether it is skipping a field.
  function StripLines(lines: seq<string>, skip: bool): seq<string> {
    if lines == [] then []
    else
      var l, rest := lines[0], lines[1..];
      if l == [] then StripLines(rest, skip)
      else if Continuation(l) then (if skip then [] else [l]) + StripLines(rest, skip)
      else (if IsDkim(l) then [] else [l]) + StripLines(rest, IsDkim(l))
  }

  lemma {:induction false} BlankLinesAreSkipped(lines: seq<string>, skip: bool)
    ensures StripLines(lines, skip) == StripLines(NonBlank(lines), skip)
  {
    if lines != [] {
      var l, rest := lines[0], NonBlank(lines[1..]);
      BlankLinesAreSkipped(lines[1..], skip);
      BlankLinesAreSkipped(lines[1..], IsDkim(l));
      assert ([l] + rest)[1..] == rest;
    }
  }

  lemma {:induction false} StripFolds(folds: seq<string>, rest: seq<string>, skip: bool)
    requires forall i :: 0 <= i < |folds| ==> Continuation(folds[i])
    ensures StripLines(folds + rest, skip) == (if skip then [] else folds) + StripLines(rest, skip)
  {
    if folds == [] {
      assert folds + rest == rest;
    } else {
      assert (folds + rest)[1..] == folds[1..] + rest;
      StripFolds(folds[1..], rest, skip);
      assert folds == [folds[0]] + folds[1..];
    }
  }

  lemma OneField(head: string, folds: seq<string>, rest: seq<string>, skip: bool)
    requires head != [] && (Continuation(head) ==> !skip)
    requires forall i :: 0 <= i < |folds| ==> Continuation(folds[i])
    ensures StripLines([head] + (folds + rest), skip)
         == (if IsDkim(head) then [] else [head] + folds) + StripLines(rest, IsDkim(head))
  {
    ContinuationIsNotDkim(head);
    assert ([head] + (folds + rest))[1..] == folds + rest;
    StripFolds(folds, rest, IsDkim(head));
    var tail := StripLines(rest, IsDkim(head));
    assert [head] + (folds + tail) == ([head] + folds) + tail;
    assert [] + ([] + tail) == [] + tail;
  }

  lemma FirstField(lines: seq<string>) returns (folds: seq<string>, rest: seq<string>)
    requires lines != []
    ensures lines == [lines[0]] + (folds + rest) && |rest| < |lines|
    ensures Fields(lines) == [[lines[0]] + folds] + Fields(rest)
    ensures forall i :: 0 <= i < |folds| ==> Continuation(folds[i])
    ensures rest != [] ==> !Continuation(rest[0])
    ensures forall i :: 0 <= i < |rest| ==> rest[i] in lines
  {
    var n := 1 + Folds(lines[1..]);
    folds, rest := lines[1..n], lines[n..];
    assert lines[..n] == [lines[0]] + folds && lines[1..] == folds + rest;
    forall i | 0 <= i < |folds|
      ensures Continuation(folds[i])
    {
      assert folds[i] == lines[1..][i];
    }
    if n < |lines| { assert rest[0] == lines[1..][n - 1]; }
  }

  // The loop drops whole fields: those named DKIM-Signature, with all their lines.
  lemma {:induction false} LoopDropsFields(lines: seq<string>, skip: bool)
    requires [] !in lines
    requires lines != [] && Continuation(lines[0]) ==> !skip
    ensures StripLines(lines, skip) == Flat(WithoutDkim(Fields(lines)))
    decreases |lines|
  {
    if lines != [] {
      var head := lines[0];
      var folds, rest := FirstField(lines);
      OneField(head, folds, rest, skip);
      LoopDropsFields(rest, IsDkim(head));
      KeepOrDrop([head] + folds, Fields(rest));
    }
  }

  lemma ContinuationIsNotDkim(line: string)
    ensures Continuation(line) ==> !IsDkim(line)
  {
    if Continuation(line) && |line| >= 15 {
      assert Lower(line[..15])[0] == LowerChar(line[0]);
    }
  }

  lemma KeepOrDrop(field: seq<string>, rest: seq<seq<string>>)
    requires field != []
    ensures Flat(WithoutDkim([field] + rest))
         == (if IsDkim(field[0]) then [] else field) + Flat(WithoutDkim(rest))
  {
    assert ([field] + rest)[1..] == rest;
    var w := WithoutDkim(rest);
    assert ([field] + w)[1..] == w;
    assert [] + Flat(w) == Flat(w);
  }

  lemma {:induction false} NonBlankLines(lines: seq<string>)
    ensures [] !in NonBlank(lines)
    ensures forall l :: l in NonBlank(lines) ==> l in lines
  {
    if lines != [] {
      NonBlankLines(lines[1..]);
    }
  }

  lemma LoopKeeps(lines: seq<string>)
    ensures StripLines(lines, false) == Flat(WithoutDkim(Fields(NonBlank(lines))))
  {
    BlankLinesAreSkipped(lines, false);
    NonBlankLines(lines);
    LoopDropsFields(NonBlank(lines), false);
  }

  lemma {:induction false} RenderAppend(a: seq<string>, b: seq<string>, eol: string)
    ensures Render(a + b, eol) == Render(a, eol) + Render(b, eol)
  {
    if a == [] {
      assert a + b == b;
    } else {
      assert (a + b)[1..] == a[1..] + b;
      RenderAppend(a[1..], b, eol);
    }
  }

  method StripDkimSignatures(email: string) returns (result: string)
    ensures result == Stripped(email)
  {
    var eol := if Contains(email, "\r\n") then "\r\n" else "\n";
    var sep := eol + eol;
    var pos := Find(email, sep);
    if pos.None? {
      return email;
    }
    var header, body := email[..pos.value], email[pos.value + |sep|..];
    result := StripLoop(Split(header, eol), eol);
    LoopKeeps(Split(header, eol));
    result := result + eol + body;
  }

  method StripLoop(lines: seq<string>, eol: string) returns (result: string)
    ensures result == Render(StripLines(lines, false), eol)
  {
    result := "";
    var skip := false;
    for i := 0 to |lines|
      invariant result + Render(StripLines(lines[i..], skip), eol) == Render(StripLines(lines, false), eol)
    {
      var line := lines[i];
      StripStep(lines, i, skip, eol, result);
      if line == [] {
        continue;
      }
      if Continuation(line) {
        if !skip {
          result := result + (line + eol);
        }
        continue;
      }
      skip := IsDkim(line);
      if !skip {
        result := result + (line + eol);
      }
    }
  }

  // Whether a line is written, and whether what continues it is skipped.
  predicate Emits(line: string, skip: bool) {
    line != [] && if Continuation(line) then !skip else !IsDkim(line)
  }

  predicate SkipAfter(line: string, skip: bool) {
    if line == [] || Continuation(line) then skip else IsDkim(line)
  }

  lemma StripStep(lines: seq<string>, i: nat, skip: bool, eol: string, done: string)
    requires i < |lines|
    ensures done + Render(StripLines(lines[i..], skip), eol)
         == (if Emits(lines[i], skip) then done + (lines[i] + eol) else done)
            + Render(StripLines(lines[i + 1..], SkipAfter(lines[i], skip)), eol)
  {
    assert lines[i..][0] == lines[i] && lines[i..][1..] == lines[i + 1..];
    var l, rest := lines[i], StripLines(lines[i + 1..], SkipAfter(lines[i], skip));
    RenderOne(l, rest, eol);
    assert StripLines(lines[i..], skip) == if Emits(l, skip) then [l] + rest else rest;
    if Emits(l, skip) {
      assert done + ((l + eol) + Render(rest, eol)) == (done + (l + eol)) + Render(rest, eol);
    }
  }

  lemma RenderOne(l: string, rest: seq<string>, eol: string)
    ensures Render([l] + rest, eol) == (l + eol) + Render(rest, eol)
    ensures Render([] + rest, eol) == "" + Render(rest, eol)
  {
    assert ([l] + rest)[1..] == rest;
    assert [] + rest == rest;
  }

  // ---- Stripping twice ----

  predicate IsEol(eol: string) {
    eol == "\r\n" || eol == "\n"
  }

  ghost predicate EolFree(s: string, eol: string) {
    forall j :: 0 <= j ==> !MatchAt(s, j, eol)
  }

  lemma {:induction false} PiecesAreEolFree(s: string, eol: string)
    requires eol != []
    ensures forall p :: p in Split(s, eol) ==> EolFree(p, eol)
    decreases |s|
  {
    match Find(s, eol)
    case None =>
    case Some(i) =>
      var p := s[..i];
      forall j | 0 <= j
        ensures !MatchAt(p, j, eol)
      {
        if j + |eol| <= i { assert p[j..j + |eol|] == s[j..j + |eol|] && !MatchAt(s, j, eol); }
      }
      PiecesAreEolFree(s[i + |eol|..], eol);
  }

  lemma FirstEol(line: string, eol: string, tail: string)
    requires IsEol(eol) && EolFree(line, eol)
    ensures Find(line + eol + tail, eol) == Some(|line|)
    ensures (line + eol + tail)[..|line|] == line && (line + eol + tail)[|line| + |eol|..] == tail
  {
    FindAfter(line, eol, tail);
  }

  lemma {:induction false} SplitJoined(ks: seq<string>, eol: string)
    requires ks != [] && IsEol(eol) && forall k :: k in ks ==> EolFree(k, eol)
    ensures Split(Join(ks, eol), eol) == ks
  {
    if |ks| == 1 {
      assert EolFree(ks[0], eol);
    } else {
      FirstEol(ks[0], eol, Join(ks[1..], eol));
      SplitJoined(ks[1..], eol);
      assert [ks[0]] + ks[1..] == ks;
    }
  }

  lemma {:induction false} RenderIsJoin(ks: seq<string>, eol: string)
    requires ks != []
    ensures Render(ks, eol) == Join(ks, eol) + eol
  {
    if |ks| == 1 {
      assert Render(ks[1..], eol) == [];
      assert ks[0] + eol + [] == ks[0] + eol;
    } else {
      RenderIsJoin(ks[1..], eol);
      assert ks[0] + eol + (Join(ks[1..], eol) + eol) == (ks[0] + eol + Join(ks[1..], eol)) + eol;
    }
  }

  // The separator does not occur before the first end of line that another follows.
  lemma SepAfterFirst(line: string, eol: string, rest: string)
    requires IsEol(eol) && EolFree(line, eol)
    ensures forall j :: 0 <= j < |line| ==> !MatchAt(line + eol + rest, j, eol + eol)
    ensures MatchAt(line + eol + rest, |line|, eol + eol) <==> MatchAt(rest, 0, eol)
    ensures |eol| == 2 ==> !MatchAt(line + eol + rest, |line| + 1, eol + eol)
    ensures forall j :: 0 <= j ==>
              (MatchAt(line + eol + rest, |line| + |eol| + j, eol + eol) <==> MatchAt(rest, j, eol + eol))
  {
    var s, sep, n := line + eol + rest, eol + eol, |line| + |eol|;
    FirstEol(line, eol, rest);
    forall j | 0 <= j < |line|
      ensures !MatchAt(s, j, sep)
    {
      SepStartsWithEol(s, j, eol);
    }
    forall j | 0 <= j
      ensures MatchAt(s, n + j, sep) <==> MatchAt(rest, j, sep)
    {
      if j + |sep| <= |rest| { assert s[n + j..n + j + |sep|] == rest[j..j + |sep|]; }
    }
    SepSplits(s, |line|, eol);
    if |eol| <= |rest| { assert s[n..n + |eol|] == rest[0..|eol|]; }
    assert s[|line|..n] == eol;
    if |eol| == 2 && |line| + 1 + |sep| <= |s| {
      assert s[|line| + 1] == '\n';
      assert s[|line| + 1..|line| + 1 + |sep|][0] == s[|line| + 1];
    }
  }

  lemma SepSplits(s: string, j: nat, eol: string)
    ensures MatchAt(s, j, eol + eol) <==> MatchAt(s, j, eol) && MatchAt(s, j + |eol|, eol)
  {
    var n := |eol|;
    if j + 2 * n <= |s| {
      var t := s[j..j + 2 * n];
      assert t[..n] == s[j..j + n] && t[n..] == s[j + n..j + 2 * n] && t == t[..n] + t[n..];
      assert (eol + eol)[..n] == eol && (eol + eol)[n..] == eol;
    }
  }

  lemma SepStartsWithEol(s: string, j: nat, eol: string)
    ensures MatchAt(s, j, eol + eol) ==> MatchAt(s, j, eol)
  {
    SepSplits(s, j, eol);
  }

  lemma FindSepOne(line: string, eol: string, body: string)
    requires IsEol(eol) && EolFree(line, eol)
    ensures Find(line + (eol + eol + body), eol + eol) == Some(|line|)
  {
    assert line + (eol + eol + body) == line + eol + (eol + body);
    SepAfterFirst(line, eol, eol + body);
    assert (eol + body)[0..|eol|] == eol;
    FindIs(line + eol + (eol + body), eol + eol, |line|);
  }

  lemma JoinGlue(ks: seq<string>, eol: string, tail: string)
    requires |ks| > 1
    ensures Join(ks, eol) + tail == ks[0] + eol + (Join(ks[1..], eol) + tail)
    ensures |Join(ks, eol)| == |ks[0]| + |eol| + |Join(ks[1..], eol)|
  {
  }

  // Lines followed by a blank one, with no blank one after the first of them: the
  // separator is found right behind them.
  lemma {:induction false} FindSepAfter(ks: seq<string>, eol: string, body: string)
    requires ks != [] && IsEol(eol) && (forall k :: k in ks ==> EolFree(k, eol))
    requires forall i :: 1 <= i < |ks| ==> ks[i] != []
    ensures Find(Join(ks, eol) + (eol + eol + body), eol + eol) == Some(|Join(ks, eol)|)
  {
    var tail := eol + eol + body;
    if |ks| == 1 {
      FindSepOne(ks[0], eol, body);
    } else {
      assert forall i :: 0 <= i < |ks[1..]| ==> ks[1..][i] == ks[i + 1];
      FindSepAfter(ks[1..], eol, body);
      assert tail[..|eol|] == eol;
      NotAtStart(ks[1..], eol, tail);
      JoinGlue(ks, eol, tail);
      SepLater(ks[0], eol, Join(ks[1..], eol) + tail, |Join(ks[1..], eol)|);
    }
  }

  lemma SepLater(line: string, eol: string, rest: string, m: nat)
    requires IsEol(eol) && EolFree(line, eol) && !MatchAt(rest, 0, eol)
    requires Find(rest, eol + eol) == Some(m)
    ensures Find(line + eol + rest, eol + eol) == Some(|line| + |eol| + m)
  {
    var s, n := line + eol + rest, |line| + |eol|;
    forall j | 0 <= j < n + m
      ensures !MatchAt(s, j, eol + eol)
    {
      SepMoved(line, eol, rest, m, j);
    }
    SepMoved(line, eol, rest, m, n + m);
    FindIs(s, eol + eol, n + m);
  }

  lemma SepMoved(line: string, eol: string, rest: string, m: nat, j: nat)
    requires IsEol(eol) && EolFree(line, eol) && !MatchAt(rest, 0, eol)
    requires Find(rest, eol + eol) == Some(m) && j <= |line| + |eol| + m
    ensures MatchAt(line + eol + rest, j, eol + eol) <==> j == |line| + |eol| + m
  {
    var n := |line| + |eol|;
    SepAfterFirst(line, eol, rest);
    if j >= n {
      assert MatchAt(line + eol + rest, n + (j - n), eol + eol) <==> MatchAt(rest, j - n, eol + eol);
    }
  }

  lemma NotAtStart(ks: seq<string>, eol: string, tail: string)
    requires ks != [] && IsEol(eol) && EolFree(ks[0], eol) && ks[0] != []
    requires tail != [] && StartsWith(tail, eol)
    ensures !MatchAt(Join(ks, eol) + tail, 0, eol)
  {
    var after := if |ks| == 1 then tail[|eol|..] else Join(ks[1..], eol) + tail;
    assert tail == tail[..|eol|] + tail[|eol|..];
    assert Join(ks, eol) + tail == ks[0] + eol + after;
    FirstEol(ks[0], eol, after);
  }

  // A second pass over kept lines keeps them all.
  lemma {:induction false} StripTwice(lines: seq<string>, skip: bool)
    ensures StripLines(StripLines(lines, skip), false) == StripLines(lines, skip)
    ensures [] !in StripLines(lines, skip)
    ensures forall l :: l in StripLines(lines, skip) ==> l in lines
  {
    if lines != [] {
      var l, rest := lines[0], lines[1..];
      StripTwice(rest, skip);
      StripTwice(rest, IsDkim(l));
      ContinuationIsNotDkim(l);
      var a, b := StripLines(rest, skip), StripLines(rest, IsDkim(l));
      assert ([l] + a)[1..] == a && ([l] + b)[1..] == b;
      assert [] + a == a && [] + b == b;
    }
  }

  // ---- The line ending stays the same ----

  // No line feed has a carriage return in front.
  predicate Bare(s: string) {
    forall i :: 0 <= i < |s| - 1 && s[i] == '\r' ==> s[i + 1] != '\n'
  }

  lemma BareIff(s: string)
    ensures Bare(s) <==> !Contains(s, "\r\n")
  {
    if Contains(s, "\r\n") {
      var v := Find(s, "\r\n").value;
      assert s[v..v + 2] == "\r\n";
      assert s[v] == s[v..v + 2][0] && s[v + 1] == s[v..v + 2][1];
    } else {
      forall i | 0 <= i < |s| - 1 && s[i] == '\r'
        ensures s[i + 1] != '\n'
      {
        assert !MatchAt(s, i, "\r\n");
        assert s[i..i + 2] == [s[i], s[i + 1]];
      }
    }
  }

  predicate UnixLine(p: string) {
    '\n' !in p && (p == [] || p[|p| - 1] != '\r')
  }

  lemma {:induction false} PiecesAreUnixLines(h: string)
    requires Bare(h + "\n")
    ensures forall p :: p in Split(h, "\n") ==> UnixLine(p)
    decreases |h|
  {
    PiecesAreEolFree(h, "\n");
    match Find(h, "\n")
    case None =>
      NoNewline(h);
      assert (h + "\n")[|h|] == '\n';
      if h != [] { assert (h + "\n")[|h| - 1] == h[|h| - 1]; }
    case Some(i) =>
      assert h[i] == h[i..i + 1][0];
      NoNewline(h[..i]);
      assert forall j :: 0 <= j <= |h| ==> (h + "\n")[j] == if j < |h| then h[j] else '\n';
      BareTail(h + "\n", i + 1);
      assert (h + "\n")[i + 1..] == h[i + 1..] + "\n";
      PiecesAreUnixLines(h[i + 1..]);
  }

  lemma NoNewline(p: string)
    requires EolFree(p, "\n") || (exists h, i :: 0 <= i <= |h| && p == h[..i] && Find(h, "\n") == Some(i))
    ensures '\n' !in p
  {
    forall i | 0 <= i < |p|
      ensures p[i] != '\n'
    {
      assert p[i..i + 1] == [p[i]];
      if !EolFree(p, "\n") {
        var h, n :| 0 <= n <= |h| && p == h[..n] && Find(h, "\n") == Some(n);
        assert !MatchAt(h, i, "\n") && h[i..i + 1] == [h[i]];
      } else {
        assert !MatchAt(p, i, "\n");
      }
    }
  }

  lemma BareTail(s: string, n: nat)
    requires Bare(s) && n <= |s|
    ensures Bare(s[n..])
  {
    var t := s[n..];
    forall i | 0 <= i < |t| - 1 && t[i] == '\r'
      ensures t[i + 1] != '\n'
    {
      assert s[n + i] == '\r';
    }
  }

  lemma {:induction false} BareRender(ks: seq<string>, tail: string)
    requires (forall k :: k in ks ==> UnixLine(k)) && Bare(tail)
    ensures Bare(Render(ks, "\n") + tail)
  {
    if ks == [] {
      assert Render(ks, "\n") + tail == tail;
    } else {
      BareRender(ks[1..], tail);
      var rest := Render(ks[1..], "\n") + tail;
      assert UnixLine(ks[0]);
      assert Render(ks, "\n") + tail == ks[0] + ("\n" + rest);
    }
  }

  lemma EolStays(email: string)
    requires HeaderEnd(email).Some?
    ensures Eol(Stripped(email)) == Eol(email)
  {
    var header, body, eol := HeaderSection(email), BodySection(email), Eol(email);
    var r := Render(KeptLines(header, eol), eol);
    var out := r + eol + body;
    if eol == "\r\n" {
      assert out[|r|..|r| + 2] == eol;
      assert MatchAt(out, |r|, "\r\n");
    } else {
      LfStays(email);
      BareIff(out);
    }
  }

  lemma LfStays(email: string)
    requires HeaderEnd(email).Some? && Eol(email) == "\n"
    ensures Bare(Stripped(email))
  {
    var pos, header, body := HeaderEnd(email).value, HeaderSection(email), BodySection(email);
    BareIff(email);
    assert email[pos..pos + 2] == "\n\n";
    assert email[pos] == email[pos..pos + 2][0] == '\n';
    BareTail(email, pos + 2);
    forall i | 0 <= i < |header + "\n"| - 1 && (header + "\n")[i] == '\r'
      ensures (header + "\n")[i + 1] != '\n'
    {
      assert email[i] == '\r';
      assert (header + "\n")[i + 1] == email[i + 1];
    }
    PiecesAreUnixLines(header);
    LoopKeeps(Split(header, "\n"));
    StripTwice(Split(header, "\n"), false);
    assert Bare("\n" + body);
    BareRender(KeptLines(header, "\n"), "\n" + body);
    assert Stripped(email) == Render(KeptLines(header, "\n"), "\n") + ("\n" + body);
  }

  // ---- Idempotence ----

  lemma KeptFacts(email: string)
    requires HeaderEnd(email).Some?
    ensures var eol := Eol(email);
      var ks := KeptLines(HeaderSection(email), eol);
      && [] !in ks && (forall k :: k in ks ==> EolFree(k, eol))
      && StripLines(ks, false) == ks
  {
    var eol, header := Eol(email), HeaderSection(email);
    PiecesAreEolFree(header, eol);
    LoopKeeps(Split(header, eol));
    StripTwice(Split(header, eol), false);
  }

  // With some header line kept, a second pass changes nothing.
  lemma SomeKeptIsStable(email: string)
    requires HeaderEnd(email).Some? && KeptLines(HeaderSection(email), Eol(email)) != []
    ensures Stripped(Stripped(email)) == Stripped(email)
  {
    var eol, body := Eol(email), BodySection(email);
    var ks := KeptLines(HeaderSection(email), eol);
    var out, head := Stripped(email), Join(ks, eol);
    KeptFacts(email);
    EolStays(email);
    RenderIsJoin(ks, eol);
    assert out == head + (eol + eol + body);
    FindSepAfter(ks, eol, body);
    assert out[..|head|] == head && out[|head| + 2 * |eol|..] == body;
    SplitJoined(ks, eol);
    LoopKeeps(ks);
  }

  lemma {:induction false} SplitLength(s: string, eol: string)
    requires eol != []
    ensures |Render(Split(s, eol), eol)| == |s| + |eol|
    decreases |s|
  {
    match Find(s, eol)
    case None => assert Render([s], eol) == s + eol + Render([], eol) by { assert [s][1..] == []; }
    case Some(i) =>
      SplitLength(s[i + |eol|..], eol);
      assert Split(s, eol)[1..] == Split(s[i + |eol|..], eol);
  }

  lemma {:induction false} StripShortens(lines: seq<string>, skip: bool, eol: string)
    ensures |Render(StripLines(lines, skip), eol)| <= |Render(lines, eol)|
  {
    if lines != [] {
      var l, rest := lines[0], lines[1..];
      StripShortens(rest, skip, eol);
      StripShortens(rest, IsDkim(l), eol);
      RenderOne(l, StripLines(rest, skip), eol);
      RenderOne(l, StripLines(rest, IsDkim(l)), eol);
    }
  }

  // With none kept, the second pass takes body text for headers as soon as a blank
  // line follows, and loses at least the line ending it starts with.
  lemma NoneKeptShrinks(email: string)
    requires HeaderEnd(email).Some? && KeptLines(HeaderSection(email), Eol(email)) == []
    requires HeaderEnd(Stripped(email)).Some?
    ensures |Stripped(Stripped(email))| < |Stripped(email)|
  {
    var eol := Eol(email);
    var out := Stripped(email);
    assert out == eol + BodySection(email);
    EolStays(email);
    var pos, header := HeaderEnd(out).value, HeaderSection(out);
    BlankFirst(out, eol, header, pos);
    var pieces := Split(header, eol);
    SplitLength(header, eol);
    StripShortens(pieces[1..], false, eol);
    LoopKeeps(pieces);
    assert StripLines(pieces, false) == StripLines(pieces[1..], false);
  }

  lemma BlankFirst(out: string, eol: string, header: string, pos: nat)
    requires IsEol(eol) && StartsWith(out, eol) && Find(out, eol + eol) == Some(pos) && header == out[..pos]
    ensures Split(header, eol)[0] == []
  {
    SepSplits(out, pos, eol);
    assert out[pos] == out[pos..pos + |eol|][0] == eol[0];
    assert out[..|eol|][0] == out[0];
    if |eol| == 2 { assert out[..|eol|][1] == out[1] == '\n'; }
    if pos > 0 {
      assert pos >= |eol|;
      assert header[0..|eol|] == out[..|eol|] == eol;
      FindIs(header, eol, 0);
    }
  }

  lemma NoneKeptIff(email: string)
    requires HeaderEnd(email).Some? && KeptLines(HeaderSection(email), Eol(email)) == []
    ensures Stripped(Stripped(email)) == Stripped(email)
       <==> !Contains(Eol(email) + BodySection(email), Sep(email))
  {
    EolStays(email);
    NoneKeptText(email);
    if HeaderEnd(Stripped(email)).Some? {
      NoneKeptShrinks(email);
    }
  }

  lemma NoneKeptText(email: string)
    requires HeaderEnd(email).Some? && KeptLines(HeaderSection(email), Eol(email)) == []
    ensures Stripped(email) == Eol(email) + BodySection(email)
  {
    assert "" + Eol(email) == Eol(email);
  }

  // Stripping twice is stripping once exactly when the message has no blank line, or a
  // header line is kept, or no blank line follows in what is left.
  lemma IdempotentIff(email: string)
    ensures Stripped(Stripped(email)) == Stripped(email) <==>
            (HeaderEnd(email).None?
             || KeptLines(HeaderSection(email), Eol(email)) != []
             || !Contains(Eol(email) + BodySection(email), Sep(email)))
  {
    if HeaderEnd(email).Some? {
      if KeptLines(HeaderSection(email), Eol(email)) != [] {
        SomeKeptIsStable(email);
      } else {
        NoneKeptIff(email);
      }
    }
  }

  // ---- A message that a second pass damages ----

  // A lone signature line and a body: where the separator is.
  lemma LoneHeader(h: string, body: string)
    requires '\r' !in h && '\n' !in h && '\r' !in body
    ensures var email := h + ("\n\n" + body);
      Eol(email) == "\n" && HeaderEnd(email) == Some(|h|) && HeaderSection(email) == h && BodySection(email) == body
  {
    var email := h + ("\n\n" + body);
    NoCrLf(email);
    forall j | 0 <= j ensures !MatchAt(h, j, "\n") { if j < |h| { assert h[j..j + 1][0] == h[j]; } }
    assert "\n" + "\n" == "\n\n";
    FindSepOne(h, "\n", body);
  }

  lemma NoCrLf(s: string)
    requires '\r' !in s
    ensures !Contains(s, "\r\n")
  {
    forall i | 0 <= i
      ensures !MatchAt(s, i, "\r\n")
    {
      if i + 2 <= |s| { assert s[i..i + 2][0] == s[i]; }
    }
  }

  lemma OneDkimLine(h: string)
    requires '\r' !in h && '\n' !in h && IsDkim(h) && !Continuation(h)
    ensures StripLines(Split(h, "\n"), false) == []
  {
    forall j | 0 <= j ensures !MatchAt(h, j, "\n") { if j < |h| { assert h[j..j + 1][0] == h[j]; } }
    assert Find(h, "\n").None?;
    assert Split(h, "\n") == [h] && [h][1..] == [];
  }

  // A signature as the only header line, and a blank line in the body: stripping again
  // takes the beginning of the body for headers.
  lemma SecondPassDamages(h: string, body: string)
    requires '\r' !in h && '\n' !in h && IsDkim(h) && !Continuation(h)
    requires '\r' !in body && Contains("\n" + body, "\n\n")
    ensures var email := h + ("\n\n" + body); Stripped(Stripped(email)) != Stripped(email)
  {
    var email := h + ("\n\n" + body);
    LoneHeader(h, body);
    OneDkimLine(h);
    LoopKeeps(Split(h, "\n"));
    assert "\n" + "\n" == "\n\n";
    IdempotentIff(email);
  }

  lemma SignedNoteIsDamaged()
    ensures var email := "DKIM-Signature: a" + ("\n\n" + "Hello\n\nBye"); Stripped(Stripped(email)) != Stripped(email)
  {
    var h, body := "DKIM-Signature: a", "Hello\n\nBye";
    assert Lower(h[..15]) == "dkim-signature:";
    var s := "\n" + body;
    assert s[6..8] == "\n\n";
    assert MatchAt(s, 6, "\n\n");
    SecondPassDamages(h, body);
  }
}

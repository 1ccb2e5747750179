// Signatures in messages whatever their line endings: what the filter's pass leaves out,
// character by character, against the signature fields of the message's own header.
module Signatures {
  import opened Text
  import opened Folding
  import opened Nesting
  import opened DkimStrip
  import opened MessageParts

  // ---- The pass, piece by piece ----

  // What it makes of a text that follows the ending it looks for; None when no blank
  // line with that ending comes.
  function ByPieces(eol: string, s: string, skip: bool): Option<string>
    requires eol != []
    decreases |s|
  {
    match Find(s, eol)
    case None => None
    case Some(i) =>
      if i == 0 then Some(s)
      else
        var skip' := SkipAfter(s[..i], skip);
        Put(s[..i] + eol, skip', ByPieces(eol, s[i + |eol|..], skip'))
  }

  // A text in front of another, or left out.
  function Put(u: string, skip: bool, more: Option<string>): Option<string> {
    match more
    case None => None
    case Some(r) => Some((if skip then [] else u) + r)
  }

  function Result(eol: string, s: string, skip: bool): Option<string>
    requires eol != []
  {
    match Find(s, eol + eol)
    case None => None
    case Some(k) => Some(Render(StripLines(Split(s[..k], eol), skip), eol) + eol + s[k + |eol + eol|..])
  }

  lemma PieceFirst(eol: string, piece: string, rest: string, skip: bool)
    requires IsEol(eol) && EolFree(piece, eol) && piece != []
    ensures var skip' := SkipAfter(piece, skip);
      ByPieces(eol, piece + eol + rest, skip)
      == match ByPieces(eol, rest, skip')
         case None => None
         case Some(r) => Some((if skip' then [] else piece + eol) + r)
  {
    FirstEol(piece, eol, rest);
  }

  lemma SplitOne(piece: string, eol: string)
    requires IsEol(eol) && EolFree(piece, eol)
    ensures Split(piece, eol) == [piece]
  {
  }

  lemma SplitMore(piece: string, eol: string, rest: string)
    requires IsEol(eol) && EolFree(piece, eol)
    ensures Split(piece + eol + rest, eol) == [piece] + Split(rest, eol)
  {
    FirstEol(piece, eol, rest);
  }

  lemma StripFirst(piece: string, rest: seq<string>, skip: bool, eol: string)
    ensures Render(StripLines([piece] + rest, skip), eol)
         == (if piece == [] || SkipAfter(piece, skip) then [] else piece + eol)
            + Render(StripLines(rest, SkipAfter(piece, skip)), eol)
  {
    assert ([piece] + rest)[1..] == rest;
    RenderOne(piece, StripLines(rest, SkipAfter(piece, skip)), eol);
    if piece != [] { ContinuationIsNotDkim(piece); }
  }

  lemma ResultIs(eol: string, s: string, skip: bool, k: nat, lines: seq<string>, tail: string)
    requires eol != [] && Find(s, eol + eol) == Some(k)
    requires Split(s[..k], eol) == lines && s[k + |eol + eol|..] == tail
    ensures Result(eol, s, skip) == Some(Render(StripLines(lines, skip), eol) + eol + tail)
  {
  }

  lemma Prefixed(a: string, b: string, c: string, d: string)
    ensures (a + b) + c + d == a + (b + c + d)
    ensures [] + c + d == c + d
  {
  }

  // The separator right behind the first piece.
  lemma ResultAtOnce(eol: string, piece: string, body: string, skip: bool)
    requires IsEol(eol) && EolFree(piece, eol)
    ensures Result(eol, piece + eol + (eol + body), skip)
         == Some((if piece == [] || SkipAfter(piece, skip) then [] else piece + eol) + (eol + body))
  {
    var s := piece + eol + (eol + body);
    SepAtOnce(piece, eol, body);
    SplitOne(piece, eol);
    ResultIs(eol, s, skip, |piece|, [piece], body);
    OnlyPiece(piece, skip, eol);
    Prefixed(if piece == [] || SkipAfter(piece, skip) then [] else piece + eol, [], eol, body);
  }

  lemma SepAtOnce(piece: string, eol: string, body: string)
    requires IsEol(eol) && EolFree(piece, eol)
    ensures var s := piece + eol + (eol + body);
      Find(s, eol + eol) == Some(|piece|) && s[..|piece|] == piece && s[|piece| + |eol + eol|..] == body
  {
    assert piece + eol + (eol + body) == piece + (eol + eol + body);
    FindSepOne(piece, eol, body);
  }

  lemma OnlyPiece(piece: string, skip: bool, eol: string)
    ensures Render(StripLines([piece], skip), eol)
         == (if piece == [] || SkipAfter(piece, skip) then [] else piece + eol) + []
  {
    StripFirst(piece, [], skip, eol);
    assert [piece] + [] == [piece];
  }

  lemma ResultLater(eol: string, piece: string, rest: string, skip: bool)
    requires IsEol(eol) && EolFree(piece, eol) && !MatchAt(rest, 0, eol)
    ensures Result(eol, piece + eol + rest, skip)
         == match Result(eol, rest, SkipAfter(piece, skip))
            case None => None
            case Some(r) => Some((if piece == [] || SkipAfter(piece, skip) then [] else piece + eol) + r)
  {
    match Find(rest, eol + eol)
    case None => NoSepLater(eol, piece, rest);
    case Some(m) => ResultAt(eol, piece, rest, skip, m);
  }

  lemma ResultAt(eol: string, piece: string, rest: string, skip: bool, m: nat)
    requires IsEol(eol) && EolFree(piece, eol) && !MatchAt(rest, 0, eol) && Find(rest, eol + eol) == Some(m)
    ensures Result(eol, rest, SkipAfter(piece, skip)).Some?
    ensures Result(eol, piece + eol + rest, skip)
         == Some((if piece == [] || SkipAfter(piece, skip) then [] else piece + eol)
                 + Result(eol, rest, SkipAfter(piece, skip)).value)
  {
    var lines, tail := Split(rest[..m], eol), rest[m + |eol + eol|..];
    ResultIs(eol, rest, SkipAfter(piece, skip), m, lines, tail);
    ResultFront(eol, piece, rest, skip, m);
    StripFirst(piece, lines, skip, eol);
    PutTogether(Render(StripLines([piece] + lines, skip), eol),
                if piece == [] || SkipAfter(piece, skip) then [] else piece + eol,
                Render(StripLines(lines, SkipAfter(piece, skip)), eol), eol, tail);
  }

  lemma ResultFront(eol: string, piece: string, rest: string, skip: bool, m: nat)
    requires IsEol(eol) && EolFree(piece, eol) && !MatchAt(rest, 0, eol) && Find(rest, eol + eol) == Some(m)
    ensures Result(eol, piece + eol + rest, skip)
         == Some(Render(StripLines([piece] + Split(rest[..m], eol), skip), eol) + eol + rest[m + |eol + eol|..])
  {
    var s, k, lines, tail := piece + eol + rest, |piece| + |eol| + m, Split(rest[..m], eol), rest[m + |eol + eol|..];
    assert Find(s, eol + eol) == Some(k) by { SepLater(piece, eol, rest, m); }
    assert Split(s[..k], eol) == [piece] + lines && s[k + |eol + eol|..] == tail by {
      HeaderSplits(eol, piece, rest, m);
      SplitMore(piece, eol, rest[..m]);
    }
    ResultIs(eol, s, skip, k, [piece] + lines, tail);
  }

  lemma PutTogether(all: string, a: string, b: string, c: string, d: string)
    requires all == a + b
    ensures all + c + d == a + (b + c + d)
  {
  }

  lemma HeaderSplits(eol: string, piece: string, rest: string, m: nat)
    requires m + |eol + eol| <= |rest|
    ensures var s, k := piece + eol + rest, |piece| + |eol| + m;
      s[..k] == piece + eol + rest[..m] && s[k + |eol + eol|..] == rest[m + |eol + eol|..]
  {
  }

  lemma NoSepLater(eol: string, piece: string, rest: string)
    requires IsEol(eol) && EolFree(piece, eol) && !MatchAt(rest, 0, eol) && Find(rest, eol + eol).None?
    ensures Find(piece + eol + rest, eol + eol).None?
  {
    var s, n := piece + eol + rest, |piece| + |eol|;
    SepAfterFirst(piece, eol, rest);
    forall j | 0 <= j
      ensures !MatchAt(s, j, eol + eol)
    {
      if j >= n { assert MatchAt(s, n + (j - n), eol + eol) <==> MatchAt(rest, j - n, eol + eol); }
    }
  }

  lemma NoEolNoSep(s: string, eol: string)
    requires eol != [] && Find(s, eol).None?
    ensures Find(s, eol + eol).None?
  {
    match Find(s, eol + eol)
    case None =>
    case Some(k) => SepSplits(s, k, eol);
  }

  lemma CutPiece(s: string, eol: string, i: nat)
    requires IsEol(eol) && Find(s, eol) == Some(i)
    ensures s == s[..i] + eol + s[i + |eol|..] && EolFree(s[..i], eol)
  {
    assert s[i..] == s[i..i + |eol|] + s[i + |eol|..];
    PiecesAreEolFree(s, eol);
    assert Split(s, eol)[0] == s[..i] && s[..i] in Split(s, eol);
  }

  lemma {:induction false} PiecesResult(eol: string, s: string, skip: bool)
    requires IsEol(eol) && !MatchAt(s, 0, eol)
    ensures ByPieces(eol, s, skip) == Result(eol, s, skip)
    decreases |s|
  {
    match Find(s, eol)
    case None => NoEolNoSep(s, eol);
    case Some(i) =>
      var piece, rest := s[..i], s[i + |eol|..];
      CutPiece(s, eol, i);
      PieceFirst(eol, piece, rest, skip);
      if MatchAt(rest, 0, eol) {
        AtOnce(eol, rest);
        ResultAtOnce(eol, piece, rest[|eol|..], skip);
      } else {
        PiecesResult(eol, rest, SkipAfter(piece, skip));
        ResultLater(eol, piece, rest, skip);
      }
  }

  lemma AtOnce(eol: string, rest: string)
    requires IsEol(eol) && MatchAt(rest, 0, eol)
    ensures rest == eol + rest[|eol|..] && Find(rest, eol) == Some(0)
    ensures forall skip :: ByPieces(eol, rest, skip) == Some(rest)
  {
    assert rest == rest[0..|eol|] + rest[|eol|..];
    FindIs(rest, eol, 0);
  }

  lemma StrippedIsResult(email: string)
    ensures Stripped(email) == match Result(Eol(email), email, false) case None => email case Some(r) => r
  {
    var eol := Eol(email);
    match Find(email, eol + eol)
    case None =>
    case Some(k) =>
      LoopKeeps(Split(email[..k], eol));
      ResultIs(eol, email, false, k, Split(email[..k], eol), email[k + |eol + eol|..]);
      StrippedAt(email, k);
  }

  lemma StrippedAt(email: string, k: nat)
    requires HeaderEnd(email) == Some(k)
    ensures Stripped(email)
         == Render(KeptLines(email[..k], Eol(email)), Eol(email)) + Eol(email) + email[k + |Sep(email)|..]
  {
  }

  // An ending at the very beginning is no piece and goes.
  function Beginning(email: string): string {
    if StartsWith(email, Eol(email)) then email[|Eol(email)|..] else email
  }

  lemma StrippedByPieces(email: string)
    ensures Stripped(email)
         == match ByPieces(Eol(email), Beginning(email), false) case None => email case Some(r) => r
  {
    var eol := Eol(email);
    StrippedIsResult(email);
    if StartsWith(email, eol) {
      assert email == "" + eol + email[|eol|..];
      BehindEnding(eol, email[|eol|..]);
    } else {
      assert !MatchAt(email, 0, eol);
      PiecesResult(eol, email, false);
    }
  }

  lemma BehindEnding(eol: string, rest: string)
    requires IsEol(eol)
    ensures Result(eol, "" + eol + rest, false) == ByPieces(eol, rest, false)
  {
    NoFeedIsFree("", eol);
    if MatchAt(rest, 0, eol) {
      AtOnce(eol, rest);
      ResultAtOnce(eol, "", rest[|eol|..], false);
      assert [] + (eol + rest[|eol|..]) == rest;
    } else {
      PiecesResult(eol, rest, false);
      ResultLater(eol, "", rest, false);
      NothingPut(Result(eol, rest, false));
    }
  }

  lemma NothingPut(more: Option<string>)
    ensures more == match more case None => None case Some(r) => Some([] + r)
  {
    if more.Some? { assert [] + more.value == more.value; }
  }

  // ---- Which characters go ----

  function Fill(n: nat, b: bool): seq<bool> {
    seq(n, k => b)
  }

  // The first line with its line feed.
  function FirstRaw(s: string): string {
    if IndexOf(s, '\n') < |s| then s[..IndexOf(s, '\n') + 1] else s
  }

  predicate HasFeed(s: string) {
    IndexOf(s, '\n') < |s|
  }

  predicate IsBlankRaw(u: string) {
    u == "\n" || u == "\r\n"
  }

  // What stays for the pass, line by line: whether the line begins a piece, and whether
  // a field is being left out. None when no blank line with its ending comes.
  function PassKeeps(eol: string, s: string, anew: bool, skip: bool): Option<seq<bool>>
    decreases |s|
  {
    if !HasFeed(s) then None
    else
      var u := FirstRaw(s);
      if anew && u == eol then Some(Fill(|s|, true))
      else
        var skip' := if anew then SkipAfter(u, skip) else skip;
        match PassKeeps(eol, s[|u|..], EndsWith(u, eol), skip')
        case None => None
        case Some(f) => Some(Fill(|u|, !skip') + f)
  }

  // What stays when exactly the signature fields of the header go, the header ending at
  // the first blank line with either ending.
  function FieldsKeep(s: string, skip: bool): seq<bool>
    decreases |s|
  {
    if !HasFeed(s) then Fill(|s|, true)
    else
      var u := FirstRaw(s);
      if IsBlankRaw(u) then Fill(|s|, true)
      else
        var skip' := SkipAfter(u, skip);
        Fill(|u|, !skip') + FieldsKeep(s[|u|..], skip')
  }

  lemma RawFirst(u: string, rest: string)
    requires u != [] && u[|u| - 1] == '\n' && '\n' !in u[..|u| - 1]
    ensures var s := u + rest; HasFeed(s) && FirstRaw(s) == u && s[|u|..] == rest
  {
    IndexOfIs(u + rest, '\n', |u| - 1);
  }

  lemma RawIs(s: string)
    requires HasFeed(s)
    ensures var u := FirstRaw(s);
      u != [] && u[|u| - 1] == '\n' && '\n' !in u[..|u| - 1] && |u| <= |s| && s == u + s[|u|..]
  {
  }

  lemma {:induction false} FieldsKeepLength(s: string, skip: bool)
    ensures |FieldsKeep(s, skip)| == |s|
    decreases |s|
  {
    if HasFeed(s) && !IsBlankRaw(FirstRaw(s)) {
      RawIs(s);
      FieldsKeepLength(s[|FirstRaw(s)|..], SkipAfter(FirstRaw(s), skip));
    }
  }

  lemma {:induction false} KeptFill<T>(items: seq<T>, b: bool)
    ensures Kept(items, Fill(|items|, b)) == if b then items else []
  {
    if items != [] {
      assert Fill(|items|, b)[1..] == Fill(|items| - 1, b);
      KeptFill(items[1..], b);
      assert items == [items[0]] + items[1..];
    }
  }

  lemma KeptFirst<T>(u: seq<T>, b: bool, rest: seq<T>, f: seq<bool>)
    requires |f| == |rest|
    ensures |Fill(|u|, b) + f| == |u + rest|
    ensures Kept(u + rest, Fill(|u|, b) + f) == (if b then u else []) + Kept(rest, f)
  {
    KeptAppend(u, Fill(|u|, b), rest, f);
    KeptFill(u, b);
  }

  // ---- The pass and its pieces ----

  // Whether a line is a signature shows in its first characters.
  lemma DkimShows(u: string, tail: string)
    requires u != [] && u[|u| - 1] == '\n'
    ensures IsDkim(u + tail) <==> IsDkim(u)
  {
    if |u| >= 15 {
      assert (u + tail)[..15] == u[..15];
    } else if |u + tail| >= 15 {
      assert Lower((u + tail)[..15])[|u| - 1] == '\n';
      assert "dkim-signature:"[|u| - 1] != '\n';
    }
  }

  lemma SkipShows(u: string, tail: string, skip: bool)
    requires u != [] && u[|u| - 1] == '\n'
    ensures SkipAfter(u + tail, skip) == SkipAfter(u, skip)
  {
    DkimShows(u, tail);
  }

  // The ending of a piece is part of a text of the line that ends it.
  lemma DkimWithout(piece: string, eol: string)
    requires IsEol(eol) && piece != []
    ensures IsDkim(piece + eol) <==> IsDkim(piece)
  {
    var s := piece + eol;
    if |piece| >= 15 {
      assert s[..15] == piece[..15];
    } else if |s| >= 15 {
      assert Lower(s[..15])[|piece|] == s[|piece|];
      assert "dkim-signature:"[14] == ':';
    }
  }

  lemma SkipWithout(piece: string, eol: string, skip: bool)
    requires IsEol(eol) && piece != []
    ensures SkipAfter(piece + eol, skip) == SkipAfter(piece, skip)
  {
    DkimWithout(piece, eol);
  }

  // Where the first ending is, seen from the first line.
  lemma FirstEnding(s: string, eol: string)
    requires IsEol(eol)
    ensures !HasFeed(s) ==> Find(s, eol).None?
    ensures HasFeed(s) && EndsWith(FirstRaw(s), eol) ==> Find(s, eol) == Some(|FirstRaw(s)| - |eol|)
    ensures HasFeed(s) && !EndsWith(FirstRaw(s), eol) ==>
              Find(s, eol) == match Find(s[|FirstRaw(s)|..], eol)
                              case None => None
                              case Some(i) => Some(|FirstRaw(s)| + i)
  {
    if !HasFeed(s) {
      NoFeedIsFree(s, eol);
    } else {
      RawIs(s);
      EndingInRaw(FirstRaw(s), s[|FirstRaw(s)|..], eol);
    }
  }

  lemma EndingInRaw(u: string, rest: string, eol: string)
    requires IsEol(eol) && u != [] && u[|u| - 1] == '\n' && '\n' !in u[..|u| - 1]
    ensures EndsWith(u, eol) ==> Find(u + rest, eol) == Some(|u| - |eol|)
    ensures !EndsWith(u, eol) ==>
              Find(u + rest, eol) == match Find(rest, eol) case None => None case Some(i) => Some(|u| + i)
  {
    var s := u + rest;
    forall j | 0 <= j < |u|
      ensures MatchAt(s, j, eol) <==> j + |eol| == |u| && EndsWith(u, eol)
    {
      EndingAt(u, rest, eol, j);
    }
    if EndsWith(u, eol) {
      FindIs(s, eol, |u| - |eol|);
    } else {
      forall j | 0 <= j
        ensures MatchAt(s, |u| + j, eol) <==> MatchAt(rest, j, eol)
      {
        MatchBehind(u, rest, eol, j);
      }
      FoundBehind(s, rest, |u|, eol);
    }
  }

  lemma MatchBehind(u: string, rest: string, eol: string, j: nat)
    ensures MatchAt(u + rest, |u| + j, eol) <==> MatchAt(rest, j, eol)
  {
    if j + |eol| <= |rest| { assert (u + rest)[|u| + j..|u| + j + |eol|] == rest[j..j + |eol|]; }
  }

  lemma EndingAt(u: string, rest: string, eol: string, j: nat)
    requires IsEol(eol) && j < |u| && u[|u| - 1] == '\n' && '\n' !in u[..|u| - 1]
    ensures MatchAt(u + rest, j, eol) <==> j + |eol| == |u| && EndsWith(u, eol)
  {
    var s, n := u + rest, |eol|;
    if j + n <= |s| {
      var cut := s[j..j + n];
      assert cut[n - 1] == s[j + n - 1] && cut[0] == s[j] == u[j];
      if j + n == |u| {
        assert cut == u[j..];
      } else if j + n < |u| {
        assert s[j + n - 1] == u[..|u| - 1][j + n - 1];
      }
    }
  }

  lemma FoundBehind(s: string, rest: string, n: nat, eol: string)
    requires forall j :: 0 <= j < n ==> !MatchAt(s, j, eol)
    requires forall j :: 0 <= j ==> (MatchAt(s, n + j, eol) <==> MatchAt(rest, j, eol))
    ensures Find(s, eol) == match Find(rest, eol) case None => None case Some(i) => Some(n + i)
  {
    match Find(rest, eol)
    case None =>
      forall j | 0 <= j
        ensures !MatchAt(s, j, eol)
      {
        if j >= n { assert MatchAt(s, n + (j - n), eol) <==> MatchAt(rest, j - n, eol); }
      }
    case Some(i) =>
      forall j | 0 <= j < n + i
        ensures !MatchAt(s, j, eol)
      {
        if j >= n { assert MatchAt(s, n + (j - n), eol) <==> MatchAt(rest, j - n, eol); }
      }
      assert MatchAt(s, n + i, eol);
      FindIs(s, eol, n + i);
  }

  // The text that stays, line by line.
  function PassText(eol: string, s: string, anew: bool, skip: bool): Option<string>
    decreases |s|
  {
    if !HasFeed(s) then None
    else
      var u := FirstRaw(s);
      if anew && u == eol then Some(s)
      else
        var skip' := if anew then SkipAfter(u, skip) else skip;
        Put(u, skip', PassText(eol, s[|u|..], EndsWith(u, eol), skip'))
  }

  lemma PutTwice(a: string, b: string, skip: bool, more: Option<string>)
    ensures Put(a, skip, Put(b, skip, more)) == Put(a + b, skip, more)
  {
    match more
    case None =>
    case Some(r) => assert a + (b + r) == (a + b) + r && [] + ([] + r) == [] + r;
  }

  // What stays of a text of which everything up to the end of the piece goes one way.
  function ToPieceEnd(eol: string, s: string, skip: bool, more: string -> Option<string>): Option<string>
    requires eol != []
  {
    match Find(s, eol)
    case None => None
    case Some(i) => Put(s[..i + |eol|], skip, more(s[i + |eol|..]))
  }

  lemma EndsHere(eol: string, s: string, skip: bool, more: string -> Option<string>)
    requires IsEol(eol) && HasFeed(s) && EndsWith(FirstRaw(s), eol)
    ensures var u := FirstRaw(s);
      |u| <= |s| && ToPieceEnd(eol, s, skip, more) == Put(u, skip, more(s[|u|..]))
  {
    FirstEnding(s, eol);
  }

  lemma EndsLater(eol: string, s: string, skip: bool, more: string -> Option<string>)
    requires IsEol(eol) && HasFeed(s) && !EndsWith(FirstRaw(s), eol)
    ensures var u := FirstRaw(s);
      |u| <= |s| && ToPieceEnd(eol, s, skip, more) == Put(u, skip, ToPieceEnd(eol, s[|u|..], skip, more))
  {
    FirstEnding(s, eol);
    var n := |FirstRaw(s)|;
    RawIs(s);
    EndsBehind(eol, s, n, s[n..], skip, more);
    assert s[..n] == FirstRaw(s);
  }

  lemma EndsBehind(eol: string, s: string, n: nat, rest: string, skip: bool, more: string -> Option<string>)
    requires eol != [] && n <= |s| && rest == s[n..]
    requires Find(s, eol) == match Find(rest, eol) case None => None case Some(i) => Some(n + i)
    ensures ToPieceEnd(eol, s, skip, more) == Put(s[..n], skip, ToPieceEnd(eol, rest, skip, more))
  {
    match Find(rest, eol)
    case None =>
    case Some(i) =>
      TwoCuts(s, n, i + |eol|);
      PutTwice(s[..n], rest[..i + |eol|], skip, more(rest[i + |eol|..]));
      PieceEndAt(eol, rest, skip, more, i);
      PieceEndAt(eol, s, skip, more, n + i);
  }

  lemma PieceEndAt(eol: string, s: string, skip: bool, more: string -> Option<string>, i: nat)
    requires eol != [] && Find(s, eol) == Some(i)
    ensures ToPieceEnd(eol, s, skip, more) == Put(s[..i + |eol|], skip, more(s[i + |eol|..]))
  {
  }

  lemma TwoCuts(s: string, n: nat, m: nat)
    requires n + m <= |s|
    ensures s[n..][m..] == s[n + m..] && s[..n] + s[n..][..m] == s[..n + m]
  {
  }

  function After(eol: string, skip: bool): string -> Option<string> {
    t => PassText(eol, t, true, skip)
  }

  lemma PassStep(eol: string, s: string, anew: bool, skip: bool)
    requires HasFeed(s) && !(anew && FirstRaw(s) == eol)
    ensures var u := FirstRaw(s);
      var skip' := if anew then SkipAfter(u, skip) else skip;
      |u| <= |s| && PassText(eol, s, anew, skip) == Put(u, skip', PassText(eol, s[|u|..], EndsWith(u, eol), skip'))
  {
  }

  // The rest of a piece goes the way of its beginning.
  lemma {:induction false} RestOfPiece(eol: string, s: string, skip: bool)
    requires IsEol(eol)
    ensures PassText(eol, s, false, skip) == ToPieceEnd(eol, s, skip, After(eol, skip))
    decreases |s|
  {
    if !HasFeed(s) {
      FirstEnding(s, eol);
    } else {
      PassStep(eol, s, false, skip);
      if EndsWith(FirstRaw(s), eol) {
        EndsHere(eol, s, skip, After(eol, skip));
      } else {
        RestOfPiece(eol, s[|FirstRaw(s)|..], skip);
        EndsLater(eol, s, skip, After(eol, skip));
      }
    }
  }

  // So does a piece from its beginning.
  lemma WholePiece(eol: string, s: string, skip: bool)
    requires IsEol(eol) && HasFeed(s) && FirstRaw(s) != eol
    ensures var skip' := SkipAfter(FirstRaw(s), skip);
      PassText(eol, s, true, skip) == ToPieceEnd(eol, s, skip', After(eol, skip'))
  {
    var skip' := SkipAfter(FirstRaw(s), skip);
    PassStep(eol, s, true, skip);
    if EndsWith(FirstRaw(s), eol) {
      EndsHere(eol, s, skip', After(eol, skip'));
    } else {
      RestOfPiece(eol, s[|FirstRaw(s)|..], skip');
      EndsLater(eol, s, skip', After(eol, skip'));
    }
  }

  // The piece and its first line are judged alike.
  lemma PieceSkips(eol: string, s: string, skip: bool)
    requires IsEol(eol) && HasFeed(s)
    ensures match Find(s, eol)
            case None => true
            case Some(i) => i > 0 ==> SkipAfter(s[..i], skip) == SkipAfter(FirstRaw(s), skip)
  {
    var u := FirstRaw(s);
    RawIs(s);
    FirstEnding(s, eol);
    match Find(s, eol)
    case None =>
    case Some(i) =>
      if i > 0 {
        if EndsWith(u, eol) {
          assert u == s[..i] + eol;
          SkipWithout(s[..i], eol, skip);
        } else {
          assert s[..i] == u + s[|u|..i];
          SkipShows(u, s[|u|..i], skip);
        }
      }
  }

  lemma {:induction false} PassIsPieces(eol: string, s: string, skip: bool)
    requires IsEol(eol)
    ensures ByPieces(eol, s, skip) == PassText(eol, s, true, skip)
    decreases |s|
  {
    FirstEnding(s, eol);
    match Find(s, eol)
    case None => if HasFeed(s) { WholePiece(eol, s, skip); }
    case Some(i) =>
      if i == 0 {
        StartsWithEnding(eol, s);
      } else {
        var rest, skip' := s[i + |eol|..], SkipAfter(s[..i], skip);
        PassIsPieces(eol, rest, skip');
        var more := ByPieces(eol, rest, skip');
        TextOfPiece(eol, s, skip, i, rest, skip', more);
        PiecesStep(eol, s, skip, i, rest, skip', more);
      }
  }

  lemma TextOfPiece(eol: string, s: string, skip: bool, i: nat, rest: string, skip': bool, more: Option<string>)
    requires IsEol(eol) && Find(s, eol) == Some(i) && i > 0
    requires rest == s[i + |eol|..] && skip' == SkipAfter(s[..i], skip) && more == PassText(eol, rest, true, skip')
    ensures PassText(eol, s, true, skip) == Put(s[..i] + eol, skip', more)
  {
    FirstEnding(s, eol);
    PieceSkips(eol, s, skip);
    WholePiece(eol, s, skip);
    CutPiece(s, eol, i);
    assert s[..i] + eol == s[..i + |eol|];
  }

  lemma PiecesStep(eol: string, s: string, skip: bool, i: nat, rest: string, skip': bool, more: Option<string>)
    requires IsEol(eol) && Find(s, eol) == Some(i) && i > 0
    requires rest == s[i + |eol|..] && skip' == SkipAfter(s[..i], skip) && more == ByPieces(eol, rest, skip')
    ensures ByPieces(eol, s, skip) == Put(s[..i] + eol, skip', more)
  {
  }

  // The text that flags keep, if there are flags for all of it.
  function KeptBy(s: string, flags: Option<seq<bool>>): Option<string> {
    match flags
    case None => None
    case Some(f) => if |f| == |s| then Some(Kept(s, f)) else None
  }

  lemma KeptByFirst(s: string, u: string, skip: bool, rest: string, flags: Option<seq<bool>>)
    requires s == u + rest
    ensures KeptBy(s, match flags case None => None case Some(f) => Some(Fill(|u|, !skip) + f))
         == Put(u, skip, KeptBy(rest, flags))
  {
    match flags
    case None =>
    case Some(f) => if |f| == |rest| { KeptFirst(u, !skip, rest, f); }
  }

  lemma {:induction false} PassByFlags(eol: string, s: string, anew: bool, skip: bool)
    requires IsEol(eol)
    ensures PassText(eol, s, anew, skip) == KeptBy(s, PassKeeps(eol, s, anew, skip))
    decreases |s|
  {
    if HasFeed(s) {
      var u := FirstRaw(s);
      RawIs(s);
      if anew && u == eol {
        KeptFill(s, true);
      } else {
        var skip' := if anew then SkipAfter(u, skip) else skip;
        PassByFlags(eol, s[|u|..], EndsWith(u, eol), skip');
        KeptByFirst(s, u, skip', s[|u|..], PassKeeps(eol, s[|u|..], EndsWith(u, eol), skip'));
      }
    }
  }

  lemma StartsWithEnding(eol: string, s: string)
    requires IsEol(eol) && Find(s, eol) == Some(0)
    ensures HasFeed(s) && FirstRaw(s) == eol
  {
    assert s == eol + s[|eol|..] by { assert s[0..|eol|] == eol; }
    RawFirst(eol, s[|eol|..]);
  }

  // What stays of a message.
  function PassFlags(email: string): seq<bool> {
    var s := Beginning(email);
    match PassKeeps(Eol(email), s, true, false)
    case None => Fill(|email|, true)
    case Some(f) => Fill(|email| - |s|, false) + f
  }

  function FieldFlags(email: string): seq<bool> {
    FieldsKeep(email, false)
  }

  lemma StrippedIsKept(email: string)
    ensures |PassFlags(email)| == |email| && Stripped(email) == Kept(email, PassFlags(email))
  {
    var s := Beginning(email);
    StrippedByPieces(email);
    PassIsPieces(Eol(email), s, false);
    PassByFlags(Eol(email), s, true, false);
    if PassKeeps(Eol(email), s, true, false).Some? { PassLength(Eol(email), s, true, false); }
    match PassKeeps(Eol(email), s, true, false)
    case None => KeptFill(email, true);
    case Some(f) => KeptBehind(email, |email| - |s|, f);
  }

  lemma KeptBehind(s: string, n: nat, f: seq<bool>)
    requires n <= |s| && |f| == |s| - n
    ensures |Fill(n, false) + f| == |s| && Kept(s, Fill(n, false) + f) == Kept(s[n..], f)
  {
    assert s == s[..n] + s[n..];
    KeptFirst(s[..n], false, s[n..], f);
  }

  // ---- Against the fields of the header ----

  // The message without the signature fields of its own header.
  function Unsigned(email: string): string {
    FieldsKeepLength(email, false);
    Kept(email, FieldFlags(email))
  }

  // A line before the first blank one names a signature.
  predicate HasSignature(s: string)
    decreases |s|
  {
    HasFeed(s) && !IsBlankRaw(FirstRaw(s)) && (IsDkim(FirstRaw(s)) || HasSignature(s[|FirstRaw(s)|..]))
  }

  lemma SignatureFirst(u: string, rest: string)
    requires u != [] && u[|u| - 1] == '\n' && '\n' !in u[..|u| - 1] && !IsBlankRaw(u)
    ensures HasSignature(u + rest) <==> IsDkim(u) || HasSignature(rest)
  {
    RawFirst(u, rest);
  }

  lemma {:induction false} UnsignedHasNone(s: string, skip: bool)
    ensures |FieldsKeep(s, skip)| == |s| && !HasSignature(Kept(s, FieldsKeep(s, skip)))
    decreases |s|
  {
    FieldsKeepLength(s, skip);
    if !HasFeed(s) || IsBlankRaw(FirstRaw(s)) {
      KeptFill(s, true);
    } else {
      var u, rest := FirstRaw(s), s[|FirstRaw(s)|..];
      var skip' := SkipAfter(u, skip);
      RawIs(s);
      UnsignedHasNone(rest, skip');
      KeptFirst(u, !skip', rest, FieldsKeep(rest, skip'));
      ContinuationIsNotDkim(u);
      if skip' {
        assert [] + Kept(rest, FieldsKeep(rest, skip')) == Kept(rest, FieldsKeep(rest, skip'));
      } else {
        SignatureFirst(u, Kept(rest, FieldsKeep(rest, skip')));
      }
    }
  }

  // The pass keeps a signature line of the header.
  predicate Misses(eol: string, s: string, anew: bool, skip: bool)
    decreases |s|
  {
    HasFeed(s) && !IsBlankRaw(FirstRaw(s))
    && (var u := FirstRaw(s);
        var skip' := if anew then SkipAfter(u, skip) else skip;
        (IsDkim(u) && !skip') || Misses(eol, s[|u|..], EndsWith(u, eol), skip'))
  }

  lemma {:induction false} MissedStays(eol: string, s: string, anew: bool, skip: bool)
    requires IsEol(eol) && PassKeeps(eol, s, anew, skip).Some? && Misses(eol, s, anew, skip)
    ensures var f := PassKeeps(eol, s, anew, skip).value; |f| == |s| && HasSignature(Kept(s, f))
    decreases |s|
  {
    var u, rest := FirstRaw(s), s[|FirstRaw(s)|..];
    var skip' := if anew then SkipAfter(u, skip) else skip;
    RawIs(s);
    var f := PassKeeps(eol, rest, EndsWith(u, eol), skip').value;
    PassLength(eol, rest, EndsWith(u, eol), skip');
    KeptFirst(u, !skip', rest, f);
    if !(IsDkim(u) && !skip') { MissedStays(eol, rest, EndsWith(u, eol), skip'); }
    if skip' {
      assert [] + Kept(rest, f) == Kept(rest, f);
    } else {
      SignatureFirst(u, Kept(rest, f));
    }
  }

  lemma {:induction false} PassLength(eol: string, s: string, anew: bool, skip: bool)
    requires IsEol(eol) && PassKeeps(eol, s, anew, skip).Some?
    ensures |PassKeeps(eol, s, anew, skip).value| == |s|
    decreases |s|
  {
    var u := FirstRaw(s);
    RawIs(s);
    if !(anew && u == eol) {
      PassLength(eol, s[|u|..], EndsWith(u, eol), if anew then SkipAfter(u, skip) else skip);
    }
  }

  // Nothing stays that is not kept by the other.
  ghost predicate Under(f: seq<bool>, g: seq<bool>) {
    |f| == |g| && forall k :: 0 <= k < |f| && f[k] ==> g[k]
  }

  lemma UnderAppend(a: seq<bool>, b: seq<bool>, f: seq<bool>, g: seq<bool>)
    requires Under(a, b) && Under(f, g)
    ensures Under(a + f, b + g)
  {
  }

  // A pass that misses no signature line takes every signature field out.
  lemma {:induction false} PassIsUnder(eol: string, s: string, anew: bool, skip: bool, field: bool)
    requires IsEol(eol) && PassKeeps(eol, s, anew, skip).Some? && !Misses(eol, s, anew, skip)
    requires field ==> skip
    ensures Under(PassKeeps(eol, s, anew, skip).value, FieldsKeep(s, field))
    decreases |s|
  {
    var u, rest := FirstRaw(s), s[|FirstRaw(s)|..];
    PassLength(eol, s, anew, skip);
    FieldsKeepLength(s, field);
    RawIs(s);
    if !IsBlankRaw(u) {
      var skip' := if anew then SkipAfter(u, skip) else skip;
      var field' := SkipAfter(u, field);
      PassIsUnder(eol, rest, EndsWith(u, eol), skip', field');
      UnderAppend(Fill(|u|, !skip'), Fill(|u|, !field'),
                  PassKeeps(eol, rest, EndsWith(u, eol), skip').value, FieldsKeep(rest, field'));
    }
  }

  lemma {:induction false} UnderLength<T>(items: seq<T>, f: seq<bool>, g: seq<bool>)
    requires Under(f, g) && |items| == |f|
    ensures |Kept(items, f)| <= |Kept(items, g)|
    ensures |Kept(items, f)| == |Kept(items, g)| ==> f == g
  {
    if items != [] {
      assert Under(f[1..], g[1..]);
      UnderLength(items[1..], f[1..], g[1..]);
      if |Kept(items, f)| == |Kept(items, g)| {
        assert f[0] == g[0] && f[1..] == g[1..];
        assert f == [f[0]] + f[1..] && g == [g[0]] + g[1..];
      }
    }
  }

  lemma {:induction false} NothingToTake(s: string)
    requires !HasSignature(s)
    ensures FieldsKeep(s, false) == Fill(|s|, true)
    decreases |s|
  {
    if HasFeed(s) && !IsBlankRaw(FirstRaw(s)) {
      var u := FirstRaw(s);
      RawIs(s);
      NothingToTake(s[|u|..]);
      assert Fill(|u|, true) + Fill(|s| - |u|, true) == Fill(|s|, true);
    }
  }

  lemma UnsignedDiffers(email: string, out: string)
    requires HasSignature(out)
    ensures out != Unsigned(email)
  {
    UnsignedHasNone(email, false);
  }

  // Which of the two takes more.
  lemma FlagsDecide(email: string)
    ensures HasSignature(Stripped(email)) || Under(PassFlags(email), FieldFlags(email))
  {
    var eol, s := Eol(email), Beginning(email);
    StrippedIsKept(email);
    FieldsKeepLength(email, false);
    match PassKeeps(eol, s, true, false)
    case None =>
      KeptFill(email, true);
      if !HasSignature(email) { NothingToTake(email); }
    case Some(f) =>
      PassLength(eol, s, true, false);
      if |s| < |email| {
        BeginsBlank(email);
      } else {
        PassDecides(email, f);
      }
  }

  lemma PassDecides(email: string, f: seq<bool>)
    requires Beginning(email) == email && PassKeeps(Eol(email), email, true, false) == Some(f)
    ensures |f| == |email| && PassFlags(email) == f
    ensures HasSignature(Kept(email, f)) || Under(f, FieldFlags(email))
  {
    PassLength(Eol(email), email, true, false);
    assert Fill(0, false) + f == f;
    if Misses(Eol(email), email, true, false) {
      MissedStays(Eol(email), email, true, false);
    } else {
      PassIsUnder(Eol(email), email, true, false, false);
    }
  }

  lemma BeginsBlank(email: string)
    requires |Beginning(email)| < |email|
    ensures FieldFlags(email) == Fill(|email|, true)
  {
    var eol := Eol(email);
    assert email == eol + email[|eol|..];
    RawFirst(eol, email[|eol|..]);
  }

  // Different characters taken out make different texts.
  lemma RightByFlags(email: string)
    ensures Stripped(email) == Unsigned(email) <==> PassFlags(email) == FieldFlags(email)
  {
    StrippedIsKept(email);
    FlagsDecide(email);
    if HasSignature(Stripped(email)) {
      UnsignedDiffers(email, Stripped(email));
    } else {
      UnderLength(email, PassFlags(email), FieldFlags(email));
    }
  }

  // ---- What the unsigned message is ----

  // The header lines without the signature fields.
  function KeptRaw(lines: seq<RawLine>, skip: bool): seq<RawLine> {
    if lines == [] then []
    else
      var skip' := SkipAfter(lines[0].text, skip);
      (if skip' then [] else [lines[0]]) + KeptRaw(lines[1..], skip')
  }

  lemma RawOfLine(l: RawLine)
    requires ValidLine(l)
    ensures var u := l.text + Break(l.crlf);
      u[|u| - 1] == '\n' && '\n' !in u[..|u| - 1] && !IsBlankRaw(u)
    ensures forall skip :: SkipAfter(l.text + Break(l.crlf), skip) == SkipAfter(l.text, skip)
  {
    var u := l.text + Break(l.crlf);
    assert u[0] == l.text[0];
    forall skip
      ensures SkipAfter(u, skip) == SkipAfter(l.text, skip)
    {
      SkipWithout(l.text, Break(l.crlf), skip);
    }
    assert '\n' !in u[..|u| - 1];
    assert !l.crlf ==> l.text[|l.text| - 1] != '\r';
    assert u[|l.text| - 1] == l.text[|l.text| - 1];
  }

  lemma BlankKeeps(crlf: bool, body: string, skip: bool)
    ensures var s := Break(crlf) + body; FieldsKeep(s, skip) == Fill(|s|, true)
  {
    RawFirst(Break(crlf), body);
  }

  lemma {:induction false} UnsignedParts(p: Parts, skip: bool)
    requires ValidLines(p.header)
    ensures var s := WriteMessage(p);
      |FieldsKeep(s, skip)| == |s|
      && Kept(s, FieldsKeep(s, skip)) == WriteMessage(p.(header := KeptRaw(p.header, skip)))
    decreases |p.header|
  {
    var s := WriteMessage(p);
    FieldsKeepLength(s, skip);
    if p.header == [] {
      assert s == Break(p.crlf) + p.body;
      BlankKeeps(p.crlf, p.body, skip);
      KeptFill(s, true);
    } else {
      UnsignedParts(p.(header := p.header[1..]), SkipAfter(p.header[0].text, skip));
      UnsignedLine(p, skip);
    }
  }

  lemma UnsignedLine(p: Parts, skip: bool)
    requires p.header != [] && ValidLine(p.header[0])
    requires var rest, skip' := p.(header := p.header[1..]), SkipAfter(p.header[0].text, skip);
      |FieldsKeep(WriteMessage(rest), skip')| == |WriteMessage(rest)|
      && Kept(WriteMessage(rest), FieldsKeep(WriteMessage(rest), skip'))
         == WriteMessage(rest.(header := KeptRaw(rest.header, skip')))
    ensures var s := WriteMessage(p);
      |FieldsKeep(s, skip)| == |s|
      && Kept(s, FieldsKeep(s, skip)) == WriteMessage(p.(header := KeptRaw(p.header, skip)))
  {
    var l, rest := p.header[0], p.(header := p.header[1..]);
    var skip', u, tail := SkipAfter(l.text, skip), l.text + Break(l.crlf), WriteMessage(rest);
    WriteFirst(p);
    RawOfLine(l);
    LineOfFields(u, tail, skip);
    KeptFirst(u, !skip', tail, FieldsKeep(tail, skip'));
    var kept := rest.(header := KeptRaw(rest.header, skip'));
    if skip' {
      assert [] + WriteMessage(kept) == WriteMessage(kept) && [] + KeptRaw(rest.header, skip') == KeptRaw(rest.header, skip');
    } else {
      WriteFirst(p.(header := [l] + kept.header));
      assert ([l] + kept.header)[1..] == kept.header;
    }
  }

  lemma LineOfFields(u: string, tail: string, skip: bool)
    requires u != [] && u[|u| - 1] == '\n' && '\n' !in u[..|u| - 1] && !IsBlankRaw(u)
    ensures FieldsKeep(u + tail, skip) == Fill(|u|, !SkipAfter(u, skip)) + FieldsKeep(tail, SkipAfter(u, skip))
  {
    RawFirst(u, tail);
  }

  // The header fields not named DKIM-Signature, each with all its continuation lines and
  // its own line endings, and the rest of the message as it was.
  lemma UnsignedIs(email: string, p: Parts)
    requires ReadMessage(email) == Some(p)
    ensures Unsigned(email) == WriteMessage(p.(header := KeptRaw(p.header, false)))
    ensures Texts(KeptRaw(p.header, false)) == Flat(WithoutDkim(Fields(Texts(p.header))))
  {
    WrittenIsRead(email);
    UnsignedParts(p, false);
    KeptTexts(p.header, false);
    TextsAreFree(p.header, "\n");
    assert [] !in Texts(p.header);
    LoopDrops(Texts(p.header));
  }

  lemma LoopDrops(texts: seq<string>)
    requires [] !in texts
    ensures StripLines(texts, false) == Flat(WithoutDkim(Fields(texts)))
  {
    LoopDropsFields(texts, false);
  }

  lemma {:induction false} KeptTexts(lines: seq<RawLine>, skip: bool)
    requires ValidLines(lines)
    ensures Texts(KeptRaw(lines, skip)) == StripLines(Texts(lines), skip)
  {
    if lines != [] {
      assert ValidLine(lines[0]);
      assert ValidLines(lines[1..]);
      assert Texts(lines)[1..] == Texts(lines[1..]);
      var skip' := SkipAfter(lines[0].text, skip);
      KeptTexts(lines[1..], skip');
      ContinuationIsNotDkim(lines[0].text);
      var rest := KeptRaw(lines[1..], skip');
      assert Texts([lines[0]] + rest) == [lines[0].text] + Texts(rest);
      assert Texts([] + rest) == [] + Texts(rest);
    }
  }

  // ---- With one kind of line ending ----

  lemma {:induction false} KeptEndings(lines: seq<RawLine>, skip: bool, eol: string)
    requires forall k :: 0 <= k < |lines| ==> Break(lines[k].crlf) == eol
    ensures forall k :: 0 <= k < |KeptRaw(lines, skip)| ==> Break(KeptRaw(lines, skip)[k].crlf) == eol
  {
    if lines != [] {
      assert forall k :: 0 <= k < |lines[1..]| ==> lines[1..][k] == lines[k + 1];
      KeptEndings(lines[1..], SkipAfter(lines[0].text, skip), eol);
    }
  }

  lemma {:induction false} EndingsRender(lines: seq<RawLine>, eol: string)
    requires forall k :: 0 <= k < |lines| ==> Break(lines[k].crlf) == eol
    ensures RawText(lines) == Render(Texts(lines), eol)
  {
    if lines != [] {
      assert forall k :: 0 <= k < |lines[1..]| ==> lines[1..][k] == lines[k + 1];
      EndingsRender(lines[1..], eol);
      assert Texts(lines)[1..] == Texts(lines[1..]);
    }
  }

  // A message whose header lines and blank line all have the ending the filter looks
  // for loses exactly its signature fields.
  lemma UniformStripsRight(email: string, p: Parts)
    requires ReadMessage(email) == Some(p) && Uniform(p, Eol(email))
    ensures Stripped(email) == Unsigned(email)
  {
    var eol, kept := Eol(email), KeptRaw(p.header, false);
    WrittenIsRead(email);
    UniformReadsRight(email, p);
    UnsignedIs(email, p);
    KeptTexts(p.header, false);
    LoopKeeps(Texts(p.header));
    KeptEndings(p.header, false, eol);
    EndingsRender(kept, eol);
    Assoc(RawText(kept), eol, p.body);
  }

  // ---- Messages that are not ----

  // A signature and all up to the first CRLF goes: the other fields of the header and
  // the beginning of the body.
  lemma MixedLosesHeader(u: string, rest: string, body: string)
    requires '\r' !in u && '\r' !in rest
    requires |u| > 15 && u[..15] == "DKIM-Signature:" && u[|u| - 1] == '\n' && '\n' !in u[..|u| - 1]
    ensures var email := u + (rest + "\r\n" + ("\r\n" + body));
      Stripped(email) == "\r\n" + body && HasSignature(email)
  {
    assert (u + rest)[..15] == u[..15];
    DkimPrefix(u + rest);
    MixedPiece(u + rest, body);
    Assoc3(u, rest, "\r\n", "\r\n" + body);
    SignedFirst(u, rest + "\r\n" + ("\r\n" + body));
  }

  lemma Assoc3(a: string, b: string, c: string, d: string)
    ensures (a + b) + c + d == a + (b + c + d)
  {
  }

  lemma MixedLetterIsLost()
    ensures var email := "DKIM-Signature: a\n" + ("To: b\n\nhi" + "\r\n" + ("\r\n" + "bye"));
      Stripped(email) == "\r\n" + "bye" && HasSignature(email)
  {
    var u := "DKIM-Signature: a\n";
    assert u[..15] == "DKIM-Signature:";
    MixedLosesHeader(u, "To: b\n\nhi", "bye");
  }

  lemma NoCrIsFree(s: string)
    requires '\r' !in s
    ensures EolFree(s, "\r\n")
  {
    forall j | 0 <= j
      ensures !MatchAt(s, j, "\r\n")
    {
      if j + 2 <= |s| { assert s[j..j + 2][0] == s[j]; }
    }
  }

  lemma DkimPrefix(piece: string)
    requires |piece| >= 15 && piece[..15] == "DKIM-Signature:"
    ensures IsDkim(piece) && !Continuation(piece)
  {
    assert Lower("DKIM-Signature:") == "dkim-signature:";
    assert piece[0] == piece[..15][0];
  }

  // A first piece that begins with a signature is lost as a whole.
  lemma MixedPiece(piece: string, body: string)
    requires '\r' !in piece && IsDkim(piece)
    ensures Stripped(piece + "\r\n" + ("\r\n" + body)) == "\r\n" + body
  {
    var email := piece + "\r\n" + ("\r\n" + body);
    NoCrIsFree(piece);
    ContinuationIsNotDkim(piece);
    assert MatchAt(email, |piece|, "\r\n") by { assert email[|piece|..|piece| + 2] == "\r\n"; }
    StrippedIsResult(email);
    ResultAtOnce("\r\n", piece, body, false);
    assert [] + ("\r\n" + body) == "\r\n" + body;
  }

  lemma SignedFirst(u: string, rest: string)
    requires |u| > 15 && u[..15] == "DKIM-Signature:" && u[|u| - 1] == '\n' && '\n' !in u[..|u| - 1]
    ensures HasSignature(u + rest)
  {
    DkimPrefix(u);
    SignatureFirst(u, rest);
  }

  // A CRLF anywhere, and no blank line with that ending: nothing is stripped.
  lemma NoSepIsKept(email: string)
    requires Contains(email, "\r\n") && !Contains(email, "\r\n\r\n")
    ensures HeaderEnd(email).None? && Stripped(email) == email
  {
    assert "\r\n" + "\r\n" == "\r\n\r\n";
  }

  lemma MixedKeepsSignature()
    ensures var email := "DKIM-Signature: a\n" + ("To: b\n\nhi" + "\r\n");
      Stripped(email) == email && HasSignature(email)
  {
    var front := "DKIM-Signature: a\nTo: b\n\nhi";
    var email := "DKIM-Signature: a\n" + ("To: b\n\nhi" + "\r\n");
    assert email == front + "\r\n";
    OneCrLf(front);
    NoSepIsKept(email);
    SignedFirst("DKIM-Signature: a\n", "To: b\n\nhi" + "\r\n");
  }

  lemma OneCrLf(front: string)
    requires '\r' !in front
    ensures Contains(front + "\r\n", "\r\n") && !Contains(front + "\r\n", "\r\n\r\n")
  {
    var s := front + "\r\n";
    assert s[|front|..|front| + 2] == "\r\n" && MatchAt(s, |front|, "\r\n");
    forall j | 0 <= j
      ensures !MatchAt(s, j, "\r\n\r\n")
    {
      if j + 4 <= |s| { assert s[j..j + 4][0] == s[j]; }
    }
  }
}

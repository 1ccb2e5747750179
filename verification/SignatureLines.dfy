// When the pass takes out exactly the signature fields of a message: what its lines have
// to be like.
module SignatureLines {
  import opened Text
  import opened DkimStrip
  import opened MessageParts
  import opened Signatures

  // ---- The condition on the lines ----

  // Behind the blank line, up to the separator of the filter: no line that begins a piece
  // names a signature.
  predicate BodyAgrees(eol: string, s: string, anew: bool)
    decreases |s|
  {
    if !HasFeed(s) then true
    else
      var u := FirstRaw(s);
      (anew && u == eol) || (!(anew && IsDkim(u)) && BodyAgrees(eol, s[|u|..], EndsWith(u, eol)))
  }

  // In the header, and from there on. A line begins a piece when the one before it has the
  // ending looked for. One that begins none must belong to a signature field exactly if the
  // line before it does; and if the pass goes on at the blank line, either that begins a
  // piece or the last field is no signature.
  predicate LinesAgree(eol: string, s: string, anew: bool, skip: bool)
    decreases |s|
  {
    if !HasFeed(s) then true
    else
      var u := FirstRaw(s);
      if IsBlankRaw(u) then
        (anew && u == eol) || ((anew || !skip) && BodyAgrees(eol, s[|u|..], EndsWith(u, eol)))
      else
        (anew || SkipAfter(u, skip) == skip) && LinesAgree(eol, s[|u|..], EndsWith(u, eol), SkipAfter(u, skip))
  }

  // Without a separator there is no signature; with one the message does not begin with
  // the ending looked for, and its lines agree.
  predicate Strippable(email: string) {
    if HeaderEnd(email).None? then !HasSignature(email)
    else !StartsWith(email, Eol(email)) && LinesAgree(Eol(email), email, true, false)
  }

  // ---- Line by line ----

  lemma FillSplits(n: nat, a: bool, f: seq<bool>, b: bool, g: seq<bool>)
    requires n > 0
    ensures Fill(n, a) + f == Fill(n, b) + g <==> a == b && f == g
  {
    var x, y := Fill(n, a) + f, Fill(n, b) + g;
    assert x[0] == a && y[0] == b && x[n..] == f && y[n..] == g;
  }

  lemma FillJoins(n: nat, m: nat, b: bool)
    ensures Fill(n, b) + Fill(m, b) == Fill(n + m, b)
  {
  }

  lemma BlankIsNoSignature(u: string)
    requires IsBlankRaw(u)
    ensures forall skip :: !SkipAfter(u, skip)
  {
  }

  // A first line and what is behind it.
  ghost predicate Cut(s: string, u: string, rest: string) {
    HasFeed(s) && u == FirstRaw(s) && u != [] && |u| + |rest| == |s| && rest == s[|u|..]
  }

  lemma CutIs(s: string)
    requires HasFeed(s)
    ensures var u := FirstRaw(s); |u| <= |s| && Cut(s, u, s[|u|..])
  {
    RawIs(s);
  }

  lemma PassFirst(eol: string, s: string, u: string, rest: string, anew: bool, skip: bool)
    requires Cut(s, u, rest) && !(anew && u == eol) && PassKeeps(eol, s, anew, skip).Some?
    ensures var skip' := if anew then SkipAfter(u, skip) else skip;
      var more := PassKeeps(eol, rest, EndsWith(u, eol), skip');
      more.Some? && PassKeeps(eol, s, anew, skip) == Some(Fill(|u|, !skip') + more.value)
  {
  }

  lemma BodyFirst(eol: string, s: string, u: string, rest: string, anew: bool)
    requires Cut(s, u, rest) && !(anew && u == eol)
    ensures BodyAgrees(eol, s, anew) <==> !(anew && SkipAfter(u, false)) && BodyAgrees(eol, rest, EndsWith(u, eol))
  {
    ContinuationIsNotDkim(u);
  }

  // One line in front of others, each part to stay.
  lemma StaysIff(n: nat, m: nat, skip: bool, f: seq<bool>)
    requires n > 0
    ensures Fill(n, !skip) + f == Fill(n + m, true) <==> !skip && f == Fill(m, true)
  {
    FillJoins(n, m, true);
    FillSplits(n, !skip, f, true, Fill(m, true));
  }

  lemma {:induction false} BodyAgreesIff(eol: string, s: string, anew: bool, flags: seq<bool>)
    requires PassKeeps(eol, s, anew, false) == Some(flags)
    ensures flags == Fill(|s|, true) <==> BodyAgrees(eol, s, anew)
    decreases |s|
  {
    var u := FirstRaw(s);
    CutIs(s);
    if !(anew && u == eol) {
      var rest, next := s[|u|..], EndsWith(u, eol);
      BodyFirst(eol, s, u, rest, anew);
      if anew && SkipAfter(u, false) {
        LineGoes(eol, s, u, rest, flags);
      } else {
        var f := LineStays(eol, s, u, rest, anew, flags);
        BodyAgreesIff(eol, rest, next, f);
      }
    }
  }

  lemma LineGoes(eol: string, s: string, u: string, rest: string, flags: seq<bool>)
    requires Cut(s, u, rest) && u != eol && SkipAfter(u, false) && PassKeeps(eol, s, true, false) == Some(flags)
    ensures flags != Fill(|s|, true)
  {
    PassFirst(eol, s, u, rest, true, false);
    StaysIff(|u|, |rest|, true, PassKeeps(eol, rest, EndsWith(u, eol), true).value);
  }

  lemma LineStays(eol: string, s: string, u: string, rest: string, anew: bool, flags: seq<bool>) returns (f: seq<bool>)
    requires Cut(s, u, rest) && !(anew && u == eol) && !(anew && SkipAfter(u, false))
    requires PassKeeps(eol, s, anew, false) == Some(flags)
    ensures PassKeeps(eol, rest, EndsWith(u, eol), false) == Some(f)
    ensures flags == Fill(|s|, true) <==> f == Fill(|rest|, true)
  {
    PassFirst(eol, s, u, rest, anew, false);
    f := PassKeeps(eol, rest, EndsWith(u, eol), false).value;
    StaysIff(|u|, |rest|, false, f);
  }

  lemma FieldsFirst(s: string, u: string, rest: string, skip: bool)
    requires Cut(s, u, rest)
    ensures FieldsKeep(s, skip) == if IsBlankRaw(u) then Fill(|s|, true)
                                   else Fill(|u|, !SkipAfter(u, skip)) + FieldsKeep(rest, SkipAfter(u, skip))
  {
  }

  lemma LinesFirst(eol: string, s: string, u: string, rest: string, anew: bool, skip: bool)
    requires Cut(s, u, rest)
    ensures LinesAgree(eol, s, anew, skip) <==>
            if IsBlankRaw(u) then (anew && u == eol) || ((anew || !skip) && BodyAgrees(eol, rest, EndsWith(u, eol)))
            else (anew || SkipAfter(u, skip) == skip) && LinesAgree(eol, rest, EndsWith(u, eol), SkipAfter(u, skip))
  {
  }

  lemma LinesAgreeAtBlank(eol: string, s: string, u: string, rest: string, anew: bool, skip: bool, flags: seq<bool>)
    requires Cut(s, u, rest) && IsBlankRaw(u) && !(anew && u == eol) && PassKeeps(eol, s, anew, skip) == Some(flags)
    ensures flags == Fill(|s|, true) <==> (anew || !skip) && BodyAgrees(eol, rest, EndsWith(u, eol))
  {
    var next, skip' := EndsWith(u, eol), if anew then SkipAfter(u, skip) else skip;
    BlankIsNoSignature(u);
    PassFirst(eol, s, u, rest, anew, skip);
    var f := PassKeeps(eol, rest, next, skip').value;
    StaysIff(|u|, |rest|, skip', f);
    if !skip' { BodyAgreesIff(eol, rest, next, f); }
  }

  lemma {:induction false} LinesAgreeIff(eol: string, s: string, anew: bool, skip: bool, flags: seq<bool>)
    requires IsEol(eol) && PassKeeps(eol, s, anew, skip) == Some(flags)
    ensures flags == FieldsKeep(s, skip) <==> LinesAgree(eol, s, anew, skip)
    decreases |s|
  {
    CutIs(s);
    var u := FirstRaw(s);
    var rest, next, field := s[|u|..], EndsWith(u, eol), SkipAfter(u, skip);
    FieldsFirst(s, u, rest, skip);
    LinesFirst(eol, s, u, rest, anew, skip);
    if anew && u == eol {
      assert IsBlankRaw(u);
    } else if IsBlankRaw(u) {
      LinesAgreeAtBlank(eol, s, u, rest, anew, skip, flags);
    } else {
      var skip' := if anew then field else skip;
      PassFirst(eol, s, u, rest, anew, skip);
      var f := PassKeeps(eol, rest, next, skip').value;
      FillSplits(|u|, !skip', f, !field, FieldsKeep(rest, field));
      if skip' == field { LinesAgreeIff(eol, rest, next, skip', f); }
    }
  }

  // ---- The whole message ----

  lemma NoSeparatorIff(email: string)
    ensures PassKeeps(Eol(email), Beginning(email), true, false).None? <==> HeaderEnd(email).None?
  {
    var eol, s := Eol(email), Beginning(email);
    if StartsWith(email, eol) {
      assert email == "" + eol + s;
      BehindEnding(eol, s);
    } else {
      assert !MatchAt(email, 0, eol);
      PiecesResult(eol, email, false);
    }
    PassIsPieces(eol, s, false);
    PassByFlags(eol, s, true, false);
    if PassKeeps(eol, s, true, false).Some? { PassLength(eol, s, true, false); }
  }

  lemma NothingTakenIff(email: string)
    ensures FieldFlags(email) == Fill(|email|, true) <==> !HasSignature(email)
  {
    UnsignedHasNone(email, false);
    KeptFill(email, true);
    if !HasSignature(email) { NothingToTake(email); }
  }

  lemma FlagsAgreeIff(email: string)
    ensures PassFlags(email) == FieldFlags(email) <==> Strippable(email)
  {
    var eol, s := Eol(email), Beginning(email);
    NoSeparatorIff(email);
    match PassKeeps(eol, s, true, false)
    case None => NothingTakenIff(email);
    case Some(f) =>
      PassLength(eol, s, true, false);
      if StartsWith(email, eol) {
        BeginsBlank(email);
        assert PassFlags(email)[0] == false && FieldFlags(email)[0] == true;
      } else {
        assert Fill(0, false) + f == f;
        LinesAgreeIff(eol, email, true, false, f);
      }
  }

  // The pass leaves the message without the signature fields of its own header, and
  // otherwise as it was, exactly when its lines are like this.
  lemma StripsRightIff(email: string)
    ensures Stripped(email) == Unsigned(email) <==> Strippable(email)
  {
    RightByFlags(email);
    FlagsAgreeIff(email);
  }
}

// Addresses: what the admin forms accept, and what the map writers make of them.
module MailAddress {
  import opened Text

  predicate AlphaNumeric(c: char) {
    'a' <= c <= 'z' || 'A' <= c <= 'Z' || '0' <= c <= '9'
  }

  predicate LocalChar(c: char) { AlphaNumeric(c) || c in "._-+~%" }

  predicate DomainChar(c: char) { AlphaNumeric(c) || c == '.' || c == '-' }

  predicate All(s: string, p: char -> bool) {
    forall i :: 0 <= i < |s| ==> p(s[i])
  }

  // The form check of alias and forwarding addresses.
  function Validate(value: string, allowCatchall: bool): Option<string> {
    var v := Trim(value);
    if v == [] || (exists i :: 0 <= i < |v| && IsControl(v[i])) || |v| > 254 then None
    else
      var at := IndexOf(v, '@');
      if at == |v| then None
      else
        var local, domain := v[..at], v[at + 1..];
        if '@' in domain || domain == [] then None
        else if allowCatchall && local == "*" then Some(v)
        else if local == [] || !All(local, LocalChar) || !All(domain, DomainChar) then None
        else Some(v)
  }

  predicate Accepted(d: string) {
    Validate(d, false) == Some(d)
  }

  // ---- Map tokens ----

  predicate BadTokenChar(c: char, username: bool) {
    IsSpace(c) || IsControl(c) || c == '/' || c == '\\' || (username && c == ':')
  }

  predicate CleanFor(s: string, username: bool) {
    forall i :: 0 <= i < |s| ==> !BadTokenChar(s[i], username)
  }

  function SanitizeToken(value: string, username: bool): Option<string> {
    var cleaned := Lower(Trim(value));
    if CleanFor(cleaned, username) then Some(cleaned) else None
  }

  predicate TokenOk(s: string, username: bool) {
    SanitizeToken(s, username).Some?
  }

  function SanitizeAddress(addr: string): Option<string> {
    SanitizeCleaned(Lower(Trim(addr)))
  }

  function SanitizeCleaned(cleaned: string): Option<string> {
    match RFind(cleaned, "@")
    case None => SanitizeToken(cleaned, false)
    case Some(at) =>
      if cleaned[..at] != [] && !TokenOk(cleaned[..at], true) then None
      else if !TokenOk(cleaned[at + 1..], false) then None
      else Some(cleaned)
  }

  // ---- Accepted addresses pass through, in lower case ----

  predicate NoSpace(s: string) {
    forall i :: 0 <= i < |s| ==> !IsSpace(s[i])
  }

  lemma LowerCharKeeps(c: char, username: bool)
    ensures LowerChar(LowerChar(c)) == LowerChar(c)
    ensures BadTokenChar(LowerChar(c), username) <==> BadTokenChar(c, username)
    ensures IsSpace(LowerChar(c)) <==> IsSpace(c)
    ensures LowerChar(c) == '@' <==> c == '@'
  {
  }

  lemma LowerTwice(s: string)
    ensures Lower(Lower(s)) == Lower(s)
  {
    forall i | 0 <= i < |s|
      ensures Lower(Lower(s))[i] == Lower(s)[i]
    {
      LowerCharKeeps(s[i], false);
    }
  }

  lemma LowerClean(s: string, username: bool)
    ensures CleanFor(Lower(s), username) <==> CleanFor(s, username)
  {
    forall i | 0 <= i < |s|
      ensures BadTokenChar(Lower(s)[i], username) <==> BadTokenChar(s[i], username)
    {
      LowerCharKeeps(s[i], username);
    }
  }

  lemma LowerNoAt(s: string)
    requires '@' !in s
    ensures '@' !in Lower(s)
  {
    forall i | 0 <= i < |s|
      ensures Lower(s)[i] != '@'
    {
      LowerCharKeeps(s[i], false);
    }
  }

  lemma LowerJoin(local: string, domain: string)
    ensures Lower(local + "@" + domain) == Lower(local) + "@" + Lower(domain)
  {
    var a, b := Lower(local + "@" + domain), Lower(local) + "@" + Lower(domain);
    assert |a| == |b|;
    assert forall i :: 0 <= i < |a| ==> a[i] == b[i];
  }

  lemma CleanToken(s: string, username: bool)
    requires CleanFor(s, username)
    ensures SanitizeToken(s, username) == Some(Lower(s))
  {
    CleanNoSpace(s, username);
    TrimId(s);
    LowerClean(s, username);
  }

  lemma CleanNoSpace(s: string, username: bool)
    requires CleanFor(s, username)
    ensures NoSpace(s)
  {
  }

  lemma LastAt(local: string, domain: string)
    requires '@' !in domain
    ensures RFind(local + "@" + domain, "@") == Some(|local|)
  {
    var s := local + "@" + domain;
    assert s[|local|..|local| + 1] == "@";
    assert MatchAt(s, |local|, "@");
    forall j | |local| < j
      ensures !MatchAt(s, j, "@")
    {
      if j < |s| {
        assert s[j] == domain[j - |local| - 1];
        assert s[j..j + 1][0] == s[j];
      }
    }
  }

  // A clean local part (possibly none) and a clean domain: only the case changes.
  lemma SanitizeClean(local: string, domain: string)
    requires CleanFor(local, true) && CleanFor(domain, false) && '@' !in domain
    ensures SanitizeAddress(local + "@" + domain) == Some(Lower(local + "@" + domain))
  {
    TrimAddress(local, domain);
    LowerJoin(local, domain);
    LowerNoAt(domain);
    LowerClean(local, true);
    LowerClean(domain, false);
    SanitizeLower(Lower(local), Lower(domain));
  }

  lemma TrimAddress(local: string, domain: string)
    requires CleanFor(local, true) && CleanFor(domain, false)
    ensures Trim(local + "@" + domain) == local + "@" + domain
  {
    CleanNoSpace(local, true);
    CleanNoSpace(domain, false);
    var a := local + "@" + domain;
    assert !IsSpace(a[0]) && !IsSpace(a[|a| - 1]);
    TrimId(a);
  }

  lemma SanitizeParts(l: string, d: string)
    requires '@' !in d && (l == [] || TokenOk(l, true)) && TokenOk(d, false)
    ensures SanitizeCleaned(l + "@" + d) == Some(l + "@" + d)
  {
    var c := l + "@" + d;
    LastAt(l, d);
    SplitParts(l, d);
  }

  lemma SplitParts(l: string, d: string)
    ensures (l + "@" + d)[..|l|] == l && (l + "@" + d)[|l| + 1..] == d
  {
  }

  lemma SanitizeLower(l: string, d: string)
    requires '@' !in d && CleanFor(l, true) && CleanFor(d, false)
    ensures SanitizeCleaned(l + "@" + d) == Some(l + "@" + d)
  {
    CleanTokenOk(l, true);
    CleanTokenOk(d, false);
    SanitizeParts(l, d);
  }

  lemma CleanTokenOk(s: string, username: bool)
    requires CleanFor(s, username)
    ensures TokenOk(s, username)
  {
    CleanToken(s, username);
  }

  lemma AcceptedShape(d: string) returns (local: string, domain: string)
    requires Accepted(d)
    ensures d == local + "@" + domain && '@' !in domain && local != [] && domain != []
    ensures CleanFor(local, true) && CleanFor(domain, false)
    ensures ',' !in d && (forall i :: 0 <= i < |d| ==> !IsSpace(d[i]))
  {
    var at := IndexOf(d, '@');
    local, domain := d[..at], d[at + 1..];
    LocalIsClean(local);
    DomainIsClean(domain);
    assert d == local + "@" + domain;
    PartsHaveNoComma(local, domain);
  }

  lemma LocalIsClean(s: string)
    requires All(s, LocalChar)
    ensures CleanFor(s, true) && NoSpace(s) && ',' !in s
  {
  }

  lemma DomainIsClean(s: string)
    requires All(s, DomainChar)
    ensures CleanFor(s, false) && NoSpace(s) && ',' !in s
  {
  }

  lemma PartsHaveNoComma(l: string, d: string)
    requires NoSpace(l) && NoSpace(d) && ',' !in l && ',' !in d
    ensures var a := l + "@" + d; ',' !in a && forall i :: 0 <= i < |a| ==> !IsSpace(a[i])
  {
  }

  lemma SanitizeAccepted(d: string)
    requires Accepted(d)
    ensures SanitizeAddress(d) == Some(Lower(d))
  {
    var local, domain := AcceptedShape(d);
    SanitizeClean(local, domain);
  }

  // ---- When the sanitized address is free of white space ----

  predicate SpaceBeside(c: string, at: nat)
    requires at < |c|
  {
    (at > 0 && IsSpace(c[at - 1])) || (at + 1 < |c| && IsSpace(c[at + 1]))
  }

  // White space next to the last '@'.
  predicate SpaceBesideAt(c: string) {
    match RFind(c, "@")
    case None => false
    case Some(at) => SpaceBeside(c, at)
  }

  // What a successful sanitizing says about the trimmed, lower-case text.
  lemma SanitizedParts(t: string)
    requires SanitizeCleaned(t).Some? && RFind(t, "@").Some?
    ensures var at := RFind(t, "@").value;
      t[at] == '@' && (t[..at] == [] || TokenOk(t[..at], true)) && TokenOk(t[at + 1..], false)
  {
    var at := RFind(t, "@").value;
    assert t[at] == t[at..at + 1][0];
  }

  lemma CleanedHasSpaceIff(t: string)
    requires SanitizeCleaned(t).Some? && Lower(t) == t
    requires TightEdges(t)
    ensures SanitizeCleaned(t) == Some(t)
    ensures !NoSpace(t) <==> SpaceBesideAt(t)
  {
    match RFind(t, "@")
    case None => WholeToken(t);
    case Some(at) =>
      SanitizedParts(t);
      PartHasNoSpace(t[..at], true);
      PartHasNoSpace(t[at + 1..], false);
      AddressHasSpaceIff(t, at);
  }

  predicate TightEdges(s: string) {
    s != [] ==> !IsSpace(s[0]) && !IsSpace(s[|s| - 1])
  }

  lemma AddressHasSpaceIff(t: string, at: nat)
    requires at < |t| && t[at] == '@' && TightEdges(t)
    requires TightEdges(t[..at]) ==> NoSpace(t[..at])
    requires TightEdges(t[at + 1..]) ==> NoSpace(t[at + 1..])
    ensures !NoSpace(t) <==> SpaceBeside(t, at)
  {
    if !SpaceBeside(t, at) {
      InnerEdges(t, at);
      JoinNoSpace(t, at);
    }
  }

  lemma InnerEdges(t: string, at: nat)
    requires at < |t| && TightEdges(t) && !SpaceBeside(t, at)
    ensures TightEdges(t[..at]) && TightEdges(t[at + 1..])
  {
    var local, domain := t[..at], t[at + 1..];
    if local != [] { assert local[0] == t[0] && local[|local| - 1] == t[at - 1]; }
    if domain != [] { assert domain[0] == t[at + 1] && domain[|domain| - 1] == t[|t| - 1]; }
  }

  lemma WholeToken(t: string)
    requires SanitizeToken(t, false).Some? && Lower(t) == t
    requires TightEdges(t)
    ensures SanitizeToken(t, false) == Some(t) && NoSpace(t)
  {
    TrimId(t);
    PartHasNoSpace(t, false);
  }

  // Each part is trimmed for the check, but the whole is returned as it stands: white
  // space survives exactly when it stands next to the last '@'.
  lemma SanitizedHasSpaceIff(addr: string)
    requires SanitizeAddress(addr).Some?
    ensures !NoSpace(SanitizeAddress(addr).value) <==> SpaceBesideAt(Lower(Trim(addr)))
  {
    EdgesOfTrimmed(addr);
    LowerTwice(Trim(addr));
    CleanedHasSpaceIff(Lower(Trim(addr)));
  }

  lemma EdgesOfTrimmed(addr: string)
    ensures var t := Lower(Trim(addr)); t != [] ==> !IsSpace(t[0]) && !IsSpace(t[|t| - 1])
  {
    var t := Trim(addr);
    if t != [] {
      LowerCharKeeps(t[0], false);
      LowerCharKeeps(t[|t| - 1], false);
    }
  }

  lemma JoinNoSpace(t: string, at: nat)
    requires at < |t| && !IsSpace(t[at])
    requires NoSpace(t[..at]) && NoSpace(t[at + 1..])
    ensures NoSpace(t)
  {
    assert t == t[..at] + [t[at]] + t[at + 1..];
  }

  lemma PartHasNoSpace(part: string, username: bool)
    requires part == [] || TokenOk(part, username)
    ensures TightEdges(part) ==> NoSpace(part)
  {
    if TightEdges(part) {
      TrimId(part);
      LowerClean(part, username);
    }
  }

  // White space before the '@' of a lower-case address is written out.
  lemma SpaceBeforeAtStays(l: string, d: string)
    requires l != [] && CleanFor(l, true) && CleanFor(d, false) && '@' !in d
    requires Lower(l) == l && Lower(d) == d
    ensures SanitizeAddress(l + " @" + d) == Some(l + " @" + d)
  {
    var a := l + " @" + d;
    CleanNoSpace(l, true);
    CleanNoSpace(d, false);
    assert a == (l + " ") + "@" + d;
    TrimId(a);
    LowerFixed(l, d);
    TrimTail(l);
    CleanToken(l, true);
    CleanToken(d, false);
    SanitizeParts(l + " ", d);
  }

  lemma LowerFixed(l: string, d: string)
    requires Lower(l) == l && Lower(d) == d
    ensures Lower(l + " @" + d) == l + " @" + d
  {
    var a := l + " @" + d;
    forall i | 0 <= i < |a|
      ensures LowerChar(a[i]) == a[i]
    {
      if i < |l| {
        assert Lower(l)[i] == l[i];
      } else if i >= |l| + 2 {
        assert Lower(d)[i - |l| - 2] == d[i - |l| - 2];
      }
    }
  }

  lemma TrimTail(l: string)
    requires l != [] && TightEdges(l)
    ensures Trim(l + " ") == l
  {
    var t := l + " ";
    assert t[..|l|] == l;
    assert TrimStart(t) == t;
    assert TrimEnd(t) == TrimEnd(t[..|l|]);
  }
}

// Which addresses the forms take, and which the map files, character by character.
module Addresses {
  import opened Text
  import opened TextFacts
  import opened MailAddress

  // Letters and digits, and in the local part also . _ - + ~ %, in the domain . and -
  predicate InLocal(c: char) {
    var n := c as int;
    || 97 <= n <= 122 || 65 <= n <= 90 || 48 <= n <= 57
    || n == 46 || n == 95 || n == 45 || n == 43 || n == 126 || n == 37
  }

  predicate InDomain(c: char) {
    var n := c as int;
    97 <= n <= 122 || 65 <= n <= 90 || 48 <= n <= 57 || n == 46 || n == 45
  }

  ghost predicate Mailbox(s: string, local: string, domain: string) {
    && s == local + "@" + domain && local != "" && domain != "" && |s| <= 254
    && (forall i :: 0 <= i < |local| ==> InLocal(local[i]))
    && forall i :: 0 <= i < |domain| ==> InDomain(domain[i])
  }

  lemma CharsAre()
    ensures forall c :: LocalChar(c) <==> InLocal(c)
    ensures forall c :: DomainChar(c) <==> InDomain(c)
    ensures forall c :: InLocal(c) ==> c != '@' && !White(c) && !IsControl(c)
    ensures forall c :: InDomain(c) ==> c != '@' && !White(c) && !IsControl(c)
  {
  }

  // What the form check takes of a trimmed text.
  predicate Valid(v: string, allowCatchall: bool) {
    && v != [] && |v| <= 254 && (forall i :: 0 <= i < |v| ==> !IsControl(v[i]))
    && var at := IndexOf(v, '@');
       at < |v| && PartsOk(v[..at], v[at + 1..], allowCatchall)
  }

  predicate PartsOk(local: string, domain: string, allowCatchall: bool) {
    && '@' !in domain && domain != []
    && ((allowCatchall && local == "*") || (local != [] && All(local, LocalChar) && All(domain, DomainChar)))
  }

  lemma ValidatedAs(s: string, t: string, allowCatchall: bool)
    requires Trim(s) == t
    ensures Validate(s, allowCatchall) == if Valid(t, allowCatchall) then Some(t) else None
  {
  }

  lemma AcceptedIsValid(s: string)
    ensures Accepted(s) <==> Trim(s) == s && Valid(s, false)
  {
    ValidatedAs(s, Trim(s), false);
  }

  lemma NothingToTrim(s: string)
    requires Tight(s)
    ensures Trim(s) == s
  {
    TrimmedIs("", s, "");
    assert "" + s + "" == s;
  }

  // An address without white space around it is taken as it is if and only if it is a local
  // part and a domain of such characters, 254 characters in all at most.
  lemma AcceptedIff(s: string)
    ensures Accepted(s) <==> exists local, domain :: Mailbox(s, local, domain)
  {
    CharsAre();
    if Accepted(s) { AcceptedIsMailbox(s); }
    if exists local, domain :: Mailbox(s, local, domain) {
      var local, domain :| Mailbox(s, local, domain);
      MailboxIsAccepted(s, local, domain);
    }
  }

  lemma AcceptedIsMailbox(s: string)
    requires Accepted(s)
    ensures exists local, domain :: Mailbox(s, local, domain)
  {
    CharsAre();
    AcceptedIsValid(s);
    var at := IndexOf(s, '@');
    var local, domain := s[..at], s[at + 1..];
    assert s == local + "@" + domain;
    assert Mailbox(s, local, domain);
  }

  lemma AtSign(s: string, local: string, domain: string)
    requires s == local + "@" + domain && '@' !in local
    ensures IndexOf(s, '@') == |local| && s[..|local|] == local && s[|local| + 1..] == domain
  {
    assert forall k :: 0 <= k < |local| ==> s[k] == local[k];
    IndexOfIs(s, '@', |local|);
  }

  lemma MailboxIsClean(s: string, local: string, domain: string)
    requires Mailbox(s, local, domain)
    ensures Tight(s) && '@' !in local && '@' !in domain
    ensures forall i :: 0 <= i < |s| ==> !IsControl(s[i])
  {
    CharsAre();
    assert forall i :: 0 <= i < |s| ==> s[i] == '@' || (i < |local| && s[i] == local[i]) || (i > |local| && s[i] == domain[i - |local| - 1]);
  }

  lemma MailboxIsAccepted(s: string, local: string, domain: string)
    requires Mailbox(s, local, domain)
    ensures Accepted(s)
  {
    MailboxIsClean(s, local, domain);
    NothingToTrim(s);
    MailboxIsValid(s, local, domain);
    AcceptedIsValid(s);
  }

  lemma MailboxIsValid(s: string, local: string, domain: string)
    requires Mailbox(s, local, domain)
    ensures Valid(s, false)
  {
    MailboxIsClean(s, local, domain);
    AtSign(s, local, domain);
    PartsAreOk(local, domain);
  }

  lemma PartsAreOk(local: string, domain: string)
    requires local != "" && domain != "" && '@' !in domain
    requires (forall i :: 0 <= i < |local| ==> InLocal(local[i])) && forall i :: 0 <= i < |domain| ==> InDomain(domain[i])
    ensures PartsOk(local, domain, false)
  {
    CharsAre();
  }

  // White space around an address is left out; an address for a whole domain is taken where
  // these are allowed, and only there.
  lemma ValidatedIs(a: string, s: string, b: string, allowCatchall: bool)
    requires Blank(a) && Blank(b) && Tight(s)
    ensures Validate(a + s + b, allowCatchall) == Validate(s, allowCatchall)
  {
    TrimmedIs(a, s, b);
    NothingToTrim(s);
    ValidatedAs(a + s + b, s, allowCatchall);
    ValidatedAs(s, s, allowCatchall);
  }

  lemma WholeDomain(s: string, domain: string)
    requires |s| == |domain| + 2 && s[0] == '*' && s[1] == '@' && s[2..] == domain
    requires domain != "" && |domain| <= 252 && '@' !in domain && Tight(domain)
    requires forall i :: 0 <= i < |domain| ==> !IsControl(domain[i])
    ensures Validate(s, true) == Some(s)
    ensures Validate(s, false) == None
  {
    StarIsTrimmed(s, domain);
    StarIsValid(s, domain);
    ValidatedAs(s, s, true);
    ValidatedAs(s, s, false);
  }

  lemma StarIsTrimmed(s: string, domain: string)
    requires |s| == |domain| + 2 && s[0] == '*' && s[1] == '@' && s[2..] == domain
    requires domain != "" && Tight(domain) && forall i :: 0 <= i < |domain| ==> !IsControl(domain[i])
    ensures Trim(s) == s
  {
    StarIsTight(s, domain);
    NothingToTrim(s);
  }

  lemma StarIsTight(s: string, domain: string)
    requires |s| == |domain| + 2 && s[0] == '*' && s[1] == '@' && s[2..] == domain
    requires domain != "" && Tight(domain) && forall i :: 0 <= i < |domain| ==> !IsControl(domain[i])
    ensures Tight(s) && forall i :: 0 <= i < |s| ==> !IsControl(s[i])
  {
    assert s[|s| - 1] == domain[|domain| - 1];
    assert forall i :: 2 <= i < |s| ==> s[i] == domain[i - 2];
  }

  lemma StarIsValid(s: string, domain: string)
    requires |s| == |domain| + 2 && s[0] == '*' && s[1] == '@' && s[2..] == domain
    requires domain != "" && |domain| <= 252 && '@' !in domain && Tight(domain)
    requires forall i :: 0 <= i < |domain| ==> !IsControl(domain[i])
    ensures Valid(s, true) && !Valid(s, false)
  {
    StarIsTight(s, domain);
    IndexOfIs(s, '@', 1);
    assert s[..1] == "*";
    StarPart(domain);
    ValidBy(s, "*", domain, true);
    ValidBy(s, "*", domain, false);
  }

  lemma ValidBy(s: string, local: string, domain: string, allowCatchall: bool)
    requires s != "" && |s| <= 254 && forall i :: 0 <= i < |s| ==> !IsControl(s[i])
    requires IndexOf(s, '@') == |local| < |s| && s[..|local|] == local && s[|local| + 1..] == domain
    ensures Valid(s, allowCatchall) <==> PartsOk(local, domain, allowCatchall)
  {
  }

  lemma StarPart(domain: string)
    requires domain != "" && '@' !in domain
    ensures PartsOk("*", domain, true) && !PartsOk("*", domain, false)
  {
    assert !LocalChar("*"[0]);
  }

  // ---- What the map files take ----

  // White space, control characters, slashes and backslashes; in a user name also colons.
  predicate Refused(c: char, username: bool) {
    var n := c as int;
    White(c) || n < 32 || n == 127 || n == 47 || n == 92 || (username && n == 58)
  }

  lemma RefusedIff(c: char, username: bool)
    ensures BadTokenChar(c, username) <==> Refused(c, username)
  {
  }

  // A token is trimmed and put in lower case, if none of these is in it then.
  lemma TokenIs(a: string, s: string, b: string, username: bool)
    requires Blank(a) && Blank(b) && Tight(s)
    ensures SanitizeToken(a + s + b, username)
         == if forall i :: 0 <= i < |s| ==> !Refused(s[i], username) then Some(Lower(s)) else None
  {
    TrimmedIs(a, s, b);
    LowerClean(s, username);
    forall i | 0 <= i < |s|
      ensures BadTokenChar(s[i], username) <==> Refused(s[i], username)
    {
      RefusedIff(s[i], username);
    }
  }
}

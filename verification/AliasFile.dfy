// The alias file as it is written: the addresses are put in lower case, and Postfix looks
// them up in that spelling.
module AliasFile {
  import opened Text
  import opened MailAddress
  import opened Routing

  // Entries whose two sides survive sanitizing, in their sanitized form.
  function WrittenBy(sanitize: string -> Option<string>, es: seq<Entry>): seq<Entry> {
    if es == [] then []
    else
      var e := es[|es| - 1];
      var s, d := sanitize(e.source), sanitize(e.destination);
      WrittenBy(sanitize, es[..|es| - 1]) + if s.Some? && d.Some? then [Entry(s.value, d.value)] else []
  }

  function Written(es: seq<Entry>): seq<Entry> {
    WrittenBy(SanitizeAddress, es)
  }

  // ---- What becomes of accepted addresses ----

  // An address the forms accept, in any spelling; or a domain behind '@'.
  predicate Typed(s: string) {
    Accepted(s) || (s != [] && s[0] == '@' && s != "@" && All(s[1..], DomainChar))
  }

  predicate TypedEntry(e: Entry) { Typed(e.source) && Typed(e.destination) }

  lemma TypedIsWritten(s: string)
    requires Typed(s)
    ensures SanitizeAddress(s) == Some(Lower(s))
  {
    if Accepted(s) {
      SanitizeAccepted(s);
    } else {
      AtDomainIsWritten(s[1..]);
      assert s == "@" + s[1..];
    }
  }

  lemma AtDomainIsWritten(d: string)
    requires All(d, DomainChar)
    ensures SanitizeAddress("@" + d) == Some(Lower("@" + d))
  {
    DomainIsClean(d);
    DomainHasNoAt(d);
    SanitizeClean("", d);
    assert "" + "@" + d == "@" + d;
  }

  lemma DomainHasNoAt(d: string)
    requires All(d, DomainChar)
    ensures '@' !in d
  {
  }

  function LowerEntry(e: Entry): Entry { Entry(Lower(e.source), Lower(e.destination)) }

  function Lowered(es: seq<Entry>): seq<Entry> {
    if es == [] then [] else Lowered(es[..|es| - 1]) + [LowerEntry(es[|es| - 1])]
  }

  lemma {:induction false} LoweredAppend(a: seq<Entry>, b: seq<Entry>)
    ensures Lowered(a + b) == Lowered(a) + Lowered(b)
  {
    if b == [] {
      assert a + b == a;
    } else {
      assert (a + b)[..|a + b| - 1] == a + b[..|b| - 1];
      LoweredAppend(a, b[..|b| - 1]);
    }
  }

  lemma {:induction false} LoweredAreWritten(sanitize: string -> Option<string>, es: seq<Entry>)
    requires forall e :: e in es ==>
               sanitize(e.source) == Some(Lower(e.source)) && sanitize(e.destination) == Some(Lower(e.destination))
    ensures WrittenBy(sanitize, es) == Lowered(es)
  {
    if es != [] {
      LoweredAreWritten(sanitize, es[..|es| - 1]);
    }
  }

  // Accepted entries are written one for one, in lower case.
  lemma TypedEntriesAreWritten(es: seq<Entry>)
    requires forall e :: e in es ==> TypedEntry(e)
    ensures Written(es) == Lowered(es)
  {
    forall e | e in es
      ensures SanitizeAddress(e.source) == Some(Lower(e.source))
      ensures SanitizeAddress(e.destination) == Some(Lower(e.destination))
    {
      TypedIsWritten(e.source);
      TypedIsWritten(e.destination);
    }
    LoweredAreWritten(SanitizeAddress, es);
  }

  lemma {:induction false} LoweredAt(es: seq<Entry>)
    ensures |Lowered(es)| == |es| && forall i :: 0 <= i < |es| ==> Lowered(es)[i] == LowerEntry(es[i])
  {
    if es != [] {
      LoweredAt(es[..|es| - 1]);
    }
  }

  lemma LoweredIsSameIff(es: seq<Entry>)
    ensures |Lowered(es)| == |es|
    ensures Lowered(es) == es <==> forall i :: 0 <= i < |es| ==> LowerEntry(es[i]) == es[i]
  {
    LoweredAt(es);
  }

  // ---- The file of the admin's lists ----

  // What the forms and the account names admit.
  ghost predicate TypedInput(aliases: seq<Alias>, fs: seq<Forwarding>, accounts: seq<Account>) {
    && (forall e :: e in Explicit(aliases, fs) ==> TypedEntry(e))
    && (forall a :: a in accounts && a.domain.Some? ==> Accepted(Address(a.username, a.domain.value)))
  }

  function File(aliases: seq<Alias>, fs: seq<Forwarding>, accounts: seq<Account>): seq<Entry> {
    Written(VirtualAliases(aliases, fs, accounts))
  }

  lemma {:induction false} IdentityEntriesFrom(accounts: seq<Account>, domains: set<string>, taken: set<string>)
    ensures forall e :: e in Identities(accounts, domains, taken) ==>
              e.source == e.destination
              && exists a :: a in accounts && NeedsIdentity(a, domains, taken) && Address(a.username, a.domain.value) == e.source
  {
    if accounts != [] {
      IdentityEntriesFrom(accounts[..|accounts| - 1], domains, taken);
    }
  }

  lemma BuiltIsTyped(aliases: seq<Alias>, fs: seq<Forwarding>, accounts: seq<Account>)
    requires TypedInput(aliases, fs, accounts)
    ensures forall e :: e in VirtualAliases(aliases, fs, accounts) ==> TypedEntry(e)
  {
    var explicit := Explicit(aliases, fs);
    SelectSources(explicit, true);
    SelectSources(explicit, false);
    IdentityEntriesFrom(accounts, CatchAllDomains(Select(explicit, true)), Sources(Select(explicit, false)));
  }

  // The file holds the built entries one for one exactly when they are in lower case.
  lemma FileHoldsTheBuiltEntriesIff(aliases: seq<Alias>, fs: seq<Forwarding>, accounts: seq<Account>)
    requires TypedInput(aliases, fs, accounts)
    ensures |File(aliases, fs, accounts)| == |VirtualAliases(aliases, fs, accounts)|
    ensures File(aliases, fs, accounts) == VirtualAliases(aliases, fs, accounts)
            <==> forall e :: e in VirtualAliases(aliases, fs, accounts) ==> LowerEntry(e) == e
  {
    var es := VirtualAliases(aliases, fs, accounts);
    assert forall i :: 0 <= i < |es| ==> es[i] in es;
    BuiltIsTyped(aliases, fs, accounts);
    TypedEntriesAreWritten(VirtualAliases(aliases, fs, accounts));
    LoweredIsSameIff(VirtualAliases(aliases, fs, accounts));
  }

  // ---- Lookups in the file ----

  // The sources and domains the builder compares, in the spelling typed.
  function Taken(explicit: seq<Entry>): set<string> { Sources(Select(explicit, false)) }

  function Domains(explicit: seq<Entry>): set<string> { CatchAllDomains(Select(explicit, true)) }

  // What the admin wrote for an address, and for a domain, as the file spells them.
  function Named(explicit: seq<Entry>, key: string): Option<string> {
    Lookup(Lowered(Select(explicit, false)), key)
  }

  function CaughtBy(explicit: seq<Entry>, key: string): Option<string> {
    Lookup(Lowered(Select(explicit, true)), key)
  }

  predicate IdentityFor(a: Account, domains: set<string>, taken: set<string>, key: string) {
    NeedsIdentity(a, domains, taken) && Lower(Address(a.username, a.domain.value)) == key
  }

  // Some account has its identity entry written under this key.
  ghost predicate HasLowerIdentity(accounts: seq<Account>, domains: set<string>, taken: set<string>, key: string) {
    exists a :: a in accounts && IdentityFor(a, domains, taken, key)
  }

  lemma {:induction false} LookupLoweredIdentities(accounts: seq<Account>, domains: set<string>, taken: set<string>,
                                                   key: string)
    ensures Lookup(Lowered(Identities(accounts, domains, taken)), key)
         == if HasLowerIdentity(accounts, domains, taken, key) then Some(key) else None
  {
    if accounts != [] {
      var init, a := accounts[..|accounts| - 1], accounts[|accounts| - 1];
      LookupLoweredIdentities(init, domains, taken, key);
      assert accounts == init + [a];
      assert HasLowerIdentity(accounts, domains, taken, key) <==>
             HasLowerIdentity(init, domains, taken, key) || IdentityFor(a, domains, taken, key);
      var rest := Identities(init, domains, taken);
      if NeedsIdentity(a, domains, taken) {
        LookupSnoc(rest, Entry(Address(a.username, a.domain.value), Address(a.username, a.domain.value)), key);
      } else {
        assert Identities(accounts, domains, taken) == rest;
      }
    }
  }

  lemma LookupSnoc(es: seq<Entry>, e: Entry, key: string)
    ensures Lookup(Lowered(es + [e]), key)
         == if Lower(e.source) == key then Some(Lower(e.destination)) else Lookup(Lowered(es), key)
  {
    assert (es + [e])[..|es|] == es;
    assert (Lowered(es) + [LowerEntry(e)])[..|Lowered(es)|] == Lowered(es);
  }

  // Any key in the file: an identity entry comes before the explicit one, and that before
  // a catch-all.
  lemma FileLookup(aliases: seq<Alias>, fs: seq<Forwarding>, accounts: seq<Account>, key: string)
    requires TypedInput(aliases, fs, accounts)
    ensures var explicit := Explicit(aliases, fs);
      Lookup(File(aliases, fs, accounts), key)
      == if HasLowerIdentity(accounts, Domains(explicit), Taken(explicit), key) then Some(key)
         else if Named(explicit, key).Some? then Named(explicit, key)
         else CaughtBy(explicit, key)
  {
    var explicit := Explicit(aliases, fs);
    var all, single, ids := Select(explicit, true), Select(explicit, false), IdentityEntries(explicit, accounts);
    BuiltIsTyped(aliases, fs, accounts);
    TypedEntriesAreWritten(VirtualAliases(aliases, fs, accounts));
    LoweredAppend(all, single + ids);
    LoweredAppend(single, ids);
    LookupAppend(Lowered(all), Lowered(single) + Lowered(ids), key);
    LookupAppend(Lowered(single), Lowered(ids), key);
    LookupLoweredIdentities(accounts, Domains(explicit), Taken(explicit), key);
  }

  // ---- Explicit entries against identities ----

  // What the admin wrote for single addresses is what the file says.
  ghost predicate ExplicitWins(aliases: seq<Alias>, fs: seq<Forwarding>, accounts: seq<Account>) {
    forall key :: Named(Explicit(aliases, fs), key).Some? ==>
      Lookup(File(aliases, fs, accounts), key) == Named(Explicit(aliases, fs), key)
  }

  // An account that gets an identity although its address is a source in another spelling,
  // one that leads elsewhere.
  predicate Shadows(a: Account, explicit: seq<Entry>) {
    && NeedsIdentity(a, Domains(explicit), Taken(explicit))
    && var key := Lower(Address(a.username, a.domain.value));
       Named(explicit, key).Some? && Named(explicit, key).value != key
  }

  lemma ExplicitWinsIff(aliases: seq<Alias>, fs: seq<Forwarding>, accounts: seq<Account>)
    requires TypedInput(aliases, fs, accounts)
    ensures ExplicitWins(aliases, fs, accounts) <==> forall a :: a in accounts ==> !Shadows(a, Explicit(aliases, fs))
  {
    var explicit := Explicit(aliases, fs);
    forall a | a in accounts && Shadows(a, explicit)
      ensures !ExplicitWins(aliases, fs, accounts)
    {
      var key := Lower(Address(a.username, a.domain.value));
      assert IdentityFor(a, Domains(explicit), Taken(explicit), key);
      FileLookup(aliases, fs, accounts, key);
    }
    if forall a :: a in accounts ==> !Shadows(a, explicit) {
      forall key | Named(explicit, key).Some?
        ensures Lookup(File(aliases, fs, accounts), key) == Named(explicit, key)
      {
        FileLookup(aliases, fs, accounts, key);
      }
    }
  }

  lemma {:induction false} NamedFrom(es: seq<Entry>, key: string)
    ensures Lookup(Lowered(es), key).Some? <==> exists e :: e in es && Lower(e.source) == key
  {
    if es != [] {
      var init, last := es[..|es| - 1], es[|es| - 1];
      NamedFrom(init, key);
      LookupSnoc(init, last, key);
      assert es == init + [last];
    }
  }

  // So it takes two spellings of one address, never one.
  lemma ShadowsInAnotherSpelling(a: Account, explicit: seq<Entry>)
    requires Shadows(a, explicit)
    ensures var addr := Address(a.username, a.domain.value);
      exists e :: e in Select(explicit, false) && e.source != addr && Lower(e.source) == Lower(addr)
  {
    var addr := Address(a.username, a.domain.value);
    NamedFrom(Select(explicit, false), Lower(addr));
    var e :| e in Select(explicit, false) && Lower(e.source) == Lower(addr);
    assert e.source in Taken(explicit);
  }

  // ---- Accounts against catch-alls ----

  // What the file makes of an address.
  lemma FileResolution(aliases: seq<Alias>, fs: seq<Forwarding>, accounts: seq<Account>, local: string, domain: string)
    requires TypedInput(aliases, fs, accounts) && !IsCatchAll(Address(local, domain))
    ensures var explicit, addr := Explicit(aliases, fs), Address(local, domain);
      Resolve(File(aliases, fs, accounts), local, domain)
      == if HasLowerIdentity(accounts, Domains(explicit), Taken(explicit), addr) then addr
         else if Named(explicit, addr).Some? then Named(explicit, addr).value
         else if CaughtBy(explicit, "@" + domain).Some? then CaughtBy(explicit, "@" + domain).value
         else addr
  {
    var explicit, addr, at := Explicit(aliases, fs), Address(local, domain), "@" + domain;
    FileLookup(aliases, fs, accounts, addr);
    FileLookup(aliases, fs, accounts, at);
    NoCatchAllIdentity(accounts, Domains(explicit), Taken(explicit), at);
    SelectSources(explicit, true);
    SelectSources(explicit, false);
    NamedFrom(Select(explicit, true), addr);
    NamedFrom(Select(explicit, false), at);
    LowerKeepsCatchAll();
  }

  lemma LowerKeepsCatchAll()
    ensures forall s :: IsCatchAll(Lower(s)) <==> IsCatchAll(s)
  {
    forall s: string
      ensures IsCatchAll(Lower(s)) <==> IsCatchAll(s)
    {
      if s != [] { LowerCharKeeps(s[0], false); }
    }
  }

  lemma NoCatchAllIdentity(accounts: seq<Account>, domains: set<string>, taken: set<string>, key: string)
    requires forall a :: a in accounts && a.domain.Some? ==> Accepted(Address(a.username, a.domain.value))
    requires IsCatchAll(key)
    ensures !HasLowerIdentity(accounts, domains, taken, key)
  {
    forall a | a in accounts && NeedsIdentity(a, domains, taken)
      ensures Lower(Address(a.username, a.domain.value)) != key
    {
      AcceptedIsNoCatchAll(Address(a.username, a.domain.value));
      LowerKeepsCatchAll();
    }
  }

  lemma AcceptedIsNoCatchAll(s: string)
    requires Accepted(s)
    ensures !IsCatchAll(s)
  {
    assert s[..IndexOf(s, '@')] != [];
  }

  // Mail to the account, in the file's spelling, goes where the admin wrote or else to the
  // account.
  predicate Reached(a: Account, aliases: seq<Alias>, fs: seq<Forwarding>, accounts: seq<Account>)
    requires a.domain.Some?
  {
    var addr := Lower(Address(a.username, a.domain.value));
    var named := Named(Explicit(aliases, fs), addr);
    Resolve(File(aliases, fs, accounts), Lower(a.username), Lower(a.domain.value))
      == if named.Some? then named.value else addr
  }

  // The account gets no identity, because the catch-all names its domain in another
  // spelling, and is left to that catch-all.
  ghost predicate Swallowed(a: Account, explicit: seq<Entry>, accounts: seq<Account>)
    requires a.domain.Some?
  {
    var addr, caught := Lower(Address(a.username, a.domain.value)), CaughtBy(explicit, "@" + Lower(a.domain.value));
    && a.domain.value !in Domains(explicit) && !HasLowerIdentity(accounts, Domains(explicit), Taken(explicit), addr)
    && Named(explicit, addr).None? && caught.Some? && caught.value != addr
  }

  // Some account with this address, up to spelling, shadows an explicit entry.
  ghost predicate IsShadowed(a: Account, explicit: seq<Entry>, accounts: seq<Account>)
    requires a.domain.Some?
  {
    exists b :: b in accounts && Shadows(b, explicit)
      && Lower(Address(b.username, b.domain.value)) == Lower(Address(a.username, a.domain.value))
  }

  lemma ReachedIff(aliases: seq<Alias>, fs: seq<Forwarding>, accounts: seq<Account>, a: Account)
    requires TypedInput(aliases, fs, accounts) && a in accounts && a.active && a.domain.Some?
    ensures var explicit := Explicit(aliases, fs);
      Reached(a, aliases, fs, accounts) <==> !IsShadowed(a, explicit, accounts) && !Swallowed(a, explicit, accounts)
  {
    var explicit, addr := Explicit(aliases, fs), Address(a.username, a.domain.value);
    LowerJoin(a.username, a.domain.value);
    AcceptedIsNoCatchAll(addr);
    LowerKeepsCatchAll();
    FileResolution(aliases, fs, accounts, Lower(a.username), Lower(a.domain.value));
    ShadowedIff(explicit, accounts, a);
    if a.domain.value in Domains(explicit) { IdentityUnlessNamed(explicit, accounts, a); }
  }

  lemma ShadowedIff(explicit: seq<Entry>, accounts: seq<Account>, a: Account)
    requires a.domain.Some?
    ensures var addr := Lower(Address(a.username, a.domain.value));
      IsShadowed(a, explicit, accounts) <==>
      && HasLowerIdentity(accounts, Domains(explicit), Taken(explicit), addr)
      && Named(explicit, addr).Some? && Named(explicit, addr).value != addr
  {
    var addr := Lower(Address(a.username, a.domain.value));
    forall b | b in accounts && Shadows(b, explicit) && Lower(Address(b.username, b.domain.value)) == addr
      ensures IdentityFor(b, Domains(explicit), Taken(explicit), addr)
    {
    }
    if HasLowerIdentity(accounts, Domains(explicit), Taken(explicit), addr)
       && Named(explicit, addr).Some? && Named(explicit, addr).value != addr {
      var b :| b in accounts && IdentityFor(b, Domains(explicit), Taken(explicit), addr);
      assert Shadows(b, explicit);
    }
  }

  lemma IdentityUnlessNamed(explicit: seq<Entry>, accounts: seq<Account>, a: Account)
    requires a in accounts && a.active && a.domain.Some? && a.domain.value in Domains(explicit)
    ensures var addr := Lower(Address(a.username, a.domain.value));
      HasLowerIdentity(accounts, Domains(explicit), Taken(explicit), addr) || Named(explicit, addr).Some?
  {
    var addr := Address(a.username, a.domain.value);
    NamedFrom(Select(explicit, false), Lower(addr));
    if addr !in Taken(explicit) {
      assert IdentityFor(a, Domains(explicit), Taken(explicit), Lower(addr));
    }
  }

  // Given a catch-all of the account's domain, an entry for the account's address in
  // another spelling is never looked up, wherever it leads.
  lemma OtherSpellingIsShadowed(aliases: seq<Alias>, fs: seq<Forwarding>, accounts: seq<Account>, a: Account, e: Entry)
    requires TypedInput(aliases, fs, accounts)
    requires a in accounts && NeedsIdentity(a, Domains(Explicit(aliases, fs)), Taken(Explicit(aliases, fs)))
    requires e in Select(Explicit(aliases, fs), false) && Lower(e.source) == Lower(Address(a.username, a.domain.value))
    ensures e.source != Address(a.username, a.domain.value)
    ensures Lookup(File(aliases, fs, accounts), Lower(e.source)) == Some(Lower(e.source))
  {
    var explicit := Explicit(aliases, fs);
    assert e.source in Taken(explicit);
    assert IdentityFor(a, Domains(explicit), Taken(explicit), Lower(e.source));
    FileLookup(aliases, fs, accounts, Lower(e.source));
  }

  lemma {:induction false} EntryOfAlias(aliases: seq<Alias>, a: Alias)
    requires a in aliases && a.active
    ensures Entry(Normalize(a.source, a.domain), a.destination) in AliasEntries(aliases)
  {
    var init, last := aliases[..|aliases| - 1], aliases[|aliases| - 1];
    if a != last {
      assert aliases == init + [last];
      EntryOfAlias(init, a);
    }
  }

  lemma {:induction false} AliasOfEntry(aliases: seq<Alias>, e: Entry)
    requires e in AliasEntries(aliases)
    ensures exists a :: a in aliases && a.active && e == Entry(Normalize(a.source, a.domain), a.destination)
  {
    var init, last := aliases[..|aliases| - 1], aliases[|aliases| - 1];
    if e in AliasEntries(init) {
      AliasOfEntry(init, e);
    }
  }

  lemma {:induction false} Selected(es: seq<Entry>, e: Entry)
    requires e in es
    ensures e in Select(es, IsCatchAll(e.source))
  {
    var init, last := es[..|es| - 1], es[|es| - 1];
    if e != last {
      assert es == init + [last];
      Selected(init, e);
    }
  }

  // Every list of two such aliases will do: one for all of the account's domain, and one for
  // its address in another spelling, wherever they lead.
  lemma OtherSpellingOccurs(aliases: seq<Alias>, a: Account, all: Alias, named: Alias)
    requires all in aliases && named in aliases && all.active && named.active
    requires forall c :: c in aliases ==> c == all || c == named
    requires a.active && a.domain.Some? && all.source == "*@" + a.domain.value
    requires Accepted(all.destination) && Accepted(named.source) && Accepted(named.destination)
    requires var addr := Address(a.username, a.domain.value);
      Accepted(addr) && named.source != addr && Lower(named.source) == Lower(addr)
    ensures Entry(named.source, named.destination) in Select(Explicit(aliases, []), false)
    ensures Lookup(File(aliases, [], [a]), Lower(named.source)) == Some(Lower(named.source))
  {
    NormalizeAll(a, all.domain);
    NormalizeAccepted(named.source, named.domain);
    OccursIn(aliases, a, all, named, Entry("@" + a.domain.value, all.destination), Entry(named.source, named.destination));
  }

  lemma NormalizeAll(a: Account, domain: Option<string>)
    requires a.domain.Some? && Accepted(Address(a.username, a.domain.value))
    ensures Normalize("*@" + a.domain.value, domain) == "@" + a.domain.value
  {
    DomainOf(a.username, a.domain.value);
    NormalizeStar(a.domain.value, domain);
  }

  lemma OccursIn(aliases: seq<Alias>, a: Account, all: Alias, named: Alias, x: Entry, y: Entry)
    requires all in aliases && named in aliases && all.active && named.active
    requires forall c :: c in aliases ==> c == all || c == named
    requires x == Entry(Normalize(all.source, all.domain), all.destination)
    requires y == Entry(Normalize(named.source, named.domain), named.destination)
    requires a.active && a.domain.Some? && x.source == "@" + a.domain.value
    requires Accepted(x.destination) && Accepted(y.source) && Accepted(y.destination)
    requires var addr := Address(a.username, a.domain.value);
      Accepted(addr) && y.source != addr && Lower(y.source) == Lower(addr)
    ensures y in Select(Explicit(aliases, []), false)
    ensures Lookup(File(aliases, [], [a]), Lower(y.source)) == Some(Lower(y.source))
  {
    EntriesOfTwo(aliases, all, named, x, y);
    TypedPair(a, x, y);
    TypedByTwo(aliases, a, x, y);
    ShadowedByTwo(aliases, a, x, y);
  }

  lemma TypedPair(a: Account, x: Entry, y: Entry)
    requires a.domain.Some? && Accepted(Address(a.username, a.domain.value))
    requires x.source == "@" + a.domain.value && Accepted(x.destination) && Accepted(y.source) && Accepted(y.destination)
    ensures TypedEntry(x) && TypedEntry(y) && IsCatchAll(x.source) && x.source[1..] == a.domain.value
    ensures !IsCatchAll(y.source) && !IsCatchAll(Address(a.username, a.domain.value))
  {
    DomainOf(a.username, a.domain.value);
    AtDomainIsTyped(a.domain.value);
    AcceptedIsNoCatchAll(y.source);
    AcceptedIsNoCatchAll(Address(a.username, a.domain.value));
  }

  // A list with these two entries and no other.
  predicate Pair(es: seq<Entry>, x: Entry, y: Entry) {
    x in es && y in es && forall e :: e in es ==> e == x || e == y
  }

  lemma ShadowedByTwo(aliases: seq<Alias>, a: Account, x: Entry, y: Entry)
    requires a.active && a.domain.Some? && TypedInput(aliases, [], [a]) && Pair(Explicit(aliases, []), x, y)
    requires IsCatchAll(x.source) && !IsCatchAll(y.source) && x.source[1..] == a.domain.value
    requires var addr := Address(a.username, a.domain.value);
      !IsCatchAll(addr) && y.source != addr && Lower(y.source) == Lower(addr)
    ensures y in Select(Explicit(aliases, []), false)
    ensures Lookup(File(aliases, [], [a]), Lower(y.source)) == Some(Lower(y.source))
  {
    NamedAndCaught(Explicit(aliases, []), a, x, y);
    OtherSpellingIsShadowed(aliases, [], [a], a, y);
  }

  lemma TypedByTwo(aliases: seq<Alias>, a: Account, x: Entry, y: Entry)
    requires Pair(Explicit(aliases, []), x, y) && TypedEntry(x) && TypedEntry(y)
    requires a.domain.Some? && Accepted(Address(a.username, a.domain.value))
    ensures TypedInput(aliases, [], [a])
  {
  }

  lemma NamedAndCaught(explicit: seq<Entry>, a: Account, x: Entry, y: Entry)
    requires a.active && a.domain.Some? && Pair(explicit, x, y)
    requires IsCatchAll(x.source) && !IsCatchAll(y.source) && x.source[1..] == a.domain.value
    requires y.source != Address(a.username, a.domain.value) && !IsCatchAll(Address(a.username, a.domain.value))
    ensures y in Select(explicit, false) && NeedsIdentity(a, Domains(explicit), Taken(explicit))
  {
    Selected(explicit, x);
    Selected(explicit, y);
    SelectSources(explicit, false);
  }

  lemma AtDomainIsTyped(d: string)
    requires d != [] && All(d, DomainChar)
    ensures Typed("@" + d) && IsCatchAll("@" + d) && ("@" + d)[1..] == d
  {
  }

  lemma NoForwardings(aliases: seq<Alias>, none: seq<Forwarding>)
    requires none == []
    ensures Explicit(aliases, none) == AliasEntries(aliases)
  {
  }

  lemma EntriesOfTwo(aliases: seq<Alias>, a: Alias, b: Alias, x: Entry, y: Entry)
    requires a in aliases && b in aliases && a.active && b.active && forall c :: c in aliases ==> c == a || c == b
    requires x == Entry(Normalize(a.source, a.domain), a.destination) && y == Entry(Normalize(b.source, b.domain), b.destination)
    ensures Pair(Explicit(aliases, []), x, y)
  {
    NoForwardings(aliases, []);
    EntryOfAlias(aliases, a);
    EntryOfAlias(aliases, b);
    forall e | e in AliasEntries(aliases)
      ensures e == x || e == y
    {
      EntryOfOne(aliases, a, b, e);
    }
  }

  lemma EntryOfOne(aliases: seq<Alias>, a: Alias, b: Alias, e: Entry)
    requires e in AliasEntries(aliases) && forall c :: c in aliases ==> c == a || c == b
    ensures e == Entry(Normalize(a.source, a.domain), a.destination) || e == Entry(Normalize(b.source, b.domain), b.destination)
  {
    AliasOfEntry(aliases, e);
  }

  lemma DomainOf(username: string, domain: string)
    requires Accepted(Address(username, domain))
    ensures domain != [] && All(domain, DomainChar)
  {
    var s := Address(username, domain);
    var at := IndexOf(s, '@');
    assert s[|username|] == '@';
    BehindAt(s, at, |username|);
    assert s[|username| + 1..] == domain;
  }

  lemma BehindAt(s: string, at: nat, k: nat)
    requires at < |s| && at <= k < |s| && s[k] == '@' && '@' !in s[at + 1..]
    ensures at == k
  {
    forall j | at < j < |s|
      ensures s[j] != '@'
    {
      assert s[j] == s[at + 1..][j - at - 1];
    }
  }

  lemma NormalizeStar(d: string, domain: Option<string>)
    requires All(d, DomainChar)
    ensures Normalize("*@" + d, domain) == "@" + d
  {
    var s := "*@" + d;
    StarIsTrimmed(s, d);
    StarParts(s, d);
    NormalizeTrimmed(s, s, d, domain);
  }

  lemma StarIsTrimmed(s: string, d: string)
    requires s == "*@" + d && All(d, DomainChar)
    ensures Trim(s) == s
  {
    if d != [] { assert s[|s| - 1] == d[|d| - 1]; }
    TrimId(s);
  }

  lemma StarParts(s: string, d: string)
    requires s == "*@" + d
    ensures |s| >= 2 && s[..2] == "*@" && s[2..] == d
  {
  }

  lemma NormalizeTrimmed(source: string, t: string, d: string, domain: Option<string>)
    requires Trim(source) == t && |t| >= 2 && t[..2] == "*@" && t[2..] == d
    ensures Normalize(source, domain) == "@" + d
  {
  }

  lemma NormalizeAccepted(s: string, domain: Option<string>)
    requires Accepted(s)
    ensures Normalize(s, domain) == s
  {
    var at := IndexOf(s, '@');
    assert LocalChar(s[..at][0]) && s[..at][0] == s[0];
    assert !StartsWith(s, "*@");
  }
}

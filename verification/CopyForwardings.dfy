// Which map a forwarding goes to, said of its own fields: with a copy kept the mailbox stays
// the destination and the copy is a BCC, without one the alias map sends the mail away.
module CopyForwardings {
  import opened Text
  import opened TextFacts
  import opened Routing

  // ---- How often an entry is in each map ----

  predicate WantsCopy(f: Forwarding, source: string, destination: string) {
    f.active && f.keepCopy && Normalize(f.source, f.domain) == source && f.destination == destination
  }

  predicate SendsAway(f: Forwarding, source: string, destination: string) {
    f.active && !f.keepCopy && Normalize(f.source, f.domain) == source && f.destination == destination
  }

  predicate IsFor(a: Alias, source: string, destination: string) {
    a.active && Normalize(a.source, a.domain) == source && a.destination == destination
  }

  // How many items are of a kind.
  function HowMany<T>(items: seq<T>, kind: T -> bool): nat {
    |set i | 0 <= i < |items| && kind(items[i])|
  }

  function Wanting(source: string, destination: string): Forwarding -> bool {
    f => WantsCopy(f, source, destination)
  }

  function Sending(source: string, destination: string): Forwarding -> bool {
    f => SendsAway(f, source, destination)
  }

  function Naming(source: string, destination: string): Alias -> bool {
    a => IsFor(a, source, destination)
  }

  lemma OneMore<T>(items: seq<T>, x: T, kind: T -> bool)
    ensures HowMany(items + [x], kind) == HowMany(items, kind) + if kind(x) then 1 else 0
  {
    var more := items + [x];
    var before, after := set i | 0 <= i < |items| && kind(items[i]), set i | 0 <= i < |more| && kind(more[i]);
    assert forall i :: 0 <= i < |items| ==> more[i] == items[i];
    if kind(x) {
      assert after == before + {|items|};
    } else {
      assert after == before;
    }
  }

  lemma OneMoreItem<T>(items: seq<T>, x: T, y: T)
    ensures multiset(items + [x])[y] == multiset(items)[y] + if x == y then 1 else 0
    ensures items + [] == items
  {
  }

  lemma CopyStep(init: seq<Forwarding>, f: Forwarding, source: string, destination: string)
    requires source == [] || source[0] != '@'
    ensures multiset(BccDests(init + [f], source))[destination]
         == multiset(BccDests(init, source))[destination] + if WantsCopy(f, source, destination) then 1 else 0
  {
    assert (init + [f])[..|init|] == init;
    OneMoreItem(BccDests(init, source), f.destination, destination);
  }

  // A single address has each destination among its BCCs as often as there are active
  // forwardings to it that keep a copy.
  lemma {:induction false} CopiesAreCounted(fs: seq<Forwarding>, source: string, destination: string)
    requires source == [] || source[0] != '@'
    ensures multiset(BccDests(fs, source))[destination] == HowMany(fs, Wanting(source, destination))
  {
    if fs != [] {
      var init, f := fs[..|fs| - 1], fs[|fs| - 1];
      assert fs == init + [f];
      CopiesAreCounted(init, source, destination);
      CopyStep(init, f, source, destination);
      OneMore(init, f, Wanting(source, destination));
    }
  }

  lemma ForwardingStep(init: seq<Forwarding>, f: Forwarding, source: string, destination: string)
    ensures multiset(ForwardingEntries(init + [f]))[Entry(source, destination)]
         == multiset(ForwardingEntries(init))[Entry(source, destination)]
            + (if SendsAway(f, source, destination) then 1 else 0)
            + if source != [] && source[0] == '@' && WantsCopy(f, source, destination) then 1 else 0
  {
    assert (init + [f])[..|init|] == init;
    OneMoreItem(ForwardingEntries(init), Entry(SourceOf(f), f.destination), Entry(source, destination));
  }

  // And its entries in the alias map as often as there are active ones that keep none; the
  // address of a whole domain as often as there are active ones.
  lemma {:induction false} ForwardingsAreCounted(fs: seq<Forwarding>, source: string, destination: string)
    ensures multiset(ForwardingEntries(fs))[Entry(source, destination)]
         == HowMany(fs, Sending(source, destination))
            + if source != [] && source[0] == '@' then HowMany(fs, Wanting(source, destination)) else 0
  {
    if fs != [] {
      var init, f := fs[..|fs| - 1], fs[|fs| - 1];
      assert fs == init + [f];
      ForwardingsAreCounted(init, source, destination);
      ForwardingStep(init, f, source, destination);
      OneMore(init, f, Wanting(source, destination));
      OneMore(init, f, Sending(source, destination));
    }
  }

  lemma AliasStep(init: seq<Alias>, a: Alias, source: string, destination: string)
    ensures multiset(AliasEntries(init + [a]))[Entry(source, destination)]
         == multiset(AliasEntries(init))[Entry(source, destination)] + if IsFor(a, source, destination) then 1 else 0
  {
    assert (init + [a])[..|init|] == init;
    OneMoreItem(AliasEntries(init), Entry(Normalize(a.source, a.domain), a.destination), Entry(source, destination));
  }

  lemma {:induction false} AliasesAreCounted(aliases: seq<Alias>, source: string, destination: string)
    ensures multiset(AliasEntries(aliases))[Entry(source, destination)] == HowMany(aliases, Naming(source, destination))
  {
    if aliases != [] {
      var init, a := aliases[..|aliases| - 1], aliases[|aliases| - 1];
      assert aliases == init + [a];
      AliasesAreCounted(init, source, destination);
      AliasStep(init, a, source, destination);
      OneMore(init, a, Naming(source, destination));
    }
  }

  // All three lists keep the order in which the admin wrote.
  lemma {:induction false} AliasesInOrder(a: seq<Alias>, b: seq<Alias>)
    ensures AliasEntries(a + b) == AliasEntries(a) + AliasEntries(b)
  {
    if b == [] {
      assert a + b == a;
    } else {
      assert (a + b)[..|a + b| - 1] == a + b[..|b| - 1];
      AliasesInOrder(a, b[..|b| - 1]);
    }
  }

  lemma {:induction false} ForwardingsInOrder(a: seq<Forwarding>, b: seq<Forwarding>)
    ensures ForwardingEntries(a + b) == ForwardingEntries(a) + ForwardingEntries(b)
  {
    if b == [] {
      assert a + b == a;
    } else {
      assert (a + b)[..|a + b| - 1] == a + b[..|b| - 1];
      ForwardingsInOrder(a, b[..|b| - 1]);
    }
  }

  lemma {:induction false} CopiesInOrder(a: seq<Forwarding>, b: seq<Forwarding>, source: string)
    ensures BccDests(a + b, source) == BccDests(a, source) + BccDests(b, source)
  {
    if b == [] {
      assert a + b == a;
    } else {
      assert (a + b)[..|a + b| - 1] == a + b[..|b| - 1];
      CopiesInOrder(a, b[..|b| - 1], source);
    }
  }

  // ---- Which addresses have an explicit entry ----

  predicate NamedByAlias(a: Alias, source: string) {
    a.active && Normalize(a.source, a.domain) == source
  }

  // A forwarding that puts a single address into the alias map.
  predicate NamedAway(f: Forwarding, source: string) {
    f.active && !f.keepCopy && Normalize(f.source, f.domain) == source
  }

  lemma {:induction false} AliasSourcesIff(aliases: seq<Alias>, source: string)
    ensures (exists e :: e in AliasEntries(aliases) && e.source == source)
            <==> exists a :: a in aliases && NamedByAlias(a, source)
  {
    if aliases != [] {
      var init, a := aliases[..|aliases| - 1], aliases[|aliases| - 1];
      assert aliases == init + [a];
      AliasSourcesIff(init, source);
      if NamedByAlias(a, source) {
        assert Entry(source, a.destination) in AliasEntries(aliases);
      }
    }
  }

  lemma {:induction false} ForwardingSourcesIff(fs: seq<Forwarding>, source: string)
    requires source == [] || source[0] != '@'
    ensures (exists e :: e in ForwardingEntries(fs) && e.source == source)
            <==> exists f :: f in fs && NamedAway(f, source)
  {
    if fs != [] {
      var init, f := fs[..|fs| - 1], fs[|fs| - 1];
      assert fs == init + [f];
      ForwardingSourcesIff(init, source);
      if NamedAway(f, source) {
        assert Entry(source, f.destination) in ForwardingEntries(fs);
      }
    }
  }

  lemma {:induction false} SelectedSources(es: seq<Entry>, source: string)
    ensures source in Sources(Select(es, IsCatchAll(source))) <==> exists e :: e in es && e.source == source
  {
    if es != [] {
      var init, e := es[..|es| - 1], es[|es| - 1];
      assert es == init + [e];
      SelectedSources(init, source);
    }
  }

  // An address has an explicit entry exactly if an active alias names it, or an active
  // forwarding that keeps no copy.
  lemma ExplicitIff(aliases: seq<Alias>, fs: seq<Forwarding>, source: string)
    requires source == [] || source[0] != '@'
    ensures Lookup(Select(Explicit(aliases, fs), false), source).Some?
            <==> (exists a :: a in aliases && NamedByAlias(a, source)) || exists f :: f in fs && NamedAway(f, source)
  {
    var explicit := Explicit(aliases, fs);
    LookupSomeIff(Select(explicit, false), source);
    SelectedSources(explicit, source);
    AliasSourcesIff(aliases, source);
    ForwardingSourcesIff(fs, source);
    InEither(AliasEntries(aliases), ForwardingEntries(fs), source);
  }

  lemma InEither(a: seq<Entry>, b: seq<Entry>, source: string)
    ensures (exists e :: e in a + b && e.source == source)
            <==> (exists e :: e in a && e.source == source) || exists e :: e in b && e.source == source
  {
  }

  // ---- What that means for an address ----

  predicate ValidNames(accounts: seq<Account>) {
    forall a :: a in accounts ==> a.username != [] && a.username[0] != '@'
  }

  // Forwardings that keep a copy leave the mail of an account with the account.
  lemma CopiesLeaveTheMailbox(aliases: seq<Alias>, fs: seq<Forwarding>, accounts: seq<Account>, a: Account)
    requires ValidNames(accounts) && a in accounts && a.active && a.domain.Some?
    requires var addr := Address(a.username, a.domain.value);
      && (forall x :: x in aliases && x.active ==> Normalize(x.source, x.domain) != addr)
      && (forall f :: f in fs && f.active && Normalize(f.source, f.domain) == addr ==> f.keepCopy)
    ensures Resolve(VirtualAliases(aliases, fs, accounts), a.username, a.domain.value) == Address(a.username, a.domain.value)
  {
    var explicit, addr, at := Explicit(aliases, fs), Address(a.username, a.domain.value), "@" + a.domain.value;
    assert addr[0] == a.username[0];
    ExplicitIff(aliases, fs, addr);
    ResolutionIsComplete(aliases, fs, accounts, a.username, a.domain.value);
    LookupSomeIff(Select(explicit, true), at);
    if Lookup(Select(explicit, true), at).Some? {
      var e :| e in Select(explicit, true) && e.source == at;
      assert e.source[1..] == a.domain.value && IsCatchAll(e.source);
      assert NeedsIdentity(a, CatchAllDomains(Select(explicit, true)), Sources(Select(explicit, false))) by {
        LookupSomeIff(Select(explicit, false), addr);
      }
    }
  }

  // One that keeps none is found, unless an alias or another such forwarding is.
  lemma PlainForwardingIsFound(aliases: seq<Alias>, fs: seq<Forwarding>, accounts: seq<Account>, f: Forwarding)
    requires f in fs && f.active && !f.keepCopy
    requires var source := Normalize(f.source, f.domain); source == [] || source[0] != '@'
    requires forall a :: a in aliases && a.active ==> Normalize(a.source, a.domain) != Normalize(f.source, f.domain)
    requires forall g :: g in fs && g.active && !g.keepCopy && Normalize(g.source, g.domain) == Normalize(f.source, f.domain)
               ==> g.destination == f.destination
    ensures Lookup(VirtualAliases(aliases, fs, accounts), Normalize(f.source, f.domain)) == Some(f.destination)
  {
    var source := Normalize(f.source, f.domain);
    var explicit := Explicit(aliases, fs);
    assert NamedAway(f, source);
    ExplicitIff(aliases, fs, source);
    SpecificLookup(aliases, fs, accounts, source);
    LookupIsEntry(Select(explicit, false), source);
    SelectSources(explicit, false);
    var e := Entry(source, Lookup(Select(explicit, false), source).value);
    assert e in explicit;
    if e in AliasEntries(aliases) { AliasSourcesIff(aliases, source); }
    WhereFrom(fs, e);
  }

  lemma {:induction false} LookupIsEntry(es: seq<Entry>, key: string)
    requires Lookup(es, key).Some?
    ensures Entry(key, Lookup(es, key).value) in es
  {
    var last := es[|es| - 1];
    if last.source != key { LookupIsEntry(es[..|es| - 1], key); }
  }

  lemma {:induction false} WhereFrom(fs: seq<Forwarding>, e: Entry)
    requires e.source == [] || e.source[0] != '@'
    ensures e in ForwardingEntries(fs) ==>
              exists f :: f in fs && NamedAway(f, e.source) && f.destination == e.destination
  {
    if fs != [] {
      var init, f := fs[..|fs| - 1], fs[|fs| - 1];
      assert fs == init + [f];
      WhereFrom(init, e);
    }
  }

  // An address that nobody names and that no active account has goes to the catch-all of
  // its domain, also if an inactive account has it.
  lemma OthersAreCaught(aliases: seq<Alias>, fs: seq<Forwarding>, accounts: seq<Account>, local: string, domain: string)
    requires ValidNames(accounts) && !IsCatchAll(Address(local, domain))
    requires var addr := Address(local, domain);
      && (forall x :: x in aliases && x.active ==> Normalize(x.source, x.domain) != addr)
      && (forall f :: f in fs && f.active && Normalize(f.source, f.domain) == addr ==> f.keepCopy)
      && (forall a :: a in accounts && a.active && a.domain.Some? ==> Address(a.username, a.domain.value) != addr)
    ensures Resolve(VirtualAliases(aliases, fs, accounts), local, domain)
         == match Lookup(Explicit(aliases, fs), "@" + domain) case Some(d) => d case None => Address(local, domain)
  {
    var explicit := Explicit(aliases, fs);
    ExplicitIff(aliases, fs, Address(local, domain));
    ResolutionIsComplete(aliases, fs, accounts, local, domain);
    SelectLookup(explicit, "@" + domain);
  }

  lemma {:induction false} SelectLookup(es: seq<Entry>, key: string)
    ensures Lookup(Select(es, IsCatchAll(key)), key) == Lookup(es, key)
  {
    if es != [] {
      var init, e := es[..|es| - 1], es[|es| - 1];
      var s := Select(init, IsCatchAll(key));
      SelectLookup(init, key);
      assert (s + [e])[..|s|] == s && s + [] == s;
    }
  }

  // ---- What a source means ----

  // A star before the at sign stands for the whole domain, and so does a star alone where
  // the domain is known; anything else is taken as it is, trimmed.
  lemma SourceIs(source: string, a: string, t: string, b: string, domain: Option<string>)
    requires source == a + t + b && Blank(a) && Blank(b) && Tight(t)
    ensures StarOf(t).Some? ==> Normalize(source, domain) == "@" + StarOf(t).value
    ensures t == "*" ==> Normalize(source, domain) == match domain case None => "*" case Some(d) => "@" + d
    ensures StarOf(t).None? && t != "*" ==> Normalize(source, domain) == t
  {
    TrimmedIs(a, t, b);
    SourceOfTrimmed(source, t, domain);
  }

  // The domain in a source for a whole domain.
  function StarOf(t: string): Option<string> {
    if |t| >= 2 && t[0] == '*' && t[1] == '@' then Some(t[2..]) else None
  }

  lemma SourceOfTrimmed(source: string, t: string, domain: Option<string>)
    requires Trim(source) == t
    ensures StarOf(t).Some? ==> Normalize(source, domain) == "@" + StarOf(t).value
    ensures t == "*" ==> Normalize(source, domain) == match domain case None => "*" case Some(d) => "@" + d
    ensures StarOf(t).None? && t != "*" ==> Normalize(source, domain) == t
  {
    if |t| >= 2 { assert t[..2] == [t[0], t[1]]; }
  }

  // ---- The BCC map ----

  // What is found in the map for a source: its destinations joined, and nothing where there
  // are none.
  lemma CopiesAreFound(result: seq<Entry>, fs: seq<Forwarding>, source: string)
    requires BccMap(result, Dests(fs))
    ensures Lookup(result, source)
         == if BccDests(fs, source) == [] then None else Some(Join(BccDests(fs, source), ", "))
  {
    if Dests(fs)(source) != [] {
      var i :| 0 <= i < |result| && result[i].source == source;
      assert result[i] in result;
    }
    LookupSomeIff(result, source);
    if Lookup(result, source).Some? {
      LookupIsEntry(result, source);
      var e := Entry(source, Lookup(result, source).value);
      assert e in result;
    }
  }

  // One entry for each source.
  lemma OneEntryEach(result: seq<Entry>, fs: seq<Forwarding>, e: Entry)
    requires BccMap(result, Dests(fs)) && e in result
    ensures multiset(result)[e] == 1
  {
    var i :| 0 <= i < |result| && result[i] == e;
    assert result == result[..i] + [e] + result[i + 1..];
    assert e !in result[..i] && e !in result[i + 1..];
  }
}

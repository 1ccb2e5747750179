// Aliases, forwardings and accounts compiled into the virtual alias map and the
// recipient BCC map of Postfix, and what each address resolves to.
module Routing {
  import opened Text
  import opened MailAddress

  datatype Alias = Alias(source: string, destination: string, active: bool, domain: Option<string>)

  datatype Forwarding = Forwarding(source: string, destination: string, active: bool, keepCopy: bool,
                                   domain: Option<string>)

  datatype Account = Account(username: string, active: bool, domain: Option<string>)

  datatype Entry = Entry(source: string, destination: string)

  function Address(local: string, domain: string): string {
    local + "@" + domain
  }

  predicate IsCatchAll(source: string) {
    source != [] && source[0] == '@'
  }

  // `*@domain` and a bare `*` become `@domain`.
  function Normalize(source: string, domain: Option<string>): string {
    var t := Trim(source);
    if StartsWith(t, "*@") then "@" + t[2..]
    else if t == "*" && domain.Some? then "@" + domain.value
    else t
  }

  // ---- What the lists contribute, in order ----

  function AliasEntries(aliases: seq<Alias>): seq<Entry> {
    if aliases == [] then []
    else
      var a := aliases[|aliases| - 1];
      AliasEntries(aliases[..|aliases| - 1])
      + if a.active then [Entry(Normalize(a.source, a.domain), a.destination)] else []
  }

  function SourceOf(f: Forwarding): string {
    Normalize(f.source, f.domain)
  }

  // A copy-keeping forwarding of a single address goes to the BCC map instead.
  predicate ForBcc(f: Forwarding) {
    f.active && f.keepCopy && !IsCatchAll(SourceOf(f))
  }

  function ForwardingEntries(fs: seq<Forwarding>): seq<Entry> {
    if fs == [] then []
    else
      var f := fs[|fs| - 1];
      ForwardingEntries(fs[..|fs| - 1])
      + if f.active && !ForBcc(f) then [Entry(SourceOf(f), f.destination)] else []
  }

  function Select(es: seq<Entry>, catchAlls: bool): seq<Entry> {
    if es == [] then []
    else
      var e := es[|es| - 1];
      Select(es[..|es| - 1], catchAlls) + if IsCatchAll(e.source) == catchAlls then [e] else []
  }

  function Sources(es: seq<Entry>): set<string> {
    set e | e in es :: e.source
  }

  function CatchAllDomains(es: seq<Entry>): set<string> {
    set e | e in es && IsCatchAll(e.source) :: e.source[1..]
  }

  // An account that a catch-all of its domain would otherwise swallow.
  predicate NeedsIdentity(a: Account, domains: set<string>, taken: set<string>) {
    a.active && a.domain.Some? && a.domain.value in domains && Address(a.username, a.domain.value) !in taken
  }

  function Identities(accounts: seq<Account>, domains: set<string>, taken: set<string>): seq<Entry> {
    if accounts == [] then []
    else
      var a := accounts[|accounts| - 1];
      Identities(accounts[..|accounts| - 1], domains, taken)
      + if NeedsIdentity(a, domains, taken)
        then [Entry(Address(a.username, a.domain.value), Address(a.username, a.domain.value))] else []
  }

  // The aliases and forwardings the admin wrote, before identities are added.
  function Explicit(aliases: seq<Alias>, fs: seq<Forwarding>): seq<Entry> {
    AliasEntries(aliases) + ForwardingEntries(fs)
  }

  function IdentityEntries(explicit: seq<Entry>, accounts: seq<Account>): seq<Entry> {
    Identities(accounts, CatchAllDomains(Select(explicit, true)), Sources(Select(explicit, false)))
  }

  function VirtualAliases(aliases: seq<Alias>, fs: seq<Forwarding>, accounts: seq<Account>): seq<Entry> {
    var explicit := Explicit(aliases, fs);
    Select(explicit, true) + (Select(explicit, false) + IdentityEntries(explicit, accounts))
  }

  lemma {:induction false} SelectAppend(a: seq<Entry>, b: seq<Entry>, catchAlls: bool)
    ensures Select(a + b, catchAlls) == Select(a, catchAlls) + Select(b, catchAlls)
  {
    if b == [] {
      assert a + b == a;
    } else {
      assert (a + b)[..|a + b| - 1] == a + b[..|b| - 1];
      SelectAppend(a, b[..|b| - 1], catchAlls);
    }
  }

  lemma SelectOne(es: seq<Entry>, e: Entry, catchAlls: bool)
    ensures Select(es + [e], catchAlls) == Select(es, catchAlls) + if IsCatchAll(e.source) == catchAlls then [e] else []
  {
    assert (es + [e])[..|es|] == es;
  }

  // ---- The builder ----

  // The catch-all and the single-address entries collected so far, and the sources of
  // the latter.
  ghost predicate Collected(explicit: seq<Entry>, catchAlls: seq<Entry>, specific: seq<Entry>, taken: set<string>) {
    catchAlls == Select(explicit, true) && specific == Select(explicit, false) && taken == Sources(specific)
  }

  method Collect(ghost explicit: seq<Entry>, e: Entry, catchAlls: seq<Entry>, specific: seq<Entry>, taken: set<string>)
    returns (catchAlls': seq<Entry>, specific': seq<Entry>, taken': set<string>)
    requires Collected(explicit, catchAlls, specific, taken)
    ensures Collected(explicit + [e], catchAlls', specific', taken')
  {
    SelectOne(explicit, e, true);
    SelectOne(explicit, e, false);
    if IsCatchAll(e.source) {
      return catchAlls + [e], specific, taken;
    }
    return catchAlls, specific + [e], taken + {e.source};
  }

  lemma AliasStep(aliases: seq<Alias>, i: nat)
    requires i < |aliases|
    ensures var a := aliases[i];
      AliasEntries(aliases[..i + 1])
      == if a.active then AliasEntries(aliases[..i]) + [Entry(Normalize(a.source, a.domain), a.destination)]
         else AliasEntries(aliases[..i])
  {
    assert aliases[..i + 1][..i] == aliases[..i];
  }

  lemma ForwardingStep(aliases: seq<Alias>, fs: seq<Forwarding>, i: nat)
    requires i < |fs|
    ensures var f := fs[i];
      Explicit(aliases, fs[..i + 1])
      == if f.active && !ForBcc(f) then Explicit(aliases, fs[..i]) + [Entry(SourceOf(f), f.destination)]
         else Explicit(aliases, fs[..i])
  {
    assert fs[..i + 1][..i] == fs[..i];
  }

  method BuildVirtualAliasEntries(aliases: seq<Alias>, fs: seq<Forwarding>, accounts: seq<Account>)
    returns (result: seq<Entry>)
    ensures result == VirtualAliases(aliases, fs, accounts)
  {
    var catchAlls: seq<Entry>, specific: seq<Entry>, taken: set<string> := [], [], {};
    for i := 0 to |aliases|
      invariant Collected(AliasEntries(aliases[..i]), catchAlls, specific, taken)
    {
      var a := aliases[i];
      AliasStep(aliases, i);
      if a.active {
        var e := Entry(Normalize(a.source, a.domain), a.destination);
        catchAlls, specific, taken := Collect(AliasEntries(aliases[..i]), e, catchAlls, specific, taken);
      }
    }
    assert aliases[..|aliases|] == aliases;
    assert AliasEntries(aliases) + ForwardingEntries(fs[..0]) == AliasEntries(aliases);
    for i := 0 to |fs|
      invariant Collected(Explicit(aliases, fs[..i]), catchAlls, specific, taken)
    {
      var f := fs[i];
      ForwardingStep(aliases, fs, i);
      if f.active {
        var source := SourceOf(f);
        if f.keepCopy && !IsCatchAll(source) {
          continue;
        }
        var e := Entry(source, f.destination);
        catchAlls, specific, taken := Collect(Explicit(aliases, fs[..i]), e, catchAlls, specific, taken);
      }
    }
    assert fs[..|fs|] == fs;
    var ids := BuildIdentities(accounts, CatchAllDomains(catchAlls), taken);
    result := catchAlls + (specific + ids);
  }

  method BuildIdentities(accounts: seq<Account>, domains: set<string>, taken: set<string>) returns (ids: seq<Entry>)
    ensures ids == Identities(accounts, domains, taken)
  {
    ids := [];
    for i := 0 to |accounts|
      invariant ids == Identities(accounts[..i], domains, taken)
    {
      var a := accounts[i];
      assert accounts[..i + 1][..i] == accounts[..i];
      if a.active && a.domain.Some? && a.domain.value in domains {
        var email := Address(a.username, a.domain.value);
        if email !in taken {
          ids := ids + [Entry(email, email)];
        }
      }
    }
    assert accounts[..|accounts|] == accounts;
  }

  // ---- Lookup: the last entry of a key wins ----

  function Lookup(es: seq<Entry>, key: string): Option<string> {
    if es == [] then None
    else if es[|es| - 1].source == key then Some(es[|es| - 1].destination)
    else Lookup(es[..|es| - 1], key)
  }

  // The exact address first, then its domain, then the address itself.
  function Resolve(es: seq<Entry>, local: string, domain: string): string {
    match Lookup(es, Address(local, domain))
    case Some(d) => d
    case None =>
      match Lookup(es, "@" + domain)
      case Some(d) => d
      case None => Address(local, domain)
  }

  lemma {:induction false} LookupAppend(a: seq<Entry>, b: seq<Entry>, key: string)
    ensures Lookup(a + b, key) == if Lookup(b, key).Some? then Lookup(b, key) else Lookup(a, key)
  {
    if b == [] {
      assert a + b == a;
    } else {
      assert (a + b)[..|a + b| - 1] == a + b[..|b| - 1];
      LookupAppend(a, b[..|b| - 1], key);
    }
  }

  lemma {:induction false} LookupSomeIff(es: seq<Entry>, key: string)
    ensures Lookup(es, key).Some? <==> key in Sources(es)
  {
    if es != [] {
      LookupSomeIff(es[..|es| - 1], key);
      assert es == es[..|es| - 1] + [es[|es| - 1]];
    }
  }

  lemma {:induction false} SelectSources(es: seq<Entry>, catchAlls: bool)
    ensures forall e :: e in Select(es, catchAlls) ==> e in es && IsCatchAll(e.source) == catchAlls
  {
    if es != [] {
      SelectSources(es[..|es| - 1], catchAlls);
    }
  }

  ghost predicate HasIdentity(accounts: seq<Account>, domains: set<string>, taken: set<string>, key: string) {
    exists a :: a in accounts && NeedsIdentity(a, domains, taken) && Address(a.username, a.domain.value) == key
  }

  lemma {:induction false} LookupIdentities(accounts: seq<Account>, domains: set<string>, taken: set<string>, key: string)
    ensures Lookup(Identities(accounts, domains, taken), key)
         == if HasIdentity(accounts, domains, taken, key) then Some(key) else None
  {
    if accounts != [] {
      var init, a := accounts[..|accounts| - 1], accounts[|accounts| - 1];
      LookupIdentities(init, domains, taken, key);
      assert accounts == init + [a];
      assert HasIdentity(accounts, domains, taken, key) <==>
             HasIdentity(init, domains, taken, key)
             || (NeedsIdentity(a, domains, taken) && Address(a.username, a.domain.value) == key);
      var rest := Identities(init, domains, taken);
      if NeedsIdentity(a, domains, taken) {
        var e := Entry(Address(a.username, a.domain.value), Address(a.username, a.domain.value));
        assert (rest + [e])[..|rest|] == rest;
      } else {
        assert Identities(accounts, domains, taken) == rest;
      }
    }
  }

  // A single address in the finished map: the explicit entry if there is one, else the
  // identity entry if there is one. Identities never shadow an explicit entry.
  lemma SpecificLookup(aliases: seq<Alias>, fs: seq<Forwarding>, accounts: seq<Account>, key: string)
    ensures var explicit := Explicit(aliases, fs);
      var named := Lookup(Select(explicit, false), key);
      Lookup(VirtualAliases(aliases, fs, accounts), key)
      == if named.Some? then named
         else if Lookup(IdentityEntries(explicit, accounts), key).Some? then Some(key)
         else Lookup(Select(explicit, true), key)
  {
    var explicit := Explicit(aliases, fs);
    var ids := IdentityEntries(explicit, accounts);
    LookupAppend(Select(explicit, true), Select(explicit, false) + ids, key);
    LookupAppend(Select(explicit, false), ids, key);
    LookupSomeIff(Select(explicit, false), key);
    LookupIdentities(accounts, CatchAllDomains(Select(explicit, true)), Sources(Select(explicit, false)), key);
  }

  // An active account in a domain with a catch-all never resolves to the catch-all.
  lemma AccountsEscapeCatchAll(aliases: seq<Alias>, fs: seq<Forwarding>, accounts: seq<Account>, a: Account)
    requires a in accounts && a.active && a.domain.Some?
    requires a.domain.value in CatchAllDomains(Select(Explicit(aliases, fs), true))
    ensures var email := Address(a.username, a.domain.value);
      var named := Lookup(Select(Explicit(aliases, fs), false), email);
      Resolve(VirtualAliases(aliases, fs, accounts), a.username, a.domain.value)
      == if named.Some? then named.value else email
  {
    var explicit := Explicit(aliases, fs);
    var email := Address(a.username, a.domain.value);
    var domains, taken := CatchAllDomains(Select(explicit, true)), Sources(Select(explicit, false));
    SpecificLookup(aliases, fs, accounts, email);
    LookupIdentities(accounts, domains, taken, email);
    LookupSomeIff(Select(explicit, false), email);
    if email !in taken {
      assert NeedsIdentity(a, domains, taken);
    }
  }

  // What any address resolves to, account or not.
  lemma ResolutionIsComplete(aliases: seq<Alias>, fs: seq<Forwarding>, accounts: seq<Account>,
                             local: string, domain: string)
    requires !IsCatchAll(Address(local, domain))
    requires forall a :: a in accounts ==> a.username != [] && a.username[0] != '@'
    ensures var explicit := Explicit(aliases, fs);
      var addr := Address(local, domain);
      var domains, taken := CatchAllDomains(Select(explicit, true)), Sources(Select(explicit, false));
      var named, swallowed := Lookup(Select(explicit, false), addr), Lookup(Select(explicit, true), "@" + domain);
      Resolve(VirtualAliases(aliases, fs, accounts), local, domain)
      == if named.Some? then named.value
         else if HasIdentity(accounts, domains, taken, addr) then addr
         else if swallowed.Some? then swallowed.value
         else addr
  {
    var explicit := Explicit(aliases, fs);
    var addr, at := Address(local, domain), "@" + domain;
    var domains, taken := CatchAllDomains(Select(explicit, true)), Sources(Select(explicit, false));
    SpecificLookup(aliases, fs, accounts, addr);
    SpecificLookup(aliases, fs, accounts, at);
    LookupIdentities(accounts, domains, taken, addr);
    LookupIdentities(accounts, domains, taken, at);
    NotACatchAllSource(explicit, at);
    NotASingleSource(explicit, addr);
    forall a | a in accounts && a.domain.Some?
      ensures Address(a.username, a.domain.value) != at
    {
      assert Address(a.username, a.domain.value)[0] == a.username[0];
    }
  }

  lemma NotACatchAllSource(explicit: seq<Entry>, key: string)
    requires IsCatchAll(key)
    ensures Lookup(Select(explicit, false), key).None?
  {
    SelectSources(explicit, false);
    LookupSomeIff(Select(explicit, false), key);
  }

  lemma NotASingleSource(explicit: seq<Entry>, key: string)
    requires !IsCatchAll(key)
    ensures Lookup(Select(explicit, true), key).None?
  {
    SelectSources(explicit, true);
    LookupSomeIff(Select(explicit, true), key);
  }

  // ---- Order, and where each forwarding goes ----

  // All catch-alls precede all single addresses.
  lemma CatchAllsFirst(aliases: seq<Alias>, fs: seq<Forwarding>, accounts: seq<Account>)
    requires forall a :: a in accounts ==> a.username != [] && a.username[0] != '@'
    ensures var es := VirtualAliases(aliases, fs, accounts);
      forall i, j :: 0 <= i < |es| && 0 <= j < |es| && IsCatchAll(es[i].source) && !IsCatchAll(es[j].source) ==> i < j
  {
    var explicit := Explicit(aliases, fs);
    var c, n, ids := Select(explicit, true), Select(explicit, false), IdentityEntries(explicit, accounts);
    SelectSources(explicit, true);
    SelectSources(explicit, false);
    IdentitiesAreSingle(accounts, CatchAllDomains(c), Sources(n));
    GroupsInOrder(c, n + ids);
  }

  lemma GroupsInOrder(c: seq<Entry>, n: seq<Entry>)
    requires forall e :: e in c ==> IsCatchAll(e.source)
    requires forall e :: e in n ==> !IsCatchAll(e.source)
    ensures var es := c + n;
      forall i, j :: 0 <= i < |es| && 0 <= j < |es| && IsCatchAll(es[i].source) && !IsCatchAll(es[j].source) ==> i < j
  {
    var es := c + n;
    forall i | 0 <= i < |es|
      ensures IsCatchAll(es[i].source) <==> i < |c|
    {
      assert if i < |c| then es[i] == c[i] else es[i] == n[i - |c|];
    }
  }

  lemma {:induction false} IdentitiesAreSingle(accounts: seq<Account>, domains: set<string>, taken: set<string>)
    requires forall a :: a in accounts ==> a.username != [] && a.username[0] != '@'
    ensures forall e :: e in Identities(accounts, domains, taken) ==> !IsCatchAll(e.source)
  {
    if accounts != [] {
      IdentitiesAreSingle(accounts[..|accounts| - 1], domains, taken);
    }
  }

  // The active forwardings as the admin wrote them.
  function ActivePairs(fs: seq<Forwarding>): seq<Entry> {
    if fs == [] then []
    else
      var f := fs[|fs| - 1];
      ActivePairs(fs[..|fs| - 1]) + if f.active then [Entry(SourceOf(f), f.destination)] else []
  }

  // The destinations that get a copy of mail to a source, in order.
  function BccDests(fs: seq<Forwarding>, source: string): seq<string> {
    if fs == [] then []
    else
      var f := fs[|fs| - 1];
      BccDests(fs[..|fs| - 1], source) + if ForBcc(f) && SourceOf(f) == source then [f.destination] else []
  }

  // Every active forwarding is in exactly one of the two maps, as often as it was
  // written; the others are in neither.
  lemma {:induction false} ForwardingInExactlyOneMap(fs: seq<Forwarding>, source: string, destination: string)
    ensures multiset(ForwardingEntries(fs))[Entry(source, destination)] + multiset(BccDests(fs, source))[destination]
         == multiset(ActivePairs(fs))[Entry(source, destination)]
  {
    if fs != [] {
      ForwardingInExactlyOneMap(fs[..|fs| - 1], source, destination);
    }
  }

  lemma {:induction false} NoBccForCatchAll(fs: seq<Forwarding>, source: string)
    requires IsCatchAll(source)
    ensures BccDests(fs, source) == []
  {
    if fs != [] {
      NoBccForCatchAll(fs[..|fs| - 1], source);
    }
  }

  // Sorting the explicit entries into the two groups loses and adds nothing.
  lemma {:induction false} SelectPartitions(es: seq<Entry>)
    ensures multiset(Select(es, true)) + multiset(Select(es, false)) == multiset(es)
  {
    if es != [] {
      var init, e := es[..|es| - 1], es[|es| - 1];
      SelectPartitions(init);
      assert es == init + [e];
      SelectOne(init, e, true);
      SelectOne(init, e, false);
      PartitionStep(Select(init, true), Select(init, false), init, e);
    }
  }

  lemma PartitionStep(a: seq<Entry>, b: seq<Entry>, init: seq<Entry>, e: Entry)
    requires multiset(a) + multiset(b) == multiset(init)
    ensures multiset(a + [e]) + multiset(b + []) == multiset(init + [e])
    ensures multiset(a + []) + multiset(b + [e]) == multiset(init + [e])
  {
    assert a + [] == a && b + [] == b;
  }

  lemma AliasMapContents(aliases: seq<Alias>, fs: seq<Forwarding>, accounts: seq<Account>)
    ensures multiset(VirtualAliases(aliases, fs, accounts))
         == multiset(AliasEntries(aliases)) + multiset(ForwardingEntries(fs))
            + multiset(IdentityEntries(Explicit(aliases, fs), accounts))
  {
    SelectPartitions(Explicit(aliases, fs));
  }

  // ---- The BCC map ----

  ghost predicate Gathered(bcc: map<string, seq<string>>, dests: string -> seq<string>) {
    && (forall s :: s in bcc ==> bcc[s] != [])
    && (forall s :: dests(s) == if s in bcc then bcc[s] else [])
  }

  function Dests(fs: seq<Forwarding>): string -> seq<string> {
    s => BccDests(fs, s)
  }

  method GatherBcc(fs: seq<Forwarding>) returns (bcc: map<string, seq<string>>)
    ensures Gathered(bcc, Dests(fs))
  {
    bcc := map[];
    for i := 0 to |fs|
      invariant Gathered(bcc, Dests(fs[..i]))
    {
      var f := fs[i];
      ghost var before := bcc;
      if f.active && f.keepCopy {
        var source := SourceOf(f);
        if !IsCatchAll(source) {
          bcc := bcc[source := (if source in bcc then bcc[source] else []) + [f.destination]];
        }
      }
      assert bcc == WithForwarding(before, f);
      DestsStep(fs, i);
      GatheredStep(before, Dests(fs[..i]), Dests(fs[..i + 1]), f);
    }
    assert fs[..|fs|] == fs;
  }

  function WithForwarding(bcc: map<string, seq<string>>, f: Forwarding): map<string, seq<string>> {
    var s := SourceOf(f);
    if ForBcc(f) then bcc[s := (if s in bcc then bcc[s] else []) + [f.destination]] else bcc
  }

  ghost predicate OneMore(dests: string -> seq<string>, dests': string -> seq<string>, f: Forwarding) {
    forall s :: dests'(s) == if ForBcc(f) && SourceOf(f) == s then dests(s) + [f.destination] else dests(s)
  }

  lemma GatheredStep(bcc: map<string, seq<string>>, dests: string -> seq<string>,
                     dests': string -> seq<string>, f: Forwarding)
    requires Gathered(bcc, dests) && OneMore(dests, dests', f)
    ensures Gathered(WithForwarding(bcc, f), dests')
  {
  }

  lemma DestsStep(fs: seq<Forwarding>, i: nat)
    requires i < |fs|
    ensures OneMore(Dests(fs[..i]), Dests(fs[..i + 1]), fs[i])
  {
    assert fs[..i + 1][..i] == fs[..i];
  }

  // One entry per key, its destinations joined.
  ghost predicate Emitted(result: seq<Entry>, bcc: map<string, seq<string>>, keys: set<string>) {
    && (forall i, j :: 0 <= i < j < |result| ==> result[i].source != result[j].source)
    && (forall i :: 0 <= i < |result| ==>
          result[i].source in keys && result[i].source in bcc
          && result[i].destination == Join(bcc[result[i].source], ", "))
    && (forall s :: s in keys ==> exists i :: 0 <= i < |result| && result[i].source == s)
  }

  // Keys in no particular order: the source's sorted map is emitted in some order here.
  method EmitBcc(bcc: map<string, seq<string>>) returns (result: seq<Entry>)
    ensures Emitted(result, bcc, bcc.Keys)
  {
    result := [];
    var left := bcc.Keys;
    while left != {}
      invariant left <= bcc.Keys
      invariant Emitted(result, bcc, bcc.Keys - left)
      decreases left
    {
      var s :| s in left;
      EmitOne(result, bcc, bcc.Keys - left, s);
      result := result + [Entry(s, Join(bcc[s], ", "))];
      left := left - {s};
      assert bcc.Keys - left == (bcc.Keys - left - {s}) + {s};
    }
    assert bcc.Keys - {} == bcc.Keys;
  }

  lemma EmitOne(result: seq<Entry>, bcc: map<string, seq<string>>, keys: set<string>, s: string)
    requires Emitted(result, bcc, keys) && s in bcc && s !in keys
    ensures Emitted(result + [Entry(s, Join(bcc[s], ", "))], bcc, keys + {s})
  {
    var result' := result + [Entry(s, Join(bcc[s], ", "))];
    forall t | t in keys + {s}
      ensures exists i :: 0 <= i < |result'| && result'[i].source == t
    {
      if t == s {
        assert result'[|result|].source == s;
      } else {
        var i :| 0 <= i < |result| && result[i].source == t;
        assert result'[i].source == t;
      }
    }
  }

  // One entry for each source that has a copy-keeping forwarding, with its
  // destinations joined in the order they were written.
  ghost predicate BccMap(result: seq<Entry>, dests: string -> seq<string>) {
    && (forall i, j :: 0 <= i < j < |result| ==> result[i].source != result[j].source)
    && (forall i :: 0 <= i < |result| ==>
          dests(result[i].source) != [] && result[i].destination == Join(dests(result[i].source), ", "))
    && (forall s :: dests(s) != [] ==> exists i :: 0 <= i < |result| && result[i].source == s)
  }

  method BuildRecipientBccEntries(fs: seq<Forwarding>) returns (result: seq<Entry>)
    ensures BccMap(result, Dests(fs))
  {
    var bcc := GatherBcc(fs);
    result := EmitBcc(bcc);
    EmittedIsBccMap(result, bcc, Dests(fs));
  }

  lemma EmittedIsBccMap(result: seq<Entry>, bcc: map<string, seq<string>>, dests: string -> seq<string>)
    requires Gathered(bcc, dests) && Emitted(result, bcc, bcc.Keys)
    ensures BccMap(result, dests)
  {
  }

  // ---- Reading a BCC value back ----

  function LowerAll(ds: seq<string>): seq<string> {
    if ds == [] then [] else [Lower(ds[0])] + LowerAll(ds[1..])
  }

  function ReadPiece(piece: string): Option<string> {
    SanitizeAddress(Trim(piece))
  }

  // Every piece has to read; one bad piece spoils the entry.
  function ReadAll(read: string -> Option<string>, pieces: seq<string>): Option<seq<string>> {
    if pieces == [] then Some([])
    else
      var d, rest := read(pieces[0]), ReadAll(read, pieces[1..]);
      if d.None? || rest.None? then None else Some([d.value] + rest.value)
  }

  function ReadBcc(value: string): Option<seq<string>> {
    ReadAll(ReadPiece, Split(value, ","))
  }

  lemma SplitFirst(d: string, tail: string)
    requires ',' !in d
    ensures Split(d + "," + tail, ",") == [d] + Split(tail, ",")
  {
    var s := d + "," + tail;
    forall j | 0 <= j
      ensures !MatchAt(d, j, ",")
    {
      if j < |d| { assert d[j..j + 1][0] == d[j]; }
    }
    FindAfter(d, ",", tail);
    assert s[..|d|] == d && s[|d| + 1..] == tail;
  }

  lemma SplitLast(d: string)
    requires ',' !in d
    ensures Split(d, ",") == [d]
  {
    forall j | 0 <= j
      ensures !MatchAt(d, j, ",")
    {
      if j < |d| { assert d[j..j + 1][0] == d[j]; }
    }
  }

  lemma TrimOneSpace(d: string)
    requires d != [] && NoSpace(d)
    ensures Trim(" " + d) == d && Trim(d) == d
  {
    assert (" " + d)[1..] == d;
    TrimId(d);
    assert TrimStart(" " + d) == TrimStart(d) == d;
  }

  lemma ReadOne(read: string -> Option<string>, piece: string, rest: seq<string>)
    ensures ReadAll(read, [piece] + rest)
         == if read(piece).None? || ReadAll(read, rest).None? then None
            else Some([read(piece).value] + ReadAll(read, rest).value)
  {
    assert ([piece] + rest)[1..] == rest;
  }

  // A piece as it stands in the joined value.
  ghost predicate IsPiece(read: string -> Option<string>, piece: string, d: string) {
    ',' !in piece && read(piece) == Some(Lower(d))
  }

  lemma PieceOf(d: string, lead: string)
    requires Accepted(d) && (lead == "" || lead == " ")
    ensures IsPiece(ReadPiece, lead + d, d)
  {
    var local, domain := AcceptedShape(d);
    SanitizeAccepted(d);
    CleanPieceOf(d, lead);
  }

  lemma CleanPieceOf(d: string, lead: string)
    requires lead == "" || lead == " "
    requires d != [] && NoSpace(d) && ',' !in d && SanitizeAddress(d) == Some(Lower(d))
    ensures IsPiece(ReadPiece, lead + d, d)
  {
    TrimOneSpace(d);
    assert "" + d == d;
    assert Trim(lead + d) == d;
  }

  lemma {:induction false} ReadJoined(read: string -> Option<string>, ds: seq<string>, lead: string)
    requires ds != [] && IsPiece(read, lead + ds[0], ds[0])
    requires forall i :: 0 <= i < |ds| ==> IsPiece(read, " " + ds[i], ds[i])
    ensures ReadAll(read, Split(lead + Join(ds, ", "), ",")) == Some(LowerAll(ds))
    decreases |ds|
  {
    var piece := lead + ds[0];
    if |ds| == 1 {
      SplitLast(piece);
      ReadOne(read, piece, []);
      assert [piece] + [] == [piece];
      assert LowerAll(ds[1..]) == [];
    } else {
      var tail := " " + Join(ds[1..], ", ");
      assert lead + Join(ds, ", ") == piece + "," + tail;
      SplitFirst(piece, tail);
      ReadJoined(read, ds[1..], " ");
      ReadOne(read, piece, Split(tail, ","));
    }
  }

  lemma AllPieces(ds: seq<string>)
    requires ds != [] && forall i :: 0 <= i < |ds| ==> Accepted(ds[i])
    ensures IsPiece(ReadPiece, ds[0], ds[0])
    ensures forall i :: 0 <= i < |ds| ==> IsPiece(ReadPiece, " " + ds[i], ds[i])
  {
    PieceOf(ds[0], "");
    assert "" + ds[0] == ds[0];
    forall i | 0 <= i < |ds|
      ensures IsPiece(ReadPiece, " " + ds[i], ds[i])
    {
      PieceOf(ds[i], " ");
    }
  }

  lemma ReadJoinedValue(read: string -> Option<string>, ds: seq<string>)
    requires ds != [] && IsPiece(read, ds[0], ds[0])
    requires forall i :: 0 <= i < |ds| ==> IsPiece(read, " " + ds[i], ds[i])
    ensures ReadAll(read, Split(Join(ds, ", "), ",")) == Some(LowerAll(ds))
  {
    NothingInFront(ds[0]);
    NothingInFront(Join(ds, ", "));
    ReadJoined(read, ds, "");
  }

  lemma NothingInFront(s: string)
    ensures "" + s == s
  {
  }

  // For destinations the forms accept, the joined value splits back into them, in
  // order and in lower case.
  lemma BccReadsBack(ds: seq<string>)
    requires ds != [] && forall i :: 0 <= i < |ds| ==> Accepted(ds[i])
    ensures ReadBcc(Join(ds, ", ")) == Some(LowerAll(ds))
  {
    AllPieces(ds);
    ReadJoinedValue(ReadPiece, ds);
  }
}

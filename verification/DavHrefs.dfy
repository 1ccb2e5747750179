// The paths under which the CalDAV and CardDAV servers publish objects: printing them,
// parsing a request path, and picking them out of a multiget request.
module DavHrefs {
  import opened Text
  import opened XmlEscape

  // The two services differ in these two names only.
  datatype Dav = Dav(root: string, collection: string)

  const CALDAV: Dav := Dav("caldav", "calendars")
  const CARDDAV: Dav := Dav("carddav", "addressbooks")

  datatype Resource = Principal | HomeSet | Collection(slug: string) | Object(slug: string, filename: string)

  function Base(dav: Dav, email: string): string {
    "/" + dav.root + "/" + email
  }

  function Prefix(dav: Dav, email: string, slug: string): string {
    Base(dav, email) + "/" + dav.collection + "/" + slug + "/"
  }

  function ObjectPath(dav: Dav, email: string, slug: string, filename: string): string {
    Prefix(dav, email, slug) + filename
  }

  // ---- Parsing a request path ----

  function NonEmpty(parts: seq<string>): seq<string> {
    if parts == [] then [] else (if parts[0] == [] then [] else [parts[0]]) + NonEmpty(parts[1..])
  }

  function ParseSegments(dav: Dav, parts: seq<string>): Resource {
    if |parts| == 1 && parts[0] == dav.collection then HomeSet
    else if |parts| == 2 && parts[0] == dav.collection then Collection(parts[1])
    else if |parts| == 3 && parts[0] == dav.collection then Object(parts[1], parts[2])
    else Principal
  }

  function ParseResource(dav: Dav, path: string, email: string): Resource {
    var base := Base(dav, Lower(email));
    if StartsWith(Lower(path), base + "/") then
      ParseSegments(dav, NonEmpty(Split(path[|base| + 1..], "/")))
    else Principal
  }

  predicate IsSegment(s: string) {
    s != [] && '/' !in s
  }

  lemma NoSlash(s: string)
    requires '/' !in s
    ensures forall j :: 0 <= j ==> !MatchAt(s, j, "/")
  {
    forall j | 0 <= j
      ensures !MatchAt(s, j, "/")
    {
      if j < |s| { assert s[j..j + 1][0] == s[j]; }
    }
  }

  lemma SplitSegment(s: string, tail: string)
    requires '/' !in s
    ensures Split(s + "/" + tail, "/") == [s] + Split(tail, "/")
  {
    NoSlash(s);
    FindAfter(s, "/", tail);
    var t := s + "/" + tail;
    assert t[..|s|] == s && t[|s| + 1..] == tail;
  }

  lemma {:induction false} SplitHasNoSlash(s: string)
    ensures forall k :: 0 <= k < |Split(s, "/")| ==> '/' !in Split(s, "/")[k]
    decreases |s|
  {
    match Find(s, "/")
    case None =>
      forall i | 0 <= i < |s|
        ensures s[i] != '/'
      {
        assert !MatchAt(s, i, "/");
        assert s[i..i + 1] == [s[i]];
      }
    case Some(i) =>
      forall j | 0 <= j < i
        ensures s[..i][j] != '/'
      {
        assert !MatchAt(s, j, "/");
        assert s[j..j + 1] == [s[j]];
      }
      SplitHasNoSlash(s[i + 1..]);
  }

  lemma {:induction false} NonEmptyAreSegments(parts: seq<string>)
    requires forall k :: 0 <= k < |parts| ==> '/' !in parts[k]
    ensures forall k :: 0 <= k < |NonEmpty(parts)| ==> IsSegment(NonEmpty(parts)[k])
  {
    if parts != [] {
      NonEmptyAreSegments(parts[1..]);
    }
  }

  lemma LowerPrefix(a: string, b: string, path: string)
    requires Lower(a) == b && |a| <= |path| && path[..|a|] == a
    ensures StartsWith(Lower(path), b)
  {
    assert Lower(path)[..|a|] == Lower(path[..|a|]);
  }

  lemma SplitObject(dav: Dav, slug: string, filename: string)
    requires IsSegment(dav.collection) && IsSegment(slug) && IsSegment(filename)
    ensures NonEmpty(Split(dav.collection + "/" + (slug + "/" + filename), "/")) == [dav.collection, slug, filename]
  {
    SplitSegment(dav.collection, slug + "/" + filename);
    SplitSegment(slug, filename);
    NoSlash(filename);
    assert Split(filename, "/") == [filename];
    assert Split(slug + "/" + filename, "/") == [slug, filename];
    NonEmptyThree(dav.collection, slug, filename);
  }

  lemma NonEmptyThree(a: string, b: string, c: string)
    requires a != [] && b != [] && c != []
    ensures NonEmpty([a] + [b, c]) == [a, b, c]
  {
    assert ([a] + [b, c])[1..] == [b, c] && [b, c][1..] == [c] && [c][1..] == [];
    assert NonEmpty([c]) == [c];
    assert NonEmpty([b, c]) == [b, c];
  }

  // Segments that come out of a path are never empty and hold no slash.
  lemma ParsedNamesAreSegments(dav: Dav, path: string, email: string)
    ensures var r := ParseResource(dav, path, email); r.Object? ==> IsSegment(r.slug) && IsSegment(r.filename)
  {
    var base := Base(dav, Lower(email));
    if StartsWith(Lower(path), base + "/") {
      var rest := path[|base| + 1..];
      SplitHasNoSlash(rest);
      NonEmptyAreSegments(Split(rest, "/"));
    }
  }

  // The path of an object parses back into its two names exactly when both are
  // non-empty and free of slashes, whatever the account.
  lemma PathParsesBackIff(dav: Dav, email: string, slug: string, filename: string)
    requires dav == CALDAV || dav == CARDDAV
    ensures ParseResource(dav, ObjectPath(dav, email, slug, filename), email) == Object(slug, filename)
       <==> IsSegment(slug) && IsSegment(filename)
  {
    ParsedNamesAreSegments(dav, ObjectPath(dav, email, slug, filename), email);
    if IsSegment(slug) && IsSegment(filename) {
      ParsesBack(dav, email, slug, filename);
    }
  }

  lemma ParsesBack(dav: Dav, email: string, slug: string, filename: string)
    requires dav == CALDAV || dav == CARDDAV
    requires IsSegment(slug) && IsSegment(filename)
    ensures ParseResource(dav, ObjectPath(dav, email, slug, filename), email) == Object(slug, filename)
  {
    var tail := dav.collection + "/" + (slug + "/" + filename);
    PathIs(dav, email, slug, filename);
    PathStarts(dav, email, Base(dav, email) + "/", tail);
    SplitObject(dav, slug, filename);
    ThreeSegments(dav, slug, filename);
  }

  lemma PathIs(dav: Dav, email: string, slug: string, filename: string)
    ensures ObjectPath(dav, email, slug, filename)
         == (Base(dav, email) + "/") + (dav.collection + "/" + (slug + "/" + filename))
  {
  }

  lemma ThreeSegments(dav: Dav, slug: string, filename: string)
    ensures ParseSegments(dav, [dav.collection, slug, filename]) == Object(slug, filename)
  {
  }

  lemma PathStarts(dav: Dav, email: string, a: string, tail: string)
    requires dav == CALDAV || dav == CARDDAV
    requires a == Base(dav, email) + "/"
    ensures var base := Base(dav, Lower(email));
      StartsWith(Lower(a + tail), base + "/") && (a + tail)[|base| + 1..] == tail
  {
    LowerBase(dav, email);
    assert (a + tail)[..|a|] == a && (a + tail)[|a|..] == tail;
    LowerPrefix(a, Base(dav, Lower(email)) + "/", a + tail);
  }

  lemma LowerBase(dav: Dav, email: string)
    requires dav == CALDAV || dav == CARDDAV
    ensures Lower(Base(dav, email) + "/") == Base(dav, Lower(email)) + "/"
  {
    assert Lower(dav.root) == dav.root;
    var a, b := Lower(Base(dav, email) + "/"), Base(dav, Lower(email)) + "/";
    assert |a| == |b|;
    forall i | 0 <= i < |a|
      ensures a[i] == b[i]
    {
      if 1 <= i < 1 + |dav.root| {
        assert a[i] == Lower(dav.root)[i - 1];
      }
    }
  }

  // ---- Multiget requests ----

  const OPEN: string := "<D:href>"
  const CLOSE: string := "</D:href>"

  function TrimSlashes(s: string): string {
    if s != [] && s[|s| - 1] == '/' then TrimSlashes(s[..|s| - 1]) else s
  }

  // What each href between its tags contributes, in document order.
  function Filenames(name: string -> seq<string>, body: string): seq<string>
    decreases |body|
  {
    match Find(body, OPEN)
    case None => []
    case Some(start) =>
      var rest := body[start + |OPEN|..];
      match Find(rest, CLOSE)
      case None => []
      case Some(end) => name(rest[..end]) + Filenames(name, rest[end..])
  }

  // The name under the prefix, if the href is under it.
  function Named(prefix: string, href: string): seq<string> {
    var h := Trim(href);
    if StartsWith(h, prefix) then [TrimSlashes(h[|prefix|..])] else []
  }

  function Namer(prefix: string): string -> seq<string> {
    (href: string) => Named(prefix, href)
  }

  method ExtractHrefs(dav: Dav, body: string, email: string, slug: string) returns (filenames: seq<string>)
    ensures filenames == Filenames(Namer(Prefix(dav, email, slug)), body)
  {
    filenames := Scan(Namer(Prefix(dav, email, slug)), body);
  }

  method Scan(name: string -> seq<string>, body: string) returns (filenames: seq<string>)
    ensures filenames == Filenames(name, body)
  {
    filenames := [];
    var remaining := body;
    while true
      invariant filenames + Filenames(name, remaining) == Filenames(name, body)
      decreases |remaining|
    {
      var start := Find(remaining, OPEN);
      if start.None? {
        return;
      }
      var rest := remaining[start.value + |OPEN|..];
      var end := Find(rest, CLOSE);
      if end.None? {
        return;
      }
      filenames := filenames + name(rest[..end.value]);
      remaining := rest[end.value..];
    }
  }

  // A request body: each href between its tags, with other text around them.
  function Body(hrefs: seq<string>, gaps: seq<string>, tail: string): string
    requires |gaps| == |hrefs|
  {
    if hrefs == [] then tail
    else gaps[0] + OPEN + hrefs[0] + CLOSE + Body(hrefs[1..], gaps[1..], tail)
  }

  ghost predicate Free(s: string, pat: string) {
    forall j :: 0 <= j ==> !MatchAt(s, j, pat)
  }

  lemma FreeAfterClose(gap: string)
    requires Free(gap, OPEN)
    ensures Free(CLOSE + gap, OPEN)
  {
    var s := CLOSE + gap;
    forall j | 0 <= j
      ensures !MatchAt(s, j, OPEN)
    {
      if |CLOSE| <= j <= |s| - |OPEN| {
        assert s[j..j + |OPEN|] == gap[j - |CLOSE|..j - |CLOSE| + |OPEN|];
        assert !MatchAt(gap, j - |CLOSE|, OPEN);
      } else if j <= |s| - |OPEN| {
        var cut := s[j..j + |OPEN|];
        assert cut[0] == s[j] == CLOSE[j];
        assert j == 0 ==> cut[1] == s[1] == CLOSE[1] == '/';
        assert OPEN[0] == '<' && OPEN[1] == 'D';
        assert j > 0 ==> CLOSE[j] != '<';
      }
    }
  }

  lemma ReadOneHref(name: string -> seq<string>, gap: string, href: string, tail: string)
    requires Free(gap, OPEN) && Free(href, CLOSE)
    ensures Filenames(name, gap + OPEN + href + CLOSE + tail) == name(href) + Filenames(name, CLOSE + tail)
  {
    var after := href + CLOSE + tail;
    FindAfter(gap, OPEN, after);
    FindAfter(href, CLOSE, tail);
    var body := gap + OPEN + href + CLOSE + tail;
    assert body == gap + OPEN + after;
    assert body[|gap| + |OPEN|..] == after;
    assert after[..|href|] == href && after[|href|..] == CLOSE + tail;
  }

  function NamedAll(name: string -> seq<string>, hrefs: seq<string>): seq<string> {
    if hrefs == [] then [] else name(hrefs[0]) + NamedAll(name, hrefs[1..])
  }

  ghost predicate Readable(hrefs: seq<string>, gaps: seq<string>, tail: string) {
    && |gaps| == |hrefs| && Free(tail, OPEN)
    && forall i :: 0 <= i < |hrefs| ==> Free(gaps[i], OPEN) && Free(hrefs[i], CLOSE)
  }

  lemma {:induction false} ReadBody(name: string -> seq<string>, hrefs: seq<string>, gaps: seq<string>,
                                    tail: string, lead: string)
    requires Readable(hrefs, gaps, tail) && (lead == "" || lead == CLOSE)
    ensures Filenames(name, lead + Body(hrefs, gaps, tail)) == NamedAll(name, hrefs)
    decreases |hrefs|
  {
    if hrefs == [] {
      FreeAfter(lead, tail);
    } else {
      var rest := Body(hrefs[1..], gaps[1..], tail);
      FreeAfter(lead, gaps[0]);
      ReadOneHref(name, lead + gaps[0], hrefs[0], rest);
      Regroup(lead, gaps[0], hrefs[0], rest);
      assert Readable(hrefs[1..], gaps[1..], tail);
      ReadBody(name, hrefs[1..], gaps[1..], tail, CLOSE);
    }
  }

  lemma FreeAfter(lead: string, s: string)
    requires Free(s, OPEN) && (lead == "" || lead == CLOSE)
    ensures Free(lead + s, OPEN)
  {
    if lead == "" {
      assert lead + s == s;
    } else {
      FreeAfterClose(s);
    }
  }

  lemma Regroup(lead: string, gap: string, href: string, rest: string)
    ensures lead + (gap + OPEN + href + CLOSE + rest) == (lead + gap) + OPEN + href + CLOSE + rest
  {
  }

  // ---- The hrefs as the servers print them ----

  // The path of an object, escaped for XML.
  function PrintedHref(dav: Dav, email: string, slug: string, filename: string): string {
    EscapeChain(ObjectPath(dav, email, slug, filename))
  }

  function PrintedAll(dav: Dav, email: string, slug: string, filenames: seq<string>): seq<string> {
    if filenames == [] then []
    else [PrintedHref(dav, email, slug, filenames[0])] + PrintedAll(dav, email, slug, filenames[1..])
  }

  // What the reader makes of a printed name: it is trimmed, and stays escaped.
  function ReadBack(f: string): string { Escape(TrimEnd(f)) }

  function ReadBackAll(filenames: seq<string>): seq<string> {
    if filenames == [] then [] else [ReadBack(filenames[0])] + ReadBackAll(filenames[1..])
  }

  lemma EscapeSnoc(f: string, c: char)
    ensures Escape(f + [c]) == Escape(f) + EscapeChar(c)
  {
    EscapeAppend(f, [c]);
    EscapeOne(c);
  }

  lemma EntityIsPlain(c: char)
    ensures var e := EscapeChar(c); e != [] && ('/' in e ==> c == '/')
    ensures var e := EscapeChar(c); if IsSpace(c) then e == [c] else !IsSpace(e[|e| - 1])
  {
  }

  lemma TrimEndSnoc(s: string, c: char)
    ensures TrimEnd(s + [c]) == if IsSpace(c) then TrimEnd(s) else s + [c]
  {
    assert (s + [c])[..|s|] == s;
  }

  // Trimming and escaping commute.
  lemma {:induction false} TrimEndEscape(f: string)
    ensures TrimEnd(Escape(f)) == Escape(TrimEnd(f))
  {
    if f != [] {
      var init, c := f[..|f| - 1], f[|f| - 1];
      assert f == init + [c];
      EscapeSnoc(init, c);
      EntityIsPlain(c);
      TrimEndSnoc(init, c);
      if IsSpace(c) {
        TrimEndEscape(init);
        TrimEndSnoc(Escape(init), c);
      } else {
        TrimmedAlready(Escape(f));
      }
    }
  }

  lemma TrimmedAlready(s: string)
    requires s != [] && !IsSpace(s[|s| - 1])
    ensures TrimEnd(s) == s
  {
  }

  // Only the end of a path under the prefix is trimmed.
  lemma TrimUnder(prefix: string, e: string)
    requires prefix != [] && !IsSpace(prefix[0]) && !IsSpace(prefix[|prefix| - 1])
    ensures Trim(prefix + e) == prefix + TrimEnd(e)
  {
    assert TrimStart(prefix + e) == prefix + e;
    TrimEndUnder(prefix, e);
  }

  lemma {:induction false} TrimEndUnder(prefix: string, e: string)
    requires prefix != [] && !IsSpace(prefix[|prefix| - 1])
    ensures TrimEnd(prefix + e) == prefix + TrimEnd(e)
    decreases |e|
  {
    if e == [] {
      assert prefix + e == prefix;
      TrimmedAlready(prefix);
    } else {
      var init, c := e[..|e| - 1], e[|e| - 1];
      assert e == init + [c] && (prefix + init) + [c] == prefix + e;
      TrimEndSnoc(prefix + init, c);
      TrimEndSnoc(init, c);
      TrimEndUnder(prefix, init);
    }
  }

  lemma {:induction false} EscapeHasNoSlash(f: string)
    requires '/' !in f
    ensures '/' !in Escape(f)
  {
    if f != [] {
      EscapeHasNoSlash(f[1..]);
      EntityIsPlain(f[0]);
    }
  }

  lemma PrefixHasNoSpecials(dav: Dav, email: string, slug: string)
    requires dav == CALDAV || dav == CARDDAV
    requires NoSpecials(email) && NoSpecials(slug)
    ensures NoSpecials(Prefix(dav, email, slug))
  {
    ServiceNames();
    NoSpecialsAppend("/", dav.root);
    NoSpecialsAppend("/" + dav.root, "/");
    NoSpecialsAppend("/" + dav.root + "/", email);
    var base := Base(dav, email);
    NoSpecialsAppend(base, "/");
    NoSpecialsAppend(base + "/", dav.collection);
    NoSpecialsAppend(base + "/" + dav.collection, "/");
    NoSpecialsAppend(base + "/" + dav.collection + "/", slug);
    NoSpecialsAppend(base + "/" + dav.collection + "/" + slug, "/");
  }

  lemma ServiceNames()
    ensures NoSpecials("caldav") && NoSpecials("calendars")
    ensures NoSpecials("carddav") && NoSpecials("addressbooks")
    ensures NoSpecials("/")
  {
  }

  lemma NoSpecialsAppend(a: string, b: string)
    requires NoSpecials(a) && NoSpecials(b)
    ensures NoSpecials(a + b)
  {
  }

  lemma PrintedParts(dav: Dav, email: string, slug: string, filename: string)
    requires dav == CALDAV || dav == CARDDAV
    requires NoSpecials(email) && NoSpecials(slug)
    ensures PrintedHref(dav, email, slug, filename) == Prefix(dav, email, slug) + Escape(filename)
  {
    var prefix := Prefix(dav, email, slug);
    ChainIsOnePass(prefix + filename);
    EscapeAppend(prefix, filename);
    PrefixHasNoSpecials(dav, email, slug);
    EscapeFixedIff(prefix);
  }

  lemma NameOf(prefix: string, name: string)
    requires prefix != [] && prefix[0] == '/' && prefix[|prefix| - 1] == '/' && '/' !in name
    ensures Named(prefix, prefix + name) == [TrimEnd(name)]
  {
    TrimUnder(prefix, name);
    var h := prefix + TrimEnd(name);
    assert h[..|prefix|] == prefix && h[|prefix|..] == TrimEnd(name);
    assert TrimSlashes(TrimEnd(name)) == TrimEnd(name);
  }

  lemma PrintedIsFree(dav: Dav, email: string, slug: string, filename: string)
    ensures Free(PrintedHref(dav, email, slug, filename), CLOSE)
  {
    var h := PrintedHref(dav, email, slug, filename);
    ChainIsOnePass(ObjectPath(dav, email, slug, filename));
    EscapedIsSafe(ObjectPath(dav, email, slug, filename));
    assert '<' !in h;
    forall j | 0 <= j
      ensures !MatchAt(h, j, CLOSE)
    {
      if j + |CLOSE| <= |h| { assert h[j..j + |CLOSE|][0] == h[j]; }
    }
  }

  lemma PrintedName(dav: Dav, email: string, slug: string, f: string)
    requires dav == CALDAV || dav == CARDDAV
    requires NoSpecials(email) && NoSpecials(slug) && '/' !in f
    ensures Namer(Prefix(dav, email, slug))(PrintedHref(dav, email, slug, f)) == [ReadBack(f)]
    ensures Free(PrintedHref(dav, email, slug, f), CLOSE)
  {
    PrintedIsFree(dav, email, slug, f);
    PrintedParts(dav, email, slug, f);
    EscapeHasNoSlash(f);
    TrimEndEscape(f);
    NameOf(Prefix(dav, email, slug), Escape(f));
  }

  lemma {:induction false} NamedOneByOne(name: string -> seq<string>, hrefs: seq<string>, names: seq<string>)
    requires |hrefs| == |names| && forall i :: 0 <= i < |hrefs| ==> name(hrefs[i]) == [names[i]]
    ensures NamedAll(name, hrefs) == names
  {
    if hrefs != [] {
      NamedOneByOne(name, hrefs[1..], names[1..]);
      assert names == [names[0]] + names[1..];
    }
  }

  lemma {:induction false} PrintedAt(dav: Dav, email: string, slug: string, filenames: seq<string>)
    ensures var all := PrintedAll(dav, email, slug, filenames);
      |all| == |filenames| && forall i :: 0 <= i < |all| ==> all[i] == PrintedHref(dav, email, slug, filenames[i])
  {
    if filenames != [] {
      PrintedAt(dav, email, slug, filenames[1..]);
    }
  }

  lemma {:induction false} ReadBackAt(filenames: seq<string>)
    ensures var all := ReadBackAll(filenames);
      |all| == |filenames| && forall i :: 0 <= i < |all| ==> all[i] == ReadBack(filenames[i])
  {
    if filenames != [] {
      ReadBackAt(filenames[1..]);
    }
  }

  lemma PrintedNames(dav: Dav, email: string, slug: string, filenames: seq<string>)
    requires dav == CALDAV || dav == CARDDAV
    requires NoSpecials(email) && NoSpecials(slug)
    requires forall i :: 0 <= i < |filenames| ==> '/' !in filenames[i]
    ensures |PrintedAll(dav, email, slug, filenames)| == |filenames|
    ensures NamedAll(Namer(Prefix(dav, email, slug)), PrintedAll(dav, email, slug, filenames)) == ReadBackAll(filenames)
    ensures forall i :: 0 <= i < |filenames| ==> Free(PrintedAll(dav, email, slug, filenames)[i], CLOSE)
  {
    var name, hrefs := Namer(Prefix(dav, email, slug)), PrintedAll(dav, email, slug, filenames);
    PrintedAt(dav, email, slug, filenames);
    ReadBackAt(filenames);
    forall i | 0 <= i < |filenames|
      ensures name(hrefs[i]) == [ReadBackAll(filenames)[i]] && Free(hrefs[i], CLOSE)
    {
      PrintedName(dav, email, slug, filenames[i]);
    }
    NamedOneByOne(name, hrefs, ReadBackAll(filenames));
  }

  // A multiget request made of printed hrefs yields the names in document order,
  // escaped and without white space at their end: the reader trims each href and does not
  // undo the escaping.
  lemma MultigetReadsEscapedNames(dav: Dav, email: string, slug: string, filenames: seq<string>,
                                  gaps: seq<string>, tail: string)
    requires dav == CALDAV || dav == CARDDAV
    requires NoSpecials(email) && NoSpecials(slug)
    requires forall i :: 0 <= i < |filenames| ==> '/' !in filenames[i]
    requires |gaps| == |filenames| && Free(tail, OPEN) && forall i :: 0 <= i < |gaps| ==> Free(gaps[i], OPEN)
    ensures |PrintedAll(dav, email, slug, filenames)| == |filenames|
    ensures Filenames(Namer(Prefix(dav, email, slug)), Body(PrintedAll(dav, email, slug, filenames), gaps, tail))
         == ReadBackAll(filenames)
  {
    var hrefs, name := PrintedAll(dav, email, slug, filenames), Namer(Prefix(dav, email, slug));
    PrintedNames(dav, email, slug, filenames);
    ReadBody(name, hrefs, gaps, tail, "");
    assert "" + Body(hrefs, gaps, tail) == Body(hrefs, gaps, tail);
  }

  // A name that comes back as it is.
  predicate Survives(f: string) {
    NoSpecials(f) && (f != [] ==> !IsSpace(f[|f| - 1]))
  }

  lemma ReadBackIff(f: string)
    ensures ReadBack(f) == f <==> Survives(f)
  {
    var t := TrimEnd(f);
    TrimEndEscape(f);
    if Survives(f) {
      if f != [] { TrimmedAlready(f); }
      EscapeFixedIff(f);
    } else if ReadBack(f) == f {
      assert f != [] ==> !IsSpace(f[|f| - 1]);
      if f != [] { TrimmedAlready(f); }
      EscapeFixedIff(f);
    }
  }

  // So it yields the names themselves exactly when none needs escaping or ends in white
  // space.
  lemma {:induction false} NamesSurviveIff(filenames: seq<string>)
    ensures ReadBackAll(filenames) == filenames <==> forall i :: 0 <= i < |filenames| ==> Survives(filenames[i])
  {
    if filenames != [] {
      var rest := filenames[1..];
      NamesSurviveIff(rest);
      ReadBackIff(filenames[0]);
      assert filenames == [filenames[0]] + rest;
      assert ReadBackAll(filenames)[1..] == ReadBackAll(rest);
      assert forall i :: 0 <= i < |rest| ==> rest[i] == filenames[i + 1];
      assert forall i :: 1 <= i < |filenames| ==> filenames[i] == rest[i - 1];
    }
  }

  // One name that comes back as another.
  lemma AmpersandIsNotReadBack()
    ensures ReadBackAll(["a&b"]) == ["a&amp;b"]
  {
    EscapeOne('a');
    EscapeOne('&');
    EscapeOne('b');
    EscapeAppend("a", "&" + "b");
    EscapeAppend("&", "b");
    assert "a" + ("&" + "b") == "a&b";
    assert "a" + ("&amp;" + "b") == "a&amp;b";
    assert ["a&b"][1..] == [];
    TrimmedAlready("a&b");
  }

  lemma EscapeOne(c: char)
    ensures Escape([c]) == EscapeChar(c)
  {
    assert [c][1..] == "" && EscapeChar(c) + "" == EscapeChar(c);
  }
}

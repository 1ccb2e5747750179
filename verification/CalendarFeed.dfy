// The iCalendar feed: the objects of a calendar, each stripped of its own wrapper, put
// into one VCALENDAR.
module CalendarFeed {
  import opened Text
  import opened Folding
  import opened Nesting

  const CALENDAR: string := "VCALENDAR"

  // ---- Lines, as the feed builder tells them apart ----

  function Norm(line: string): string {
    Upper(Trim(line))
  }

  // The name after BEGIN: or END:, in upper case; Header is a VERSION or PRODID line.
  function Classify(line: string): Kind {
    KindOf(Norm(line))
  }

  function KindOf(u: string): Kind {
    if StartsWith(u, "BEGIN:") then Begin(u[6..])
    else if StartsWith(u, "END:") then End(u[4..])
    else if StartsWith(u, "VERSION:") || StartsWith(u, "PRODID:") then Header
    else Plain
  }

  lemma KindOfWrapper(u: string)
    ensures KindOf(u) == Begin(CALENDAR) <==> u == "BEGIN:VCALENDAR"
    ensures KindOf(u) == End(CALENDAR) <==> u == "END:VCALENDAR"
    ensures KindOf(u).Header? <==> StartsWith(u, "VERSION:") || StartsWith(u, "PRODID:")
  {
    assert "BEGIN:VCALENDAR"[..6] == "BEGIN:" && "BEGIN:VCALENDAR"[6..] == CALENDAR;
    assert "END:VCALENDAR"[..4] == "END:" && "END:VCALENDAR"[4..] == CALENDAR;
    Disagree(u, "BEGIN:", "END:");
    Disagree(u, "BEGIN:", "VERSION:");
    Disagree(u, "BEGIN:", "PRODID:");
    Disagree(u, "END:", "VERSION:");
    Disagree(u, "END:", "PRODID:");
    if StartsWith(u, "BEGIN:") { assert u == u[..6] + u[6..]; }
    if StartsWith(u, "END:") { assert u == u[..4] + u[4..]; }
  }

  lemma Disagree(s: string, p: string, q: string)
    requires p != [] && q != [] && p[0] != q[0]
    ensures !(StartsWith(s, p) && StartsWith(s, q))
  {
    if |p| <= |s| && |q| <= |s| {
      assert s[..|p|][0] == s[0] == s[..|q|][0];
    }
  }

  // ---- Stripping one object ----

  // The lines between the wrapper lines, without the headers.
  function Inner(kind: string -> Kind, lines: seq<string>, inside: bool): seq<string> {
    if lines == [] then []
    else
      var k, rest := kind(lines[0]), lines[1..];
      if k == Begin(CALENDAR) then Inner(kind, rest, true)
      else if k == End(CALENDAR) then Inner(kind, rest, false)
      else (if inside && !k.Header? then [lines[0]] else []) + Inner(kind, rest, inside)
  }

  // An object without inner lines still contributes one empty line.
  function BodyLines(ics: string): seq<string> {
    var inner := Inner(Classify, Lines(ics), false);
    if inner == [] then [""] else inner
  }

  lemma {:induction false} JoinIsCrlfText(lines: seq<string>)
    requires lines != []
    ensures Join(lines, "\r\n") + "\r\n" == CrlfText(lines)
  {
    if |lines| > 1 {
      JoinIsCrlfText(lines[1..]);
      assert Join(lines, "\r\n") + "\r\n" == lines[0] + "\r\n" + (Join(lines[1..], "\r\n") + "\r\n");
    } else {
      assert CrlfText(lines[1..]) == "";
      assert lines[0] + "\r\n" + "" == lines[0] + "\r\n";
    }
  }

  method StripVcalendarWrapper(ics: string) returns (r: string)
    ensures r == CrlfText(BodyLines(ics))
  {
    var lines := CollectInner(Classify, Lines(ics));
    r := Join(lines, "\r\n") + "\r\n";
    if lines == [] {
      CrlfOne("");
    } else {
      JoinIsCrlfText(lines);
    }
  }

  method CollectInner(kind: string -> Kind, all: seq<string>) returns (lines: seq<string>)
    ensures lines == Inner(kind, all, false)
  {
    lines := [];
    var inside := false;
    for i := 0 to |all|
      invariant lines + Inner(kind, all[i..], inside) == Inner(kind, all, false)
    {
      InnerStep(kind, all, i, inside);
      var k := kind(all[i]);
      if k == Begin(CALENDAR) {
        inside := true;
        continue;
      }
      if k == End(CALENDAR) {
        inside := false;
        continue;
      }
      if inside {
        if k.Header? {
          continue;
        }
        lines := lines + [all[i]];
      }
    }
  }

  lemma InnerStep(kind: string -> Kind, all: seq<string>, i: nat, inside: bool)
    requires i < |all|
    ensures var k := kind(all[i]);
      Inner(kind, all[i..], inside)
      == if k == Begin(CALENDAR) then Inner(kind, all[i + 1..], true)
         else if k == End(CALENDAR) then Inner(kind, all[i + 1..], false)
         else (if inside && !k.Header? then [all[i]] else []) + Inner(kind, all[i + 1..], inside)
  {
    assert all[i..][0] == all[i] && all[i..][1..] == all[i + 1..];
  }

  // ---- The feed ----

  const PREAMBLE: seq<string> := ["VERSION:2.0", "PRODID:-//Mailserver CalDAV//EN"]

  function NameLine(name: string): string {
    "X-WR-CALNAME:" + name
  }

  function EachBody(objects: seq<string>): seq<seq<string>> {
    seq(|objects|, i requires 0 <= i < |objects| => BodyLines(objects[i]))
  }

  function Bodies(objects: seq<string>): seq<string> {
    Flatten(EachBody(objects))
  }

  lemma BodiesSnoc(objects: seq<string>, i: nat)
    requires i < |objects|
    ensures Bodies(objects[..i + 1]) == Bodies(objects[..i]) + BodyLines(objects[i])
  {
    EachBodySnoc(objects, i);
    FlattenAppend(EachBody(objects[..i]), [BodyLines(objects[i])]);
    FlattenOne(BodyLines(objects[i]));
  }

  lemma EachBodySnoc(objects: seq<string>, i: nat)
    requires i < |objects|
    ensures EachBody(objects[..i + 1]) == EachBody(objects[..i]) + [BodyLines(objects[i])]
  {
    IsSnoc(EachBody(objects[..i + 1]), EachBody(objects[..i]), BodyLines(objects[i]));
  }

  lemma IsSnoc<T>(all: seq<T>, init: seq<T>, last: T)
    requires |all| == |init| + 1 && all[|init|] == last && forall k :: 0 <= k < |init| ==> all[k] == init[k]
    ensures all == init + [last]
  {
  }

  function FeedInner(name: string, objects: seq<string>): seq<string> {
    PREAMBLE + [NameLine(name)] + Bodies(objects)
  }

  function FeedLines(name: string, objects: seq<string>): seq<string> {
    ["BEGIN:VCALENDAR"] + FeedInner(name, objects) + ["END:VCALENDAR"]
  }

  lemma CrlfOne(line: string)
    ensures CrlfText([line]) == line + "\r\n"
  {
    assert [line][1..] == [];
    assert line + "\r\n" + "" == line + "\r\n";
  }

  function Head(name: string): seq<string> {
    ["BEGIN:VCALENDAR"] + PREAMBLE + [NameLine(name)]
  }

  method BuildIcalendarFeed(name: string, objects: seq<string>) returns (ics: string)
    ensures ics == CrlfText(FeedLines(name, objects))
  {
    ics := FeedHead(name);
    assert Head(name) + Bodies(objects[..0]) == Head(name);
    for i := 0 to |objects|
      invariant ics == CrlfText(Head(name) + Bodies(objects[..i]))
    {
      var inner := StripVcalendarWrapper(objects[i]);
      BodiesStep(Head(name), objects, i);
      ics := ics + inner;
    }
    assert objects[..|objects|] == objects;
    FeedEnd(name, objects);
    ics := ics + "END:VCALENDAR\r\n";
  }

  lemma BodiesStep(head: seq<string>, objects: seq<string>, i: nat)
    requires i < |objects|
    ensures CrlfText(head + Bodies(objects[..i + 1]))
         == CrlfText(head + Bodies(objects[..i])) + CrlfText(BodyLines(objects[i]))
  {
    BodiesSnoc(objects, i);
    Append3(head, Bodies(objects[..i]), BodyLines(objects[i]));
  }

  lemma Append3(a: seq<string>, b: seq<string>, c: seq<string>)
    ensures CrlfText(a + (b + c)) == CrlfText(a + b) + CrlfText(c)
  {
    CrlfTextAppend(a + b, c);
    assert a + (b + c) == (a + b) + c;
  }

  lemma FeedEnd(name: string, objects: seq<string>)
    ensures CrlfText(FeedLines(name, objects)) == CrlfText(Head(name) + Bodies(objects)) + "END:VCALENDAR\r\n"
  {
    Append3(Head(name), Bodies(objects), ["END:VCALENDAR"]);
    CrlfOne("END:VCALENDAR");
    RegroupFeed(PREAMBLE + [NameLine(name)], Bodies(objects));
    assert Head(name) == ["BEGIN:VCALENDAR"] + (PREAMBLE + [NameLine(name)]);
  }

  lemma RegroupFeed(p: seq<string>, b: seq<string>)
    ensures ["BEGIN:VCALENDAR"] + (p + b) + ["END:VCALENDAR"] == (["BEGIN:VCALENDAR"] + p) + (b + ["END:VCALENDAR"])
  {
  }

  method FeedHead(name: string) returns (ics: string)
    ensures ics == CrlfText(Head(name))
  {
    ics := "BEGIN:VCALENDAR" + "\r\n";
    ics := ics + ("VERSION:2.0" + "\r\n");
    ics := ics + ("PRODID:-//Mailserver CalDAV//EN" + "\r\n");
    ics := ics + (NameLine(name) + "\r\n");
    FourLines("BEGIN:VCALENDAR", "VERSION:2.0", "PRODID:-//Mailserver CalDAV//EN", NameLine(name));
  }

  lemma FourLines(a: string, b: string, c: string, d: string)
    ensures CrlfText([a] + [b, c] + [d]) == ((a + "\r\n") + (b + "\r\n")) + (c + "\r\n") + (d + "\r\n")
  {
    CrlfOne(a);
    CrlfMore([a], b);
    CrlfMore([a] + [b], c);
    CrlfMore([a] + [b] + [c], d);
    assert [a] + [b] + [c] + [d] == [a] + [b, c] + [d];
  }

  lemma CrlfMore(done: seq<string>, line: string)
    ensures CrlfText(done + [line]) == CrlfText(done) + (line + "\r\n")
  {
    CrlfTextAppend(done, [line]);
    CrlfOne(line);
  }

  // ---- What lines the feed has ----

  lemma {:induction false} InnerLines(kind: string -> Kind, lines: seq<string>, inside: bool)
    ensures forall k :: 0 <= k < |Inner(kind, lines, inside)| ==>
              var l := Inner(kind, lines, inside)[k];
              l in lines && kind(l) != Begin(CALENDAR) && kind(l) != End(CALENDAR) && !kind(l).Header?
  {
    if lines != [] {
      InnerLines(kind, lines[1..], true);
      InnerLines(kind, lines[1..], false);
    }
  }

  ghost predicate OrdinaryLine(kind: string -> Kind, line: string) {
    '\n' !in line && kind(line) != Begin(CALENDAR) && kind(line) != End(CALENDAR)
  }

  ghost predicate Ordinary(kind: string -> Kind, lines: seq<string>) {
    forall k :: 0 <= k < |lines| ==> OrdinaryLine(kind, lines[k])
  }

  lemma InnerOrdinary(kind: string -> Kind, lines: seq<string>)
    requires forall k :: 0 <= k < |lines| ==> '\n' !in lines[k]
    ensures Ordinary(kind, Inner(kind, lines, false))
  {
    InnerLines(kind, lines, false);
  }

  lemma EmptyLineIsPlain()
    ensures Classify("") == Plain
  {
    assert Norm("") == "";
  }

  lemma BodyLinesOrdinary(ics: string)
    ensures Ordinary(Classify, BodyLines(ics))
  {
    InnerOrdinary(Classify, Lines(ics));
    EmptyLineIsPlain();
  }

  lemma {:induction false} AllOrdinary(kind: string -> Kind, parts: seq<seq<string>>)
    requires forall i :: 0 <= i < |parts| ==> Ordinary(kind, parts[i])
    ensures Ordinary(kind, Flatten(parts))
  {
    if parts != [] {
      assert forall i :: 0 <= i < |parts[1..]| ==> parts[1..][i] == parts[i + 1];
      AllOrdinary(kind, parts[1..]);
      OrdinaryAppend(kind, parts[0], Flatten(parts[1..]));
    }
  }

  lemma BodiesOrdinary(objects: seq<string>)
    ensures Ordinary(Classify, Bodies(objects))
  {
    forall i | 0 <= i < |objects|
      ensures Ordinary(Classify, BodyLines(objects[i]))
    {
      BodyLinesOrdinary(objects[i]);
    }
    AllOrdinary(Classify, EachBody(objects));
  }

  lemma OrdinaryAppend(kind: string -> Kind, a: seq<string>, b: seq<string>)
    requires Ordinary(kind, a) && Ordinary(kind, b)
    ensures Ordinary(kind, a + b)
  {
  }

  // A line that begins with one of these letters neither begins nor ends anything.
  lemma NoWrapper(line: string)
    requires line != [] && line[0] in "VPX"
    ensures !Classify(line).Begin? && !Classify(line).End?
  {
    NormKeepsHead(line);
    Starts(Norm(line), "BEGIN:");
    Starts(Norm(line), "END:");
  }

  lemma NormKeepsHead(line: string)
    requires line != [] && !IsSpace(line[0])
    ensures Norm(line) != [] && Norm(line)[0] == UpperChar(line[0])
  {
    TrimKeepsHead(line);
  }

  lemma Starts(u: string, p: string)
    requires u != [] && p != []
    ensures StartsWith(u, p) ==> u[0] == p[0]
  {
    if |p| <= |u| { assert u[..|p|][0] == u[0]; }
  }

  lemma TrimKeepsHead(line: string)
    requires line != [] && !IsSpace(line[0])
    ensures Trim(line) != [] && Trim(line)[0] == line[0]
  {
    assert TrimStart(line) == line;
  }

  lemma HeaderLinePlain(line: string)
    requires line != [] && line[0] in "VPX" && '\n' !in line
    ensures OrdinaryLine(Classify, line)
  {
    NoWrapper(line);
  }

  lemma OneHeaderLine(line: string)
    requires line != [] && line[0] in "VPX" && '\n' !in line
    ensures Ordinary(Classify, [line])
  {
    HeaderLinePlain(line);
  }

  lemma PreambleOrdinary(name: string)
    requires '\n' !in name
    ensures Ordinary(Classify, PREAMBLE + [NameLine(name)])
  {
    var version, product := "VERSION:2.0", "PRODID:-//Mailserver CalDAV//EN";
    OneHeaderLine(version);
    OneHeaderLine(product);
    OneHeaderLine(NameLine(name));
    OrdinaryAppend(Classify, [version], [product]);
    assert [version] + [product] == PREAMBLE;
    OrdinaryAppend(Classify, PREAMBLE, [NameLine(name)]);
  }

  lemma FeedInnerOrdinary(name: string, objects: seq<string>)
    requires '\n' !in name
    ensures Ordinary(Classify, FeedInner(name, objects))
  {
    PreambleOrdinary(name);
    BodiesOrdinary(objects);
    OrdinaryAppend(Classify, PREAMBLE + [NameLine(name)], Bodies(objects));
  }

  // The text of the feed reads back as its lines, of which the first alone begins a
  // calendar and the last alone ends one.
  lemma OneWrapper(name: string, objects: seq<string>)
    requires '\n' !in name
    ensures Lines(CrlfText(FeedLines(name, objects))) == FeedLines(name, objects)
    ensures WrappedOnce(Classify, FeedLines(name, objects))
  {
    FeedInnerOrdinary(name, objects);
    BeginLine();
    EndLine();
    Wrapped(Classify, FeedInner(name, objects));
  }

  ghost predicate WrappedOnce(kind: string -> Kind, ls: seq<string>) {
    && (forall k :: 0 <= k < |ls| ==> (kind(ls[k]) == Begin(CALENDAR) <==> k == 0))
    && (forall k :: 0 <= k < |ls| ==> (kind(ls[k]) == End(CALENDAR) <==> k == |ls| - 1))
  }

  lemma NormId(u: string)
    requires u != [] && !IsSpace(u[0]) && !IsSpace(u[|u| - 1])
    requires forall i :: 0 <= i < |u| ==> UpperChar(u[i]) == u[i]
    ensures Classify(u) == KindOf(u)
  {
    TrimId(u);
    assert Upper(u) == u;
  }

  lemma BeginLine()
    ensures Classify("BEGIN:VCALENDAR") == Begin(CALENDAR)
  {
    NormId("BEGIN:VCALENDAR");
    KindOfWrapper("BEGIN:VCALENDAR");
  }

  lemma EndLine()
    ensures Classify("END:VCALENDAR") == End(CALENDAR)
  {
    NormId("END:VCALENDAR");
    KindOfWrapper("END:VCALENDAR");
  }

  lemma Wrapped(kind: string -> Kind, inner: seq<string>)
    requires kind("BEGIN:VCALENDAR") == Begin(CALENDAR) && kind("END:VCALENDAR") == End(CALENDAR)
    requires Ordinary(kind, inner)
    ensures var fl := ["BEGIN:VCALENDAR"] + inner + ["END:VCALENDAR"];
      Lines(CrlfText(fl)) == fl && WrappedOnce(kind, fl)
  {
    var fl := ["BEGIN:VCALENDAR"] + inner + ["END:VCALENDAR"];
    forall k | 0 <= k < |fl|
      ensures '\n' !in fl[k]
      ensures kind(fl[k]) == Begin(CALENDAR) <==> k == 0
      ensures kind(fl[k]) == End(CALENDAR) <==> k == |fl| - 1
    {
      if 0 < k < |fl| - 1 { assert fl[k] == inner[k - 1] && OrdinaryLine(kind, inner[k - 1]); }
    }
    LinesOfCrlfText(fl);
  }

  // ---- Which lines of an object stay ----

  // Whether the loop is inside the calendar after some lines of its inside.
  predicate On(kind: string -> Kind, lines: seq<string>) {
    lines == [] ||
    (var k := kind(lines[|lines| - 1]);
     k == Begin(CALENDAR) || (k != End(CALENDAR) && On(kind, lines[..|lines| - 1])))
  }

  // A wrapper or header line, as the loop sees it.
  predicate Dropped(k: Kind) {
    k == Begin(CALENDAR) || k == End(CALENDAR) || k.Header?
  }

  predicate Survives(kind: string -> Kind, lines: seq<string>, k: nat)
    requires k < |lines|
  {
    On(kind, lines[..k]) && !Dropped(kind(lines[k]))
  }

  function Flags(kind: string -> Kind, lines: seq<string>): seq<bool> {
    seq(|lines|, k requires 0 <= k < |lines| => Survives(kind, lines, k))
  }

  function FlagsAfter(kind: string -> Kind, done: seq<string>, lines: seq<string>): seq<bool> {
    seq(|lines|, k requires 0 <= k < |lines| => On(kind, done + lines[..k]) && !Dropped(kind(lines[k])))
  }

  lemma {:induction false} InnerIsKept(kind: string -> Kind, done: seq<string>, lines: seq<string>)
    ensures Inner(kind, lines, On(kind, done)) == Kept(lines, FlagsAfter(kind, done, lines))
    decreases |lines|
  {
    if lines != [] {
      var l, rest := lines[0], lines[1..];
      InnerIsKept(kind, done + [l], rest);
      assert (done + [l])[..|done|] == done;
      assert done + lines[..0] == done;
      forall k | 0 <= k < |rest|
        ensures done + lines[..k + 1] == (done + [l]) + rest[..k] && rest[k] == lines[k + 1]
      {
      }
      assert FlagsAfter(kind, done, lines)[1..] == FlagsAfter(kind, done + [l], rest);
    }
  }

  lemma {:induction false} InnerUpToEnd(kind: string -> Kind, lines: seq<string>, end: string, inside: bool)
    requires kind(end) == End(CALENDAR)
    ensures Inner(kind, lines + [end], inside) == Inner(kind, lines, inside)
  {
    if lines == [] {
      assert lines + [end] == [end] && [end][1..] == [];
    } else {
      assert (lines + [end])[1..] == lines[1..] + [end];
      InnerUpToEnd(kind, lines[1..], end, true);
      InnerUpToEnd(kind, lines[1..], end, false);
      InnerUpToEnd(kind, lines[1..], end, inside);
    }
  }

  // What is kept of anything between two wrapper lines.
  lemma InnerOfCalendar(kind: string -> Kind, begin: string, inner: seq<string>, end: string)
    requires kind(begin) == Begin(CALENDAR) && kind(end) == End(CALENDAR)
    ensures Inner(kind, [begin] + inner + [end], false) == Kept(inner, Flags(kind, inner))
  {
    assert ([begin] + inner + [end])[1..] == inner + [end];
    InnerUpToEnd(kind, inner, end, true);
    InnerIsKept(kind, [], inner);
    assert forall k :: 0 <= k < |inner| ==> [] + inner[..k] == inner[..k];
    assert FlagsAfter(kind, [], inner) == Flags(kind, inner);
  }

  // ---- Calendars of the standard ----

  // How section 3.1 of RFC 5545 has a line read: one that begins with a space or tab
  // continues the line before it, so it begins and ends nothing, whatever it says.
  function Standard(line: string): Kind {
    if Continuation(line) then Plain else KindOf(Upper(line))
  }

  // Well-nested items between two wrapper items (section 3.4 of RFC 5545).
  ghost predicate Calendar<T>(kind: T -> Kind, items: seq<T>, inner: seq<T>) {
    && |items| >= 2 && items == [items[0]] + inner + [items[|items| - 1]]
    && kind(items[0]) == Begin(CALENDAR) && kind(items[|items| - 1]) == End(CALENDAR)
    && Balanced(kind, inner)
  }

  // Such a calendar is well nested as a whole.
  lemma CalendarNests<T>(kind: T -> Kind, items: seq<T>, inner: seq<T>)
    requires Calendar(kind, items, inner)
    ensures Balanced(kind, items)
  {
    WrapNests(kind, items[0], inner, items[|items| - 1], CALENDAR);
  }

  // The loop takes the wrapper lines of the standard for wrapper lines.
  lemma StandardWrapper(line: string)
    ensures Standard(line) == Begin(CALENDAR) ==> Classify(line) == Begin(CALENDAR)
    ensures Standard(line) == End(CALENDAR) ==> Classify(line) == End(CALENDAR)
  {
    var u := Upper(line);
    KindOfWrapper(u);
    if Standard(line) == Begin(CALENDAR) || Standard(line) == End(CALENDAR) {
      assert u == "BEGIN:VCALENDAR" || u == "END:VCALENDAR";
      assert line != [] && UpperChar(line[0]) == u[0] && UpperChar(line[|line| - 1]) == u[|u| - 1];
      TrimId(line);
    }
  }

  // An object with all lines dropped contributes an empty one, so we count it in.
  function Padding(inner: seq<string>): seq<string> {
    if Kept(inner, Flags(Classify, inner)) == [] then [""] else []
  }

  function PaddingFlags(inner: seq<string>): seq<bool> {
    if Kept(inner, Flags(Classify, inner)) == [] then [true] else []
  }

  function Padded(inner: seq<string>): seq<string> {
    inner + Padding(inner)
  }

  function PaddedFlags(inner: seq<string>): (flags: seq<bool>)
    ensures |flags| == |Padded(inner)|
  {
    Flags(Classify, inner) + PaddingFlags(inner)
  }

  // Some lines between two wrapper lines of the standard.
  predicate Between(lines: seq<string>, inner: seq<string>) {
    && |lines| >= 2 && lines == [lines[0]] + inner + [lines[|lines| - 1]]
    && Standard(lines[0]) == Begin(CALENDAR) && Standard(lines[|lines| - 1]) == End(CALENDAR)
  }

  lemma BodyOfCalendar(ics: string, inner: seq<string>)
    requires Between(Lines(ics), inner)
    ensures Inner(Classify, Lines(ics), false) == Kept(inner, Flags(Classify, inner))
    ensures BodyLines(ics) == Kept(Padded(inner), PaddedFlags(inner))
    ensures BodyLines(ics) == Kept(inner, Flags(Classify, inner)) + Padding(inner)
  {
    var ls := Lines(ics);
    StandardWrapper(ls[0]);
    StandardWrapper(ls[|ls| - 1]);
    InnerOfCalendar(Classify, ls[0], inner, ls[|ls| - 1]);
    KeptAppend(inner, Flags(Classify, inner), Padding(inner), PaddingFlags(inner));
    KeptPadding(inner);
  }

  lemma KeptPadding(inner: seq<string>)
    ensures Kept(Padding(inner), PaddingFlags(inner)) == Padding(inner)
  {
    if Padding(inner) != [] {
      assert [""][1..] == [] && [true][1..] == [];
      assert [""] + [] == [""];
    }
  }

  function EachPadded(inners: seq<seq<string>>): seq<seq<string>> {
    seq(|inners|, i requires 0 <= i < |inners| => Padded(inners[i]))
  }

  function EachFlags(inners: seq<seq<string>>): seq<seq<bool>> {
    seq(|inners|, i requires 0 <= i < |inners| => PaddedFlags(inners[i]))
  }

  lemma BodiesOfCalendars(objects: seq<string>, inners: seq<seq<string>>)
    requires |inners| == |objects|
    requires forall i :: 0 <= i < |objects| ==> Calendar(Standard, Lines(objects[i]), inners[i])
    ensures Bodies(objects) == Flatten(KeptParts(EachPadded(inners), EachFlags(inners)))
  {
    forall i | 0 <= i < |objects|
      ensures BodyLines(objects[i]) == Kept(Padded(inners[i]), PaddedFlags(inners[i]))
    {
      BodyOfCalendar(objects[i], inners[i]);
    }
    assert EachBody(objects) == KeptParts(EachPadded(inners), EachFlags(inners));
  }

  // ---- The empty line that pads an object changes nothing ----

  lemma PaddingIsNeutral<T>(kind: T -> Kind, inner: seq<T>, pad: seq<T>)
    requires Balanced(kind, inner) && NoTags(kind, pad)
    ensures Balanced(kind, inner + pad)
    ensures Components(kind, inner + pad, [], []) == Components(kind, inner, [], [])
    ensures forall k :: 0 <= k < |inner| ==> (InComponent(kind, inner + pad, k) <==> InComponent(kind, inner, k))
    ensures forall k :: |inner| <= k < |inner + pad| ==> !InComponent(kind, inner + pad, k)
  {
    UntaggedIsNeutral(kind, pad);
    InFront(kind, inner, pad);
    forall k | 0 <= k < |inner|
      ensures (inner + pad)[..k] == inner[..k]
    {
    }
    forall k | |inner| <= k < |inner + pad|
      ensures !InComponent(kind, inner + pad, k)
    {
      var front := pad[..k - |inner|];
      assert (inner + pad)[..k] == inner + front;
      assert NoTags(kind, front);
      UntaggedIsNeutral(kind, front);
      ScanAppend(kind, inner, front, []);
    }
  }

  lemma PaddedFacts(inner: seq<string>)
    requires Balanced(Standard, inner)
    ensures |Padded(inner)| == |PaddedFlags(inner)| && Balanced(Standard, Padded(inner))
    ensures Components(Standard, Padded(inner), [], []) == Components(Standard, inner, [], [])
    ensures (forall k :: 0 <= k < |Padded(inner)| && InComponent(Standard, Padded(inner), k) ==> PaddedFlags(inner)[k])
       <==> (forall k :: 0 <= k < |inner| && InComponent(Standard, inner, k) ==> Survives(Classify, inner, k))
    ensures TagsKept(Standard, Padded(inner), PaddedFlags(inner))
       <==> (forall k :: 0 <= k < |inner| && IsTag(Standard(inner[k])) ==> Survives(Classify, inner, k))
  {
    assert Upper("") == "" && Standard("") == Plain;
    assert NoTags(Standard, Padding(inner));
    PaddingIsNeutral(Standard, inner, Padding(inner));
    assert forall k :: 0 <= k < |inner| ==> Padded(inner)[k] == inner[k];
    assert forall k :: 0 <= k < |inner| ==> PaddedFlags(inner)[k] == Survives(Classify, inner, k);
  }

  lemma {:induction false} SameComponents<T>(kind: T -> Kind, a: seq<seq<T>>, b: seq<seq<T>>)
    requires |a| == |b|
    requires forall i :: 0 <= i < |a| ==> Components(kind, a[i], [], []) == Components(kind, b[i], [], [])
    ensures PartComponents(kind, a) == PartComponents(kind, b)
  {
    if a != [] {
      assert forall i :: 0 <= i < |a| - 1 ==> a[1..][i] == a[i + 1] && b[1..][i] == b[i + 1];
      SameComponents(kind, a[1..], b[1..]);
    }
  }

  lemma PaddedComponents(inners: seq<seq<string>>)
    requires forall i :: 0 <= i < |inners| ==> Balanced(Standard, inners[i])
    ensures PartComponents(Standard, EachPadded(inners)) == PartComponents(Standard, inners)
  {
    forall i | 0 <= i < |inners|
      ensures Components(Standard, EachPadded(inners)[i], [], []) == Components(Standard, inners[i], [], [])
    {
      PaddedFacts(inners[i]);
    }
    SameComponents(Standard, EachPadded(inners), inners);
  }

  function UnpaddedFlags(inners: seq<seq<string>>): seq<seq<bool>> {
    seq(|inners|, i requires 0 <= i < |inners| => Flags(Classify, inners[i]))
  }

  lemma {:induction false} SameKeptComponents<T>(kind: T -> Kind, a: seq<seq<T>>, ka: seq<seq<bool>>,
                                                 b: seq<seq<T>>, kb: seq<seq<bool>>)
    requires |a| == |ka| == |b| == |kb|
    requires forall i :: 0 <= i < |a| ==> |a[i]| == |ka[i]| && |b[i]| == |kb[i]|
    requires forall i :: 0 <= i < |a| ==>
               KeptComponents(kind, a[i], ka[i], [], []) == KeptComponents(kind, b[i], kb[i], [], [])
    ensures KeptPartComponents(kind, a, ka) == KeptPartComponents(kind, b, kb)
  {
    if a != [] {
      assert forall i :: 0 <= i < |a| - 1 ==>
               a[1..][i] == a[i + 1] && ka[1..][i] == ka[i + 1] && b[1..][i] == b[i + 1] && kb[1..][i] == kb[i + 1];
      SameKeptComponents(kind, a[1..], ka[1..], b[1..], kb[1..]);
    }
  }

  lemma PaddedKeptComponents(inners: seq<seq<string>>)
    requires forall i :: 0 <= i < |inners| ==> Balanced(Standard, inners[i])
    ensures forall i :: 0 <= i < |inners| ==> |EachPadded(inners)[i]| == |EachFlags(inners)[i]|
    ensures KeptPartComponents(Standard, EachPadded(inners), EachFlags(inners))
         == KeptPartComponents(Standard, inners, UnpaddedFlags(inners))
  {
    assert Upper("") == "" && Standard("") == Plain;
    forall i | 0 <= i < |inners|
      ensures |EachPadded(inners)[i]| == |EachFlags(inners)[i]|
      ensures KeptComponents(Standard, EachPadded(inners)[i], EachFlags(inners)[i], [], [])
           == KeptComponents(Standard, inners[i], UnpaddedFlags(inners)[i], [], [])
    {
      var inner := inners[i];
      KeptComponentsPadded(Standard, inner, Flags(Classify, inner), Padding(inner), PaddingFlags(inner), [], []);
    }
    SameKeptComponents(Standard, EachPadded(inners), EachFlags(inners), inners, UnpaddedFlags(inners));
  }

  // ---- The feed as a calendar ----

  lemma StandardTag(line: string)
    requires line != [] && line[0] in "VPX"
    ensures !IsTag(Standard(line))
  {
    var u := Upper(line);
    assert u[0] == line[0];
    Starts(u, "BEGIN:");
    Starts(u, "END:");
  }

  lemma PreambleUntagged(name: string)
    ensures NoTags(Standard, PREAMBLE + [NameLine(name)])
  {
    StandardTag("VERSION:2.0");
    StandardTag("PRODID:-//Mailserver CalDAV//EN");
    StandardTag(NameLine(name));
    assert PREAMBLE == ["VERSION:2.0", "PRODID:-//Mailserver CalDAV//EN"];
    Untagged3(Standard, "VERSION:2.0", "PRODID:-//Mailserver CalDAV//EN", NameLine(name));
  }

  lemma Untagged3<T>(kind: T -> Kind, a: T, b: T, c: T)
    requires !IsTag(kind(a)) && !IsTag(kind(b)) && !IsTag(kind(c))
    ensures NoTags(kind, [a, b] + [c])
  {
  }

  lemma StandardWrapperLines()
    ensures Standard("BEGIN:VCALENDAR") == Begin(CALENDAR) && Standard("END:VCALENDAR") == End(CALENDAR)
  {
    assert Upper("BEGIN:VCALENDAR") == "BEGIN:VCALENDAR" && Upper("END:VCALENDAR") == "END:VCALENDAR";
    KindOfWrapper("BEGIN:VCALENDAR");
    KindOfWrapper("END:VCALENDAR");
  }

  // The feed is a calendar with the components of its bodies, if those are balanced.
  lemma FeedAroundBodies(name: string, objects: seq<string>)
    ensures Calendar(Standard, FeedLines(name, objects), FeedInner(name, objects))
       <==> Balanced(Standard, Bodies(objects))
    ensures Components(Standard, FeedInner(name, objects), [], []) == Components(Standard, Bodies(objects), [], [])
  {
    var head := PREAMBLE + [NameLine(name)];
    PreambleUntagged(name);
    UntaggedIsNeutral(Standard, head);
    InFront(Standard, head, Bodies(objects));
    StandardWrapperLines();
  }

  // The feed is a calendar whose components are those of the objects, in order and
  // line by line, exactly when every line inside a component, continuation lines
  // included, is reached with the loop inside the calendar and is neither a wrapper
  // nor a VERSION or PRODID line after trimming.
  lemma FeedKeepsComponentsIff(name: string, objects: seq<string>, inners: seq<seq<string>>)
    requires |inners| == |objects|
    requires forall i :: 0 <= i < |objects| ==> Calendar(Standard, Lines(objects[i]), inners[i])
    ensures Calendar(Standard, FeedLines(name, objects), FeedInner(name, objects))
            && Components(Standard, FeedInner(name, objects), [], []) == PartComponents(Standard, inners)
       <==> forall i, k :: 0 <= i < |inners| && 0 <= k < |inners[i]| && InComponent(Standard, inners[i], k) ==>
              Survives(Classify, inners[i], k)
  {
    FeedAroundBodies(name, objects);
    BodiesOfCalendars(objects, inners);
    PaddedComponents(inners);
    forall i | 0 <= i < |inners|
      ensures |EachPadded(inners)[i]| == |EachFlags(inners)[i]| && Balanced(Standard, EachPadded(inners)[i])
      ensures (forall k :: 0 <= k < |EachPadded(inners)[i]| && InComponent(Standard, EachPadded(inners)[i], k) ==>
                 EachFlags(inners)[i][k])
         <==> (forall k :: 0 <= k < |inners[i]| && InComponent(Standard, inners[i], k) ==> Survives(Classify, inners[i], k))
    {
      PaddedFacts(inners[i]);
    }
    PartsStayIff(Standard, EachPadded(inners), EachFlags(inners));
  }

  // The feed is a calendar in which each component has lost its own dropped lines and
  // nothing else exactly when every BEGIN and END line of the objects stays.
  lemma FeedIsWellNestedIff(name: string, objects: seq<string>, inners: seq<seq<string>>)
    requires |inners| == |objects|
    requires forall i :: 0 <= i < |objects| ==> Calendar(Standard, Lines(objects[i]), inners[i])
    ensures Calendar(Standard, FeedLines(name, objects), FeedInner(name, objects))
            && Components(Standard, FeedInner(name, objects), [], [])
            == KeptPartComponents(Standard, inners, UnpaddedFlags(inners))
       <==> forall i, k :: 0 <= i < |inners| && 0 <= k < |inners[i]| && IsTag(Standard(inners[i][k])) ==>
              Survives(Classify, inners[i], k)
  {
    FeedAroundBodies(name, objects);
    BodiesOfCalendars(objects, inners);
    PaddedKeptComponents(inners);
    forall i | 0 <= i < |inners|
      ensures |EachPadded(inners)[i]| == |EachFlags(inners)[i]| && Balanced(Standard, EachPadded(inners)[i])
      ensures TagsKept(Standard, EachPadded(inners)[i], EachFlags(inners)[i])
         <==> (forall k :: 0 <= k < |inners[i]| && IsTag(Standard(inners[i][k])) ==> Survives(Classify, inners[i], k))
    {
      PaddedFacts(inners[i]);
    }
    PartsNestIff(Standard, EachPadded(inners), EachFlags(inners));
  }

  // ---- A calendar that breaks the feed ----

  lemma EventLines()
    ensures Standard("BEGIN:VEVENT") == Classify("BEGIN:VEVENT") == Begin("VEVENT")
    ensures Standard("END:VEVENT") == Classify("END:VEVENT") == End("VEVENT")
  {
    var b, e := "BEGIN:VEVENT", "END:VEVENT";
    assert Upper(b) == b && Upper(e) == e;
    assert b[..6] == "BEGIN:" && b[6..] == "VEVENT" && e[..4] == "END:" && e[4..] == "VEVENT";
    Disagree(e, "BEGIN:", "END:");
    NormId(b);
    NormId(e);
  }

  lemma SummaryLine()
    ensures Standard("SUMMARY:A") == Classify("SUMMARY:A") == Plain
  {
    var s := "SUMMARY:A";
    assert Upper(s) == s && s[0] == 'S';
    NormId(s);
    Starts(s, "BEGIN:");
    Starts(s, "END:");
    Starts(s, "VERSION:");
    Starts(s, "PRODID:");
  }

  lemma FoldedEndLine()
    ensures Standard(" END:VCALENDAR") == Plain && Classify(" END:VCALENDAR") == End(CALENDAR)
  {
    assert " " + "END:VCALENDAR" == " END:VCALENDAR";
    SpacedEndLine("END:VCALENDAR", " END:VCALENDAR");
  }

  lemma SpacedEndLine(e: string, line: string)
    requires e == "END:VCALENDAR" && line == " " + e
    ensures Standard(line) == Plain && Classify(line) == End(CALENDAR)
  {
    assert Continuation(line);
    assert Norm(line) == e by {
      TrimLeadingSpace(e);
      assert Upper(e) == e;
    }
    KindOfWrapper(e);
  }

  lemma TrimLeadingSpace(s: string)
    requires s != [] && !IsSpace(s[0]) && !IsSpace(s[|s| - 1])
    ensures Trim(" " + s) == s
  {
    TrimStartSpace(s);
    TrimEndId(s);
  }

  lemma TrimStartSpace(s: string)
    requires s != [] && !IsSpace(s[0])
    ensures TrimStart(" " + s) == s
  {
    assert (" " + s)[1..] == s;
  }

  lemma TrimEndId(s: string)
    requires s != [] && !IsSpace(s[|s| - 1])
    ensures TrimEnd(s) == s
  {
  }

  lemma ScanFirst<T>(kind: T -> Kind, x: T, rest: seq<T>, open: seq<string>)
    ensures Scan(kind, [x] + rest, open)
         == match Step(kind(x), open) case None => None case Some(o) => Scan(kind, rest, o)
  {
    assert ([x] + rest)[1..] == rest;
  }

  lemma InnerFirst(kind: string -> Kind, x: string, rest: seq<string>, inside: bool)
    ensures Inner(kind, [x] + rest, inside)
         == if kind(x) == Begin(CALENDAR) then Inner(kind, rest, true)
            else if kind(x) == End(CALENDAR) then Inner(kind, rest, false)
            else (if inside && !kind(x).Header? then [x] else []) + Inner(kind, rest, inside)
  {
    assert ([x] + rest)[1..] == rest;
  }

  ghost predicate EndsEarly(kind: string -> Kind, begin: string, a: string, b: string, c: string, d: string, end: string) {
    && kind(begin) == Begin(CALENDAR) && kind(end) == End(CALENDAR)
    && kind(a) == Begin("VEVENT") && kind(b) == Plain && kind(c) == End(CALENDAR) && kind(d) == End("VEVENT")
  }

  ghost predicate OneEvent(kind: string -> Kind, begin: string, a: string, b: string, c: string, d: string, end: string) {
    && kind(begin) == Begin(CALENDAR) && kind(end) == End(CALENDAR)
    && kind(a) == Begin("VEVENT") && kind(b) == kind(c) == Plain && kind(d) == End("VEVENT")
  }

  lemma TornScan(standard: string -> Kind, begin: string, a: string, b: string, c: string, d: string, end: string)
    requires OneEvent(standard, begin, a, b, c, d, end)
    ensures Calendar(standard, [begin] + [a, b, c, d] + [end], [a, b, c, d]) && !Balanced(standard, [a, b])
  {
    assert [a, b, c, d] == [a] + ([b] + ([c] + ([d] + []))) && [a, b] == [a] + ([b] + []);
    assert [] + ["VEVENT"] == ["VEVENT"] && ["VEVENT"][..0] == [];
    ScanFirst(standard, a, [b] + ([c] + ([d] + [])), []);
    ScanFirst(standard, b, [c] + ([d] + []), ["VEVENT"]);
    ScanFirst(standard, c, [d] + [], ["VEVENT"]);
    ScanFirst(standard, d, [], ["VEVENT"]);
    ScanFirst(standard, a, [b] + [], []);
    ScanFirst(standard, b, [], ["VEVENT"]);
    CalendarAround(standard, begin, [a, b, c, d], end);
  }

  lemma TornInner(kind: string -> Kind, begin: string, a: string, b: string, c: string, d: string, end: string)
    requires EndsEarly(kind, begin, a, b, c, d, end)
    ensures Inner(kind, [begin] + [a, b, c, d] + [end], false) == [a, b]
  {
    assert [begin] + [a, b, c, d] + [end] == [begin] + ([a] + ([b] + ([c] + ([d] + ([end] + [])))));
    InnerFirst(kind, begin, [a] + ([b] + ([c] + ([d] + ([end] + [])))), false);
    InnerFirst(kind, a, [b] + ([c] + ([d] + ([end] + []))), true);
    InnerFirst(kind, b, [c] + ([d] + ([end] + [])), true);
    InnerFirst(kind, c, [d] + ([end] + []), true);
    InnerFirst(kind, d, [end] + [], false);
    InnerFirst(kind, end, [], false);
    assert [a] + ([b] + []) == [a, b];
  }

  // A stored text with these lines, a calendar of the standard whose feed is none.
  ghost predicate BreaksFeed(name: string, ics: string, lines: seq<string>, inner: seq<string>) {
    && Lines(ics) == lines && Calendar(Standard, lines, inner)
    && !Calendar(Standard, FeedLines(name, [ics]), FeedInner(name, [ics]))
  }

  // An event whose summary is folded before the text END:VCALENDAR.
  predicate FoldedEvent(inner: seq<string>) {
    inner == ["BEGIN:VEVENT", "SUMMARY:A", " END:VCALENDAR", "END:VEVENT"]
  }

  // In a well-nested calendar with this event the loop stops at the folded line, and
  // the feed is no calendar.
  lemma FoldedTextEndsTheObject(name: string)
    ensures exists ics, lines, inner :: FoldedEvent(inner) && BreaksFeed(name, ics, lines, inner)
  {
    FoldedIsOneEvent();
    FoldedEndsEarly();
    var lines, inner, left := FoldedExample(Classify, Standard);
    TornObject(name, lines, inner, left);
  }

  lemma FoldedExample(kind: string -> Kind, standard: string -> Kind)
    returns (lines: seq<string>, inner: seq<string>, left: seq<string>)
    requires OneEvent(standard, "BEGIN:VCALENDAR", "BEGIN:VEVENT", "SUMMARY:A", " END:VCALENDAR", "END:VEVENT", "END:VCALENDAR")
    requires EndsEarly(kind, "BEGIN:VCALENDAR", "BEGIN:VEVENT", "SUMMARY:A", " END:VCALENDAR", "END:VEVENT", "END:VCALENDAR")
    ensures FoldedEvent(inner) && left != []
    ensures forall k :: 0 <= k < |lines| ==> '\n' !in lines[k]
    ensures Calendar(standard, lines, inner) && Inner(kind, lines, false) == left && !Balanced(standard, left)
  {
    var begin, a, b, c := "BEGIN:VCALENDAR", "BEGIN:VEVENT", "SUMMARY:A", " END:VCALENDAR";
    var d, end := "END:VEVENT", "END:VCALENDAR";
    inner := [a, b, c, d];
    lines := [begin] + inner + [end];
    left := [a, b];
    TornScan(standard, begin, a, b, c, d, end);
    TornInner(kind, begin, a, b, c, d, end);
  }

  lemma FoldedIsOneEvent()
    ensures OneEvent(Standard, "BEGIN:VCALENDAR", "BEGIN:VEVENT", "SUMMARY:A", " END:VCALENDAR", "END:VEVENT", "END:VCALENDAR")
  {
    EventLines();
    SummaryLine();
    FoldedEndLine();
    StandardWrapperLines();
  }

  lemma FoldedEndsEarly()
    ensures EndsEarly(Classify, "BEGIN:VCALENDAR", "BEGIN:VEVENT", "SUMMARY:A", " END:VCALENDAR", "END:VEVENT", "END:VCALENDAR")
  {
    EventLines();
    SummaryLine();
    FoldedEndLine();
    BeginLine();
    EndLine();
  }

  lemma CalendarAround<T>(kind: T -> Kind, begin: T, inner: seq<T>, end: T)
    requires kind(begin) == Begin(CALENDAR) && kind(end) == End(CALENDAR) && Balanced(kind, inner)
    ensures Calendar(kind, [begin] + inner + [end], inner)
  {
    var items := [begin] + inner + [end];
    assert items[0] == begin && items[|items| - 1] == end;
  }

  lemma TornObject(name: string, lines: seq<string>, inner: seq<string>, left: seq<string>)
    requires forall k :: 0 <= k < |lines| ==> '\n' !in lines[k]
    requires Calendar(Standard, lines, inner)
    requires left != [] && Inner(Classify, lines, false) == left && !Balanced(Standard, left)
    ensures exists ics :: BreaksFeed(name, ics, lines, inner)
  {
    var ics := CrlfText(lines);
    LinesOfCrlfText(lines);
    OneBody(ics);
    FeedAroundBodies(name, [ics]);
    assert BreaksFeed(name, ics, lines, inner);
  }

  lemma OneBody(ics: string)
    ensures Bodies([ics]) == BodyLines(ics)
  {
    assert EachBody([ics]) == [BodyLines(ics)];
    FlattenOne(BodyLines(ics));
  }
}

// A torn content line runs on from whatever stands before it: whether that breaks the feed
// depends on the order of the objects, not on any of them.
module FeedOrder {
  import opened Text
  import opened Folding
  import opened Nesting
  import opened CalendarFeed
  import opened FoldedFeed

  // The content lines of the feed when the torn line follows the header of the feed.
  lemma TornBehindHeader(v: string, p: string, n: string, b: string, e: string, c: string)
    requires !Continuation(v) && !Continuation(p) && !Continuation(n) && !Continuation(b) && !Continuation(e)
    requires Continuation(c)
    ensures Fields([v, p] + [n] + ([c, b, e] + [b, e]))
         == ([[v]] + ([[p]] + [[n, c]])) + (Fields([b, e]) + Fields([b, e]))
  {
    var events := [b, e] + [b, e];
    FieldsAppend([b, e], [b, e]);
    HeaderInFront(v, p, n, c, events);
    SameText(v, p, n, b, e, c);
    Regrouped([[v]], [[p]], [[n, c]], Fields(events));
  }

  lemma SameText(v: string, p: string, n: string, b: string, e: string, c: string)
    ensures [v, p] + [n] + ([c, b, e] + [b, e]) == [v] + ([p] + ([n, c] + ([b, e] + [b, e])))
  {
  }

  lemma HeaderInFront(v: string, p: string, n: string, c: string, events: seq<string>)
    requires !Continuation(v) && !Continuation(p) && !Continuation(n) && Continuation(c) && StartsAfresh(events)
    ensures Fields([v] + ([p] + ([n, c] + events))) == [[v]] + ([[p]] + ([[n, c]] + Fields(events)))
  {
    FieldsFirst([n, c], events);
    FieldsFirst([p], [n, c] + events);
    FieldsFirst([v], [p] + ([n, c] + events));
  }

  lemma Regrouped<T>(a: seq<T>, b: seq<T>, c: seq<T>, d: seq<T>)
    ensures a + (b + (c + d)) == (a + (b + c)) + d
  {
  }

  // Untagged content lines in front change nothing.
  lemma BehindUntagged<T>(kind: T -> Kind, front: seq<T>, rest: seq<T>)
    requires NoTags(kind, front)
    ensures Balanced(kind, front + rest) <==> Balanced(kind, rest)
    ensures Components(kind, front + rest, [], []) == Components(kind, rest, [], [])
  {
    UntaggedIsNeutral(kind, front);
    InFront(kind, front, rest);
    assert [] + Components(kind, rest, [], []) == Components(kind, rest, [], []);
  }

  // Two events behind such a front, and the components of the calendars they came from.
  lemma EventsStay(kind: seq<string> -> Kind, front: seq<seq<string>>, p: string, c: string, b: string, e: string)
    requires NoTags(kind, front) && !IsTag(kind([p, c])) && Balanced(kind, Fields([b, e]))
    requires !Continuation(b) && !Continuation(e) && !Continuation(p) && Continuation(c)
    ensures var events := Fields([b, e]) + Fields([b, e]);
      && Balanced(kind, front + events)
      && Components(kind, front + events, [], [])
         == PartComponents(kind, [Fields([p, c, b, e]), Fields([b, e])])
  {
    var event := Fields([b, e]);
    BehindUntagged(kind, front, event + event);
    InFront(kind, event, event);
    FieldsFirst([p, c], [b, e]);
    assert [p, c] + [b, e] == [p, c, b, e];
    BehindUntagged(kind, [[p, c]], event);
    TwoParts(kind, [[p, c]] + event, event);
  }

  lemma TwoParts<T>(kind: T -> Kind, a: seq<T>, b: seq<T>)
    ensures PartComponents(kind, [a, b]) == Components(kind, a, [], []) + Components(kind, b, [], [])
  {
    assert [a, b][1..] == [b] && [b][1..] == [];
    assert PartComponents(kind, [b]) == Components(kind, b, [], []) + [];
  }

  lemma NameRunsOn(name: string)
    ensures !IsTag(ContentKind([NameLine(name), " B"]))
  {
    var u := NameLine(name) + "B";
    UnfoldedTwo(NameLine(name), "B");
    assert " " + "B" == " B";
    StandardTag(u);
    assert !Continuation(u);
  }

  lemma HeaderOfFeed(name: string)
    ensures var v, p, n := "VERSION:2.0", "PRODID:-//Mailserver CalDAV//EN", NameLine(name);
      && PREAMBLE == [v, p] && !Continuation(v) && !Continuation(p) && !Continuation(n)
      && NoTags(ContentKind, [[v]] + ([[p]] + [[n, " B"]]))
  {
    var v, p, n := "VERSION:2.0", "PRODID:-//Mailserver CalDAV//EN", NameLine(name);
    assert v[0] == 'V' && p[0] == 'P' && n[0] == 'X';
    UntaggedLine(v);
    UntaggedLine(p);
    NameRunsOn(name);
    UntaggedThree(ContentKind, [v], [p], [n, " B"]);
  }

  lemma UntaggedLine(line: string)
    requires line != [] && line[0] in "VPX"
    ensures !IsTag(ContentKind([line]))
  {
    StandardTag(line);
    ContentKindOfOne(line);
  }

  lemma UntaggedThree<T>(kind: T -> Kind, a: T, b: T, c: T)
    requires !IsTag(kind(a)) && !IsTag(kind(b)) && !IsTag(kind(c))
    ensures NoTags(kind, [a] + ([b] + [c]))
  {
  }

  lemma GoodOrder(name: string, objects: seq<string>, inners: seq<seq<string>>, b: string, e: string, p: string, c: string)
    requires b == "BEGIN:VEVENT" && e == "END:VEVENT" && p == "PRODID:-//A" && c == " B"
    requires Bodies(objects) == [c, b, e] + [b, e] && inners == [[p, c, b, e], [b, e]]
    ensures FeedHasComponents(name, objects, inners)
  {
    var v, q, n := "VERSION:2.0", "PRODID:-//Mailserver CalDAV//EN", NameLine(name);
    HeaderOfFeed(name);
    TornBehindHeader(v, q, n, b, e, c);
    ContentFacts();
    HeaderFields(ContentKind, b, e, p, c);
    EventsStay(ContentKind, [[v]] + ([[q]] + [[n, c]]), p, c, b, e);
    assert EachFields(inners) == [Fields([p, c, b, e]), Fields([b, e])];
  }

  lemma BadOrder(name: string, objects: seq<string>, inners: seq<seq<string>>, b: string, e: string, p: string, c: string)
    requires b == "BEGIN:VEVENT" && e == "END:VEVENT" && p == "PRODID:-//A" && c == " B"
    requires Bodies(objects) == [b, e] + [c, b, e]
    ensures !FeedHasComponents(name, objects, inners)
  {
    ContentFacts();
    HeaderFields(ContentKind, b, e, p, c);
    FeedFields(name, objects);
  }

  // Two calendars whose feed has their components in one order and not in the other.
  ghost predicate OrderMatters(name: string, one: string, two: string, inner1: seq<string>, inner2: seq<string>) {
    && UnfoldedCalendar(Lines(one), inner1) && UnfoldedCalendar(Lines(two), inner2)
    && !FeedHasComponents(name, [one, two], [inner1, inner2])
    && FeedHasComponents(name, [two, one], [inner2, inner1])
  }

  // So no condition on single calendars, let alone on their lines, tells whether the feed
  // has their components.
  lemma NoConditionOnObjects(name: string)
    ensures exists one, two, inner1, inner2 :: OrderMatters(name, one, two, inner1, inner2)
  {
    HeaderFacts();
    ContentFacts();
    BeginLine();
    EndLine();
    StandardWrapperLines();
    var first, second, inners, left1, left2 := FoldedFeed.FoldedExample(Classify, Standard, ContentKind);
    StoredObject(first, inners[0], left1);
    StoredObject(second, inners[1], left2);
    InBothOrders(name, CrlfText(first), CrlfText(second), inners, left1, left2);
  }

  lemma InBothOrders(name: string, one: string, two: string, inners: seq<seq<string>>, left1: seq<string>, left2: seq<string>)
    requires FoldedHeader(inners) && BodyLines(one) == left1 && BodyLines(two) == left2
    requires left1 == ["BEGIN:VEVENT", "END:VEVENT"] && left2 == [" B", "BEGIN:VEVENT", "END:VEVENT"]
    requires UnfoldedCalendar(Lines(one), inners[0]) && UnfoldedCalendar(Lines(two), inners[1])
    ensures OrderMatters(name, one, two, inners[0], inners[1])
  {
    BodiesOfTwo(one, two);
    BodiesOfTwo(two, one);
    BadOrder(name, [one, two], [inners[0], inners[1]], "BEGIN:VEVENT", "END:VEVENT", "PRODID:-//A", " B");
    GoodOrder(name, [two, one], [inners[1], inners[0]], "BEGIN:VEVENT", "END:VEVENT", "PRODID:-//A", " B");
  }
}

// The feed with its folded lines put back together, as section 3.1 of RFC 5545 has it
// read: leaving out single lines can tear a content line apart.
module FoldedFeed {
  import opened Text
  import opened Folding
  import opened Nesting
  import opened CalendarFeed

  // ---- Content lines ----

  // What the continuation lines add, each without its first character.
  function Tails(lines: seq<string>): string {
    if lines == [] then [] else (if lines[0] == [] then [] else lines[0][1..]) + Tails(lines[1..])
  }

  function Unfolded(content: seq<string>): string {
    if content == [] then [] else content[0] + Tails(content[1..])
  }

  function ContentKind(content: seq<string>): Kind {
    KindOf(Upper(Unfolded(content)))
  }

  lemma ContentKindOfOne(line: string)
    ensures ContentKind([line]) == KindOf(Upper(line))
  {
    assert [line][1..] == [];
    assert line + [] == line;
  }

  // ---- Which content lines survive whole ----

  // For each content line, whether its first line stays.
  function Heads(lines: seq<string>, keep: seq<bool>): (heads: seq<bool>)
    requires |lines| == |keep|
    ensures |heads| == |Fields(lines)|
  {
    if lines == [] then []
    else
      var n := 1 + Folds(lines[1..]);
      [keep[0]] + Heads(lines[n..], keep[n..])
  }

  // Every content line stays or goes as a whole.
  predicate NoCut(lines: seq<string>, keep: seq<bool>)
    requires |lines| == |keep|
  {
    forall k :: 1 <= k < |lines| && Continuation(lines[k]) ==> keep[k] == keep[k - 1]
  }

  predicate StartsAfresh(lines: seq<string>) {
    lines == [] || !Continuation(lines[0])
  }

  lemma FieldsFirst(g: seq<string>, rest: seq<string>)
    requires g != [] && StartsAfresh(rest) && forall k :: 1 <= k < |g| ==> Continuation(g[k])
    ensures Fields(g + rest) == [g] + Fields(rest)
  {
    var lines := g + rest;
    assert lines[1..] == g[1..] + rest;
    FoldsAll(g[1..], rest);
    assert lines[..|g|] == g && lines[|g|..] == rest;
  }

  lemma {:induction false} FoldsAll(a: seq<string>, rest: seq<string>)
    requires StartsAfresh(rest) && forall k :: 0 <= k < |a| ==> Continuation(a[k])
    ensures Folds(a + rest) == |a|
  {
    if a == [] {
      assert a + rest == rest;
    } else {
      assert (a + rest)[1..] == a[1..] + rest;
      FoldsAll(a[1..], rest);
    }
  }

  lemma {:induction false} FieldsAppend(a: seq<string>, b: seq<string>)
    requires StartsAfresh(b)
    ensures Fields(a + b) == Fields(a) + Fields(b)
    decreases |a|
  {
    if a == [] {
      assert a + b == b;
    } else {
      var n := 1 + Folds(a[1..]);
      GroupFacts(a);
      FieldsAppend(a[n..], b);
      OneMoreGroup(a[..n], a[n..], b);
    }
  }

  lemma OneMoreGroup(g: seq<string>, rest: seq<string>, b: seq<string>)
    requires g != [] && forall k :: 1 <= k < |g| ==> Continuation(g[k])
    requires StartsAfresh(rest) && StartsAfresh(b) && Fields(rest + b) == Fields(rest) + Fields(b)
    ensures Fields((g + rest) + b) == Fields(g + rest) + Fields(b)
  {
    assert rest == [] ==> rest + b == b;
    Regroup(g, rest, b);
    FieldsFirst(g, rest + b);
    FieldsFirst(g, rest);
    Regroup([g], Fields(rest), Fields(b));
  }

  lemma GroupFacts(lines: seq<string>)
    requires lines != []
    ensures var n := 1 + Folds(lines[1..]);
      && (forall k :: 1 <= k < n ==> Continuation(lines[..n][k]))
      && StartsAfresh(lines[n..])
      && lines == lines[..n] + lines[n..]
  {
    var n := 1 + Folds(lines[1..]);
    forall k | 1 <= k < n
      ensures Continuation(lines[..n][k])
    {
      assert lines[..n][k] == lines[1..][k - 1];
    }
    if n < |lines| { assert lines[n] == lines[1..][n - 1]; }
  }

  // ---- Kept lines ----

  lemma {:induction false} KeptIsFrom<T>(items: seq<T>, keep: seq<bool>, x: T)
    requires |items| == |keep| && x in Kept(items, keep)
    ensures exists k :: 0 <= k < |items| && keep[k] && items[k] == x
  {
    var rest, keep' := items[1..], keep[1..];
    if keep[0] && items[0] == x {
    } else {
      KeptIsFrom(rest, keep', x);
      var k :| 0 <= k < |rest| && keep'[k] && rest[k] == x;
      assert keep[k + 1] && items[k + 1] == x;
    }
  }

  lemma {:induction false} KeptAll<T>(items: seq<T>, keep: seq<bool>)
    requires |items| == |keep|
    ensures (forall k :: 0 <= k < |keep| ==> keep[k]) ==> Kept(items, keep) == items
    ensures (forall k :: 0 <= k < |keep| ==> !keep[k]) ==> Kept(items, keep) == []
  {
    if items != [] {
      KeptAll(items[1..], keep[1..]);
      assert items == [items[0]] + items[1..];
    }
  }

  // The first kept line is one with nothing kept before it.
  lemma {:induction false} FirstKept<T>(items: seq<T>, keep: seq<bool>) returns (k: nat)
    requires |items| == |keep| && exists k :: 0 <= k < |keep| && keep[k]
    ensures k < |items| && keep[k] && (forall j :: 0 <= j < k ==> !keep[j])
    ensures Kept(items, keep) != [] && Kept(items, keep)[0] == items[k]
  {
    if keep[0] {
      k := 0;
    } else {
      var i :| 0 <= i < |keep| && keep[i];
      assert keep[1..][i - 1];
      var k' := FirstKept(items[1..], keep[1..]);
      k := k' + 1;
      forall j | 0 <= j < k ensures !keep[j] { if j > 0 { assert !keep[1..][j - 1]; } }
    }
  }

  lemma NoCutStartsAfresh(lines: seq<string>, keep: seq<bool>)
    requires |lines| == |keep| && StartsAfresh(lines) && NoCut(lines, keep)
    ensures StartsAfresh(Kept(lines, keep))
  {
    if exists k :: 0 <= k < |keep| && keep[k] {
      var k := FirstKept(lines, keep);
      if k > 0 { assert !keep[k - 1]; }
    } else {
      KeptAll(lines, keep);
    }
  }

  predicate Uniform(keep: seq<bool>) {
    forall k :: 1 <= k < |keep| ==> keep[k] == keep[k - 1]
  }

  lemma {:induction false} UniformIs(keep: seq<bool>)
    requires Uniform(keep) && keep != []
    ensures forall k :: 0 <= k < |keep| ==> keep[k] == keep[0]
  {
    if |keep| > 1 {
      var last := |keep| - 1;
      UniformIs(keep[..last]);
      forall k | 0 <= k < |keep|
        ensures keep[k] == keep[0]
      {
        if k < last { assert keep[..last][k] == keep[..last][0]; }
        else { assert keep[..last][last - 1] == keep[..last][0]; }
      }
    }
  }

  lemma NoCutSplits(lines: seq<string>, keep: seq<bool>)
    requires |lines| == |keep| && lines != []
    ensures var n := 1 + Folds(lines[1..]);
      NoCut(lines, keep) <==> Uniform(keep[..n]) && NoCut(lines[n..], keep[n..])
  {
    GroupFacts(lines);
    var n := 1 + Folds(lines[1..]);
    if Uniform(keep[..n]) && NoCut(lines[n..], keep[n..]) {
      forall k | 1 <= k < |lines| && Continuation(lines[k])
        ensures keep[k] == keep[k - 1]
      {
        if k < n {
          assert keep[..n][k] == keep[..n][k - 1];
        } else {
          assert lines[n..][k - n] == lines[k];
          if k > n { assert keep[n..][k - n] == keep[n..][k - n - 1]; }
        }
      }
    }
    if NoCut(lines, keep) {
      forall k | 1 <= k < n
        ensures keep[..n][k] == keep[..n][k - 1]
      {
        assert Continuation(lines[..n][k]);
      }
      forall k | 1 <= k < |lines| - n && Continuation(lines[n..][k])
        ensures keep[n..][k] == keep[n..][k - 1]
      {
        assert Continuation(lines[k + n]);
      }
    }
  }

  // Lines are dropped for what they say, or because one before them was.
  ghost predicate DroppedFor(bad: string -> bool, lines: seq<string>, keep: seq<bool>)
    requires |lines| == |keep|
  {
    && (forall k :: 0 <= k < |lines| && keep[k] ==> !bad(lines[k]))
    && (forall k :: 1 <= k < |lines| && keep[k - 1] && !keep[k] ==> bad(lines[k]))
  }

  lemma DroppedForRest(bad: string -> bool, lines: seq<string>, keep: seq<bool>, n: nat)
    requires |lines| == |keep| && n <= |lines| && DroppedFor(bad, lines, keep)
    ensures DroppedFor(bad, lines[n..], keep[n..])
  {
    var rest, keep' := lines[n..], keep[n..];
    forall k | 0 <= k < |rest|
      ensures rest[k] == lines[k + n] && keep'[k] == keep[k + n]
    {
    }
    forall k | 1 <= k < |rest| && keep'[k - 1] && !keep'[k]
      ensures bad(rest[k])
    {
      assert keep[k + n - 1] && !keep[k + n];
    }
  }

  // Unfolding what is left gives the content lines whose first line stays exactly when
  // no content line is cut.
  lemma {:induction false} WholeIff(bad: string -> bool, lines: seq<string>, keep: seq<bool>)
    requires |lines| == |keep| && StartsAfresh(lines) && DroppedFor(bad, lines, keep)
    ensures Fields(Kept(lines, keep)) == Kept(Fields(lines), Heads(lines, keep)) <==> NoCut(lines, keep)
    decreases |lines|
  {
    if lines != [] {
      var n := 1 + Folds(lines[1..]);
      var g, gk, rest, rk := lines[..n], keep[..n], lines[n..], keep[n..];
      GroupFacts(lines);
      DroppedForRest(bad, lines, keep, n);
      WholeIff(bad, rest, rk);
      NoCutSplits(lines, keep);
      assert keep == gk + rk;
      KeptAppend(g, gk, rest, rk);
      KeptOfGroups(lines, keep);
      if Uniform(gk) {
        UniformIs(gk);
        KeptAll(g, gk);
        if keep[0] {
          WholeGroup(g, rest, rk);
        } else {
          assert [] + Kept(rest, rk) == Kept(rest, rk);
        }
      } else if keep[0] {
        CutGroup(bad, lines, keep);
      } else {
        OrphanedGroup(lines, keep);
      }
    }
  }

  lemma KeptOfGroups(lines: seq<string>, keep: seq<bool>)
    requires |lines| == |keep| && lines != []
    ensures var n := 1 + Folds(lines[1..]);
      Kept(Fields(lines), Heads(lines, keep))
      == (if keep[0] then [lines[..n]] else []) + Kept(Fields(lines[n..]), Heads(lines[n..], keep[n..]))
  {
    var n := 1 + Folds(lines[1..]);
    assert Fields(lines)[1..] == Fields(lines[n..]);
    assert Heads(lines, keep)[1..] == Heads(lines[n..], keep[n..]);
  }

  lemma WholeGroup(g: seq<string>, rest: seq<string>, rk: seq<bool>)
    requires g != [] && |rest| == |rk| && StartsAfresh(rest) && forall k :: 1 <= k < |g| ==> Continuation(g[k])
    requires Fields(Kept(rest, rk)) == Kept(Fields(rest), Heads(rest, rk)) <==> NoCut(rest, rk)
    ensures Fields(g + Kept(rest, rk)) == [g] + Kept(Fields(rest), Heads(rest, rk)) <==> NoCut(rest, rk)
  {
    var k, want := Kept(rest, rk), Kept(Fields(rest), Heads(rest, rk));
    if NoCut(rest, rk) {
      NoCutStartsAfresh(rest, rk);
    }
    if StartsAfresh(k) {
      FieldsFirst(g, k);
      assert ([g] + Fields(k))[1..] == Fields(k) && ([g] + want)[1..] == want;
    } else {
      LongerGroup(g, k);
    }
  }

  lemma LongerGroup(g: seq<string>, k: seq<string>)
    requires g != [] && k != [] && Continuation(k[0]) && forall j :: 1 <= j < |g| ==> Continuation(g[j])
    ensures Fields(g + k)[0] != g
  {
    var lines := g + k;
    forall j | 0 <= j < |g|
      ensures Continuation(lines[1..][j])
    {
      assert lines[1..][j] == if j < |g| - 1 then g[j + 1] else k[0];
    }
    assert Folds(lines[1..]) >= |g|;
    assert |Fields(lines)[0]| == Folds(lines[1..]) + 1;
  }

  lemma CutGroup(bad: string -> bool, lines: seq<string>, keep: seq<bool>)
    requires |lines| == |keep| && lines != [] && DroppedFor(bad, lines, keep) && keep[0]
    requires !Uniform(keep[..1 + Folds(lines[1..])])
    ensures Fields(Kept(lines, keep)) != Kept(Fields(lines), Heads(lines, keep))
  {
    var n := 1 + Folds(lines[1..]);
    var b := FirstCut(keep[..n]);
    assert keep[b - 1] && !keep[b] && bad(lines[b]);
    KeptOfGroups(lines, keep);
    if Fields(Kept(lines, keep)) == Kept(Fields(lines), Heads(lines, keep)) {
      FieldsAreUnfolded(Kept(lines, keep));
      var first := Fields(Kept(lines, keep))[0];
      assert first == lines[..n] && first[b] == lines[b];
      assert lines[b] in Flat(Fields(Kept(lines, keep)));
      KeptIsFrom(lines, keep, lines[b]);
    }
  }

  lemma {:induction false} FirstCut(keep: seq<bool>) returns (b: nat)
    requires keep != [] && keep[0] && !Uniform(keep)
    ensures 1 <= b < |keep| && keep[b - 1] && !keep[b]
  {
    if !keep[1] {
      b := 1;
    } else {
      var j :| 1 <= j < |keep| && keep[j] != keep[j - 1];
      assert keep[1..][j - 1] != keep[1..][j - 2];
      var b' := FirstCut(keep[1..]);
      b := b' + 1;
    }
  }

  lemma OrphanedGroup(lines: seq<string>, keep: seq<bool>)
    requires |lines| == |keep| && lines != [] && !keep[0] && !Uniform(keep[..1 + Folds(lines[1..])])
    ensures Fields(Kept(lines, keep)) != Kept(Fields(lines), Heads(lines, keep))
  {
    var n := 1 + Folds(lines[1..]);
    OrphanComesFirst(lines, keep, n);
    GroupFacts(lines);
    KeptOfGroups(lines, keep);
    OrphanInFront(Kept(lines, keep), lines[n..], keep[n..]);
    assert [] + Kept(Fields(lines[n..]), Heads(lines[n..], keep[n..])) == Kept(Fields(lines[n..]), Heads(lines[n..], keep[n..]));
  }

  lemma OrphanComesFirst(lines: seq<string>, keep: seq<bool>, n: nat)
    requires |lines| == |keep| && lines != [] && n == 1 + Folds(lines[1..]) && !keep[0] && !Uniform(keep[..n])
    ensures Kept(lines, keep) != [] && Continuation(Kept(lines, keep)[0])
  {
    GroupFacts(lines);
    var j :| 1 <= j < n && keep[..n][j] != keep[..n][j - 1];
    assert keep[if keep[j] then j else j - 1];
    var k := FirstKept(lines, keep);
    assert 1 <= k < n && Continuation(lines[..n][k]);
  }

  lemma OrphanInFront(left: seq<string>, rest: seq<string>, rk: seq<bool>)
    requires left != [] && Continuation(left[0]) && StartsAfresh(rest) && |rest| == |rk|
    ensures Fields(left) != Kept(Fields(rest), Heads(rest, rk))
  {
    FieldsAreUnfolded(left);
    FieldsAreUnfolded(rest);
    var first := Fields(left)[0];
    if first in Kept(Fields(rest), Heads(rest, rk)) {
      KeptIsFrom(Fields(rest), Heads(rest, rk), first);
    }
  }

  // ---- The feed ----

  lemma FlagsDropForCause(kind: string -> Kind, lines: seq<string>)
    ensures DroppedFor(l => Dropped(kind(l)), lines, Flags(kind, lines))
  {
    var keep := Flags(kind, lines);
    forall k | 1 <= k < |lines| && keep[k - 1] && !keep[k]
      ensures Dropped(kind(lines[k]))
    {
      assert lines[..k][..k - 1] == lines[..k - 1];
    }
  }

  function KeepFlags(inner: seq<string>): seq<bool> {
    Flags(Classify, inner)
  }

  // A calendar of the standard, its content lines unfolded: well-nested ones between
  // the two wrapper lines.
  ghost predicate UnfoldedCalendar(lines: seq<string>, inner: seq<string>) {
    Between(lines, inner) && StartsAfresh(inner) && Balanced(ContentKind, Fields(inner))
  }

  // What the loop keeps unfolds to the content lines whose first line it keeps.
  ghost predicate NothingTorn(inner: seq<string>) {
    Fields(Kept(inner, KeepFlags(inner))) == Kept(Fields(inner), Heads(inner, KeepFlags(inner)))
  }

  lemma NothingTornIff(inner: seq<string>)
    requires StartsAfresh(inner)
    ensures NothingTorn(inner) <==> NoCut(inner, KeepFlags(inner))
  {
    WholeByKind(Classify, inner);
  }

  lemma WholeByKind(kind: string -> Kind, inner: seq<string>)
    requires StartsAfresh(inner)
    ensures var keep := Flags(kind, inner);
      Fields(Kept(inner, keep)) == Kept(Fields(inner), Heads(inner, keep)) <==> NoCut(inner, keep)
  {
    FlagsDropForCause(kind, inner);
    WholeIff(l => Dropped(kind(l)), inner, Flags(kind, inner));
  }

  function PadFields(inner: seq<string>): seq<seq<string>> {
    if Padding(inner) == [] then [] else [[""]]
  }

  function PaddedFields(inner: seq<string>): seq<seq<string>> {
    Fields(inner) + PadFields(inner)
  }

  function PaddedHeads(inner: seq<string>): (heads: seq<bool>)
    ensures |heads| == |PaddedFields(inner)|
  {
    Heads(inner, KeepFlags(inner)) + PaddingFlags(inner)
  }

  lemma FieldsOfBody(ics: string, inner: seq<string>)
    requires Between(Lines(ics), inner) && StartsAfresh(inner) && NoCut(inner, KeepFlags(inner))
    ensures StartsAfresh(BodyLines(ics))
    ensures Fields(BodyLines(ics)) == Kept(PaddedFields(inner), PaddedHeads(inner))
  {
    var kept := Kept(inner, KeepFlags(inner));
    BodyOfCalendar(ics, inner);
    NothingTornIff(inner);
    NoCutStartsAfresh(inner, KeepFlags(inner));
    KeptAppend(Fields(inner), Heads(inner, KeepFlags(inner)), PadFields(inner), PaddingFlags(inner));
    if Padding(inner) == [] {
      assert kept + [] == kept;
    } else {
      assert kept + [""] == [""];
      EmptyLineField();
    }
  }

  lemma EmptyLineField()
    ensures Fields([""]) == [[""]] && Kept([[""]], [true]) == [[""]] && Fields([]) == []
  {
    assert [""][1..] == [] && [""][..1] == [""];
    assert [[""]][1..] == [] && [true][1..] == [];
    assert [[""]] + [] == [[""]];
  }

  function EachFields(parts: seq<seq<string>>): seq<seq<seq<string>>> {
    seq(|parts|, i requires 0 <= i < |parts| => Fields(parts[i]))
  }

  lemma {:induction false} FieldsFlatten(parts: seq<seq<string>>)
    requires forall i :: 0 <= i < |parts| ==> StartsAfresh(parts[i])
    ensures StartsAfresh(Flatten(parts)) && Fields(Flatten(parts)) == Flatten(EachFields(parts))
  {
    if parts != [] {
      assert forall i :: 0 <= i < |parts[1..]| ==> parts[1..][i] == parts[i + 1];
      FieldsFlatten(parts[1..]);
      FieldsAppend(parts[0], Flatten(parts[1..]));
      assert EachFields(parts)[1..] == EachFields(parts[1..]);
      assert parts[0] == [] ==> parts[0] + Flatten(parts[1..]) == Flatten(parts[1..]);
    }
  }

  function EachPaddedFields(inners: seq<seq<string>>): seq<seq<seq<string>>> {
    seq(|inners|, i requires 0 <= i < |inners| => PaddedFields(inners[i]))
  }

  function EachHeads(inners: seq<seq<string>>): seq<seq<bool>> {
    seq(|inners|, i requires 0 <= i < |inners| => PaddedHeads(inners[i]))
  }

  lemma FieldsOfBodies(objects: seq<string>, inners: seq<seq<string>>)
    requires |inners| == |objects|
    requires forall i :: 0 <= i < |objects| ==>
               Between(Lines(objects[i]), inners[i]) && StartsAfresh(inners[i]) && NoCut(inners[i], KeepFlags(inners[i]))
    ensures StartsAfresh(Bodies(objects))
    ensures Fields(Bodies(objects)) == Flatten(KeptParts(EachPaddedFields(inners), EachHeads(inners)))
  {
    forall i | 0 <= i < |objects|
      ensures StartsAfresh(EachBody(objects)[i])
      ensures Fields(EachBody(objects)[i]) == Kept(PaddedFields(inners[i]), PaddedHeads(inners[i]))
    {
      FieldsOfBody(objects[i], inners[i]);
    }
    FieldsFlatten(EachBody(objects));
    assert EachFields(EachBody(objects)) == KeptParts(EachPaddedFields(inners), EachHeads(inners));
  }

  // Every content line inside a component keeps its first line.
  ghost predicate ComponentsStay(inner: seq<string>) {
    forall k :: 0 <= k < |Fields(inner)| && InComponent(ContentKind, Fields(inner), k) ==>
      Heads(inner, KeepFlags(inner))[k]
  }

  lemma PaddedFieldsFacts(inner: seq<string>)
    requires Balanced(ContentKind, Fields(inner))
    ensures Balanced(ContentKind, PaddedFields(inner))
    ensures Components(ContentKind, PaddedFields(inner), [], []) == Components(ContentKind, Fields(inner), [], [])
    ensures ComponentsStay(inner) <==>
            forall k :: 0 <= k < |PaddedFields(inner)| && InComponent(ContentKind, PaddedFields(inner), k) ==>
              PaddedHeads(inner)[k]
  {
    ContentKindOfOne("");
    assert Upper("") == "";
    assert NoTags(ContentKind, PadFields(inner));
    PadKeepsIff(ContentKind, Fields(inner), Heads(inner, KeepFlags(inner)), PadFields(inner), PaddingFlags(inner));
  }

  lemma PadKeepsIff<T>(kind: T -> Kind, items: seq<T>, keep: seq<bool>, pad: seq<T>, kpad: seq<bool>)
    requires |items| == |keep| && |pad| == |kpad| && Balanced(kind, items) && NoTags(kind, pad)
    ensures Balanced(kind, items + pad)
    ensures Components(kind, items + pad, [], []) == Components(kind, items, [], [])
    ensures (forall k :: 0 <= k < |items| && InComponent(kind, items, k) ==> keep[k])
       <==> (forall k :: 0 <= k < |items + pad| && InComponent(kind, items + pad, k) ==> (keep + kpad)[k])
  {
    PaddingIsNeutral(kind, items, pad);
    assert forall k :: 0 <= k < |items| ==> (keep + kpad)[k] == keep[k];
  }

  // ---- The header of the feed ----

  lemma HeadFields(name: string)
    ensures StartsAfresh(PREAMBLE + [NameLine(name)])
    ensures NoTags(ContentKind, Fields(PREAMBLE + [NameLine(name)]))
  {
    var v, p, n := "VERSION:2.0", "PRODID:-//Mailserver CalDAV//EN", NameLine(name);
    assert PREAMBLE == [v, p];
    assert v[0] == 'V' && p[0] == 'P' && n[0] == 'X';
    ThreeFields(v, p, n);
    StandardTag(v);
    StandardTag(p);
    StandardTag(n);
    ContentKindOfOne(v);
    ContentKindOfOne(p);
    ContentKindOfOne(n);
    Untagged3(ContentKind, [v], [p], [n]);
  }

  lemma ThreeFields(a: string, b: string, c: string)
    requires !Continuation(a) && !Continuation(b) && !Continuation(c)
    ensures Fields([a, b] + [c]) == [[a], [b]] + [[c]]
  {
    FieldsFirst([c], []);
    FieldsFirst([b], [c]);
    FieldsFirst([a], [b, c]);
    assert [c] + [] == [c] && [b] + [c] == [b, c] && [a] + [b, c] == [a, b] + [c];
    assert [[c]] + [] == [[c]] && [[b]] + [[c]] == [[b], [c]] && [[a]] + [[b], [c]] == [[a], [b]] + [[c]];
  }

  lemma FeedFields(name: string, objects: seq<string>)
    requires StartsAfresh(Bodies(objects))
    ensures var bodies := Fields(Bodies(objects));
      && (Balanced(ContentKind, Fields(FeedInner(name, objects))) <==> Balanced(ContentKind, bodies))
      && Components(ContentKind, Fields(FeedInner(name, objects)), [], []) == Components(ContentKind, bodies, [], [])
  {
    var head := PREAMBLE + [NameLine(name)];
    HeadFields(name);
    FieldsAppend(head, Bodies(objects));
    UntaggedIsNeutral(ContentKind, Fields(head));
    InFront(ContentKind, Fields(head), Fields(Bodies(objects)));
  }

  // The content lines of the feed are well nested, with the components of the objects.
  ghost predicate FeedHasComponents(name: string, objects: seq<string>, inners: seq<seq<string>>) {
    && Balanced(ContentKind, Fields(FeedInner(name, objects)))
    && Components(ContentKind, Fields(FeedInner(name, objects)), [], [])
       == PartComponents(ContentKind, EachFields(inners))
  }

  lemma UntornFeedIff(name: string, objects: seq<string>, inners: seq<seq<string>>)
    requires |inners| == |objects|
    requires forall i :: 0 <= i < |objects| ==> UnfoldedCalendar(Lines(objects[i]), inners[i])
    requires forall i :: 0 <= i < |objects| ==> NoCut(inners[i], KeepFlags(inners[i]))
    ensures FeedHasComponents(name, objects, inners) <==> forall i :: 0 <= i < |inners| ==> ComponentsStay(inners[i])
  {
    var parts, heads := EachPaddedFields(inners), EachHeads(inners);
    FieldsOfBodies(objects, inners);
    FeedFields(name, objects);
    forall i | 0 <= i < |inners|
      ensures Balanced(ContentKind, parts[i]) && |parts[i]| == |heads[i]|
      ensures Components(ContentKind, parts[i], [], []) == Components(ContentKind, EachFields(inners)[i], [], [])
      ensures ComponentsStay(inners[i]) <==>
              forall k :: 0 <= k < |parts[i]| && InComponent(ContentKind, parts[i], k) ==> heads[i][k]
    {
      PaddedFieldsFacts(inners[i]);
    }
    CalendarFeed.SameComponents(ContentKind, parts, EachFields(inners));
    PartsStayIff(ContentKind, parts, heads);
  }

  // With folded lines put together again: no content line is torn and the feed has the
  // components of the objects exactly when each content line stays or goes as a whole
  // and those inside components stay.
  lemma FeedIsFaithfulIff(name: string, objects: seq<string>, inners: seq<seq<string>>)
    requires |inners| == |objects|
    requires forall i :: 0 <= i < |objects| ==> UnfoldedCalendar(Lines(objects[i]), inners[i])
    ensures (forall i :: 0 <= i < |inners| ==> NothingTorn(inners[i])) && FeedHasComponents(name, objects, inners)
       <==> forall i :: 0 <= i < |inners| ==> NoCut(inners[i], KeepFlags(inners[i])) && ComponentsStay(inners[i])
  {
    forall i | 0 <= i < |inners|
      ensures NothingTorn(inners[i]) <==> NoCut(inners[i], KeepFlags(inners[i]))
    {
      NothingTornIff(inners[i]);
    }
    if forall i :: 0 <= i < |inners| ==> NoCut(inners[i], KeepFlags(inners[i])) {
      UntornFeedIff(name, objects, inners);
    }
  }

  // ---- A folded header line that breaks the feed ----

  ghost predicate TornFeed(name: string, objects: seq<string>, inners: seq<seq<string>>) {
    && |objects| == |inners|
    && (forall i :: 0 <= i < |objects| ==> UnfoldedCalendar(Lines(objects[i]), inners[i]))
    && !Balanced(ContentKind, Fields(FeedInner(name, objects)))
  }

  // An event, and a second calendar whose PRODID is folded before its own event.
  predicate FoldedHeader(inners: seq<seq<string>>) {
    inners == [["BEGIN:VEVENT", "END:VEVENT"], ["PRODID:-//A", " B", "BEGIN:VEVENT", "END:VEVENT"]]
  }

  ghost predicate HeaderKinds(kind: string -> Kind, b: string, e: string, p: string, c: string) {
    kind(b) == Begin("VEVENT") && kind(e) == End("VEVENT") && kind(p) == Header && kind(c) == Plain
  }

  ghost predicate ContentKinds(kind: seq<string> -> Kind, b: string, e: string, p: string, c: string) {
    && kind([b]) == Begin("VEVENT") && kind([e]) == End("VEVENT") && kind([e, c]) == End("VEVENTB")
    && !IsTag(kind([p, c]))
  }

  lemma HeaderInner(kind: string -> Kind, begin: string, b: string, e: string, p: string, c: string, end: string)
    requires HeaderKinds(kind, b, e, p, c) && kind(begin) == Begin(CALENDAR) && kind(end) == End(CALENDAR)
    ensures Inner(kind, [begin] + [b, e] + [end], false) == [b, e]
    ensures Inner(kind, [begin] + [p, c, b, e] + [end], false) == [c, b, e]
  {
    var last := [end] + [];
    InnerFirst(kind, end, [], true);
    InnerFirst(kind, e, last, true);
    InnerFirst(kind, b, [e] + last, true);
    InnerFirst(kind, c, [b] + ([e] + last), true);
    InnerFirst(kind, p, [c] + ([b] + ([e] + last)), true);
    InnerFirst(kind, begin, [b] + ([e] + last), false);
    InnerFirst(kind, begin, [p] + ([c] + ([b] + ([e] + last))), false);
    assert [begin] + [b, e] + [end] == [begin] + ([b] + ([e] + last));
    assert [begin] + [p, c, b, e] + [end] == [begin] + ([p] + ([c] + ([b] + ([e] + last))));
    assert [b] + ([e] + []) == [b, e] && [c] + ([b] + ([e] + [])) == [c, b, e];
    assert [] + ([c] + ([b] + ([e] + []))) == [c] + ([b] + ([e] + []));
  }

  lemma HeaderFields(kind: seq<string> -> Kind, b: string, e: string, p: string, c: string)
    requires ContentKinds(kind, b, e, p, c)
    requires !Continuation(b) && !Continuation(e) && !Continuation(p) && Continuation(c)
    ensures Balanced(kind, Fields([b, e])) && Balanced(kind, Fields([p, c, b, e]))
    ensures !Balanced(kind, Fields([b, e] + [c, b, e]))
  {
    var event := [[b]] + ([[e]] + []);
    EventFields(b, e, p, c);
    EventScan(kind, b, e);
    ScanFirst(kind, [p, c], event, []);
    ScanFirst(kind, [e, c], event, ["VEVENT"]);
    ScanFirst(kind, [b], [[e, c]] + event, []);
  }

  lemma EventFields(b: string, e: string, p: string, c: string)
    requires !Continuation(b) && !Continuation(e) && !Continuation(p) && Continuation(c)
    ensures var event := [[b]] + ([[e]] + []);
      && Fields([b, e]) == event && Fields([p, c, b, e]) == [[p, c]] + event
      && Fields([b, e] + [c, b, e]) == [[b]] + ([[e, c]] + event)
  {
    PlainEvent(b, e);
    FieldsFirst([p, c], [b, e]);
    assert [p, c] + [b, e] == [p, c, b, e];
    TornEvents(b, e, c);
  }

  lemma PlainEvent(b: string, e: string)
    requires !Continuation(b) && !Continuation(e)
    ensures Fields([b, e]) == [[b]] + ([[e]] + [])
  {
    FieldsFirst([e], []);
    FieldsFirst([b], [e]);
    assert [e] + [] == [e] && [b] + [e] == [b, e];
  }

  lemma TornEvents(b: string, e: string, c: string)
    requires !Continuation(b) && !Continuation(e) && Continuation(c)
    ensures Fields([b, e] + [c, b, e]) == [[b]] + ([[e, c]] + Fields([b, e]))
  {
    FieldsFirst([e, c], [b, e]);
    FieldsFirst([b], [e, c] + [b, e]);
    assert [b] + ([e, c] + [b, e]) == [b, e] + [c, b, e];
  }

  lemma EventScan(kind: seq<string> -> Kind, b: string, e: string)
    requires kind([b]) == Begin("VEVENT") && kind([e]) == End("VEVENT")
    ensures Balanced(kind, [[b]] + ([[e]] + [])) && [] + ["VEVENT"] == ["VEVENT"]
  {
    assert [] + ["VEVENT"] == ["VEVENT"] && ["VEVENT"][..0] == [];
    ScanFirst(kind, [e], [], ["VEVENT"]);
    ScanFirst(kind, [b], [[e]] + [], []);
  }

  lemma HeaderFacts()
    ensures HeaderKinds(Classify, "BEGIN:VEVENT", "END:VEVENT", "PRODID:-//A", " B")
  {
    EventLines();
    ProductLine();
    FoldLine();
  }

  lemma ProductLine()
    ensures Classify("PRODID:-//A") == Header && KindOf(Upper("PRODID:-//A")) == Header
  {
    var p := "PRODID:-//A";
    assert Upper(p) == p && p[..7] == "PRODID:" && p[0] == 'P';
    Starts(p, "BEGIN:");
    Starts(p, "END:");
    NormId(p);
  }

  lemma FoldLine()
    ensures Classify(" B") == Plain
  {
    assert " " + "B" == " B";
    TrimLeadingSpace("B");
    assert Upper("B") == "B";
  }

  lemma ContentFacts()
    ensures ContentKinds(ContentKind, "BEGIN:VEVENT", "END:VEVENT", "PRODID:-//A", " B")
  {
    EventLines();
    ContentKindOfOne("BEGIN:VEVENT");
    ContentKindOfOne("END:VEVENT");
    TornEnd();
    FoldedProduct();
  }

  lemma TailOfOne(line: string)
    requires line != []
    ensures Tails([line]) == line[1..]
  {
    assert [line][1..] == [];
    assert line[1..] + [] == line[1..];
  }

  lemma UnfoldedTwo(a: string, t: string)
    ensures Unfolded([a, " " + t]) == a + t
  {
    assert [a, " " + t][1..] == [" " + t];
    TailOfOne(" " + t);
    assert (" " + t)[1..] == t;
  }

  lemma TornEnd()
    ensures ContentKind(["END:VEVENT", " B"]) == End("VEVENTB")
  {
    var u := "END:VEVENTB";
    UnfoldedTwo("END:VEVENT", "B");
    assert " " + "B" == " B" && "END:VEVENT" + "B" == u;
    assert Upper(u) == u && u[..4] == "END:" && u[4..] == "VEVENTB";
    Disagree(u, "BEGIN:", "END:");
  }

  lemma FoldedProduct()
    ensures !IsTag(ContentKind(["PRODID:-//A", " B"]))
  {
    var u := "PRODID:-//AB";
    UnfoldedTwo("PRODID:-//A", "B");
    assert " " + "B" == " B" && "PRODID:-//A" + "B" == u;
    assert Upper(u) == u && u[0] == 'P';
    Starts(u, "BEGIN:");
    Starts(u, "END:");
  }

  // Two well-nested calendars, each legal, and a feed that is not: PRODID goes, its
  // continuation stays and runs on from the END line of the event before.
  lemma FoldedHeaderBreaksTheFeed(name: string)
    ensures exists objects, inners :: FoldedHeader(inners) && TornFeed(name, objects, inners)
  {
    HeaderFacts();
    ContentFacts();
    BeginLine();
    EndLine();
    StandardWrapperLines();
    var first, second, inners, left1, left2 := FoldedExample(Classify, Standard, ContentKind);
    TornByTwo(name, first, second, inners, left1, left2);
  }

  lemma FoldedExample(kind: string -> Kind, standard: string -> Kind, content: seq<string> -> Kind)
    returns (first: seq<string>, second: seq<string>, inners: seq<seq<string>>, left1: seq<string>, left2: seq<string>)
    requires HeaderKinds(kind, "BEGIN:VEVENT", "END:VEVENT", "PRODID:-//A", " B")
    requires ContentKinds(content, "BEGIN:VEVENT", "END:VEVENT", "PRODID:-//A", " B")
    requires standard("BEGIN:VCALENDAR") == kind("BEGIN:VCALENDAR") == Begin(CALENDAR)
    requires standard("END:VCALENDAR") == kind("END:VCALENDAR") == End(CALENDAR)
    ensures FoldedHeader(inners) && TwoObjects(kind, standard, content, first, second, inners, left1, left2)
    ensures left1 == ["BEGIN:VEVENT", "END:VEVENT"] && left2 == [" B", "BEGIN:VEVENT", "END:VEVENT"]
  {
    var b, e, p, c := "BEGIN:VEVENT", "END:VEVENT", "PRODID:-//A", " B";
    first, second, inners, left1, left2 :=
      TwoCalendars(kind, standard, content, "BEGIN:VCALENDAR", b, e, p, c, "END:VCALENDAR");
  }

  lemma TwoCalendars(kind: string -> Kind, standard: string -> Kind, content: seq<string> -> Kind,
                     begin: string, b: string, e: string, p: string, c: string, end: string)
    returns (first: seq<string>, second: seq<string>, inners: seq<seq<string>>, left1: seq<string>, left2: seq<string>)
    requires HeaderKinds(kind, b, e, p, c) && ContentKinds(content, b, e, p, c)
    requires standard(begin) == kind(begin) == Begin(CALENDAR) && standard(end) == kind(end) == End(CALENDAR)
    requires !Continuation(b) && !Continuation(e) && !Continuation(p) && Continuation(c)
    requires '\n' !in begin && '\n' !in b && '\n' !in e && '\n' !in p && '\n' !in c && '\n' !in end
    ensures inners == [[b, e], [p, c, b, e]] && left1 == [b, e] && left2 == [c, b, e]
    ensures TwoObjects(kind, standard, content, first, second, inners, left1, left2)
  {
    inners, left1, left2 := [[b, e], [p, c, b, e]], [b, e], [c, b, e];
    first, second := [begin] + [b, e] + [end], [begin] + [p, c, b, e] + [end];
    HeaderInner(kind, begin, b, e, p, c, end);
    HeaderFields(content, b, e, p, c);
    assert OneObject(kind, standard, content, first, [b, e], left1);
    assert OneObject(kind, standard, content, second, [p, c, b, e], left2);
  }

  ghost predicate TwoObjects(kind: string -> Kind, standard: string -> Kind, content: seq<string> -> Kind,
                             first: seq<string>, second: seq<string>, inners: seq<seq<string>>,
                             left1: seq<string>, left2: seq<string>)
  {
    && |inners| == 2 && OneObject(kind, standard, content, first, inners[0], left1)
    && OneObject(kind, standard, content, second, inners[1], left2)
    && StartsAfresh(left1) && !Balanced(content, Fields(left1 + left2))
  }

  // The lines of a calendar, its inside, and what the loop keeps of it.
  ghost predicate OneObject(kind: string -> Kind, standard: string -> Kind, content: seq<string> -> Kind,
                            lines: seq<string>, inner: seq<string>, left: seq<string>)
  {
    && (forall l :: l in lines ==> '\n' !in l)
    && |lines| >= 2 && lines == [lines[0]] + inner + [lines[|lines| - 1]]
    && standard(lines[0]) == Begin(CALENDAR) && standard(lines[|lines| - 1]) == End(CALENDAR)
    && StartsAfresh(inner) && Balanced(content, Fields(inner))
    && left == Inner(kind, lines, false) && left != []
  }

  lemma TornByTwo(name: string, first: seq<string>, second: seq<string>, inners: seq<seq<string>>,
                  left1: seq<string>, left2: seq<string>)
    requires TwoObjects(Classify, Standard, ContentKind, first, second, inners, left1, left2)
    ensures exists objects :: TornFeed(name, objects, inners)
  {
    var one, two := CrlfText(first), CrlfText(second);
    StoredObject(first, inners[0], left1);
    StoredObject(second, inners[1], left2);
    BodiesOfTwo(one, two);
    TwoTorn(name, [one, two], inners, left1 + left2);
  }

  lemma TwoTorn(name: string, objects: seq<string>, inners: seq<seq<string>>, bodies: seq<string>)
    requires |objects| == |inners| == 2
    requires UnfoldedCalendar(Lines(objects[0]), inners[0]) && UnfoldedCalendar(Lines(objects[1]), inners[1])
    requires Bodies(objects) == bodies && StartsAfresh(bodies) && !Balanced(ContentKind, Fields(bodies))
    ensures TornFeed(name, objects, inners)
  {
    FeedFields(name, objects);
  }

  lemma StoredObject(lines: seq<string>, inner: seq<string>, left: seq<string>)
    requires OneObject(Classify, Standard, ContentKind, lines, inner, left)
    ensures UnfoldedCalendar(Lines(CrlfText(lines)), inner) && BodyLines(CrlfText(lines)) == left
  {
    LinesOfCrlfText(lines);
  }

  lemma BodiesOfTwo(one: string, two: string)
    ensures Bodies([one, two]) == BodyLines(one) + BodyLines(two)
  {
    assert EachBody([one, two]) == [BodyLines(one)] + [BodyLines(two)];
    FlattenAppend([BodyLines(one)], [BodyLines(two)]);
    FlattenOne(BodyLines(one));
    FlattenOne(BodyLines(two));
  }
}

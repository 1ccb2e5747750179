// Components that open and close in pairs, and what becomes of them when items of the
// text are left out.
module Nesting {
  import opened Text

  datatype Kind = Begin(name: string) | End(name: string) | Header | Plain

  predicate IsTag(k: Kind) { k.Begin? || k.End? }

  // The open components after one more item; None when an END does not match.
  function Step(k: Kind, open: seq<string>): Option<seq<string>> {
    match k
    case Begin(name) => Some(open + [name])
    case End(name) => if open != [] && open[|open| - 1] == name then Some(open[..|open| - 1]) else None
    case _ => Some(open)
  }

  function Scan<T>(kind: T -> Kind, items: seq<T>, open: seq<string>): Option<seq<string>> {
    if items == [] then Some(open)
    else
      match Step(kind(items[0]), open)
      case None => None
      case Some(o) => Scan(kind, items[1..], o)
  }

  predicate Balanced<T>(kind: T -> Kind, items: seq<T>) {
    Scan(kind, items, []) == Some([])
  }

  // The top-level components, each as its items; items outside of any are left out.
  function Components<T>(kind: T -> Kind, items: seq<T>, open: seq<string>, cur: seq<T>): seq<seq<T>> {
    if items == [] then []
    else
      var l, rest := items[0], items[1..];
      match kind(l)
      case Begin(name) => Components(kind, rest, open + [name], cur + [l])
      case End(_) =>
        if |open| <= 1 then [cur + [l]] + Components(kind, rest, [], [])
        else Components(kind, rest, open[..|open| - 1], cur + [l])
      case _ => Components(kind, rest, open, if open == [] then cur else cur + [l])
  }

  // Whether an item belongs to a component, its BEGIN and END included.
  predicate InComponent<T>(kind: T -> Kind, items: seq<T>, k: nat)
    requires k < |items|
  {
    kind(items[k]).Begin? || Scan(kind, items[..k], []) != Some([])
  }

  // ---- Putting texts together ----

  lemma {:induction false} ScanAppend<T>(kind: T -> Kind, a: seq<T>, b: seq<T>, open: seq<string>)
    ensures Scan(kind, a + b, open)
         == match Scan(kind, a, open) case None => None case Some(o) => Scan(kind, b, o)
  {
    if a == [] {
      assert a + b == b;
    } else {
      assert (a + b)[1..] == a[1..] + b;
      match Step(kind(a[0]), open)
      case None =>
      case Some(o) => ScanAppend(kind, a[1..], b, o);
    }
  }

  // What is balanced on its own is balanced inside other components.
  lemma {:induction false} ScanInside<T>(kind: T -> Kind, items: seq<T>, open: seq<string>, outer: seq<string>)
    requires Scan(kind, items, open).Some?
    ensures Scan(kind, items, outer + open) == Some(outer + Scan(kind, items, open).value)
  {
    if items != [] {
      StepInside(kind(items[0]), open, outer);
      ScanInside(kind, items[1..], Step(kind(items[0]), open).value, outer);
    }
  }

  lemma StepInside(k: Kind, open: seq<string>, outer: seq<string>)
    requires Step(k, open).Some?
    ensures Step(k, outer + open) == Some(outer + Step(k, open).value)
  {
    match k
    case Begin(name) => assert outer + open + [name] == outer + (open + [name]);
    case End(name) => assert (outer + open)[..|outer + open| - 1] == outer + open[..|open| - 1];
    case _ =>
  }

  lemma {:induction false} ComponentsAppend<T>(kind: T -> Kind, a: seq<T>, b: seq<T>, open: seq<string>, cur: seq<T>)
    requires Scan(kind, a, open) == Some([]) && (open == [] ==> cur == [])
    ensures Components(kind, a + b, open, cur) == Components(kind, a, open, cur) + Components(kind, b, [], [])
  {
    if a == [] {
      assert a + b == b;
    } else {
      assert (a + b)[1..] == a[1..] + b;
      match kind(a[0])
      case Begin(name) => ComponentsAppend(kind, a[1..], b, open + [name], cur + [a[0]]);
      case End(name) =>
        if |open| == 1 {
          assert open[..0] == [];
          ComponentsAppend(kind, a[1..], b, [], []);
        } else {
          ComponentsAppend(kind, a[1..], b, open[..|open| - 1], cur + [a[0]]);
        }
      case _ => ComponentsAppend(kind, a[1..], b, open, if open == [] then cur else cur + [a[0]]);
    }
  }

  ghost predicate NoTags<T>(kind: T -> Kind, items: seq<T>) {
    forall k :: 0 <= k < |items| ==> !IsTag(kind(items[k]))
  }

  lemma {:induction false} UntaggedIsNeutral<T>(kind: T -> Kind, items: seq<T>)
    requires NoTags(kind, items)
    ensures Balanced(kind, items) && Components(kind, items, [], []) == []
  {
    if items != [] {
      assert forall k :: 0 <= k < |items[1..]| ==> items[1..][k] == items[k + 1];
      UntaggedIsNeutral(kind, items[1..]);
    }
  }

  // A balanced text in front of another neither opens nor hides anything.
  lemma InFront<T>(kind: T -> Kind, a: seq<T>, b: seq<T>)
    requires Balanced(kind, a)
    ensures Balanced(kind, a + b) <==> Balanced(kind, b)
    ensures Components(kind, a + b, [], []) == Components(kind, a, [], []) + Components(kind, b, [], [])
  {
    ScanAppend(kind, a, b, []);
    ComponentsAppend(kind, a, b, [], []);
  }

  // One component around balanced items is balanced.
  lemma WrapNests<T>(kind: T -> Kind, begin: T, inner: seq<T>, end: T, name: string)
    requires kind(begin) == Begin(name) && kind(end) == End(name) && Balanced(kind, inner)
    ensures Balanced(kind, [begin] + inner + [end])
  {
    var ls := [begin] + inner + [end];
    assert ls[1..] == inner + [end];
    assert [] + [name] == [name];
    ScanInside(kind, inner, [], [name]);
    assert [name] + [] == [name];
    ScanAppend(kind, inner, [end], [name]);
    assert [end][1..] == [] && [name][..0] == [];
  }

  // ---- Leaving items out ----

  function Kept<T>(items: seq<T>, keep: seq<bool>): seq<T>
    requires |items| == |keep|
  {
    if items == [] then [] else (if keep[0] then [items[0]] else []) + Kept(items[1..], keep[1..])
  }

  lemma {:induction false} KeptAppend<T>(a: seq<T>, ka: seq<bool>, b: seq<T>, kb: seq<bool>)
    requires |a| == |ka| && |b| == |kb|
    ensures Kept(a + b, ka + kb) == Kept(a, ka) + Kept(b, kb)
  {
    if a == [] {
      assert a + b == b && ka + kb == kb;
    } else {
      assert (a + b)[1..] == a[1..] + b && (ka + kb)[1..] == ka[1..] + kb;
      KeptAppend(a[1..], ka[1..], b, kb);
      Regroup(if ka[0] then [a[0]] else [], Kept(a[1..], ka[1..]), Kept(b, kb));
    }
  }

  lemma Regroup<T>(a: seq<T>, b: seq<T>, c: seq<T>)
    ensures a + (b + c) == (a + b) + c
  {
  }

  // Every item of a component stays.
  predicate AllKept<T>(kind: T -> Kind, items: seq<T>, keep: seq<bool>, open: seq<string>)
    requires |items| == |keep|
  {
    items == [] ||
    (var k := kind(items[0]);
     && (open != [] || IsTag(k) ==> keep[0])
     && match Step(k, open)
        case None => true
        case Some(o) => AllKept(kind, items[1..], keep[1..], o))
  }

  lemma {:induction false} AllKeptIff<T>(kind: T -> Kind, items: seq<T>, keep: seq<bool>, open: seq<string>)
    requires |items| == |keep| && Scan(kind, items, open).Some?
    ensures AllKept(kind, items, keep, open) <==>
            forall k :: 0 <= k < |items| && (kind(items[k]).Begin? || Scan(kind, items[..k], open) != Some([])) ==> keep[k]
  {
    if items != [] {
      var o := Step(kind(items[0]), open).value;
      AllKeptIff(kind, items[1..], keep[1..], o);
      assert items[..0] == [];
      forall k | 0 <= k < |items| - 1
        ensures items[1..][k] == items[k + 1] && keep[1..][k] == keep[k + 1]
        ensures Scan(kind, items[..k + 1], open) == Scan(kind, items[1..][..k], o)
      {
        assert items[..k + 1][1..] == items[1..][..k];
      }
      if AllKept(kind, items, keep, open) {
        forall k | 0 <= k < |items| && (kind(items[k]).Begin? || Scan(kind, items[..k], open) != Some([]))
          ensures keep[k]
        {
          if k > 0 { assert keep[1..][k - 1]; }
        }
      } else if open != [] || IsTag(kind(items[0])) ==> keep[0] {
        var k :| 0 <= k < |items| - 1
                 && (kind(items[1..][k]).Begin? || Scan(kind, items[1..][..k], o) != Some([])) && !keep[1..][k];
        assert !keep[k + 1];
      }
    }
  }

  lemma {:induction false} AllKeptAppend<T>(kind: T -> Kind, a: seq<T>, ka: seq<bool>, b: seq<T>, kb: seq<bool>,
                                            open: seq<string>)
    requires |a| == |ka| && |b| == |kb| && Scan(kind, a, open) == Some([])
    ensures AllKept(kind, a + b, ka + kb, open) <==> AllKept(kind, a, ka, open) && AllKept(kind, b, kb, [])
  {
    if a == [] {
      assert a + b == b && ka + kb == kb;
    } else {
      assert (a + b)[1..] == a[1..] + b && (ka + kb)[1..] == ka[1..] + kb;
      AllKeptAppend(kind, a[1..], ka[1..], b, kb, Step(kind(a[0]), open).value);
    }
  }

  predicate TagsKept<T>(kind: T -> Kind, items: seq<T>, keep: seq<bool>)
    requires |items| == |keep|
  {
    forall k :: 0 <= k < |items| && IsTag(kind(items[k])) ==> keep[k]
  }

  // The components, each without the items that go.
  function KeptComponents<T>(kind: T -> Kind, items: seq<T>, keep: seq<bool>, open: seq<string>, cur: seq<T>)
    : seq<seq<T>>
    requires |items| == |keep|
  {
    if items == [] then []
    else
      var l, rest, keep' := items[0], items[1..], keep[1..];
      match kind(l)
      case Begin(name) => KeptComponents(kind, rest, keep', open + [name], cur + [l])
      case End(_) =>
        if |open| <= 1 then [cur + [l]] + KeptComponents(kind, rest, keep', [], [])
        else KeptComponents(kind, rest, keep', open[..|open| - 1], cur + [l])
      case _ => KeptComponents(kind, rest, keep', open, if open == [] || !keep[0] then cur else cur + [l])
  }

  // As long as no tag goes, the nesting stays and components lose only their own items.
  lemma {:induction false} TagsKeptNest<T>(kind: T -> Kind, items: seq<T>, keep: seq<bool>, open: seq<string>, cur: seq<T>)
    requires |items| == |keep| && TagsKept(kind, items, keep)
    ensures Scan(kind, Kept(items, keep), open) == Scan(kind, items, open)
    ensures Components(kind, Kept(items, keep), open, cur) == KeptComponents(kind, items, keep, open, cur)
  {
    if items != [] {
      var l, rest, keep' := items[0], items[1..], keep[1..];
      assert forall k :: 0 <= k < |rest| ==> rest[k] == items[k + 1] && keep'[k] == keep[k + 1];
      assert TagsKept(kind, rest, keep');
      var tail := Kept(rest, keep');
      assert ([l] + tail)[1..] == tail && [] + tail == tail;
      match kind(l)
      case Begin(name) => TagsKeptNest(kind, rest, keep', open + [name], cur + [l]);
      case End(name) =>
        if |open| <= 1 {
          TagsKeptNest(kind, rest, keep', [], []);
          if |open| == 1 { assert open[..0] == []; }
        } else {
          TagsKeptNest(kind, rest, keep', open[..|open| - 1], cur + [l]);
        }
      case _ => TagsKeptNest(kind, rest, keep', open, if open == [] || !keep[0] then cur else cur + [l]);
    }
  }

  lemma {:induction false} AllKeptLosesNothing<T>(kind: T -> Kind, items: seq<T>, keep: seq<bool>,
                                                  open: seq<string>, cur: seq<T>)
    requires |items| == |keep| && Scan(kind, items, open).Some? && AllKept(kind, items, keep, open)
    ensures TagsKept(kind, items, keep)
    ensures KeptComponents(kind, items, keep, open, cur) == Components(kind, items, open, cur)
  {
    if items != [] {
      var l, rest, keep' := items[0], items[1..], keep[1..];
      match kind(l)
      case Begin(name) => AllKeptLosesNothing(kind, rest, keep', open + [name], cur + [l]);
      case End(name) =>
        if |open| == 1 {
          assert open[..0] == [];
          AllKeptLosesNothing(kind, rest, keep', [], []);
        } else {
          AllKeptLosesNothing(kind, rest, keep', open[..|open| - 1], cur + [l]);
        }
      case _ => AllKeptLosesNothing(kind, rest, keep', open, if open == [] then cur else cur + [l]);
      forall k | 0 <= k < |items| && IsTag(kind(items[k]))
        ensures keep[k]
      {
        if k > 0 { assert items[k] == rest[k - 1] && keep[k] == keep'[k - 1]; }
      }
    }
  }

  // ---- Counting what is left ----

  function TagCount<T>(kind: T -> Kind, items: seq<T>): nat {
    if items == [] then 0 else (if IsTag(kind(items[0])) then 1 else 0) + TagCount(kind, items[1..])
  }

  function Flatten<T>(parts: seq<seq<T>>): seq<T> {
    if parts == [] then [] else parts[0] + Flatten(parts[1..])
  }

  lemma {:induction false} FlattenAppend<T>(a: seq<seq<T>>, b: seq<seq<T>>)
    ensures Flatten(a + b) == Flatten(a) + Flatten(b)
  {
    if a == [] {
      assert a + b == b;
    } else {
      assert (a + b)[1..] == a[1..] + b;
      FlattenAppend(a[1..], b);
    }
  }

  lemma FlattenOne<T>(part: seq<T>)
    ensures Flatten([part]) == part
  {
    assert [part][1..] == [];
  }

  lemma {:induction false} TagCountAppend<T>(kind: T -> Kind, a: seq<T>, b: seq<T>)
    ensures TagCount(kind, a + b) == TagCount(kind, a) + TagCount(kind, b)
  {
    if a == [] {
      assert a + b == b;
    } else {
      assert (a + b)[1..] == a[1..] + b;
      TagCountAppend(kind, a[1..], b);
    }
  }

  lemma TagCountOne<T>(kind: T -> Kind, l: T)
    ensures TagCount(kind, [l]) == if IsTag(kind(l)) then 1 else 0
  {
    assert [l][1..] == [];
  }

  // How many items lie in components.
  function InsideCount<T>(kind: T -> Kind, items: seq<T>, open: seq<string>): nat {
    if items == [] then 0
    else
      var k := kind(items[0]);
      (if open != [] || IsTag(k) then 1 else 0)
      + match Step(k, open)
        case None => 0
        case Some(o) => InsideCount(kind, items[1..], o)
  }

  // The components of a balanced text hold all its tags, and the items inside.
  lemma {:induction false} CountsOfComponents<T>(kind: T -> Kind, items: seq<T>, open: seq<string>, cur: seq<T>)
    requires Scan(kind, items, open) == Some([]) && (open == [] ==> cur == [])
    ensures var all := Flatten(Components(kind, items, open, cur));
      && TagCount(kind, all) == TagCount(kind, cur) + TagCount(kind, items)
      && |all| == |cur| + InsideCount(kind, items, open)
  {
    if items != [] {
      var l, rest := items[0], items[1..];
      TagCountOne(kind, l);
      TagCountAppend(kind, cur, [l]);
      match kind(l)
      case Begin(name) => CountsOfComponents(kind, rest, open + [name], cur + [l]);
      case End(name) =>
        if |open| == 1 {
          assert open[..0] == [];
          CountsOfComponents(kind, rest, [], []);
          var cs := Components(kind, rest, [], []);
          assert ([cur + [l]] + cs)[1..] == cs;
          TagCountAppend(kind, cur + [l], Flatten(cs));
        } else {
          CountsOfComponents(kind, rest, open[..|open| - 1], cur + [l]);
        }
      case _ => CountsOfComponents(kind, rest, open, if open == [] then cur else cur + [l]);
    }
  }

  lemma {:induction false} TagsCounted<T>(kind: T -> Kind, items: seq<T>, keep: seq<bool>)
    requires |items| == |keep|
    ensures TagCount(kind, Kept(items, keep)) <= TagCount(kind, items)
    ensures TagCount(kind, Kept(items, keep)) == TagCount(kind, items) ==> TagsKept(kind, items, keep)
  {
    if items != [] {
      var rest, keep' := items[1..], keep[1..];
      TagsCounted(kind, rest, keep');
      TagCountOne(kind, items[0]);
      TagCountAppend(kind, [items[0]], Kept(rest, keep'));
      assert [] + Kept(rest, keep') == Kept(rest, keep');
      if TagCount(kind, Kept(items, keep)) == TagCount(kind, items) {
        forall k | 0 <= k < |items| && IsTag(kind(items[k]))
          ensures keep[k]
        {
          if k > 0 { assert items[k] == rest[k - 1] && keep[k] == keep'[k - 1]; }
        }
      }
    }
  }

  lemma {:induction false} InsideCounted<T>(kind: T -> Kind, items: seq<T>, keep: seq<bool>, open: seq<string>)
    requires |items| == |keep| && TagsKept(kind, items, keep)
    ensures InsideCount(kind, Kept(items, keep), open) <= InsideCount(kind, items, open)
    ensures InsideCount(kind, Kept(items, keep), open) == InsideCount(kind, items, open) ==>
              AllKept(kind, items, keep, open)
  {
    if items != [] {
      var l, rest, keep' := items[0], items[1..], keep[1..];
      assert forall k :: 0 <= k < |rest| ==> rest[k] == items[k + 1] && keep'[k] == keep[k + 1];
      assert TagsKept(kind, rest, keep');
      var tail := Kept(rest, keep');
      assert ([l] + tail)[1..] == tail && [] + tail == tail;
      match Step(kind(l), open)
      case None =>
      case Some(o) => InsideCounted(kind, rest, keep', o);
    }
  }

  // What is left of a balanced text is balanced with the same components exactly when
  // every item of a component stays.
  lemma ComponentsStayIff<T>(kind: T -> Kind, items: seq<T>, keep: seq<bool>)
    requires |items| == |keep| && Balanced(kind, items)
    ensures Balanced(kind, Kept(items, keep))
            && Components(kind, Kept(items, keep), [], []) == Components(kind, items, [], [])
       <==> AllKept(kind, items, keep, [])
  {
    var left := Kept(items, keep);
    if AllKept(kind, items, keep, []) {
      AllKeptLosesNothing(kind, items, keep, [], []);
      TagsKeptNest(kind, items, keep, [], []);
    }
    if Balanced(kind, left) && Components(kind, left, [], []) == Components(kind, items, [], []) {
      CountsOfComponents(kind, items, [], []);
      CountsOfComponents(kind, left, [], []);
      TagsCounted(kind, items, keep);
      InsideCounted(kind, items, keep, []);
    }
  }

  // ---- Several texts, one after the other ----

  function PartComponents<T>(kind: T -> Kind, parts: seq<seq<T>>): seq<seq<T>> {
    if parts == [] then [] else Components(kind, parts[0], [], []) + PartComponents(kind, parts[1..])
  }

  function KeptParts<T>(parts: seq<seq<T>>, keeps: seq<seq<bool>>): seq<seq<T>>
    requires |parts| == |keeps| && forall i :: 0 <= i < |parts| ==> |parts[i]| == |keeps[i]|
  {
    seq(|parts|, i requires 0 <= i < |parts| => Kept(parts[i], keeps[i]))
  }

  // The components of all parts, each without the items that go.
  function KeptPartComponents<T>(kind: T -> Kind, parts: seq<seq<T>>, keeps: seq<seq<bool>>): seq<seq<T>>
    requires |parts| == |keeps| && forall i :: 0 <= i < |parts| ==> |parts[i]| == |keeps[i]|
  {
    if parts == [] then []
    else KeptComponents(kind, parts[0], keeps[0], [], []) + KeptPartComponents(kind, parts[1..], keeps[1..])
  }

  lemma {:induction false} FlattenParts<T>(kind: T -> Kind, parts: seq<seq<T>>, keeps: seq<seq<bool>>)
    requires |parts| == |keeps| && forall i :: 0 <= i < |parts| ==> |parts[i]| == |keeps[i]| && Balanced(kind, parts[i])
    ensures var all, keep := Flatten(parts), Flatten(keeps);
      && |all| == |keep| && Balanced(kind, all) && Components(kind, all, [], []) == PartComponents(kind, parts)
      && Kept(all, keep) == Flatten(KeptParts(parts, keeps))
      && (AllKept(kind, all, keep, []) <==> forall i :: 0 <= i < |parts| ==> AllKept(kind, parts[i], keeps[i], []))
  {
    if parts != [] {
      var rest, krest := parts[1..], keeps[1..];
      assert forall i :: 0 <= i < |rest| ==> rest[i] == parts[i + 1] && krest[i] == keeps[i + 1];
      FlattenParts(kind, rest, krest);
      InFront(kind, parts[0], Flatten(rest));
      KeptAppend(parts[0], keeps[0], Flatten(rest), Flatten(krest));
      AllKeptAppend(kind, parts[0], keeps[0], Flatten(rest), Flatten(krest), []);
      assert KeptParts(parts, keeps)[1..] == KeptParts(rest, krest);
      assert AllKept(kind, Flatten(rest), Flatten(krest), []) <==>
             forall i :: 1 <= i < |parts| ==> AllKept(kind, parts[i], keeps[i], []) by {
        if forall i :: 1 <= i < |parts| ==> AllKept(kind, parts[i], keeps[i], []) {
          forall i | 0 <= i < |rest| ensures AllKept(kind, rest[i], krest[i], []) {
            assert AllKept(kind, parts[i + 1], keeps[i + 1], []);
          }
        } else {
          var i :| 1 <= i < |parts| && !AllKept(kind, parts[i], keeps[i], []);
          assert !AllKept(kind, rest[i - 1], krest[i - 1], []);
        }
      }
    }
  }

  // What is left of all parts has the components of the parts, one part after the
  // other, exactly when no part loses an item of a component.
  lemma PartsStayIff<T>(kind: T -> Kind, parts: seq<seq<T>>, keeps: seq<seq<bool>>)
    requires |parts| == |keeps| && forall i :: 0 <= i < |parts| ==> |parts[i]| == |keeps[i]| && Balanced(kind, parts[i])
    ensures var left := Flatten(KeptParts(parts, keeps));
      Balanced(kind, left) && Components(kind, left, [], []) == PartComponents(kind, parts)
      <==> forall i, k :: 0 <= i < |parts| && 0 <= k < |parts[i]| && InComponent(kind, parts[i], k) ==> keeps[i][k]
  {
    FlattenParts(kind, parts, keeps);
    ComponentsStayIff(kind, Flatten(parts), Flatten(keeps));
    forall i | 0 <= i < |parts|
      ensures AllKept(kind, parts[i], keeps[i], []) <==>
              forall k :: 0 <= k < |parts[i]| && InComponent(kind, parts[i], k) ==> keeps[i][k]
    {
      AllKeptIff(kind, parts[i], keeps[i], []);
    }
  }

  lemma {:induction false} PartsNest<T>(kind: T -> Kind, parts: seq<seq<T>>, keeps: seq<seq<bool>>)
    requires |parts| == |keeps| && forall i :: 0 <= i < |parts| ==> |parts[i]| == |keeps[i]| && Balanced(kind, parts[i])
    requires forall i :: 0 <= i < |parts| ==> TagsKept(kind, parts[i], keeps[i])
    ensures var left := Flatten(KeptParts(parts, keeps));
      Balanced(kind, left) && Components(kind, left, [], []) == KeptPartComponents(kind, parts, keeps)
  {
    if parts != [] {
      var rest, krest := parts[1..], keeps[1..];
      assert forall i :: 0 <= i < |rest| ==> rest[i] == parts[i + 1] && krest[i] == keeps[i + 1];
      PartsNest(kind, rest, krest);
      TagsKeptNest(kind, parts[0], keeps[0], [], []);
      assert KeptParts(parts, keeps)[1..] == KeptParts(rest, krest);
      InFront(kind, Kept(parts[0], keeps[0]), Flatten(KeptParts(rest, krest)));
    }
  }

  lemma {:induction false} TagsOfParts<T>(kind: T -> Kind, parts: seq<seq<T>>, keeps: seq<seq<bool>>)
    requires |parts| == |keeps| && forall i :: 0 <= i < |parts| ==> |parts[i]| == |keeps[i]| && Balanced(kind, parts[i])
    ensures TagCount(kind, Flatten(KeptPartComponents(kind, parts, keeps))) == TagCount(kind, Flatten(parts))
    ensures TagCount(kind, Flatten(KeptParts(parts, keeps))) <= TagCount(kind, Flatten(parts))
    ensures TagCount(kind, Flatten(KeptParts(parts, keeps))) == TagCount(kind, Flatten(parts)) ==>
              forall i :: 0 <= i < |parts| ==> TagsKept(kind, parts[i], keeps[i])
  {
    if parts != [] {
      var rest, krest := parts[1..], keeps[1..];
      assert forall i :: 0 <= i < |rest| ==> rest[i] == parts[i + 1] && krest[i] == keeps[i + 1];
      TagsOfParts(kind, rest, krest);
      assert KeptParts(parts, keeps)[1..] == KeptParts(rest, krest);
      TagsOfKeptComponents(kind, parts[0], keeps[0], [], []);
      TagsCounted(kind, parts[0], keeps[0]);
      var first := KeptComponents(kind, parts[0], keeps[0], [], []);
      FlattenAppend(first, KeptPartComponents(kind, rest, krest));
      TagCountAppend(kind, Flatten(first), Flatten(KeptPartComponents(kind, rest, krest)));
      TagCountAppend(kind, parts[0], Flatten(rest));
      TagCountAppend(kind, Kept(parts[0], keeps[0]), Flatten(KeptParts(rest, krest)));
      if TagCount(kind, Flatten(KeptParts(parts, keeps))) == TagCount(kind, Flatten(parts)) {
        forall i | 0 <= i < |parts|
          ensures TagsKept(kind, parts[i], keeps[i])
        {
          if i > 0 { assert TagsKept(kind, rest[i - 1], krest[i - 1]); }
        }
      }
    }
  }

  lemma {:induction false} TagsOfKeptComponents<T>(kind: T -> Kind, items: seq<T>, keep: seq<bool>,
                                                   open: seq<string>, cur: seq<T>)
    requires |items| == |keep| && Scan(kind, items, open) == Some([]) && (open == [] ==> cur == [])
    ensures TagCount(kind, Flatten(KeptComponents(kind, items, keep, open, cur)))
         == TagCount(kind, cur) + TagCount(kind, items)
  {
    if items != [] {
      var l, rest, keep' := items[0], items[1..], keep[1..];
      TagCountOne(kind, l);
      TagCountAppend(kind, cur, [l]);
      match kind(l)
      case Begin(name) => TagsOfKeptComponents(kind, rest, keep', open + [name], cur + [l]);
      case End(name) =>
        if |open| == 1 {
          assert open[..0] == [];
          TagsOfKeptComponents(kind, rest, keep', [], []);
          var cs := KeptComponents(kind, rest, keep', [], []);
          assert ([cur + [l]] + cs)[1..] == cs;
          TagCountAppend(kind, cur + [l], Flatten(cs));
        } else {
          TagsOfKeptComponents(kind, rest, keep', open[..|open| - 1], cur + [l]);
        }
      case _ => TagsOfKeptComponents(kind, rest, keep', open, if open == [] || !keep[0] then cur else cur + [l]);
    }
  }

  // What is left is balanced, and each component has lost its own dropped items and
  // nothing else, exactly when no part loses a tag.
  lemma PartsNestIff<T>(kind: T -> Kind, parts: seq<seq<T>>, keeps: seq<seq<bool>>)
    requires |parts| == |keeps| && forall i :: 0 <= i < |parts| ==> |parts[i]| == |keeps[i]| && Balanced(kind, parts[i])
    ensures var left := Flatten(KeptParts(parts, keeps));
      Balanced(kind, left) && Components(kind, left, [], []) == KeptPartComponents(kind, parts, keeps)
      <==> forall i :: 0 <= i < |parts| ==> TagsKept(kind, parts[i], keeps[i])
  {
    var left := Flatten(KeptParts(parts, keeps));
    if forall i :: 0 <= i < |parts| ==> TagsKept(kind, parts[i], keeps[i]) {
      PartsNest(kind, parts, keeps);
    }
    if Balanced(kind, left) && Components(kind, left, [], []) == KeptPartComponents(kind, parts, keeps) {
      CountsOfComponents(kind, left, [], []);
      TagsOfParts(kind, parts, keeps);
    }
  }

  // Items without tags at the end of a part count for nothing.
  lemma {:induction false} KeptComponentsPadded<T>(kind: T -> Kind, items: seq<T>, keep: seq<bool>, pad: seq<T>, kpad: seq<bool>,
                                open: seq<string>, cur: seq<T>)
    requires |items| == |keep| && |pad| == |kpad| && NoTags(kind, pad)
    requires Scan(kind, items, open) == Some([]) && (open == [] ==> cur == [])
    ensures KeptComponents(kind, items + pad, keep + kpad, open, cur) == KeptComponents(kind, items, keep, open, cur)
  {
    if items == [] {
      assert items + pad == pad && keep + kpad == kpad;
      NothingInPad(kind, pad, kpad);
    } else {
      assert (items + pad)[1..] == items[1..] + pad && (keep + kpad)[1..] == keep[1..] + kpad;
      var l, rest, keep' := items[0], items[1..], keep[1..];
      match kind(l)
      case Begin(name) => KeptComponentsPadded(kind, rest, keep', pad, kpad, open + [name], cur + [l]);
      case End(name) =>
        if |open| == 1 {
          assert open[..0] == [];
          KeptComponentsPadded(kind, rest, keep', pad, kpad, [], []);
        } else {
          KeptComponentsPadded(kind, rest, keep', pad, kpad, open[..|open| - 1], cur + [l]);
        }
      case _ => KeptComponentsPadded(kind, rest, keep', pad, kpad, open,
                                     if open == [] || !keep[0] then cur else cur + [l]);
    }
  }

  lemma {:induction false} NothingInPad<T>(kind: T -> Kind, pad: seq<T>, kpad: seq<bool>)
    requires |pad| == |kpad| && NoTags(kind, pad)
    ensures KeptComponents(kind, pad, kpad, [], []) == []
  {
    if pad != [] {
      assert forall k :: 0 <= k < |pad[1..]| ==> pad[1..][k] == pad[k + 1];
      NothingInPad(kind, pad[1..], kpad[1..]);
    }
  }
}

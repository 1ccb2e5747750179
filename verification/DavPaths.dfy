// What every request path under an account stands for.
module DavPaths {
  import opened Text
  import opened DavHrefs

  // The path made of these names under the account, and anything else in it.
  function PathOf(dav: Dav, email: string, names: seq<string>): string {
    Base(dav, email) + "/" + Join(names, "/")
  }

  lemma {:induction false} SplitNames(names: seq<string>)
    requires names != [] && forall n :: n in names ==> IsSegment(n)
    ensures Split(Join(names, "/"), "/") == names
  {
    assert names[0] in names;
    if |names| == 1 {
      OneName(names[0]);
      assert names == [names[0]];
    } else {
      var more := names[1..];
      assert forall n :: n in more ==> n in names;
      SplitNames(more);
      assert names == [names[0]] + more;
      SplitMoreNames(names, names[0], more);
    }
  }

  lemma SplitMoreNames(names: seq<string>, name: string, more: seq<string>)
    requires names == [name] + more && more != [] && IsSegment(name) && Split(Join(more, "/"), "/") == more
    ensures Split(Join(names, "/"), "/") == names
  {
    assert names[1..] == more;
    SplitStep(name, more, Join(more, "/"));
  }

  lemma OneName(name: string)
    requires IsSegment(name)
    ensures Split(name, "/") == [name]
  {
    NoSlash(name);
  }

  lemma SplitStep(name: string, more: seq<string>, tail: string)
    requires IsSegment(name) && Split(tail, "/") == more
    ensures Split(name + "/" + tail, "/") == [name] + more
  {
    SplitSegment(name, tail);
  }

  lemma {:induction false} AllNonEmpty(names: seq<string>)
    requires forall n :: n in names ==> n != []
    ensures NonEmpty(names) == names
  {
    if names != [] {
      assert names[0] in names && forall n :: n in names[1..] ==> n in names;
      AllNonEmpty(names[1..]);
      assert names == [names[0]] + names[1..];
    }
  }

  // The path of one or more names is the home set, a collection or an object if the first
  // names the service and one, two or three are given; else it is the principal.
  lemma NamesParse(dav: Dav, email: string, names: seq<string>)
    requires dav == CALDAV || dav == CARDDAV
    requires names != [] && forall n :: n in names ==> IsSegment(n)
    ensures ParseResource(dav, PathOf(dav, email, names), email)
         == if names[0] != dav.collection || |names| > 3 then Principal
            else if |names| == 1 then HomeSet
            else if |names| == 2 then Collection(names[1])
            else Object(names[1], names[2])
  {
    var tail := Join(names, "/");
    SplitNames(names);
    AllNonEmpty(names);
    PathStarts(dav, email, Base(dav, email) + "/", tail);
  }

  // A path that does not begin with the account's is the principal.
  lemma OthersAreThePrincipal(dav: Dav, email: string, path: string)
    requires !StartsWith(Lower(path), "/" + dav.root + "/" + Lower(email) + "/")
    ensures ParseResource(dav, path, email) == Principal
  {
  }
}

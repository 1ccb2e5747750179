// Lines folded over several: header fields of a message (section 2.2.3 of RFC 5322) and
// content lines of a calendar (section 3.1 of RFC 5545).
module Folding {
  predicate Continuation(line: string) {
    line != [] && (line[0] == ' ' || line[0] == '\t')
  }

  // How many lines at the front continue the field before them.
  function Folds(lines: seq<string>): (n: nat)
    ensures n <= |lines|
    ensures forall i :: 0 <= i < n ==> Continuation(lines[i])
    ensures n < |lines| ==> !Continuation(lines[n])
  {
    if lines != [] && Continuation(lines[0]) then 1 + Folds(lines[1..]) else 0
  }

  // Each field with all the lines it is folded over.
  function Fields(lines: seq<string>): seq<seq<string>> {
    if lines == [] then []
    else
      var n := 1 + Folds(lines[1..]);
      [lines[..n]] + Fields(lines[n..])
  }

  function Flat(fields: seq<seq<string>>): seq<string> {
    if fields == [] then [] else fields[0] + Flat(fields[1..])
  }

  // The grouping is the one of the standard: nothing is lost, every line after the
  // first of a field continues it, and no later field begins with a continuation.
  lemma {:induction false} FieldsAreUnfolded(lines: seq<string>)
    ensures Flat(Fields(lines)) == lines
    ensures forall i, j :: 0 <= i < |Fields(lines)| && 1 <= j < |Fields(lines)[i]| ==> Continuation(Fields(lines)[i][j])
    ensures forall i :: 0 <= i < |Fields(lines)| ==> Fields(lines)[i] != []
    ensures forall i :: 1 <= i < |Fields(lines)| ==> !Continuation(Fields(lines)[i][0])
    ensures lines != [] ==> Fields(lines) != [] && Fields(lines)[0][0] == lines[0]
    decreases |lines|
  {
    if lines != [] {
      var n := 1 + Folds(lines[1..]);
      FieldsAreUnfolded(lines[n..]);
      assert lines == lines[..n] + lines[n..];
      var g := lines[..n];
      forall j | 1 <= j < n
        ensures Continuation(g[j])
      {
        assert g[j] == lines[1..][j - 1];
      }
      if n < |lines| {
        assert lines[n] == lines[1..][n - 1];
      }
    }
  }
}

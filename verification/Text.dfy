// Strings as sequences of characters: the handful of Rust `str` operations the
// other modules rely on, each with the property that fixes its meaning.
module Text {

  datatype Option<+T> = None | Some(value: T)

  // ---- Searching ----

  predicate MatchAt(s: string, i: int, pat: string) {
    0 <= i && i + |pat| <= |s| && s[i..i + |pat|] == pat
  }

  // `str::find` from a given offset: the first match, or None when there is none.
  function FindFrom(s: string, pat: string, from: nat): (r: Option<nat>)
    requires from <= |s|
    ensures r.Some? ==> from <= r.value && MatchAt(s, r.value, pat)
    ensures r.Some? ==> forall j :: from <= j < r.value ==> !MatchAt(s, j, pat)
    ensures r.None? ==> forall j :: from <= j ==> !MatchAt(s, j, pat)
    decreases |s| - from
  {
    if MatchAt(s, from, pat) then Some(from)
    else if from == |s| then None
    else FindFrom(s, pat, from + 1)
  }

  function Find(s: string, pat: string): (r: Option<nat>)
    ensures r.Some? ==> MatchAt(s, r.value, pat) && forall j :: 0 <= j < r.value ==> !MatchAt(s, j, pat)
    ensures r.None? ==> forall j :: 0 <= j ==> !MatchAt(s, j, pat)
  {
    FindFrom(s, pat, 0)
  }

  predicate Contains(s: string, pat: string) {
    Find(s, pat).Some?
  }

  // `str::rfind`: the last match.
  function RFindUpTo(s: string, pat: string, upTo: nat): (r: Option<nat>)
    requires upTo <= |s| + 1
    ensures r.Some? ==> r.value < upTo && MatchAt(s, r.value, pat)
    ensures r.Some? ==> forall j :: r.value < j < upTo ==> !MatchAt(s, j, pat)
    ensures r.None? ==> forall j :: 0 <= j < upTo ==> !MatchAt(s, j, pat)
  {
    if upTo == 0 then None
    else if MatchAt(s, upTo - 1, pat) then Some(upTo - 1)
    else RFindUpTo(s, pat, upTo - 1)
  }

  function RFind(s: string, pat: string): (r: Option<nat>)
    ensures r.Some? ==> MatchAt(s, r.value, pat) && forall j :: r.value < j ==> !MatchAt(s, j, pat)
    ensures r.None? ==> forall j :: 0 <= j ==> !MatchAt(s, j, pat)
  {
    RFindUpTo(s, pat, |s| + 1)
  }

  // The first match is the only position with a match and none before it.
  lemma FindIs(s: string, pat: string, i: nat)
    requires MatchAt(s, i, pat)
    requires forall j :: 0 <= j < i ==> !MatchAt(s, j, pat)
    ensures Find(s, pat) == Some(i)
  {
  }

  // A pattern whose first character does not recur in it is found exactly where it
  // was put, however the text before it ends and whatever follows.
  lemma FindAfter(s: string, pat: string, tail: string)
    requires pat != []
    requires forall j :: 0 < j < |pat| ==> pat[j] != pat[0]
    requires forall j :: 0 <= j ==> !MatchAt(s, j, pat)
    ensures Find(s + pat + tail, pat) == Some(|s|)
  {
    var t := s + pat + tail;
    forall j | 0 <= j < |s|
      ensures !MatchAt(t, j, pat)
    {
      if j + |pat| <= |s| {
        assert s[j..j + |pat|] == t[j..j + |pat|];
        assert !MatchAt(s, j, pat);
      } else if j + |pat| <= |t| {
        assert t[j..j + |pat|][|s| - j] == t[|s|] == pat[0];
      }
    }
    assert t[|s|..|s| + |pat|] == pat;
    FindIs(t, pat, |s|);
  }

  // The first position of a character, or the length when it does not occur.
  function IndexOf(s: string, c: char): (i: nat)
    ensures i <= |s|
    ensures forall j :: 0 <= j < i ==> s[j] != c
    ensures i < |s| ==> s[i] == c
  {
    if s == [] || s[0] == c then 0 else 1 + IndexOf(s[1..], c)
  }

  lemma IndexOfIs(s: string, c: char, i: nat)
    requires i <= |s|
    requires forall j :: 0 <= j < i ==> s[j] != c
    requires i < |s| ==> s[i] == c
    ensures IndexOf(s, c) == i
  {
  }

  // ---- Lines ----

  function StripCr(s: string): string {
    if s != [] && s[|s| - 1] == '\r' then s[..|s| - 1] else s
  }

  // Rust `str::lines`: split at LF, drop one CR before it, no empty last line.
  function Lines(s: string): (ls: seq<string>)
    ensures forall k :: 0 <= k < |ls| ==> '\n' !in ls[k]
    ensures s == [] <==> ls == []
    decreases |s|
  {
    if s == [] then []
    else
      var i := IndexOf(s, '\n');
      if i == |s| then [s] else [StripCr(s[..i])] + Lines(s[i + 1..])
  }

  // Every line followed by CRLF.
  function CrlfText(lines: seq<string>): string {
    if lines == [] then [] else lines[0] + "\r\n" + CrlfText(lines[1..])
  }

  // Lines written with CRLF are read back as they were.
  lemma {:induction false} LinesOfCrlfText(lines: seq<string>)
    requires forall k :: 0 <= k < |lines| ==> '\n' !in lines[k]
    ensures Lines(CrlfText(lines)) == lines
  {
    if lines != [] {
      var first, tail := lines[0], CrlfText(lines[1..]);
      var s := CrlfText(lines);
      assert s == (first + "\r") + ("\n" + tail);
      IndexOfIs(s, '\n', |first| + 1);
      assert s[..|first| + 1] == first + "\r" && s[|first| + 2..] == tail;
      assert (first + "\r")[..|first|] == first;
      LinesOfCrlfText(lines[1..]);
    }
  }

  lemma {:induction false} CrlfTextAppend(a: seq<string>, b: seq<string>)
    ensures CrlfText(a + b) == CrlfText(a) + CrlfText(b)
  {
    if a == [] {
      assert a + b == b;
    } else {
      assert (a + b)[1..] == a[1..] + b;
      CrlfTextAppend(a[1..], b);
    }
  }

  // ---- Pieces ----

  function Join(parts: seq<string>, sep: string): string {
    if parts == [] then []
    else if |parts| == 1 then parts[0]
    else parts[0] + sep + Join(parts[1..], sep)
  }

  // Rust `str::split` by a non-empty pattern.
  function Split(s: string, sep: string): (parts: seq<string>)
    requires sep != []
    ensures parts != []
    decreases |s|
  {
    match Find(s, sep)
    case None => [s]
    case Some(i) => [s[..i]] + Split(s[i + |sep|..], sep)
  }

  lemma {:induction false} JoinSplit(s: string, sep: string)
    requires sep != []
    ensures Join(Split(s, sep), sep) == s
    decreases |s|
  {
    match Find(s, sep)
    case None =>
    case Some(i) =>
      JoinSplit(s[i + |sep|..], sep);
      assert s == s[..i] + s[i..i + |sep|] + s[i + |sep|..];
      assert Split(s, sep)[1..] == Split(s[i + |sep|..], sep);
  }

  function Concat(parts: seq<string>): string {
    if parts == [] then [] else parts[0] + Concat(parts[1..])
  }

  // ---- ASCII case and white space ----

  function LowerChar(c: char): char {
    if 'A' <= c <= 'Z' then (c as int + 32) as char else c
  }

  function UpperChar(c: char): char {
    if 'a' <= c <= 'z' then (c as int - 32) as char else c
  }

  function Lower(s: string): (r: string)
    ensures |r| == |s|
    ensures forall i :: 0 <= i < |s| ==> r[i] == LowerChar(s[i])
  {
    seq(|s|, i requires 0 <= i < |s| => LowerChar(s[i]))
  }

  function Upper(s: string): (r: string)
    ensures |r| == |s|
    ensures forall i :: 0 <= i < |s| ==> r[i] == UpperChar(s[i])
  {
    seq(|s|, i requires 0 <= i < |s| => UpperChar(s[i]))
  }

  predicate IsSpace(c: char) {
    c == ' ' || c == '\t' || c == '\n' || c == '\r' || c == '\U{0B}' || c == '\U{0C}'
  }

  predicate IsControl(c: char) {
    c < ' ' || c == '\U{7F}'
  }

  function TrimStart(s: string): (r: string)
    ensures |r| <= |s| && r == s[|s| - |r|..]
    ensures forall i :: 0 <= i < |s| - |r| ==> IsSpace(s[i])
    ensures r != [] ==> !IsSpace(r[0])
  {
    if s != [] && IsSpace(s[0]) then TrimStart(s[1..]) else s
  }

  function TrimEnd(s: string): (r: string)
    ensures |r| <= |s| && r == s[..|r|]
    ensures forall i :: |r| <= i < |s| ==> IsSpace(s[i])
    ensures r != [] ==> !IsSpace(r[|r| - 1])
  {
    if s != [] && IsSpace(s[|s| - 1]) then TrimEnd(s[..|s| - 1]) else s
  }

  function Trim(s: string): (r: string)
    ensures r != [] ==> !IsSpace(r[0]) && !IsSpace(r[|r| - 1])
  {
    TrimEnd(TrimStart(s))
  }

  // Text that neither begins nor ends with white space is its own trimming.
  lemma TrimId(s: string)
    requires s != [] ==> !IsSpace(s[0]) && !IsSpace(s[|s| - 1])
    ensures Trim(s) == s
  {
  }

  predicate StartsWith(s: string, prefix: string) {
    |prefix| <= |s| && s[..|prefix|] == prefix
  }

  predicate EndsWith(s: string, suffix: string) {
    |suffix| <= |s| && s[|s| - |suffix|..] == suffix
  }
}

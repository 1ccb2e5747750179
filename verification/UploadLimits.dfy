// The sizes and names of an upload, and the paths it takes.
module UploadLimits {
  import opened Text
  import opened TextFacts
  import opened Upload

  // Letters, digits, and these five: . _ / + -
  predicate Allowed(c: char) {
    var n := c as int;
    97 <= n <= 122 || 65 <= n <= 90 || 48 <= n <= 57 || n == 46 || n == 95 || n == 47 || n == 43 || n == 45
  }

  // A path is taken if and only if it is not empty, made of these, and without two dots in a
  // row.
  lemma ValidPathIff(path: string)
    ensures ValidPath(path) <==>
      && |path| > 0
      && (forall i :: 0 <= i < |path| ==> Allowed(path[i]))
      && forall i :: 0 <= i < |path| - 1 ==> !(path[i] == '.' && path[i + 1] == '.')
  {
    assert forall c :: SafeChar(c) <==> Allowed(c);
    NoTwoDotsIff(path);
  }

  lemma TwoDotsAt(s: string, i: int)
    ensures MatchAt(s, i, "..") <==> 0 <= i < |s| - 1 && s[i] == '.' && s[i + 1] == '.'
  {
    if 0 <= i < |s| - 1 { assert s[i..i + 2] == [s[i], s[i + 1]]; }
  }

  lemma NoTwoDotsIff(s: string)
    ensures !Contains(s, "..") <==> forall i :: 0 <= i < |s| - 1 ==> !(s[i] == '.' && s[i + 1] == '.')
  {
    match Find(s, "..")
    case Some(k) => TwoDotsAt(s, k);
    case None =>
      forall i | 0 <= i < |s| - 1
        ensures !(s[i] == '.' && s[i + 1] == '.')
      {
        TwoDotsAt(s, i);
      }
  }

  // Every chunk but the last is 49152 bytes long.
  lemma {:induction false} FullChunks(data: Bytes, i: nat)
    requires i + 1 < |Chunks(data)|
    ensures |Chunks(data)[i]| == 49152
    decreases |data|
  {
    if i > 0 { FullChunks(data[CHUNK..], i - 1); }
  }

  // The file is written next to its final place.
  lemma TemporaryName(path: string)
    ensures path + TEMP_SUFFIX == path + ".mailserver-new"
  {
  }

  // A message that the file is there, or not; and a command that reports any other status
  // than zero has not worked.
  lemma OnlyZeroIsSuccess(o: Outcome)
    ensures Success(o) <==> exists applied :: o == Exit(0, applied)
  {
    if Success(o) { assert o == Exit(0, o.applied); }
  }
}

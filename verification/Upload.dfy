// The upload of one file over remote shell commands, with a fault possible at every one
// of them, and the file it publishes.
module Upload {
  import opened Text

  type Bytes = seq<bv8>

  const CHUNK: nat := 48 * 1024
  const TEMP_SUFFIX: string := ".mailserver-new"

  // ---- What one remote command may do ----

  // Exit: the shell reports a status. Broken: the session fails before a status arrives.
  // `applied` says how much of the command took effect when it did not report success:
  // the number of bytes of an append, or (non-zero) that a truncation or move happened.
  datatype Outcome = Exit(code: int, applied: nat) | Broken(applied: nat)

  predicate Success(o: Outcome) { o.Exit? && o.code == 0 }

  datatype Result = Uploaded | Skipped | Failed

  // ---- Paths ----

  predicate SafeChar(c: char) {
    'a' <= c <= 'z' || 'A' <= c <= 'Z' || '0' <= c <= '9' || c in "._/+-"
  }

  predicate ValidPath(path: string) {
    && path != []
    && (forall i :: 0 <= i < |path| ==> SafeChar(path[i]))
    && !Contains(path, "..")
  }

  // The text before the last slash, if there is one.
  function Parent(path: string): Option<string> {
    match RFind(path, "/")
    case None => None
    case Some(i) => Some(if i == 0 then "/" else path[..i])
  }

  // ---- Chunks ----

  function Chunks(data: Bytes): seq<Bytes>
    decreases |data|
  {
    if data == [] then []
    else if |data| <= CHUNK then [data]
    else [data[..CHUNK]] + Chunks(data[CHUNK..])
  }

  function Concat(parts: seq<Bytes>): Bytes {
    if parts == [] then [] else Concat(parts[..|parts| - 1]) + parts[|parts| - 1]
  }

  lemma {:induction false} ConcatAppend(a: seq<Bytes>, b: seq<Bytes>)
    ensures Concat(a + b) == Concat(a) + Concat(b)
  {
    if b == [] {
      assert a + b == a;
    } else {
      var init, last := b[..|b| - 1], b[|b| - 1];
      ConcatAppend(a, init);
      assert (a + b)[..|a + b| - 1] == a + init;
      AppendAssoc(Concat(a), Concat(init), last);
    }
  }

  lemma {:induction false} ChunksConcat(data: Bytes)
    ensures Concat(Chunks(data)) == data
    ensures forall i :: 0 <= i < |Chunks(data)| ==> 0 < |Chunks(data)[i]| <= CHUNK
    decreases |data|
  {
    if 0 < |data| <= CHUNK {
      assert [data][..0] == [];
    } else if data != [] {
      ChunksConcat(data[CHUNK..]);
      ConcatAppend([data[..CHUNK]], Chunks(data[CHUNK..]));
      assert [data[..CHUNK]][..0] == [];
      assert data == data[..CHUNK] + data[CHUNK..];
    }
  }

  // ---- The remote host ----

  function At(files: map<string, Bytes>, path: string): Option<Bytes> {
    if path in files then Some(files[path]) else None
  }

  // What is left of the outcomes after one command.
  function Rest(script: seq<Outcome>): seq<Outcome> {
    if script == [] then [] else script[1..]
  }

  // The next commands all succeed.
  ghost predicate Works(script: seq<Outcome>, n: nat) {
    |script| >= n && forall k :: 0 <= k < n ==> script[k] == Exit(0, 0)
  }

  lemma WorksOn(script: seq<Outcome>, n: nat)
    requires Works(script, n + 1)
    ensures Works(script, 1) && Works(Rest(script), n)
  {
  }

  class Remote {
    var files: map<string, Bytes>
    var script: seq<Outcome>

    // What a reader of `watched` has seen there after each command so far.
    ghost var watched: string
    ghost var seen: seq<Option<Bytes>>

    constructor (files: map<string, Bytes>, script: seq<Outcome>, ghost watched: string)
      ensures this.files == files && this.script == script && this.watched == watched && seen == []
    {
      this.files, this.script := files, script;
      this.watched, seen := watched, [];
    }

    // The outcome of the next command; a session without one breaks.
    method NextOutcome() returns (o: Outcome)
      modifies this`script
      ensures o == if old(script) == [] then Broken(0) else old(script)[0]
      ensures script == Rest(old(script))
    {
      if script == [] {
        return Broken(0);
      }
      o := script[0];
      script := script[1..];
    }

    ghost method Observe()
      modifies this`seen
      ensures seen == old(seen) + [At(files, watched)]
    {
      seen := seen + [At(files, watched)];
    }

    // A command that changes no file: mkdir, chmod.
    method Inspect() returns (o: Outcome)
      modifies this`script, this`seen
      ensures seen == old(seen) + [At(files, watched)] && script == Rest(old(script))
      ensures Works(old(script), 1) ==> Success(o)
    {
      o := NextOutcome();
      Observe();
    }

    // `test -e path`: a status tells whether there is such a file.
    method Exists(path: string) returns (found: Option<bool>)
      modifies this`script, this`seen
      ensures seen == old(seen) + [At(files, watched)] && script == Rest(old(script))
      ensures found.Some? ==> found.value == (path in files)
      ensures Works(old(script), 1) ==> found.Some?
    {
      var o := NextOutcome();
      found := if o.Exit? then Some(path in files) else None;
      Observe();
    }

    // `: > path`
    method Truncate(path: string) returns (o: Outcome)
      modifies this
      ensures watched == old(watched) && seen == old(seen) + [At(files, watched)]
      ensures files == old(files) || files == old(files)[path := []]
      ensures Success(o) ==> files == old(files)[path := []]
      ensures script == Rest(old(script)) && (Works(old(script), 1) ==> Success(o))
    {
      o := NextOutcome();
      if Success(o) || o.applied > 0 {
        files := files[path := []];
      }
      Observe();
    }

    // `printf '%s' chunk | base64 -d >> path`
    method Append(path: string, chunk: Bytes) returns (o: Outcome)
      modifies this
      ensures watched == old(watched) && seen == old(seen) + [At(files, watched)]
      ensures SameBut({path}, old(files), files) && path in files
      ensures Success(o) ==> path in files && files[path] == OrEmpty(At(old(files), path)) + chunk
      ensures script == Rest(old(script)) && (Works(old(script), 1) ==> Success(o))
    {
      o := NextOutcome();
      var n := if Success(o) || o.applied > |chunk| then |chunk| else o.applied;
      files := files[path := OrEmpty(At(files, path)) + chunk[..n]];
      assert chunk[..|chunk|] == chunk;
      Observe();
    }

    // `stat -c %s path`: the size when it succeeds and its output can be read.
    method StatSize(path: string) returns (o: Outcome, size: Option<nat>)
      modifies this`script, this`seen
      ensures seen == old(seen) + [At(files, watched)]
      ensures size.Some? ==> Success(o) && path in files && size.value == |files[path]|
      ensures script == Rest(old(script)) && (Works(old(script), 1) && path in files ==> size.Some?)
    {
      o := NextOutcome();
      if path !in files && Success(o) {
        o := Exit(1, 0);
      }
      size := if Success(o) && o.applied == 0 then Some(|files[path]|) else None;
      Observe();
    }

    // `mv -f from to`, on one file system
    method Move(from: string, to: string) returns (o: Outcome)
      requires from != to
      modifies this
      ensures watched == old(watched) && seen == old(seen) + [At(files, watched)]
      ensures files == old(files) ||
              (from in old(files) && files == old(files)[to := old(files)[from]] - {from})
      ensures Success(o) ==> from in old(files) && files == old(files)[to := old(files)[from]] - {from}
      ensures script == Rest(old(script)) && (Works(old(script), 1) && from in old(files) ==> Success(o))
    {
      o := NextOutcome();
      if from !in files {
        o := if Success(o) then Exit(1, 0) else o;
      } else if Success(o) || o.applied > 0 {
        files := files[to := files[from]] - {from};
      }
      Observe();
    }
  }

  function OrEmpty(b: Option<Bytes>): Bytes {
    if b.Some? then b.value else []
  }

  // ---- The upload ----

  // Nothing but the old content was seen at the final path.
  ghost predicate OnlyOld(seen0: seq<Option<Bytes>>, seen: seq<Option<Bytes>>, was: Option<Bytes>) {
    && |seen| >= |seen0| && seen[..|seen0|] == seen0
    && forall k :: |seen0| <= k < |seen| ==> seen[k] == was
  }

  // The same, except that the last command of all may have published the new content.
  ghost predicate OldUntilTheEnd(seen0: seq<Option<Bytes>>, seen: seq<Option<Bytes>>,
                                 was: Option<Bytes>, data: Option<Bytes>)
  {
    OnlyOld(seen0, seen, was) ||
    (seen != [] && OnlyOld(seen0, seen[..|seen| - 1], was) && data.Some? && seen[|seen| - 1] == data)
  }

  lemma StillOld(seen0: seq<Option<Bytes>>, seen: seq<Option<Bytes>>, was: Option<Bytes>)
    requires OnlyOld(seen0, seen, was)
    ensures OnlyOld(seen0, seen + [was], was)
  {
    assert (seen + [was])[..|seen0|] == seen[..|seen0|];
  }

  lemma PublishedLast(seen0: seq<Option<Bytes>>, seen: seq<Option<Bytes>>, was: Option<Bytes>, data: Option<Bytes>)
    requires OnlyOld(seen0, seen, was) && data.Some?
    ensures OldUntilTheEnd(seen0, seen + [data], was, data)
  {
    assert (seen + [data])[..|seen|] == seen;
  }

  // The two file systems agree outside these paths.
  ghost predicate SameBut(paths: set<string>, a: map<string, Bytes>, b: map<string, Bytes>) {
    forall path :: path !in paths ==> At(a, path) == At(b, path)
  }

  lemma TempIsAnotherPath(path: string)
    ensures path + TEMP_SUFFIX != path
  {
    assert |path + TEMP_SUFFIX| > |path|;
  }

  lemma ConcatStep(parts: seq<Bytes>, i: nat)
    requires i < |parts|
    ensures Concat(parts[..i + 1]) == Concat(parts[..i]) + parts[i]
  {
    assert parts[..i + 1][..i] == parts[..i];
  }

  lemma AppendAssoc(a: Bytes, b: Bytes, c: Bytes)
    ensures (a + b) + c == a + (b + c)
  {
  }

  method AppendOne(r: Remote, path: string, chunk: Bytes, ghost n: nat) returns (o: Outcome)
    modifies r
    ensures r.watched == old(r.watched) && r.seen == old(r.seen) + [At(r.files, r.watched)]
    ensures SameBut({path}, old(r.files), r.files) && path in r.files
    ensures Success(o) ==> OrEmpty(At(r.files, path)) == OrEmpty(At(old(r.files), path)) + chunk
    ensures Works(old(r.script), n + 1) ==> Success(o) && Works(r.script, n)
  {
    if Works(r.script, n + 1) { WorksOn(r.script, n); }
    o := r.Append(path, chunk);
  }

  // Writes the chunks one after the other; a command that fails ends the upload.
  method AppendChunks(r: Remote, temp: string, data: Bytes) returns (ok: bool)
    requires r.watched != temp
    modifies r
    ensures r.watched == old(r.watched) && SameBut({temp}, old(r.files), r.files)
    ensures OnlyOld(old(r.seen), r.seen, At(old(r.files), r.watched))
    ensures ok ==> OrEmpty(At(r.files, temp)) == OrEmpty(At(old(r.files), temp)) + data
    ensures temp in old(r.files) ==> temp in r.files
    ensures Works(old(r.script), |Chunks(data)| + 3) ==> ok && Works(r.script, 3)
  {
    var chunks := Chunks(data);
    ChunksConcat(data);
    ghost var works := Works(r.script, |chunks| + 3);
    ghost var stale, seen0, was := OrEmpty(At(r.files, temp)), r.seen, At(r.files, r.watched);
    for i := 0 to |chunks|
      invariant r.watched == old(r.watched) && SameBut({temp}, old(r.files), r.files)
      invariant OnlyOld(seen0, r.seen, was)
      invariant OrEmpty(At(r.files, temp)) == stale + Concat(chunks[..i])
      invariant temp in old(r.files) ==> temp in r.files
      invariant works ==> Works(r.script, |chunks| - i + 3)
    {
      ghost var before := r.seen;
      var o := AppendOne(r, temp, chunks[i], |chunks| - i + 2);
      StillOld(seen0, before, was);
      if !Success(o) {
        return false;
      }
      assert OrEmpty(At(r.files, temp)) == stale + Concat(chunks[..i + 1]) by {
        ConcatStep(chunks, i);
        AppendAssoc(stale, Concat(chunks[..i]), chunks[i]);
      }
    }
    assert chunks[..|chunks|] == chunks;
    ok := true;
  }

  // Truncate, append, verify the size, set the mode, move. The exit code of the
  // truncation is ignored; the size check catches what it may have left.
  method Publish(r: Remote, data: Bytes, path: string, temp: string) returns (res: Result)
    requires r.watched == path && temp != path
    modifies r
    ensures OldUntilTheEnd(old(r.seen), r.seen, At(old(r.files), path), Some(data))
    ensures At(r.files, path) == At(old(r.files), path) || At(r.files, path) == Some(data)
    ensures res == Failed || (res == Uploaded && At(r.files, path) == Some(data))
    ensures SameBut({path, temp}, old(r.files), r.files)
    ensures Works(old(r.script), |Chunks(data)| + 4) ==> res == Uploaded
  {
    ghost var seen0, was := r.seen, At(r.files, path);
    if Works(r.script, |Chunks(data)| + 4) { WorksOn(r.script, |Chunks(data)| + 3); }
    var t := r.Truncate(temp);
    StillOld(seen0, seen0, was);
    if t.Broken? {
      return Failed;
    }
    ghost var seen1 := r.seen;
    assert Success(t) ==> OrEmpty(At(r.files, temp)) + data == data;
    var ok := AppendChunks(r, temp, data);
    OnlyOldTrans(seen0, seen1, r.seen, was);
    if !ok {
      return Failed;
    }
    res := Finish(r, data, path, temp, seen0, was);
  }

  lemma OnlyOldTrans(a: seq<Option<Bytes>>, b: seq<Option<Bytes>>, c: seq<Option<Bytes>>, was: Option<Bytes>)
    requires OnlyOld(a, b, was) && OnlyOld(b, c, was)
    ensures OnlyOld(a, c, was)
  {
    assert c[..|a|] == c[..|b|][..|a|];
    forall k | |a| <= k < |c|
      ensures c[k] == was
    {
      if k < |b| { assert c[k] == c[..|b|][k] == b[k]; }
    }
  }

  method Finish(r: Remote, data: Bytes, path: string, temp: string,
                ghost seen0: seq<Option<Bytes>>, ghost was: Option<Bytes>) returns (res: Result)
    requires r.watched == path && temp != path && was == At(r.files, path)
    requires OnlyOld(seen0, r.seen, was)
    requires exists stale: Bytes :: OrEmpty(At(r.files, temp)) == stale + data
    modifies r
    ensures OldUntilTheEnd(seen0, r.seen, was, Some(data))
    ensures At(r.files, path) == was || At(r.files, path) == Some(data)
    ensures res == Failed || (res == Uploaded && At(r.files, path) == Some(data))
    ensures SameBut({path, temp}, old(r.files), r.files)
    ensures Works(old(r.script), 3) && At(old(r.files), temp) == Some(data) ==> res == Uploaded
  {
    ghost var stale: Bytes :| OrEmpty(At(r.files, temp)) == stale + data;
    ghost var seen1 := r.seen;
    var s, size := r.StatSize(temp);
    StillOld(seen0, seen1, was);
    if size.None? || size.value != |data| {
      return Failed;
    }
    assert stale == [] && r.files[temp] == data by { assert [] + data == data; }
    ghost var seen2 := r.seen;
    var c := r.Inspect();
    StillOld(seen0, seen2, was);
    if !Success(c) {
      return Failed;
    }
    ghost var seen3 := r.seen;
    var m := r.Move(temp, path);
    if At(r.files, path) == was {
      StillOld(seen0, seen3, was);
    } else {
      PublishedLast(seen0, seen3, was, Some(data));
    }
    res := if Success(m) then Uploaded else Failed;
  }

  lemma ParentIsValid(path: string)
    requires ValidPath(path)
    ensures Parent(path).Some? ==> ValidPath(Parent(path).value)
  {
    match RFind(path, "/")
    case None =>
    case Some(i) => if i > 0 { FrontHasNone(path, i, ".."); }
  }

  lemma FrontHasNone(s: string, n: nat, pat: string)
    requires n <= |s| && !Contains(s, pat)
    ensures !Contains(s[..n], pat)
  {
    forall j | 0 <= j
      ensures !MatchAt(s[..n], j, pat)
    {
      assert !MatchAt(s, j, pat);
      if j + |pat| <= n { assert s[..n][j..j + |pat|] == s[j..j + |pat|]; }
    }
  }

  // `local` is the content of the local file, None when it cannot be read.
  method UploadFile(r: Remote, local: Option<Bytes>, path: string, skipIfExists: bool) returns (res: Result)
    requires r.watched == path
    modifies r
    ensures OldUntilTheEnd(old(r.seen), r.seen, At(old(r.files), path), local)
    ensures At(r.files, path) == At(old(r.files), path) || (local.Some? && At(r.files, path) == local)
    ensures res.Uploaded? ==> ValidPath(path) && local.Some? && At(r.files, path) == local
    ensures res.Skipped? ==> skipIfExists && path in old(r.files) && r.files == old(r.files)
    ensures skipIfExists && path in old(r.files) ==> r.files == old(r.files) && !res.Uploaded?
    ensures ValidPath(path) && ValidPath(path + TEMP_SUFFIX) && local.Some? && Works(old(r.script), |Chunks(local.value)| + 6)
            ==> res == if skipIfExists && path in old(r.files) then Skipped else Uploaded
    ensures SameBut({path, path + TEMP_SUFFIX}, old(r.files), r.files)
  {
    ghost var seen0, was := r.seen, At(r.files, path);
    if !ValidPath(path) {
      return Failed;
    }
    if skipIfExists {
      var found := r.Exists(path);
      StillOld(seen0, seen0, was);
      if found.None? {
        return Failed;
      }
      if found.value {
        return Skipped;
      }
    }
    ghost var seen1 := r.seen;
    var temp := path + TEMP_SUFFIX;
    var parent := Parent(path);
    ParentIsValid(path);
    if local.None? || !ValidPath(temp) {
      return Failed;
    }
    if parent.Some? && parent.value != "/" {
      if !ValidPath(parent.value) {
        return Failed;
      }
      var m := r.Inspect();
      StillOld(seen0, seen1, was);
      if m.Broken? {
        return Failed;
      }
    }
    TempIsAnotherPath(path);
    ghost var seen2 := r.seen;
    res := Publish(r, local.value, path, temp);
    OldUntilTheEndTrans(seen0, seen2, r.seen, was, local);
  }

  lemma OldUntilTheEndTrans(a: seq<Option<Bytes>>, b: seq<Option<Bytes>>, c: seq<Option<Bytes>>,
                            was: Option<Bytes>, data: Option<Bytes>)
    requires OnlyOld(a, b, was) && OldUntilTheEnd(b, c, was, data)
    ensures OldUntilTheEnd(a, c, was, data)
  {
    if OnlyOld(b, c, was) {
      OnlyOldTrans(a, b, c, was);
    } else {
      OnlyOldTrans(a, b, c[..|c| - 1], was);
    }
  }
}

// The lockout of the admin login: failures per address are counted in a window that
// starts at the first of them, and the fifth starts a ban. One request is one step.
// Times are nanoseconds of a monotone clock.
module LoginLockout {
  import opened Text

  const MAX_FAILURES: nat := 5
  const WINDOW: int := 900_000_000_000
  const BAN_DURATION: int := 900_000_000_000

  datatype FailureRecord = FailureRecord(count: nat, firstAt: int, bannedUntil: Option<int>)

  // ---- Generations ----
  //
  // The admitted failures of one address since its last success, grouped: a generation
  // is what one record counts.

  function Last(g: seq<int>): int
    requires g != []
  {
    g[|g| - 1]
  }

  ghost predicate Generation(g: seq<int>) {
    && 1 <= |g| <= MAX_FAILURES
    && (forall i, j :: 0 <= i < j < |g| ==> g[i] <= g[j])
    && Last(g) <= g[0] + WINDOW
  }

  // From time t on, a new generation may follow g.
  ghost predicate Over(g: seq<int>, t: int)
    requires g != []
  {
    if |g| >= MAX_FAILURES then t >= Last(g) + BAN_DURATION else t > g[0] + WINDOW
  }

  ghost predicate WellSpaced(gens: seq<seq<int>>) {
    && (forall i :: 0 <= i < |gens| ==> Generation(gens[i]))
    && (forall i :: 0 < i < |gens| ==> Over(gens[i - 1], gens[i][0]))
  }

  ghost function Flat(gens: seq<seq<int>>): seq<int> {
    if gens == [] then [] else Flat(gens[..|gens| - 1]) + gens[|gens| - 1]
  }

  lemma FlatSnoc(gens: seq<seq<int>>, g: seq<int>)
    ensures Flat(gens + [g]) == Flat(gens) + g
  {
    assert (gens + [g])[..|gens|] == gens;
  }

  // How many of the times lie in the half-open interval from lo to hi.
  ghost function CountIn(ts: seq<int>, lo: int, hi: int): nat {
    if ts == [] then 0
    else CountIn(ts[..|ts| - 1], lo, hi) + if lo <= ts[|ts| - 1] < hi then 1 else 0
  }

  lemma {:induction false} CountAppend(a: seq<int>, b: seq<int>, lo: int, hi: int)
    ensures CountIn(a + b, lo, hi) == CountIn(a, lo, hi) + CountIn(b, lo, hi)
  {
    if b == [] {
      assert a + b == a;
    } else {
      assert (a + b)[..|a + b| - 1] == a + b[..|b| - 1];
      CountAppend(a, b[..|b| - 1], lo, hi);
    }
  }

  lemma {:induction false} CountAtMost(ts: seq<int>, lo: int, hi: int)
    ensures CountIn(ts, lo, hi) <= |ts|
    ensures (forall i :: 0 <= i < |ts| ==> ts[i] < lo) ==> CountIn(ts, lo, hi) == 0
    ensures (forall i :: 0 <= i < |ts| ==> ts[i] >= hi) ==> CountIn(ts, lo, hi) == 0
    ensures ts != [] && ts[0] < lo ==> CountIn(ts, lo, hi) < |ts|
  {
    if ts != [] {
      CountAtMost(ts[..|ts| - 1], lo, hi);
    }
  }

  // Everything before a generation lies before its first failure.
  lemma {:induction false} EarlierIsBefore(gens: seq<seq<int>>, k: nat)
    requires WellSpaced(gens) && k < |gens|
    ensures forall i :: 0 <= i < |Flat(gens[..k])| ==> Flat(gens[..k])[i] < gens[k][0]
  {
    if k > 0 {
      EarlierIsBefore(gens, k - 1);
      assert gens[..k][..k - 1] == gens[..k - 1];
      var g := gens[k - 1];
      assert Flat(gens[..k]) == Flat(gens[..k - 1]) + g;
      assert Over(g, gens[k][0]);
      assert forall i :: 0 <= i < |g| ==> g[i] <= Last(g);
    }
  }

  lemma TwoGenerations(g: seq<int>, h: seq<int>, from: int)
    requires Generation(g) && Generation(h) && Over(g, h[0]) && h[0] < from + WINDOW
    ensures g[0] < from
    ensures CountIn(g, from, from + WINDOW) + CountIn(h, from, from + WINDOW) <= 2 * MAX_FAILURES - 2
  {
    CountAtMost(g, from, from + WINDOW);
    CountAtMost(h, from, from + WINDOW);
    if |g| == MAX_FAILURES {
      assert forall i :: 0 <= i < |g| ==> g[i] <= Last(g);
    }
  }

  // The numeric bound: 2 * MAX_FAILURES - 2 failures in any half-open window.
  lemma {:induction false} AtMostEightInAnyWindow(gens: seq<seq<int>>, from: int)
    requires WellSpaced(gens)
    ensures CountIn(Flat(gens), from, from + WINDOW) <= 2 * MAX_FAILURES - 2
  {
    var n := |gens|;
    if n > 0 {
      var init, h := gens[..n - 1], gens[n - 1];
      if h[0] >= from + WINDOW {
        AtMostEightInAnyWindow(init, from);
        CountAppend(Flat(init), h, from, from + WINDOW);
        CountAtMost(h, from, from + WINDOW);
      } else if n == 1 {
        CountAppend(Flat(init), h, from, from + WINDOW);
        CountAtMost(h, from, from + WINDOW);
      } else {
        assert Over(gens[n - 1 - 1], gens[n - 1][0]);
        assert init[..n - 2] == gens[..n - 2];
        EarlierIsBefore(gens, n - 2);
        WithLastTwo(Flat(gens[..n - 2]), gens[n - 2], h, from);
      }
    }
  }

  lemma WithLastTwo(p: seq<int>, g: seq<int>, h: seq<int>, from: int)
    requires Generation(g) && Generation(h) && Over(g, h[0]) && h[0] < from + WINDOW
    requires forall i :: 0 <= i < |p| ==> p[i] < g[0]
    ensures CountIn(p + g + h, from, from + WINDOW) <= 2 * MAX_FAILURES - 2
  {
    TwoGenerations(g, h, from);
    CountAppend(p + g, h, from, from + WINDOW);
    CountAppend(p, g, from, from + WINDOW);
    CountAtMost(p, from, from + WINDOW);
  }

  lemma {:induction false} CountAll(ts: seq<int>, lo: int, hi: int)
    requires forall i :: 0 <= i < |ts| ==> lo <= ts[i] < hi
    ensures CountIn(ts, lo, hi) == |ts|
  {
    if ts != [] {
      CountAll(ts[..|ts| - 1], lo, hi);
    }
  }

  // Nothing is admitted until the ban that the fifth failure started has run out.
  lemma {:induction false} NothingDuringBan(gens: seq<seq<int>>, i: nat, j: nat, k: nat)
    requires WellSpaced(gens) && i < j < |gens| && k < |gens[j]|
    requires |gens[i]| == MAX_FAILURES
    ensures gens[j][k] >= Last(gens[i]) + BAN_DURATION
    decreases j
  {
    assert gens[j][k] >= gens[j][0];
    assert Over(gens[j - 1], gens[j][0]);
    if i < j - 1 {
      NothingDuringBan(gens, i, j - 1, 0);
    }
  }

  // ---- The records ----

  // What the lockout check makes of a record, and its answer.
  function Checked(rec: Option<FailureRecord>, now: int): (Option<FailureRecord>, bool) {
    match rec
    case None => (None, false)
    case Some(r) =>
      if r.bannedUntil.Some? then
        if now < r.bannedUntil.value then (rec, true) else (None, false)
      else if now - r.firstAt > WINDOW then (None, false)
      else (rec, r.count >= MAX_FAILURES)
  }

  // What one more failure makes of a record.
  function Failed(rec: Option<FailureRecord>, now: int): FailureRecord {
    match rec
    case None => FailureRecord(1, now, None)
    case Some(r) =>
      if now - r.firstAt > WINDOW then FailureRecord(1, now, None)
      else if r.count >= MAX_FAILURES then r.(bannedUntil := Some(now + BAN_DURATION))
      else if r.count + 1 >= MAX_FAILURES then r.(count := r.count + 1, bannedUntil := Some(now + BAN_DURATION))
      else r.(count := r.count + 1)
  }

  // The record stands for the last generation; without one, that generation is over.
  ghost predicate Represents(rec: Option<FailureRecord>, gens: seq<seq<int>>, clock: int) {
    && WellSpaced(gens)
    && (gens != [] ==> Last(gens[|gens| - 1]) <= clock)
    && match rec
       case None => gens != [] ==> Over(gens[|gens| - 1], clock)
       case Some(r) =>
         gens != [] &&
         var g := gens[|gens| - 1];
         && r.count == |g|
         && r.firstAt == g[0]
         && r.bannedUntil == if |g| == MAX_FAILURES then Some(Last(g) + BAN_DURATION) else None
  }

  // One more admitted failure, in the generation of the record or in a new one.
  ghost function Grown(rec: Option<FailureRecord>, gens: seq<seq<int>>, now: int): seq<seq<int>>
    requires rec.Some? ==> gens != []
  {
    if rec.None? || now - rec.value.firstAt > WINDOW then gens + [[now]]
    else gens[..|gens| - 1] + [gens[|gens| - 1] + [now]]
  }

  lemma CheckedRepresents(rec: Option<FailureRecord>, gens: seq<seq<int>>, clock: int, now: int)
    requires Represents(rec, gens, clock) && clock <= now
    ensures Represents(Checked(rec, now).0, gens, now)
    ensures Checked(rec, now).1 <==>
              rec.Some? && gens != [] && |gens[|gens| - 1]| == MAX_FAILURES && !Over(gens[|gens| - 1], now)
    ensures Checked(rec, now).1 <==>
              rec.Some? && rec.value.bannedUntil.Some? && now < rec.value.bannedUntil.value
    ensures !Checked(rec, now).1 && Checked(rec, now).0.Some? ==> Checked(rec, now).0.value.count < MAX_FAILURES
  {
  }

  lemma WellSpacedNew(gens: seq<seq<int>>, now: int)
    requires WellSpaced(gens)
    requires gens != [] ==> Over(gens[|gens| - 1], now)
    ensures WellSpaced(gens + [[now]])
  {
  }

  lemma WellSpacedLonger(gens: seq<seq<int>>, now: int)
    requires WellSpaced(gens) && gens != []
    requires var g := gens[|gens| - 1]; |g| < MAX_FAILURES && Last(g) <= now <= g[0] + WINDOW
    ensures WellSpaced(gens[..|gens| - 1] + [gens[|gens| - 1] + [now]])
  {
    var gens' := gens[..|gens| - 1] + [gens[|gens| - 1] + [now]];
    assert forall i :: 0 <= i < |gens| ==> gens'[i][0] == gens[i][0];
    assert Generation(gens'[|gens| - 1]);
  }

  lemma FailedAnew(rec: Option<FailureRecord>, gens: seq<seq<int>>, clock: int, now: int)
    requires Represents(rec, gens, clock) && clock <= now
    requires rec.Some? ==> rec.value.count < MAX_FAILURES && now - rec.value.firstAt > WINDOW
    ensures Represents(Some(Failed(rec, now)), gens + [[now]], now)
  {
    WellSpacedNew(gens, now);
  }

  lemma FailedAgain(r: FailureRecord, gens: seq<seq<int>>, clock: int, now: int)
    requires Represents(Some(r), gens, clock) && clock <= now
    requires r.count < MAX_FAILURES && now - r.firstAt <= WINDOW
    ensures Represents(Some(Failed(Some(r), now)), gens[..|gens| - 1] + [gens[|gens| - 1] + [now]], now)
  {
    WellSpacedLonger(gens, now);
  }

  lemma FlatLonger(gens: seq<seq<int>>, now: int)
    requires gens != []
    ensures Flat(gens[..|gens| - 1] + [gens[|gens| - 1] + [now]]) == Flat(gens) + [now]
  {
    var init, g := gens[..|gens| - 1], gens[|gens| - 1];
    FlatSnoc(init, g + [now]);
    assert Flat(init) + (g + [now]) == (Flat(init) + g) + [now];
  }

  lemma FailedRepresents(rec: Option<FailureRecord>, gens: seq<seq<int>>, clock: int, now: int)
    requires Represents(rec, gens, clock) && clock <= now
    requires rec.Some? ==> rec.value.count < MAX_FAILURES
    ensures Represents(Some(Failed(rec, now)), Grown(rec, gens, now), now)
    ensures Flat(Grown(rec, gens, now)) == Flat(gens) + [now]
  {
    if rec.None? || now - rec.value.firstAt > WINDOW {
      FlatSnoc(gens, [now]);
      FailedAnew(rec, gens, clock, now);
    } else {
      FlatLonger(gens, now);
      FailedAgain(rec.value, gens, clock, now);
    }
  }

  // How the guarded request ends: wrong credentials, right ones, or none to judge
  // (a missing header, an unknown scheme).
  datatype Credentials = Wrong | Right | NotJudged

  // What an admitted request leaves behind.
  ghost function After(rec: Option<FailureRecord>, gens: seq<seq<int>>, credentials: Credentials, now: int)
    : (Option<FailureRecord>, seq<seq<int>>)
    requires rec.Some? ==> gens != []
  {
    match credentials
    case Wrong => (Some(Failed(rec, now)), Grown(rec, gens, now))
    case Right => (None, [])
    case NotJudged => (rec, gens)
  }

  lemma AfterRepresents(rec: Option<FailureRecord>, gens: seq<seq<int>>, credentials: Credentials,
                        clock: int, now: int)
    requires Represents(rec, gens, clock) && clock <= now
    requires rec.Some? ==> rec.value.count < MAX_FAILURES
    ensures var (rec', gens') := After(rec, gens, credentials, now);
      && Represents(rec', gens', now)
      && Flat(gens') == if credentials.Wrong? then Flat(gens) + [now]
                        else if credentials.Right? then [] else Flat(gens)
  {
    if credentials.Wrong? {
      FailedRepresents(rec, gens, clock, now);
    }
  }

  // ---- The gate in front of the admin pages ----

  function RecordOf(records: map<string, FailureRecord>, ip: string): Option<FailureRecord> {
    if ip in records then Some(records[ip]) else None
  }

  ghost function GensOf(gens: map<string, seq<seq<int>>>, ip: string): seq<seq<int>> {
    if ip in gens then gens[ip] else []
  }

  ghost predicate AllRepresent(records: map<string, FailureRecord>, gens: map<string, seq<seq<int>>>, clock: int) {
    forall ip :: Represents(RecordOf(records, ip), GensOf(gens, ip), clock)
  }

  lemma RepresentsLater(rec: Option<FailureRecord>, gens: seq<seq<int>>, clock: int, later: int)
    requires Represents(rec, gens, clock) && clock <= later
    ensures Represents(rec, gens, later)
  {
  }

  // A step for one address keeps the correspondence for all of them.
  lemma OneAddress(records: map<string, FailureRecord>, records': map<string, FailureRecord>,
                   gens: map<string, seq<seq<int>>>, g: seq<seq<int>>, ip: string, clock: int, now: int)
    requires AllRepresent(records, gens, clock) && clock <= now
    requires records' - {ip} == records - {ip}
    requires Represents(RecordOf(records', ip), g, now)
    ensures AllRepresent(records', gens[ip := g], now)
  {
    var gens' := gens[ip := g];
    forall other
      ensures Represents(RecordOf(records', other), GensOf(gens', other), now)
    {
      if other != ip {
        assert other in records' <==> other in records' - {ip};
        assert other in records <==> other in records - {ip};
        assert Represents(RecordOf(records, other), GensOf(gens, other), clock);
        if other in records { assert records'[other] == (records' - {ip})[other] == records[other]; }
        RepresentsLater(RecordOf(records, other), GensOf(gens, other), clock, now);
      }
    }
  }

  class Gate {
    var records: map<string, FailureRecord>

    ghost var gens: map<string, seq<seq<int>>>
    ghost var clock: int

    // The admitted failures of an address since its last success.
    ghost function FailuresOf(ip: string): seq<int>
      reads this
    {
      Flat(GensOf(gens, ip))
    }

    ghost predicate Valid()
      reads this
    {
      AllRepresent(records, gens, clock)
    }

    constructor (now: int)
      ensures Valid() && records == map[] && gens == map[] && clock == now
    {
      records, gens, clock := map[], map[], now;
    }

    method IsLockedOut(ip: string, now: int) returns (locked: bool)
      modifies this`records
      ensures locked == Checked(RecordOf(old(records), ip), now).1
      ensures RecordOf(records, ip) == Checked(RecordOf(old(records), ip), now).0
      ensures records - {ip} == old(records) - {ip}
    {
      if ip in records {
        var rec := records[ip];
        if rec.bannedUntil.Some? {
          if now < rec.bannedUntil.value {
            return true;
          }
          records := records - {ip};
          return false;
        }
        if now - rec.firstAt > WINDOW {
          records := records - {ip};
          return false;
        }
        return rec.count >= MAX_FAILURES;
      }
      return false;
    }

    method RecordFailure(ip: string, now: int)
      modifies this`records
      ensures RecordOf(records, ip) == Some(Failed(RecordOf(old(records), ip), now))
      ensures records - {ip} == old(records) - {ip}
    {
      var rec := FailureRecord(1, now, None);
      if ip in records && now - records[ip].firstAt <= WINDOW {
        rec := records[ip];
        if rec.count >= MAX_FAILURES {
          rec := rec.(bannedUntil := Some(now + BAN_DURATION));
        } else {
          rec := rec.(count := rec.count + 1);
          if rec.count >= MAX_FAILURES {
            rec := rec.(bannedUntil := Some(now + BAN_DURATION));
          }
        }
      }
      records := records[ip := rec];
    }

    method ClearFailures(ip: string)
      modifies this`records
      ensures RecordOf(records, ip) == None
      ensures records - {ip} == old(records) - {ip}
    {
      records := records - {ip};
    }

    // One request: the lockout check, then the credentials.
    method Attempt(ip: string, credentials: Credentials, checkedAt: int, now: int) returns (admitted: bool)
      requires Valid() && clock <= checkedAt <= now
      modifies this
      ensures Valid() && clock == now
      ensures !admitted <==>
                var rec := RecordOf(old(records), ip);
                rec.Some? && rec.value.bannedUntil.Some? && checkedAt < rec.value.bannedUntil.value
      ensures FailuresOf(ip) ==
                if !admitted || credentials.NotJudged? then old(FailuresOf(ip))
                else if credentials.Right? then []
                else old(FailuresOf(ip)) + [now]
      ensures gens - {ip} == old(gens) - {ip}
      ensures var checked := Checked(RecordOf(old(records), ip), checkedAt).0;
              RecordOf(records, ip) == if !admitted || credentials.NotJudged? then checked
                                       else if credentials.Right? then None else Some(Failed(checked, now))
    {
      ghost var g := GensOf(gens, ip);
      assert Represents(RecordOf(records, ip), g, clock);
      CheckedRepresents(RecordOf(records, ip), g, clock, checkedAt);
      var locked := IsLockedOut(ip, checkedAt);
      admitted := !locked;
      if admitted {
        ghost var after := After(RecordOf(records, ip), g, credentials, now);
        AfterRepresents(RecordOf(records, ip), g, credentials, checkedAt, now);
        if credentials.Wrong? {
          RecordFailure(ip, now);
        } else if credentials.Right? {
          ClearFailures(ip);
        }
        g := after.1;
      } else {
        RepresentsLater(RecordOf(records, ip), g, checkedAt, now);
      }
      OneAddress(old(records), records, gens, g, ip, clock, now);
      UpdateGens(gens, ip, g);
      gens, clock := gens[ip := g], now;
    }
  }

  lemma UpdateGens(gens: map<string, seq<seq<int>>>, ip: string, g: seq<seq<int>>)
    ensures GensOf(gens[ip := g], ip) == g
    ensures gens[ip := g] - {ip} == gens - {ip}
  {
  }

  // The record leaves room for n more failures at a time.
  predicate Room(rec: Option<FailureRecord>, n: nat, at: int) {
    match rec
    case None => n <= MAX_FAILURES
    case Some(r) => r.bannedUntil == None && 0 <= at - r.firstAt <= WINDOW && r.count + n <= MAX_FAILURES
  }

  // The record after n failures at one time.
  function Filled(rec: Option<FailureRecord>, n: nat, at: int): Option<FailureRecord> {
    if n == 0 then rec
    else
      var count := n + if rec.Some? then rec.value.count else 0;
      Some(FailureRecord(count, if rec.Some? then rec.value.firstAt else at,
                         if count >= MAX_FAILURES then Some(at + BAN_DURATION) else None))
  }

  lemma FilledStep(rec: Option<FailureRecord>, i: nat, n: nat, at: int)
    requires Room(rec, n, at) && i < n
    ensures var r := Filled(rec, i, at);
      && (r.Some? ==> r.value.bannedUntil == None)
      && Checked(r, at).0 == r
      && Some(Failed(r, at)) == Filled(rec, i + 1, at)
  {
  }

  // One wrong password that is not turned away.
  method FailOnce(gate: Gate, ip: string, at: int)
    requires gate.Valid() && gate.clock <= at
    requires var rec := RecordOf(gate.records, ip);
      rec.Some? && rec.value.bannedUntil.Some? ==> rec.value.bannedUntil.value <= at
    modifies gate
    ensures gate.Valid() && gate.clock == at
    ensures gate.FailuresOf(ip) == old(gate.FailuresOf(ip)) + [at]
    ensures RecordOf(gate.records, ip) == Some(Failed(Checked(RecordOf(old(gate.records), ip), at).0, at))
  {
    var admitted := gate.Attempt(ip, Wrong, at, at);
  }

  // Some wrong passwords in a row, none of them turned away.
  method FailRepeatedly(gate: Gate, ip: string, times: nat, at: int)
    requires gate.Valid() && gate.clock <= at && Room(RecordOf(gate.records, ip), times, at)
    modifies gate
    ensures gate.Valid() && gate.clock <= at
    ensures gate.FailuresOf(ip) == old(gate.FailuresOf(ip)) + seq(times, i => at)
    ensures RecordOf(gate.records, ip) == Filled(RecordOf(old(gate.records), ip), times, at)
    decreases times
  {
    if times == 0 {
      assert gate.FailuresOf(ip) + seq(0, i => at) == gate.FailuresOf(ip);
      return;
    }
    ghost var rec, failures := RecordOf(gate.records, ip), gate.FailuresOf(ip);
    FailRepeatedly(gate, ip, times - 1, at);
    FilledStep(rec, times - 1, times, at);
    FailOnce(gate, ip, at);
    OneMore(failures, times - 1, at);
  }

  lemma OneMore(failures: seq<int>, n: nat, at: int)
    ensures (failures + seq(n, i => at)) + [at] == failures + seq(n + 1, i => at)
  {
  }

  // The bound is attained by a gate: nine wrong passwords, one at 0, three when the
  // window ends and five right after it, of which eight lie in one window.
  method NineAttempts(ip: string) returns (gate: Gate)
    ensures gate.Valid()
    ensures gate.FailuresOf(ip) == NineTimes()
    ensures CountIn(gate.FailuresOf(ip), 2, 2 + WINDOW) == 2 * MAX_FAILURES - 2
  {
    gate := new Gate(0);
    FailRepeatedly(gate, ip, 1, 0);
    FailRepeatedly(gate, ip, 3, WINDOW);
    FailOnce(gate, ip, WINDOW + 1);
    FailRepeatedly(gate, ip, 4, WINDOW + 1);
    EightOfNine();
  }

  function NineTimes(): seq<int> {
    seq(1, i => 0) + seq(3, i => WINDOW) + [WINDOW + 1] + seq(4, i => WINDOW + 1)
  }

  lemma EightOfNine()
    ensures CountIn(NineTimes(), 2, 2 + WINDOW) == 2 * MAX_FAILURES - 2
    ensures [] + seq(1, i => 0) == seq(1, i => 0)
  {
    var late := seq(3, i => WINDOW) + ([WINDOW + 1] + seq(4, i => WINDOW + 1));
    assert NineTimes() == [0] + late;
    CountAppend([0], late, 2, 2 + WINDOW);
    CountAtMost([0], 2, 2 + WINDOW);
    CountAll(late, 2, 2 + WINDOW);
  }

  // The two bounds, for every state a gate can be in.
  lemma GateIsBounded(gate: Gate, ip: string, from: int)
    requires gate.Valid()
    ensures CountIn(gate.FailuresOf(ip), from, from + WINDOW) <= 2 * MAX_FAILURES - 2
    ensures var gens := GensOf(gate.gens, ip);
      forall i, j, k :: 0 <= i < j < |gens| && 0 <= k < |gens[j]| && |gens[i]| == MAX_FAILURES ==>
        gens[j][k] >= Last(gens[i]) + BAN_DURATION
  {
    var gens := GensOf(gate.gens, ip);
    assert Represents(RecordOf(gate.records, ip), gens, gate.clock);
    AtMostEightInAnyWindow(gens, from);
    forall i, j, k | 0 <= i < j < |gens| && 0 <= k < |gens[j]| && |gens[i]| == MAX_FAILURES
      ensures gens[j][k] >= Last(gens[i]) + BAN_DURATION
    {
      NothingDuringBan(gens, i, j, k);
    }
  }
}

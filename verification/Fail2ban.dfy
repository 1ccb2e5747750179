// Automatic banning: log failures are counted over a sliding window of a log table, and
// bans, whitelist, blacklist and purging act on the same tables. One log line or one
// admin action is one step. Times are whole seconds.
module Fail2ban {
  import opened Text

  const RETENTION: int := 30 * 24 * 3600

  datatype Reason = AutoBan(attempts: int) | ManualBan | Blacklisted

  datatype Ban = Ban(reason: Reason, bannedAt: int, expiresAt: Option<int>, permanent: bool)

  datatype Setting = Setting(maxAttempts: int, banMinutes: int, findMinutes: int, enabled: bool)

  datatype Action = Attempted | WasBanned | WasUnbanned | WasWhitelisted | WasBlacklisted

  datatype LogRow = LogRow(ip: string, service: string, action: Action, at: int)

  datatype Tables = Tables(whitelist: set<string>, blacklist: set<string>,
                           banned: map<(string, string), Ban>, log: seq<LogRow>,
                           settings: map<string, Setting>)

  // ---- Queries ----

  predicate InForce(b: Ban, now: int) {
    b.permanent || (b.expiresAt.Some? && b.expiresAt.value > now)
  }

  predicate IsBanned(t: Tables, ip: string, now: int) {
    exists k :: k in t.banned && k.0 == ip && InForce(t.banned[k], now)
  }

  predicate IsAttempt(r: LogRow, ip: string, service: string) {
    r.ip == ip && r.service == service && r.action == Attempted
  }

  // The attempts recorded after a cutoff, and those of them up to some time.
  function CountAfter(log: seq<LogRow>, ip: string, service: string, cutoff: int): nat {
    if log == [] then 0
    else
      var r := log[|log| - 1];
      CountAfter(log[..|log| - 1], ip, service, cutoff)
      + if IsAttempt(r, ip, service) && r.at > cutoff then 1 else 0
  }

  function CountBetween(log: seq<LogRow>, ip: string, service: string, lo: int, hi: int): nat {
    if log == [] then 0
    else
      var r := log[|log| - 1];
      CountBetween(log[..|log| - 1], ip, service, lo, hi)
      + if IsAttempt(r, ip, service) && lo < r.at <= hi then 1 else 0
  }

  // ---- Updates ----

  function Logged(t: Tables, ip: string, service: string, action: Action, now: int): Tables {
    t.(log := t.log + [LogRow(ip, service, action, now)])
  }

  function BanIp(t: Tables, ip: string, service: string, reason: Reason, minutes: int,
                 permanent: bool, now: int): Tables
  {
    var ban := Ban(reason, now, if permanent then None else Some(now + 60 * minutes), permanent);
    Logged(t.(banned := t.banned[(ip, service) := ban]), ip, service, WasBanned, now)
  }

  function UnbanIp(t: Tables, ip: string, service: string, now: int): Tables {
    if (ip, service) in t.banned then
      Logged(t.(banned := t.banned - {(ip, service)}), ip, service, WasUnbanned, now)
    else t
  }

  function AddToWhitelist(t: Tables, ip: string, now: int): Tables {
    Logged(t.(whitelist := t.whitelist + {ip},
              banned := map k | k in t.banned && k.0 != ip :: t.banned[k]),
           ip, "all", WasWhitelisted, now)
  }

  function AddToBlacklist(t: Tables, ip: string, now: int): Tables {
    var k := (ip, "all");
    var at := if k in t.banned then t.banned[k].bannedAt else now;
    Logged(t.(blacklist := t.blacklist + {ip},
              banned := t.banned[k := Ban(Blacklisted, at, None, true)]),
           ip, "all", WasBlacklisted, now)
  }

  function KeepFrom(log: seq<LogRow>, cutoff: int): seq<LogRow> {
    if log == [] then []
    else
      var r := log[|log| - 1];
      KeepFrom(log[..|log| - 1], cutoff) + if r.at >= cutoff then [r] else []
  }

  function Purge(t: Tables, now: int): Tables {
    t.(log := KeepFrom(t.log, now - RETENTION))
  }

  // ---- The step taken for one failure found in the mail log ----

  predicate Processed(t: Tables, ip: string, service: string, now: int) {
    && ip !in t.whitelist
    && !IsBanned(t, ip, now)
    && service in t.settings && t.settings[service].enabled
  }

  function Recent(t: Tables, ip: string, service: string, now: int): nat
    requires service in t.settings
  {
    CountAfter(t.log, ip, service, now - 60 * t.settings[service].findMinutes)
  }

  function HandleFailure(t: Tables, ip: string, service: string, now: int): Tables {
    if !Processed(t, ip, service, now) then t
    else
      var t1 := Logged(t, ip, service, Attempted, now);
      var s, count := t.settings[service], Recent(t1, ip, service, now);
      if count >= s.maxAttempts then BanIp(t1, ip, service, AutoBan(count), s.banMinutes, false, now) else t1
  }

  // The tables and the methods on them.
  class Database {
    var whitelist: set<string>
    var blacklist: set<string>
    var banned: map<(string, string), Ban>
    var log: seq<LogRow>
    var settings: map<string, Setting>

    function View(): Tables
      reads this
    {
      Tables(whitelist, blacklist, banned, log, settings)
    }

    constructor (settings: map<string, Setting>)
      ensures View() == Tables({}, {}, map[], [], settings)
    {
      whitelist, blacklist, banned, log := {}, {}, map[], [];
      this.settings := settings;
    }

    method InsertBan(ip: string, service: string, reason: Reason, minutes: int, permanent: bool, now: int)
      modifies this`banned, this`log
      ensures View() == BanIp(old(View()), ip, service, reason, minutes, permanent, now)
    {
      var expires := if permanent then None else Some(now + 60 * minutes);
      banned := banned[(ip, service) := Ban(reason, now, expires, permanent)];
      log := log + [LogRow(ip, service, WasBanned, now)];
    }

    method DeleteBan(ip: string, service: string, now: int)
      modifies this`banned, this`log
      ensures View() == UnbanIp(old(View()), ip, service, now)
    {
      if (ip, service) in banned {
        banned := banned - {(ip, service)};
        log := log + [LogRow(ip, service, WasUnbanned, now)];
      }
    }

    method InsertWhitelist(ip: string, now: int)
      modifies this`whitelist, this`banned, this`log
      ensures View() == AddToWhitelist(old(View()), ip, now)
    {
      whitelist := whitelist + {ip};
      banned := map k | k in banned && k.0 != ip :: banned[k];
      log := log + [LogRow(ip, "all", WasWhitelisted, now)];
    }

    method InsertBlacklist(ip: string, now: int)
      modifies this`blacklist, this`banned, this`log
      ensures View() == AddToBlacklist(old(View()), ip, now)
    {
      blacklist := blacklist + {ip};
      var at := if (ip, "all") in banned then banned[(ip, "all")].bannedAt else now;
      banned := banned[(ip, "all") := Ban(Blacklisted, at, None, true)];
      log := log + [LogRow(ip, "all", WasBlacklisted, now)];
    }

    method PurgeExpiredRows(now: int)
      modifies this`log
      ensures View() == Purge(old(View()), now)
    {
      log := KeepFrom(log, now - RETENTION);
    }

    method HandleAuthFailure(ip: string, service: string, now: int)
      modifies this`banned, this`log
      ensures View() == HandleFailure(old(View()), ip, service, now)
    {
      if ip in whitelist {
        return;
      }
      if IsBanned(View(), ip, now) {
        return;
      }
      if service !in settings || !settings[service].enabled {
        return;
      }
      var s := settings[service];
      log := log + [LogRow(ip, service, Attempted, now)];
      var count := CountAfter(log, ip, service, now - 60 * s.findMinutes);
      if count >= s.maxAttempts {
        InsertBan(ip, service, AutoBan(count), s.banMinutes, false, now);
      }
    }
  }

  // ---- One automatic step ----

  // It leaves a whitelisted or banned address alone, and every ban in force as it is.
  lemma AutomaticStepIsRestrained(t: Tables, ip: string, service: string, now: int)
    ensures ip in t.whitelist || IsBanned(t, ip, now) ==> HandleFailure(t, ip, service, now) == t
    ensures forall k :: k in t.banned && InForce(t.banned[k], now) ==>
                        k in HandleFailure(t, ip, service, now).banned
                        && HandleFailure(t, ip, service, now).banned[k] == t.banned[k]
    ensures forall k :: k in HandleFailure(t, ip, service, now).banned && k !in t.banned ==> k.0 !in t.whitelist
  {
    forall k | k in t.banned && InForce(t.banned[k], now)
      ensures k in HandleFailure(t, ip, service, now).banned
      ensures HandleFailure(t, ip, service, now).banned[k] == t.banned[k]
    {
      if k == (ip, service) {
        assert IsBanned(t, ip, now);
      }
    }
  }

  lemma CountAfterSnoc(log: seq<LogRow>, r: LogRow, ip: string, service: string, cutoff: int)
    ensures CountAfter(log + [r], ip, service, cutoff) ==
            CountAfter(log, ip, service, cutoff) + if IsAttempt(r, ip, service) && r.at > cutoff then 1 else 0
  {
    assert (log + [r])[..|log|] == log;
  }

  // Right after a processed failure the address is banned or below the threshold,
  // exactly when the configured ban has a positive length or the threshold is not reached.
  lemma BannedOrBelowThreshold(t: Tables, ip: string, service: string, now: int)
    requires Processed(t, ip, service, now)
    ensures var s, t' := t.settings[service], HandleFailure(t, ip, service, now);
      var count := Recent(t, ip, service, now) + if s.findMinutes > 0 then 1 else 0;
      && Recent(t', ip, service, now) == count
      && (IsBanned(t', ip, now) || count < s.maxAttempts <==> s.banMinutes > 0 || count < s.maxAttempts)
  {
    var s, t' := t.settings[service], HandleFailure(t, ip, service, now);
    var cutoff := now - 60 * s.findMinutes;
    var row := LogRow(ip, service, Attempted, now);
    CountAfterSnoc(t.log, row, ip, service, cutoff);
    CountAfterSnoc(t.log + [row], LogRow(ip, service, WasBanned, now), ip, service, cutoff);
    if t'.banned != t.banned {
      var k := (ip, service);
      assert InForce(t'.banned[k], now) <==> s.banMinutes > 0;
      if s.banMinutes > 0 {
        assert k in t'.banned && k.0 == ip;
      } else {
        forall k' | k' in t'.banned && k'.0 == ip
          ensures !InForce(t'.banned[k'], now)
        {
          if k' != k { assert k' in t.banned; }
        }
      }
    }
  }

  // What the settings form lets through.
  predicate FormAccepts(s: Setting) {
    s.maxAttempts >= 1 && s.banMinutes >= 1 && s.findMinutes >= 1
  }

  // With such a setting the address is banned or below the threshold after every
  // processed failure.
  lemma ProcessedIsBannedOrBelow(t: Tables, ip: string, service: string, now: int)
    requires Processed(t, ip, service, now) && FormAccepts(t.settings[service])
    ensures var t' := HandleFailure(t, ip, service, now);
      IsBanned(t', ip, now) || Recent(t', ip, service, now) < t'.settings[service].maxAttempts
  {
    BannedOrBelowThreshold(t, ip, service, now);
  }

  // ---- Purging ----

  lemma {:induction false} PurgeKeepsRecent(log: seq<LogRow>, ip: string, service: string, purge: int, cutoff: int)
    requires purge <= cutoff + 1
    ensures CountAfter(KeepFrom(log, purge), ip, service, cutoff) == CountAfter(log, ip, service, cutoff)
  {
    if log != [] {
      var init, r := log[..|log| - 1], log[|log| - 1];
      PurgeKeepsRecent(init, ip, service, purge, cutoff);
      if r.at >= purge {
        CountAfterSnoc(KeepFrom(init, purge), r, ip, service, cutoff);
      } else {
        assert KeepFrom(log, purge) == KeepFrom(init, purge);
      }
    }
  }

  ghost predicate PurgeInvisible(log: seq<LogRow>, ip: string, service: string, purge: int, cutoff: int) {
    CountAfter(KeepFrom(log, purge), ip, service, cutoff) == CountAfter(log, ip, service, cutoff)
  }

  // Removing rows before `purge` changes no count after `cutoff`, whatever the log.
  ghost predicate PurgeNeverMatters(ip: string, service: string, purge: int, cutoff: int) {
    forall log :: PurgeInvisible(log, ip, service, purge, cutoff)
  }

  lemma PurgeNeverMattersIff(ip: string, service: string, purge: int, cutoff: int)
    ensures PurgeNeverMatters(ip, service, purge, cutoff) <==> purge <= cutoff + 1
  {
    if purge <= cutoff + 1 {
      forall log
        ensures PurgeInvisible(log, ip, service, purge, cutoff)
      {
        PurgeKeepsRecent(log, ip, service, purge, cutoff);
      }
    } else {
      var log := [LogRow(ip, service, Attempted, cutoff + 1)];
      assert log[..0] == [];
      assert KeepFrom(log, purge) == [];
      assert !PurgeInvisible(log, ip, service, purge, cutoff);
    }
  }

  // The same for a purge at `now` and a service that counts at or after it.
  ghost predicate InvisibleAt(ip: string, service: string, now: int, later: nat, findMinutes: int) {
    PurgeNeverMatters(ip, service, now - RETENTION, now + later - 60 * findMinutes)
  }

  // A purge is invisible to every count of a service, on any log and at any later
  // time, exactly when the service looks back at most 30 days.
  lemma ThirtyDaysIsTheLimit(ip: string, service: string, now: int, findMinutes: int)
    ensures (forall later :: InvisibleAt(ip, service, now, later, findMinutes)) <==> findMinutes <= 30 * 24 * 60
  {
    forall later
      ensures InvisibleAt(ip, service, now, later, findMinutes) <==> 60 * findMinutes <= RETENTION + later + 1
    {
      PurgeNeverMattersIff(ip, service, now - RETENTION, now + later - 60 * findMinutes);
    }
    assert InvisibleAt(ip, service, now, 0, findMinutes) <==> 60 * findMinutes <= RETENTION + 1;
  }

  // ---- Whole runs ----

  datatype Step =
    | Failure(ip: string, service: string)
    | BanByAdmin(ip: string, service: string, minutes: int, permanent: bool)
    | UnbanByAdmin(ip: string, service: string)
    | WhitelistAdd(ip: string)
    | WhitelistRemove(ip: string)
    | BlacklistAdd(ip: string)
    | BlacklistRemove(ip: string)
    | PurgeRows
    | Configure(service: string, setting: Setting)
    | Tick(seconds: nat)

  // `full` is the log as it would be without any purge.
  datatype World = World(tables: Tables, full: seq<LogRow>, clock: int)

  function Act(t: Tables, s: Step, now: int): Tables {
    match s
    case Failure(ip, service) => HandleFailure(t, ip, service, now)
    case BanByAdmin(ip, service, minutes, permanent) => BanIp(t, ip, service, ManualBan, minutes, permanent, now)
    case UnbanByAdmin(ip, service) => UnbanIp(t, ip, service, now)
    case WhitelistAdd(ip) => AddToWhitelist(t, ip, now)
    case WhitelistRemove(ip) => t.(whitelist := t.whitelist - {ip})
    case BlacklistAdd(ip) => AddToBlacklist(t, ip, now)
    case BlacklistRemove(ip) => t.(blacklist := t.blacklist - {ip})
    case PurgeRows => Purge(t, now)
    case Configure(service, setting) => t.(settings := t.settings[service := setting])
    case Tick(_) => t
  }

  function Next(w: World, s: Step): World {
    var t := Act(w.tables, s, w.clock);
    World(t,
          if s.PurgeRows? || |t.log| < |w.tables.log| then w.full else w.full + t.log[|w.tables.log|..],
          if s.Tick? then w.clock + s.seconds else w.clock)
  }

  function Run(w: World, steps: seq<Step>): World
    decreases |steps|
  {
    if steps == [] then w else Run(Next(w, steps[0]), steps[1..])
  }

  lemma ActAppends(t: Tables, s: Step, now: int)
    requires !s.PurgeRows?
    ensures |Act(t, s, now).log| >= |t.log| && Act(t, s, now).log[..|t.log|] == t.log
    ensures forall i :: |t.log| <= i < |Act(t, s, now).log| ==> Act(t, s, now).log[i].at == now
  {
  }

  // No whitelisted address ever carries an automatic ban.
  ghost predicate NoAutoBanOfWhitelisted(t: Tables) {
    forall k :: k in t.banned && t.banned[k].reason.AutoBan? ==> k.0 !in t.whitelist
  }

  // Counting in the purged log is counting in the full one, as far back as rows are kept.
  ghost predicate LogIsFaithful(w: World) {
    && (forall i :: 0 <= i < |w.full| ==> w.full[i].at <= w.clock)
    && forall ip, service, cutoff :: cutoff >= w.clock - RETENTION ==>
         CountAfter(w.tables.log, ip, service, cutoff) == CountAfter(w.full, ip, service, cutoff)
  }

  ghost predicate Inv(w: World) {
    NoAutoBanOfWhitelisted(w.tables) && LogIsFaithful(w)
  }

  lemma {:induction false} CountAfterAppend(a: seq<LogRow>, b: seq<LogRow>, ip: string, service: string, cutoff: int)
    ensures CountAfter(a + b, ip, service, cutoff)
         == CountAfter(a, ip, service, cutoff) + CountAfter(b, ip, service, cutoff)
  {
    if b == [] {
      assert a + b == a;
    } else {
      assert (a + b)[..|a + b| - 1] == a + b[..|b| - 1];
      CountAfterAppend(a, b[..|b| - 1], ip, service, cutoff);
    }
  }

  lemma StepKeepsLogFaithful(w: World, s: Step)
    requires LogIsFaithful(w)
    ensures LogIsFaithful(Next(w, s))
  {
    var w' := Next(w, s);
    if !s.PurgeRows? {
      ActAppends(w.tables, s, w.clock);
    }
    forall ip, service, cutoff | cutoff >= w'.clock - RETENTION
      ensures CountAfter(w'.tables.log, ip, service, cutoff) == CountAfter(w'.full, ip, service, cutoff)
    {
      assert CountAfter(w.tables.log, ip, service, cutoff) == CountAfter(w.full, ip, service, cutoff);
      if s.PurgeRows? {
        PurgeKeepsRecent(w.tables.log, ip, service, w.clock - RETENTION, cutoff);
      } else {
        var added := w'.tables.log[|w.tables.log|..];
        assert w'.tables.log == w.tables.log + added;
        CountAfterAppend(w.tables.log, added, ip, service, cutoff);
        CountAfterAppend(w.full, added, ip, service, cutoff);
      }
    }
  }

  lemma StepKeepsWhitelist(t: Tables, s: Step, now: int)
    requires NoAutoBanOfWhitelisted(t)
    ensures NoAutoBanOfWhitelisted(Act(t, s, now))
  {
  }

  lemma {:induction false} RunKeepsInv(w: World, steps: seq<Step>)
    requires Inv(w)
    ensures Inv(Run(w, steps))
    decreases |steps|
  {
    if steps != [] {
      StepKeepsLogFaithful(w, steps[0]);
      StepKeepsWhitelist(w.tables, steps[0], w.clock);
      RunKeepsInv(Next(w, steps[0]), steps[1..]);
    }
  }

  // In every run, with purges anywhere: the count a service uses is the count over
  // everything that was ever logged, as long as it looks back at most 30 days, and no
  // whitelisted address is under an automatic ban.
  lemma CountsSurvivePurges(settings: map<string, Setting>, start: int, steps: seq<Step>,
                            ip: string, service: string, findMinutes: int)
    requires 60 * findMinutes <= RETENTION
    ensures var w := Run(World(Tables({}, {}, map[], [], settings), [], start), steps);
      && CountAfter(w.tables.log, ip, service, w.clock - 60 * findMinutes)
         == CountAfter(w.full, ip, service, w.clock - 60 * findMinutes)
      && NoAutoBanOfWhitelisted(w.tables)
  {
    RunKeepsInv(World(Tables({}, {}, map[], [], settings), [], start), steps);
  }

  // ---- How many attempts one address gets ----

  // A step that lifts no ban of this address and service and keeps the service's setting.
  ghost predicate Spares(s: Step, ip: string, service: string, setting: Setting) {
    match s
    case BanByAdmin(i, v, _, _) => (i, v) != (ip, service)
    case UnbanByAdmin(i, v) => (i, v) != (ip, service)
    case WhitelistAdd(i) => i != ip
    case Configure(v, x) => v == service ==> x == setting
    case _ => true
  }

  ghost predicate Sensible(s: Setting) {
    s.maxAttempts >= 1 && 0 < s.findMinutes <= s.banMinutes && 60 * s.findMinutes <= RETENTION
  }

  ghost function LastAttempt(log: seq<LogRow>, ip: string, service: string): Option<int> {
    if log == [] then None
    else if IsAttempt(log[|log| - 1], ip, service) then Some(log[|log| - 1].at)
    else LastAttempt(log[..|log| - 1], ip, service)
  }

  // Once the threshold is reached, a ban stands that began with the last attempt.
  ghost predicate ThresholdBans(w: World, ip: string, service: string, s: Setting) {
    match LastAttempt(w.full, ip, service)
    case None => true
    case Some(last) =>
      && last <= w.clock
      && CountAfter(w.full, ip, service, last) == 0
      && (CountAfter(w.full, ip, service, last - 60 * s.findMinutes) >= s.maxAttempts ==>
            (ip, service) in w.tables.banned
            && var b := w.tables.banned[(ip, service)];
               b.permanent || b.expiresAt == Some(last + 60 * s.banMinutes))
  }

  ghost function InWindow(log: seq<LogRow>, ip: string, service: string, from: int, s: Setting): nat {
    CountBetween(log, ip, service, from, from + 60 * s.findMinutes)
  }

  ghost predicate WithinThreshold(log: seq<LogRow>, ip: string, service: string, s: Setting) {
    forall from :: InWindow(log, ip, service, from, s) <= s.maxAttempts
  }

  ghost predicate Limited(w: World, ip: string, service: string, s: Setting) {
    && LogIsFaithful(w)
    && (service in w.tables.settings ==> w.tables.settings[service] == s)
    && ThresholdBans(w, ip, service, s)
    && WithinThreshold(w.full, ip, service, s)
  }

  lemma {:induction false} CountAfterMono(log: seq<LogRow>, ip: string, service: string, a: int, b: int)
    requires a <= b
    ensures CountAfter(log, ip, service, a) >= CountAfter(log, ip, service, b)
  {
    if log != [] { CountAfterMono(log[..|log| - 1], ip, service, a, b); }
  }

  lemma {:induction false} BetweenAtMostAfter(log: seq<LogRow>, ip: string, service: string, lo: int, hi: int)
    ensures CountBetween(log, ip, service, lo, hi) <= CountAfter(log, ip, service, lo)
  {
    if log != [] { BetweenAtMostAfter(log[..|log| - 1], ip, service, lo, hi); }
  }

  lemma {:induction false} NoAttempts(log: seq<LogRow>, ip: string, service: string, cutoff: int)
    requires LastAttempt(log, ip, service).None?
    ensures CountAfter(log, ip, service, cutoff) == 0
  {
    if log != [] { NoAttempts(log[..|log| - 1], ip, service, cutoff); }
  }

  // Rows that are not attempts of this address and service change none of its counts.
  lemma {:induction false} OtherRows(log: seq<LogRow>, more: seq<LogRow>, ip: string, service: string)
    requires forall i :: 0 <= i < |more| ==> !IsAttempt(more[i], ip, service)
    ensures LastAttempt(log + more, ip, service) == LastAttempt(log, ip, service)
    ensures forall c :: CountAfter(log + more, ip, service, c) == CountAfter(log, ip, service, c)
    ensures forall lo, hi :: CountBetween(log + more, ip, service, lo, hi) == CountBetween(log, ip, service, lo, hi)
  {
    if more == [] {
      assert log + more == log;
    } else {
      var init := more[..|more| - 1];
      assert (log + more)[..|log + more| - 1] == log + init;
      OtherRows(log, init, ip, service);
    }
  }

  // An address that is not banned has room for one more attempt.
  lemma RoomForOne(w: World, ip: string, service: string, s: Setting)
    requires Sensible(s) && ThresholdBans(w, ip, service, s)
    requires !IsBanned(w.tables, ip, w.clock)
    ensures CountAfter(w.full, ip, service, w.clock - 60 * s.findMinutes) < s.maxAttempts
  {
    var from := w.clock - 60 * s.findMinutes;
    match LastAttempt(w.full, ip, service)
    case None => NoAttempts(w.full, ip, service, from);
    case Some(last) =>
      CountAfterMono(w.full, ip, service, last - 60 * s.findMinutes, from);
      if CountAfter(w.full, ip, service, last - 60 * s.findMinutes) >= s.maxAttempts {
        var k := (ip, service);
        assert k.0 == ip && !InForce(w.tables.banned[k], w.clock);
        CountAfterMono(w.full, ip, service, last, from);
      }
  }

  lemma OneMoreWithin(w: World, ip: string, service: string, s: Setting)
    requires Sensible(s) && WithinThreshold(w.full, ip, service, s)
    requires CountAfter(w.full, ip, service, w.clock - 60 * s.findMinutes) < s.maxAttempts
    ensures WithinThreshold(w.full + [LogRow(ip, service, Attempted, w.clock)], ip, service, s)
  {
    var row := LogRow(ip, service, Attempted, w.clock);
    assert (w.full + [row])[..|w.full|] == w.full;
    forall lo
      ensures InWindow(w.full + [row], ip, service, lo, s) <= s.maxAttempts
    {
      assert InWindow(w.full, ip, service, lo, s) <= s.maxAttempts;
      if lo < w.clock <= lo + 60 * s.findMinutes {
        BetweenAtMostAfter(w.full, ip, service, lo, lo + 60 * s.findMinutes);
        CountAfterMono(w.full, ip, service, w.clock - 60 * s.findMinutes, lo);
      }
    }
  }

  // What a processed failure does to the tables.
  lemma ProcessedTables(t: Tables, ip: string, service: string, now: int) returns (more: seq<LogRow>)
    requires Processed(t, ip, service, now)
    ensures forall i :: 0 <= i < |more| ==> !IsAttempt(more[i], ip, service)
    ensures var t', row, s := HandleFailure(t, ip, service, now), LogRow(ip, service, Attempted, now), t.settings[service];
      && t'.log == t.log + ([row] + more) && t'.settings == t.settings
      && (CountAfter(t.log + [row], ip, service, now - 60 * s.findMinutes) >= s.maxAttempts ==>
            (ip, service) in t'.banned && t'.banned[(ip, service)].expiresAt == Some(now + 60 * s.banMinutes))
  {
    var row, s := LogRow(ip, service, Attempted, now), t.settings[service];
    var logged := t.log + [row];
    if CountAfter(logged, ip, service, now - 60 * s.findMinutes) >= s.maxAttempts {
      more := [LogRow(ip, service, WasBanned, now)];
    } else {
      more := [];
    }
    assert logged + more == t.log + ([row] + more);
  }

  // A processed failure logs the attempt, and the ban it causes.
  lemma ProcessedShape(w: World, ip: string, service: string, s: Setting) returns (row: LogRow, more: seq<LogRow>)
    requires Processed(w.tables, ip, service, w.clock) && w.tables.settings[service] == s
    requires LogIsFaithful(w) && 60 * s.findMinutes <= RETENTION
    ensures row == LogRow(ip, service, Attempted, w.clock)
    ensures forall i :: 0 <= i < |more| ==> !IsAttempt(more[i], ip, service)
    ensures var w' := Next(w, Failure(ip, service));
      && w'.clock == w.clock && w'.full == (w.full + [row]) + more && w'.tables.settings == w.tables.settings
      && (CountAfter(w.full + [row], ip, service, w.clock - 60 * s.findMinutes) >= s.maxAttempts ==>
            (ip, service) in w'.tables.banned
            && w'.tables.banned[(ip, service)].expiresAt == Some(w.clock + 60 * s.banMinutes))
  {
    var from := w.clock - 60 * s.findMinutes;
    row := LogRow(ip, service, Attempted, w.clock);
    more := ProcessedTables(w.tables, ip, service, w.clock);
    assert CountAfter(w.tables.log + [row], ip, service, from) == CountAfter(w.full + [row], ip, service, from) by {
      CountAfterSnoc(w.full, row, ip, service, from);
      CountAfterSnoc(w.tables.log, row, ip, service, from);
      assert CountAfter(w.tables.log, ip, service, from) == CountAfter(w.full, ip, service, from);
    }
    assert (w.tables.log + ([row] + more))[|w.tables.log|..] == [row] + more;
    assert w.full + ([row] + more) == (w.full + [row]) + more;
  }

  lemma ProcessedFailureKeepsLimit(w: World, ip: string, service: string, s: Setting)
    requires Sensible(s) && Limited(w, ip, service, s)
    requires Processed(w.tables, ip, service, w.clock)
    ensures Limited(Next(w, Failure(ip, service)), ip, service, s)
  {
    var row, more := ProcessedShape(w, ip, service, s);
    RoomForOne(w, ip, service, s);
    OneMoreWithin(w, ip, service, s);
    StepKeepsLogFaithful(w, Failure(ip, service));
    AttemptKeepsLimit(w, Next(w, Failure(ip, service)), row, more, ip, service, s);
  }

  lemma AttemptKeepsLimit(w: World, w': World, row: LogRow, more: seq<LogRow>, ip: string, service: string, s: Setting)
    requires LogIsFaithful(w) && LogIsFaithful(w') && w'.clock == w.clock
    requires service in w'.tables.settings ==> w'.tables.settings[service] == s
    requires row == LogRow(ip, service, Attempted, w.clock) && w'.full == (w.full + [row]) + more
    requires forall i :: 0 <= i < |more| ==> !IsAttempt(more[i], ip, service)
    requires WithinThreshold(w.full + [row], ip, service, s)
    requires CountAfter(w.full + [row], ip, service, w.clock - 60 * s.findMinutes) >= s.maxAttempts ==>
               (ip, service) in w'.tables.banned
               && w'.tables.banned[(ip, service)].expiresAt == Some(w.clock + 60 * s.banMinutes)
    ensures Limited(w', ip, service, s)
  {
    OtherRows(w.full + [row], more, ip, service);
    NothingLater(w.full, ip, service, w.clock);
    CountAfterSnoc(w.full, row, ip, service, w.clock);
    assert (w.full + [row])[|w.full|] == row;
    SameWithin(w.full + [row], w'.full, ip, service, s);
  }

  lemma SameWithin(a: seq<LogRow>, b: seq<LogRow>, ip: string, service: string, s: Setting)
    requires WithinThreshold(a, ip, service, s)
    requires forall lo, hi :: CountBetween(b, ip, service, lo, hi) == CountBetween(a, ip, service, lo, hi)
    ensures WithinThreshold(b, ip, service, s)
  {
    forall lo
      ensures InWindow(b, ip, service, lo, s) <= s.maxAttempts
    {
      assert InWindow(a, ip, service, lo, s) <= s.maxAttempts;
    }
  }

  lemma {:induction false} NothingLater(log: seq<LogRow>, ip: string, service: string, clock: int)
    requires forall i :: 0 <= i < |log| ==> log[i].at <= clock
    ensures CountAfter(log, ip, service, clock) == 0
  {
    if log != [] { NothingLater(log[..|log| - 1], ip, service, clock); }
  }

  // A step that processes no failure of the address logs no attempt of it.
  lemma OtherStepLogsNoAttempt(w: World, step: Step, ip: string, service: string)
    requires !(step == Failure(ip, service) && Processed(w.tables, ip, service, w.clock))
    ensures var full := Next(w, step).full;
      && LastAttempt(full, ip, service) == LastAttempt(w.full, ip, service)
      && (forall c :: CountAfter(full, ip, service, c) == CountAfter(w.full, ip, service, c))
      && (forall lo, hi :: CountBetween(full, ip, service, lo, hi) == CountBetween(w.full, ip, service, lo, hi))
  {
    if !step.PurgeRows? {
      var added := Next(w, step).tables.log[|w.tables.log|..];
      OtherRows(w.full, added, ip, service);
    }
  }

  lemma OtherStepKeepsLimit(w: World, step: Step, ip: string, service: string, s: Setting)
    requires Limited(w, ip, service, s) && Spares(step, ip, service, s)
    requires !(step == Failure(ip, service) && Processed(w.tables, ip, service, w.clock))
    ensures Limited(Next(w, step), ip, service, s)
  {
    StepKeepsLogFaithful(w, step);
    OtherStepLogsNoAttempt(w, step, ip, service);
    if (ip, service) in w.tables.banned {
      BanStays(w.tables, step, w.clock, ip, service, s);
    }
    SameCountsKeepLimit(w, Next(w, step), ip, service, s);
  }

  lemma SameCountsKeepLimit(w: World, w': World, ip: string, service: string, s: Setting)
    requires Limited(w, ip, service, s) && LogIsFaithful(w') && w.clock <= w'.clock
    requires service in w'.tables.settings ==> w'.tables.settings[service] == s
    requires LastAttempt(w'.full, ip, service) == LastAttempt(w.full, ip, service)
    requires forall c :: CountAfter(w'.full, ip, service, c) == CountAfter(w.full, ip, service, c)
    requires forall lo, hi :: CountBetween(w'.full, ip, service, lo, hi) == CountBetween(w.full, ip, service, lo, hi)
    requires (ip, service) in w.tables.banned ==>
               (ip, service) in w'.tables.banned
               && var b := w'.tables.banned[(ip, service)]; b.permanent || b == w.tables.banned[(ip, service)]
    ensures Limited(w', ip, service, s)
  {
    SameWithin(w.full, w'.full, ip, service, s);
  }

  lemma BanStays(t: Tables, step: Step, now: int, ip: string, service: string, s: Setting)
    requires Spares(step, ip, service, s) && (ip, service) in t.banned
    requires !(step == Failure(ip, service) && Processed(t, ip, service, now))
    ensures (ip, service) in Act(t, step, now).banned
    ensures var b := Act(t, step, now).banned[(ip, service)]; b.permanent || b == t.banned[(ip, service)]
  {
  }

  // In every run that lifts no ban of the address, a service that looks back no longer
  // than its bans last records at most max_attempts failures of the address in any
  // interval of that length.
  lemma {:induction false} AttemptsPerWindow(w: World, steps: seq<Step>, ip: string, service: string, s: Setting)
    requires Sensible(s) && Limited(w, ip, service, s)
    requires Sparing(steps, ip, service, s)
    ensures WithinThreshold(Run(w, steps).full, ip, service, s)
    decreases |steps|
  {
    if steps != [] {
      assert Spares(steps[0], ip, service, s);
      if steps[0] == Failure(ip, service) && Processed(w.tables, ip, service, w.clock) {
        ProcessedFailureKeepsLimit(w, ip, service, s);
      } else {
        OtherStepKeepsLimit(w, steps[0], ip, service, s);
      }
      AttemptsPerWindow(Next(w, steps[0]), steps[1..], ip, service, s);
    }
  }

  // The empty tables are a place to start from.
  ghost function Fresh(settings: map<string, Setting>, start: int): World {
    World(Tables({}, {}, map[], [], settings), [], start)
  }

  lemma FreshTablesAreLimited(settings: map<string, Setting>, start: int, ip: string, service: string, s: Setting)
    requires service in settings ==> settings[service] == s
    requires s.maxAttempts >= 0
    ensures Limited(Fresh(settings, start), ip, service, s)
  {
    forall lo
      ensures InWindow([], ip, service, lo, s) <= s.maxAttempts
    {
    }
  }

  // ---- When the threshold holds in every window ----

  ghost predicate Sparing(steps: seq<Step>, ip: string, service: string, s: Setting) {
    forall i :: 0 <= i < |steps| ==> Spares(steps[i], ip, service, s)
  }

  // The first failures of an address, all in one second: the threshold not yet reached.
  function Attempts(n: nat, ip: string, service: string, at: int): seq<LogRow> {
    seq(n, i => LogRow(ip, service, Attempted, at))
  }

  ghost function Flooded(settings: map<string, Setting>, ip: string, service: string, start: int, n: nat): World {
    var rows := Attempts(n, ip, service, start);
    World(Tables({}, {}, map[], rows, settings), rows, start)
  }

  lemma {:induction false} AttemptsCount(n: nat, ip: string, service: string, at: int, lo: int, hi: int)
    requires lo < at
    ensures CountAfter(Attempts(n, ip, service, at), ip, service, lo) == n
    ensures at <= hi ==> CountBetween(Attempts(n, ip, service, at), ip, service, lo, hi) == n
  {
    if n > 0 {
      AttemptsCount(n - 1, ip, service, at, lo, hi);
      assert Attempts(n, ip, service, at)[..n - 1] == Attempts(n - 1, ip, service, at);
    }
  }

  // What one more failure of a flood logs.
  lemma FloodCounts(settings: map<string, Setting>, ip: string, service: string, start: int, n: nat, s: Setting)
    requires service in settings && settings[service] == s && s.findMinutes > 0
    ensures var t := Logged(Flooded(settings, ip, service, start, n).tables, ip, service, Attempted, start);
      t.log == Attempts(n + 1, ip, service, start) && Recent(t, ip, service, start) == n + 1
  {
    assert Attempts(n, ip, service, start) + [LogRow(ip, service, Attempted, start)] == Attempts(n + 1, ip, service, start);
    AttemptsCount(n + 1, ip, service, start, start - 60 * s.findMinutes, start);
  }

  lemma FloodStep(settings: map<string, Setting>, ip: string, service: string, start: int, n: nat, s: Setting)
    requires service in settings && settings[service] == s && s.enabled && s.findMinutes > 0
    requires n + 1 < s.maxAttempts
    ensures Next(Flooded(settings, ip, service, start, n), Failure(ip, service))
         == Flooded(settings, ip, service, start, n + 1)
  {
    var w, rows := Flooded(settings, ip, service, start, n), Attempts(n + 1, ip, service, start);
    FloodCounts(settings, ip, service, start, n, s);
    assert rows[n..] == [LogRow(ip, service, Attempted, start)];
  }

  lemma {:induction false} Flood(settings: map<string, Setting>, ip: string, service: string, start: int,
                                 n: nat, m: nat, s: Setting) returns (steps: seq<Step>)
    requires service in settings && settings[service] == s && s.enabled && s.findMinutes > 0
    requires n <= m < s.maxAttempts
    ensures Run(Flooded(settings, ip, service, start, n), steps) == Flooded(settings, ip, service, start, m)
    ensures Sparing(steps, ip, service, s)
    decreases m - n
  {
    if n == m {
      steps := [];
    } else {
      FloodStep(settings, ip, service, start, n, s);
      var more := Flood(settings, ip, service, start, n + 1, m, s);
      steps := [Failure(ip, service)] + more;
      assert steps[1..] == more;
    }
  }

  lemma {:induction false} RunAppend(w: World, a: seq<Step>, b: seq<Step>)
    ensures Run(w, a + b) == Run(Run(w, a), b)
    decreases |a|
  {
    if a == [] {
      assert a + b == b;
    } else {
      assert (a + b)[1..] == a[1..] + b;
      RunAppend(Next(w, a[0]), a[1..], b);
    }
  }

  // The failure that reaches the threshold: it is logged and the ban begins.
  lemma LastAttemptBans(settings: map<string, Setting>, ip: string, service: string, start: int, s: Setting)
    returns (ban: LogRow)
    requires service in settings && settings[service] == s && s.enabled && s.findMinutes > 0 && s.maxAttempts >= 1
    ensures !IsAttempt(ban, ip, service)
    ensures var w := Next(Flooded(settings, ip, service, start, s.maxAttempts - 1), Failure(ip, service));
      && w.full == w.tables.log == Attempts(s.maxAttempts, ip, service, start) + [ban] && w.clock == start
      && w.tables.settings == settings && w.tables.whitelist == {}
      && w.tables.banned.Keys == {(ip, service)}
      && !InForce(w.tables.banned[(ip, service)], start + 60 * s.banMinutes)
      && w.tables.banned[(ip, service)].expiresAt == Some(start + 60 * s.banMinutes)
      && !w.tables.banned[(ip, service)].permanent
  {
    var n := s.maxAttempts - 1;
    var rows := Attempts(n, ip, service, start);
    FloodCounts(settings, ip, service, start, n, s);
    ban := LogRow(ip, service, WasBanned, start);
    var row := LogRow(ip, service, Attempted, start);
    assert (rows + [row] + [ban])[|rows|..] == [row] + [ban];
    assert rows + ([row] + [ban]) == rows + [row] + [ban];
  }

  // As soon as the ban is over, the address fails once more.
  lemma OneTooMany(w: World, ip: string, service: string, s: Setting, wait: nat)
    requires service in w.tables.settings && w.tables.settings[service] == s && s.enabled
    requires w.tables.whitelist == {} && w.tables.banned.Keys == {(ip, service)}
    requires !w.tables.banned[(ip, service)].permanent
    requires w.tables.banned[(ip, service)].expiresAt == Some(w.clock + 60 * s.banMinutes)
    requires wait >= 60 * s.banMinutes
    ensures var full := Next(Next(w, Tick(wait)), Failure(ip, service)).full;
      |full| > |w.full| && full[..|w.full| + 1] == w.full + [LogRow(ip, service, Attempted, w.clock + wait)]
  {
    var w1 := Next(w, Tick(wait));
    assert w1.tables == w.tables && w1.full == w.full;
    assert !IsBanned(w1.tables, ip, w1.clock);
    var w2 := Next(w1, Failure(ip, service));
    var added := w2.tables.log[|w1.tables.log|..];
    assert added[0] == LogRow(ip, service, Attempted, w1.clock);
    assert w2.full == w.full + added;
  }

  lemma RunThree(w: World, a: Step, b: Step, c: Step)
    ensures Run(w, [a, b, c]) == Next(Next(Next(w, a), b), c)
  {
    RunOne(w, a);
    RunOne(Next(w, a), b);
    RunOne(Next(Next(w, a), b), c);
    RunAppend(Next(w, a), [b], [c]);
    RunAppend(w, [a], [b] + [c]);
    assert [a] + ([b] + [c]) == [a, b, c];
  }

  lemma RunOne(w: World, a: Step)
    ensures Run(w, [a]) == Next(w, a)
  {
    assert [a][1..] == [];
  }

  lemma {:induction false} CountBetweenPrefix(log: seq<LogRow>, n: nat, ip: string, service: string, lo: int, hi: int)
    requires n <= |log|
    ensures CountBetween(log, ip, service, lo, hi) >= CountBetween(log[..n], ip, service, lo, hi)
  {
    if n < |log| {
      CountBetweenPrefix(log[..|log| - 1], n, ip, service, lo, hi);
      assert log[..|log| - 1][..n] == log[..n];
    } else {
      assert log[..n] == log;
    }
  }

  lemma CountBetweenSnoc(log: seq<LogRow>, r: LogRow, ip: string, service: string, lo: int, hi: int)
    ensures CountBetween(log + [r], ip, service, lo, hi)
         == CountBetween(log, ip, service, lo, hi) + if IsAttempt(r, ip, service) && lo < r.at <= hi then 1 else 0
  {
    assert (log + [r])[..|log|] == log;
  }

  // A ban shorter than the look-back: a run that lifts no ban and puts one attempt too
  // many into a window.
  lemma ShortBanOverruns(settings: map<string, Setting>, start: int, ip: string, service: string, s: Setting)
    returns (steps: seq<Step>)
    requires service in settings && settings[service] == s && s.enabled
    requires s.maxAttempts >= 1 && s.findMinutes > 0 && s.banMinutes < s.findMinutes
    ensures Sparing(steps, ip, service, s)
    ensures InWindow(Run(Fresh(settings, start), steps).full, ip, service, start - 1, s) > s.maxAttempts
  {
    var wait: nat := if s.banMinutes > 0 then 60 * s.banMinutes else 0;
    var flood := Flood(settings, ip, service, start, 0, s.maxAttempts - 1, s);
    var last := LastThree(settings, start, ip, service, s, wait);
    var w := Flooded(settings, ip, service, start, s.maxAttempts - 1);
    NothingYet(settings, ip, service, start);
    RunAppend(Fresh(settings, start), flood, last);
    steps := flood + last;
  }

  lemma NothingYet(settings: map<string, Setting>, ip: string, service: string, start: int)
    ensures Flooded(settings, ip, service, start, 0) == Fresh(settings, start)
  {
  }

  lemma LastThree(settings: map<string, Setting>, start: int, ip: string, service: string, s: Setting, wait: nat)
    returns (last: seq<Step>)
    requires service in settings && settings[service] == s && s.enabled
    requires s.maxAttempts >= 1 && 60 * s.banMinutes <= wait < 60 * s.findMinutes
    ensures Sparing(last, ip, service, s)
    ensures var w := Flooded(settings, ip, service, start, s.maxAttempts - 1);
      InWindow(Run(w, last).full, ip, service, start - 1, s) > s.maxAttempts
  {
    var fail := Failure(ip, service);
    var w := Flooded(settings, ip, service, start, s.maxAttempts - 1);
    last := [fail, Tick(wait), fail];
    var ban := LastAttemptBans(settings, ip, service, start, s);
    AfterTheBan(Next(w, fail), ban, ip, service, start, wait, s);
    RunThree(w, fail, Tick(wait), fail);
  }

  lemma AfterTheBan(w: World, ban: LogRow, ip: string, service: string, start: int, wait: nat, s: Setting)
    requires s.enabled && s.maxAttempts >= 1 && 60 * s.banMinutes <= wait < 60 * s.findMinutes
    requires w.full == Attempts(s.maxAttempts, ip, service, start) + [ban] && w.clock == start
    requires service in w.tables.settings && w.tables.settings[service] == s
    requires w.tables.whitelist == {} && w.tables.banned.Keys == {(ip, service)}
    requires !w.tables.banned[(ip, service)].permanent
    requires w.tables.banned[(ip, service)].expiresAt == Some(w.clock + 60 * s.banMinutes)
    ensures InWindow(Next(Next(w, Tick(wait)), Failure(ip, service)).full, ip, service, start - 1, s) > s.maxAttempts
  {
    OneTooMany(w, ip, service, s, wait);
    TooManyInWindow(Next(Next(w, Tick(wait)), Failure(ip, service)).full, ban, ip, service, start, wait, s);
  }

  lemma TooManyInWindow(full: seq<LogRow>, ban: LogRow, ip: string, service: string, start: int, wait: nat, s: Setting)
    requires s.maxAttempts >= 1 && wait < 60 * s.findMinutes
    requires var before := Attempts(s.maxAttempts, ip, service, start) + [ban];
      |full| > |before| && full[..|before| + 1] == before + [LogRow(ip, service, Attempted, start + wait)]
    ensures InWindow(full, ip, service, start - 1, s) > s.maxAttempts
  {
    var lo, hi := start - 1, start - 1 + 60 * s.findMinutes;
    var rows, row := Attempts(s.maxAttempts, ip, service, start), LogRow(ip, service, Attempted, start + wait);
    AttemptsCount(s.maxAttempts, ip, service, start, lo, hi);
    CountBetweenSnoc(rows, ban, ip, service, lo, hi);
    CountBetweenSnoc(rows + [ban], row, ip, service, lo, hi);
    CountBetweenPrefix(full, |rows + [ban]| + 1, ip, service, lo, hi);
  }

  // From empty tables, every run that lifts no ban of the address keeps each window of
  // the look-back length within the threshold exactly when the ban is at least as long
  // as the look-back.
  lemma WithinThresholdIff(settings: map<string, Setting>, start: int, ip: string, service: string, s: Setting)
    requires service in settings && settings[service] == s && s.enabled
    requires s.maxAttempts >= 1 && s.findMinutes > 0 && 60 * s.findMinutes <= RETENTION
    ensures (forall steps :: Sparing(steps, ip, service, s) ==>
               WithinThreshold(Run(Fresh(settings, start), steps).full, ip, service, s))
       <==> s.findMinutes <= s.banMinutes
  {
    if s.findMinutes <= s.banMinutes {
      FreshTablesAreLimited(settings, start, ip, service, s);
      forall steps | Sparing(steps, ip, service, s)
        ensures WithinThreshold(Run(Fresh(settings, start), steps).full, ip, service, s)
      {
        AttemptsPerWindow(Fresh(settings, start), steps, ip, service, s);
      }
    } else {
      var steps := ShortBanOverruns(settings, start, ip, service, s);
      assert !WithinThreshold(Run(Fresh(settings, start), steps).full, ip, service, s);
    }
  }
}

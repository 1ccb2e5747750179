// The fail2ban tables as they are stored, with points in time as text: comparing the
// text decides every query and every step as comparing the instants does.
module StoredTimes {
  import opened Text
  import opened Timestamps
  import opened Fail2ban

  // The text of instants orders as they do, for some span of time.
  ghost predicate Orders(text: int -> string, lo: int, hi: int) {
    forall a, b :: lo <= a <= hi && lo <= b <= hi ==> (TextLess(text(a), text(b)) <==> a < b)
  }

  // Calendar fields for instants: later ones get later fields.
  ghost predicate TellsTime(stamp: int -> Stamp, lo: int, hi: int) {
    && (forall t :: lo <= t <= hi ==> InRange(stamp(t)))
    && (forall a, b :: lo <= a <= hi && lo <= b <= hi ==> (Earlier(stamp(a), stamp(b)) <==> a < b))
  }

  function TextOf(stamp: int -> Stamp): int -> string {
    t => Format(stamp(t))
  }

  // Whatever the calendar, its formatted text orders as time does.
  lemma FormattedTextOrders(stamp: int -> Stamp, lo: int, hi: int)
    requires TellsTime(stamp, lo, hi)
    ensures Orders(TextOf(stamp), lo, hi)
  {
    forall a, b | lo <= a <= hi && lo <= b <= hi
      ensures TextLess(TextOf(stamp)(a), TextOf(stamp)(b)) <==> a < b
    {
      FormatOrder(stamp(a), stamp(b));
    }
  }

  // For instance the hundred days of a count that starts at midnight.
  function DayStamp(t: int): Stamp {
    if t < 0 then Stamp(0, 0, 0, 0, 0, 0)
    else Stamp(0, 0, t / 86400, t / 3600 % 24, t / 60 % 60, t % 60)
  }

  lemma DayStampParts(t: nat)
    requires t < 100 * 86400
    ensures var s := DayStamp(t);
      InRange(s) && t == ((s.day * 24 + s.hour) * 60 + s.minute) * 60 + s.second
      && s.hour < 24 && s.minute < 60 && s.second < 60
  {
    var m := t / 60;
    var h := m / 60;
    assert t / 3600 == h && t / 86400 == h / 24;
  }

  lemma HundredDaysTellTime()
    ensures TellsTime(DayStamp, 0, 100 * 86400 - 1)
  {
    forall a, b | 0 <= a < 100 * 86400 && 0 <= b < 100 * 86400
      ensures InRange(DayStamp(a)) && (Earlier(DayStamp(a), DayStamp(b)) <==> a < b)
    {
      DayStampParts(a);
      DayStampParts(b);
    }
  }

  // ---- The log table ----

  datatype TextRow = TextRow(ip: string, service: string, action: Action, createdAt: string)

  function StoredRow(text: int -> string, r: LogRow): TextRow {
    TextRow(r.ip, r.service, r.action, text(r.at))
  }

  function StoredLog(text: int -> string, log: seq<LogRow>): seq<TextRow> {
    seq(|log|, i requires 0 <= i < |log| => StoredRow(text, log[i]))
  }

  // created_at > cutoff.
  function TextCountAfter(rows: seq<TextRow>, ip: string, service: string, cutoff: string): nat {
    if rows == [] then 0
    else
      var r := rows[|rows| - 1];
      TextCountAfter(rows[..|rows| - 1], ip, service, cutoff)
      + if r.ip == ip && r.service == service && r.action == Attempted && TextLess(cutoff, r.createdAt) then 1 else 0
  }

  // Deletes the rows with created_at < cutoff.
  function TextKeepFrom(rows: seq<TextRow>, cutoff: string): seq<TextRow> {
    if rows == [] then []
    else
      var r := rows[|rows| - 1];
      TextKeepFrom(rows[..|rows| - 1], cutoff) + if TextLess(r.createdAt, cutoff) then [] else [r]
  }

  ghost predicate Within(log: seq<LogRow>, lo: int, hi: int) {
    forall i :: 0 <= i < |log| ==> lo <= log[i].at <= hi
  }

  lemma {:induction false} CountsAgree(text: int -> string, lo: int, hi: int, log: seq<LogRow>,
                                       ip: string, service: string, cutoff: int)
    requires Orders(text, lo, hi) && Within(log, lo, hi) && lo <= cutoff <= hi
    ensures TextCountAfter(StoredLog(text, log), ip, service, text(cutoff))
         == CountAfter(log, ip, service, cutoff)
  {
    if log != [] {
      var init, r := log[..|log| - 1], log[|log| - 1];
      CountsAgree(text, lo, hi, init, ip, service, cutoff);
      assert StoredLog(text, log)[..|log| - 1] == StoredLog(text, init);
    }
  }

  lemma {:induction false} PurgesAgree(text: int -> string, lo: int, hi: int, log: seq<LogRow>, cutoff: int)
    requires Orders(text, lo, hi) && Within(log, lo, hi) && lo <= cutoff <= hi
    ensures TextKeepFrom(StoredLog(text, log), text(cutoff)) == StoredLog(text, KeepFrom(log, cutoff))
  {
    if log != [] {
      var init, r := log[..|log| - 1], log[|log| - 1];
      PurgesAgree(text, lo, hi, init, cutoff);
      assert StoredLog(text, log)[..|log| - 1] == StoredLog(text, init);
      StoredSnoc(text, KeepFrom(init, cutoff), r);
    }
  }

  lemma StoredSnoc(text: int -> string, log: seq<LogRow>, r: LogRow)
    ensures StoredLog(text, log + [r]) == StoredLog(text, log) + [StoredRow(text, r)]
    ensures log + [] == log
  {
  }

  // ---- The ban table ----

  datatype TextBan = TextBan(reason: Reason, bannedAt: string, expiresAt: Option<string>, permanent: bool)

  function StoredBan(text: int -> string, b: Ban): TextBan {
    TextBan(b.reason, text(b.bannedAt),
            if b.expiresAt.None? then None else Some(text(b.expiresAt.value)), b.permanent)
  }

  // permanent, or expires_at > now.
  predicate TextInForce(b: TextBan, now: string) {
    b.permanent || (b.expiresAt.Some? && TextLess(now, b.expiresAt.value))
  }

  lemma BansAgree(text: int -> string, lo: int, hi: int, b: Ban, now: int)
    requires Orders(text, lo, hi) && lo <= now <= hi
    requires b.expiresAt.Some? ==> lo <= b.expiresAt.value <= hi
    ensures TextInForce(StoredBan(text, b), text(now)) <==> InForce(b, now)
  {
  }

  // ---- The tables, and one step on them ----

  datatype TextTables = TextTables(whitelist: set<string>, blacklist: set<string>,
                                   banned: map<(string, string), TextBan>, log: seq<TextRow>,
                                   settings: map<string, Setting>)

  function Stored(text: int -> string, t: Tables): TextTables {
    TextTables(t.whitelist, t.blacklist, StoredBans(text, t.banned), StoredLog(text, t.log), t.settings)
  }

  function StoredBans(text: int -> string, banned: map<(string, string), Ban>): map<(string, string), TextBan> {
    map k | k in banned :: StoredBan(text, banned[k])
  }

  predicate TextIsBanned(t: TextTables, ip: string, now: string) {
    exists k :: k in t.banned && k.0 == ip && TextInForce(t.banned[k], now)
  }

  // The step for one failure over the stored tables; the texts are those of now, of the
  // end of a ban that begins now, and of the beginning of the look-back.
  function TextHandleFailure(t: TextTables, ip: string, service: string, now: string, expires: string,
                             cutoff: string): TextTables {
    if ip in t.whitelist || TextIsBanned(t, ip, now) || service !in t.settings || !t.settings[service].enabled then t
    else TextProcess(t, ip, service, now, expires, cutoff)
  }

  function TextProcess(t: TextTables, ip: string, service: string, now: string, expires: string, cutoff: string): TextTables
    requires service in t.settings
  {
    var log := t.log + [TextRow(ip, service, Attempted, now)];
    var s, count := t.settings[service], TextCountAfter(log, ip, service, cutoff);
    if count >= s.maxAttempts then
      t.(banned := t.banned[(ip, service) := TextBan(AutoBan(count), now, Some(expires), false)],
         log := log + [TextRow(ip, service, WasBanned, now)])
    else t.(log := log)
  }

  ghost predicate TablesWithin(t: Tables, lo: int, hi: int) {
    && Within(t.log, lo, hi)
    && forall k :: k in t.banned && t.banned[k].expiresAt.Some? ==> lo <= t.banned[k].expiresAt.value <= hi
  }

  lemma BannedAgrees(text: int -> string, lo: int, hi: int, t: Tables, ip: string, now: int)
    requires Orders(text, lo, hi) && TablesWithin(t, lo, hi) && lo <= now <= hi
    ensures TextIsBanned(Stored(text, t), ip, text(now)) <==> IsBanned(t, ip, now)
  {
    var stored := Stored(text, t);
    forall k | k in t.banned
      ensures TextInForce(stored.banned[k], text(now)) <==> InForce(t.banned[k], now)
    {
      BansAgree(text, lo, hi, t.banned[k], now);
    }
    if IsBanned(t, ip, now) {
      var k :| k in t.banned && k.0 == ip && InForce(t.banned[k], now);
      assert k in stored.banned && TextInForce(stored.banned[k], text(now));
    }
  }

  // Storing and then taking the step over the text is taking the step and then storing.
  lemma StepsAgree(text: int -> string, lo: int, hi: int, t: Tables, ip: string, service: string, now: int)
    requires Orders(text, lo, hi) && TablesWithin(t, lo, hi) && lo <= now <= hi && service in t.settings
    requires lo <= now - 60 * t.settings[service].findMinutes <= hi
    ensures Stored(text, HandleFailure(t, ip, service, now))
         == TextHandleFailure(Stored(text, t), ip, service, text(now),
                              text(now + 60 * t.settings[service].banMinutes),
                              text(now - 60 * t.settings[service].findMinutes))
  {
    BannedAgrees(text, lo, hi, t, ip, now);
    if Processed(t, ip, service, now) {
      ProcessedAgrees(text, lo, hi, t, ip, service, now);
    }
  }

  lemma ProcessedAgrees(text: int -> string, lo: int, hi: int, t: Tables, ip: string, service: string, now: int)
    requires Orders(text, lo, hi) && Within(t.log, lo, hi) && lo <= now <= hi && Processed(t, ip, service, now)
    requires lo <= now - 60 * t.settings[service].findMinutes <= hi
    ensures Stored(text, HandleFailure(t, ip, service, now))
         == TextProcess(Stored(text, t), ip, service, text(now),
                        text(now + 60 * t.settings[service].banMinutes),
                        text(now - 60 * t.settings[service].findMinutes))
  {
    var s, row := t.settings[service], LogRow(ip, service, Attempted, now);
    var logged, count := t.(log := t.log + [row]), CountAfter(t.log + [row], ip, service, now - 60 * s.findMinutes);
    CountedInText(text, lo, hi, t.log, row, now - 60 * s.findMinutes);
    if count >= s.maxAttempts {
      assert HandleFailure(t, ip, service, now) == BanIp(logged, ip, service, AutoBan(count), s.banMinutes, false, now);
      StoredBanning(text, logged, ip, service, count, s.banMinutes, now);
    } else {
      assert HandleFailure(t, ip, service, now) == logged;
    }
  }

  lemma CountedInText(text: int -> string, lo: int, hi: int, log: seq<LogRow>, row: LogRow, cutoff: int)
    requires Orders(text, lo, hi) && Within(log, lo, hi) && lo <= row.at <= hi && lo <= cutoff <= hi
    ensures StoredLog(text, log + [row]) == StoredLog(text, log) + [TextRow(row.ip, row.service, row.action, text(row.at))]
    ensures TextCountAfter(StoredLog(text, log) + [TextRow(row.ip, row.service, row.action, text(row.at))], row.ip, row.service, text(cutoff))
         == CountAfter(log + [row], row.ip, row.service, cutoff)
  {
    StoredSnoc(text, log, row);
    CountsAgree(text, lo, hi, log + [row], row.ip, row.service, cutoff);
  }

  lemma StoredBanning(text: int -> string, t: Tables, ip: string, service: string, count: int, minutes: int, now: int)
    ensures Stored(text, BanIp(t, ip, service, AutoBan(count), minutes, false, now))
         == Stored(text, t).(
              banned := StoredBans(text, t.banned)[(ip, service) :=
                TextBan(AutoBan(count), text(now), Some(text(now + 60 * minutes)), false)],
              log := StoredLog(text, t.log) + [TextRow(ip, service, WasBanned, text(now))])
  {
    StoredSnoc(text, t.log, LogRow(ip, service, WasBanned, now));
    StoredBansUpdate(text, t.banned, (ip, service), Ban(AutoBan(count), now, Some(now + 60 * minutes), false));
  }

  lemma StoredBansUpdate(text: int -> string, banned: map<(string, string), Ban>, key: (string, string), b: Ban)
    ensures StoredBans(text, banned[key := b]) == StoredBans(text, banned)[key := StoredBan(text, b)]
  {
  }

  // The same for the purge.
  lemma PurgeAgrees(text: int -> string, lo: int, hi: int, t: Tables, now: int)
    requires Orders(text, lo, hi) && TablesWithin(t, lo, hi) && lo <= now - RETENTION <= hi
    ensures Stored(text, Purge(t, now))
         == Stored(text, t).(log := TextKeepFrom(Stored(text, t).log, text(now - RETENTION)))
  {
    PurgesAgree(text, lo, hi, t.log, now - RETENTION);
  }

  // All of it for the format the database uses.
  lemma StoredTextAgrees(stamp: int -> Stamp, lo: int, hi: int, t: Tables, ip: string, service: string, now: int)
    requires TellsTime(stamp, lo, hi) && TablesWithin(t, lo, hi) && lo <= now <= hi && lo <= now - RETENTION
    requires service in t.settings && lo <= now - 60 * t.settings[service].findMinutes <= hi
    ensures var text, s := TextOf(stamp), t.settings[service];
      && Stored(text, HandleFailure(t, ip, service, now))
         == TextHandleFailure(Stored(text, t), ip, service, text(now), text(now + 60 * s.banMinutes),
                              text(now - 60 * s.findMinutes))
      && Stored(text, Purge(t, now)).log == TextKeepFrom(Stored(text, t).log, text(now - RETENTION))
  {
    FormattedTextOrders(stamp, lo, hi);
    StepsAgree(TextOf(stamp), lo, hi, t, ip, service, now);
    PurgeAgrees(TextOf(stamp), lo, hi, t, now);
  }
}

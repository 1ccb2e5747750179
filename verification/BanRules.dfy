// What the automatic and the manual steps do to the tables, row by row: who is recorded, who
// is banned until when, and what lifts a ban.
module BanRules {
  import opened Text
  import opened Fail2ban

  // ---- Counting ----

  // The rows of an address and service that record an attempt after a cutoff.
  function AttemptRows(log: seq<LogRow>, ip: string, service: string, cutoff: int): set<int> {
    set i | 0 <= i < |log| && log[i].ip == ip && log[i].service == service
            && log[i].action == Attempted && log[i].at > cutoff
  }

  lemma {:induction false} CountIsRows(log: seq<LogRow>, ip: string, service: string, cutoff: int)
    ensures CountAfter(log, ip, service, cutoff) == |AttemptRows(log, ip, service, cutoff)|
  {
    if log != [] {
      var init, n := log[..|log| - 1], |log| - 1;
      CountIsRows(init, ip, service, cutoff);
      var before, after := AttemptRows(init, ip, service, cutoff), AttemptRows(log, ip, service, cutoff);
      assert forall i :: 0 <= i < n ==> init[i] == log[i];
      if n in after {
        assert after == before + {n};
      } else {
        assert after == before;
      }
    }
  }

  // ---- One failure in the mail log ----

  // No ban of the address, under any service, is permanent or runs on.
  predicate Free(t: Tables, ip: string, now: int) {
    forall k :: k in t.banned && k.0 == ip ==>
      !t.banned[k].permanent && (t.banned[k].expiresAt.Some? ==> t.banned[k].expiresAt.value <= now)
  }

  // Nothing happens for a whitelisted or banned address, and for a service that has no
  // setting or is switched off.
  lemma NothingIsRecorded(t: Tables, ip: string, service: string, now: int)
    requires ip in t.whitelist || !Free(t, ip, now) || service !in t.settings || !t.settings[service].enabled
    ensures HandleFailure(t, ip, service, now) == t
  {
    if !Free(t, ip, now) {
      var k :| k in t.banned && k.0 == ip && !(!t.banned[k].permanent && (t.banned[k].expiresAt.Some? ==> t.banned[k].expiresAt.value <= now));
      assert InForce(t.banned[k], now);
      assert IsBanned(t, ip, now);
    }
  }

  // Otherwise the attempt is recorded; and if it makes the threshold, with the earlier ones
  // in the look-back of the service, the address is banned for the time of the setting.
  lemma AttemptIsRecorded(t: Tables, ip: string, service: string, now: int)
    requires ip !in t.whitelist && Free(t, ip, now) && service in t.settings && t.settings[service].enabled
    ensures var s := t.settings[service];
      var row := LogRow(ip, service, Attempted, now);
      var n := |AttemptRows(t.log, ip, service, now - 60 * s.findMinutes)| + if s.findMinutes > 0 then 1 else 0;
      HandleFailure(t, ip, service, now)
      == if n < s.maxAttempts then t.(log := t.log + [row])
         else t.(log := t.log + [row] + [LogRow(ip, service, WasBanned, now)],
                 banned := t.banned[(ip, service) := Ban(AutoBan(n), now, Some(now + 60 * s.banMinutes), false)])
  {
    var s, row := t.settings[service], LogRow(ip, service, Attempted, now);
    NotBanned(t, ip, now);
    CountAfterSnoc(t.log, row, ip, service, now - 60 * s.findMinutes);
    CountIsRows(t.log, ip, service, now - 60 * s.findMinutes);
  }

  lemma NotBanned(t: Tables, ip: string, now: int)
    requires Free(t, ip, now)
    ensures !IsBanned(t, ip, now)
  {
  }

  // ---- How long bans last ----

  // A ban for some minutes holds until they are over, one without end for ever.
  lemma BanLasts(t: Tables, ip: string, service: string, reason: Reason, minutes: int, permanent: bool, now: int, later: int)
    ensures var t' := BanIp(t, ip, service, reason, minutes, permanent, now);
      && (permanent || later < now + 60 * minutes ==> IsBanned(t', ip, later))
      && (!permanent && later >= now + 60 * minutes && Free(t.(banned := t.banned - {(ip, service)}), ip, later)
          ==> !IsBanned(t', ip, later))
  {
    var t' := BanIp(t, ip, service, reason, minutes, permanent, now);
    assert (ip, service) in t'.banned;
    if !permanent && later >= now + 60 * minutes && Free(t.(banned := t.banned - {(ip, service)}), ip, later) {
      forall k | k in t'.banned && k.0 == ip
        ensures !InForce(t'.banned[k], later)
      {
        if k != (ip, service) { assert k in t.banned - {(ip, service)}; }
      }
    }
  }

  // A blacklisted address is banned from then on.
  lemma BlacklistedForEver(t: Tables, ip: string, now: int, later: int)
    ensures var t' := AddToBlacklist(t, ip, now);
      && ip in t'.blacklist && IsBanned(t', ip, later)
      && t'.blacklist == t.blacklist + {ip} && t'.whitelist == t.whitelist && t'.settings == t.settings
      && t'.log == t.log + [LogRow(ip, "all", WasBlacklisted, now)]
      && forall other :: other != ip ==> (IsBanned(t', other, later) <==> IsBanned(t, other, later))
  {
    var t' := AddToBlacklist(t, ip, now);
    assert (ip, "all") in t'.banned && (ip, "all").0 == ip;
    forall other | other != ip
      ensures IsBanned(t', other, later) <==> IsBanned(t, other, later)
    {
      forall k: (string, string) | k.0 == other
        ensures SameBan(t, t', k)
      {
      }
    }
  }

  // ---- What lifts a ban ----

  // A ban is as it was.
  predicate SameBan(t: Tables, t': Tables, k: (string, string)) {
    (k in t'.banned <==> k in t.banned) && (k in t.banned ==> t'.banned[k] == t.banned[k])
  }

  // Whitelisting lifts every ban of the address and of no other.
  lemma WhitelistingLifts(t: Tables, ip: string, now: int, later: int)
    ensures var t' := AddToWhitelist(t, ip, now);
      && ip in t'.whitelist && !IsBanned(t', ip, later)
      && t'.whitelist == t.whitelist + {ip} && t'.blacklist == t.blacklist && t'.settings == t.settings
      && t'.log == t.log + [LogRow(ip, "all", WasWhitelisted, now)]
      && forall k: (string, string) :: k.0 != ip ==> SameBan(t, t', k)
  {
  }

  // Lifting the ban of a service leaves the address banned exactly if another ban of it is
  // in force.
  lemma UnbanLifts(t: Tables, ip: string, service: string, now: int, later: int)
    ensures var t' := UnbanIp(t, ip, service, now);
      && (ip, service) !in t'.banned
      && (IsBanned(t', ip, later) <==> !Free(t.(banned := t.banned - {(ip, service)}), ip, later))
      && t'.log == (if (ip, service) in t.banned then t.log + [LogRow(ip, service, WasUnbanned, now)] else t.log)
      && forall k: (string, string) :: k != (ip, service) ==> SameBan(t, t', k)
  {
    var t', less := UnbanIp(t, ip, service, now), t.(banned := t.banned - {(ip, service)});
    assert t'.banned == less.banned;
    if Free(less, ip, later) {
      NotBanned(t', ip, later);
    } else {
      var k :| k in less.banned && k.0 == ip && !(!less.banned[k].permanent && (less.banned[k].expiresAt.Some? ==> less.banned[k].expiresAt.value <= later));
      assert InForce(t'.banned[k], later);
    }
  }

  // ---- Purging ----

  // A purge keeps the rows of the last thirty days, as often as they stand in the log.
  lemma {:induction false} PurgeKeeps(log: seq<LogRow>, r: LogRow, cutoff: int)
    ensures multiset(KeepFrom(log, cutoff))[r] == if r.at >= cutoff then multiset(log)[r] else 0
  {
    if log != [] {
      var init, last := log[..|log| - 1], log[|log| - 1];
      assert log == init + [last];
      PurgeKeeps(init, r, cutoff);
    }
  }

  lemma PurgeDropsOld(t: Tables, now: int, r: LogRow)
    ensures r in Purge(t, now).log <==> r in t.log && r.at >= now - 30 * 24 * 60 * 60
    ensures Purge(t, now).banned == t.banned && Purge(t, now).settings == t.settings
  {
    PurgeKeeps(t.log, r, now - 30 * 24 * 60 * 60);
    InIff(t.log, r);
    InIff(Purge(t, now).log, r);
  }

  lemma InIff<T>(s: seq<T>, x: T)
    ensures x in s <==> multiset(s)[x] > 0
  {
  }
}

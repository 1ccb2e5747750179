// The fixed texts and numbers of the program, in the results that use them.
module Wording {
  import opened Text
  import opened CalendarFeed
  import opened DavHrefs
  import opened McpGuard
  import opened Splice
  import opened SendAllowance

  // ---- The feed ----

  lemma FourInFront(a: string, b: string, c: string, d: string, rest: seq<string>, last: string)
    ensures var all := [a] + ([b, c] + [d] + rest) + [last];
      |all| >= 5 && all[..4] == [a, b, c, d] && all[|all| - 1] == last
  {
  }

  // The lines in front of the objects and behind them.
  lemma FeedBegins(name: string, objects: seq<string>)
    ensures |FeedLines(name, objects)| >= 5
    ensures FeedLines(name, objects)[..4]
         == ["BEGIN:VCALENDAR", "VERSION:2.0", "PRODID:-//Mailserver CalDAV//EN", "X-WR-CALNAME:" + name]
    ensures FeedLines(name, objects)[|FeedLines(name, objects)| - 1] == "END:VCALENDAR"
  {
    FourInFront("BEGIN:VCALENDAR", "VERSION:2.0", "PRODID:-//Mailserver CalDAV//EN", "X-WR-CALNAME:" + name,
      Bodies(objects), "END:VCALENDAR");
  }

  // ---- Hrefs ----

  lemma NoMatchWithout(s: string, c: char, pat: string)
    requires c !in s && pat != [] && pat[0] == c
    ensures forall j :: 0 <= j ==> !MatchAt(s, j, pat)
  {
    forall j | 0 <= j
      ensures !MatchAt(s, j, pat)
    {
      if j + |pat| <= |s| { assert s[j..j + |pat|][0] == s[j]; }
    }
  }

  // A path between the tags of an href is read as it stands.
  lemma HrefIsRead(name: string -> seq<string>, href: string)
    requires '<' !in href
    ensures Filenames(name, "<D:href>" + href + "</D:href>") == name(href) + []
  {
    NoMatchWithout(href, '<', CLOSE);
    NoMatchWithout("", '<', OPEN);
    NoMatchWithout("", '<', OPEN);
    FreeAfterClose("");
    ReadOneHref(name, "", href, "");
    var body := "" + OPEN + href + CLOSE + "";
    assert body == "<D:href>" + href + "</D:href>";
    assert CLOSE + "" == CLOSE;
  }

  // ---- Numbers of the guard ----

  // In every state, no minute holds more than sixty calls of a key, or ten destructive ones.
  lemma SixtyAndTen(guard: Guard, key: string, from: int)
    requires guard.Valid()
    ensures CountIn(TimesOf(guard.history, key, false), from, from + 60_000_000_000) <= 60
    ensures CountIn(TimesOf(guard.history, key, true), from, from + 60_000_000_000) <= 10
  {
    GuardIsBounded(guard, key, from);
  }

  // ---- The spam flag and the footer ----

  lemma FlagText(plan: Plan)
    ensures SpamLine(plan) == if plan.spam then Some("X-Spam-Flag: YES") else None
  {
  }

  // ---- The allowance ----

  // No limit, or one below it, charges nothing.
  lemma UnlimitedIsFree(row: Row, limit: int, today: int)
    requires limit <= 0
    ensures Charge(row, limit, today) == (row, true)
  {
  }

  // Charging on the day of the row takes one of what is left, and a refund gives it back.
  lemma RefundGivesBack(row: Row, limit: int, today: int)
    requires 0 <= row.count < limit && row.date == Some(today)
    ensures Charge(row, limit, today) == (Row(row.count + 1, Some(today)), true)
    ensures Refund(Charge(row, limit, today).0) == row
  {
  }

  // A refund of a row with nothing charged leaves nothing charged.
  lemma NothingToRefund(row: Row)
    requires row.count <= 0
    ensures Refund(row) == Row(0, row.date)
  {
  }

  // On another day the row is charged for the first time; at the limit not at all.
  lemma NewDayStartsOver(row: Row, limit: int, today: int)
    requires limit > 0
    ensures row.date != Some(today) ==> Charge(row, limit, today) == (Row(1, Some(today)), true)
    ensures row.date == Some(today) && row.count >= limit ==> Charge(row, limit, today) == (row, false)
  {
  }
}

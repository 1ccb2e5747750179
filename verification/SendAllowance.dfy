// The daily send allowance of one account, charged and refunded by concurrent handlers.
module SendAllowance {
  import opened Text

  // ---- The account row ----

  // `date` is the day the count belongs to; a fresh row belongs to no day.
  datatype Row = Row(count: int, date: Option<int>)

  const FRESH: Row := Row(0, None)

  // One charge under the connection lock; the row is reset when its day is another one.
  function Charge(row: Row, limit: int, today: int): (Row, bool) {
    if limit <= 0 then (row, true)
    else
      var r := if row.date != Some(today) then Row(0, Some(today)) else row;
      if r.count >= limit then (r, false) else (r.(count := r.count + 1), true)
  }

  function Refund(row: Row): Row {
    row.(count := if row.count - 1 > 0 then row.count - 1 else 0)
  }

  class Account {
    var count: int
    var date: Option<int>

    function View(): Row
      reads this
    {
      Row(count, date)
    }

    constructor ()
      ensures View() == FRESH
    {
      count, date := 0, None;
    }

    method CheckAndIncrement(limit: int, today: int) returns (ok: bool)
      modifies this
      ensures (View(), ok) == Charge(old(View()), limit, today)
      ensures limit > 0 && old(count) <= limit ==> count <= limit
    {
      if limit <= 0 {
        return true;
      }
      if date != Some(today) {
        count, date := 0, Some(today);
      }
      if count >= limit {
        return false;
      }
      count := count + 1;
      return true;
    }

    method RefundDailySend()
      modifies this`count
      ensures View() == Refund(old(View()))
    {
      count := if count - 1 > 0 then count - 1 else 0;
    }
  }

  // ---- Handlers ----
  //
  // A REST or SOAP handler reads the day, charges under the lock, builds and sends the
  // message, and refunds the charge if sending fails. Reading the day and charging are
  // two steps: the day is read before the lock is taken.

  datatype Task =
    | Started
    | Dated(today: int)
    | Refused
    | InFlight(day: int)
    | GaveUp(day: int)              // charged, then returned without sending
    | Sent(day: int)
    | SendFailed(day: int)          // the refund is still to come
    | Refunded(day: int, into: int) // charged on `day`, credited to the row of `into`

  // `epochs` lists the days the row has belonged to, the current one last.
  datatype World = World(row: Row, clock: int, epochs: seq<int>, tasks: seq<Task>)

  datatype Step =
    | Tick(days: nat)
    | ReadDay(i: nat)
    | ChargeStep(i: nat)
    | GiveUp(i: nat)
    | SendOk(i: nat)
    | SendErr(i: nat)
    | RefundStep(i: nat)

  function Apply(w: World, s: Step, limit: int): Option<World>
    requires w.row.date == if w.epochs == [] then None else Some(w.epochs[|w.epochs| - 1])
  {
    match s
    case Tick(d) => Some(w.(clock := w.clock + d))
    case ReadDay(i) =>
      if i < |w.tasks| && w.tasks[i].Started? then Some(w.(tasks := w.tasks[i := Dated(w.clock)])) else None
    case ChargeStep(i) =>
      if i < |w.tasks| && w.tasks[i].Dated? then
        var today := w.tasks[i].today;
        var (row, ok) := Charge(w.row, limit, today);
        var epochs := if row.date != w.row.date then w.epochs + [today] else w.epochs;
        Some(w.(row := row, epochs := epochs, tasks := w.tasks[i := if ok then InFlight(today) else Refused]))
      else None
    case GiveUp(i) =>
      if i < |w.tasks| && w.tasks[i].InFlight? then
        Some(w.(tasks := w.tasks[i := GaveUp(w.tasks[i].day)]))
      else None
    case SendOk(i) =>
      if i < |w.tasks| && w.tasks[i].InFlight? then
        Some(w.(tasks := w.tasks[i := Sent(w.tasks[i].day)]))
      else None
    case SendErr(i) =>
      if i < |w.tasks| && w.tasks[i].InFlight? then
        Some(w.(tasks := w.tasks[i := SendFailed(w.tasks[i].day)]))
      else None
    case RefundStep(i) =>
      if i < |w.tasks| && w.tasks[i].SendFailed? && w.epochs != [] then
        Some(w.(row := Refund(w.row),
                tasks := w.tasks[i := Refunded(w.tasks[i].day, w.epochs[|w.epochs| - 1])]))
      else None
  }

  // ---- Counting tasks ----

  datatype Kind =
    | Charged  // took one unit on the day
    | Credited // gave one unit back to the row of the day
    | Live     // in flight or sent
    | Crossed  // charged on another day, credited to this one

  function Weight(k: Kind, t: Task, day: int): nat {
    match k
    case Charged =>
      if (t.InFlight? || t.GaveUp? || t.Sent? || t.SendFailed? || t.Refunded?) && t.day == day then 1 else 0
    case Credited => if t.Refunded? && t.into == day then 1 else 0
    case Live => if (t.InFlight? || t.Sent?) && t.day == day then 1 else 0
    case Crossed => if t.Refunded? && t.into == day && t.day != day then 1 else 0
  }

  function Total(k: Kind, tasks: seq<Task>, day: int): nat {
    if tasks == [] then 0 else Total(k, tasks[..|tasks| - 1], day) + Weight(k, tasks[|tasks| - 1], day)
  }

  lemma TotalSnoc(k: Kind, tasks: seq<Task>, t: Task, day: int)
    ensures Total(k, tasks + [t], day) == Total(k, tasks, day) + Weight(k, t, day)
  {
    assert (tasks + [t])[..|tasks|] == tasks;
  }

  lemma {:induction false} TotalUpdate(k: Kind, tasks: seq<Task>, i: nat, t: Task, day: int)
    requires i < |tasks|
    ensures Total(k, tasks[i := t], day) == Total(k, tasks, day) - Weight(k, tasks[i], day) + Weight(k, t, day)
  {
    var n := |tasks| - 1;
    if i < n {
      TotalUpdate(k, tasks[..n], i, t, day);
      assert tasks[i := t][..n] == tasks[..n][i := t];
    } else {
      assert tasks[i := t][..n] == tasks[..n];
    }
  }

  // How often a day has been the row's day.
  function Epochs(epochs: seq<int>, day: int): nat {
    if epochs == [] then 0 else Epochs(epochs[..|epochs| - 1], day) + if epochs[|epochs| - 1] == day then 1 else 0
  }

  lemma {:induction false} LiveIsPaid(tasks: seq<Task>, day: int)
    ensures Total(Live, tasks, day) + Total(Credited, tasks, day)
         <= Total(Charged, tasks, day) + Total(Crossed, tasks, day)
  {
    if tasks != [] {
      LiveIsPaid(tasks[..|tasks| - 1], day);
    }
  }

  // ---- The invariant ----

  // The part of the limit that the current row still has to give.
  function Remaining(w: World, limit: int, day: int): int {
    if w.row.date == Some(day) then limit - w.row.count else 0
  }

  ghost predicate Paid(w: World, limit: int, day: int) {
    Total(Charged, w.tasks, day) - Total(Credited, w.tasks, day)
    <= limit * Epochs(w.epochs, day) - Remaining(w, limit, day)
  }

  ghost predicate Coherent(w: World, limit: int) {
    && 0 <= w.row.count <= limit
    && w.row.date == if w.epochs == [] then None else Some(w.epochs[|w.epochs| - 1])
  }

  ghost predicate Inv(w: World, limit: int) {
    Coherent(w, limit) && forall day :: Paid(w, limit, day)
  }

  ghost predicate Initial(w: World) {
    w.row == FRESH && w.epochs == [] && forall i :: 0 <= i < |w.tasks| ==> w.tasks[i] == Started
  }

  lemma {:induction false} NothingCharged(k: Kind, tasks: seq<Task>, day: int)
    requires forall i :: 0 <= i < |tasks| ==> tasks[i] == Started
    ensures Total(k, tasks, day) == 0
  {
    if tasks != [] {
      NothingCharged(k, tasks[..|tasks| - 1], day);
    }
  }

  lemma InitialInv(w: World, limit: int)
    requires Initial(w) && limit > 0
    ensures Inv(w, limit)
  {
    forall day
      ensures Paid(w, limit, day)
    {
      NothingCharged(Charged, w.tasks, day);
      NothingCharged(Credited, w.tasks, day);
    }
  }

  lemma MoreEpochs(limit: int, n: nat)
    ensures limit * (n + 1) == limit * n + limit
  {
  }

  lemma ChargePays(w: World, i: nat, limit: int, day: int)
    requires limit > 0 && Coherent(w, limit) && Paid(w, limit, day)
    requires i < |w.tasks| && w.tasks[i].Dated?
    ensures Paid(Apply(w, ChargeStep(i), limit).value, limit, day)
  {
    var w' := Apply(w, ChargeStep(i), limit).value;
    TotalUpdate(Charged, w.tasks, i, w'.tasks[i], day);
    TotalUpdate(Credited, w.tasks, i, w'.tasks[i], day);
    if w'.epochs != w.epochs {
      EpochsSnoc(w.epochs, w.tasks[i].today, day, limit);
    }
  }

  lemma EpochsSnoc(epochs: seq<int>, today: int, day: int, limit: int)
    ensures limit * Epochs(epochs + [today], day) == limit * Epochs(epochs, day) + if today == day then limit else 0
  {
    assert (epochs + [today])[..|epochs|] == epochs;
    MoreEpochs(limit, Epochs(epochs, day));
  }

  lemma OtherStepPays(w: World, s: Step, limit: int, day: int)
    requires limit > 0 && Coherent(w, limit) && Paid(w, limit, day)
    requires !s.ChargeStep? && Apply(w, s, limit).Some?
    ensures Paid(Apply(w, s, limit).value, limit, day)
  {
    var w' := Apply(w, s, limit).value;
    if !s.Tick? {
      TotalUpdate(Charged, w.tasks, s.i, w'.tasks[s.i], day);
      TotalUpdate(Credited, w.tasks, s.i, w'.tasks[s.i], day);
    }
  }

  lemma StepKeepsInv(w: World, s: Step, limit: int)
    requires limit > 0 && Inv(w, limit) && Apply(w, s, limit).Some?
    ensures Inv(Apply(w, s, limit).value, limit)
  {
    forall day
      ensures Paid(Apply(w, s, limit).value, limit, day)
    {
      assert Paid(w, limit, day);
      if s.ChargeStep? { ChargePays(w, s.i, limit, day); } else { OtherStepPays(w, s, limit, day); }
    }
  }

  // ---- Whole runs ----

  ghost predicate RunsTo(w: World, steps: seq<Step>, limit: int, end: World)
    requires Coherent(w, limit)
    decreases |steps|
  {
    if steps == [] then w == end
    else
      var next := Apply(w, steps[0], limit);
      next.Some? && Coherent(next.value, limit) && RunsTo(next.value, steps[1..], limit, end)
  }

  lemma {:induction false} RunKeepsInv(w: World, steps: seq<Step>, limit: int, end: World)
    requires limit > 0 && Inv(w, limit) && RunsTo(w, steps, limit, end)
    ensures Inv(end, limit)
    decreases |steps|
  {
    if steps != [] {
      StepKeepsInv(w, steps[0], limit);
      RunKeepsInv(Apply(w, steps[0], limit).value, steps[1..], limit, end);
    }
  }

  // In every interleaving, whatever days the handlers read: the messages sent and in
  // flight on a day are covered by the limit once for each time the row was reset to
  // that day, plus the refunds that came in from other days.
  lemma SentWithinAllowance(w: World, steps: seq<Step>, limit: int, end: World, day: int)
    requires limit > 0 && Initial(w) && RunsTo(w, steps, limit, end)
    ensures 0 <= end.row.count <= limit
    ensures Total(Live, end.tasks, day) <= limit * Epochs(end.epochs, day) + Total(Crossed, end.tasks, day)
  {
    InitialInv(w, limit);
    RunKeepsInv(w, steps, limit, end);
    assert Paid(end, limit, day);
    LiveIsPaid(end.tasks, day);
  }

  // ---- Runs in which nobody charges for a day before the row's ----

  // A charge that takes the row back to an earlier day.
  ghost predicate Stale(w: World, s: Step) {
    s.ChargeStep? && s.i < |w.tasks| && w.tasks[s.i].Dated?
    && w.row.date.Some? && w.tasks[s.i].today < w.row.date.value
  }

  ghost predicate NeverStale(w: World, steps: seq<Step>, limit: int)
    requires Coherent(w, limit)
    decreases |steps|
  {
    steps == [] ||
    (!Stale(w, steps[0])
     && (var next := Apply(w, steps[0], limit);
         next.Some? && Coherent(next.value, limit) ==> NeverStale(next.value, steps[1..], limit)))
  }

  ghost predicate Ascending(epochs: seq<int>) {
    forall i, j :: 0 <= i < j < |epochs| ==> epochs[i] < epochs[j]
  }

  lemma StepAscends(w: World, s: Step, limit: int)
    requires Coherent(w, limit) && Ascending(w.epochs) && !Stale(w, s) && Apply(w, s, limit).Some?
    ensures Ascending(Apply(w, s, limit).value.epochs)
  {
  }

  lemma {:induction false} NeverStaleAscends(w: World, steps: seq<Step>, limit: int, end: World)
    requires Coherent(w, limit) && Ascending(w.epochs)
    requires RunsTo(w, steps, limit, end) && NeverStale(w, steps, limit)
    ensures Ascending(end.epochs)
    decreases |steps|
  {
    if steps != [] {
      StepAscends(w, steps[0], limit);
      NeverStaleAscends(Apply(w, steps[0], limit).value, steps[1..], limit, end);
    }
  }

  lemma {:induction false} AscendingOnce(epochs: seq<int>, day: int)
    requires Ascending(epochs)
    ensures Epochs(epochs, day) <= 1
    ensures (forall i :: 0 <= i < |epochs| ==> epochs[i] < day) ==> Epochs(epochs, day) == 0
  {
    if epochs != [] {
      var init := epochs[..|epochs| - 1];
      AscendingOnce(init, epochs[|epochs| - 1]);
      AscendingOnce(init, day);
    }
  }

  // Then each day has one allowance, as intended.
  lemma FreshSendsWithinLimit(w: World, steps: seq<Step>, limit: int, end: World, day: int)
    requires limit > 0 && Initial(w) && RunsTo(w, steps, limit, end) && NeverStale(w, steps, limit)
    ensures Total(Live, end.tasks, day) <= limit + Total(Crossed, end.tasks, day)
  {
    NeverStaleAscends(w, steps, limit, end);
    AscendingOnce(end.epochs, day);
    OnceIsEnough(w, steps, limit, end, day);
  }

  lemma OnceIsEnough(w: World, steps: seq<Step>, limit: int, end: World, day: int)
    requires limit > 0 && Initial(w) && RunsTo(w, steps, limit, end) && Epochs(end.epochs, day) <= 1
    ensures Total(Live, end.tasks, day) <= limit + Total(Crossed, end.tasks, day)
  {
    SentWithinAllowance(w, steps, limit, end, day);
    assert limit * Epochs(end.epochs, day) <= limit * 1;
  }

  // ---- Which row days break the daily limit ----

  // A reset always changes the day.
  ghost predicate Realizable(epochs: seq<int>) {
    forall i :: 0 < i < |epochs| ==> epochs[i - 1] != epochs[i]
  }

  lemma StepIsRealizable(w: World, s: Step, limit: int)
    requires Coherent(w, limit) && Realizable(w.epochs) && Apply(w, s, limit).Some?
    ensures Realizable(Apply(w, s, limit).value.epochs)
  {
  }

  lemma {:induction false} RunIsRealizable(w: World, steps: seq<Step>, limit: int, end: World)
    requires Coherent(w, limit) && Realizable(w.epochs) && RunsTo(w, steps, limit, end)
    ensures Realizable(end.epochs)
    decreases |steps|
  {
    if steps != [] {
      StepIsRealizable(w, steps[0], limit);
      RunIsRealizable(Apply(w, steps[0], limit).value, steps[1..], limit, end);
    }
  }

  // A run from the start through these row days.
  ghost predicate RunThrough(w: World, steps: seq<Step>, limit: int, end: World, epochs: seq<int>) {
    limit > 0 && Initial(w) && RunsTo(w, steps, limit, end) && end.epochs == epochs
  }

  // ---- A run that uses every allowance up ----

  function Repeat(n: nat, day: int): seq<int> {
    seq(n, i => day)
  }

  // The days of the charges: the whole limit for each row day.
  function Targets(epochs: seq<int>, limit: nat): seq<int> {
    if epochs == [] then [] else Repeat(limit, epochs[0]) + Targets(epochs[1..], limit)
  }

  function AllDated(days: seq<int>): seq<Task> {
    seq(|days|, i requires 0 <= i < |days| => Dated(days[i]))
  }

  function AllInFlight(days: seq<int>): seq<Task> {
    seq(|days|, i requires 0 <= i < |days| => InFlight(days[i]))
  }

  lemma NextTask(done: seq<int>, day: int, todo: seq<int>)
    ensures var tasks := AllInFlight(done) + AllDated([day] + todo);
      |done| < |tasks| && tasks[|done|] == Dated(day)
      && tasks[|done| := InFlight(day)] == AllInFlight(done + [day]) + AllDated(todo)
  {
    var tasks := AllInFlight(done) + AllDated([day] + todo);
    var after := AllInFlight(done + [day]) + AllDated(todo);
    forall i | 0 <= i < |tasks|
      ensures tasks[|done| := InFlight(day)][i] == after[i]
    {
      if i > |done| { assert ([day] + todo)[i - |done|] == todo[i - |done| - 1]; }
    }
  }

  lemma RunsOne(w: World, s: Step, limit: int, next: World)
    requires Coherent(w, limit) && Coherent(next, limit) && Apply(w, s, limit) == Some(next)
    ensures RunsTo(w, [s], limit, next)
  {
    assert [s][1..] == [];
  }

  // The world after one more charge.
  function OneCharged(limit: int, w: World, done: seq<int>, day: int, todo: seq<int>): World {
    World(Charge(w.row, limit, day).0, w.clock, if w.row.date != Some(day) then w.epochs + [day] else w.epochs,
          AllInFlight(done + [day]) + AllDated(todo))
  }

  // One charge in front of a run.
  lemma ChargeThen(limit: int, w: World, done: seq<int>, day: int, todo: seq<int>, more: seq<Step>, end: World)
    requires limit > 0 && Coherent(w, limit) && w.tasks == AllInFlight(done) + AllDated([day] + todo)
    requires Charge(w.row, limit, day).1 && Coherent(OneCharged(limit, w, done, day, todo), limit)
    requires RunsTo(OneCharged(limit, w, done, day, todo), more, limit, end)
    ensures RunsTo(w, [ChargeStep(|done|)] + more, limit, end)
  {
    NextTask(done, day, todo);
    assert ([ChargeStep(|done|)] + more)[1..] == more;
  }

  // The world after n more charges for the day the row is at.
  function Spent(w: World, done: seq<int>, n: nat, day: int, todo: seq<int>): World {
    World(Row(w.row.count + n, Some(day)), w.clock, w.epochs, AllInFlight(done + Repeat(n, day)) + AllDated(todo))
  }

  lemma RepeatFirst(done: seq<int>, n: nat, day: int, todo: seq<int>)
    requires n > 0
    ensures Repeat(n, day) + todo == [day] + (Repeat(n - 1, day) + todo)
    ensures (done + [day]) + Repeat(n - 1, day) == done + Repeat(n, day)
  {
  }

  lemma {:induction false} ChargeRest(limit: int, w: World, done: seq<int>, n: nat, day: int, todo: seq<int>,
                                      more: seq<Step>, end: World) returns (steps: seq<Step>)
    requires limit > 0 && Coherent(w, limit) && w.row.date == Some(day) && w.row.count + n <= limit
    requires w.tasks == AllInFlight(done) + AllDated(Repeat(n, day) + todo)
    requires RunsTo(Spent(w, done, n, day, todo), more, limit, end)
    ensures RunsTo(w, steps, limit, end)
    decreases n
  {
    if n == 0 {
      steps := more;
      assert Repeat(0, day) + todo == todo && done + Repeat(0, day) == done;
      assert Spent(w, done, 0, day, todo) == w;
    } else {
      var rest := Repeat(n - 1, day) + todo;
      RepeatFirst(done, n, day, todo);
      var next := OneCharged(limit, w, done, day, rest);
      assert Spent(next, done + [day], n - 1, day, todo) == Spent(w, done, n, day, todo);
      var rests := ChargeRest(limit, next, done + [day], n - 1, day, todo, more, end);
      ChargeThen(limit, w, done, day, rest, rests, end);
      steps := [ChargeStep(|done|)] + rests;
    }
  }

  // A reset to another day, and all its charges.
  lemma ChargeDay(limit: int, w: World, done: seq<int>, day: int, todo: seq<int>, more: seq<Step>, end: World)
    returns (steps: seq<Step>)
    requires limit > 0 && Coherent(w, limit) && w.row.date != Some(day)
    requires w.tasks == AllInFlight(done) + AllDated(Repeat(limit, day) + todo)
    requires RunsTo(DayCharged(limit, w, done, day, todo), more, limit, end)
    ensures RunsTo(w, steps, limit, end)
  {
    var rest := Repeat(limit - 1, day) + todo;
    RepeatFirst(done, limit, day, todo);
    var next := OneCharged(limit, w, done, day, rest);
    assert Spent(next, done + [day], limit - 1, day, todo) == DayCharged(limit, w, done, day, todo);
    var rests := ChargeRest(limit, next, done + [day], limit - 1, day, todo, more, end);
    ChargeThen(limit, w, done, day, rest, rests, end);
    steps := [ChargeStep(|done|)] + rests;
  }

  // The world after all charges of one more row day.
  function DayCharged(limit: nat, from: World, done: seq<int>, day: int, todo: seq<int>): (w: World)
    ensures Coherent(w, limit)
  {
    World(Row(limit, Some(day)), from.clock, from.epochs + [day],
          AllInFlight(done + Repeat(limit, day)) + AllDated(todo))
  }

  // All the charges of all the row days.
  lemma {:induction false} ChargeAll(limit: int, from: World, done: seq<int>, days: seq<int>, todo: seq<int>)
    returns (steps: seq<Step>, end: World)
    requires limit > 0 && todo == Targets(days, limit) && Realizable(from.epochs + days)
    requires Coherent(from, limit) && from.tasks == AllInFlight(done) + AllDated(todo)
    ensures Coherent(end, limit) && end.epochs == from.epochs + days && end.tasks == AllInFlight(done + todo)
    ensures RunsTo(from, steps, limit, end)
    decreases |days|
  {
    if days == [] {
      steps, end := [], from;
      NothingToDo(from, done, todo);
      assert from.epochs + days == from.epochs;
    } else {
      var day, rest := days[0], Targets(days[1..], limit);
      OtherDay(from.epochs, days);
      FirstOf(from.epochs, days);
      Associative(done, Repeat(limit, day), rest);
      var mid := DayCharged(limit, from, done, day, rest);
      var more;
      more, end := ChargeAll(limit, mid, done + Repeat(limit, day), days[1..], rest);
      steps := ChargeDay(limit, from, done, day, rest, more, end);
    }
  }

  lemma NothingToDo(from: World, done: seq<int>, todo: seq<int>)
    requires from.tasks == AllInFlight(done) + AllDated(todo) && todo == []
    ensures from.tasks == AllInFlight(done + todo)
  {
    assert done + todo == done;
  }

  lemma FirstOf(a: seq<int>, b: seq<int>)
    requires b != []
    ensures a + b == (a + [b[0]]) + b[1..]
  {
  }

  lemma Associative(a: seq<int>, b: seq<int>, c: seq<int>)
    ensures (a + b) + c == a + (b + c)
  {
  }

  lemma OtherDay(epochs: seq<int>, days: seq<int>)
    requires Realizable(epochs + days) && days != []
    ensures epochs != [] ==> epochs[|epochs| - 1] != days[0]
  {
    var i := |epochs|;
    if i > 0 { assert (epochs + days)[i - 1] != (epochs + days)[i]; }
  }

  // ---- Reading the days before that ----

  // Days up to `clock` have been read, and of that day itself the first n.
  function Reading(days: seq<int>, clock: int, n: nat): World {
    World(FRESH, clock, [], seq(|days|, i requires 0 <= i < |days| =>
      if days[i] < clock || (days[i] == clock && i < n) then Dated(days[i]) else Started))
  }

  lemma {:induction false} ReadToday(limit: int, days: seq<int>, clock: int, n: nat) returns (steps: seq<Step>)
    requires limit > 0 && n <= |days|
    ensures RunsTo(Reading(days, clock, n), steps, limit, Reading(days, clock, |days|))
    decreases |days| - n
  {
    if n == |days| {
      steps := [];
    } else {
      var more := ReadToday(limit, days, clock, n + 1);
      var from, next := Reading(days, clock, n), Reading(days, clock, n + 1);
      if days[n] == clock {
        assert from.tasks[n := Dated(clock)] == next.tasks;
        RunsOne(from, ReadDay(n), limit, next);
        RunsThen(from, [ReadDay(n)], next, more, Reading(days, clock, |days|), limit);
        steps := [ReadDay(n)] + more;
      } else {
        assert from.tasks == next.tasks;
        steps := more;
      }
    }
  }

  lemma {:induction false} ReadUpTo(limit: int, days: seq<int>, clock: int, last: int) returns (steps: seq<Step>)
    requires limit > 0 && clock <= last
    ensures RunsTo(Reading(days, clock, 0), steps, limit, Reading(days, last, |days|))
    decreases last - clock
  {
    var today := ReadToday(limit, days, clock, 0);
    if clock == last {
      steps := today;
    } else {
      var from, mid, next := Reading(days, clock, 0), Reading(days, clock, |days|), Reading(days, clock + 1, 0);
      assert mid.tasks == next.tasks;
      RunsOne(mid, Tick(1), limit, next);
      var more := ReadUpTo(limit, days, clock + 1, last);
      RunsThen(mid, [Tick(1)], next, more, Reading(days, last, |days|), limit);
      RunsThen(from, today, mid, [Tick(1)] + more, Reading(days, last, |days|), limit);
      steps := today + ([Tick(1)] + more);
    }
  }

  lemma {:induction false} Bounds(days: seq<int>) returns (lo: int, hi: int)
    ensures lo <= hi && forall i :: 0 <= i < |days| ==> lo <= days[i] <= hi
  {
    if days == [] {
      lo, hi := 0, 0;
    } else {
      lo, hi := Bounds(days[1..]);
      var d := days[0];
      lo, hi := if d < lo then d else lo, if d > hi then d else hi;
      assert forall i :: 1 <= i < |days| ==> days[i] == days[1..][i - 1];
    }
  }

  lemma ReadAll(limit: int, days: seq<int>) returns (w: World, steps: seq<Step>, end: World)
    requires limit > 0
    ensures Initial(w) && end.row == FRESH && end.epochs == [] && end.tasks == AllDated(days)
    ensures RunsTo(w, steps, limit, end)
  {
    var lo, hi := Bounds(days);
    w, end := Reading(days, lo, 0), Reading(days, hi, |days|);
    steps := ReadUpTo(limit, days, lo, hi);
    assert end.tasks == AllDated(days);
  }

  // ---- What that run amounts to ----

  lemma {:induction false} CountInFlight(days: seq<int>, day: int)
    ensures Total(Live, AllInFlight(days), day) == Epochs(days, day)
    ensures Total(Crossed, AllInFlight(days), day) == 0
  {
    if days != [] {
      var n := |days| - 1;
      CountInFlight(days[..n], day);
      assert AllInFlight(days)[..n] == AllInFlight(days[..n]);
    }
  }

  lemma {:induction false} EpochsAppend(a: seq<int>, b: seq<int>, day: int)
    ensures Epochs(a + b, day) == Epochs(a, day) + Epochs(b, day)
  {
    if b == [] {
      assert a + b == a;
    } else {
      assert (a + b)[..|a + b| - 1] == a + b[..|b| - 1];
      EpochsAppend(a, b[..|b| - 1], day);
    }
  }

  lemma {:induction false} EpochsRepeat(n: nat, d: int, day: int)
    ensures Epochs(Repeat(n, d), day) == if d == day then n else 0
  {
    if n > 0 {
      assert Repeat(n, d)[..n - 1] == Repeat(n - 1, d);
      EpochsRepeat(n - 1, d, day);
    }
  }

  lemma {:induction false} EpochsTargets(days: seq<int>, limit: nat, day: int)
    ensures Epochs(Targets(days, limit), day) == limit * Epochs(days, day)
  {
    if days != [] {
      EpochsTargets(days[1..], limit, day);
      EpochsAppend(Repeat(limit, days[0]), Targets(days[1..], limit), day);
      EpochsRepeat(limit, days[0], day);
      EpochsAppend([days[0]], days[1..], day);
      assert days == [days[0]] + days[1..];
      EpochsRepeat(1, days[0], day);
      assert Repeat(1, days[0]) == [days[0]];
      MoreEpochs(limit, Epochs(days[1..], day));
    }
  }

  // Every list of row days in which neighbours differ is run through, with the whole
  // limit in flight for each of them and no refund.
  lemma EveryAllowanceIsUsed(limit: int, epochs: seq<int>) returns (w: World, steps: seq<Step>, end: World)
    requires limit > 0 && Realizable(epochs)
    ensures RunThrough(w, steps, limit, end, epochs)
    ensures forall day :: Total(Live, end.tasks, day) == limit * Epochs(epochs, day)
    ensures forall day :: Total(Crossed, end.tasks, day) == 0
  {
    var days := Targets(epochs, limit);
    var looks, mid, charges;
    w, looks, mid := ReadAll(limit, days);
    assert AllInFlight([]) + AllDated(days) == AllDated(days);
    assert [] + epochs == epochs && [] + days == days;
    charges, end := ChargeAll(limit, mid, [], epochs, days);
    RunsThen(w, looks, mid, charges, end, limit);
    steps := looks + charges;
    forall day
      ensures Total(Live, end.tasks, day) == limit * Epochs(epochs, day) && Total(Crossed, end.tasks, day) == 0
    {
      CountInFlight(days, day);
      EpochsTargets(epochs, limit, day);
    }
  }

  ghost predicate Overrun(w: World, steps: seq<Step>, limit: int, end: World, epochs: seq<int>, day: int) {
    RunThrough(w, steps, limit, end, epochs)
    && Total(Live, end.tasks, day) > limit + Total(Crossed, end.tasks, day)
  }

  // Whatever the limit and the row days: every run through them keeps the day within
  // the limit and its crossed refunds exactly when the row is at that day at most once.
  lemma DailyLimitHoldsIff(limit: int, epochs: seq<int>, day: int)
    requires limit > 0 && Realizable(epochs)
    ensures (forall w, steps, end :: !Overrun(w, steps, limit, end, epochs, day)) <==> Epochs(epochs, day) <= 1
  {
    if Epochs(epochs, day) <= 1 {
      forall w, steps, end
        ensures !Overrun(w, steps, limit, end, epochs, day)
      {
        if RunThrough(w, steps, limit, end, epochs) { OnceIsEnough(w, steps, limit, end, day); }
      }
    } else {
      var w, steps, end := EveryAllowanceIsUsed(limit, epochs);
      assert limit * Epochs(epochs, day) >= limit * 2;
      assert Overrun(w, steps, limit, end, epochs, day);
    }
  }

  function BackAndForth(day: int): seq<int> {
    [day, day - 1, day]
  }

  // For every limit, a handler that waits over midnight is enough: the row goes to the
  // new day, back to the old one and to the new one again.
  lemma StaleDayOverruns(limit: int, day: int)
    requires limit > 0
    ensures exists w, steps, end :: Overrun(w, steps, limit, end, BackAndForth(day), day)
  {
    var epochs := BackAndForth(day);
    assert epochs == Repeat(1, day) + (Repeat(1, day - 1) + Repeat(1, day));
    EpochsAppend(Repeat(1, day), Repeat(1, day - 1) + Repeat(1, day), day);
    EpochsAppend(Repeat(1, day - 1), Repeat(1, day), day);
    EpochsRepeat(1, day, day);
    EpochsRepeat(1, day - 1, day);
    DailyLimitHoldsIff(limit, epochs, day);
  }

  lemma {:induction false} RunsThen(w: World, a: seq<Step>, mid: World, b: seq<Step>, end: World, limit: int)
    requires Coherent(w, limit) && Coherent(mid, limit)
    requires RunsTo(w, a, limit, mid) && RunsTo(mid, b, limit, end)
    ensures RunsTo(w, a + b, limit, end)
    decreases |a|
  {
    if a == [] {
      assert a + b == b;
    } else {
      assert (a + b)[1..] == a[1..] + b;
      RunsThen(Apply(w, a[0], limit).value, a[1..], mid, b, end, limit);
    }
  }
}

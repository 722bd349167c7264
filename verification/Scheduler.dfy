/**
 The in-process job scheduler: calendar and interval schedules, and the loop that fires
 due jobs and sleeps.  Times are whole microseconds since the Unix epoch, in UTC.
 */
module Scheduler {
  import opened Wrappers

  const SECOND: int := 1_000_000
  const MINUTE: int := 60 * SECOND
  const MAX_LOOKAHEAD_MINUTES: nat := 8 * 24 * 60

  // ---------------------------------------------------------------------------
  // Schedules
  // ---------------------------------------------------------------------------

  /** Unset fields match any value; Monday is day 0. */
  datatype Cron = Cron(minute: Option<set<int>>, hour: Option<set<int>>, dayOfWeek: Option<set<int>>)

  datatype Schedule = Calendar(cron: Cron) | Interval(seconds: int)

  function MinuteOf(m: int): int { m % 60 }

  function HourOf(m: int): int { (m / 60) % 24 }

  /** Minute 0 is the first of a Thursday. */
  function WeekdayOf(m: int): int { (m / 1440 + 3) % 7 }

  predicate Allows(field: Option<set<int>>, value: int) {
    field.None? || value in field.value
  }

  /** The schedule fires in the minute numbered `m`. */
  predicate Matches(c: Cron, m: int) {
    Allows(c.minute, MinuteOf(m)) && Allows(c.hour, HourOf(m)) && Allows(c.dayOfWeek, WeekdayOf(m))
  }

  /** The first match from minute `m` on, before minute `end`. */
  function Search(c: Cron, m: int, end: int): Option<int>
    decreases end - m
  {
    if m >= end then None else if Matches(c, m) then Some(m) else Search(c, m + 1, end)
  }

  /** The minute in which the schedule fires next; none means the look-ahead was exhausted. */
  function NextMinute(c: Cron, now: int): Option<int> {
    Search(c, now / MINUTE + 1, now / MINUTE + 1 + MAX_LOOKAHEAD_MINUTES)
  }

  /** The minute-by-minute walk. */
  method NextAfter(c: Cron, now: int) returns (r: Option<int>)
    ensures r == NextMinute(c, now)
  {
    var candidate := now / MINUTE + 1;
    for k := 0 to MAX_LOOKAHEAD_MINUTES
      invariant candidate == now / MINUTE + 1 + k
      invariant NextMinute(c, now) == Search(c, candidate, now / MINUTE + 1 + MAX_LOOKAHEAD_MINUTES)
    {
      if Matches(c, candidate) {
        return Some(candidate);
      }
      candidate := candidate + 1;
    }
    return None;
  }

  /** The field allows some value of its range. */
  ghost predicate Usable(field: Option<set<int>>, range: int) {
    exists v :: 0 <= v < range && Allows(field, v)
  }

  ghost predicate Satisfiable(c: Cron) {
    Usable(c.minute, 60) && Usable(c.hour, 24) && Usable(c.dayOfWeek, 7)
  }

  lemma {:induction false} SearchFindsLeast(c: Cron, m: int, end: int)
    ensures Search(c, m, end).Some? ==>
              var r := Search(c, m, end).value;
              m <= r < end && Matches(c, r) && forall k :: m <= k < r ==> !Matches(c, k)
    ensures Search(c, m, end).None? ==> forall k :: m <= k < end ==> !Matches(c, k)
    decreases end - m
  {
    if m < end && !Matches(c, m) {
      SearchFindsLeast(c, m + 1, end);
    }
  }

  /** The fields of the minute that is `day` days, `hour` hours and `minute` minutes into week `week`. */
  lemma {:induction false} MinuteFields(week: int, day: int, hour: int, minute: int)
    requires 0 <= day < 7 && 0 <= hour < 24 && 0 <= minute < 60
    ensures var m := 10080 * week + 1440 * day + 60 * hour + minute;
            MinuteOf(m) == minute && HourOf(m) == hour && WeekdayOf(m) == (day + 3) % 7
  {
    var m := 10080 * week + 1440 * day + 60 * hour + minute;
    assert m / 60 == 168 * week + 24 * day + hour;
    assert m / 1440 == 7 * week + day;
  }

  /** Any 10,080 consecutive minutes hold one with given fields. */
  lemma {:induction false} MinuteInWeek(from: int, weekday: int, hour: int, minute: int) returns (m: int)
    requires 0 <= weekday < 7 && 0 <= hour < 24 && 0 <= minute < 60
    ensures from <= m < from + 10080
    ensures MinuteOf(m) == minute && HourOf(m) == hour && WeekdayOf(m) == weekday
  {
    var day := (weekday + 4) % 7;
    var offset := 1440 * day + 60 * hour + minute;
    var week := (from - offset + 10079) / 10080;
    m := 10080 * week + 1440 * day + 60 * hour + minute;
    MinuteFields(week, day, hour, minute);
  }

  /** The fields are those of the calendar: minute 29,459,520 was midnight of Monday, 5 January 2026. */
  lemma {:induction false} CalendarIsRight(week: int, weekday: int, hour: int, minute: int)
    requires 0 <= weekday < 7 && 0 <= hour < 24 && 0 <= minute < 60
    ensures var m := 29_459_520 + 10080 * week + 1440 * weekday + 60 * hour + minute;
            MinuteOf(m) == minute && HourOf(m) == hour && WeekdayOf(m) == weekday
  {
    if weekday < 3 {
      MinuteFields(2922 + week, weekday + 4, hour, minute);
    } else {
      MinuteFields(2923 + week, weekday - 3, hour, minute);
    }
  }

  lemma {:induction false} FieldsInRange(m: int)
    ensures 0 <= MinuteOf(m) < 60 && 0 <= HourOf(m) < 24 && 0 <= WeekdayOf(m) < 7
  {
  }

  /**
   The walk never exhausts its look-ahead unless no minute matches at all, which is the case
   exactly when some field allows no value of its range.
   */
  lemma {:induction false} LookAheadSuffices(c: Cron, now: int)
    ensures NextMinute(c, now).Some? <==> Satisfiable(c)
    ensures Satisfiable(c) <==> exists m :: Matches(c, m)
  {
    var first := now / MINUTE + 1;
    SearchFindsLeast(c, first, first + MAX_LOOKAHEAD_MINUTES);
    if Satisfiable(c) {
      var a :| 0 <= a < 60 && Allows(c.minute, a);
      var h :| 0 <= h < 24 && Allows(c.hour, h);
      var d :| 0 <= d < 7 && Allows(c.dayOfWeek, d);
      var m := MinuteInWeek(first, d, h, a);
      assert Matches(c, m);
    }
    if m :| Matches(c, m) {
      FieldsInRange(m);
    }
  }

  lemma {:induction false} LaterMinute(now: int, m: int)
    ensures m * MINUTE > now <==> m >= now / MINUTE + 1
  {
  }

  /** The result is the least matching minute whose start is strictly after `now`. */
  lemma {:induction false} NextIsLeast(c: Cron, now: int)
    requires Satisfiable(c)
    ensures NextMinute(c, now).Some? && Matches(c, NextMinute(c, now).value)
    ensures NextMinute(c, now).value * MINUTE > now
    ensures forall m :: m * MINUTE > now && Matches(c, m) ==> NextMinute(c, now).value <= m
  {
    LookAheadSuffices(c, now);
    var first := now / MINUTE + 1;
    SearchFindsLeast(c, first, first + MAX_LOOKAHEAD_MINUTES);
    LaterMinute(now, NextMinute(c, now).value);
    forall m | m * MINUTE > now && Matches(c, m)
      ensures NextMinute(c, now).value <= m
    {
      LaterMinute(now, m);
    }
  }

  // ---------------------------------------------------------------------------
  // The loop
  // ---------------------------------------------------------------------------

  /** A calendar that can fire, or an interval of at least one second as the plugin grammar demands. */
  ghost predicate Valid(s: Schedule) {
    match s
    case Calendar(c) => Satisfiable(c)
    case Interval(n) => n >= 1
  }

  function NextTime(s: Schedule, now: int): Option<int> {
    match s
    case Calendar(c) =>
      var m := NextMinute(c, now);
      if m.None? then None else Some(m.value * MINUTE)
    case Interval(n) => Some(now + n * SECOND)
  }

  ghost predicate CanFire(s: Schedule) {
    s.Calendar? ==> Satisfiable(s.cron)
  }

  lemma {:induction false} NextTimeExists(s: Schedule, now: int)
    ensures NextTime(s, now).Some? <==> CanFire(s)
  {
    if s.Calendar? {
      LookAheadSuffices(s.cron, now);
    }
  }

  lemma {:induction false} NextTimeIsLater(s: Schedule, now: int)
    requires Valid(s)
    ensures NextTime(s, now).Some? && NextTime(s, now).value > now
  {
    if s.Calendar? {
      NextIsLeast(s.cron, now);
    }
  }

  datatype Job = Job(schedule: Schedule, nextRun: int)

  ghost predicate StartedAt(catalog: seq<Schedule>, start: int, jobs: seq<Job>) {
    && |jobs| == |catalog|
    && forall k :: 0 <= k < |jobs| ==>
         NextTime(catalog[k], start).Some? && jobs[k] == Job(catalog[k], NextTime(catalog[k], start).value)
  }

  /** One launch: which job, the slot it was due for, and when. */
  datatype Launch = Launch(job: nat, slot: int, at: int)

  /**
   The clock readings of one turn of the loop: at its top, after each job that runs, and
   when the sleep is computed.
   */
  datatype Turn = Turn(now: int, after: seq<int>, asleep: int)

  /** What a turn does to one job.  A schedule that can never fire has stopped the scheduler before. */
  function Rescheduled(j: Job, now: int, after: int): Job {
    if j.nextRun <= now && NextTime(j.schedule, after).Some?
    then j.(nextRun := NextTime(j.schedule, after).value)
    else j
  }

  function AfterTurn(jobs: seq<Job>, t: Turn): seq<Job>
    requires |t.after| == |jobs|
  {
    seq(|jobs|, k requires 0 <= k < |jobs| => Rescheduled(jobs[k], t.now, t.after[k]))
  }

  /** The launches of a turn among the jobs from `k` on. */
  function LaunchesFrom(jobs: seq<Job>, now: int, k: nat): seq<Launch>
    requires k <= |jobs|
    decreases |jobs| - k
  {
    if k == |jobs| then []
    else (if jobs[k].nextRun <= now then [Launch(k, jobs[k].nextRun, now)] else [])
         + LaunchesFrom(jobs, now, k + 1)
  }

  /** The launch is that of a due job from `k` on, for the slot it had. */
  ghost predicate LaunchOfDue(l: Launch, jobs: seq<Job>, now: int, k: nat) {
    k <= l.job < |jobs| && jobs[l.job].nextRun <= now && l.slot == jobs[l.job].nextRun && l.at == now
  }

  ghost predicate Fired(ls: seq<Launch>, j: nat) {
    exists i :: 0 <= i < |ls| && ls[i].job == j
  }

  /** Exactly the jobs from `k` on that are due are launched, once each and in order. */
  ghost predicate LaunchesDue(ls: seq<Launch>, jobs: seq<Job>, now: int, k: nat) {
    && (forall i :: 0 <= i < |ls| ==> LaunchOfDue(ls[i], jobs, now, k))
    && (forall i, m :: 0 <= i < m < |ls| ==> ls[i].job < ls[m].job)
    && (forall j: nat :: k <= j < |jobs| && jobs[j].nextRun <= now ==> Fired(ls, j))
  }

  lemma {:induction false} FiredCons(l: Launch, ls: seq<Launch>, j: nat)
    ensures Fired([l] + ls, j) <==> l.job == j || Fired(ls, j)
  {
    var all := [l] + ls;
    if i :| 0 <= i < |ls| && ls[i].job == j {
      assert all[i + 1].job == j;
    }
    if l.job == j {
      assert all[0].job == j;
    }
  }

  lemma {:induction false} LaunchesDueCons(l: Launch, ls: seq<Launch>, jobs: seq<Job>, now: int, k: nat)
    requires LaunchesDue(ls, jobs, now, k + 1) && LaunchOfDue(l, jobs, now, k) && l.job == k
    ensures LaunchesDue([l] + ls, jobs, now, k)
  {
    forall j: nat | k <= j < |jobs| && jobs[j].nextRun <= now
      ensures Fired([l] + ls, j)
    {
      FiredCons(l, ls, j);
    }
  }

  lemma {:induction false} LaunchesDueSkip(ls: seq<Launch>, jobs: seq<Job>, now: int, k: nat)
    requires LaunchesDue(ls, jobs, now, k + 1) && k < |jobs| && jobs[k].nextRun > now
    ensures LaunchesDue(ls, jobs, now, k)
  {
  }

  lemma {:induction false} LaunchesAreDue(jobs: seq<Job>, now: int, k: nat)
    requires k <= |jobs|
    ensures LaunchesDue(LaunchesFrom(jobs, now, k), jobs, now, k)
    decreases |jobs| - k
  {
    if k < |jobs| {
      var rest := LaunchesFrom(jobs, now, k + 1);
      LaunchesAreDue(jobs, now, k + 1);
      if jobs[k].nextRun <= now {
        var l := Launch(k, jobs[k].nextRun, now);
        LaunchesDueCons(l, rest, jobs, now, k);
        assert LaunchesFrom(jobs, now, k) == [l] + rest;
      } else {
        LaunchesDueSkip(rest, jobs, now, k);
        assert LaunchesFrom(jobs, now, k) == rest;
      }
    }
  }

  /** What a turn leaves of the jobs: those that were due are scheduled anew from the end of their own run. */
  ghost predicate TurnLeaves(was: seq<Job>, t: Turn, jobs: seq<Job>)
    requires |t.after| == |was|
  {
    && |jobs| == |was|
    && forall k :: 0 <= k < |jobs| ==>
         if was[k].nextRun > t.now then jobs[k] == was[k]
         else jobs[k].schedule == was[k].schedule && NextTime(was[k].schedule, t.after[k]) == Some(jobs[k].nextRun)
  }

  lemma {:induction false} TurnIsAsTold(jobs: seq<Job>, t: Turn)
    requires |t.after| == |jobs| && forall k :: 0 <= k < |jobs| ==> CanFire(jobs[k].schedule)
    ensures TurnLeaves(jobs, t, AfterTurn(jobs, t))
  {
    forall k | 0 <= k < |jobs|
      ensures NextTime(jobs[k].schedule, t.after[k]).Some?
    {
      NextTimeExists(jobs[k].schedule, t.after[k]);
    }
  }

  ghost predicate Shaped(turns: seq<Turn>, n: nat) {
    forall i :: 0 <= i < |turns| ==> |turns[i].after| == n
  }

  ghost function JobsAfter(jobs: seq<Job>, turns: seq<Turn>): seq<Job>
    requires Shaped(turns, |jobs|)
    decreases |turns|
  {
    if turns == [] then jobs else JobsAfter(AfterTurn(jobs, turns[0]), turns[1..])
  }

  ghost function Launches(jobs: seq<Job>, turns: seq<Turn>): seq<Launch>
    requires Shaped(turns, |jobs|)
    decreases |turns|
  {
    if turns == [] then []
    else LaunchesFrom(jobs, turns[0].now, 0) + Launches(AfterTurn(jobs, turns[0]), turns[1..])
  }

  function Soonest(jobs: seq<Job>, fallback: int): int {
    if jobs == [] then fallback
    else if |jobs| == 1 then jobs[0].nextRun
    else
      var rest := Soonest(jobs[1..], fallback);
      if jobs[0].nextRun <= rest then jobs[0].nextRun else rest
  }

  /** Until the soonest next run, at least a second and at most a minute. */
  function SleepTime(jobs: seq<Job>, t: Turn): int {
    var gap := Soonest(jobs, t.now + 60 * SECOND) - t.asleep;
    var capped := if gap < 60 * SECOND then gap else 60 * SECOND;
    if capped < SECOND then SECOND else capped
  }

  class JobScheduler {
    var jobs: seq<Job>

    ghost predicate Ready()
      reads this
    {
      forall k :: 0 <= k < |jobs| ==> CanFire(jobs[k].schedule)
    }

    constructor ()
      ensures jobs == []
    {
      jobs := [];
    }

    /** Start-up fails on a schedule that can never fire, and only on such a one. */
    method Start(catalog: seq<Schedule>, start: int) returns (ok: bool)
      modifies this
      ensures ok <==> forall k :: 0 <= k < |catalog| ==> CanFire(catalog[k])
      ensures ok ==> Ready() && StartedAt(catalog, start, jobs)
    {
      jobs := [];
      for k := 0 to |catalog|
        invariant |jobs| == k
        invariant forall i :: 0 <= i < k ==> CanFire(catalog[i])
        invariant StartedAt(catalog[..k], start, jobs)
      {
        NextTimeExists(catalog[k], start);
        var next := ComputeNext(catalog[k], start);
        if next.None? {
          return false;
        }
        jobs := jobs + [Job(catalog[k], next.value)];
      }
      return true;
    }

    /** `next_after` for either kind of schedule. */
    static method ComputeNext(s: Schedule, now: int) returns (r: Option<int>)
      ensures r == NextTime(s, now)
    {
      match s {
        case Calendar(c) =>
          var m := NextAfter(c, now);
          r := if m.None? then None else Some(m.value * MINUTE);
        case Interval(n) => r := Some(now + n * SECOND);
      }
    }

    /** The loop over the catalogue: fire everything due, in order. */
    method FireDue(t: Turn) returns (launched: seq<Launch>)
      requires Ready() && |t.after| == |jobs|
      modifies this
      ensures Ready() && jobs == AfterTurn(old(jobs), t)
      ensures launched == LaunchesFrom(old(jobs), t.now, 0)
    {
      launched := [];
      ghost var jobs0 := jobs;
      for k := 0 to |jobs|
        invariant |jobs| == |jobs0|
        invariant forall i :: 0 <= i < k ==> jobs[i] == Rescheduled(jobs0[i], t.now, t.after[i])
        invariant forall i :: k <= i < |jobs| ==> jobs[i] == jobs0[i]
        invariant LaunchesFrom(jobs0, t.now, 0) == launched + LaunchesFrom(jobs0, t.now, k)
      {
        var job := jobs[k];
        if job.nextRun <= t.now {
          launched := launched + [Launch(k, job.nextRun, t.now)];
          var next := ComputeNext(job.schedule, t.after[k]);
          NextTimeExists(job.schedule, t.after[k]);
          jobs := jobs[k := job.(nextRun := next.value)];
        }
      }
      assert jobs == AfterTurn(jobs0, t);
    }

    /** One turn: fire everything due in catalogue order, then compute the sleep. */
    method RunTurn(t: Turn) returns (launched: seq<Launch>, sleep: int)
      requires Ready() && |t.after| == |jobs|
      modifies this
      ensures Ready() && jobs == AfterTurn(old(jobs), t)
      ensures launched == LaunchesFrom(old(jobs), t.now, 0)
      ensures sleep == SleepTime(jobs, t)
      ensures LaunchesDue(launched, old(jobs), t.now, 0) && TurnLeaves(old(jobs), t, jobs)
    {
      LaunchesAreDue(jobs, t.now, 0);
      TurnIsAsTold(jobs, t);
      launched := FireDue(t);
      var gap := Soonest(jobs, t.now + 60 * SECOND) - t.asleep;
      sleep := if gap < 60 * SECOND then gap else 60 * SECOND;
      if sleep < SECOND {
        sleep := SECOND;
      }
    }

    /** Any number of turns of the endless loop. */
    method RunForever(turns: seq<Turn>) returns (launched: seq<Launch>)
      requires Ready() && Shaped(turns, |jobs|)
      modifies this
      ensures jobs == JobsAfter(old(jobs), turns)
      ensures launched == Launches(old(jobs), turns)
    {
      launched := [];
      ghost var jobs0 := jobs;
      assert turns[0..] == turns;
      for k := 0 to |turns|
        invariant Ready() && |jobs| == |jobs0|
        invariant JobsAfter(jobs0, turns) == JobsAfter(jobs, turns[k..])
        invariant Launches(jobs0, turns) == launched + Launches(jobs, turns[k..])
      {
        assert turns[k..][0] == turns[k] && turns[k..][1..] == turns[k + 1..];
        var now, sleep := RunTurn(turns[k]);
        launched := launched + now;
      }
      assert turns[|turns|..] == [];
    }
  }
}

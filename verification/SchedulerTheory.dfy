/**
 Guarantees of the scheduler loop over every run: no early or repeated firing on any forward
 clock, and, when jobs take no time and sleeps are exact, every calendar slot fired once and
 within a second.
 */
module SchedulerTheory {
  import opened Wrappers
  import opened Scheduler

  // ---------------------------------------------------------------------------
  // One job of the catalogue
  // ---------------------------------------------------------------------------

  ghost function OfJob(ls: seq<Launch>, k: nat): seq<Launch> {
    if ls == [] then [] else (if ls[0].job == k then [ls[0]] else []) + OfJob(ls[1..], k)
  }

  /** The launches of job `k`, followed through the turns on its own. */
  ghost function JobLaunches(k: nat, j: Job, turns: seq<Turn>): seq<Launch>
    requires forall i :: 0 <= i < |turns| ==> k < |turns[i].after|
    decreases |turns|
  {
    if turns == [] then []
    else (if j.nextRun <= turns[0].now then [Launch(k, j.nextRun, turns[0].now)] else [])
         + JobLaunches(k, Rescheduled(j, turns[0].now, turns[0].after[k]), turns[1..])
  }

  lemma {:induction false} OfJobCons(l: Launch, ls: seq<Launch>, k: nat)
    ensures OfJob([l] + ls, k) == (if l.job == k then [l] else []) + OfJob(ls, k)
  {
    assert ([l] + ls)[1..] == ls;
  }

  lemma {:induction false} OfJobConcat(a: seq<Launch>, b: seq<Launch>, k: nat)
    ensures OfJob(a + b, k) == OfJob(a, k) + OfJob(b, k)
  {
    if a == [] {
      assert a + b == b;
    } else {
      OfJobConcat(a[1..], b, k);
      OfJobCons(a[0], a[1..] + b, k);
      OfJobCons(a[0], a[1..], k);
      assert [a[0]] + (a[1..] + b) == a + b && [a[0]] + a[1..] == a;
      ConcatAssociative(if a[0].job == k then [a[0]] else [], OfJob(a[1..], k), OfJob(b, k));
    }
  }

  lemma {:induction false} OfJobInTurn(jobs: seq<Job>, now: int, i: nat, k: nat)
    requires i <= |jobs| && k < |jobs|
    ensures OfJob(LaunchesFrom(jobs, now, i), k)
         == if i <= k && jobs[k].nextRun <= now then [Launch(k, jobs[k].nextRun, now)] else []
    decreases |jobs| - i
  {
    if i < |jobs| {
      OfJobInTurn(jobs, now, i + 1, k);
      var first := if jobs[i].nextRun <= now then [Launch(i, jobs[i].nextRun, now)] else [];
      OfJobConcat(first, LaunchesFrom(jobs, now, i + 1), k);
      if first != [] {
        assert first[1..] == [];
      }
    }
  }

  /** Jobs do not disturb each other's schedules. */
  lemma {:induction false} JobsAreIndependent(jobs: seq<Job>, turns: seq<Turn>, k: nat)
    requires Shaped(turns, |jobs|) && k < |jobs|
    ensures OfJob(Launches(jobs, turns), k) == JobLaunches(k, jobs[k], turns)
    decreases |turns|
  {
    if turns != [] {
      var next := AfterTurn(jobs, turns[0]);
      JobsAreIndependent(next, turns[1..], k);
      OfJobInTurn(jobs, turns[0].now, 0, k);
      OfJobConcat(LaunchesFrom(jobs, turns[0].now, 0), Launches(next, turns[1..]), k);
    }
  }

  // ---------------------------------------------------------------------------
  // Any forward clock
  // ---------------------------------------------------------------------------

  /** Readings never go back, from `from` on. */
  ghost predicate ClockForward(from: int, turns: seq<Turn>)
    decreases |turns|
  {
    turns == [] ||
    (&& from <= turns[0].now <= turns[0].asleep
     && (forall k :: 0 <= k < |turns[0].after| ==> turns[0].now <= turns[0].after[k] <= turns[0].asleep)
     && ClockForward(turns[0].asleep, turns[1..]))
  }

  /** Never early, and each slot lies after the previous launch. */
  ghost predicate WellTimed(ls: seq<Launch>) {
    && (forall i :: 0 <= i < |ls| ==> ls[i].slot <= ls[i].at)
    && (forall i, m :: 0 <= i < m < |ls| ==> ls[i].at < ls[m].slot)
  }

  ghost predicate SlotsFrom(ls: seq<Launch>, low: int) {
    forall i :: 0 <= i < |ls| ==> low <= ls[i].slot
  }

  /** The start of a minute in which the schedule fires. */
  ghost predicate OnSchedule(s: Schedule, time: int) {
    s.Calendar? ==> time % MINUTE == 0 && Matches(s.cron, time / MINUTE)
  }

  ghost predicate AllOnSchedule(s: Schedule, ls: seq<Launch>) {
    forall i :: 0 <= i < |ls| ==> OnSchedule(s, ls[i].slot)
  }

  lemma {:induction false} NextTimeOnSchedule(s: Schedule, now: int)
    requires Valid(s)
    ensures NextTime(s, now).Some? && NextTime(s, now).value > now
    ensures OnSchedule(s, NextTime(s, now).value)
  {
    NextTimeIsLater(s, now);
    if s.Calendar? {
      NextIsLeast(s.cron, now);
    }
  }

  lemma {:induction false} JobLaunchesWellTimed(k: nat, j: Job, turns: seq<Turn>, from: int)
    requires forall i :: 0 <= i < |turns| ==> k < |turns[i].after|
    requires Valid(j.schedule) && OnSchedule(j.schedule, j.nextRun) && ClockForward(from, turns)
    ensures WellTimed(JobLaunches(k, j, turns))
    ensures SlotsFrom(JobLaunches(k, j, turns), j.nextRun)
    ensures AllOnSchedule(j.schedule, JobLaunches(k, j, turns))
    decreases |turns|
  {
    if turns != [] {
      var t := turns[0];
      var j1 := Rescheduled(j, t.now, t.after[k]);
      NextTimeOnSchedule(j.schedule, t.after[k]);
      JobLaunchesWellTimed(k, j1, turns[1..], t.asleep);
    }
  }

  ghost predicate AllValid(catalog: seq<Schedule>) {
    forall k :: 0 <= k < |catalog| ==> Valid(catalog[k])
  }

  /**
   In every run on a forward clock, a job never fires before its slot, its slots strictly
   increase past each launch, all lie after start-up, and every calendar slot matches.
   */
  lemma {:induction false} RunsAreWellTimed(catalog: seq<Schedule>, start: int, jobs: seq<Job>,
                                            turns: seq<Turn>, k: nat)
    requires StartedAt(catalog, start, jobs) && AllValid(catalog) && k < |jobs|
    requires Shaped(turns, |jobs|) && ClockForward(start, turns)
    ensures var ls := OfJob(Launches(jobs, turns), k);
            WellTimed(ls) && SlotsFrom(ls, start + 1) && AllOnSchedule(catalog[k], ls)
  {
    NextTimeOnSchedule(catalog[k], start);
    JobsAreIndependent(jobs, turns, k);
    JobLaunchesWellTimed(k, jobs[k], turns, start);
  }

  // ---------------------------------------------------------------------------
  // Jobs that take no time, sleeps that are exact
  // ---------------------------------------------------------------------------

  ghost predicate Instant(t: Turn) {
    t.asleep == t.now && forall k :: 0 <= k < |t.after| ==> t.after[k] == t.now
  }

  /** The first turn is at `now`, and each following one exactly after the computed sleep. */
  ghost predicate Exact(jobs: seq<Job>, now: int, turns: seq<Turn>)
    requires Shaped(turns, |jobs|)
    decreases |turns|
  {
    turns == [] ||
    (&& turns[0].now == now && Instant(turns[0])
     && var next := AfterTurn(jobs, turns[0]);
        Exact(next, now + SleepTime(next, turns[0]), turns[1..]))
  }

  /** No job is overdue by a second or more. */
  ghost predicate InTime(jobs: seq<Job>, now: int) {
    forall k :: 0 <= k < |jobs| ==> now < jobs[k].nextRun + SECOND
  }

  ghost predicate AllGood(jobs: seq<Job>) {
    forall k :: 0 <= k < |jobs| ==> Valid(jobs[k].schedule) && OnSchedule(jobs[k].schedule, jobs[k].nextRun)
  }

  lemma {:induction false} SoonestBounds(jobs: seq<Job>, fallback: int, k: nat)
    requires k < |jobs|
    ensures Soonest(jobs, fallback) <= jobs[k].nextRun
  {
    if k > 0 {
      SoonestBounds(jobs[1..], fallback, k - 1);
    } else if |jobs| > 1 {
      assert Soonest(jobs, fallback) <= jobs[0].nextRun;
    }
  }

  /** After an instant turn every next run is ahead, and the sleep ends in time for all of them. */
  lemma {:induction false} TurnKeepsTime(jobs: seq<Job>, t: Turn)
    requires |t.after| == |jobs| && AllGood(jobs) && Instant(t)
    ensures var next := AfterTurn(jobs, t);
            && AllGood(next)
            && (forall k :: 0 <= k < |next| ==> next[k].nextRun > t.now)
            && InTime(next, t.now + SleepTime(next, t))
            && SleepTime(next, t) >= SECOND
  {
    var next := AfterTurn(jobs, t);
    forall k | 0 <= k < |next|
      ensures Valid(next[k].schedule) && OnSchedule(next[k].schedule, next[k].nextRun) && next[k].nextRun > t.now
      ensures t.now + SleepTime(next, t) < next[k].nextRun + SECOND
    {
      NextTimeOnSchedule(jobs[k].schedule, t.after[k]);
      SoonestBounds(next, t.now + 60 * SECOND, k);
    }
  }

  ghost predicate AllPunctual(ls: seq<Launch>) {
    forall i :: 0 <= i < |ls| ==> ls[i].at < ls[i].slot + SECOND
  }

  lemma {:induction false} LaunchesFromPunctual(jobs: seq<Job>, now: int, i: nat)
    requires i <= |jobs| && InTime(jobs, now)
    ensures AllPunctual(LaunchesFrom(jobs, now, i))
    decreases |jobs| - i
  {
    if i < |jobs| {
      LaunchesFromPunctual(jobs, now, i + 1);
    }
  }

  lemma {:induction false} ExactRunIsPunctual(jobs: seq<Job>, now: int, turns: seq<Turn>)
    requires Shaped(turns, |jobs|) && AllGood(jobs) && InTime(jobs, now) && Exact(jobs, now, turns)
    ensures AllPunctual(Launches(jobs, turns))
    decreases |turns|
  {
    if turns != [] {
      var next := AfterTurn(jobs, turns[0]);
      LaunchesFromPunctual(jobs, now, 0);
      TurnKeepsTime(jobs, turns[0]);
      ExactRunIsPunctual(next, now + SleepTime(next, turns[0]), turns[1..]);
    }
  }

  ghost predicate Launched(ls: seq<Launch>, slot: int) {
    exists i :: 0 <= i < |ls| && ls[i].slot == slot
  }

  lemma {:induction false} LaunchedConcat(a: seq<Launch>, b: seq<Launch>, slot: int)
    requires Launched(a, slot) || Launched(b, slot)
    ensures Launched(a + b, slot)
  {
    if i :| 0 <= i < |a| && a[i].slot == slot {
      assert (a + b)[i] == a[i];
    } else {
      var i :| 0 <= i < |b| && b[i].slot == slot;
      assert (a + b)[|a| + i] == b[i];
    }
  }

  /** A calendar job that fires in time moves on to the very next matching minute. */
  lemma {:induction false} NoSlotSkipped(c: Cron, slot: int, now: int, m: int)
    requires Satisfiable(c) && slot % MINUTE == 0 && slot <= now < slot + SECOND
    requires Matches(c, m) && slot < m * MINUTE
    ensures now < m * MINUTE && NextMinute(c, now).Some? && NextMinute(c, now).value <= m
  {
    var n := slot / MINUTE;
    assert slot == n * MINUTE;
    assert m >= n + 1;
    assert m * MINUTE > now;
    NextIsLeast(c, now);
  }

  /** A slot that is not fired now is still ahead, and the job's next run is not beyond it. */
  lemma {:induction false} SlotStaysAhead(j: Job, now: int, m: int)
    requires j.schedule.Calendar? && Valid(j.schedule) && OnSchedule(j.schedule, j.nextRun)
    requires now < j.nextRun + SECOND && j.nextRun <= m * MINUTE && Matches(j.schedule.cron, m)
    requires !(j.nextRun == m * MINUTE <= now)
    ensures now < m * MINUTE && Rescheduled(j, now, now).nextRun <= m * MINUTE
    ensures Rescheduled(j, now, now).schedule == j.schedule
  {
    if j.nextRun <= now {
      NoSlotSkipped(j.schedule.cron, j.nextRun, now, m);
    }
  }

  lemma {:induction false} SlotIsLaunched(jobs: seq<Job>, now: int, turns: seq<Turn>, k: nat, m: int)
    requires Shaped(turns, |jobs|) && AllGood(jobs) && InTime(jobs, now) && Exact(jobs, now, turns)
    requires k < |jobs| && jobs[k].schedule.Calendar? && Matches(jobs[k].schedule.cron, m)
    requires turns != [] && jobs[k].nextRun <= m * MINUTE <= turns[|turns| - 1].now
    ensures Launched(JobLaunches(k, jobs[k], turns), m * MINUTE)
    decreases |turns|
  {
    var t, j := turns[0], jobs[k];
    var j1 := Rescheduled(j, t.now, t.after[k]);
    var first := if j.nextRun <= t.now then [Launch(k, j.nextRun, t.now)] else [];
    if j.nextRun == m * MINUTE <= t.now {
      assert first[0].slot == m * MINUTE;
    } else {
      var next := AfterTurn(jobs, t);
      assert next[k] == j1;
      SlotStaysAhead(j, t.now, m);
      TurnKeepsTime(jobs, t);
      SlotIsLaunched(next, now + SleepTime(next, t), turns[1..], k, m);
    }
    LaunchedConcat(first, JobLaunches(k, j1, turns[1..]), m * MINUTE);
  }

  lemma {:induction false} StartIsGood(catalog: seq<Schedule>, start: int, jobs: seq<Job>)
    requires StartedAt(catalog, start, jobs) && AllValid(catalog)
    ensures AllGood(jobs) && InTime(jobs, start)
  {
    forall k | 0 <= k < |jobs|
      ensures Valid(jobs[k].schedule) && OnSchedule(jobs[k].schedule, jobs[k].nextRun) && start < jobs[k].nextRun
    {
      NextTimeOnSchedule(catalog[k], start);
    }
  }

  lemma {:induction false} FirstRunIsFirst(s: Schedule, start: int, m: int)
    requires s.Calendar? && Valid(s) && Matches(s.cron, m) && start < m * MINUTE
    ensures NextTime(s, start).Some? && NextTime(s, start).value <= m * MINUTE
  {
    NextIsLeast(s.cron, start);
  }

  lemma {:induction false} FirstSlotsAreLaunched(catalog: seq<Schedule>, start: int, jobs: seq<Job>, turns: seq<Turn>,
                                                 k: nat, m: int)
    requires StartedAt(catalog, start, jobs) && AllValid(catalog)
    requires Shaped(turns, |jobs|) && turns != [] && Exact(jobs, start, turns)
    requires k < |jobs| && catalog[k].Calendar? && Matches(catalog[k].cron, m)
    requires start < m * MINUTE <= turns[|turns| - 1].now
    ensures Launched(OfJob(Launches(jobs, turns), k), m * MINUTE)
  {
    StartIsGood(catalog, start, jobs);
    FirstRunIsFirst(catalog[k], start, m);
    SlotIsLaunched(jobs, start, turns, k, m);
    JobsAreIndependent(jobs, turns, k);
  }

  /**
   With instant jobs and exact sleeps, every launch is less than a second late, and a calendar
   job fires every matching minute between start-up and the last turn.
   */
  lemma {:induction false} ExactRunsMissNothing(catalog: seq<Schedule>, start: int, jobs: seq<Job>, turns: seq<Turn>)
    requires StartedAt(catalog, start, jobs) && AllValid(catalog)
    requires Shaped(turns, |jobs|) && turns != [] && Exact(jobs, start, turns)
    ensures AllPunctual(Launches(jobs, turns))
    ensures forall k, m :: 0 <= k < |jobs| && catalog[k].Calendar? && Matches(catalog[k].cron, m)
              && start < m * MINUTE <= turns[|turns| - 1].now
              ==> Launched(OfJob(Launches(jobs, turns), k), m * MINUTE)
  {
    StartIsGood(catalog, start, jobs);
    ExactRunIsPunctual(jobs, start, turns);
    forall k, m | 0 <= k < |jobs| && catalog[k].Calendar? && Matches(catalog[k].cron, m)
                  && start < m * MINUTE <= turns[|turns| - 1].now
      ensures Launched(OfJob(Launches(jobs, turns), k), m * MINUTE)
    {
      FirstSlotsAreLaunched(catalog, start, jobs, turns, k, m);
    }
  }

  // ---------------------------------------------------------------------------
  // Sleeping and intervals
  // ---------------------------------------------------------------------------

  /** Job `k` has the least next run. */
  ghost predicate RunsFirst(jobs: seq<Job>, k: int) {
    0 <= k < |jobs| && forall i :: 0 <= i < |jobs| ==> jobs[k].nextRun <= jobs[i].nextRun
  }

  /**
   The sleep ends exactly at the soonest next run if that is one to sixty seconds ahead; it lasts one
   second if the run is sooner or overdue, and sixty if it is later.  Without jobs it ends sixty
   seconds after the turn began, and lasts at least a second.
   */
  lemma {:induction false} SleepIsClamped(jobs: seq<Job>, t: Turn)
    ensures 1_000_000 <= SleepTime(jobs, t) <= 60_000_000
    ensures forall k :: RunsFirst(jobs, k) ==>
              && (t.asleep + 1_000_000 <= jobs[k].nextRun <= t.asleep + 60_000_000 ==>
                    t.asleep + SleepTime(jobs, t) == jobs[k].nextRun)
              && (jobs[k].nextRun < t.asleep + 1_000_000 ==> SleepTime(jobs, t) == 1_000_000)
              && (jobs[k].nextRun > t.asleep + 60_000_000 ==> SleepTime(jobs, t) == 60_000_000)
    ensures jobs == [] && t.now <= t.asleep <= t.now + 59_000_000 ==>
              t.asleep + SleepTime(jobs, t) == t.now + 60_000_000
    ensures jobs == [] && t.asleep > t.now + 59_000_000 ==> SleepTime(jobs, t) == 1_000_000
    ensures jobs != [] ==> exists k :: RunsFirst(jobs, k)
  {
    if jobs != [] {
      var k := SoonestIsLeast(jobs, t.now + 60 * SECOND);
      assert RunsFirst(jobs, k);
    }
  }

  lemma {:induction false} SoonestIsLeast(jobs: seq<Job>, fallback: int) returns (k: nat)
    requires jobs != []
    ensures k < |jobs| && Soonest(jobs, fallback) == jobs[k].nextRun
    ensures forall i :: 0 <= i < |jobs| ==> jobs[k].nextRun <= jobs[i].nextRun
  {
    if |jobs| == 1 {
      k := 0;
    } else {
      var j := SoonestIsLeast(jobs[1..], fallback);
      k := if jobs[0].nextRun <= jobs[1..][j].nextRun then 0 else j + 1;
      forall i | 0 <= i < |jobs|
        ensures jobs[k].nextRun <= jobs[i].nextRun
      {
        if i > 0 {
          assert jobs[i] == jobs[1..][i - 1];
        }
      }
    }
  }

  ghost predicate Evenly(ls: seq<Launch>, step: int) {
    forall i :: 0 < i < |ls| ==> ls[i].slot == ls[i - 1].at + step
  }

  /** An interval job that takes no time is due again exactly one interval after each launch. */
  lemma {:induction false} IntervalIsKept(k: nat, j: Job, turns: seq<Turn>)
    requires forall i :: 0 <= i < |turns| ==> k < |turns[i].after| && Instant(turns[i])
    requires j.schedule.Interval?
    ensures Evenly(JobLaunches(k, j, turns), j.schedule.seconds * SECOND)
    ensures JobLaunches(k, j, turns) != [] ==> JobLaunches(k, j, turns)[0].slot == j.nextRun
    decreases |turns|
  {
    if turns != [] {
      var t := turns[0];
      var j1 := Rescheduled(j, t.now, t.after[k]);
      var rest := JobLaunches(k, j1, turns[1..]);
      IntervalIsKept(k, j1, turns[1..]);
      if j.nextRun <= t.now {
        var ls := [Launch(k, j.nextRun, t.now)] + rest;
        forall i | 0 < i < |ls|
          ensures ls[i].slot == ls[i - 1].at + j.schedule.seconds * SECOND
        {
          if i > 1 {
            assert ls[i] == rest[i - 1] && ls[i - 1] == rest[i - 1 - 1];
          }
        }
      }
    }
  }
}

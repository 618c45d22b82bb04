/**
 The scheduling state machine of the reconciler: shouldSchedule, schedule and the
 requeue delay, over runs of reconciles of one cleaner.

 A reconcile reads the clock three times: in reconcileNormal, in schedule and in
 shouldSchedule. The properties are stated for the three readings where they matter.
 */
module Scheduler {
  import opened Prelude
  import opened Cron

  /** The two status fields that schedule reads and writes. */
  datatype Status = Status(lastRun: Option<Time>, nextSchedule: Option<Time>)

  datatype Reading = Reading(start: Time, sched: Time, check: Time)

  /** What one reconcile leaves behind: the status, whether it queued a job, the next run or an error. */
  datatype Reconciled = Reconciled(status: Status, queued: bool, reply: Result<Time, ScheduleError>)

  datatype Config = Config(spec: Spec, jitterWindowInSeconds: int)

  const IGNORE_TIME: int := 30 * SECOND

  function Jitter(c: Config): int { SECOND * c.jitterWindowInSeconds }

  /** Whether a reconcile queues a job: not before the window, not right after the last run. */
  function ShouldSchedule(c: Config, s: Status, check: Time): bool
    requires s.nextSchedule.Some?
  {
    var now := check + Jitter(c);
    if now < s.nextSchedule.value then false
    else if s.lastRun.Some? then now - s.lastRun.value >= IGNORE_TIME
    else true
  }

  /** schedule, as a function of the status and the clock readings. */
  ghost function Schedule(c: Config, s: Status, r: Reading): Reconciled {
    match NextScheduleTime(c.spec, s.lastRun, r.sched)
    case Err(e) => Reconciled(s, false, Err(e))
    case Ok(nextRun) =>
      if s.nextSchedule == None then Reconciled(Status(s.lastRun, Some(nextRun)), false, Ok(nextRun))
      else
        var queue := ShouldSchedule(c, s, r.check);
        Reconciled(Status(if queue then Some(r.sched) else s.lastRun, Some(nextRun)), queue, Ok(nextRun))
  }

  // ----- Runs of reconciles -----

  ghost function StatusAfter(c: Config, s: Status, rs: seq<Reading>): Status {
    if rs == [] then s
    else Schedule(c, StatusAfter(c, s, rs[..|rs| - 1]), rs[|rs| - 1]).status
  }

  /** The status reconcile i starts from, and what it does. */
  ghost function Before(c: Config, s: Status, rs: seq<Reading>, i: nat): Status
    requires i <= |rs|
  {
    StatusAfter(c, s, rs[..i])
  }

  ghost function Outcome(c: Config, s: Status, rs: seq<Reading>, i: nat): Reconciled
    requires i < |rs|
  {
    Schedule(c, Before(c, s, rs, i), rs[i])
  }

  ghost predicate Queues(c: Config, s: Status, rs: seq<Reading>, i: nat)
    requires i < |rs|
  {
    Outcome(c, s, rs, i).queued
  }

  ghost predicate Succeeds(c: Config, s: Status, rs: seq<Reading>, i: nat)
    requires i < |rs|
  {
    Outcome(c, s, rs, i).reply.Ok?
  }

  /** The clock never goes back, within a reconcile and from one to the next. */
  ghost predicate Monotone(rs: seq<Reading>) {
    && (forall i :: 0 <= i < |rs| ==> rs[i].start <= rs[i].sched <= rs[i].check)
    && (forall i, j :: 0 <= i < j < |rs| ==> rs[i].check <= rs[j].start)
  }

  lemma {:induction false} BeforeNext(c: Config, s: Status, rs: seq<Reading>, i: nat)
    requires i < |rs|
    ensures Before(c, s, rs, i + 1) == Outcome(c, s, rs, i).status
  {
    assert rs[..i + 1][..i] == rs[..i];
  }

  lemma {:induction false} BeforeFirst(c: Config, s: Status, rs: seq<Reading>)
    ensures Before(c, s, rs, 0) == s
  {
  }

  // ----- The stored times -----

  /** LastRunTime is the reading of the latest reconcile that queued a job. */
  lemma {:induction false} LastRunIsLastQueued(c: Config, s: Status, rs: seq<Reading>, i: nat) returns (q: int)
    requires i <= |rs|
    ensures -1 <= q < i
    ensures q >= 0 ==> Queues(c, s, rs, q) && Before(c, s, rs, i).lastRun == Some(rs[q].sched)
    ensures q == -1 ==> Before(c, s, rs, i).lastRun == s.lastRun
    ensures forall j :: q < j < i ==> !Queues(c, s, rs, j)
    decreases i
  {
    if i == 0 {
      BeforeFirst(c, s, rs);
      q := -1;
    } else {
      BeforeNext(c, s, rs, i - 1);
      if Queues(c, s, rs, i - 1) {
        q := i - 1;
      } else {
        q := LastRunIsLastQueued(c, s, rs, i - 1);
      }
    }
  }

  /** NextScheduleTime is the activation that follows the latest reconcile without error. */
  lemma {:induction false} NextIsAfterLastSuccess(c: Config, s: Status, rs: seq<Reading>, i: nat) returns (p: int)
    requires i <= |rs|
    ensures -1 <= p < i
    ensures p >= 0 ==> Succeeds(c, s, rs, p) && c.spec.schedule.Some? &&
                       Before(c, s, rs, i).nextSchedule == Some(c.spec.schedule.value(rs[p].sched))
    ensures p == -1 ==> Before(c, s, rs, i).nextSchedule == s.nextSchedule
    ensures forall j :: p < j < i ==> !Succeeds(c, s, rs, j)
    decreases i
  {
    if i == 0 {
      BeforeFirst(c, s, rs);
      p := -1;
    } else {
      BeforeNext(c, s, rs, i - 1);
      if Succeeds(c, s, rs, i - 1) {
        p := i - 1;
      } else {
        p := NextIsAfterLastSuccess(c, s, rs, i - 1);
      }
    }
  }

  // ----- Spacing -----

  /**
   Two jobs of one cleaner are at least thirty seconds minus the jitter window apart, up
   to the time between the readings of the later reconcile, and none is queued more
   than the jitter window before the NextScheduleTime in place.
   */
  lemma {:induction false} JobsAreSpaced(c: Config, s: Status, rs: seq<Reading>, i: nat, j: nat)
    requires Monotone(rs) && i < j < |rs| && Queues(c, s, rs, i) && Queues(c, s, rs, j)
    ensures rs[j].check - rs[i].sched >= 30_000_000_000 - 1_000_000_000 * c.jitterWindowInSeconds
    ensures Before(c, s, rs, j).nextSchedule.Some?
    ensures rs[j].check >= Before(c, s, rs, j).nextSchedule.value - 1_000_000_000 * c.jitterWindowInSeconds
  {
    var q := LastRunIsLastQueued(c, s, rs, j);
    assert q >= i;
    assert rs[i].sched <= rs[q].sched;
  }

  // ----- Requeue and NextScheduleTime -----

  /**
   A reconcile without error asks to be run again after a positive delay, and that
   delay, counted from the reading it is subtracted from, ends at the NextScheduleTime
   it stores, which is the least activation after its reading in schedule. A reconcile
   before the NextScheduleTime in place leaves it unchanged.
   */
  lemma {:induction false} RequeueHitsNextSchedule(c: Config, s: Status, rs: seq<Reading>, i: nat)
    requires ValidSpec(c.spec) && Monotone(rs) && i < |rs| && Succeeds(c, s, rs, i)
    ensures var next := c.spec.schedule.value;
            var nextRun := Outcome(c, s, rs, i).reply.value;
            && nextRun - rs[i].start > 0
            && Before(c, s, rs, i + 1).nextSchedule == Some(nextRun)
            && IsActivation(next, nextRun) && Between(next, rs[i].sched, nextRun) == {}
    ensures forall p :: 0 <= p < i && Succeeds(c, s, rs, p) ==>
              var stored := Before(c, s, rs, i).nextSchedule;
              && stored.Some? && stored.value <= Outcome(c, s, rs, i).reply.value
              && (rs[i].sched < stored.value ==> Before(c, s, rs, i + 1).nextSchedule == stored)
  {
    var next := c.spec.schedule.value;
    BeforeNext(c, s, rs, i);
    NextIsLeastActivation(next, rs[i].sched);
    var last := NextIsAfterLastSuccess(c, s, rs, i);
    if last >= 0 {
      assert rs[last].sched <= rs[i].sched;
      assert next(rs[i].sched) > rs[i].sched;
    }
  }

  // ----- When a reconcile fails -----

  /**
   A reconcile fails exactly when the schedule cannot be parsed or more than a hundred
   activations were missed since the latest job (or the run recorded at the start, or
   the creation), not counting those older than the deadline.
   */
  lemma {:induction false} FailsIffMissed(c: Config, s: Status, rs: seq<Reading>, i: nat) returns (q: int)
    requires i < |rs|
    ensures -1 <= q < i && (q >= 0 ==> Queues(c, s, rs, q))
    ensures forall j :: q < j < i ==> !Queues(c, s, rs, j)
    ensures !Succeeds(c, s, rs, i) <==>
            || c.spec.schedule == None
            || |Missed(c.spec, if q >= 0 then Some(rs[q].sched) else s.lastRun, rs[i].sched)| > 100
  {
    q := LastRunIsLastQueued(c, s, rs, i);
    if c.spec.schedule.Some? {
      CountsTheMissed(c.spec, Before(c, s, rs, i).lastRun, rs[i].sched);
    }
  }

  // ----- When the failure is absorbing -----

  ghost predicate TooMany(c: Config, lastRun: Option<Time>, now: Time)
    requires c.spec.schedule.Some?
  {
    |Missed(c.spec, lastRun, now)| > 100
  }

  lemma {:induction false} TooManyIff(c: Config, s: Status, r: Reading)
    requires c.spec.schedule.Some?
    ensures Schedule(c, s, r).reply == Err(TooManyMissed) <==> TooMany(c, s.lastRun, r.sched)
    ensures Schedule(c, s, r).reply.Ok? <==> !TooMany(c, s.lastRun, r.sched)
    ensures TooMany(c, s.lastRun, r.sched) ==> Schedule(c, s, r).status == s
  {
    CountsTheMissed(c.spec, s.lastRun, r.sched);
  }

  /** Reconciles that fail leave the status alone. */
  lemma {:induction false} FailuresKeepStatus(c: Config, s: Status, rs: seq<Reading>, i: nat, j: nat)
    requires i <= j <= |rs| && forall m :: i <= m < j ==> !Succeeds(c, s, rs, m)
    ensures Before(c, s, rs, j) == Before(c, s, rs, i)
    decreases j
  {
    if i < j {
      FailuresKeepStatus(c, s, rs, i, j - 1);
      BeforeNext(c, s, rs, j - 1);
      assert !Succeeds(c, s, rs, j - 1);
    }
  }

  /**
   After a reconcile that fails with "too many missed start times", the first later one to
   succeed is the first one by whose reading at most a hundred activations are missed,
   counted from the same last run: only their growing older than the deadline can help.
   */
  lemma {:induction false} RecoversIff(c: Config, s: Status, rs: seq<Reading>, i: nat, j: nat)
    requires i < j < |rs| && c.spec.schedule.Some? && forall m :: i <= m < j ==> !Succeeds(c, s, rs, m)
    ensures Succeeds(c, s, rs, j) <==> !TooMany(c, Before(c, s, rs, i).lastRun, rs[j].sched)
  {
    FailuresKeepStatus(c, s, rs, i, j);
    TooManyIff(c, Before(c, s, rs, j), rs[j]);
  }

  /** Every reconcile of every run that starts in this status, at this time or later, fails. */
  ghost predicate FailsForEver(c: Config, s: Status, now: Time) {
    forall rs: seq<Reading>, j :: Monotone(rs) && 0 <= j < |rs| && now <= rs[0].sched ==>
      Outcome(c, s, rs, j).reply == Err(TooManyMissed)
  }

  /**
   The failure is absorbing exactly when at every time from now on more than a hundred
   activations are missed. With a deadline that says the window always holds so many.
   */
  lemma {:induction false} FailsForEverIff(c: Config, s: Status, now: Time)
    requires c.spec.schedule.Some?
    ensures FailsForEver(c, s, now) <==> forall t :: now <= t ==> TooMany(c, s.lastRun, t)
  {
    hide Schedule, TooMany;
    if FailsForEver(c, s, now) {
      forall t | now <= t
        ensures TooMany(c, s.lastRun, t)
      {
        var rs := [Reading(t, t, t)];
        assert Outcome(c, s, rs, 0).reply == Err(TooManyMissed);
        BeforeFirst(c, s, rs);
        TooManyIff(c, s, rs[0]);
      }
    }
    if forall t :: now <= t ==> TooMany(c, s.lastRun, t) {
      forall rs: seq<Reading>, j | Monotone(rs) && 0 <= j < |rs| && now <= rs[0].sched
        ensures Outcome(c, s, rs, j).reply == Err(TooManyMissed)
      {
        KeepsFailing(c, s, rs, j, now);
        TooManyIff(c, s, rs[j]);
      }
    }
  }

  lemma {:induction false} KeepsFailing(c: Config, s: Status, rs: seq<Reading>, j: nat, now: Time)
    requires Monotone(rs) && j < |rs| && now <= rs[0].sched && c.spec.schedule.Some?
    requires forall t :: now <= t ==> TooMany(c, s.lastRun, t)
    ensures now <= rs[j].sched && Before(c, s, rs, j) == s
    decreases j
  {
    hide Schedule, TooMany;
    if j == 0 {
      BeforeFirst(c, s, rs);
    } else {
      KeepsFailing(c, s, rs, j - 1, now);
      BeforeNext(c, s, rs, j - 1);
      TooManyIff(c, s, rs[j - 1]);
      assert rs[j - 1].check <= rs[j].start;
    }
  }

  lemma {:induction false} MissedFailureRepeats(spec: Spec, lastRun: Option<Time>, now: Time, later: Time)
    requires spec.startingDeadlineSeconds == None && now <= later
    requires NextScheduleTime(spec, lastRun, now) == Err(TooManyMissed)
    ensures NextScheduleTime(spec, lastRun, later) == Err(TooManyMissed)
  {
    var e := EarliestTime(spec, lastRun, now);
    BetweenGrows(spec.schedule.value, e, now, e, later);
  }

  /**
   Without a starting deadline, once a reconcile fails with "too many missed start
   times", every later reconcile fails in the same way and the status never changes
   again, so no job is ever queued.
   */
  lemma {:induction false} MissedFailureIsAbsorbing(c: Config, s: Status, rs: seq<Reading>, i: nat, j: nat)
    requires Monotone(rs) && i <= j < |rs| && c.spec.startingDeadlineSeconds == None
    requires Outcome(c, s, rs, i).reply == Err(TooManyMissed)
    ensures Outcome(c, s, rs, j).reply == Err(TooManyMissed)
    ensures Before(c, s, rs, j) == Before(c, s, rs, i)
    decreases j
  {
    if i < j {
      MissedFailureIsAbsorbing(c, s, rs, i, j - 1);
      BeforeNext(c, s, rs, j - 1);
      MissedFailureRepeats(c.spec, Before(c, s, rs, i).lastRun, rs[i].sched, rs[j].sched);
    }
  }
}

/**
 Which activations get a job: none goes by silently, and when one can get two.
 */
module SchedulerCoverage {
  import opened Prelude
  import opened Cron
  import opened Scheduler

  // ----- No activation goes by silently -----

  /**
   Reconcile i succeeds before activation a, and r is the first reconcile at or after a
   to succeed. Errors in between are allowed.
   */
  ghost predicate FirstAtOrAfter(c: Config, s: Status, rs: seq<Reading>, i: nat, r: nat, a: Time) {
    && i < r < |rs| && Succeeds(c, s, rs, i) && Succeeds(c, s, rs, r)
    && c.spec.schedule.Some? && IsActivation(c.spec.schedule.value, a)
    && rs[i].sched < a <= rs[r].sched
    && forall j {:trigger Succeeds(c, s, rs, j)} :: i < j < r && Succeeds(c, s, rs, j) ==> rs[j].sched < a
  }

  /** The last run counts as recent at reading r. */
  ghost predicate RanRecently(c: Config, lastRun: Option<Time>, r: Reading) {
    lastRun.Some? && lastRun.value > r.check + 1_000_000_000 * c.jitterWindowInSeconds - 30_000_000_000
  }

  /** At r the activation passes although no job is queued and no recent run excuses it. */
  ghost predicate Skips(c: Config, s: Status, rs: seq<Reading>, i: nat, r: nat, a: Time) {
    && ValidSpec(c.spec) && Monotone(rs) && FirstAtOrAfter(c, s, rs, i, r, a)
    && !Queues(c, s, rs, r) && !RanRecently(c, Before(c, s, rs, r).lastRun, rs[r])
  }

  /** When reconcile r meets activation a, the NextScheduleTime in place is not after a. */
  lemma {:induction false} DueByThen(c: Config, s: Status, rs: seq<Reading>, i: nat, r: nat, a: Time)
    requires ValidSpec(c.spec) && FirstAtOrAfter(c, s, rs, i, r, a)
    ensures Before(c, s, rs, r).nextSchedule.Some? && Before(c, s, rs, r).nextSchedule.value <= a
  {
    var p := NextIsAfterLastSuccess(c, s, rs, r);
    NextIsLeastActivation(c.spec.schedule.value, rs[p].sched);
  }

  lemma {:induction false} NotSkipped(c: Config, s: Status, rs: seq<Reading>, i: nat, r: nat, a: Time)
    requires c.jitterWindowInSeconds >= 0
    ensures !Skips(c, s, rs, i, r, a)
  {
    if ValidSpec(c.spec) && Monotone(rs) && FirstAtOrAfter(c, s, rs, i, r, a) {
      DueByThen(c, s, rs, i, r, a);
    }
  }

  function Once(t: Time): Reading { Reading(t, t, t) }

  /** The first status of a cleaner, and a spec that fires at the multiples of g. */
  function Periodic(g: int, jitter: int): Config
    requires g > 0
  {
    Config(Spec(Some(Every(g)), 0, None), jitter)
  }

  const FRESH := Status(None, None)

  /** A new cleaner reconciled at 0 is due at g, and succeeds up to a hundred periods later. */
  lemma {:induction false} FirstPeriod(g: int, jitter: int, t: Time)
    requires g > 0 && 0 <= t <= 100 * g
    ensures ValidSpec(Periodic(g, jitter).spec)
    ensures NextScheduleTime(Periodic(g, jitter).spec, None, 0) == Ok(g)
    ensures NextScheduleTime(Periodic(g, jitter).spec, None, t).Ok?
    ensures NextScheduleTime(Periodic(g, jitter).spec, Some(0), t).Ok?
    ensures t < g ==> NextScheduleTime(Periodic(g, jitter).spec, None, t) == Ok(g)
    ensures IsActivation(Every(g), g)
  {
    hide Every, Between, Spaced;
    EveryIsCron(g);
    FirstMultiple(g);
    ShortSpan(Every(g), 0, t, g);
    BetweenStep(Every(g), 0, t);
    BetweenStep(Every(g), 0, 0);
    NextIsLeastActivation(Every(g), 0);
  }

  /** With a negative window the first reconcile at an activation steps over it. */
  lemma {:induction false} NegativeWindowSkips(jitter: int)
    requires jitter < 0
    ensures Skips(Periodic(SECOND, jitter), FRESH, [Once(0), Once(SECOND)], 0, 1, SECOND)
  {
    var c := Periodic(SECOND, jitter);
    var rs := [Once(0), Once(SECOND)];
    FirstPeriod(SECOND, jitter, SECOND);
    BeforeFirst(c, FRESH, rs);
    BeforeNext(c, FRESH, rs, 0);
    assert Before(c, FRESH, rs, 1) == Status(None, Some(SECOND));
  }

  /**
   Every activation after a first successful reconcile is met: the first successful
   reconcile at or after it queues a job, or the last run is so recent that the
   thirty-second rule ignores it. This holds for every schedule and every run of
   reconciles exactly when the jitter window is not negative.
   */
  lemma {:induction false} NoSilentActivationIff(jitter: int)
    ensures (forall c: Config, s, rs, i, r, a :: c.jitterWindowInSeconds == jitter ==> !Skips(c, s, rs, i, r, a)) <==>
            jitter >= 0
  {
    if jitter >= 0 {
      forall c: Config, s, rs, i, r, a | c.jitterWindowInSeconds == jitter
        ensures !Skips(c, s, rs, i, r, a)
      {
        NotSkipped(c, s, rs, i, r, a);
      }
    } else {
      NegativeWindowSkips(jitter);
    }
  }

  /**
   So each activation has its job: some reconcile q, no later than r, queued one, and
   unless it is r itself its reading is within the thirty-second rule of r. Only a run
   recorded before the first reconcile can stand in for it.
   */
  lemma {:induction false} ActivationHasJob(c: Config, s: Status, rs: seq<Reading>, i: nat, r: nat, a: Time)
    returns (q: int)
    requires ValidSpec(c.spec) && Monotone(rs) && c.jitterWindowInSeconds >= 0
    requires FirstAtOrAfter(c, s, rs, i, r, a)
    ensures -1 <= q <= r
    ensures q >= 0 ==> Queues(c, s, rs, q)
    ensures 0 <= q < r ==> rs[q].sched > rs[r].check + 1_000_000_000 * c.jitterWindowInSeconds - 30_000_000_000
    ensures q == -1 ==> RanRecently(c, s.lastRun, rs[r])
  {
    NotSkipped(c, s, rs, i, r, a);
    if Queues(c, s, rs, r) {
      q := r;
    } else {
      q := LastRunIsLastQueued(c, s, rs, r);
    }
  }

  // ----- One job for each activation -----

  ghost predicate OneReading(rs: seq<Reading>) {
    forall i :: 0 <= i < |rs| ==> rs[i].start == rs[i].sched == rs[i].check
  }

  /** Reconciles i and j queue a job for the same NextScheduleTime, none later than `late` after it. */
  ghost predicate JobTwice(c: Config, s: Status, rs: seq<Reading>, i: nat, j: nat, late: nat) {
    && ValidSpec(c.spec) && Monotone(rs) && OneReading(rs) && i < j < |rs|
    && Queues(c, s, rs, i) && Queues(c, s, rs, j)
    && Before(c, s, rs, i).nextSchedule == Before(c, s, rs, j).nextSchedule
    && rs[j].check <= Before(c, s, rs, j).nextSchedule.value + late
  }

  lemma {:induction false} NotTwice(c: Config, s: Status, rs: seq<Reading>, i: nat, j: nat, late: nat)
    requires 2 * (1_000_000_000 * c.jitterWindowInSeconds) + late < 30_000_000_000
    ensures !JobTwice(c, s, rs, i, j, late)
  {
    if JobTwice(c, s, rs, i, j, late) {
      JobsAreSpaced(c, s, rs, i, j);
    }
  }

  /** Without a window a job is queued at the activation or after it, so NextScheduleTime moves on at once. */
  lemma {:induction false} NoWindowMovesOn(c: Config, s: Status, rs: seq<Reading>, i: nat, j: nat)
    requires Jitter(c) <= 0 && ValidSpec(c.spec) && Monotone(rs) && OneReading(rs) && i < j < |rs|
    requires Queues(c, s, rs, i)
    ensures Before(c, s, rs, i).nextSchedule != Before(c, s, rs, j).nextSchedule
  {
    hide StatusAfter;
    var p := NextIsAfterLastSuccess(c, s, rs, j);
    assert Succeeds(c, s, rs, i);
    assert rs[i].sched <= rs[p].sched;
    NextIsLeastActivation(c.spec.schedule.value, rs[p].sched);
  }

  lemma {:induction false} NoWindow(c: Config, s: Status, rs: seq<Reading>, i: nat, j: nat, late: nat)
    requires c.jitterWindowInSeconds <= 0
    ensures !JobTwice(c, s, rs, i, j, late)
  {
    if ValidSpec(c.spec) && Monotone(rs) && OneReading(rs) && i < j < |rs| && Queues(c, s, rs, i) {
      NoWindowMovesOn(c, s, rs, i, j);
    }
  }

  lemma JitterOf(c: Config)
    ensures Jitter(c) == 1_000_000_000 * c.jitterWindowInSeconds
  {
  }

  /** The window opens at 0, and so does the run; the second job comes as soon as the rule allows. */
  function SecondJob(jitter: int): Time {
    if 1_000_000_000 * jitter < 30_000_000_000 then 30_000_000_000 - 1_000_000_000 * jitter else 0
  }

  /** The second reconcile at 0 queues the job that is due at the first period, one window later. */
  lemma {:induction false} FirstJob(c: Config, g: int, rs: seq<Reading>)
    requires g > 0 && c == Periodic(g, c.jitterWindowInSeconds) && Jitter(c) >= g
    requires |rs| == 3 && rs[0] == Once(0) && rs[1] == Once(0)
    ensures Before(c, FRESH, rs, 1) == Status(None, Some(g)) && Queues(c, FRESH, rs, 1)
    ensures Before(c, FRESH, rs, 2) == Status(Some(0), Some(g))
  {
    hide NextScheduleTime, Every;
    FirstPeriod(g, c.jitterWindowInSeconds, 0);
    BeforeFirst(c, FRESH, rs);
    BeforeNext(c, FRESH, rs, 0);
    BeforeNext(c, FRESH, rs, 1);
  }

  lemma {:induction false} WideWindowRepeats(jitter: int, late: nat)
    requires jitter > 0 && 2 * (1_000_000_000 * jitter) + late >= 30_000_000_000
    ensures 1_000_000_000 * jitter > 0
    ensures var rs := [Once(0), Once(0), Once(SecondJob(jitter))];
            JobTwice(Periodic(1_000_000_000 * jitter, jitter), FRESH, rs, 1, 2, late)
  {
    hide NextScheduleTime, Every, StatusAfter;
    var g := 1_000_000_000 * jitter;
    var c := Periodic(g, jitter);
    var t := SecondJob(jitter);
    var rs := [Once(0), Once(0), Once(t)];
    FirstPeriod(g, jitter, t);
    FirstJob(c, g, rs);
  }

  /**
   A reconcile inside the window and a later one, no later than `late` after the
   activation, never both queue a job for it exactly when there is no window or twice the
   window and the lateness stay under thirty seconds.
   */
  lemma {:induction false} OneJobIff(jitter: int, late: nat)
    ensures (forall c: Config, s, rs, i, j ::
              c.jitterWindowInSeconds == jitter ==> !JobTwice(c, s, rs, i, j, late)) <==>
            jitter <= 0 || 2 * (1_000_000_000 * jitter) + late < 30_000_000_000
  {
    hide JobTwice, Jitter;
    if jitter <= 0 || 2 * (1_000_000_000 * jitter) + late < 30_000_000_000 {
      forall c: Config, s, rs, i, j | c.jitterWindowInSeconds == jitter
        ensures !JobTwice(c, s, rs, i, j, late)
      {
        if jitter <= 0 {
          NoWindow(c, s, rs, i, j, late);
        } else {
          JitterOf(c);
          NotTwice(c, s, rs, i, j, late);
        }
      }
    } else {
      WideWindowRepeats(jitter, late);
    }
  }
}

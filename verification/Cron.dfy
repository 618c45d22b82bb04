/**
 Cron schedules and getNextScheduleTime. Time is counted in nanoseconds, as
 time.Time does. A parsed schedule is its Next function: the least activation
 strictly after a time.
 */
module Cron {
  import opened Prelude

  type Time = int

  const SECOND: int := 1_000_000_000

  /** next(t) is the least activation after t: nothing changes until it is reached. */
  ghost predicate IsCron(next: Time -> Time) {
    && (forall t :: t < next(t))
    && (forall t, u :: t <= u < next(t) ==> next(u) == next(t))
  }

  ghost predicate IsActivation(next: Time -> Time, t: Time) {
    next(t - 1) == t
  }

  /** The activations strictly between a and b. */
  ghost function Between(next: Time -> Time, a: Time, b: Time): set<Time> {
    set t | a < t < b && IsActivation(next, t)
  }

  lemma NextIsLeastActivation(next: Time -> Time, t: Time)
    requires IsCron(next)
    ensures IsActivation(next, next(t))
    ensures forall u :: t < u < next(t) ==> !IsActivation(next, u)
  {
    assert t <= next(t) - 1 < next(t);
    forall u | t < u < next(t)
      ensures !IsActivation(next, u)
    {
      assert t <= u - 1 < next(t);
    }
  }

  /** Stepping to the next activation takes exactly that one out of the interval. */
  lemma BetweenStep(next: Time -> Time, a: Time, b: Time)
    requires IsCron(next)
    ensures next(a) < b ==> Between(next, a, b) == {next(a)} + Between(next, next(a), b)
    ensures next(a) < b ==> |Between(next, a, b)| == 1 + |Between(next, next(a), b)|
    ensures next(a) >= b ==> Between(next, a, b) == {}
  {
    NextIsLeastActivation(next, a);
    if next(a) < b {
      var rest := Between(next, next(a), b);
      assert forall t :: t in Between(next, a, b) <==> t == next(a) || t in rest;
      assert Between(next, a, b) == {next(a)} + rest;
      assert next(a) !in rest;
    } else {
      assert forall t :: t !in Between(next, a, b);
    }
  }

  lemma BetweenGrows(next: Time -> Time, a: Time, b: Time, a': Time, b': Time)
    requires a' <= a && b <= b'
    ensures |Between(next, a, b)| <= |Between(next, a', b')|
  {
    var small, large := Between(next, a, b), Between(next, a', b');
    assert small <= large;
    assert large == small + (large - small);
  }

  /** The part of a Cleaner's spec and metadata that scheduling reads. */
  datatype Spec = Spec(schedule: Option<Time -> Time>, creation: Time, startingDeadlineSeconds: Option<int>)

  datatype ScheduleError = Unparseable | TooManyMissed

  const MAX_MISSED := 100

  /** Where the count of missed activations starts. */
  function EarliestTime(spec: Spec, lastRun: Option<Time>, now: Time): Time {
    var earliest := if lastRun.Some? then lastRun.value else spec.creation;
    match spec.startingDeadlineSeconds
    case None => earliest
    case Some(d) => if now - SECOND * d > earliest then now - SECOND * d else earliest
  }

  /** The documented outcome: too many missed activations, or the next one. */
  ghost function NextScheduleTime(spec: Spec, lastRun: Option<Time>, now: Time): Result<Time, ScheduleError> {
    match spec.schedule
    case None => Err(Unparseable)
    case Some(next) =>
      if |Between(next, EarliestTime(spec, lastRun, now), now)| > MAX_MISSED then Err(TooManyMissed)
      else Ok(next(now))
  }

  /** The activations missed by now: after the last run, or the creation, and within the deadline. */
  ghost function Missed(spec: Spec, lastRun: Option<Time>, now: Time): set<Time>
    requires spec.schedule.Some?
  {
    set t | (if lastRun.Some? then lastRun.value else spec.creation) < t < now
            && IsActivation(spec.schedule.value, t)
            && (spec.startingDeadlineSeconds.Some? ==> now - t < 1_000_000_000 * spec.startingDeadlineSeconds.value)
  }

  /** Moving the start of the count to the deadline leaves out exactly the activations that are too old. */
  lemma CountsTheMissed(spec: Spec, lastRun: Option<Time>, now: Time)
    requires spec.schedule.Some?
    ensures Between(spec.schedule.value, EarliestTime(spec, lastRun, now), now) == Missed(spec, lastRun, now)
  {
  }

  ghost predicate ValidSpec(spec: Spec) {
    spec.schedule.Some? ==> IsCron(spec.schedule.value)
  }

  /**
   The outcome in the numbers of the program, for every schedule, spec, last run and clock:
   a schedule that does not parse, and only that, is reported as such; a hundred and one
   missed activations, and no fewer, are too many; otherwise the answer is the least
   activation after now.
   */
  lemma {:induction false} OutcomeIs(spec: Spec, lastRun: Option<Time>, now: Time)
    requires ValidSpec(spec)
    ensures var r := NextScheduleTime(spec, lastRun, now);
            && (r == Err(Unparseable) <==> spec.schedule == None)
            && (r == Err(TooManyMissed) <==> spec.schedule.Some? && |Missed(spec, lastRun, now)| >= 101)
            && (r.Ok? <==> spec.schedule.Some? && |Missed(spec, lastRun, now)| <= 100)
            && (r.Ok? ==> now < r.value && IsActivation(spec.schedule.value, r.value) &&
                          forall u :: now < u < r.value ==> !IsActivation(spec.schedule.value, u))
  {
    if spec.schedule.Some? {
      CountsTheMissed(spec, lastRun, now);
      NextIsLeastActivation(spec.schedule.value, now);
    }
  }

  /** getNextScheduleTime walks the activations one by one and gives up at the hundred-and-first. */
  method GetNextScheduleTime(spec: Spec, lastRun: Option<Time>, now: Time) returns (r: Result<Time, ScheduleError>)
    requires ValidSpec(spec)
    ensures r == NextScheduleTime(spec, lastRun, now)
    ensures r == Err(Unparseable) <==> spec.schedule == None
    ensures r == Err(TooManyMissed) <==> spec.schedule.Some? && |Missed(spec, lastRun, now)| >= 101
  {
    OutcomeIs(spec, lastRun, now);
    if spec.schedule == None {
      return Err(Unparseable);
    }
    var next := spec.schedule.value;
    var earliest := EarliestTime(spec, lastRun, now);
    var starts := 0;
    ghost var passed := earliest;
    var t := next(earliest);
    while t < now
      invariant 0 <= starts <= MAX_MISSED
      invariant t == next(passed)
      invariant |Between(next, earliest, now)| == starts + |Between(next, passed, now)|
      decreases MAX_MISSED - starts
    {
      BetweenStep(next, passed, now);
      starts := starts + 1;
      if starts > MAX_MISSED {
        return Err(TooManyMissed);
      }
      passed := t;
      t := next(t);
    }
    BetweenStep(next, passed, now);
    return Ok(next(now));
  }

  // ----- When it cannot fail -----

  /** Activations are at least g apart. */
  ghost predicate Spaced(next: Time -> Time, g: int) {
    forall t {:trigger next(next(t))} :: next(t) + g <= next(next(t))
  }

  lemma GapsAdd(n: nat, g: int)
    ensures (n + 1) * g == n * g + g
    ensures g > 0 && n >= 100 ==> n * g >= 100 * g
  {
  }

  /** n activations between a and b span n - 1 gaps. */
  lemma {:induction false} SpacedCount(next: Time -> Time, g: int, a: Time, b: Time)
    requires IsCron(next) && Spaced(next, g) && g > 0
    ensures Between(next, a, b) != {} ==> (|Between(next, a, b)| - 1) * g < b - next(a)
    decreases b - a
  {
    hide Between;
    BetweenStep(next, a, b);
    if next(a) < b {
      var rest := |Between(next, next(a), b)|;
      assert next(a) + g <= next(next(a));
      SpacedCount(next, g, next(a), b);
      BetweenStep(next, next(a), b);
      if rest > 0 {
        GapsAdd(rest - 1, g);
      }
    }
  }

  lemma {:induction false} ShortSpan(next: Time -> Time, a: Time, b: Time, g: int)
    requires IsCron(next) && Spaced(next, g) && g > 0 && b - a <= 100 * g + 1
    ensures |Between(next, a, b)| <= 100
  {
    hide Between, Spaced;
    var missed := |Between(next, a, b)|;
    if missed > 0 {
      SpacedCount(next, g, a, b);
      assert a < next(a);
      GapsAdd(missed - 1, g);
    }
  }

  /** The schedule that fires at the multiples of g. */
  function Every(g: int): Time -> Time
    requires g > 0
  {
    t => (t / g + 1) * g
  }

  lemma {:induction false} EveryIsCron(g: int)
    requires g > 0
    ensures IsCron(Every(g)) && Spaced(Every(g), g)
  {
    forall t, u | t <= u < Every(g)(t)
      ensures t < Every(g)(t) && Every(g)(u) == Every(g)(t)
    {
      Quotient(t, g);
      Quotient(u, g);
      SameQuotient(t / g, u / g, g);
    }
    forall t
      ensures t < Every(g)(t) && Every(g)(t) + g <= Every(g)(Every(g)(t))
    {
      Quotient(t, g);
      Multiple(t / g + 1, g);
    }
  }

  lemma Quotient(t: int, g: int)
    requires g > 0
    ensures (t / g) * g <= t < (t / g) * g + g && (t / g + 1) * g == (t / g) * g + g
  {
  }

  lemma SameQuotient(q: int, r: int, g: int)
    requires g > 0
    ensures r * g < q * g + g ==> r <= q
    ensures q * g < r * g + g ==> q <= r
  {
    Distribute(r, q, g);
    Distribute(q, r, g);
  }

  lemma Distribute(q: int, r: int, g: int)
    requires g > 0
    ensures q * g - r * g == (q - r) * g
    ensures q - r >= 1 ==> (q - r) * g >= g
  {
  }

  lemma Multiple(q: int, g: int)
    requires g > 0
    ensures (q * g) / g == q && Every(g)(q * g) == q * g + g
  {
    Quotient(q * g, g);
    SameQuotient(q, (q * g) / g, g);
  }

  lemma FirstMultiple(g: int)
    requires g > 0
    ensures Every(g)(0) == g
  {
    Multiple(0, g);
  }

  /** Strictly between i·g and one nanosecond after m·g lie exactly m - i multiples of g. */
  lemma {:induction false} EveryCount(g: int, i: int, m: int)
    requires g > 0 && i <= m && IsCron(Every(g))
    ensures |Between(Every(g), i * g, m * g + 1)| == m - i
    decreases m - i
  {
    hide Between, IsCron;
    Multiple(i, g);
    assert i * g + g == (i + 1) * g;
    BetweenStep(Every(g), i * g, m * g + 1);
    Distribute(m, i, g);
    if i < m {
      EveryCount(g, i + 1, m);
    }
  }

  /** A hundred missed activations still pass, the hundred and first does not: the multiples of g, never run since 0. */
  lemma {:induction false} HundredPass(g: int)
    requires g > 0
    ensures var spec := Spec(Some(Every(g)), 0, None);
            && ValidSpec(spec)
            && |Missed(spec, Some(0), 100 * g + 1)| == 100 && NextScheduleTime(spec, Some(0), 100 * g + 1).Ok?
            && |Missed(spec, Some(0), 101 * g + 1)| == 101
            && NextScheduleTime(spec, Some(0), 101 * g + 1) == Err(TooManyMissed)
  {
    hide Every, Between, Spaced, IsCron, NextScheduleTime;
    var spec := Spec(Some(Every(g)), 0, None);
    EveryIsCron(g);
    assert 0 * g == 0;
    EveryCount(g, 0, 100);
    EveryCount(g, 0, 101);
    CountsTheMissed(spec, Some(0), 100 * g + 1);
    CountsTheMissed(spec, Some(0), 101 * g + 1);
    OutcomeIs(spec, Some(0), 100 * g + 1);
    OutcomeIs(spec, Some(0), 101 * g + 1);
  }

  /** A spec of a schedule with gaps of at least g and the given deadline fails at some clock reading. */
  ghost predicate CanFail(deadline: int, g: int, spec: Spec, lastRun: Option<Time>, now: Time) {
    && ValidSpec(spec) && spec.schedule.Some? && Spaced(spec.schedule.value, g)
    && spec.startingDeadlineSeconds == Some(deadline)
    && NextScheduleTime(spec, lastRun, now).Err?
  }

  /** When the deadline is not before the creation, the count starts there. */
  lemma {:induction false} CountsFromDeadline(spec: Spec, deadline: int, span: int, now: Time)
    requires spec.startingDeadlineSeconds == Some(deadline) && span == 1_000_000_000 * deadline
    requires now - span >= spec.creation
    ensures EarliestTime(spec, None, now) == now - span
  {
  }

  lemma {:induction false} FailsWhenMissed(spec: Spec, now: Time)
    requires spec.schedule.Some?
    requires |Between(spec.schedule.value, EarliestTime(spec, None, now), now)| > 100
    ensures NextScheduleTime(spec, None, now).Err?
  {
  }

  /** The multiples 0, g, ..., 100·g are all missed one nanosecond before the deadline has passed. */
  lemma {:induction false} MissesTooMany(g: int, now: Time)
    requires g > 0 && 100 * g < now
    ensures |Between(Every(g), -1, now)| > 100
  {
    hide Between, IsCron, Spaced, Every;
    EveryIsCron(g);
    EveryCount(g, -1, 100);
    assert -1 * g == -g;
    BetweenGrows(Every(g), -g, 100 * g + 1, -g, now);
    FromMinusOne(g, now);
  }

  lemma {:induction false} LongDeadlineFails(deadline: int, g: int) returns (spec: Spec, now: Time)
    requires g > 0 && 1_000_000_000 * deadline > 100 * g + 1
    ensures CanFail(deadline, g, spec, None, now)
  {
    hide Between, IsCron, Spaced, Every, EarliestTime, NextScheduleTime;
    var span := 1_000_000_000 * deadline;
    now := span - 1;
    spec := Spec(Some(Every(g)), -g, Some(deadline));
    EveryIsCron(g);
    MissesTooMany(g, now);
    CountsFromDeadline(spec, deadline, span, now);
    FailsWhenMissed(spec, now);
  }

  lemma {:induction false} FromMinusOne(g: int, b: Time)
    requires g > 0 && b > 0
    ensures |Between(Every(g), -1, b)| == |Between(Every(g), -g, b)|
  {
    hide Between, IsCron, Spaced;
    EveryIsCron(g);
    Multiple(-1, g);
    assert -1 / g == -1;
    BetweenStep(Every(g), -g, b);
    BetweenStep(Every(g), -1, b);
  }

  /**
   Whatever the last run and the clock, "too many missed start times" is impossible for
   every schedule with gaps of at least g exactly when the deadline is at most a
   hundred gaps and one nanosecond.
   */
  lemma {:induction false} DeadlineIsExact(deadline: int, g: int)
    requires g > 0
    ensures (forall spec, lastRun, now :: !CanFail(deadline, g, spec, lastRun, now)) <==>
            1_000_000_000 * deadline <= 100 * g + 1
  {
    hide Between;
    if 1_000_000_000 * deadline <= 100 * g + 1 {
      forall spec, lastRun, now
        ensures !CanFail(deadline, g, spec, lastRun, now)
      {
        if CanFail(deadline, g, spec, lastRun, now) {
          ShortSpan(spec.schedule.value, EarliestTime(spec, lastRun, now), now, g);
        }
      }
    } else {
      var spec, now := LongDeadlineFails(deadline, g);
    }
  }
}

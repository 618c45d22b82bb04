/**
 The whole service for one cleaner: its reconciles interleaved with whatever the rest
 of the system makes the executor do. Composes the scheduling coverage with the
 queue's no-loss and progress results, and the failure message with its answers.
 */
module Service {
  import opened Prelude
  import Cron
  import Executor
  import ExecutorHistory
  import ExecutorProgress
  import ExecutorRemoval
  import Reconciler
  import Scheduler
  import SchedulerCoverage

  /**
   The two steps of a reconcile of this cleaner, fetching the result and scheduling, or any
   other event of the executor. The steps are critical sections of their own: workers may
   act between them.
   */
  datatype Action = Fetch | Reconcile(r: Scheduler.Reading) | Other(e: Executor.Event)

  ghost function Readings(trace: seq<Action>): seq<Scheduler.Reading> {
    if trace == [] then []
    else
      var a := trace[|trace| - 1];
      Readings(trace[..|trace| - 1]) + (if a.Reconcile? then [a.r] else [])
  }

  /** The calls an action makes: a fetch is one, and the schedule step queues a job if it is time. */
  ghost function Calls(c: Scheduler.Config, s: Scheduler.Status, k: Executor.Key, a: Action): seq<Executor.Event> {
    match a
    case Fetch => [Executor.GetResult(k)]
    case Other(e) => [e]
    case Reconcile(r) => if Scheduler.Schedule(c, s, r).queued then [Executor.Process(k)] else []
  }

  ghost function Events(c: Scheduler.Config, s: Scheduler.Status, k: Executor.Key, trace: seq<Action>)
    : seq<Executor.Event>
  {
    if trace == [] then []
    else
      var front := trace[..|trace| - 1];
      Events(c, s, k, front) + Calls(c, Scheduler.StatusAfter(c, s, Readings(front)), k, trace[|trace| - 1])
  }

  /** Event p of the trace is the Process call of reconcile number q. */
  ghost predicate IsCallOf(c: Scheduler.Config, s: Scheduler.Status, k: Executor.Key,
                           trace: seq<Action>, q: nat, p: nat)
  {
    && p < |Events(c, s, k, trace)| && Events(c, s, k, trace)[p] == Executor.Process(k)
    && exists m :: 0 <= m < |trace| && IsReconcileNumber(c, s, k, trace, q, p, m)
  }

  ghost predicate IsReconcileNumber(c: Scheduler.Config, s: Scheduler.Status, k: Executor.Key,
                                    trace: seq<Action>, q: nat, p: nat, m: nat)
    requires m < |trace|
  {
    trace[m].Reconcile? && |Readings(trace[..m])| == q && |Events(c, s, k, trace[..m])| == p
  }

  lemma {:induction false} CallOf(c: Scheduler.Config, s: Scheduler.Status, k: Executor.Key, trace: seq<Action>, q: nat)
    returns (p: nat)
    requires q < |Readings(trace)| && Scheduler.Queues(c, s, Readings(trace), q)
    ensures IsCallOf(c, s, k, trace, q, p)
  {
    hide Scheduler.StatusAfter, Scheduler.Schedule;
    var last := |trace| - 1;
    var front := trace[..last];
    assert Readings(front) == Readings(trace)[..|Readings(front)|];
    if q < |Readings(front)| {
      assert Readings(front)[..q] == Readings(trace)[..q];
      p := CallOf(c, s, k, front, q);
      var m :| 0 <= m < |front| && IsReconcileNumber(c, s, k, front, q, p, m);
      assert front[..m] == trace[..m];
      assert IsReconcileNumber(c, s, k, trace, q, p, m);
    } else {
      assert Readings(trace)[..q] == Readings(front);
      p := |Events(c, s, k, front)|;
      assert IsReconcileNumber(c, s, k, trace, q, p, last);
    }
  }

  /** Without a RemoveEntries(k), no request for k is withdrawn and k is not forgotten. */
  lemma {:induction false} NotRemoved(v: Executor.Variant, n: nat, es: seq<Executor.Event>, i: nat, k: Executor.Key)
    requires Executor.RemoveEntries(k) !in es
    ensures !ExecutorHistory.Withdrawn(es, i, |es|, k) && ExecutorRemoval.NeverForgets(v, n, es, k)
  {
  }

  /**
   From an activation of the schedule to a run of the cleaner. Let reconcile i succeed
   before activation a, and let r be the first reconcile at or after a to succeed. When
   the workers have exhausted the queue after the trace, some reconcile q no later
   than r called Process, unless it is r its reading is within the thirty-second rule
   of r, and a worker started a run of the cleaner after that call. The only other
   possibility is that the status the trace started from already had so recent a run.
   Other cleaners may be removed meanwhile, as long as no removal strands this one.
   */
  lemma {:induction false} ActivationIsServed(
      v: Executor.Variant, n: nat, c: Scheduler.Config, s: Scheduler.Status, k: Executor.Key,
      trace: seq<Action>, i: nat, r: nat, a: Cron.Time, ws: seq<Executor.Event>)
    returns (q: int, p: nat, j: nat)
    requires n >= 1 && Cron.ValidSpec(c.spec) && c.jitterWindowInSeconds >= 0
    requires Scheduler.Monotone(Readings(trace)) && Executor.RemoveEntries(k) !in Events(c, s, k, trace)
    requires ExecutorRemoval.NeverStrands(v, n, Events(c, s, k, trace), k)
    requires SchedulerCoverage.FirstAtOrAfter(c, s, Readings(trace), i, r, a)
    requires var es := Events(c, s, k, trace);
             ExecutorProgress.Exhausts(v, Executor.At(v, n, es, |es|), ws)
    ensures -1 <= q <= r
    ensures q == -1 ==> SchedulerCoverage.RanRecently(c, s.lastRun, Readings(trace)[r])
    ensures q >= 0 ==> var run := Events(c, s, k, trace) + ws;
            && IsCallOf(c, s, k, trace, q, p) && p < j < |run|
            && ExecutorHistory.Starts(v, n, run, j, k)
    ensures 0 <= q < r ==>
              Readings(trace)[q].sched >
              Readings(trace)[r].check + 1_000_000_000 * c.jitterWindowInSeconds - 30_000_000_000
  {
    hide Scheduler.Schedule, Scheduler.StatusAfter, Executor.After, Executor.Apply, Executor.Legal;
    hide ExecutorRemoval.NeverStrands, ExecutorRemoval.NeverForgets, ExecutorHistory.Withdrawn;
    var es := Events(c, s, k, trace);
    q := SchedulerCoverage.ActivationHasJob(c, s, Readings(trace), i, r, a);
    p, j := 0, 0;
    if q >= 0 {
      p := CallOf(c, s, k, trace, q);
      NotRemoved(v, n, es, p, k);
      j := ExecutorRemoval.ServedDespiteRemovals(v, n, es, p, k, ws);
    }
  }

  // ----- What the user is told -----

  /** The state of the executor after the trace. */
  ghost function StateAfter(v: Executor.Variant, n: nat, c: Scheduler.Config, s: Scheduler.Status,
                            k: Executor.Key, trace: seq<Action>): Executor.State
  {
    var es := Events(c, s, k, trace);
    Executor.At(v, n, es, |es|)
  }

  /** The failure message of the cleaner after the trace. */
  ghost function Message(v: Executor.Variant, n: nat, c: Scheduler.Config, s: Scheduler.Status, k: Executor.Key,
                         trace: seq<Action>, before: Option<string>): Option<string>
  {
    if trace == [] then before
    else
      var front := trace[..|trace| - 1];
      var message := Message(v, n, c, s, k, front, before);
      match trace[|trace| - 1]
      case Fetch => Reconciler.Recorded(message, Executor.StatusOf(StateAfter(v, n, c, s, k, front), k))
      case Reconcile(r) =>
        (match Scheduler.Schedule(c, Scheduler.StatusAfter(c, s, Readings(front)), r).reply
         case Err(e) => Some(Reconciler.MessageOf(e))
         case Ok(_) => message)
      case Other(_) => message
  }

  /** The last word on k after the trace is that its run ended with err. */
  ghost predicate EndedWith(v: Executor.Variant, n: nat, c: Scheduler.Config, s: Scheduler.Status,
                            k: Executor.Key, trace: seq<Action>, err: Option<string>)
  {
    var es := Events(c, s, k, trace);
    exists i: nat :: ExecutorHistory.LastWord(v, n, es, i, k) && es[i].err == err
  }

  /** Action m has something to say: a schedule step that fails, or a fetch that finds the key known. */
  ghost predicate Speaks(v: Executor.Variant, n: nat, c: Scheduler.Config, s: Scheduler.Status,
                         k: Executor.Key, trace: seq<Action>, m: nat)
    requires m < |trace|
  {
    var front := trace[..m];
    match trace[m]
    case Fetch =>
      var t := StateAfter(v, n, c, s, k, front);
      (exists err :: EndedWith(v, n, c, s, k, front, err)) || k in t.inProgress || k in t.jobQueue
    case Reconcile(r) => Scheduler.Schedule(c, Scheduler.StatusAfter(c, s, Readings(front)), r).reply.Err?
    case Other(_) => false
  }

  /** ExecutorHistory.AnswerIs, for a fetch after the trace. */
  lemma {:induction false} AnswerAfter(v: Executor.Variant, n: nat, c: Scheduler.Config, s: Scheduler.Status,
                                       k: Executor.Key, trace: seq<Action>)
    ensures var t := StateAfter(v, n, c, s, k, trace);
            var answer := Executor.StatusOf(t, k);
            && (forall e :: answer == Executor.Failed(e) <==> EndedWith(v, n, c, s, k, trace, Some(e)))
            && (answer == Executor.Processed <==> EndedWith(v, n, c, s, k, trace, None))
            && (answer == Executor.Unavailable ==> k !in t.inProgress && k !in t.jobQueue)
            && (answer == Executor.InProgress ==> k in t.inProgress || k in t.jobQueue)
  {
    ExecutorHistory.AnswerIs(v, n, Events(c, s, k, trace), k);
    hide Executor.At, Executor.StatusOf, ExecutorHistory.LastWord, Events;
  }

  /** A fetch keeps the message when the key is unknown; otherwise it leaves the error of the last run, or none. */
  lemma {:induction false} FetchRecords(v: Executor.Variant, n: nat, c: Scheduler.Config, s: Scheduler.Status,
                                        k: Executor.Key, trace: seq<Action>, message: Option<string>)
    ensures var t := StateAfter(v, n, c, s, k, trace);
            var after := Reconciler.Recorded(message, Executor.StatusOf(t, k));
            if (exists err :: EndedWith(v, n, c, s, k, trace, err)) || k in t.inProgress || k in t.jobQueue
            then forall e :: after == Some(e) <==> EndedWith(v, n, c, s, k, trace, Some(e))
            else after == message
  {
    hide EndedWith, StateAfter, Executor.StatusOf;
    AnswerAfter(v, n, c, s, k, trace);
    var answer := Executor.StatusOf(StateAfter(v, n, c, s, k, trace), k);
    if err :| EndedWith(v, n, c, s, k, trace, err) {
      assert err.Some? ==> answer == Executor.Failed(err.value);
    }
  }

  lemma {:induction false} SpeaksBefore(v: Executor.Variant, n: nat, c: Scheduler.Config, s: Scheduler.Status,
                                        k: Executor.Key, trace: seq<Action>, last: nat, m: nat)
    requires m < last <= |trace|
    ensures trace[..last][..m] == trace[..m]
    ensures Speaks(v, n, c, s, k, trace[..last], m) <==> Speaks(v, n, c, s, k, trace, m)
  {
    hide StateAfter, EndedWith, Scheduler.Schedule, Scheduler.StatusAfter, Readings;
    assert trace[..last][..m] == trace[..m];
  }

  lemma {:induction false} FailureIs(c: Scheduler.Config, s: Scheduler.Status, r: Scheduler.Reading)
    ensures Scheduler.Schedule(c, s, r).reply.Err? ==>
              Scheduler.Schedule(c, s, r).reply.error ==
              if c.spec.schedule == None then Cron.Unparseable else Cron.TooManyMissed
  {
  }

  /** What the last action of a trace does to the message. */
  lemma {:induction false} LastActionTells(v: Executor.Variant, n: nat, c: Scheduler.Config, s: Scheduler.Status,
                                           k: Executor.Key, trace: seq<Action>, before: Option<string>)
    requires trace != []
    ensures var last := |trace| - 1;
            var message := Message(v, n, c, s, k, trace, before);
            if !Speaks(v, n, c, s, k, trace, last) then message == Message(v, n, c, s, k, trace[..last], before)
            else
              match trace[last]
              case Fetch => forall e :: message == Some(e) <==> EndedWith(v, n, c, s, k, trace[..last], Some(e))
              case Reconcile(_) => message == Some(Reconciler.MessageOf(
                  if c.spec.schedule == None then Cron.Unparseable else Cron.TooManyMissed))
              case Other(_) => true
    ensures Speaks(v, n, c, s, k, trace, |trace| - 1) ==> !trace[|trace| - 1].Other?
  {
    hide Scheduler.StatusAfter, Scheduler.Schedule, StateAfter, EndedWith, Readings;
    hide Reconciler.Recorded, Reconciler.MessageOf, Executor.StatusOf;
    var last := |trace| - 1;
    var front := trace[..last];
    match trace[last]
    case Fetch => FetchRecords(v, n, c, s, k, front, Message(v, n, c, s, k, front, before));
    case Reconcile(r) => FailureIs(c, Scheduler.StatusAfter(c, s, Readings(front)), r);
    case Other(_) =>
  }

  /**
   The message in place comes from the latest action m that had something to say. If that
   was a schedule step, it is the text of its error; if it was a fetch, it is the error with
   which the last run of the cleaner ended, and no message exactly when it ended without one
   or has not ended.
   */
  lemma {:induction false} MessageIsLatest(
      v: Executor.Variant, n: nat, c: Scheduler.Config, s: Scheduler.Status, k: Executor.Key,
      trace: seq<Action>, before: Option<string>)
    returns (m: int)
    ensures -1 <= m < |trace|
    ensures forall j :: m < j < |trace| ==> !Speaks(v, n, c, s, k, trace, j)
    ensures m == -1 ==> Message(v, n, c, s, k, trace, before) == before
    ensures m >= 0 ==> Speaks(v, n, c, s, k, trace, m)
    ensures var message := Message(v, n, c, s, k, trace, before);
            && (m >= 0 && trace[m].Fetch? ==>
                  forall e :: message == Some(e) <==> EndedWith(v, n, c, s, k, trace[..m], Some(e)))
            && (m >= 0 && trace[m].Reconcile? ==> message == Some(Reconciler.MessageOf(
                  if c.spec.schedule == None then Cron.Unparseable else Cron.TooManyMissed)))
    decreases |trace|
  {
    hide Scheduler.StatusAfter, Scheduler.Schedule, StateAfter, EndedWith, Speaks, Readings;
    hide Reconciler.Recorded, Reconciler.MessageOf, Executor.StatusOf;
    if trace == [] {
      m := -1;
    } else {
      var last := |trace| - 1;
      var front := trace[..last];
      LastActionTells(v, n, c, s, k, trace, before);
      if Speaks(v, n, c, s, k, trace, last) {
        m := last;
      } else {
        m := MessageIsLatest(v, n, c, s, k, front, before);
        forall j | 0 <= j < last
          ensures front[..j] == trace[..j] && (Speaks(v, n, c, s, k, front, j) <==> Speaks(v, n, c, s, k, trace, j))
        {
          SpeaksBefore(v, n, c, s, k, trace, last, j);
        }
      }
    }
  }

  /** A reconcile whose two steps come one after the other leaves the message that reconcileNormal does. */
  lemma {:induction false} MessageOfReconcile(
      v: Executor.Variant, n: nat, c: Scheduler.Config, s: Scheduler.Status, k: Executor.Key,
      trace: seq<Action>, before: Option<string>, r: Scheduler.Reading)
    ensures Message(v, n, c, s, k, trace + [Fetch] + [Reconcile(r)], before) ==
            Reconciler.FailureMessage(Message(v, n, c, s, k, trace, before),
                                      Executor.StatusOf(StateAfter(v, n, c, s, k, trace), k),
                                      Scheduler.Schedule(c, Scheduler.StatusAfter(c, s, Readings(trace)), r).reply)
  {
    hide Scheduler.StatusAfter, Scheduler.Schedule, StateAfter, Reconciler.MessageOf, Executor.StatusOf;
    var fetched := trace + [Fetch];
    assert fetched[..|trace|] == trace;
    assert Readings(fetched) == Readings(trace);
    assert Message(v, n, c, s, k, fetched, before) ==
           Reconciler.Recorded(Message(v, n, c, s, k, trace, before),
                               Executor.StatusOf(StateAfter(v, n, c, s, k, trace), k));
    assert (fetched + [Reconcile(r)])[..|fetched|] == fetched;
  }
}

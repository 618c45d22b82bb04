/**
 The reconciler's part of a Cleaner as the code has it: schedule writes the status
 fields in place and calls the executor; reconcileNormal fetches the last result,
 records it, schedules, and computes the requeue delay.
 */
module Reconciler {
  import opened Prelude
  import Cron
  import Executor
  import ManagerImpl
  import Scheduler

  function MessageOf(e: Cron.ScheduleError): string {
    match e
    case Unparseable => "unparseable schedule"
    case TooManyMissed => "too many missed start times"
  }

  /** The texts the two errors start with. */
  lemma {:induction false} Texts()
    ensures MessageOf(Cron.Unparseable) == "unparseable schedule"
    ensures MessageOf(Cron.TooManyMissed) == "too many missed start times"
    ensures MessageOf(Cron.Unparseable) != MessageOf(Cron.TooManyMissed)
  {
    assert MessageOf(Cron.Unparseable)[0] != MessageOf(Cron.TooManyMissed)[0];
  }

  /** What fetching the result writes: nothing if there is none, the error of a failed run, otherwise no message. */
  function Recorded(before: Option<string>, fetched: Executor.Status): Option<string> {
    match fetched
    case Unavailable => before
    case Failed(e) => Some(e)
    case _ => None
  }

  /** The failure message after a reconcile: a scheduling error wins over the fetched result. */
  function FailureMessage(before: Option<string>, fetched: Executor.Status,
                          reply: Result<Cron.Time, Cron.ScheduleError>): Option<string> {
    match reply
    case Err(e) => Some(MessageOf(e))
    case Ok(_) => Recorded(before, fetched)
  }

  /**
   The message in the terms of a user: without a scheduling error it is the error of the
   fetched run, or the old message if nothing could be fetched, or none; with a scheduling
   error it is the text of that error (Texts).
   */
  ghost predicate MessageTells(after: Option<string>, before: Option<string>, fetched: Executor.Status,
                               reply: Result<Cron.Time, Cron.ScheduleError>)
  {
    && (reply.Ok? ==>
          && (forall e :: after == Some(e) <==>
                fetched == Executor.Failed(e) || (fetched == Executor.Unavailable && before == Some(e)))
          && (fetched == Executor.Processed || fetched == Executor.InProgress ==> after == None))
    && (reply.Err? ==> after == Some(MessageOf(reply.error)))
  }

  lemma {:induction false} MessageIs(before: Option<string>, fetched: Executor.Status,
                                     reply: Result<Cron.Time, Cron.ScheduleError>)
    ensures MessageTells(FailureMessage(before, fetched, reply), before, fetched, reply)
  {
    hide MessageOf;
    var after := FailureMessage(before, fetched, reply);
    if reply.Ok? && after.Some? {
      assert fetched == Executor.Failed(after.value) || (fetched == Executor.Unavailable && before == after);
    }
  }

  class Cleaner {
    const name: Executor.Key
    const config: Scheduler.Config
    var lastRunTime: Option<Cron.Time>
    var nextScheduleTime: Option<Cron.Time>
    var failureMessage: Option<string>

    constructor (name: Executor.Key, config: Scheduler.Config)
      ensures this.name == name && this.config == config
      ensures Status() == Scheduler.Status(None, None) && failureMessage == None
    {
      this.name, this.config := name, config;
      lastRunTime, nextScheduleTime, failureMessage := None, None, None;
    }

    function Status(): Scheduler.Status
      reads this
    {
      Scheduler.Status(lastRunTime, nextScheduleTime)
    }

    /** schedule: on an error nothing is written and nothing is queued. */
    method Schedule(m: ManagerImpl.Manager, r: Scheduler.Reading) returns (reply: Result<Cron.Time, Cron.ScheduleError>)
      requires Cron.ValidSpec(config.spec) && m.Valid() && this !in m.Repr
      modifies this`lastRunTime, this`nextScheduleTime, m.Repr
      ensures m.Valid() && fresh(m.Repr - old(m.Repr))
      ensures var o := Scheduler.Schedule(config, old(Status()), r);
              && reply == o.reply && Status() == o.status
              && m.Abs() == if o.queued then Executor.Apply(Executor.AsWritten, old(m.Abs()), Executor.Process(name))
                            else old(m.Abs())
    {
      var newLastRunTime := lastRunTime;
      reply := Cron.GetNextScheduleTime(config.spec, lastRunTime, r.sched);
      if reply.Err? {
        return;
      }
      hide Cron.NextScheduleTime, Executor.Apply;
      if nextScheduleTime.Some? && Scheduler.ShouldSchedule(config, Status(), r.check) {
        m.Process(name);
        newLastRunTime := Some(r.sched);
      }
      lastRunTime := newLastRunTime;
      nextScheduleTime := Some(reply.value);
    }

    /** reconcileNormal, from the fetch of the result on. The reply is the requeue delay. */
    method ReconcileNormal(m: ManagerImpl.Manager, r: Scheduler.Reading)
      returns (requeueAfter: Result<int, Cron.ScheduleError>)
      requires Cron.ValidSpec(config.spec) && m.Valid() && this !in m.Repr
      modifies this, m.Repr
      ensures m.Valid() && fresh(m.Repr - old(m.Repr))
      ensures var o := Scheduler.Schedule(config, old(Status()), r);
              var fetched := Executor.Apply(Executor.AsWritten, old(m.Abs()), Executor.GetResult(name));
              && Status() == o.status
              && m.Abs() == (if o.queued then Executor.Apply(Executor.AsWritten, fetched, Executor.Process(name))
                             else fetched)
              && failureMessage ==
                 FailureMessage(old(failureMessage), Executor.StatusOf(old(m.Abs()), name), o.reply)
              && MessageTells(failureMessage, old(failureMessage), Executor.StatusOf(old(m.Abs()), name), o.reply)
              && requeueAfter == match o.reply
                                 case Ok(nextRun) => Ok(nextRun - r.start)
                                 case Err(e) => Err(e)
    {
      hide Executor.Apply, Executor.StatusOf, Scheduler.Schedule, MessageOf, MessageTells;
      hide ManagerImpl.Manager.Valid, ManagerImpl.Manager.Abs;
      MessageIs(failureMessage, Executor.StatusOf(m.Abs(), name),
                Scheduler.Schedule(config, Status(), r).reply);
      var status := m.GetResult(name);
      if status != Executor.Unavailable {
        failureMessage := if status.Failed? then Some(status.err) else None;
      }
      var reply := Schedule(m, r);
      match reply {
        case Err(e) =>
          failureMessage := Some(MessageOf(e));
          requeueAfter := Err(e);
        case Ok(nextRun) =>
          requeueAfter := Ok(nextRun - r.start);
      }
    }
  }
}

/**
 What the queue promises about whole runs: no accepted or dropped request is lost,
 the queue is served in order, a result is delivered once, and it is fresh.
 */
module ExecutorHistory {
  import opened Prelude
  import opened Slices
  import opened Executor
  import opened ExecutorInvariants
  import opened ExecutorExclusion

  /** Event i of the run takes k out of the queue, that is, starts a run of k. */
  ghost predicate Starts(v: Variant, n: nat, es: seq<Event>, i: nat, k: Key)
    requires i < |es|
  {
    Takes(At(v, n, es, i), es[i], k)
  }

  // ----- No request is lost -----

  /** A request for k is waiting: it will be taken. */
  predicate Waiting(s: State, k: Key) {
    k in s.dirty || k in s.jobQueue
  }

  lemma {:induction false} ProcessMakesWaiting(v: Variant, s: State, k: Key)
    ensures Waiting(Apply(v, s, Process(k)), k)
  {
  }

  /** Only a take of k, or its removal, can end its waiting. */
  lemma {:induction false} WaitingStep(v: Variant, s: State, e: Event, k: Key)
    requires Waiting(s, k)
    ensures Waiting(Apply(v, s, e), k) || Takes(s, e, k) || e == RemoveEntries(k)
  {
    hide RemoveFirst, OverwriteFirst, IndexOf;
    if !Enabled(s, e) {
      DisabledStutters(v, s, e);
    } else if !Concerns(s, e, k) && e != RemoveEntries(k) {
      Unconcerned(v, s, e, k);
    }
  }

  /** The call Process(k) at event i is withdrawn by a later RemoveEntries(k), before event `until`. */
  predicate Withdrawn(es: seq<Event>, i: nat, until: nat, k: Key)
    requires until <= |es|
  {
    exists j :: i < j < until && es[j] == RemoveEntries(k)
  }

  /**
   After any call Process(k), whether it was accepted or dropped because k was
   already dirty, k stays dirty or queued until a worker starts a run of k, in every
   run, unless RemoveEntries(k) withdraws it.
   */
  lemma {:induction false} NoRequestLost(v: Variant, n: nat, es: seq<Event>, i: nat, k: Key)
    requires i < |es| && es[i] == Process(k)
    ensures || Waiting(At(v, n, es, |es|), k)
            || (exists j :: i < j < |es| && Starts(v, n, es, j, k))
            || Withdrawn(es, i, |es|, k)
    decreases |es|
  {
    hide Apply, After, Waiting;
    var last := |es| - 1;
    AtNext(v, n, es, last);
    if i == last {
      ProcessMakesWaiting(v, At(v, n, es, last), k);
    } else {
      var front := es[..last];
      NoRequestLost(v, n, front, i, k);
      AtPrefix(v, n, es, last, last);
      if j :| i < j < |front| && Starts(v, n, front, j, k) {
        AtPrefix(v, n, es, last, j);
        assert Starts(v, n, es, j, k);
      } else if Withdrawn(front, i, last, k) {
        var j :| i < j < last && front[j] == RemoveEntries(k);
        assert es[j] == RemoveEntries(k);
      } else {
        WaitingStep(v, At(v, n, es, last), es[last], k);
        assert Waiting(At(v, n, es, |es|), k) || Starts(v, n, es, last, k) || es[last] == RemoveEntries(k);
      }
    }
  }

  // ----- First in, first out -----

  /** The keys pushed to the back of the queue, in order. */
  ghost function Pushed(v: Variant, s: State, es: seq<Event>): seq<Key> {
    if es == [] then []
    else
      var front := es[..|es| - 1];
      Pushed(v, s, front) + PushedBy(v, After(v, s, front), es[|es| - 1])
  }

  ghost function PushedBy(v: Variant, s: State, e: Event): seq<Key> {
    match e
    case Process(k) => if k !in s.dirty && k !in s.inProgress then [k] else []
    case Store(w, _) => if Enabled(s, e) && s.workers[w].key in s.dirty then [s.workers[w].key] else []
    case _ => []
  }

  /** The keys taken from the front of the queue, in order. */
  ghost function Taken(v: Variant, s: State, es: seq<Event>): seq<Key> {
    if es == [] then []
    else
      var front := es[..|es| - 1];
      var t := After(v, s, front);
      var e := es[|es| - 1];
      Taken(v, s, front) + (if e.Take? && Enabled(t, e) then [t.jobQueue[0]] else [])
  }

  lemma {:induction false} QueueStep(v: Variant, s: State, e: Event)
    requires !e.RemoveEntries?
    ensures Apply(v, s, e).jobQueue ==
            (if e.Take? && Enabled(s, e) then s.jobQueue[1..] else s.jobQueue) + PushedBy(v, s, e)
  {
    hide RemoveFirst;
  }

  /** The queue is what it held at first plus everything pushed, minus everything taken. */
  lemma {:induction false} QueueIsHistory(v: Variant, s: State, es: seq<Event>)
    requires NoRemove(es)
    ensures s.jobQueue + Pushed(v, s, es) == Taken(v, s, es) + After(v, s, es).jobQueue
  {
    hide Apply;
    if es != [] {
      var front := es[..|es| - 1];
      var e := es[|es| - 1];
      var t := After(v, s, front);
      QueueIsHistory(v, s, front);
      QueueStep(v, t, e);
      assert s.jobQueue + Pushed(v, s, es) == (s.jobQueue + Pushed(v, s, front)) + PushedBy(v, t, e);
      if e.Take? && Enabled(t, e) {
        assert t.jobQueue == [t.jobQueue[0]] + t.jobQueue[1..];
        assert Taken(v, s, es) + t.jobQueue[1..] == Taken(v, s, front) + t.jobQueue;
      }
    }
  }

  /** Only a take moves the key at position p, and only its own removal can overwrite it. */
  lemma {:induction false} PlaceStep(v: Variant, s: State, e: Event, p: nat)
    requires p < |s.jobQueue| && e != RemoveEntries(s.jobQueue[p])
    ensures var q := Apply(v, s, e).jobQueue;
            if e.Take? && Enabled(s, e) then p > 0 ==> p - 1 < |q| && q[p - 1] == s.jobQueue[p]
            else p < |q| && q[p] == s.jobQueue[p]
  {
    hide RemoveFirst;
  }

  /**
   The key at position p of the queue is exactly the one taken after p other takes,
   whatever else happens in between, other keys' removals included.
   */
  lemma {:induction false} ServedInOrder(v: Variant, s: State, es: seq<Event>, p: nat)
    requires p < |s.jobQueue| && RemoveEntries(s.jobQueue[p]) !in es
    ensures if p < |Taken(v, s, es)| then Taken(v, s, es)[p] == s.jobQueue[p]
            else var q := After(v, s, es).jobQueue;
                 var left := p - |Taken(v, s, es)|;
                 left < |q| && q[left] == s.jobQueue[p]
  {
    hide Apply;
    if es != [] {
      var front := es[..|es| - 1];
      ServedInOrder(v, s, front, p);
      if p >= |Taken(v, s, front)| {
        assert es[|es| - 1] in es;
        PlaceStep(v, After(v, s, front), es[|es| - 1], p - |Taken(v, s, front)|);
      }
    }
  }

  // ----- Results -----

  /** Event i is the storeResult that wrote the result of k that is in place after es. */
  ghost predicate Wrote(v: Variant, n: nat, es: seq<Event>, i: nat, k: Key) {
    && i < |es| && es[i].Store? && Runs(At(v, n, es, i), es[i].worker, k)
    && k !in At(v, n, es, i).dirty
    && k in At(v, n, es, |es|).results && es[i].err == At(v, n, es, |es|).results[k]
  }

  /** After event i nobody asked for k again, fetched its result, removed it or stored another. */
  ghost predicate Untouched(v: Variant, n: nat, es: seq<Event>, i: nat, k: Key) {
    forall j :: i < j < |es| ==>
      && es[j] != Process(k) && es[j] != GetResult(k) && es[j] != RemoveEntries(k)
      && !(es[j].Store? && Runs(At(v, n, es, j), es[j].worker, k))
  }

  /** k is never dirty while it has a result: true of every run, whatever is removed. */
  predicate NotBoth(s: State, k: Key) {
    k in s.results ==> k !in s.dirty
  }

  lemma {:induction false} NotBothStep(v: Variant, s: State, e: Event, k: Key)
    requires NotBoth(s, k)
    ensures NotBoth(Apply(v, s, e), k)
  {
    hide RemoveFirst, OverwriteFirst, IndexOf;
    if !Enabled(s, e) {
      DisabledStutters(v, s, e);
    } else if !Concerns(s, e, k) && e != RemoveEntries(k) {
      Unconcerned(v, s, e, k);
    } else if e.Take? {
      MembersAreCounted(s, k);
      MembersAreCounted(Apply(v, s, e), k);
      StepDirty(v, s, e, k);
    }
  }

  lemma {:induction false} NeverBoth(v: Variant, n: nat, es: seq<Event>, k: Key)
    ensures NotBoth(After(v, Init(n), es), k)
  {
    hide Apply, NotBoth;
    if es == [] {
      assert NotBoth(Init(n), k) by { NoResults(n, k); }
    } else {
      NeverBoth(v, n, es[..|es| - 1], k);
      NotBothStep(v, After(v, Init(n), es[..|es| - 1]), es[|es| - 1], k);
    }
  }

  lemma {:induction false} NoResults(n: nat, k: Key)
    ensures NotBoth(Init(n), k) && k !in Init(n).results
  {
  }

  /** No event other than a store of k makes a result of k appear or change. */
  lemma {:induction false} ResultStep(v: Variant, s: State, e: Event, k: Key)
    requires NotBoth(s, k) && k in Apply(v, s, e).results
    ensures if e.Store? && Runs(s, e.worker, k)
            then Apply(v, s, e).results[k] == e.err && k !in s.dirty
            else && e != Process(k) && e != GetResult(k) && e != RemoveEntries(k)
                 && k in s.results && Apply(v, s, e).results[k] == s.results[k]
  {
    hide RemoveFirst, OverwriteFirst, TakeStep;
    if !Enabled(s, e) {
      DisabledStutters(v, s, e);
    } else if !Concerns(s, e, k) && e != RemoveEntries(k) {
      Unconcerned(v, s, e, k);
    } else if e.Take? {
      TakeKeepsResults(s, e.worker);
    }
  }

  lemma {:induction false} TakeKeepsResults(s: State, w: nat)
    requires Enabled(s, Take(w))
    ensures TakeStep(s, w).results == s.results
  {
  }

  /**
   A result that is in place was written by a storeResult of a worker that held k, with
   that worker's error, and since then there was no call Process(k), GetResult(k) or
   RemoveEntries(k) and no other storeResult of k. This holds in every run.
   */
  lemma {:induction false} ResultHasWriter(v: Variant, n: nat, es: seq<Event>, k: Key) returns (i: nat)
    requires k in At(v, n, es, |es|).results
    ensures Wrote(v, n, es, i, k) && Untouched(v, n, es, i, k)
  {
    hide Apply, After, NotBoth;
    if es == [] {
      AtStart(v, n, es);
      NoResults(n, k);
      assert false;
    } else {
      var last := |es| - 1;
      var front := es[..last];
      var s := At(v, n, es, last);
      AtNext(v, n, es, last);
      NeverBoth(v, n, es[..last], k);
      ResultStep(v, s, es[last], k);
      if es[last].Store? && Runs(s, es[last].worker, k) {
        i := last;
      } else {
        AtPrefix(v, n, es, last, last);
        i := ResultHasWriter(v, n, front, k);
        forall j | 0 <= j < last
          ensures At(v, n, front, j) == At(v, n, es, j)
        {
          AtPrefix(v, n, es, last, j);
        }
      }
    }
  }

  /** Of two calls that both find a result of k, the later one finds one stored in between. */
  lemma {:induction false} DeliveredOnce(v: Variant, n: nat, es: seq<Event>, i: nat, j: nat, k: Key) returns (t: nat)
    requires i < j < |es| && es[i] == GetResult(k) && es[j] == GetResult(k)
    requires k in At(v, n, es, i).results && k in At(v, n, es, j).results
    ensures i < t < j && es[t].Store? && Runs(At(v, n, es, t), es[t].worker, k)
  {
    AtPrefix(v, n, es, j, j);
    t := ResultHasWriter(v, n, es[..j], k);
    AtPrefix(v, n, es, j, t);
  }

  // ----- Answers -----

  /** Event i is a storeResult of k that wrote a result, and nothing since has cleared or replaced it. */
  ghost predicate LastWord(v: Variant, n: nat, es: seq<Event>, i: nat, k: Key) {
    && i < |es| && es[i].Store? && Runs(At(v, n, es, i), es[i].worker, k) && k !in At(v, n, es, i).dirty
    && Untouched(v, n, es, i, k)
  }

  lemma {:induction false} ResultStays(v: Variant, s: State, e: Event, k: Key)
    requires k in s.results && e != Process(k) && e != GetResult(k) && e != RemoveEntries(k)
    requires !(e.Store? && Runs(s, e.worker, k))
    ensures k in Apply(v, s, e).results && Apply(v, s, e).results[k] == s.results[k]
  {
    hide TakeStep, StoreStep;
    if !Enabled(s, e) {
      DisabledStutters(v, s, e);
    } else if e.Take? {
      TakeKeepsResults(s, e.worker);
    } else {
      Unconcerned(v, s, e, k);
    }
  }

  lemma {:induction false} StoreWrites(v: Variant, s: State, e: Event, k: Key)
    requires e.Store? && Runs(s, e.worker, k) && k !in s.dirty
    ensures k in Apply(v, s, e).results && Apply(v, s, e).results[k] == e.err
  {
    hide RemoveFirst;
  }

  /** The result in place is the one the last word wrote. */
  lemma {:induction false} LastWordIsResult(v: Variant, n: nat, es: seq<Event>, i: nat, k: Key)
    requires LastWord(v, n, es, i, k)
    ensures k in At(v, n, es, |es|).results && At(v, n, es, |es|).results[k] == es[i].err
    decreases |es|
  {
    hide Apply, After;
    var last := |es| - 1;
    AtNext(v, n, es, last);
    if i == last {
      StoreWrites(v, At(v, n, es, last), es[last], k);
    } else {
      var front := es[..last];
      forall j | 0 <= j <= last
        ensures At(v, n, front, j) == At(v, n, es, j)
      {
        AtPrefix(v, n, es, last, j);
      }
      LastWordIsResult(v, n, front, i, k);
      ResultStays(v, At(v, n, es, last), es[last], k);
    }
  }

  /**
   What GetResult answers after any run, in terms of its events: Failed with the error,
   or Processed, exactly when the last word on k is a storeResult with that error, or with
   none; without a last word InProgress exactly when k is listed in progress or queued, and
   Unavailable otherwise.
   */
  lemma {:induction false} AnswerIs(v: Variant, n: nat, es: seq<Event>, k: Key)
    ensures var s := At(v, n, es, |es|);
            var answer := StatusOf(s, k);
            && (forall e :: answer == Failed(e) <==> exists i: nat :: LastWord(v, n, es, i, k) && es[i].err == Some(e))
            && (answer == Processed <==> exists i: nat :: LastWord(v, n, es, i, k) && es[i].err == None)
            && (answer == InProgress <==>
                (forall i: nat :: !LastWord(v, n, es, i, k)) && (k in s.inProgress || k in s.jobQueue))
            && (answer == Unavailable <==>
                (forall i: nat :: !LastWord(v, n, es, i, k)) && k !in s.inProgress && k !in s.jobQueue)
  {
    hide After;
    var s := At(v, n, es, |es|);
    forall i: nat | LastWord(v, n, es, i, k)
      ensures k in s.results && s.results[k] == es[i].err
    {
      LastWordIsResult(v, n, es, i, k);
    }
    if k in s.results {
      var i := ResultHasWriter(v, n, es, k);
      assert LastWord(v, n, es, i, k);
    }
  }

  // ----- Freshness -----

  /** Nothing of k is outstanding while a result of k is in place. */
  ghost predicate Settled(s: State, k: Key) {
    k in s.results ==> Outstanding(s, k) == 0 && k !in s.dirty
  }

  lemma {:induction false} SettledStep(v: Variant, s: State, e: Event, k: Key)
    requires Outstanding(s, k) <= 1 && Settled(s, k)
    ensures Settled(Apply(v, s, e), k)
  {
    hide RemoveFirst, OverwriteFirst, Outstanding;
    OutstandingMembers(s, k);
    if !Enabled(s, e) {
      DisabledStutters(v, s, e);
    } else {
      StepOutstanding(v, s, e, k);
      if !Concerns(s, e, k) && e != RemoveEntries(k) {
        Unconcerned(v, s, e, k);
        assert s.jobQueue != [] ==> Last(s.jobQueue) in s.jobQueue;
      }
    }
  }

  lemma {:induction false} OneCopyIsSettled(v: Variant, n: nat, es: seq<Event>, k: Key)
    requires OneCopy(v, n, es, k)
    ensures Settled(At(v, n, es, |es|), k)
  {
    hide Apply, After, Outstanding;
    if es == [] {
      AtStart(v, n, es);
      NoResults(n, k);
    } else {
      var last := |es| - 1;
      OneCopyPrefix(v, n, es, last, k);
      AtPrefix(v, n, es, last, last);
      OneCopyIsSettled(v, n, es[..last], k);
      AtNext(v, n, es, last);
      SettledStep(v, At(v, n, es, last), es[last], k);
    }
  }

  /** A legal schedule of takes and stores after which k has a result and yet a copy outstanding. */
  ghost predicate LeadsToStale(v: Variant, s: State, k: Key, ws: seq<Event>) {
    WorkersOnly(ws) && Legal(v, s, ws) && !Settled(After(v, s, ws), k)
  }

  /** A store of k, which is not dirty, leaves its result in place and the other copy outstanding. */
  lemma {:induction false} StoreIsStale(v: Variant, s: State, w: nat, k: Key)
    requires Runs(s, w, k) && k !in s.dirty && Outstanding(s, k) >= 2
    ensures LeadsToStale(v, s, k, [Store(w, None)])
  {
    hide RemoveFirst, Outstanding;
    OneEvent(v, s, Store(w, None));
    StepOutstanding(v, s, Store(w, None), k);
  }

  lemma {:induction false} StaleLater(v: Variant, s: State, k: Key, first: seq<Event>, rest: seq<Event>)
    requires WorkersOnly(first) && Legal(v, s, first) && LeadsToStale(v, After(v, s, first), k, rest)
    ensures LeadsToStale(v, s, k, first + rest)
  {
    hide Settled, Apply;
    AfterConcat(v, s, first, rest);
  }

  /** While k is dirty its holder puts it back in the queue and takes it again, which cleans it once more. */
  lemma {:induction false} HolderGoesStale(v: Variant, s: State, w: nat, k: Key) returns (ws: seq<Event>)
    requires Runs(s, w, k) && Outstanding(s, k) >= 2
    ensures LeadsToStale(v, s, k, ws)
    decreases Dirty(s, k)
  {
    hide After, Legal, LeadsToStale, Apply, Outstanding;
    MembersAreCounted(s, k);
    if k !in s.dirty {
      StoreIsStale(v, s, w, k);
      ws := [Store(w, None)];
    } else {
      var t := Apply(v, s, Store(w, None));
      Requeued(v, s, w, k);
      OneEvent(v, s, Store(w, None));
      var take := Acquire(v, t, w, k);
      var rest := HolderGoesStale(v, After(v, t, take), w, k);
      StaleLater(v, t, k, take, rest);
      StaleLater(v, s, k, [Store(w, None)], take + rest);
      ws := [Store(w, None)] + (take + rest);
    }
  }

  lemma {:induction false} Requeued(v: Variant, s: State, w: nat, k: Key)
    requires Runs(s, w, k) && k in s.dirty
    ensures var t := Apply(v, s, Store(w, None));
            && |t.workers| == |s.workers| && t.workers[w] == Idle && k in t.jobQueue
            && Outstanding(t, k) == Outstanding(s, k) && Dirty(t, k) <= Dirty(s, k)
  {
    hide RemoveFirst, Outstanding;
    StepOutstanding(v, s, Store(w, None), k);
    StepDirty(v, s, Store(w, None), k);
  }

  lemma {:induction false} TwoCopiesGoStale(v: Variant, s: State, k: Key) returns (ws: seq<Event>)
    requires |s.workers| >= 1 && Outstanding(s, k) >= 2
    ensures LeadsToStale(v, s, k, ws)
  {
    hide After, Legal, Apply, LeadsToStale, Outstanding;
    OutstandingMembers(s, k);
    if w :| 0 <= w < |s.workers| && s.workers[w] == Running(k) {
      ws := HolderGoesStale(v, s, w, k);
    } else {
      var take := Acquire(v, s, 0, k);
      var rest := HolderGoesStale(v, After(v, s, take), 0, k);
      StaleLater(v, s, k, take, rest);
      ws := take + rest;
    }
  }

  /** No schedule of the workers, at any point of the run, leaves an unsettled result of k. */
  ghost predicate NeverStale(v: Variant, n: nat, es: seq<Event>, k: Key) {
    forall i, ws :: 0 <= i <= |es| ==> !LeadsToStale(v, At(v, n, es, i), k, ws)
  }

  /** Takes and stores after a guarded run keep it guarded. */
  lemma {:induction false} GuardedContinues(v: Variant, n: nat, es: seq<Event>, i: nat, ws: seq<Event>, k: Key)
    requires Guarded(v, n, es, k) && i <= |es| && WorkersOnly(ws)
    ensures Guarded(v, n, es[..i] + ws, k)
  {
    hide After;
    var run := es[..i] + ws;
    forall j | 0 <= j < |run|
      ensures !Duplicates(At(v, n, run, j), run[j], k)
    {
      if j < i {
        assert run[..j] == es[..j];
        assert !Duplicates(At(v, n, es, j), es[j], k);
      } else {
        assert run[j] in ws;
      }
    }
  }

  /**
   Exactly when results are fresh, as written and in the other variant, over all runs,
   RemoveEntries included: no schedule of the workers ever leaves a result of k in place
   while a copy of k is outstanding if and only if no event of the run duplicates k. It is
   the condition of ExclusiveIffGuarded.
   */
  lemma {:induction false} FreshIffGuarded(v: Variant, n: nat, es: seq<Event>, k: Key)
    requires n >= 1
    ensures NeverStale(v, n, es, k) <==> Guarded(v, n, es, k)
  {
    hide After, Apply, Legal, Settled, Outstanding, Duplicates;
    OneCopyIffGuarded(v, n, es, k);
    if !Guarded(v, n, es, k) {
      var i :| 0 <= i <= |es| && Outstanding(At(v, n, es, i), k) > 1;
      KeepsPool(v, Init(n), es[..i]);
      var ws := TwoCopiesGoStale(v, At(v, n, es, i), k);
    } else {
      forall i, ws | 0 <= i <= |es|
        ensures !LeadsToStale(v, At(v, n, es, i), k, ws)
      {
        if WorkersOnly(ws) {
          GuardedStaysSettled(v, n, es, i, ws, k);
        }
      }
    }
  }

  lemma {:induction false} GuardedStaysSettled(v: Variant, n: nat, es: seq<Event>, i: nat, ws: seq<Event>, k: Key)
    requires Guarded(v, n, es, k) && i <= |es| && WorkersOnly(ws)
    ensures Settled(After(v, At(v, n, es, i), ws), k)
  {
    hide Apply, Settled, Outstanding, Duplicates;
    var run := es[..i] + ws;
    GuardedContinues(v, n, es, i, ws, k);
    OneCopyIffGuarded(v, n, run, k);
    OneCopyIsSettled(v, n, run, k);
    AfterConcat(v, Init(n), es[..i], ws);
    assert run[..|run|] == run;
  }

  /** Worker w took k at event t and has held it ever since. */
  ghost predicate HoldsSince(v: Variant, n: nat, es: seq<Event>, t: nat, w: nat, k: Key, until: nat)
    requires until <= |es|
  {
    && t < until && es[t] == Take(w) && Starts(v, n, es, t, k)
    && forall j :: t < j <= until ==> Runs(At(v, n, es, j), w, k)
  }

  /** Only its own take gives a worker a key. */
  lemma {:induction false} HolderTook(v: Variant, s: State, e: Event, w: nat, k: Key)
    requires Runs(Apply(v, s, e), w, k)
    ensures Runs(s, w, k) || (e == Take(w) && Takes(s, e, k))
  {
    hide RemoveFirst, OverwriteFirst;
  }

  /** While w holds the only copy of k, a request makes k dirty and only a removal of k cleans it. */
  lemma {:induction false} HolderStep(v: Variant, s: State, e: Event, w: nat, k: Key)
    requires Outstanding(s, k) <= 1 && Runs(s, w, k)
    requires Runs(Apply(v, s, e), w, k) && k !in Apply(v, s, e).dirty
    ensures (k !in s.dirty && e != Process(k)) || e == RemoveEntries(k)
  {
    hide RemoveFirst, OverwriteFirst, Outstanding;
    if !Enabled(s, e) {
      DisabledStutters(v, s, e);
    } else if e.Take? || e.Store? {
      OnlyHolder(s, w, k);
      if !Concerns(s, e, k) {
        Unconcerned(v, s, e, k);
      }
    } else if !Concerns(s, e, k) && e != RemoveEntries(k) {
      Unconcerned(v, s, e, k);
    }
  }

  /** Nobody else holds the only copy of k, and it is not queued. */
  lemma {:induction false} OnlyHolder(s: State, w: nat, k: Key)
    requires Outstanding(s, k) <= 1 && Runs(s, w, k)
    ensures k !in s.jobQueue
    ensures forall x :: 0 <= x < |s.workers| && s.workers[x] == Running(k) ==> x == w
  {
    hide Held;
    MembersAreCounted(s, k);
    OutstandingMembers(s, k);
    assert !InParallel(s, k);
  }

  /** A prefix of the run tells the same story of a worker. */
  lemma {:induction false} HoldsSincePrefix(v: Variant, n: nat, es: seq<Event>, m: nat, t: nat, w: nat, k: Key)
    requires m <= |es| && HoldsSince(v, n, es[..m], t, w, k, m)
    ensures HoldsSince(v, n, es, t, w, k, m)
  {
    hide After, Runs, Enabled;
    AtPrefix(v, n, es, m, t);
    forall j | t < j <= m
      ensures Runs(At(v, n, es, j), w, k)
    {
      AtPrefix(v, n, es, m, j);
      assert Runs(At(v, n, es[..m], j), w, k);
    }
  }

  lemma {:induction false} OneCopyPrefix(v: Variant, n: nat, es: seq<Event>, m: nat, k: Key)
    requires m <= |es| && OneCopy(v, n, es, k)
    ensures OneCopy(v, n, es[..m], k)
  {
    hide After, Outstanding;
    forall j | 0 <= j <= m
      ensures Outstanding(At(v, n, es[..m], j), k) <= 1
    {
      AtPrefix(v, n, es, m, j);
    }
  }

  /** Every request for k after event t has been withdrawn before event `until`. */
  predicate OthersWithdrawn(es: seq<Event>, t: nat, until: nat, k: Key)
    requires until <= |es|
  {
    forall j :: t < j < until && es[j] == Process(k) ==> Withdrawn(es, j, until, k)
  }

  lemma {:induction false} WithdrawnPrefix(es: seq<Event>, t: nat, m: nat, k: Key)
    requires m <= |es|
    ensures OthersWithdrawn(es[..m], t, m, k) ==> OthersWithdrawn(es, t, m, k)
  {
  }

  /** One more event: it withdraws the requests, or it is none and they were withdrawn before. */
  lemma {:induction false} WithdrawnNext(es: seq<Event>, t: nat, k: Key)
    requires es != [] && es[|es| - 1] != Process(k)
    requires es[|es| - 1] == RemoveEntries(k) || OthersWithdrawn(es, t, |es| - 1, k)
    ensures OthersWithdrawn(es, t, |es|, k)
  {
  }

  /** A worker that holds k took it, and unless k is dirty every request for k since has been withdrawn. */
  lemma {:induction false} HolderStarted(v: Variant, n: nat, es: seq<Event>, w: nat, k: Key) returns (t: nat)
    requires OneCopy(v, n, es, k) && Runs(At(v, n, es, |es|), w, k)
    ensures HoldsSince(v, n, es, t, w, k, |es|)
    ensures k !in At(v, n, es, |es|).dirty ==> OthersWithdrawn(es, t, |es|, k)
  {
    hide Apply, After, Outstanding, Runs, OthersWithdrawn;
    if es == [] {
      AtStart(v, n, es);
      NobodyRuns(n, w, k);
      assert false;
    } else {
      var last := |es| - 1;
      var front := es[..last];
      var s := At(v, n, es, last);
      AtPrefix(v, n, es, last, last);
      AtNext(v, n, es, last);
      HolderTook(v, s, es[last], w, k);
      if Runs(s, w, k) {
        OneCopyPrefix(v, n, es, last, k);
        t := HolderStarted(v, n, front, w, k);
        HoldsSincePrefix(v, n, es, last, t, w, k);
        if k !in At(v, n, es, |es|).dirty {
          HolderStep(v, s, es[last], w, k);
          WithdrawnPrefix(es, t, last, k);
          WithdrawnNext(es, t, k);
        }
      } else {
        t := last;
        NoneAfterLast(es, k);
      }
    }
  }

  lemma {:induction false} NobodyRuns(n: nat, w: nat, k: Key)
    ensures !Runs(Init(n), w, k)
  {
  }

  lemma {:induction false} NoneAfterLast(es: seq<Event>, k: Key)
    requires es != []
    ensures OthersWithdrawn(es, |es| - 1, |es|, k)
  {
  }

  /**
   When no event duplicates k (OneCopyIffGuarded says when), a result in place comes from
   a run that started after the latest call Process(k) that was not withdrawn: event t
   took k, the same worker held it until its storeResult at event i, each Process(k) in
   between was followed by a RemoveEntries(k), and none follows i.
   */
  lemma {:induction false} ResultIsFresh(v: Variant, n: nat, es: seq<Event>, k: Key) returns (t: nat, i: nat)
    requires Guarded(v, n, es, k) && k in At(v, n, es, |es|).results
    ensures t < i && Wrote(v, n, es, i, k) && HoldsSince(v, n, es, t, es[i].worker, k, i)
    ensures OthersWithdrawn(es, t, i, k) && forall j :: i < j < |es| ==> es[j] != Process(k)
    ensures Settled(At(v, n, es, |es|), k)
  {
    hide Apply, After, Settled, Outstanding, Duplicates, OthersWithdrawn;
    OneCopyIffGuarded(v, n, es, k);
    OneCopyIsSettled(v, n, es, k);
    i := ResultHasWriter(v, n, es, k);
    OneCopyPrefix(v, n, es, i, k);
    AtPrefix(v, n, es, i, i);
    t := HolderStarted(v, n, es[..i], es[i].worker, k);
    HoldsSincePrefix(v, n, es, i, t, es[i].worker, k);
    WithdrawnPrefix(es, t, i, k);
  }
}

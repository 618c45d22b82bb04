/**
 The variant KeepDirty, in which storeResult leaves a re-queued key in dirty: what it
 repairs in runs without RemoveEntries, and exactly which calls of RemoveEntries still
 break the exclusion of a key.
 */
module ExecutorRepair {
  import opened Prelude
  import opened Slices
  import opened Executor
  import opened ExecutorInvariants
  import opened ExecutorExclusion

  // ----- Without RemoveEntries -----

  /** k is queued, once, exactly when it is dirty and not in progress. */
  ghost predicate Settles(s: State, k: Key) {
    && Queued(s, k) == (if k in s.dirty && k !in s.inProgress then 1 else 0)
    && Copies(s, k) <= 1
  }

  lemma {:induction false} KeepDirtyStep(s: State, e: Event, k: Key)
    requires Inv(s) && !e.RemoveEntries? && Settles(s, k)
    ensures Settles(Apply(KeepDirty, s, e), k)
  {
    hide Apply;
    MembersAreCounted(s, k);
    MembersAreCounted(Apply(KeepDirty, s, e), k);
    if Enabled(s, e) {
      StepCounts(KeepDirty, s, e, k);
    } else {
      DisabledStutters(KeepDirty, s, e);
    }
  }

  /**
   In every run without RemoveEntries k is in the queue exactly when it is dirty and not
   in progress, there is never a second copy of it, and no two workers ever run it.
   */
  lemma {:induction false} KeepDirtySettles(n: nat, es: seq<Event>, k: Key)
    requires NoRemove(es)
    ensures var s := After(KeepDirty, Init(n), es);
            && (k in s.jobQueue <==> k in s.dirty && k !in s.inProgress)
            && Settles(s, k) && !InParallel(s, k)
  {
    ReachableInvariant(KeepDirty, n, es);
    if es != [] {
      var front := es[..|es| - 1];
      KeepDirtySettles(n, front, k);
      ReachableInvariant(KeepDirty, n, front);
      KeepDirtyStep(After(KeepDirty, Init(n), front), es[|es| - 1], k);
    }
    var s := After(KeepDirty, Init(n), es);
    MembersAreCounted(s, k);
    RunningIsActive(s, k);
  }

  /** So every such run meets the condition of ExclusiveIffGuarded. */
  lemma {:induction false} KeepDirtyIsGuarded(n: nat, es: seq<Event>, k: Key)
    requires NoRemove(es)
    ensures Guarded(KeepDirty, n, es, k) && OneCopy(KeepDirty, n, es, k)
  {
    hide Apply, After, Inv, Outstanding, Duplicates;
    forall i | 0 <= i <= |es|
      ensures Outstanding(At(KeepDirty, n, es, i), k) <= 1
    {
      ReachableInvariant(KeepDirty, n, es[..i]);
      InvOutstanding(At(KeepDirty, n, es, i), k);
      KeepDirtySettles(n, es[..i], k);
    }
    OneCopyIffGuarded(KeepDirty, n, es, k);
  }

  // ----- All runs -----

  /** There is at most one copy of k, and while there is one, Process(k) queues no second. */
  ghost predicate Covered(s: State, k: Key) {
    && Outstanding(s, k) <= 1
    && (Outstanding(s, k) == 1 ==> k in s.dirty || k in s.inProgress)
  }

  /**
   The calls of RemoveEntries that uncover k: of another queued key while k is last in the
   queue, or of k itself if k is held, or last in the queue, and leaves dirty and inProgress.
   */
  predicate Uncovers(s: State, e: Event, k: Key) {
    && e.RemoveEntries?
    && if e.key != k then e.key in s.jobQueue && Last(s.jobQueue) == k
       else (Running(k) in s.workers || Stays(s.jobQueue, k)) && !Stays(s.dirty, k) && !Stays(s.inProgress, k)
  }

  /** In any state that covers k, an event uncovers k exactly when it is such a call. */
  lemma {:induction false} CoveredStep(s: State, e: Event, k: Key)
    requires Covered(s, k)
    ensures Covered(Apply(KeepDirty, s, e), k) <==> !Uncovers(s, e, k)
  {
    hide Outstanding, RemoveFirst, OverwriteFirst, Stays;
    OutstandingMembers(s, k);
    if !Enabled(s, e) {
      DisabledStutters(KeepDirty, s, e);
    } else {
      StepOutstanding(KeepDirty, s, e, k);
      if e == RemoveEntries(k) {
        QueuedOnce(s, k);
        OverwriteCount(s.dirty, k, k);
        OverwriteCount(s.inProgress, k, k);
      } else if !Concerns(s, e, k) {
        QueuedOnce(s, k);
        Unconcerned(KeepDirty, s, e, k);
      }
    }
  }

  lemma {:induction false} QueuedOnce(s: State, k: Key)
    requires Outstanding(s, k) <= 1
    ensures multiset(s.jobQueue)[k] <= 1
    ensures k in s.jobQueue ==> Running(k) !in s.workers
    ensures s.jobQueue != [] ==> Last(s.jobQueue) in s.jobQueue
    ensures Stays(s.jobQueue, k) <==> k in s.jobQueue && Last(s.jobQueue) == k
  {
    OutstandingMembers(s, k);
    MembersAreCounted(s, k);
  }

  lemma {:induction false} CoveredAfter(s: State, es: seq<Event>, k: Key)
    requires Covered(s, k) && NoRemove(es)
    ensures Covered(After(KeepDirty, s, es), k)
  {
    hide Apply, Covered;
    if es != [] {
      CoveredAfter(s, es[..|es| - 1], k);
      CoveredStep(After(KeepDirty, s, es[..|es| - 1]), es[|es| - 1], k);
    }
  }

  /** In a state that does not cover k, a Process(k) at most is missing for two copies to meet. */
  lemma {:induction false} UncoveredMeets(s: State, k: Key) returns (more: seq<Event>)
    requires |s.workers| >= 2 && !Covered(s, k)
    ensures NoRemove(more) && Legal(KeepDirty, s, more) && InParallel(After(KeepDirty, s, more), k)
  {
    hide After, Legal, Outstanding, InParallel;
    if Outstanding(s, k) >= 2 {
      more := TwoCopiesMeet(KeepDirty, s, k);
    } else {
      var t := Apply(KeepDirty, s, Process(k));
      StepOutstanding(KeepDirty, s, Process(k), k);
      var rest := TwoCopiesMeet(KeepDirty, t, k);
      OneEvent(KeepDirty, s, Process(k));
      AfterConcat(KeepDirty, s, [Process(k)], rest);
      NoRemoveConcat([Process(k)], rest);
      more := [Process(k)] + rest;
    }
  }

  /** Whatever is requested next and however it is scheduled, k stays exclusive until a RemoveEntries. */
  ghost predicate StaysExclusive(s: State, k: Key) {
    forall more :: NoRemove(more) ==> !InParallel(After(KeepDirty, s, more), k)
  }

  /** With two workers or more, a state keeps k exclusive exactly when it covers k. */
  lemma {:induction false} ExclusiveIffCovered(s: State, k: Key)
    requires |s.workers| >= 2
    ensures StaysExclusive(s, k) <==> Covered(s, k)
  {
    hide Apply, After, Legal;
    if Covered(s, k) {
      forall more | NoRemove(more)
        ensures !InParallel(After(KeepDirty, s, more), k)
      {
        CoveredAfter(s, more, k);
        OutstandingMembers(After(KeepDirty, s, more), k);
      }
    } else {
      var more := UncoveredMeets(s, k);
    }
  }

  /**
   What the repair achieves over all runs, RemoveEntries included: with two workers or
   more, k stays exclusive at every point of a run, whatever is requested next, if and only
   if no RemoveEntries of the run uncovers k.
   */
  lemma {:induction false} KeepDirtyExclusiveIff(n: nat, es: seq<Event>, k: Key)
    requires n >= 2
    ensures (forall i :: 0 <= i <= |es| ==> StaysExclusive(At(KeepDirty, n, es, i), k)) <==>
            (forall i :: 0 <= i < |es| ==> !Uncovers(At(KeepDirty, n, es, i), es[i], k))
  {
    hide Apply, After, Covered, Uncovers, StaysExclusive;
    forall i | 0 <= i <= |es|
      ensures StaysExclusive(At(KeepDirty, n, es, i), k) <==> Covered(At(KeepDirty, n, es, i), k)
    {
      KeepsPool(KeepDirty, Init(n), es[..i]);
      ExclusiveIffCovered(At(KeepDirty, n, es, i), k);
    }
    if forall i :: 0 <= i <= |es| ==> Covered(At(KeepDirty, n, es, i), k) {
      forall i | 0 <= i < |es|
        ensures !Uncovers(At(KeepDirty, n, es, i), es[i], k)
      {
        AtNext(KeepDirty, n, es, i);
        CoveredStep(At(KeepDirty, n, es, i), es[i], k);
      }
    }
    if forall i :: 0 <= i < |es| ==> !Uncovers(At(KeepDirty, n, es, i), es[i], k) {
      forall i | 0 <= i <= |es|
        ensures Covered(At(KeepDirty, n, es, i), k)
      {
        CoveredSoFar(n, es, k, i);
      }
    }
  }

  lemma {:induction false} CoveredSoFar(n: nat, es: seq<Event>, k: Key, m: nat)
    requires m <= |es| && forall i :: 0 <= i < |es| ==> !Uncovers(At(KeepDirty, n, es, i), es[i], k)
    ensures Covered(At(KeepDirty, n, es, m), k)
    decreases m
  {
    hide Apply, After, Uncovers;
    if m == 0 {
      AtStart(KeepDirty, n, es);
      NothingOutstanding(n, k);
    } else {
      CoveredSoFar(n, es, k, m - 1);
      AtNext(KeepDirty, n, es, m - 1);
      CoveredStep(At(KeepDirty, n, es, m - 1), es[m - 1], k);
    }
  }
}

/**
 RemoveEntries. It is meant to drop a key from the three lists, but it discards the
 slices that removeFromSlice returns (Slices.OverwriteFirst is what they leave behind).
 This module says when that leaves the queue consistent, and gives the three ways in which
 it does not: a key can run twice at once, another key can starve, and the key itself can
 be forgotten while it is still dirty. For the last two it says exactly which calls are to
 blame over all runs, and that without them no request goes unserved.
 */
module ExecutorRemoval {
  import opened Prelude
  import opened Slices
  import opened Executor
  import opened ExecutorInvariants
  import opened ExecutorExclusion
  import opened ExecutorHistory
  import opened ExecutorProgress

  // ----- The effect on the queue -----

  /** What RemoveEntries is meant to do: assign the returned slices back. */
  function RemoveEntriesIntended(s: State, k: Key): State {
    s.(inProgress := RemoveFirst(s.inProgress, k),
       dirty := RemoveFirst(s.dirty, k),
       jobQueue := RemoveFirst(s.jobQueue, k),
       results := s.results - {k})
  }

  /**
   With the slices assigned back, a key that has at most one copy disappears from every
   list and from the results, and no other key is touched anywhere.
   */
  lemma {:induction false} IntendedRemovesExactly(s: State, k: Key, x: Key)
    requires Inv(s) && Copies(s, k) <= 1
    ensures var t := RemoveEntriesIntended(s, k);
            if x == k then k !in t.dirty && k !in t.jobQueue && k !in t.inProgress && k !in t.results
            else && Dirty(t, x) == Dirty(s, x) && Queued(t, x) == Queued(s, x) && Active(t, x) == Active(s, x)
                 && (x in t.results <==> x in s.results)
  {
    hide RemoveFirst, Held;
    MembersAreCounted(RemoveEntriesIntended(s, k), k);
    RemoveCounts(s.inProgress, k, x);
    RemoveCounts(s.dirty, k, x);
    RemoveCounts(s.jobQueue, k, x);
    assert Dirty(s, k) <= 1;
  }

  lemma {:induction false} IntendedElsewhere(s: State, k: Key, x: Key)
    requires Inv(s)
    ensures var t := RemoveEntriesIntended(s, k);
            && Dirty(t, x) <= 1
            && if x == k then x !in t.dirty
               else && (x in t.dirty <==> x in s.dirty) && (x in t.inProgress <==> x in s.inProgress)
                    && (x in t.jobQueue <==> x in s.jobQueue)
  {
    hide RemoveFirst, Held;
    RemoveCounts(s.dirty, k, x);
    MembersAreCounted(s, x);
    MembersAreCounted(RemoveEntriesIntended(s, k), x);
    if x != k {
      RemoveOther(s.dirty, k, x);
      RemoveOther(s.inProgress, k, x);
      RemoveOther(s.jobQueue, k, x);
    }
  }

  lemma {:induction false} IntendedKeepsInv(s: State, k: Key)
    requires Inv(s) && k !in s.inProgress
    ensures Inv(RemoveEntriesIntended(s, k))
  {
    hide RemoveFirst, Held;
    var t := RemoveEntriesIntended(s, k);
    forall x
      ensures Dirty(t, x) <= 1
      ensures x in t.dirty ==> x != k && (x in t.jobQueue || x in t.inProgress)
      ensures x in t.results ==> x !in t.dirty
    {
      IntendedElsewhere(s, k, x);
    }
  }

  /**
   Assigned back, the removal keeps the queue consistent exactly when k is not in progress.
   Under a worker that runs k it leaves the next Process(k) free to queue a second copy.
   */
  lemma {:induction false} IntendedKeepsInvIff(s: State, k: Key)
    requires Inv(s)
    ensures Inv(RemoveEntriesIntended(s, k)) <==> k !in s.inProgress
    ensures Active(s, k) == 1 ==> Duplicates(RemoveEntriesIntended(s, k), Process(k), k)
  {
    hide RemoveFirst, Held, Inv;
    var t := RemoveEntriesIntended(s, k);
    if k !in s.inProgress {
      IntendedKeepsInv(s, k);
    } else {
      RunningIsActive(s, k);
      MembersAreCounted(s, k);
      RemoveCounts(s.inProgress, k, k);
      assert Active(t, k) == Active(s, k) - 1;
      ActiveIsHeld(s, k);
      ActiveIsHeld(t, k);
      IntendedElsewhere(s, k, k);
      MembersAreCounted(t, k);
    }
  }

  lemma {:induction false} ActiveIsHeld(s: State, k: Key)
    ensures Inv(s) ==> Active(s, k) == Held(s.workers)[k]
  {
  }

  /**
   As written, the invariant of the queue survives RemoveEntries(k) exactly when k is
   absent from or last in inProgress, absent from or last in dirty, and, if dirty,
   not removed from the queue while it is not in progress.
   */
  lemma {:induction false} RemoveEntriesKeepsInvIff(s: State, k: Key)
    requires Inv(s)
    ensures Inv(RemoveEntriesStep(s, k)) <==>
            && (k in s.inProgress ==> Last(s.inProgress) == k)
            && (k in s.dirty ==> Last(s.dirty) == k)
            && (k in s.dirty && k !in s.inProgress ==> Last(s.jobQueue) == k || Queued(s, k) >= 2)
  {
    hide OverwriteFirst, Held;
    var t := RemoveEntriesStep(s, k);
    MembersAreCounted(s, k);
    MembersAreCounted(t, k);
    OverwriteKeepsIff(s.inProgress, k);
    OverwriteKeepsIff(s.dirty, k);
    OverwriteKeepsIff(s.jobQueue, k);
    if k in s.dirty && Last(s.dirty) != k {
      assert multiset(t.dirty)[Last(s.dirty)] == 2 by {
        assert multiset(s.dirty)[Last(s.dirty)] == 1;
      }
    } else {
      assert multiset(t.dirty) == multiset(s.dirty);
      forall x
        ensures x in t.dirty <==> x in s.dirty
        ensures x != k && x in t.dirty ==> x in t.jobQueue || x in t.inProgress
      {
        MembersAreCounted(s, x);
        MembersAreCounted(t, x);
        assert Dirty(s, x) == Dirty(t, x);
      }
    }
  }

  // ----- Starvation -----

  /** k is listed in inProgress although no worker runs it, and it is not queued. */
  predicate Starved(s: State, k: Key) {
    k in s.inProgress && k !in s.jobQueue && Running(k) !in s.workers && k !in s.results
  }

  lemma {:induction false} StarvedStep(v: Variant, s: State, e: Event, k: Key)
    requires Starved(s, k) && !e.RemoveEntries?
    ensures Starved(Apply(v, s, e), k)
    ensures !Takes(s, e, k)
  {
    hide TakeStep, StoreStep;
    if !Enabled(s, e) {
      DisabledStutters(v, s, e);
    } else if !Concerns(s, e, k) {
      Unconcerned(v, s, e, k);
    }
  }

  ghost predicate NeverTaken(v: Variant, s: State, es: seq<Event>, k: Key) {
    forall i :: 0 <= i < |es| ==> !Takes(After(v, s, es[..i]), es[i], k)
  }

  lemma {:induction false} NeverTakenNext(v: Variant, s: State, es: seq<Event>, k: Key)
    requires es != [] && NeverTaken(v, s, es[..|es| - 1], k)
    requires !Takes(After(v, s, es[..|es| - 1]), es[|es| - 1], k)
    ensures NeverTaken(v, s, es, k)
  {
    hide Takes;
    var front := es[..|es| - 1];
    forall i | 0 <= i < |es|
      ensures !Takes(After(v, s, es[..i]), es[i], k)
    {
      if i < |front| {
        assert front[..i] == es[..i] && front[i] == es[i];
      }
    }
  }

  /**
   A starved key is never run again, whatever is requested and however the workers are
   scheduled, and GetResult answers InProgress for it for ever.
   */
  lemma {:induction false} StarvedForever(v: Variant, s: State, es: seq<Event>, k: Key)
    requires Starved(s, k) && NoRemove(es)
    ensures Starved(After(v, s, es), k) && StatusOf(After(v, s, es), k) == InProgress
    ensures NeverTaken(v, s, es, k)
  {
    hide Apply, Starved, Takes;
    if es != [] {
      StarvedForever(v, s, es[..|es| - 1], k);
      StarvedStep(v, After(v, s, es[..|es| - 1]), es[|es| - 1], k);
      NeverTakenNext(v, s, es, k);
    }
    StillInProgress(After(v, s, es), k);
  }

  lemma {:induction false} StillInProgress(s: State, k: Key)
    ensures Starved(s, k) ==> StatusOf(s, k) == InProgress
  {
  }

  /** k is listed in inProgress more often than workers hold it: their stores will not clear it. */
  ghost predicate Excess(s: State, k: Key) {
    Active(s, k) > Held(s.workers)[k]
  }

  /** The call that makes a key k starve: a removal of another key in progress while k is last there. */
  ghost predicate Strands(s: State, e: Event, k: Key) {
    && e.RemoveEntries? && e.key != k && e.key in s.inProgress && Last(s.inProgress) == k
    && Active(s, k) == Held(s.workers)[k]
  }

  /** A store of k takes it off both counts, unless inProgress does not list it at all. */
  lemma {:induction false} ExcessStore(v: Variant, s: State, w: nat, err: Option<Error>, k: Key)
    requires Enabled(s, Store(w, err))
    ensures Excess(StoreStep(v, s, w, err), k) <==> Excess(s, k)
  {
    hide RemoveFirst, Held;
    var x := s.workers[w].key;
    HeldUpdateCount(s.workers, w, Idle, k);
    RemoveCounts(s.inProgress, x, k);
    MembersAreCounted(s, x);
  }

  lemma {:induction false} ExcessTake(s: State, w: nat, k: Key)
    requires Enabled(s, Take(w))
    ensures Excess(TakeStep(s, w), k) <==> Excess(s, k)
  {
    hide RemoveFirst, Held;
    HeldUpdateCount(s.workers, w, Running(s.jobQueue[0]), k);
    TakeCounts(s, w, k);
  }

  /** Only RemoveEntries changes whether k is in excess, and exactly such a call brings it about. */
  lemma {:induction false} ExcessStep(v: Variant, s: State, e: Event, k: Key)
    ensures !e.RemoveEntries? ==> (Excess(Apply(v, s, e), k) <==> Excess(s, k))
    ensures !Excess(s, k) ==> (Excess(Apply(v, s, e), k) <==> Strands(s, e, k))
  {
    hide OverwriteFirst, TakeStep, StoreStep, Held;
    if !Enabled(s, e) {
      DisabledStutters(v, s, e);
    } else {
      match e
      case Process(_) =>
      case Take(w) => ExcessTake(s, w, k);
      case Store(w, err) => ExcessStore(v, s, w, err, k);
      case GetResult(_) =>
      case RemoveEntries(x) => OverwriteCount(s.inProgress, x, k);
    }
  }

  lemma {:induction false} ExcessAfter(v: Variant, s: State, es: seq<Event>, k: Key)
    requires NoRemove(es)
    ensures Excess(After(v, s, es), k) <==> Excess(s, k)
  {
    hide Apply, Excess, Strands;
    if es != [] {
      ExcessAfter(v, s, es[..|es| - 1], k);
      ExcessStep(v, After(v, s, es[..|es| - 1]), es[|es| - 1], k);
    }
  }

  /** A store of k uses up the copy, or puts it back in the queue if k is dirty. */
  lemma {:induction false} StoreOfKey(v: Variant, s: State, w: nat, k: Key)
    requires Runs(s, w, k)
    ensures var t := Apply(v, s, Store(w, None));
            && |t.workers| == |s.workers| && Held(t.workers)[k] + 1 == Held(s.workers)[k]
            && Outstanding(t, k) == Outstanding(s, k) - (if k in s.dirty then 0 else 1)
            && Dirty(t, k) <= Dirty(s, k)
  {
    hide RemoveFirst, Held, Outstanding;
    HeldUpdateCount(s.workers, w, Idle, k);
    StepOutstanding(v, s, Store(w, None), k);
    StepDirty(v, s, Store(w, None), k);
  }

  /** The workers can run every outstanding copy of k until none is left. */
  lemma {:induction false} DrainKey(v: Variant, s: State, k: Key) returns (ws: seq<Event>)
    requires |s.workers| >= 1
    ensures WorkersOnly(ws) && Legal(v, s, ws) && Outstanding(After(v, s, ws), k) == 0
    decreases Outstanding(s, k), Dirty(s, k), Held(s.workers)[k]
  {
    hide Apply, After, Legal, Outstanding, Held;
    EmptyRun(v, s);
    OutstandingMembers(s, k);
    MembersAreCounted(s, k);
    var w, take := 0, [];
    if Outstanding(s, k) == 0 {
      return [];
    } else if Running(k) in s.workers {
      w :| 0 <= w < |s.workers| && s.workers[w] == Running(k);
    } else {
      take := Acquire(v, s, 0, k);
    }
    var t := After(v, s, take);
    MembersAreCounted(t, k);
    StoreOfKey(v, t, w, k);
    OneEvent(v, t, Store(w, None));
    var rest := DrainKey(v, Apply(v, t, Store(w, None)), k);
    AfterConcat(v, t, [Store(w, None)], rest);
    AfterConcat(v, s, take, [Store(w, None)] + rest);
    ws := take + ([Store(w, None)] + rest);
  }

  /** A legal continuation without RemoveEntries that starves k. */
  ghost predicate LeadsToStarved(v: Variant, s: State, k: Key, more: seq<Event>) {
    NoRemove(more) && Legal(v, s, more) && Starved(After(v, s, more), k)
  }

  lemma {:induction false} StarveFrom(v: Variant, s: State, k: Key) returns (more: seq<Event>)
    requires |s.workers| >= 1 && Excess(s, k)
    ensures LeadsToStarved(v, s, k, more)
  {
    hide After, Legal, Outstanding, Held;
    var drain := DrainKey(v, s, k);
    NoRemoveConcat(drain, [GetResult(k)]);
    NoRemoveConcat([], drain);
    ExcessAfter(v, s, drain, k);
    var t := After(v, s, drain);
    OutstandingMembers(t, k);
    MembersAreCounted(t, k);
    OneEvent(v, t, GetResult(k));
    AfterConcat(v, s, drain, [GetResult(k)]);
    more := drain + [GetResult(k)];
  }

  lemma {:induction false} StarvedIsExcess(s: State, k: Key)
    requires Starved(s, k)
    ensures Excess(s, k)
  {
    hide Held;
    OutstandingMembers(s, k);
    MembersAreCounted(s, k);
  }

  /** From any state with a worker, k can come to starve exactly when it is in excess. */
  lemma {:induction false} StarvesIffExcess(v: Variant, s: State, k: Key)
    ensures (exists more :: LeadsToStarved(v, s, k, more)) ==> Excess(s, k)
    ensures |s.workers| >= 1 && Excess(s, k) ==> exists more :: LeadsToStarved(v, s, k, more)
  {
    hide Apply, After, Legal, Starved, Excess;
    forall more | LeadsToStarved(v, s, k, more)
      ensures Excess(s, k)
    {
      StarvedIsExcess(After(v, s, more), k);
      ExcessAfter(v, s, more, k);
    }
    if |s.workers| >= 1 && Excess(s, k) {
      var more := StarveFrom(v, s, k);
    }
  }

  /**
   In a consistent state, RemoveEntries(a) leaves b to starve, that is, some continuation
   without another RemoveEntries starves b, if and only if a is another key in progress and b
   is the last one there.
   */
  lemma {:induction false} RemovalStarvesIff(v: Variant, s: State, a: Key, b: Key)
    requires Inv(s)
    ensures (exists more :: LeadsToStarved(v, RemoveEntriesStep(s, a), b, more)) <==>
            a != b && a in s.inProgress && Last(s.inProgress) == b
  {
    hide After, Legal, LeadsToStarved, Held;
    var t := RemoveEntriesStep(s, a);
    assert t == Apply(v, s, RemoveEntries(a));
    assert Active(s, b) == Held(s.workers)[b];
    ExcessStep(v, s, RemoveEntries(a), b);
    StarvesIffExcess(v, t, b);
    if a in s.inProgress {
      RunningIsActive(s, a);
      MembersAreCounted(s, a);
    }
  }

  /** Some continuation without RemoveEntries, from some point of the run, starves k. */
  ghost predicate CanStarve(v: Variant, n: nat, es: seq<Event>, k: Key) {
    exists i, more :: 0 <= i <= |es| && LeadsToStarved(v, At(v, n, es, i), k, more)
  }

  /** No call of the run strands k. */
  ghost predicate NeverStrands(v: Variant, n: nat, es: seq<Event>, k: Key) {
    forall i :: 0 <= i < |es| ==> !Strands(At(v, n, es, i), es[i], k)
  }

  lemma {:induction false} NoExcessYet(v: Variant, n: nat, es: seq<Event>, k: Key, m: nat)
    requires m <= |es| && NeverStrands(v, n, es, k)
    ensures !Excess(At(v, n, es, m), k)
    decreases m
  {
    hide Apply, After, Strands, Held;
    if m == 0 {
      AtStart(v, n, es);
    } else {
      NoExcessYet(v, n, es, k, m - 1);
      AtNext(v, n, es, m - 1);
      ExcessStep(v, At(v, n, es, m - 1), es[m - 1], k);
    }
  }

  /**
   Over all runs, in both variants: a key can come to starve at some point of a run if
   and only if some RemoveEntries of the run strands it.
   */
  lemma {:induction false} CanStarveIff(v: Variant, n: nat, es: seq<Event>, k: Key)
    requires n >= 1
    ensures CanStarve(v, n, es, k) <==> !NeverStrands(v, n, es, k)
  {
    hide Apply, After, Excess, Strands, LeadsToStarved;
    forall i | 0 <= i <= |es|
      ensures (exists more :: LeadsToStarved(v, At(v, n, es, i), k, more)) <==> Excess(At(v, n, es, i), k)
    {
      KeepsPool(v, Init(n), es[..i]);
      StarvesIffExcess(v, At(v, n, es, i), k);
    }
    if NeverStrands(v, n, es, k) {
      forall i | 0 <= i <= |es|
        ensures !Excess(At(v, n, es, i), k)
      {
        NoExcessYet(v, n, es, k, i);
      }
    } else {
      var i :| 0 <= i < |es| && Strands(At(v, n, es, i), es[i], k);
      AtNext(v, n, es, i);
      StrandsLater(v, At(v, n, es, i), es[i], k);
      assert Excess(At(v, n, es, i + 1), k);
    }
  }

  lemma {:induction false} StrandsLater(v: Variant, s: State, e: Event, k: Key)
    requires Strands(s, e, k)
    ensures Excess(Apply(v, s, e), k)
  {
    hide Apply, Held;
    ExcessStep(v, s, e, k);
  }

  // ----- A request that is forgotten -----

  /** k is dirty, so every request for it is dropped, and yet it is nowhere else. */
  predicate Forgotten(s: State, k: Key) {
    && k in s.dirty && k !in s.jobQueue && k !in s.inProgress
    && Running(k) !in s.workers && k !in s.results
  }

  lemma {:induction false} ForgottenStep(v: Variant, s: State, e: Event, k: Key)
    requires Forgotten(s, k) && !e.RemoveEntries?
    ensures Forgotten(Apply(v, s, e), k) && !Takes(s, e, k)
    ensures e == Process(k) ==> Apply(v, s, e) == s
  {
    hide TakeStep, StoreStep;
    if !Enabled(s, e) {
      DisabledStutters(v, s, e);
    } else if !Concerns(s, e, k) {
      Unconcerned(v, s, e, k);
    }
  }

  /** Every call Process(k) of es changes nothing. */
  ghost predicate RequestsDropped(v: Variant, s: State, es: seq<Event>, k: Key) {
    forall i :: 0 <= i < |es| && es[i] == Process(k) ==> After(v, s, es[..i + 1]) == After(v, s, es[..i])
  }

  lemma {:induction false} RequestsDroppedNext(v: Variant, s: State, es: seq<Event>, k: Key)
    requires es != [] && RequestsDropped(v, s, es[..|es| - 1], k)
    requires es[|es| - 1] == Process(k) ==> After(v, s, es) == After(v, s, es[..|es| - 1])
    ensures RequestsDropped(v, s, es, k)
  {
    hide After;
    var front := es[..|es| - 1];
    assert es[..|es|] == es;
    forall i | 0 <= i < |es| && es[i] == Process(k)
      ensures After(v, s, es[..i + 1]) == After(v, s, es[..i])
    {
      if i < |front| {
        assert front[..i] == es[..i] && front[..i + 1] == es[..i + 1] && front[i] == es[i];
      }
    }
  }

  /**
   A forgotten key is never run again: until the next RemoveEntries every request for it is
   dropped, however the workers are scheduled, and GetResult answers Unavailable.
   */
  lemma {:induction false} ForgottenForever(v: Variant, s: State, es: seq<Event>, k: Key)
    requires Forgotten(s, k) && NoRemove(es)
    ensures Forgotten(After(v, s, es), k) && StatusOf(After(v, s, es), k) == Unavailable
    ensures NeverTaken(v, s, es, k) && RequestsDropped(v, s, es, k)
  {
    hide Apply, Forgotten, Takes;
    if es != [] {
      ForgottenForever(v, s, es[..|es| - 1], k);
      ForgottenStep(v, After(v, s, es[..|es| - 1]), es[|es| - 1], k);
      NeverTakenNext(v, s, es, k);
      RequestsDroppedNext(v, s, es, k);
    }
    ForgottenIsUnavailable(After(v, s, es), k);
  }

  lemma {:induction false} ForgottenIsUnavailable(s: State, k: Key)
    ensures Forgotten(s, k) ==> StatusOf(s, k) == Unavailable
  {
  }

  /** The call that makes k forgotten: its own removal, which clears every list but dirty. */
  predicate Forgets(s: State, e: Event, k: Key) {
    && e == RemoveEntries(k) && Stays(s.dirty, k)
    && !Stays(s.jobQueue, k) && !Stays(s.inProgress, k) && Running(k) !in s.workers
  }

  /** Exactly such a call brings a key into that state. */
  lemma {:induction false} ForgottenIffForgets(v: Variant, s: State, e: Event, k: Key)
    requires NotBoth(s, k) && !Forgotten(s, k)
    ensures Forgotten(Apply(v, s, e), k) <==> Forgets(s, e, k)
  {
    hide RemoveFirst, OverwriteFirst, Stays, IndexOf;
    if !Enabled(s, e) {
      DisabledStutters(v, s, e);
    } else if e == RemoveEntries(k) {
      OverwriteCount(s.dirty, k, k);
      OverwriteCount(s.jobQueue, k, k);
      OverwriteCount(s.inProgress, k, k);
    } else if !Concerns(s, e, k) {
      Unconcerned(v, s, e, k);
    } else if e.Take? {
      assert Apply(v, s, e).workers[e.worker] == Running(k);
    } else if e.Store? {
      assert k !in s.dirty ==> k !in Apply(v, s, e).dirty;
    }
  }

  /**
   In a consistent state, RemoveEntries(a) makes k forgotten if and only if a is k, and k is
   last in dirty, not in progress, and queued once, but not last in the queue.
   */
  lemma {:induction false} RemovalForgetsIff(s: State, a: Key, k: Key)
    requires Inv(s)
    ensures Forgotten(RemoveEntriesStep(s, a), k) <==>
            && a == k && k in s.dirty && Last(s.dirty) == k && k !in s.inProgress
            && Queued(s, k) == 1 && Last(s.jobQueue) != k
  {
    hide OverwriteFirst, Held;
    MembersAreCounted(s, k);
    RunningIsActive(s, k);
    OutstandingMembers(s, k);
    assert RemoveEntriesStep(s, a) == Apply(AsWritten, s, RemoveEntries(a));
    ForgottenIffForgets(AsWritten, s, RemoveEntries(a), k);
  }

  /** k is forgotten at no point of the run. */
  ghost predicate NeverForgotten(v: Variant, n: nat, es: seq<Event>, k: Key) {
    forall i :: 0 <= i <= |es| ==> !Forgotten(At(v, n, es, i), k)
  }

  ghost predicate NeverForgets(v: Variant, n: nat, es: seq<Event>, k: Key) {
    forall i :: 0 <= i < |es| ==> !Forgets(At(v, n, es, i), es[i], k)
  }

  lemma {:induction false} NotForgottenYet(v: Variant, n: nat, es: seq<Event>, k: Key, m: nat)
    requires m <= |es| && NeverForgets(v, n, es, k)
    ensures !Forgotten(At(v, n, es, m), k)
    decreases m
  {
    hide Apply, After, Forgets;
    if m == 0 {
      AtStart(v, n, es);
    } else {
      NotForgottenYet(v, n, es, k, m - 1);
      AtNext(v, n, es, m - 1);
      NeverBoth(v, n, es[..m - 1], k);
      ForgottenIffForgets(v, At(v, n, es, m - 1), es[m - 1], k);
    }
  }

  /** Over all runs, in both variants: k is forgotten at some point if and only if a call of the run forgets it. */
  lemma {:induction false} NeverForgottenIff(v: Variant, n: nat, es: seq<Event>, k: Key)
    ensures NeverForgotten(v, n, es, k) <==> NeverForgets(v, n, es, k)
  {
    hide Apply, After, Forgotten, Forgets;
    if NeverForgotten(v, n, es, k) {
      forall i | 0 <= i < |es|
        ensures !Forgets(At(v, n, es, i), es[i], k)
      {
        AtNext(v, n, es, i);
        NeverBoth(v, n, es[..i], k);
        ForgottenIffForgets(v, At(v, n, es, i), es[i], k);
      }
    }
    if NeverForgets(v, n, es, k) {
      forall i | 0 <= i <= |es|
        ensures !Forgotten(At(v, n, es, i), k)
      {
        NotForgottenYet(v, n, es, k, i);
      }
    }
  }

  // ----- There is no other loss -----

  /**
   In any run, removals included, let Process(k) at event i not be withdrawn later. Once
   the workers have gone on until nothing is left for them, they have started a run of k
   after the request, or k is forgotten, or it is starved.
   */
  lemma {:induction false} OnlyTwoLosses(v: Variant, n: nat, es: seq<Event>, i: nat, k: Key, ws: seq<Event>)
    requires n >= 1 && i < |es| && es[i] == Process(k) && !Withdrawn(es, i, |es|, k)
    requires Exhausts(v, At(v, n, es, |es|), ws)
    ensures var run := es + ws;
            || (exists j :: i < j < |run| && Starts(v, n, run, j, k))
            || Forgotten(At(v, n, run, |run|), k) || Starved(At(v, n, run, |run|), k)
  {
    hide Apply, After, Legal, WorkLeft, Starts, Starved, Forgotten;
    var run := es + ws;
    assert es[..|es|] == es && run[..|run|] == run;
    AfterConcat(v, Init(n), es, ws);
    NoRequestLost(v, n, run, i, k);
    NoRemoveConcat([], ws);
    if Withdrawn(run, i, |run|, k) {
      WithdrawnBefore(es, ws, i, k);
      assert false;
    }
    KeepsPool(v, Init(n), run);
    NeverBoth(v, n, run, k);
    IdleLosses(At(v, n, run, |run|), k);
  }

  lemma {:induction false} WithdrawnBefore(es: seq<Event>, ws: seq<Event>, i: nat, k: Key)
    requires NoRemove(ws) && Withdrawn(es + ws, i, |es + ws|, k)
    ensures Withdrawn(es, i, |es|, k)
  {
    var run := es + ws;
    assert forall m :: |es| <= m < |run| ==> run[m] in ws;
    var j :| i < j < |run| && run[j] == RemoveEntries(k);
    assert es[j] == RemoveEntries(k);
  }

  /** With nothing left to do, what still waits is forgotten or starved. */
  lemma {:induction false} IdleLosses(s: State, k: Key)
    requires |s.workers| >= 1 && !WorkLeft(s) && NotBoth(s, k)
    ensures Waiting(s, k) ==> Forgotten(s, k) || Starved(s, k)
  {
    assert !Enabled(s, Take(0)) && !Enabled(s, Store(0, None));
    assert s.jobQueue == [];
    forall w | 0 <= w < |s.workers|
      ensures s.workers[w].Idle?
    {
      assert !Enabled(s, Store(w, None));
    }
  }

  /**
   So in every run whose removals neither strand nor forget k, each request for k that is
   not withdrawn is served, whatever happened to the consistency of the queue.
   */
  lemma {:induction false} ServedDespiteRemovals(v: Variant, n: nat, es: seq<Event>, i: nat, k: Key, ws: seq<Event>)
    returns (j: nat)
    requires n >= 1 && i < |es| && es[i] == Process(k) && !Withdrawn(es, i, |es|, k)
    requires NeverStrands(v, n, es, k) && NeverForgets(v, n, es, k)
    requires Exhausts(v, At(v, n, es, |es|), ws)
    ensures i < j < |es + ws| && Starts(v, n, es + ws, j, k)
  {
    hide Apply, After, Legal, WorkLeft, Starts, Starved, Forgotten, Strands, Forgets, Excess;
    var run := es + ws;
    assert es[..|es|] == es && run[..|run|] == run;
    AfterConcat(v, Init(n), es, ws);
    NoRemoveConcat([], ws);
    var s, t := At(v, n, es, |es|), At(v, n, run, |run|);
    NoExcessYet(v, n, es, k, |es|);
    ExcessAfter(v, s, ws, k);
    NotForgottenYet(v, n, es, k, |es|);
    NeverBoth(v, n, es, k);
    StaysRemembered(v, s, ws, k);
    OnlyTwoLosses(v, n, es, i, k, ws);
    if Starved(t, k) {
      StarvedIsExcess(t, k);
    }
    j :| i < j < |run| && Starts(v, n, run, j, k);
  }

  lemma {:induction false} StaysRemembered(v: Variant, s: State, es: seq<Event>, k: Key)
    requires NoRemove(es) && NotBoth(s, k) && !Forgotten(s, k)
    ensures NotBoth(After(v, s, es), k) && !Forgotten(After(v, s, es), k)
  {
    hide Apply, Forgotten, NotBoth;
    if es != [] {
      var front := es[..|es| - 1];
      StaysRemembered(v, s, front, k);
      NotBothStep(v, After(v, s, front), es[|es| - 1], k);
      ForgottenIffForgets(v, After(v, s, front), es[|es| - 1], k);
    }
  }

  // ----- The bad runs -----

  /** Until the next RemoveEntries k is not run again, and GetResult keeps giving that answer. */
  ghost predicate NeverServedAgain(v: Variant, s: State, k: Key, answer: Status) {
    forall more :: NoRemove(more) ==> StatusOf(After(v, s, more), k) == answer && NeverTaken(v, s, more, k)
  }

  lemma {:induction false} LossesLast(v: Variant, s: State, k: Key)
    ensures Starved(s, k) ==> NeverServedAgain(v, s, k, InProgress)
    ensures Forgotten(s, k) ==> NeverServedAgain(v, s, k, Unavailable)
  {
    hide After, NeverTaken, Starved, Forgotten, StatusOf;
    forall more | NoRemove(more)
      ensures Starved(s, k) ==> StatusOf(After(v, s, more), k) == InProgress && NeverTaken(v, s, more, k)
      ensures Forgotten(s, k) ==> StatusOf(After(v, s, more), k) == Unavailable && NeverTaken(v, s, more, k)
    {
      if Starved(s, k) {
        StarvedForever(v, s, more, k);
      }
      if Forgotten(s, k) {
        ForgottenForever(v, s, more, k);
      }
    }
  }

  lemma {:induction false} CallsAreEnabled()
    ensures forall t: State, k {:trigger Enabled(t, Process(k))} :: Enabled(t, Process(k))
    ensures forall t: State, k {:trigger Enabled(t, GetResult(k))} :: Enabled(t, GetResult(k))
    ensures forall t: State, k {:trigger Enabled(t, RemoveEntries(k))} :: Enabled(t, RemoveEntries(k))
  {
  }

  /** A legal run that leads to t goes on with an event that is enabled there. */
  lemma {:induction false} Then(v: Variant, s: State, es: seq<Event>, t: State, e: Event) returns (more: seq<Event>)
    requires Legal(v, s, es) && After(v, s, es) == t && Enabled(t, e)
    ensures more == es + [e] && Legal(v, s, more) && After(v, s, more) == Apply(v, t, e)
  {
    AfterSnoc(v, s, es, e);
    more := es + [e];
  }

  lemma {:induction false} FirstOfTwo(a: Key, b: Key)
    ensures RemoveFirst([a, b], a) == [b] && OverwriteFirst([a, b], a) == [b, b]
  {
    assert IndexOf([a, b], a) == 0;
  }

  lemma {:induction false} PairLists(a: Key, b: Key)
    requires a != b
    ensures RemoveFirst([a, b], a) == [b] && RemoveFirst([b], b) == [] && RemoveFirst([b, b], a) == [b, b]
    ensures RemoveFirst([b, b], b) == [b] && OverwriteFirst([a, b], a) == [b, b]
  {
    assert a !in [b, b];
    FirstOfTwo(a, b);
    FirstOfTwo(b, b);
    assert IndexOf([b], b) == 0;
  }

  lemma {:induction false} SmallLists(a: Key, b: Key)
    ensures [] + [a] == [a] && [a] + [b] == [a, b] && [a, b][1..] == [b] && [b][1..] == []
    ensures OverwriteFirst([], a) == [] && RemoveFirst([], a) == []
  {
  }

  /** Two requests, before any take. */
  lemma {:induction false} TwoRequested(v: Variant, n: nat, a: Key, b: Key) returns (es: seq<Event>)
    requires a != b
    ensures es == [Process(a), Process(b)] && Legal(v, Init(n), es)
    ensures After(v, Init(n), es) == State([a, b], [], [a, b], map[], Init(n).workers)
  {
    hide After, Legal;
    var s := Init(n);
    SmallLists(a, b);
    EmptyRun(v, s);
    es := Then(v, s, [], s, Process(a));
    es := Then(v, s, es, State([a], [], [a], map[], s.workers), Process(b));
  }

  /** Two workers take them, and a is removed while it runs. */
  lemma {:induction false} TakeTwoRemoveOne(v: Variant, ws: seq<Worker>, a: Key, b: Key)
    requires |ws| >= 2 && ws[0] == Idle && ws[1] == Idle && a != b
    ensures var s2 := State([a, b], [], [a, b], map[], ws);
            var s3 := State([b], [a], [b], map[], ws[0 := Running(a)]);
            var s4 := State([], [a, b], [], map[], ws[0 := Running(a)][1 := Running(b)]);
            && Enabled(s2, Take(0)) && Apply(v, s2, Take(0)) == s3
            && Enabled(s3, Take(1)) && Apply(v, s3, Take(1)) == s4
            && Apply(v, s4, RemoveEntries(a)) == s4.(inProgress := [b, b])
  {
    hide RemoveFirst, OverwriteFirst;
    PairLists(a, b);
    SmallLists(a, b);
  }

  /** With two workers, a is requested, taken and then removed, while b was requested and taken. */
  lemma {:induction false} RemovedWhileRunning(v: Variant, n: nat, a: Key, b: Key) returns (es: seq<Event>)
    requires n >= 2 && a != b
    ensures es == [Process(a), Process(b), Take(0), Take(1), RemoveEntries(a)] && Legal(v, Init(n), es)
    ensures After(v, Init(n), es) ==
            State([], [b, b], [], map[], Init(n).workers[0 := Running(a)][1 := Running(b)])
  {
    hide After, Legal, Apply, Enabled;
    var ws := Init(n).workers;
    TakeTwoRemoveOne(v, ws, a, b);
    CallsAreEnabled();
    es := TwoRequested(v, n, a, b);
    es := Then(v, Init(n), es, State([a, b], [], [a, b], map[], ws), Take(0));
    es := Then(v, Init(n), es, State([b], [a], [b], map[], ws[0 := Running(a)]), Take(1));
    es := Then(v, Init(n), es, State([], [a, b], [], map[], ws[0 := Running(a)][1 := Running(b)]), RemoveEntries(a));
  }

  /** a is requested again, the worker of b is done and takes a, which worker 0 still runs. */
  lemma {:induction false} RequestedAgain(v: Variant, ws: seq<Worker>, a: Key, b: Key)
    requires |ws| >= 2 && ws[0] == Running(a) && ws[1] == Idle && a != b
    ensures var s5 := State([], [b, b], [], map[], ws[1 := Running(b)]);
            var s6 := State([a], [b, b], [a], map[], ws[1 := Running(b)]);
            var s7 := State([a], [b], [a], map[b := None], ws);
            && Apply(v, s5, Process(a)) == s6
            && Enabled(s6, Store(1, None)) && Apply(v, s6, Store(1, None)) == s7
            && Enabled(s7, Take(1)) && Apply(v, s7, Take(1)).workers == ws[1 := Running(a)]
  {
    hide RemoveFirst;
    PairLists(a, b);
    SmallLists(a, b);
    assert ws[1 := Running(b)][1 := Idle] == ws;
  }

  /**
   Deleting a cleaner while it runs and creating it again breaks the exclusion, for the code
   as written and for KeepDirty alike: after these eight events workers 0 and 1 both run a.
   */
  lemma {:induction false} RemovalBreaksExclusion(v: Variant, n: nat, a: Key, b: Key) returns (es: seq<Event>)
    requires n >= 2 && a != b
    ensures es == [Process(a), Process(b), Take(0), Take(1), RemoveEntries(a), Process(a), Store(1, None), Take(1)]
    ensures Legal(v, Init(n), es) && InParallel(After(v, Init(n), es), a)
  {
    hide After, Legal, Apply, Enabled;
    var s := Init(n);
    var ws := s.workers[0 := Running(a)];
    RequestedAgain(v, ws, a, b);
    CallsAreEnabled();
    es := RemovedWhileRunning(v, n, a, b);
    es := Then(v, s, es, State([], [b, b], [], map[], ws[1 := Running(b)]), Process(a));
    es := Then(v, s, es, State([a], [b, b], [a], map[], ws[1 := Running(b)]), Store(1, None));
    es := Then(v, s, es, State([a], [b], [a], map[b := None], ws), Take(1));
    var t := After(v, s, es);
    assert t.workers[0] == Running(a) && t.workers[1] == Running(a);
  }

  /** Both workers are done: b is taken off the list once. */
  lemma {:induction false} LeftBehind(v: Variant, ws: seq<Worker>, a: Key, b: Key)
    requires |ws| >= 2 && ws[0] == Idle && ws[1] == Idle && a != b && Running(b) !in ws
    ensures var s5 := State([], [b, b], [], map[], ws[0 := Running(a)][1 := Running(b)]);
            var s6 := State([], [b, b], [], map[a := None], ws[1 := Running(b)]);
            var s7 := State([], [b], [], map[a := None, b := None], ws);
            && Enabled(s5, Store(0, None)) && Apply(v, s5, Store(0, None)) == s6
            && Enabled(s6, Store(1, None)) && Apply(v, s6, Store(1, None)) == s7
            && Starved(Apply(v, s7, GetResult(b)), b)
  {
    hide RemoveFirst;
    PairLists(a, b);
    var busy := ws[0 := Running(a)][1 := Running(b)];
    assert busy[0 := Idle] == ws[1 := Running(b)] && ws[1 := Running(b)][1 := Idle] == ws;
  }

  /**
   Deleting one cleaner can starve another, again in both variants: b, which nobody
   removed, is listed for a second time when a goes, and its worker's store takes it off
   the list only once.
   */
  lemma {:induction false} RemovalStarvesAnother(v: Variant, n: nat, a: Key, b: Key) returns (es: seq<Event>)
    requires n >= 2 && a != b
    ensures es == [Process(a), Process(b), Take(0), Take(1), RemoveEntries(a),
                   Store(0, None), Store(1, None), GetResult(b)]
    ensures Legal(v, Init(n), es) && NeverServedAgain(v, After(v, Init(n), es), b, InProgress)
  {
    hide After, Legal, Apply, Enabled, Starved;
    var s := Init(n);
    var ws := s.workers;
    LeftBehind(v, ws, a, b);
    CallsAreEnabled();
    es := RemovedWhileRunning(v, n, a, b);
    es := Then(v, s, es, State([], [b, b], [], map[], ws[0 := Running(a)][1 := Running(b)]), Store(0, None));
    es := Then(v, s, es, State([], [b, b], [], map[a := None], ws[1 := Running(b)]), Store(1, None));
    es := Then(v, s, es, State([], [b], [], map[a := None, b := None], ws), GetResult(b));
    LossesLast(v, After(v, s, es), b);
  }

  lemma {:induction false} TripleLists(a: Key, b: Key, c: Key)
    requires a != b && b != c && a != c
    ensures [a, b] + [c] == [a, b, c] && [a, b, c][1..] == [b, c]
    ensures RemoveFirst([a, b, c], a) == [c, b]
    ensures OverwriteFirst([c, b], b) == [c, b] && OverwriteFirst([b, c], b) == [c, c] && OverwriteFirst([a], b) == [a]
  {
    assert IndexOf([a, b, c], a) == 0 && IndexOf([c, b], b) == 1;
    FirstOfTwo(b, c);
  }

  /** The take of a leaves b last in dirty, though c is last in the queue. */
  lemma {:induction false} ThreeTaken(v: Variant, ws: seq<Worker>, a: Key, b: Key, c: Key)
    requires ws != [] && ws[0] == Idle && a != b && b != c && a != c && Running(b) !in ws
    ensures var s2 := State([a, b], [], [a, b], map[], ws);
            var s3 := State([a, b, c], [], [a, b, c], map[], ws);
            var s4 := State([c, b], [a], [b, c], map[], ws[0 := Running(a)]);
            && Apply(v, s2, Process(c)) == s3
            && Enabled(s3, Take(0)) && Apply(v, s3, Take(0)) == s4
  {
    hide RemoveFirst;
    SmallLists(a, b);
    TripleLists(a, b, c);
  }

  lemma {:induction false} RemovedFromQueueOnly(v: Variant, ws: seq<Worker>, a: Key, b: Key, c: Key)
    requires ws != [] && a != b && b != c && a != c && Running(b) !in ws
    ensures Forgotten(Apply(v, State([c, b], [a], [b, c], map[], ws[0 := Running(a)]), RemoveEntries(b)), b)
  {
    hide OverwriteFirst;
    TripleLists(a, b, c);
  }

  /**
   Deleting a cleaner and creating it again can leave it without a run for ever, and with
   every request dropped. One worker is enough.
   */
  lemma {:induction false} RemovalForgetsItsKey(v: Variant, n: nat, a: Key, b: Key, c: Key) returns (es: seq<Event>)
    requires n >= 1 && a != b && b != c && a != c
    ensures es == [Process(a), Process(b), Process(c), Take(0), RemoveEntries(b)]
    ensures Legal(v, Init(n), es) && Forgotten(After(v, Init(n), es), b)
    ensures NeverServedAgain(v, After(v, Init(n), es), b, Unavailable)
  {
    hide After, Legal, Apply, Enabled, Forgotten;
    var s := Init(n);
    var ws := s.workers;
    ThreeTaken(v, ws, a, b, c);
    RemovedFromQueueOnly(v, ws, a, b, c);
    CallsAreEnabled();
    es := TwoRequested(v, n, a, b);
    es := Then(v, s, es, State([a, b], [], [a, b], map[], ws), Process(c));
    es := Then(v, s, es, State([a, b, c], [], [a, b, c], map[], ws), Take(0));
    es := Then(v, s, es, State([c, b], [a], [b, c], map[], ws[0 := Running(a)]), RemoveEntries(b));
    LossesLast(v, After(v, s, es), b);
  }
}

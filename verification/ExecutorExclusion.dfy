/**
 Mutual exclusion. The design comment promises that a request is never processed more
 than once in parallel. This module bounds what the code as written allows in runs without
 RemoveEntries, shows that the bound is reached, and says of all runs, RemoveEntries
 included, exactly which keep the promise. ExecutorRepair has the repaired storeResult.
 */
module ExecutorExclusion {
  import opened Prelude
  import opened Slices
  import opened Executor
  import opened ExecutorInvariants

  // ----- The bound that holds as written -----

  /** Whether e, applied to s, is a storeResult that puts k back in the queue. */
  predicate Requeues(s: State, e: Event, k: Key) {
    e.Store? && Enabled(s, e) && s.workers[e.worker] == Running(k) && k in s.dirty
  }

  /** How often storeResult puts k back in the queue while es runs from s. */
  ghost function RequeueCount(v: Variant, s: State, es: seq<Event>, k: Key): nat {
    if es == [] then 0
    else
      var front := es[..|es| - 1];
      RequeueCount(v, s, front, k) + (if Requeues(After(v, s, front), es[|es| - 1], k) then 1 else 0)
  }

  ghost predicate WithinBound(s: State, k: Key, requeued: nat) {
    && Queued(s, k) <= requeued + (if k in s.dirty && k !in s.inProgress then 1 else 0)
    && Copies(s, k) <= 1 + requeued
  }

  lemma {:induction false} BoundStep(s: State, e: Event, k: Key, requeued: nat)
    requires Inv(s) && !e.RemoveEntries? && WithinBound(s, k, requeued)
    ensures WithinBound(Apply(AsWritten, s, e), k, requeued + (if Requeues(s, e, k) then 1 else 0))
  {
    hide Apply;
    MembersAreCounted(s, k);
    MembersAreCounted(Apply(AsWritten, s, e), k);
    if Enabled(s, e) {
      StepCounts(AsWritten, s, e, k);
    } else {
      DisabledStutters(AsWritten, s, e);
    }
  }

  /**
   A key is queued and in progress at most once more than storeResult has
   re-queued it, so two workers cannot hold it before its first re-queue.
   */
  lemma {:induction false} CopiesBound(n: nat, es: seq<Event>, k: Key)
    requires NoRemove(es)
    ensures WithinBound(After(AsWritten, Init(n), es), k, RequeueCount(AsWritten, Init(n), es, k))
    ensures RequeueCount(AsWritten, Init(n), es, k) == 0 ==> !InParallel(After(AsWritten, Init(n), es), k)
  {
    ReachableInvariant(AsWritten, n, es);
    if es != [] {
      var front := es[..|es| - 1];
      CopiesBound(n, front, k);
      ReachableInvariant(AsWritten, n, front);
      BoundStep(After(AsWritten, Init(n), front), es[|es| - 1], k, RequeueCount(AsWritten, Init(n), front, k));
    }
    HeldTwice(After(AsWritten, Init(n), es).workers, k);
  }

  // ----- The bound is reached, and every worker can hold the same key -----

  function Repeat(k: Key, m: nat): (r: seq<Key>)
    ensures |r| == m && forall x :: x in r ==> x == k
  {
    seq(m, i => k)
  }

  /** m copies of k in the queue, the first `busy` workers already running it. */
  function Piled(k: Key, n: nat, busy: nat, m: nat, dirty: seq<Key>): State
    requires busy <= n
  {
    State(dirty, Repeat(k, busy), Repeat(k, m), map[], seq(n, i => if i < busy then Running(k) else Idle))
  }

  lemma {:induction false} RequeueCountConcat(v: Variant, s: State, a: seq<Event>, b: seq<Event>, k: Key)
    ensures RequeueCount(v, s, a + b, k) == RequeueCount(v, s, a, k) + RequeueCount(v, After(v, s, a), b, k)
    decreases |b|
  {
    if b == [] {
      assert a + b == a;
    } else {
      var front := b[..|b| - 1];
      RequeueCountConcat(v, s, a, front, k);
      AfterConcat(v, s, a, front);
      assert (a + b)[..|a + b| - 1] == a + front;
    }
  }

  /** The m events of es are a legal run from s to t, without RemoveEntries, that re-queues k r times. */
  ghost predicate Reaches(s: State, es: seq<Event>, m: nat, t: State, k: Key, r: nat) {
    && |es| == m && NoRemove(es) && Legal(AsWritten, s, es) && After(AsWritten, s, es) == t
    && RequeueCount(AsWritten, s, es, k) == r
  }

  lemma {:induction false} ReachesItself(s: State, k: Key)
    ensures Reaches(s, [], 0, s, k, 0)
  {
  }

  /** Extending such a run by one enabled event. */
  lemma {:induction false} Extend(s: State, es: seq<Event>, m: nat, t: State, e: Event, k: Key, r: nat)
    returns (more: seq<Event>)
    requires Reaches(s, es, m, t, k, r) && Enabled(t, e) && !e.RemoveEntries?
    ensures more == es + [e]
    ensures Reaches(s, more, m + 1, Apply(AsWritten, t, e), k, r + (if Requeues(t, e, k) then 1 else 0))
  {
    hide Apply;
    more := es + [e];
    assert more[..|es|] == es;
  }

  lemma {:induction false} PumpSteps(k: Key, n: nat, m: nat)
    requires n >= 1 && m >= 1
    ensures Apply(AsWritten, Piled(k, n, 0, m, [k]), Take(0)) == Piled(k, n, 1, m - 1, [])
    ensures Apply(AsWritten, Piled(k, n, 1, m - 1, []), Process(k)) == Piled(k, n, 1, m - 1, [k])
    ensures Apply(AsWritten, Piled(k, n, 1, m - 1, [k]), Store(0, None)) == Piled(k, n, 0, m, [])
    ensures Apply(AsWritten, Piled(k, n, 0, m, []), Process(k)) == Piled(k, n, 0, m + 1, [k])
    ensures Enabled(Piled(k, n, 0, m, [k]), Take(0)) && Enabled(Piled(k, n, 1, m - 1, []), Process(k))
    ensures Enabled(Piled(k, n, 1, m - 1, [k]), Store(0, None)) && Enabled(Piled(k, n, 0, m, []), Process(k))
    ensures Requeues(Piled(k, n, 1, m - 1, [k]), Store(0, None), k)
    ensures forall t :: !Requeues(t, Take(0), k) && !Requeues(t, Process(k), k)
  {
    assert Repeat(k, m - 1) + [k] == Repeat(k, m);
    assert Repeat(k, m) + [k] == Repeat(k, m + 1);
  }

  /** One round that adds a copy, with a single worker: take, process, store, process. */
  lemma {:induction false} PumpAddsCopy(k: Key, n: nat, m: nat) returns (es: seq<Event>)
    requires n >= 1 && m >= 1
    ensures Reaches(Piled(k, n, 0, m, [k]), es, 4, Piled(k, n, 0, m + 1, [k]), k, 1)
  {
    var s := Piled(k, n, 0, m, [k]);
    PumpSteps(k, n, m);
    hide Apply, Reaches, Piled, Enabled, Requeues;
    ReachesItself(s, k);
    es := Extend(s, [], 0, s, Take(0), k, 0);
    es := Extend(s, es, 1, Piled(k, n, 1, m - 1, []), Process(k), k, 0);
    es := Extend(s, es, 2, Piled(k, n, 1, m - 1, [k]), Store(0, None), k, 0);
    es := Extend(s, es, 3, Piled(k, n, 0, m, []), Process(k), k, 1);
  }

  /** A legal run from the initial state that piles up r + 1 copies of k. */
  ghost predicate PilesUp(k: Key, n: nat, r: nat, es: seq<Event>) {
    Reaches(Init(n), es, 4 * r + 1, Piled(k, n, 0, r + 1, [k]), k, r)
  }

  lemma {:induction false} FirstCopy(k: Key, n: nat)
    ensures PilesUp(k, n, 0, [Process(k)])
  {
    assert Apply(AsWritten, Init(n), Process(k)) == Piled(k, n, 0, 1, [k]) by {
      assert [k] == Repeat(k, 1);
    }
    ReachesItself(Init(n), k);
    var es := Extend(Init(n), [], 0, Init(n), Process(k), k, 0);
    assert es == [Process(k)];
  }

  lemma {:induction false} NextCopy(k: Key, n: nat, r: nat, front: seq<Event>, pump: seq<Event>)
    requires PilesUp(k, n, r, front)
    requires Reaches(Piled(k, n, 0, r + 1, [k]), pump, 4, Piled(k, n, 0, r + 2, [k]), k, 1)
    ensures PilesUp(k, n, r + 1, front + pump)
  {
    hide Apply;
    NoRemoveConcat(front, pump);
    AfterConcat(AsWritten, Init(n), front, pump);
    RequeueCountConcat(AsWritten, Init(n), front, pump, k);
  }

  /** One worker and r re-queues are enough to queue r + 1 copies. */
  lemma {:induction false} PumpMany(k: Key, n: nat, r: nat) returns (es: seq<Event>)
    requires n >= 1
    ensures PilesUp(k, n, r, es)
    decreases r
  {
    hide Apply, After, Legal, RequeueCount, PilesUp;
    if r == 0 {
      FirstCopy(k, n);
      es := [Process(k)];
    } else {
      var front := PumpMany(k, n, r - 1);
      var pump := PumpAddsCopy(k, n, r);
      NextCopy(k, n, r - 1, front, pump);
      es := front + pump;
    }
  }

  /** A legal run without RemoveEntries in which k was re-queued r times and has 1 + r copies. */
  ghost predicate MeetsBound(n: nat, k: Key, r: nat, es: seq<Event>) {
    && NoRemove(es) && Legal(AsWritten, Init(n), es)
    && RequeueCount(AsWritten, Init(n), es, k) == r
    && Copies(After(AsWritten, Init(n), es), k) == 1 + r
  }

  /** CopiesBound cannot be improved: for every number of re-queues some run meets it. */
  lemma {:induction false} CopiesBoundReached(n: nat, k: Key, r: nat)
    requires n >= 1
    ensures exists es :: MeetsBound(n, k, r, es)
  {
    var es := PumpMany(k, n, r);
    RepeatCount(k, r + 1);
    assert MeetsBound(n, k, r, es);
  }

  lemma {:induction false} RepeatCount(k: Key, m: nat)
    ensures multiset(Repeat(k, m))[k] == m
    decreases m
  {
    if m > 0 {
      RepeatCount(k, m - 1);
      assert Repeat(k, m) == Repeat(k, m - 1) + [k];
    }
  }

  lemma {:induction false} TakeOne(k: Key, n: nat, busy: nat, dirty: seq<Key>)
    requires busy < n && (dirty == [] || dirty == [k])
    ensures Enabled(Piled(k, n, busy, n - busy, dirty), Take(busy))
    ensures Apply(AsWritten, Piled(k, n, busy, n - busy, dirty), Take(busy)) == Piled(k, n, busy + 1, n - busy - 1, [])
  {
    assert Repeat(k, n - busy)[1..] == Repeat(k, n - busy - 1);
    assert Repeat(k, busy) + [k] == Repeat(k, busy + 1);
  }

  lemma {:induction false} TakeAll(k: Key, n: nat, busy: nat, dirty: seq<Key>) returns (es: seq<Event>)
    requires busy < n && (dirty == [] || dirty == [k])
    ensures |es| == n - busy && NoRemove(es)
    ensures Legal(AsWritten, Piled(k, n, busy, n - busy, dirty), es)
    ensures After(AsWritten, Piled(k, n, busy, n - busy, dirty), es) == Piled(k, n, n, 0, [])
    decreases n - busy
  {
    hide Apply, After, Legal, Piled, Enabled;
    var s := Piled(k, n, busy, n - busy, dirty);
    TakeOne(k, n, busy, dirty);
    OneEvent(AsWritten, s, Take(busy));
    es := [Take(busy)];
    if busy + 1 < n {
      var rest := TakeAll(k, n, busy + 1, []);
      AfterConcat(AsWritten, s, es, rest);
      NoRemoveConcat(es, rest);
      es := es + rest;
    }
  }

  /** A legal run of 5n - 3 events, no RemoveEntries among them, after which all n workers run k. */
  ghost predicate AllRunSame(n: nat, k: Key, es: seq<Event>) {
    && |es| == 5 * n - 3 && NoRemove(es) && Legal(AsWritten, Init(n), es)
    && |After(AsWritten, Init(n), es).workers| == n
    && forall w :: w in After(AsWritten, Init(n), es).workers ==> w == Running(k)
  }

  lemma {:induction false} PileThenTake(n: nat, k: Key, piled: seq<Event>, takes: seq<Event>)
    requires n >= 1 && PilesUp(k, n, n - 1, piled) && NoRemove(takes) && |takes| == n
    requires Legal(AsWritten, Piled(k, n, 0, n, [k]), takes)
    requires After(AsWritten, Piled(k, n, 0, n, [k]), takes) == Piled(k, n, n, 0, [])
    ensures AllRunSame(n, k, piled + takes)
  {
    hide Apply, RequeueCount;
    AfterConcat(AsWritten, Init(n), piled, takes);
    NoRemoveConcat(piled, takes);
  }

  lemma {:induction false} RunWithAllWorkers(n: nat, k: Key) returns (es: seq<Event>)
    requires n >= 1
    ensures AllRunSame(n, k, es)
  {
    hide Apply, Legal, RequeueCount;
    var piled := PumpMany(k, n, n - 1);
    var takes := TakeAll(k, n, 0, [k]);
    PileThenTake(n, k, piled, takes);
    es := piled + takes;
  }

  /**
   As written, a pool of any size can end up with every worker running one key. For
   two workers the run has seven events: process, take, process, store, process, take, take.
   */
  lemma {:induction false} ExclusionFails(n: nat, k: Key)
    requires n >= 1
    ensures exists es :: AllRunSame(n, k, es)
  {
    var es := RunWithAllWorkers(n, k);
  }

  // ----- Exactly when exclusion holds -----

  /**
   The events that make a second copy of k. Process(k) does while a copy is outstanding
   and k is neither dirty nor in progress: a re-queue by storeResult leaves k so, and so
   does a removal of k that takes it out of inProgress under the worker. RemoveEntries of
   another queued key does when k is last in the queue, for k is copied over that key.
   */
  predicate Duplicates(s: State, e: Event, k: Key) {
    match e
    case Process(x) =>
      x == k && k !in s.dirty && k !in s.inProgress && (k in s.jobQueue || Running(k) in s.workers)
    case RemoveEntries(x) => x != k && x in s.jobQueue && Last(s.jobQueue) == k
    case _ => false
  }

  /** In a run without RemoveEntries only a re-queue by storeResult prepares such an event. */
  lemma {:induction false} DuplicatesIfConsistent(s: State, e: Event, k: Key)
    requires Inv(s) && !e.RemoveEntries?
    ensures Duplicates(s, e, k) <==>
            e == Process(k) && k in s.jobQueue && k !in s.dirty && k !in s.inProgress
  {
    OutstandingMembers(s, k);
    MembersAreCounted(s, k);
  }

  /** No event of the run is of that kind. */
  ghost predicate Guarded(v: Variant, n: nat, es: seq<Event>, k: Key) {
    forall i :: 0 <= i < |es| ==> !Duplicates(At(v, n, es, i), es[i], k)
  }

  ghost predicate OneCopy(v: Variant, n: nat, es: seq<Event>, k: Key) {
    forall i :: 0 <= i <= |es| ==> Outstanding(At(v, n, es, i), k) <= 1
  }

  /** With at most one copy, an event makes a second one exactly when it is of that kind. */
  lemma {:induction false} CopyStep(v: Variant, s: State, e: Event, k: Key)
    requires Outstanding(s, k) <= 1
    ensures Outstanding(Apply(v, s, e), k) <= 1 <==> !Duplicates(s, e, k)
  {
    hide Apply, Outstanding;
    OutstandingMembers(s, k);
    if Enabled(s, e) {
      StepOutstanding(v, s, e, k);
      assert e.RemoveEntries? && e.key in s.jobQueue ==> Last(s.jobQueue) in s.jobQueue;
    } else {
      DisabledStutters(v, s, e);
    }
  }

  /** A run never has two copies of k exactly when no event of that kind occurs in it. */
  lemma {:induction false} OneCopyIffGuarded(v: Variant, n: nat, es: seq<Event>, k: Key)
    ensures OneCopy(v, n, es, k) <==> Guarded(v, n, es, k)
  {
    hide Apply, After, Outstanding, Duplicates;
    if OneCopy(v, n, es, k) {
      forall i | 0 <= i < |es|
        ensures !Duplicates(At(v, n, es, i), es[i], k)
      {
        AtNext(v, n, es, i);
        CopyStep(v, At(v, n, es, i), es[i], k);
      }
    }
    if Guarded(v, n, es, k) {
      GuardedHasOneCopy(v, n, es, k, |es|);
    }
  }

  lemma {:induction false} GuardedHasOneCopy(v: Variant, n: nat, es: seq<Event>, k: Key, m: nat)
    requires Guarded(v, n, es, k) && m <= |es|
    ensures forall i :: 0 <= i <= m ==> Outstanding(At(v, n, es, i), k) <= 1
    decreases m
  {
    hide Apply, After, Outstanding, Duplicates;
    if m == 0 {
      AtStart(v, n, es);
      NothingOutstanding(n, k);
    } else {
      GuardedHasOneCopy(v, n, es, k, m - 1);
      AtNext(v, n, es, m - 1);
      CopyStep(v, At(v, n, es, m - 1), es[m - 1], k);
    }
  }

  lemma {:induction false} NothingOutstanding(n: nat, k: Key)
    ensures Outstanding(Init(n), k) == 0
  {
    InitHoldsNothing(n);
  }

  /** Take and Store move copies of k around but never add one. */
  lemma {:induction false} WorkersAddNoCopy(v: Variant, s: State, ws: seq<Event>, k: Key)
    requires WorkersOnly(ws)
    ensures Outstanding(After(v, s, ws), k) <= Outstanding(s, k)
  {
    hide Apply, Outstanding;
    if ws != [] {
      var front := ws[..|ws| - 1];
      var e := ws[|ws| - 1];
      assert e in ws;
      WorkersAddNoCopy(v, s, front, k);
      var t := After(v, s, front);
      if Enabled(t, e) {
        StepOutstanding(v, t, e, k);
      } else {
        DisabledStutters(v, t, e);
      }
    }
  }

  /**
   A schedule of takes and stores that ends with w just having taken k. It moves no other
   worker and neither adds nor loses a copy of k; the take removes k once from dirty.
   */
  ghost predicate Acquires(v: Variant, s: State, w: nat, k: Key, ws: seq<Event>) {
    && WorkersOnly(ws) && Legal(v, s, ws)
    && AcquiredIn(s, After(v, s, ws), w, k)
  }

  ghost predicate AcquiredIn(s: State, t: State, w: nat, k: Key) {
    && w < |s.workers| && t.workers == s.workers[w := Running(k)]
    && Outstanding(t, k) == Outstanding(s, k)
    && Dirty(t, k) == if Dirty(s, k) == 0 then 0 else Dirty(s, k) - 1
  }

  lemma {:induction false} OneEvent(v: Variant, s: State, e: Event)
    ensures After(v, s, [e]) == Apply(v, s, e)
    ensures Legal(v, s, [e]) <==> Enabled(s, e)
  {
    AfterSnoc(v, s, [], e);
    assert [] + [e] == [e];
  }

  /** The event e leads from s to t, where k is one step closer to w. */
  ghost predicate Closer(s: State, t: State, w: nat, k: Key) {
    && w < |s.workers| && |t.workers| == |s.workers|
    && t.workers[w := Running(k)] == s.workers[w := Running(k)]
    && Outstanding(t, k) == Outstanding(s, k) && Dirty(t, k) == Dirty(s, k)
  }

  lemma {:induction false} AcquireAfter(v: Variant, s: State, e: Event, w: nat, k: Key, rest: seq<Event>)
    requires (e.Take? || e.Store?) && Enabled(s, e)
    requires Closer(s, Apply(v, s, e), w, k) && Acquires(v, Apply(v, s, e), w, k, rest)
    ensures Acquires(v, s, w, k, [e] + rest)
  {
    hide Apply, After, Legal, Outstanding, Enabled;
    OneEvent(v, s, e);
    AfterConcat(v, s, [e], rest);
  }

  /** Storing another key frees the worker and leaves k where it is in the queue. */
  lemma {:induction false} StoreKeepsPlace(v: Variant, s: State, w: nat, k: Key)
    requires w < |s.workers| && s.workers[w].Running? && s.workers[w] != Running(k) && k in s.jobQueue
    ensures var t := Apply(v, s, Store(w, None));
            && Closer(s, t, w, k) && t.workers[w] == Idle
            && k in t.jobQueue && IndexOf(t.jobQueue, k) == IndexOf(s.jobQueue, k)
  {
    hide IndexOf, RemoveFirst, Outstanding;
    StepOutstanding(v, s, Store(w, None), k);
    StepDirty(v, s, Store(w, None), k);
    IndexOfAppend(s.jobQueue, [s.workers[w].key], k);
  }

  /** Taking moves k one place forward, or hands it to the worker. */
  lemma {:induction false} TakeMovesForward(v: Variant, s: State, w: nat, k: Key)
    requires w < |s.workers| && s.workers[w].Idle? && k in s.jobQueue
    ensures var t := Apply(v, s, Take(w));
            if s.jobQueue[0] == k then AcquiredIn(s, t, w, k)
            else && Closer(s, t, w, k) && t.workers[w] == Running(s.jobQueue[0])
                 && k in t.jobQueue && IndexOf(t.jobQueue, k) == IndexOf(s.jobQueue, k) - 1
  {
    hide IndexOf, RemoveFirst, Outstanding;
    StepOutstanding(v, s, Take(w), k);
    StepDirty(v, s, Take(w), k);
    if s.jobQueue[0] != k {
      IndexOfTail(s.jobQueue, k);
    }
  }

  /** Any worker can reach a queued key by serving the keys in front of it. */
  lemma {:induction false} Acquire(v: Variant, s: State, w: nat, k: Key) returns (ws: seq<Event>)
    requires w < |s.workers| && s.workers[w] != Running(k) && k in s.jobQueue
    ensures Acquires(v, s, w, k, ws)
    decreases IndexOf(s.jobQueue, k), s.workers[w].Running?
  {
    hide Apply, IndexOf, Outstanding;
    var e := if s.workers[w].Running? then Store(w, None) else Take(w);
    OneEvent(v, s, e);
    if s.workers[w].Running? {
      StoreKeepsPlace(v, s, w, k);
    } else {
      TakeMovesForward(v, s, w, k);
    }
    if e.Take? && s.jobQueue[0] == k {
      ws := [e];
    } else {
      var rest := Acquire(v, Apply(v, s, e), w, k);
      AcquireAfter(v, s, e, w, k, rest);
      ws := [e] + rest;
    }
  }

  /** A legal schedule of takes and stores after which two workers run k at once. */
  ghost predicate LeadsToParallel(v: Variant, s: State, k: Key, ws: seq<Event>) {
    WorkersOnly(ws) && Legal(v, s, ws) && InParallel(After(v, s, ws), k)
  }

  lemma {:induction false} RunningIsActive(s: State, k: Key)
    requires Inv(s)
    ensures Active(s, k) > 0 <==> exists w :: 0 <= w < |s.workers| && s.workers[w] == Running(k)
    ensures Active(s, k) >= 2 <==> InParallel(s, k)
  {
    HeldMember(s.workers, k);
    HeldTwice(s.workers, k);
  }

  /** A copy in the queue joins the worker a that already runs k. */
  lemma {:induction false} JoinParallel(v: Variant, s: State, k: Key, a: nat) returns (ws: seq<Event>)
    requires |s.workers| >= 2 && k in s.jobQueue && a < |s.workers| && s.workers[a] == Running(k)
    ensures LeadsToParallel(v, s, k, ws)
  {
    hide Apply, After, Legal, Outstanding;
    var b := if a == 0 then 1 else 0;
    if s.workers[b] == Running(k) {
      ws := [];
      EmptyRun(v, s);
      assert s.workers[if a == 0 then a else b] == Running(k) && s.workers[if a == 0 then b else a] == Running(k);
    } else {
      ws := Acquire(v, s, b, k);
      var t := After(v, s, ws);
      assert t.workers[a] == Running(k) && t.workers[b] == Running(k);
    }
  }

  lemma {:induction false} TwoCopiesMeet(v: Variant, s: State, k: Key) returns (ws: seq<Event>)
    requires |s.workers| >= 2 && Outstanding(s, k) >= 2
    ensures LeadsToParallel(v, s, k, ws)
  {
    hide Apply, After, Legal, Held;
    EmptyRun(v, s);
    OutstandingMembers(s, k);
    MembersAreCounted(s, k);
    if InParallel(s, k) {
      ws := [];
    } else if Running(k) in s.workers {
      var a :| 0 <= a < |s.workers| && s.workers[a] == Running(k);
      ws := JoinParallel(v, s, k, a);
    } else {
      var first := Acquire(v, s, 0, k);
      var t := After(v, s, first);
      HeldUpdate(s.workers, 0, Running(k));
      MembersAreCounted(t, k);
      assert t.workers[0] == Running(k) && k in t.jobQueue;
      var second := JoinParallel(v, t, k, 0);
      AfterConcat(v, s, first, second);
      ws := first + second;
    }
  }

  /**
   With two workers or more, some schedule of takes and stores alone makes two of them
   run k at once exactly when two copies of k are outstanding, in any state whatever.
   */
  lemma {:induction false} ParallelIffTwoCopies(v: Variant, s: State, k: Key)
    requires |s.workers| >= 2
    ensures (exists ws :: LeadsToParallel(v, s, k, ws)) <==> Outstanding(s, k) >= 2
  {
    hide Apply, After, Legal, Held;
    if Outstanding(s, k) >= 2 {
      var ws := TwoCopiesMeet(v, s, k);
    }
    forall ws | LeadsToParallel(v, s, k, ws)
      ensures Outstanding(s, k) >= 2
    {
      WorkersAddNoCopy(v, s, ws, k);
      OutstandingMembers(After(v, s, ws), k);
    }
  }

  /** No schedule of the workers, at any point of the run, makes two of them run k at once. */
  ghost predicate NeverParallel(v: Variant, n: nat, es: seq<Event>, k: Key) {
    forall i, ws :: 0 <= i <= |es| ==> !LeadsToParallel(v, At(v, n, es, i), k, ws)
  }

  /**
   Exactly when the promise holds, as written and in the other variant, over all runs,
   RemoveEntries included: a run of two workers or more keeps k exclusive under every
   schedule if and only if no event of it duplicates k.
   */
  lemma {:induction false} ExclusiveIffGuarded(v: Variant, n: nat, es: seq<Event>, k: Key)
    requires n >= 2
    ensures NeverParallel(v, n, es, k) <==> Guarded(v, n, es, k)
  {
    hide Apply, After, Legal, Outstanding, Duplicates;
    OneCopyIffGuarded(v, n, es, k);
    forall i | 0 <= i <= |es|
      ensures (exists ws :: LeadsToParallel(v, At(v, n, es, i), k, ws)) <==> Outstanding(At(v, n, es, i), k) >= 2
    {
      KeepsPool(v, Init(n), es[..i]);
      ParallelIffTwoCopies(v, At(v, n, es, i), k);
    }
  }
}

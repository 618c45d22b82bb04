/**
 What every event except RemoveEntries keeps, for any number of workers and for
 both variants of storeResult, and what each event does to the number of copies
 of a key.
 */
module ExecutorInvariants {
  import opened Prelude
  import opened Slices
  import opened Executor

  ghost function HeldBy(w: Worker): multiset<Key> {
    match w
    case Idle => multiset{}
    case Running(k) => multiset{k}
  }

  /** The keys held by workers between take and storeResult, with multiplicity. */
  ghost function Held(ws: seq<Worker>): multiset<Key> {
    if ws == [] then multiset{}
    else Held(ws[..|ws| - 1]) + HeldBy(ws[|ws| - 1])
  }

  lemma {:induction false} HeldUpdateCount(ws: seq<Worker>, w: nat, x: Worker, k: Key)
    requires w < |ws|
    ensures Held(ws)[k] >= HeldBy(ws[w])[k]
    ensures Held(ws[w := x])[k] == Held(ws)[k] - HeldBy(ws[w])[k] + HeldBy(x)[k]
  {
    var last := |ws| - 1;
    if w == last {
      assert ws[w := x][..last] == ws[..last];
    } else {
      assert ws[w := x][..last] == ws[..last][w := x];
      HeldUpdateCount(ws[..last], w, x, k);
    }
  }

  lemma {:induction false} HeldUpdate(ws: seq<Worker>, w: nat, x: Worker)
    requires w < |ws|
    ensures HeldBy(ws[w]) <= Held(ws)
    ensures Held(ws[w := x]) == Held(ws) - HeldBy(ws[w]) + HeldBy(x)
  {
    forall k
      ensures Held(ws)[k] >= HeldBy(ws[w])[k]
      ensures Held(ws[w := x])[k] == Held(ws)[k] - HeldBy(ws[w])[k] + HeldBy(x)[k]
    {
      HeldUpdateCount(ws, w, x, k);
    }
    hide Held, HeldBy;
  }

  lemma {:induction false} HeldMember(ws: seq<Worker>, k: Key)
    ensures k in Held(ws) <==> exists w :: 0 <= w < |ws| && ws[w] == Running(k)
  {
    if ws != [] {
      var front := ws[..|ws| - 1];
      HeldMember(front, k);
      if w :| 0 <= w < |front| && front[w] == Running(k) {
        assert ws[w] == Running(k);
      }
      forall w | 0 <= w < |ws| && ws[w] == Running(k)
        ensures k in Held(ws)
      {
        assert w < |front| ==> front[w] == Running(k);
      }
    }
  }

  lemma {:induction false} HeldAtMostWorkers(ws: seq<Worker>)
    ensures |Held(ws)| <= |ws|
  {
    if ws != [] {
      HeldAtMostWorkers(ws[..|ws| - 1]);
    }
  }

  lemma {:induction false} InitHoldsNothing(n: nat)
    ensures Held(Init(n).workers) == multiset{}
    decreases n
  {
    if n > 0 {
      assert Init(n).workers[..n - 1] == Init(n - 1).workers;
      InitHoldsNothing(n - 1);
    }
  }

  /** Two distinct workers run k at the same time. */
  ghost predicate InParallel(s: State, k: Key) {
    exists a, b :: 0 <= a < b < |s.workers| && s.workers[a] == Running(k) && s.workers[b] == Running(k)
  }

  lemma {:induction false} HeldTwice(ws: seq<Worker>, k: Key)
    ensures Held(ws)[k] >= 2 <==>
            exists a, b :: 0 <= a < b < |ws| && ws[a] == Running(k) && ws[b] == Running(k)
  {
    if ws != [] {
      var last := |ws| - 1;
      var front := ws[..last];
      HeldTwice(front, k);
      HeldMember(front, k);
      assert forall w :: 0 <= w < last ==> front[w] == ws[w];
      if Held(ws)[k] >= 2 && Held(front)[k] < 2 {
        var a :| 0 <= a < |front| && front[a] == Running(k);
        assert ws[a] == Running(k) && ws[last] == Running(k);
      }
      if a, b :| 0 <= a < b < |ws| && ws[a] == Running(k) && ws[b] == Running(k) {
        assert front[a] == Running(k);
        assert b < last ==> front[b] == Running(k);
      }
    }
  }

  ghost function Queued(s: State, k: Key): nat { multiset(s.jobQueue)[k] }

  ghost function Active(s: State, k: Key): nat { multiset(s.inProgress)[k] }

  /** How many times k is waiting in the queue or in progress. */
  ghost function Copies(s: State, k: Key): nat { Queued(s, k) + Active(s, k) }

  /**
   How many copies of k are waiting in the queue or held by a worker. In a consistent
   state these are the Copies; unlike them, they are what the workers can still run
   whatever RemoveEntries has done to inProgress.
   */
  ghost function Outstanding(s: State, k: Key): nat { Queued(s, k) + Held(s.workers)[k] }

  ghost predicate Inv(s: State) {
    && NoDuplicates(s.dirty)
    && (forall k :: k in s.dirty ==> k in s.jobQueue || k in s.inProgress)
    && multiset(s.inProgress) == Held(s.workers)
    && (forall k :: k in s.results ==> k !in s.dirty)
  }

  /** 1 when k is dirty; the invariant keeps it from being more. */
  ghost function Dirty(s: State, k: Key): nat { multiset(s.dirty)[k] }

  lemma {:induction false} MembersAreCounted(s: State, k: Key)
    ensures k in s.jobQueue <==> Queued(s, k) > 0
    ensures k in s.inProgress <==> Active(s, k) > 0
    ensures k in s.dirty <==> Dirty(s, k) > 0
  {
  }

  lemma {:induction false} ProcessCounts(s: State, k: Key, x: Key)
    ensures var t := ProcessStep(s, k);
            && t.inProgress == s.inProgress && t.workers == s.workers
            && Queued(t, x) == Queued(s, x) + (if x == k && k !in s.dirty && k !in s.inProgress then 1 else 0)
            && multiset(t.dirty)[x] == multiset(s.dirty)[x] + (if x == k && k !in s.dirty then 1 else 0)
  {
  }

  lemma {:induction false} TakeCounts(s: State, w: nat, x: Key)
    requires w < |s.workers| && s.jobQueue != []
    ensures var t := TakeStep(s, w);
            var k := s.jobQueue[0];
            && Queued(s, x) == Queued(t, x) + (if x == k then 1 else 0)
            && Active(t, x) == Active(s, x) + (if x == k then 1 else 0)
            && multiset(t.dirty)[x] ==
               (if x == k && k in s.dirty then multiset(s.dirty)[x] - 1 else multiset(s.dirty)[x])
  {
    assert s.jobQueue == [s.jobQueue[0]] + s.jobQueue[1..];
  }

  lemma {:induction false} StoreCounts(v: Variant, s: State, w: nat, err: Option<Error>, x: Key)
    requires w < |s.workers| && s.workers[w].Running? && multiset(s.inProgress) == Held(s.workers)
    ensures var t := StoreStep(v, s, w, err);
            var k := s.workers[w].key;
            && Active(s, k) >= 1
            && Active(t, x) == Active(s, x) - (if x == k then 1 else 0)
            && Queued(t, x) == Queued(s, x) + (if x == k && k in s.dirty then 1 else 0)
            && multiset(t.dirty)[x] ==
               (if v.AsWritten? && x == k && k in s.dirty then multiset(s.dirty)[x] - 1 else multiset(s.dirty)[x])
  {
    hide IndexOf, Held;
    HeldUpdate(s.workers, w, Idle);
  }

  lemma {:induction false} InvProcess(s: State, k: Key)
    requires Inv(s)
    ensures Inv(ProcessStep(s, k))
  {
    var t := ProcessStep(s, k);
    forall x
      ensures multiset(t.dirty)[x] <= 1
      ensures x in t.dirty ==> x in t.jobQueue || x in t.inProgress
    {
      ProcessCounts(s, k, x);
      MembersAreCounted(s, x);
      MembersAreCounted(t, x);
    }
  }

  lemma {:induction false} InvTake(s: State, w: nat)
    requires Inv(s) && w < |s.workers| && s.workers[w].Idle? && s.jobQueue != []
    ensures Inv(TakeStep(s, w))
  {
    hide RemoveFirst, Held, Queued, Active;
    var t := TakeStep(s, w);
    HeldUpdate(s.workers, w, Running(s.jobQueue[0]));
    forall x
      ensures multiset(t.dirty)[x] <= 1
      ensures x in t.dirty ==> x in s.dirty && (x in t.jobQueue || x in t.inProgress)
    {
      TakeCounts(s, w, x);
      MembersAreCounted(s, x);
      MembersAreCounted(t, x);
    }
  }

  lemma {:induction false} InvStore(v: Variant, s: State, w: nat, err: Option<Error>)
    requires Inv(s) && w < |s.workers| && s.workers[w].Running?
    ensures Inv(StoreStep(v, s, w, err))
  {
    hide RemoveFirst, Held, Queued, Active;
    var t := StoreStep(v, s, w, err);
    HeldUpdate(s.workers, w, Idle);
    forall x
      ensures multiset(t.dirty)[x] <= 1
      ensures x in t.dirty ==> x in s.dirty && (x in t.jobQueue || x in t.inProgress)
    {
      StoreCounts(v, s, w, err, x);
      MembersAreCounted(s, x);
      MembersAreCounted(t, x);
    }
  }

  /** Every event except RemoveEntries keeps the invariant. */
  lemma {:induction false} InvStep(v: Variant, s: State, e: Event)
    requires Inv(s) && !e.RemoveEntries?
    ensures Inv(Apply(v, s, e))
  {
    if Enabled(s, e) {
      match e
      case Process(k) => InvProcess(s, k);
      case Take(w) => InvTake(s, w);
      case Store(w, err) => InvStore(v, s, w, err);
      case GetResult(k) =>
    }
  }

  /** Whether e is a Process of k, a take of k or a store of k. */
  predicate Concerns(s: State, e: Event, k: Key)
    requires Enabled(s, e)
  {
    match e
    case Process(x) => x == k
    case Take(w) => s.jobQueue[0] == k
    case Store(w, _) => s.workers[w] == Running(k)
    case _ => false
  }

  /** What an event does to the three places where k can be. */
  lemma {:induction false} StepCounts(v: Variant, s: State, e: Event, k: Key)
    requires Inv(s) && Enabled(s, e) && !e.RemoveEntries?
    ensures var t := Apply(v, s, e);
            if !Concerns(s, e, k) then
              Dirty(t, k) == Dirty(s, k) && Queued(t, k) == Queued(s, k) && Active(t, k) == Active(s, k)
            else if e.Process? then
              && Dirty(t, k) == 1 && Active(t, k) == Active(s, k)
              && Queued(t, k) == Queued(s, k) + (if Dirty(s, k) == 0 && Active(s, k) == 0 then 1 else 0)
            else if e.Take? then
              Dirty(t, k) == 0 && Queued(t, k) + 1 == Queued(s, k) && Active(t, k) == Active(s, k) + 1
            else
              && Active(t, k) + 1 == Active(s, k) && Queued(t, k) == Queued(s, k) + Dirty(s, k)
              && Dirty(t, k) == if v.AsWritten? then 0 else Dirty(s, k)
    ensures Dirty(s, k) <= 1
  {
    hide RemoveFirst, IndexOf, Held;
    MembersAreCounted(s, k);
    match e
    case Process(x) => ProcessCounts(s, x, k);
    case Take(w) => TakeCounts(s, w, k);
    case Store(w, err) => StoreCounts(v, s, w, err, k);
    case GetResult(_) =>
  }

  // ----- What holds of every event and every state -----

  /** What an enabled event adds to the outstanding copies of k. */
  function Change(s: State, e: Event, k: Key): int
    requires Enabled(s, e)
  {
    match e
    case Process(x) => if x == k && k !in s.dirty && k !in s.inProgress then 1 else 0
    case Store(w, _) => if s.workers[w] == Running(k) && k !in s.dirty then -1 else 0
    case RemoveEntries(x) =>
      if x !in s.jobQueue then 0
      else (if Last(s.jobQueue) == k then 1 else 0) - (if x == k then 1 else 0)
    case _ => 0
  }

  lemma {:induction false} StoreOutstanding(v: Variant, s: State, w: nat, err: Option<Error>, k: Key)
    requires w < |s.workers| && s.workers[w].Running?
    ensures Outstanding(StoreStep(v, s, w, err), k) == Outstanding(s, k) + Change(s, Store(w, err), k)
  {
    hide RemoveFirst, Held;
    HeldUpdateCount(s.workers, w, Idle, k);
  }

  /** Whether the state is consistent or not, an event changes the outstanding copies by just that. */
  lemma {:induction false} StepOutstanding(v: Variant, s: State, e: Event, k: Key)
    requires Enabled(s, e)
    ensures Outstanding(Apply(v, s, e), k) == Outstanding(s, k) + Change(s, e, k)
  {
    hide RemoveFirst, OverwriteFirst, StoreStep, Held;
    match e
    case Process(x) => ProcessCounts(s, x, k);
    case Take(w) =>
      TakeCounts(s, w, k);
      HeldUpdateCount(s.workers, w, Running(s.jobQueue[0]), k);
    case Store(w, err) => StoreOutstanding(v, s, w, err, k);
    case GetResult(_) =>
    case RemoveEntries(x) => OverwriteCount(s.jobQueue, x, k);
  }

  /** What an enabled event does to the number of times k is listed in dirty. */
  lemma {:induction false} StepDirty(v: Variant, s: State, e: Event, k: Key)
    requires Enabled(s, e) && (e.Take? || e.Store?)
    ensures Dirty(Apply(v, s, e), k) ==
            if Dirty(s, k) == 0 then 0
            else if e.Take? && s.jobQueue[0] == k then Dirty(s, k) - 1
            else if e.Store? && s.workers[e.worker] == Running(k) && v.AsWritten? then Dirty(s, k) - 1
            else Dirty(s, k)
  {
    hide RemoveFirst, IndexOf;
    MembersAreCounted(s, k);
  }

  /** Outstanding copies are queued or held. */
  lemma {:induction false} OutstandingMembers(s: State, k: Key)
    ensures Running(k) in s.workers <==> Held(s.workers)[k] > 0
    ensures k in s.jobQueue || Running(k) in s.workers <==> Outstanding(s, k) > 0
    ensures InParallel(s, k) <==> Held(s.workers)[k] >= 2
  {
    hide Held;
    HeldMember(s.workers, k);
    HeldTwice(s.workers, k);
    MembersAreCounted(s, k);
  }

  /** k is listed, held and answered in t as it is in s. */
  predicate SameFor(s: State, t: State, k: Key) {
    && (k in t.dirty <==> k in s.dirty)
    && (k in t.inProgress <==> k in s.inProgress)
    && (k in t.jobQueue <==> k in s.jobQueue)
    && (Running(k) in t.workers <==> Running(k) in s.workers)
    && (k in t.results <==> k in s.results)
    && (k in t.results ==> t.results[k] == s.results[k])
  }

  lemma {:induction false} TakeOfOther(s: State, w: nat, k: Key)
    requires w < |s.workers| && s.workers[w].Idle? && s.jobQueue != [] && s.jobQueue[0] != k
    ensures SameFor(s, TakeStep(s, w), k)
  {
    hide RemoveFirst;
    var x := s.jobQueue[0];
    RemoveOther(s.dirty, x, k);
    assert s.jobQueue == [x] + s.jobQueue[1..];
    WorkerChanges(s.workers, w, Running(x), k);
  }

  lemma {:induction false} StoreOfOther(v: Variant, s: State, w: nat, err: Option<Error>, k: Key)
    requires w < |s.workers| && s.workers[w].Running? && s.workers[w].key != k
    ensures SameFor(s, StoreStep(v, s, w, err), k)
  {
    hide RemoveFirst;
    var x := s.workers[w].key;
    var t := StoreStep(v, s, w, err);
    WorkerChanges(s.workers, w, Idle, k);
    RemoveOther(s.inProgress, x, k);
    if x in s.dirty {
      RemoveOther(s.dirty, x, k);
      assert k in t.dirty <==> k in s.dirty;
      assert t.jobQueue == s.jobQueue + [x];
    } else {
      assert t.dirty == s.dirty && t.jobQueue == s.jobQueue;
    }
  }

  lemma {:induction false} RemovalOfOther(s: State, x: Key, k: Key)
    requires x != k
    ensures SameFor(s, RemoveEntriesStep(s, x), k)
  {
    hide OverwriteFirst;
    OverwriteCount(s.dirty, x, k);
    OverwriteCount(s.inProgress, x, k);
    OverwriteCount(s.jobQueue, x, k);
  }

  /** An event that is not about k leaves everything about k as it was. */
  lemma {:induction false} Unconcerned(v: Variant, s: State, e: Event, k: Key)
    requires Enabled(s, e) && !Concerns(s, e, k) && e != RemoveEntries(k)
    ensures if e == GetResult(k) then Apply(v, s, e) == s.(results := s.results - {k})
            else SameFor(s, Apply(v, s, e), k)
  {
    hide TakeStep, StoreStep, RemoveEntriesStep;
    match e
    case Process(x) =>
    case Take(w) => TakeOfOther(s, w, k);
    case Store(w, err) => StoreOfOther(v, s, w, err, k);
    case GetResult(_) =>
    case RemoveEntries(x) => RemovalOfOther(s, x, k);
  }

  lemma {:induction false} WorkerChanges(ws: seq<Worker>, w: nat, x: Worker, k: Key)
    requires w < |ws| && ws[w] != Running(k) && x != Running(k)
    ensures Running(k) in ws[w := x] <==> Running(k) in ws
  {
    var after := ws[w := x];
    assert forall i :: 0 <= i < |ws| && i != w ==> after[i] == ws[i];
  }

  lemma {:induction false} InvOutstanding(s: State, k: Key)
    requires Inv(s)
    ensures Outstanding(s, k) == Copies(s, k)
  {
  }

  lemma {:induction false} KeepsPool(v: Variant, s: State, es: seq<Event>)
    ensures |After(v, s, es).workers| == |s.workers|
  {
    if es != [] {
      KeepsPool(v, s, es[..|es| - 1]);
    }
  }

  // ----- Runs without RemoveEntries -----

  lemma {:induction false} InvAfter(v: Variant, s: State, es: seq<Event>)
    requires Inv(s) && NoRemove(es)
    ensures Inv(After(v, s, es)) && |After(v, s, es).workers| == |s.workers|
  {
    if es != [] {
      InvAfter(v, s, es[..|es| - 1]);
      InvStep(v, After(v, s, es[..|es| - 1]), es[|es| - 1]);
    }
  }

  lemma {:induction false} InvInit(n: nat)
    ensures Inv(Init(n))
  {
    InitHoldsNothing(n);
  }

  /**
   In every run without RemoveEntries, whatever the number of workers: inProgress
   is exactly the multiset of keys the workers hold, so it never outgrows the pool
   and storeResult finds its key; dirty has no duplicates; every dirty key is
   queued or in progress; no key is dirty and has a stored result.
   */
  lemma {:induction false} ReachableInvariant(v: Variant, n: nat, es: seq<Event>)
    requires NoRemove(es)
    ensures var s := After(v, Init(n), es);
            && Inv(s) && |s.workers| == n
            && |s.inProgress| <= n
            && (forall w :: 0 <= w < n && s.workers[w].Running? ==> s.workers[w].key in s.inProgress)
  {
    InvInit(n);
    InvAfter(v, Init(n), es);
    var s := After(v, Init(n), es);
    HeldAtMostWorkers(s.workers);
    assert |multiset(s.inProgress)| == |s.inProgress|;
    forall w | 0 <= w < n && s.workers[w].Running?
      ensures s.workers[w].key in s.inProgress
    {
      HeldMember(s.workers, s.workers[w].key);
      assert s.workers[w].key in multiset(s.inProgress);
    }
  }

  /** Unavailable is answered exactly when nothing about k is known anywhere. */
  lemma {:induction false} UnavailableMeansUnknown(v: Variant, n: nat, es: seq<Event>, k: Key)
    requires NoRemove(es)
    ensures var s := After(v, Init(n), es);
            StatusOf(s, k) == Unavailable <==>
            k !in s.results && k !in s.dirty && k !in s.jobQueue && k !in s.inProgress &&
            Running(k) !in s.workers
  {
    ReachableInvariant(v, n, es);
  }
}

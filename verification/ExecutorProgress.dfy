/**
 Progress: once no more requests arrive, every schedule of the workers ends, within
 a bound read off the state, with nothing dirty, queued or in progress, and every
 request made before has been given a run of its own.
 */
module ExecutorProgress {
  import opened Prelude
  import opened Slices
  import opened Executor
  import opened ExecutorInvariants
  import opened ExecutorExclusion
  import opened ExecutorHistory
  import opened ExecutorRepair

  /** An upper bound on the takes and stores still to come. */
  ghost function Work(v: Variant, s: State): nat {
    |s.inProgress| + 2 * |s.dirty| + (if v.AsWritten? then 2 * |s.jobQueue| else 0)
  }

  /** Reachable states satisfy this: KeepDirty queues only dirty keys. */
  ghost predicate Workable(v: Variant, s: State) {
    Inv(s) && (v.KeepDirty? ==> forall k :: Settles(s, k))
  }

  predicate Quiescent(s: State) {
    s.dirty == [] && s.jobQueue == [] && s.inProgress == []
  }

  /** A worker can take or store. */
  ghost predicate WorkLeft(s: State) {
    exists w: nat :: Enabled(s, Take(w)) || Enabled(s, Store(w, None))
  }

  lemma {:induction false} ReachableIsWorkable(v: Variant, n: nat, es: seq<Event>)
    requires NoRemove(es)
    ensures Workable(v, After(v, Init(n), es))
  {
    hide Apply, After, Inv;
    ReachableInvariant(v, n, es);
    if v.KeepDirty? {
      forall k
        ensures Settles(After(v, Init(n), es), k)
      {
        KeepDirtySettles(n, es, k);
      }
    }
  }

  lemma {:induction false} TakeWorks(v: Variant, s: State, w: nat)
    requires Workable(v, s) && Enabled(s, Take(w))
    ensures Work(v, Apply(v, s, Take(w))) < Work(v, s)
  {
    hide IndexOf, Held;
    var k := s.jobQueue[0];
    MembersAreCounted(s, k);
    assert v.KeepDirty? ==> Settles(s, k);
  }

  lemma {:induction false} StoreWorks(v: Variant, s: State, w: nat, err: Option<Error>)
    requires Workable(v, s) && Enabled(s, Store(w, err))
    ensures Work(v, Apply(v, s, Store(w, err))) < Work(v, s)
  {
    hide IndexOf, Held;
    var k := s.workers[w].key;
    RunningIsActive(s, k);
    MembersAreCounted(s, k);
  }

  lemma {:induction false} WorkableStep(v: Variant, s: State, e: Event)
    requires Workable(v, s) && !e.RemoveEntries?
    ensures Workable(v, Apply(v, s, e))
  {
    hide Apply, Inv;
    InvStep(v, s, e);
    if v.KeepDirty? {
      forall k
        ensures Settles(Apply(v, s, e), k)
      {
        KeepDirtyStep(s, e, k);
      }
    }
  }

  /** Every take and every store uses up work, so no schedule is longer than the work at hand. */
  lemma {:induction false} SchedulesEnd(v: Variant, s: State, ws: seq<Event>)
    requires Workable(v, s) && WorkersOnly(ws) && Legal(v, s, ws)
    ensures Workable(v, After(v, s, ws))
    ensures |ws| + Work(v, After(v, s, ws)) <= Work(v, s)
  {
    hide Apply, Workable, Work;
    if ws != [] {
      var front := ws[..|ws| - 1];
      var e := ws[|ws| - 1];
      assert e in ws;
      SchedulesEnd(v, s, front);
      var t := After(v, s, front);
      WorkableStep(v, t, e);
      match e
      case Take(w) => TakeWorks(v, t, w);
      case Store(w, err) => StoreWorks(v, t, w, err);
    }
  }

  /** With a worker in the pool, a state has work left exactly when it is not quiescent. */
  lemma {:induction false} WorkLeftIffNotQuiescent(s: State)
    requires Inv(s) && |s.workers| >= 1
    ensures WorkLeft(s) <==> !Quiescent(s)
  {
    hide Held;
    assert s.dirty != [] ==> s.dirty[0] in s.jobQueue || s.dirty[0] in s.inProgress;
    if s.inProgress != [] {
      RunningIsActive(s, s.inProgress[0]);
      MembersAreCounted(s, s.inProgress[0]);
      var w :| 0 <= w < |s.workers| && s.workers[w] == Running(s.inProgress[0]);
      assert Enabled(s, Store(w, None));
    } else if s.jobQueue != [] {
      assert Enabled(s, Take(0)) || Enabled(s, Store(0, None));
    } else {
      forall w | 0 <= w < |s.workers| && s.workers[w].Running?
        ensures s.workers[w].key in s.inProgress
      {
        RunningIsActive(s, s.workers[w].key);
        MembersAreCounted(s, s.workers[w].key);
      }
    }
  }

  /** ws is a schedule of takes and stores that cannot be continued. */
  ghost predicate Exhausts(v: Variant, s: State, ws: seq<Event>) {
    WorkersOnly(ws) && Legal(v, s, ws) && !WorkLeft(After(v, s, ws))
  }

  /**
   Every request is served. Let the run es make the call Process(k) at event i and
   let no request follow it. Then the workers can go on for at most Work events, some
   schedule goes on until nothing is left, and each that does ends quiescent and has
   started a run of k after event i.
   */
  lemma {:induction false} RequestIsServed(v: Variant, n: nat, es: seq<Event>, i: nat, k: Key, ws: seq<Event>)
    returns (j: nat)
    requires n >= 1 && NoRemove(es) && i < |es| && es[i] == Process(k)
    requires Exhausts(v, At(v, n, es, |es|), ws)
    ensures |ws| <= Work(v, At(v, n, es, |es|))
    ensures Quiescent(At(v, n, es + ws, |es + ws|))
    ensures i < j < |es + ws| && Starts(v, n, es + ws, j, k)
  {
    hide Apply, After, Legal, Work, Workable, WorkLeft;
    var s := At(v, n, es, |es|);
    var run := es + ws;
    assert es[..|es|] == es && run[..|run|] == run;
    ReachableIsWorkable(v, n, es);
    SchedulesEnd(v, s, ws);
    AfterConcat(v, Init(n), es, ws);
    NoRemoveConcat(es, ws);
    ReachableInvariant(v, n, run);
    WorkLeftIffNotQuiescent(At(v, n, run, |run|));
    NoRequestLost(v, n, run, i, k);
    j :| i < j < |run| && Starts(v, n, run, j, k);
  }

  // ----- Any state, RemoveEntries included -----

  /** What a worker still has to do: its store, and if its key is dirty a re-queue and another run. */
  ghost function WorkerLoad(w: Worker, dirty: seq<Key>): nat {
    match w
    case Idle => 0
    case Running(k) => if k in dirty then 3 else 1
  }

  ghost function PoolLoad(ws: seq<Worker>, dirty: seq<Key>): nat {
    if ws == [] then 0 else PoolLoad(ws[..|ws| - 1], dirty) + WorkerLoad(ws[|ws| - 1], dirty)
  }

  /** An upper bound on the takes and stores still to come that needs no consistency. */
  ghost function Load(s: State): nat {
    2 * |s.jobQueue| + 2 * |s.dirty| + PoolLoad(s.workers, s.dirty)
  }

  lemma {:induction false} PoolLoadUpdate(ws: seq<Worker>, dirty: seq<Key>, w: nat, x: Worker)
    requires w < |ws|
    ensures PoolLoad(ws[w := x], dirty) + WorkerLoad(ws[w], dirty) == PoolLoad(ws, dirty) + WorkerLoad(x, dirty)
  {
    hide WorkerLoad;
    var last := |ws| - 1;
    if w == last {
      assert ws[w := x][..last] == ws[..last];
    } else {
      assert ws[w := x][..last] == ws[..last][w := x];
      PoolLoadUpdate(ws[..last], dirty, w, x);
    }
  }

  lemma {:induction false} PoolLoadShrinks(ws: seq<Worker>, dirty: seq<Key>, less: seq<Key>)
    requires forall k :: k in less ==> k in dirty
    ensures PoolLoad(ws, less) <= PoolLoad(ws, dirty)
  {
    if ws != [] {
      PoolLoadShrinks(ws[..|ws| - 1], dirty, less);
    }
  }

  lemma {:induction false} CleanedLoad(ws: seq<Worker>, dirty: seq<Key>, k: Key)
    ensures PoolLoad(ws, RemoveFirst(dirty, k)) <= PoolLoad(ws, dirty)
  {
    hide RemoveFirst, PoolLoad;
    forall x | x in RemoveFirst(dirty, k)
      ensures x in dirty
    {
      assert x in multiset(RemoveFirst(dirty, k));
    }
    PoolLoadShrinks(ws, dirty, RemoveFirst(dirty, k));
  }

  lemma {:induction false} LoadTake(v: Variant, s: State, w: nat)
    requires Enabled(s, Take(w))
    ensures Load(Apply(v, s, Take(w))) < Load(s)
  {
    hide RemoveFirst, PoolLoad;
    var k := s.jobQueue[0];
    var ws := s.workers[w := Running(k)];
    PoolLoadUpdate(s.workers, s.dirty, w, Running(k));
    CleanedLoad(ws, s.dirty, k);
  }

  lemma {:induction false} LoadStore(v: Variant, s: State, w: nat, err: Option<Error>)
    requires Enabled(s, Store(w, err))
    ensures Load(Apply(v, s, Store(w, err))) < Load(s)
  {
    hide RemoveFirst, PoolLoad;
    PoolLoadUpdate(s.workers, s.dirty, w, Idle);
    CleanedLoad(s.workers[w := Idle], s.dirty, s.workers[w].key);
  }

  lemma {:induction false} LoadStep(v: Variant, s: State, e: Event)
    requires Enabled(s, e) && (e.Take? || e.Store?)
    ensures Load(Apply(v, s, e)) < Load(s)
  {
    hide Apply, Load;
    match e
    case Take(w) => LoadTake(v, s, w);
    case Store(w, err) => LoadStore(v, s, w, err);
  }

  /** From any state whatever, every schedule of takes and stores ends, within a bound read off the state. */
  lemma {:induction false} AllSchedulesEnd(v: Variant, s: State, ws: seq<Event>)
    requires WorkersOnly(ws) && Legal(v, s, ws)
    ensures |ws| + Load(After(v, s, ws)) <= Load(s)
  {
    hide Apply, Load;
    if ws != [] {
      var front := ws[..|ws| - 1];
      assert ws[|ws| - 1] in ws;
      AllSchedulesEnd(v, s, front);
      LoadStep(v, After(v, s, front), ws[|ws| - 1]);
    }
  }

  lemma {:induction false} DrainFrom(v: Variant, s: State) returns (ws: seq<Event>)
    ensures Exhausts(v, s, ws)
    decreases Load(s)
  {
    hide Apply, After, Legal, Load, Enabled;
    if w: nat :| Enabled(s, Take(w)) || Enabled(s, Store(w, None)) {
      var e := if Enabled(s, Take(w)) then Take(w) else Store(w, None);
      LoadStep(v, s, e);
      var rest := DrainFrom(v, Apply(v, s, e));
      OneEvent(v, s, e);
      AfterConcat(v, s, [e], rest);
      ws := [e] + rest;
    } else {
      ws := [];
      EmptyRun(v, s);
    }
  }

  /** A schedule that cannot be continued exists after every run. */
  lemma {:induction false} CanDrain(v: Variant, n: nat, es: seq<Event>) returns (ws: seq<Event>)
    ensures Exhausts(v, At(v, n, es, |es|), ws)
  {
    ws := DrainFrom(v, At(v, n, es, |es|));
  }
}

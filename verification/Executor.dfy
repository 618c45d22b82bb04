/**
 The executor's request queue as a step relation.

 Every critical section of client.go and worker.go runs under the one mutex of
 Manager, so it is one atomic event here. A worker alternates between Take (the
 locked part of processRequests) and Store (storeResult); what it does between
 the two, outside the lock, does not touch this state.
 */
module Executor {
  import opened Prelude
  import opened Slices

  type Key = string

  /** A worker between Take and Store holds the key it took. */
  datatype Worker = Idle | Running(key: Key)

  datatype State = State(
    dirty: seq<Key>,
    inProgress: seq<Key>,
    jobQueue: seq<Key>,
    results: map<Key, Option<Error>>,
    workers: seq<Worker>)

  datatype Event =
    | Process(key: Key)
    | Take(worker: nat)
    | Store(worker: nat, err: Option<Error>)
    | GetResult(key: Key)
    | RemoveEntries(key: Key)

  /** The code as it is, or with storeResult leaving a re-queued key in dirty. */
  datatype Variant = AsWritten | KeepDirty

  datatype Status = Processed | InProgress | Failed(err: Error) | Unavailable

  function Init(n: nat): State {
    State([], [], [], map[], seq(n, i => Idle))
  }

  /** Process: drop a dirty key, otherwise mark it and queue it unless it is in progress. */
  function ProcessStep(s: State, k: Key): State {
    if k in s.dirty then s
    else
      var marked := s.(results := s.results - {k}, dirty := s.dirty + [k]);
      if k in s.inProgress then marked
      else marked.(jobQueue := s.jobQueue + [k])
  }

  /** The locked part of processRequests, for an idle worker that finds the queue not empty. */
  function TakeStep(s: State, w: nat): State
    requires w < |s.workers| && s.jobQueue != []
  {
    var k := s.jobQueue[0];
    s.(dirty := RemoveFirst(s.dirty, k),
       inProgress := s.inProgress + [k],
       jobQueue := s.jobQueue[1..],
       workers := s.workers[w := Running(k)])
  }

  /** storeResult, called by worker w with the key it holds. */
  function StoreStep(v: Variant, s: State, w: nat, err: Option<Error>): State
    requires w < |s.workers| && s.workers[w].Running?
  {
    var k := s.workers[w].key;
    var done := s.(inProgress := RemoveFirst(s.inProgress, k), workers := s.workers[w := Idle]);
    if k in s.dirty then
      done.(jobQueue := s.jobQueue + [k],
            dirty := if v.AsWritten? then RemoveFirst(s.dirty, k) else s.dirty,
            results := s.results - {k})
    else
      done.(results := s.results[k := err])
  }

  /** getRequestStatus hands a stored result over once. */
  function GetResultStep(s: State, k: Key): State {
    s.(results := s.results - {k})
  }

  /** RemoveEntries: the slices that removeFromSlice returns are discarded. */
  function RemoveEntriesStep(s: State, k: Key): State {
    s.(inProgress := OverwriteFirst(s.inProgress, k),
       dirty := OverwriteFirst(s.dirty, k),
       jobQueue := OverwriteFirst(s.jobQueue, k),
       results := s.results - {k})
  }

  /** The answer of GetResult, decided before the result is removed. */
  function StatusOf(s: State, k: Key): Status {
    if k in s.results then
      match s.results[k]
      case None => Processed
      case Some(e) => Failed(e)
    else if k in s.inProgress || k in s.jobQueue then InProgress
    else Unavailable
  }

  /** Worker w holds k. */
  predicate Runs(s: State, w: nat, k: Key) {
    w < |s.workers| && s.workers[w] == Running(k)
  }

  predicate Enabled(s: State, e: Event) {
    match e
    case Take(w) => w < |s.workers| && s.workers[w].Idle? && s.jobQueue != []
    case Store(w, _) => w < |s.workers| && s.workers[w].Running?
    case _ => true
  }

  /**
   One event. An event that is not enabled changes nothing, so an idle worker that
   polls an empty queue is a Take that leaves the state alone.
   */
  function Apply(v: Variant, s: State, e: Event): State {
    if !Enabled(s, e) then s
    else
      match e
      case Process(k) => ProcessStep(s, k)
      case Take(w) => TakeStep(s, w)
      case Store(w, err) => StoreStep(v, s, w, err)
      case GetResult(k) => GetResultStep(s, k)
      case RemoveEntries(k) => RemoveEntriesStep(s, k)
  }

  /** The event takes k out of the queue: a run of k starts. */
  predicate Takes(s: State, e: Event, k: Key) {
    e.Take? && Enabled(s, e) && s.jobQueue[0] == k
  }

  lemma {:induction false} DisabledStutters(v: Variant, s: State, e: Event)
    ensures !Enabled(s, e) ==> Apply(v, s, e) == s
  {
  }

  /** The state after a sequence of events. */
  ghost function After(v: Variant, s: State, es: seq<Event>): State {
    if es == [] then s
    else Apply(v, After(v, s, es[..|es| - 1]), es[|es| - 1])
  }

  /** Every event of the sequence is enabled when its turn comes. */
  ghost predicate Legal(v: Variant, s: State, es: seq<Event>) {
    es == [] ||
    (Legal(v, s, es[..|es| - 1]) && Enabled(After(v, s, es[..|es| - 1]), es[|es| - 1]))
  }

  /** The state of a run of n workers after its first i events. */
  ghost function At(v: Variant, n: nat, es: seq<Event>, i: nat): State
    requires i <= |es|
  {
    After(v, Init(n), es[..i])
  }

  predicate NoRemove(es: seq<Event>) {
    forall e :: e in es ==> !e.RemoveEntries?
  }

  predicate WorkersOnly(es: seq<Event>) {
    forall e :: e in es ==> e.Take? || e.Store?
  }

  lemma {:induction false} NoRemoveConcat(a: seq<Event>, b: seq<Event>)
    ensures NoRemove(a + b) <==> NoRemove(a) && NoRemove(b)
    ensures WorkersOnly(b) ==> NoRemove(b)
  {
    assert forall e :: e in a + b <==> e in a || e in b;
  }

  lemma {:induction false} AfterSnoc(v: Variant, s: State, es: seq<Event>, e: Event)
    ensures After(v, s, es + [e]) == Apply(v, After(v, s, es), e)
    ensures Legal(v, s, es + [e]) <==> Legal(v, s, es) && Enabled(After(v, s, es), e)
  {
    assert (es + [e])[..|es|] == es;
  }

  /** Running two sequences one after the other is running their concatenation. */
  lemma {:induction false} AfterConcat(v: Variant, s: State, a: seq<Event>, b: seq<Event>)
    ensures After(v, s, a + b) == After(v, After(v, s, a), b)
    ensures Legal(v, s, a) && Legal(v, After(v, s, a), b) ==> Legal(v, s, a + b)
    decreases |b|
  {
    if b == [] {
      assert a + b == a;
    } else {
      var front := b[..|b| - 1];
      AfterConcat(v, s, a, front);
      AfterSnoc(v, s, a + front, b[|b| - 1]);
      assert a + b == (a + front) + [b[|b| - 1]];
    }
  }

  lemma {:induction false} EmptyRun(v: Variant, s: State)
    ensures After(v, s, []) == s && Legal(v, s, [])
  {
  }

  lemma {:induction false} AtStart(v: Variant, n: nat, es: seq<Event>)
    ensures At(v, n, es, 0) == Init(n)
  {
    assert es[..0] == [];
  }

  /** One step further along a run. */
  lemma {:induction false} AtNext(v: Variant, n: nat, es: seq<Event>, i: nat)
    requires i < |es|
    ensures At(v, n, es, i + 1) == Apply(v, At(v, n, es, i), es[i])
  {
    assert es[..i + 1] == es[..i] + [es[i]];
    AfterSnoc(v, Init(n), es[..i], es[i]);
  }

  /** A prefix of a run passes through the same states. */
  lemma {:induction false} AtPrefix(v: Variant, n: nat, es: seq<Event>, m: nat, i: nat)
    requires i <= m <= |es|
    ensures At(v, n, es[..m], i) == At(v, n, es, i)
  {
    assert es[..m][..i] == es[..i];
  }
}

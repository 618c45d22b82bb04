/**
 The Manager as the code has it: three Go slices over backing arrays, a result map,
 and one local variable per worker that points at the cell of the key it took. Each
 method is one critical section, and refines one event of the step relation.
 */
module ManagerImpl {
  import opened Prelude
  import opened Slices
  import opened Executor

  /** A Go slice: a window of a backing array. Its capacity is data.Length - off. */
  datatype Slice = Slice(data: array<Key>, off: nat, len: nat)

  /** The cleanerName variable of processRequests: nil, or &jobQueue[0] at the time of the take. */
  datatype Pointer = Nil | Cell(data: array<Key>, index: nat)

  ghost predicate InBounds(s: Slice) {
    s.off + s.len <= s.data.Length
  }

  ghost function Contents(s: Slice): seq<Key>
    requires InBounds(s)
    reads s.data
  {
    s.data[s.off..s.off + s.len]
  }

  ghost function HeldKey(p: Pointer): Worker
    requires p.Cell? ==> p.index < p.data.Length
    reads if p.Cell? then {p.data} else {}
  {
    match p
    case Nil => Idle
    case Cell(data, index) => Running(data[index])
  }

  /**
   Go's append: in place when there is capacity, otherwise into a new, larger array.
   How much larger is up to the runtime. No cell in use, or in front of the window, is written.
   */
  method Append(s: Slice, k: Key) returns (t: Slice)
    requires InBounds(s)
    modifies s.data
    ensures InBounds(t) && Contents(t) == old(Contents(s)) + [k]
    ensures (t.data == s.data && t.off == s.off) || fresh(t.data)
    ensures forall i :: 0 <= i < s.off + s.len ==> s.data[i] == old(s.data[i])
  {
    if s.off + s.len < s.data.Length {
      s.data[s.off + s.len] := k;
      t := Slice(s.data, s.off, s.len + 1);
    } else {
      var capacity: nat :| capacity > s.len;
      var data := new Key[capacity];
      for i := 0 to s.len
        invariant forall j :: 0 <= j < i ==> data[j] == s.data[s.off + j]
        invariant forall j :: 0 <= j < s.data.Length ==> s.data[j] == old(s.data[j])
      {
        data[i] := s.data[s.off + i];
      }
      data[s.len] := k;
      t := Slice(data, 0, s.len + 1);
    }
  }

  /** removeFromSlice: the caller's own slice keeps its length and sees the overwritten cell. */
  method RemoveFromSlice(s: Slice, i: nat) returns (t: Slice)
    requires InBounds(s) && i < s.len
    modifies s.data
    ensures t == Slice(s.data, s.off, s.len - 1)
    ensures Contents(t) == SwapRemove(old(Contents(s)), i)
    ensures Contents(s) == old(Contents(s))[i := old(Contents(s))[s.len - 1]]
    ensures forall j :: 0 <= j < s.off ==> s.data[j] == old(s.data[j])
  {
    s.data[s.off + i] := s.data[s.off + s.len - 1];
    t := Slice(s.data, s.off, s.len - 1);
  }

  /** The scanning loops: the position of the first occurrence, or the length. */
  method Find(s: Slice, k: Key) returns (i: nat)
    requires InBounds(s)
    ensures i == IndexOf(Contents(s), k)
  {
    i := 0;
    while i < s.len
      invariant i <= s.len
      invariant forall j :: 0 <= j < i ==> Contents(s)[j] != k
    {
      if s.data[s.off + i] == k {
        assert Contents(s)[i] == k;
        IndexOfUnique(Contents(s), k, i);
        return;
      }
      i := i + 1;
    }
  }

  class Manager {
    var dirty: Slice
    var inProgress: Slice
    var jobQueue: Slice
    var results: map<Key, Option<Error>>
    var held: seq<Pointer>

    ghost var Repr: set<object>

    ghost predicate Valid()
      reads this, Repr
      ensures Valid() ==> this in Repr
    {
      && this in Repr
      && {dirty.data, inProgress.data, jobQueue.data} <= Repr
      && dirty.data != inProgress.data && dirty.data != jobQueue.data && inProgress.data != jobQueue.data
      && InBounds(dirty) && InBounds(inProgress) && InBounds(jobQueue)
      && forall p :: p in held && p.Cell? ==> ValidCell(p)
    }

    /** A cell a worker points to is in no window: it lies in front of jobQueue or in an array it left. */
    ghost predicate ValidCell(p: Pointer)
      reads this
      requires p.Cell?
    {
      && p.data in Repr && p.index < p.data.Length
      && p.data != dirty.data && p.data != inProgress.data
      && (p.data == jobQueue.data ==> p.index < jobQueue.off)
    }

    /** What a worker reads through its pointer, whenever it reads it: also outside the lock. */
    ghost function Workers(): (ws: seq<Worker>)
      reads this, Repr
      requires Valid()
      ensures |ws| == |held|
    {
      seq(|held|, w requires 0 <= w < |held| && Valid() reads this, Repr => HeldKey(held[w]))
    }

    ghost function Abs(): State
      reads this, Repr
      requires Valid()
    {
      State(Contents(dirty), Contents(inProgress), Contents(jobQueue), results, Workers())
    }

    constructor (n: nat)
      ensures Valid() && fresh(Repr)
      ensures Abs() == Init(n)
    {
      var d := new Key[0];
      var p := new Key[0];
      var q := new Key[0];
      dirty, inProgress, jobQueue := Slice(d, 0, 0), Slice(p, 0, 0), Slice(q, 0, 0);
      results := map[];
      held := seq(n, i => Nil);
      Repr := {this, d, p, q};
    }

    /** The scan of dirty. */
    method FindDirty(k: Key) returns (i: nat, found: bool)
      requires Valid()
      ensures i == IndexOf(Abs().dirty, k)
      ensures found <==> k in Abs().dirty
    {
      i := Find(dirty, k);
      found := i < dirty.len;
    }

    /** The scan of inProgress. */
    method FindInProgress(k: Key) returns (i: nat, found: bool)
      requires Valid()
      ensures i == IndexOf(Abs().inProgress, k)
      ensures found <==> k in Abs().inProgress
    {
      i := Find(inProgress, k);
      found := i < inProgress.len;
    }

    method PushDirty(k: Key)
      requires Valid()
      modifies Repr
      ensures Valid() && fresh(Repr - old(Repr)) && held == old(held)
      ensures Abs() == old(Abs()).(dirty := old(Abs()).dirty + [k])
    {
      dirty := Append(dirty, k);
      Repr := Repr + {dirty.data};
      assert Workers() == old(Workers());
    }

    method PushInProgress(k: Key)
      requires Valid()
      modifies Repr
      ensures Valid() && fresh(Repr - old(Repr)) && held == old(held)
      ensures Abs() == old(Abs()).(inProgress := old(Abs()).inProgress + [k])
    {
      inProgress := Append(inProgress, k);
      Repr := Repr + {inProgress.data};
      assert Workers() == old(Workers());
    }

    method PushQueue(k: Key)
      requires Valid()
      modifies Repr
      ensures Valid() && fresh(Repr - old(Repr)) && held == old(held)
      ensures Abs() == old(Abs()).(jobQueue := old(Abs()).jobQueue + [k])
    {
      jobQueue := Append(jobQueue, k);
      Repr := Repr + {jobQueue.data};
      assert Workers() == old(Workers());
    }

    method RemoveDirtyAt(i: nat)
      requires Valid() && i < |Abs().dirty|
      modifies Repr
      ensures Valid() && Repr == old(Repr) && held == old(held)
      ensures Abs() == old(Abs()).(dirty := SwapRemove(old(Abs()).dirty, i))
    {
      dirty := RemoveFromSlice(dirty, i);
      assert Workers() == old(Workers());
    }

    method RemoveInProgressAt(i: nat)
      requires Valid() && i < |Abs().inProgress|
      modifies Repr
      ensures Valid() && Repr == old(Repr) && held == old(held)
      ensures Abs() == old(Abs()).(inProgress := SwapRemove(old(Abs()).inProgress, i))
    {
      inProgress := RemoveFromSlice(inProgress, i);
      assert Workers() == old(Workers());
    }

    /** Move the window of jobQueue past its first cell and point worker w at that cell. */
    method PopFront(w: nat) returns (key: Key)
      requires Valid() && w < |held| && Abs().jobQueue != []
      modifies this
      ensures Valid() && Repr == old(Repr) && |held| == |old(held)|
      ensures var s := old(Abs());
              && key == s.jobQueue[0]
              && Abs() == s.(jobQueue := s.jobQueue[1..], workers := s.workers[w := Running(key)])
    {
      key := jobQueue.data[jobQueue.off];
      held := held[w := Cell(jobQueue.data, jobQueue.off)];
      jobQueue := Slice(jobQueue.data, jobQueue.off + 1, jobQueue.len - 1);
      assert Workers() == old(Workers())[w := Running(key)];
    }

    /** Forget the pointer of worker w, having read the key through it. */
    method Release(w: nat) returns (key: Key)
      requires Valid() && w < |held| && held[w].Cell?
      modifies this
      ensures Valid() && Repr == old(Repr) && |held| == |old(held)|
      ensures old(Abs()).workers[w] == Running(key)
      ensures Abs() == old(Abs()).(workers := old(Abs()).workers[w := Idle])
    {
      key := held[w].data[held[w].index];
      held := held[w := Nil];
      assert Workers() == old(Workers())[w := Idle];
    }

    method SetResult(k: Key, err: Option<Error>)
      requires Valid()
      modifies this
      ensures Valid() && Repr == old(Repr) && held == old(held)
      ensures dirty == old(dirty) && inProgress == old(inProgress) && jobQueue == old(jobQueue)
      ensures Abs() == old(Abs()).(results := old(Abs()).results[k := err])
    {
      results := results[k := err];
      assert Workers() == old(Workers());
    }

    method ClearResult(k: Key)
      requires Valid()
      modifies this
      ensures Valid() && Repr == old(Repr) && held == old(held)
      ensures dirty == old(dirty) && inProgress == old(inProgress) && jobQueue == old(jobQueue)
      ensures Abs() == old(Abs()).(results := old(Abs()).results - {k})
    {
      results := results - {k};
      assert Workers() == old(Workers());
    }

    /** Process: client.go's three steps, with its two scanning loops and early returns. */
    method Process(k: Key)
      requires Valid()
      modifies Repr
      ensures Valid() && fresh(Repr - old(Repr))
      ensures Abs() == Apply(AsWritten, old(Abs()), Event.Process(k))
    {
      var i, found := FindDirty(k);
      if found {
        return;
      }
      ClearResult(k);
      PushDirty(k);
      i, found := FindInProgress(k);
      if found {
        return;
      }
      PushQueue(k);
    }

    /** The scan of dirty that drops k: RemoveFirst, by position. */
    method DropDirty(k: Key) returns (found: bool)
      requires Valid()
      modifies Repr
      ensures Valid() && Repr == old(Repr) && held == old(held)
      ensures found <==> k in old(Abs()).dirty
      ensures Abs() == old(Abs()).(dirty := RemoveFirst(old(Abs()).dirty, k))
    {
      ghost var s := Abs();
      assert k !in s.dirty ==> s == s.(dirty := RemoveFirst(s.dirty, k));
      var i;
      i, found := FindDirty(k);
      if found {
        RemoveDirtyAt(i);
      }
    }

    /** The scan of inProgress that drops k. */
    method DropInProgress(k: Key)
      requires Valid()
      modifies Repr
      ensures Valid() && Repr == old(Repr) && held == old(held)
      ensures Abs() == old(Abs()).(inProgress := RemoveFirst(old(Abs()).inProgress, k))
    {
      ghost var s := Abs();
      assert k !in s.inProgress ==> s == s.(inProgress := RemoveFirst(s.inProgress, k));
      var i, found := FindInProgress(k);
      if found {
        RemoveInProgressAt(i);
      }
    }

    /**
     The locked part of processRequests for worker w. The key is appended to inProgress
     and removed from dirty; the worker keeps the address of the cell, not the key.
     */
    method Take(w: nat)
      requires Valid() && w < |held| && held[w] == Nil
      modifies Repr
      ensures Valid() && fresh(Repr - old(Repr))
      ensures Abs() == Apply(AsWritten, old(Abs()), Event.Take(w))
    {
      assert jobQueue.len > 0 <==> Abs().jobQueue != [];
      assert Abs().workers[w] == Idle;
      if jobQueue.len > 0 {
        hide RemoveFirst, Abs, Valid;
        var key := PopFront(w);
        PushInProgress(key);
        var _ := DropDirty(key);
      }
    }

    /** Push k, found at position i of dirty, and remove it from there. */
    method Requeue(k: Key, i: nat)
      requires Valid() && k in Abs().dirty && i == IndexOf(Abs().dirty, k)
      modifies Repr
      ensures Valid() && fresh(Repr - old(Repr)) && held == old(held)
      ensures var s := old(Abs());
              Abs() == s.(jobQueue := s.jobQueue + [k], dirty := RemoveFirst(s.dirty, k))
    {
      assert RemoveFirst(Abs().dirty, k) == SwapRemove(Abs().dirty, i);
      hide RemoveFirst, IndexOf, Abs, Valid;
      PushQueue(k);
      RemoveDirtyAt(i);
    }

    /** Keep the result, or drop it and queue the key again when it is dirty. */
    method RecordOrRequeue(k: Key, err: Option<Error>)
      requires Valid()
      modifies Repr
      ensures Valid() && fresh(Repr - old(Repr)) && held == old(held)
      ensures var s := old(Abs());
              Abs() == if k in s.dirty then
                         s.(jobQueue := s.jobQueue + [k], dirty := RemoveFirst(s.dirty, k), results := s.results - {k})
                       else s.(results := s.results[k := err])
    {
      ghost var s := Abs();
      assert s.results[k := err] - {k} == s.results - {k};
      hide RemoveFirst, Abs, Valid;
      SetResult(k, err);
      var i, found := FindDirty(k);
      if found {
        Requeue(k, i);
        ClearResult(k);
      }
    }

    /** storeResult up to "remove from inProgress", with the key read through the worker's pointer. */
    method Finish(w: nat) returns (key: Key)
      requires Valid() && w < |held| && held[w].Cell?
      modifies Repr
      ensures Valid() && Repr == old(Repr)
      ensures var s := old(Abs());
              && Runs(s, w, key)
              && Abs() == s.(workers := s.workers[w := Idle], inProgress := RemoveFirst(s.inProgress, key))
    {
      assert |Abs().workers| == |held|;
      hide RemoveFirst, Abs;
      key := Release(w);
      DropInProgress(key);
    }

    /** storeResult. */
    method Store(w: nat, err: Option<Error>)
      requires Valid() && w < |held| && held[w].Cell?
      modifies Repr
      ensures Valid() && fresh(Repr - old(Repr))
      ensures Abs() == Apply(AsWritten, old(Abs()), Event.Store(w, err))
    {
      assert Enabled(Abs(), Event.Store(w, err));
      hide RemoveFirst, Abs, Valid;
      var key := Finish(w);
      RecordOrRequeue(key, err);
    }

    /** GetResult together with getRequestStatus. */
    method GetResult(k: Key) returns (status: Status)
      requires Valid()
      modifies this
      ensures Valid() && Repr == old(Repr)
      ensures status == StatusOf(old(Abs()), k)
      ensures forall e :: status == Failed(e) <==> k in old(results) && old(results)[k] == Some(e)
      ensures status == Processed <==> k in old(results) && old(results)[k] == None
      ensures Abs() == Apply(AsWritten, old(Abs()), Event.GetResult(k))
    {
      if k in results {
        var err := results[k];
        ClearResult(k);
        match err {
          case None => return Processed;
          case Some(e) => return Failed(e);
        }
      }
      assert results - {k} == results;
      var i := Find(inProgress, k);
      if i < inProgress.len {
        return InProgress;
      }
      i := Find(jobQueue, k);
      if i < jobQueue.len {
        return InProgress;
      }
      return Unavailable;
    }

    method OverwriteInProgress(k: Key)
      requires Valid()
      modifies Repr
      ensures Valid() && Repr == old(Repr) && held == old(held)
      ensures Abs() == old(Abs()).(inProgress := OverwriteFirst(old(Abs()).inProgress, k))
    {
      var i := Find(inProgress, k);
      if i < inProgress.len {
        var _ := RemoveFromSlice(inProgress, i);
      }
      hide IndexOf;
      assert Workers() == old(Workers());
    }

    method OverwriteDirty(k: Key)
      requires Valid()
      modifies Repr
      ensures Valid() && Repr == old(Repr) && held == old(held)
      ensures Abs() == old(Abs()).(dirty := OverwriteFirst(old(Abs()).dirty, k))
    {
      var i := Find(dirty, k);
      if i < dirty.len {
        var _ := RemoveFromSlice(dirty, i);
      }
      hide IndexOf;
      assert Workers() == old(Workers());
    }

    method OverwriteQueue(k: Key)
      requires Valid()
      modifies Repr
      ensures Valid() && Repr == old(Repr) && held == old(held)
      ensures Abs() == old(Abs()).(jobQueue := OverwriteFirst(old(Abs()).jobQueue, k))
    {
      var i := Find(jobQueue, k);
      if i < jobQueue.len {
        var _ := RemoveFromSlice(jobQueue, i);
      }
      hide IndexOf;
      assert Workers() == old(Workers());
    }

    /** RemoveEntries: every slice that removeFromSlice returns is thrown away. */
    method RemoveEntries(k: Key)
      requires Valid()
      modifies Repr
      ensures Valid() && Repr == old(Repr)
      ensures Abs() == Apply(AsWritten, old(Abs()), Event.RemoveEntries(k))
    {
      hide OverwriteFirst, Abs, Valid;
      OverwriteInProgress(k);
      OverwriteDirty(k);
      OverwriteQueue(k);
      ClearResult(k);
    }
  }
}

/**
 The delete action: deleteMatchingResources over the state of a cluster.

 A Delete call removes a live resource at once, reports NotFound for one that is gone,
 or fails for a reason of its own. Reasons are arbitrary and may differ from call to call.
 */
module Deletion {
  import opened Prelude
  import opened Resources

  datatype Outcome = Deleted | NotFound | Failed(e: Error)

  /** The cluster, as far as delete calls see it. */
  class Cluster {
    var live: set<Reference>

    constructor (live: set<Reference>)
      ensures this.live == live
    {
      this.live := live;
    }

    method Delete(r: Reference, fault: Option<Error>) returns (o: Outcome)
      modifies this
      ensures o == OutcomeOf(old(live), r, fault)
      ensures live == if o.Deleted? then old(live) - {r} else old(live)
    {
      if fault.Some? {
        return Failed(fault.value);
      }
      if r !in live {
        return NotFound;
      }
      live := live - {r};
      return Deleted;
    }
  }

  function OutcomeOf(live: set<Reference>, r: Reference, fault: Option<Error>): Outcome {
    if fault.Some? then Failed(fault.value) else if r in live then Deleted else NotFound
  }

  /** The effect of the first n delete calls: what is live, what was deleted, what failed, how many were gone. */
  datatype Sweep = Sweep(live: set<Reference>, processed: seq<Reference>, failures: seq<Error>, gone: nat)

  function SweepOf(live: set<Reference>, rs: seq<Reference>, faults: seq<Option<Error>>): Sweep
    requires |faults| == |rs|
  {
    if rs == [] then Sweep(live, [], [], 0)
    else
      var s := SweepOf(live, rs[..|rs| - 1], faults[..|rs| - 1]);
      var r := rs[|rs| - 1];
      match OutcomeOf(s.live, r, faults[|rs| - 1])
      case Deleted => s.(live := s.live - {r}, processed := s.processed + [r])
      case NotFound => s.(gone := s.gone + 1)
      case Failed(e) => s.(failures := s.failures + [e])
  }

  /** errors.Join of the collected errors, or no error. */
  function Joined(failures: seq<Error>): Option<seq<Error>> {
    if failures == [] then None else Some(failures)
  }

  // ----- What a sweep does -----

  /** The reasons of the failing calls, in order. */
  function Reasons(faults: seq<Option<Error>>): seq<Error> {
    if faults == [] then []
    else Reasons(faults[..|faults| - 1]) +
         (if faults[|faults| - 1].Some? then [faults[|faults| - 1].value] else [])
  }

  /** Position i is the first call for its resource that does not fail. */
  predicate FirstWorkingCall(rs: seq<Reference>, faults: seq<Option<Error>>, i: nat)
    requires |faults| == |rs| && i < |rs|
  {
    faults[i] == None && forall j :: 0 <= j < i ==> rs[j] == rs[i] ==> faults[j].Some?
  }

  /** The resources that existed, at the first call for each that does not fail, in order. */
  ghost function FirstOccurrences(live: set<Reference>, rs: seq<Reference>, faults: seq<Option<Error>>): seq<Reference>
    requires |faults| == |rs|
  {
    if rs == [] then []
    else
      var last := |rs| - 1;
      FirstOccurrences(live, rs[..last], faults[..last]) +
      (if rs[last] in live && FirstWorkingCall(rs, faults, last) then [rs[last]] else [])
  }

  /** Some call for r does not fail. */
  ghost predicate Reached(rs: seq<Reference>, faults: seq<Option<Error>>, r: Reference)
    requires |faults| == |rs|
  {
    exists i :: 0 <= i < |rs| && rs[i] == r && faults[i] == None
  }

  lemma {:induction false} ReachedSnoc(rs: seq<Reference>, faults: seq<Option<Error>>, r: Reference)
    requires |faults| == |rs| && rs != []
    ensures var last := |rs| - 1;
            Reached(rs, faults, r) <==>
            Reached(rs[..last], faults[..last], r) || (rs[last] == r && faults[last] == None)
  {
    var last := |rs| - 1;
    if i :| 0 <= i < last && rs[..last][i] == r && faults[..last][i] == None {
      assert rs[i] == r && faults[i] == None;
    }
    if i :| 0 <= i < |rs| && rs[i] == r && faults[i] == None {
      assert i < last ==> rs[..last][i] == r && faults[..last][i] == None;
    }
    assert rs[last] == r && faults[last] == None ==> Reached(rs, faults, r);
  }

  /**
   What a sweep of the whole list does, duplicates allowed: the cluster loses exactly
   the listed resources for which some call works; the processed list holds those that
   existed, each once, in the order of their first working call; the failures are
   exactly the failing calls; and every listed position is one of deleted, gone, failed.
   */
  lemma {:induction false} SweepIsExact(live: set<Reference>, rs: seq<Reference>, faults: seq<Option<Error>>)
    requires |faults| == |rs|
    ensures var s := SweepOf(live, rs, faults);
            && (forall r :: r in s.live <==> r in live && !Reached(rs, faults, r))
            && s.processed == FirstOccurrences(live, rs, faults)
            && s.failures == Reasons(faults)
            && |s.processed| + s.gone + |s.failures| == |rs|
  {
    if rs != [] {
      var last := |rs| - 1;
      SweepIsExact(live, rs[..last], faults[..last]);
      forall r
        ensures Reached(rs, faults, r) <==>
                Reached(rs[..last], faults[..last], r) || (rs[last] == r && faults[last] == None)
      {
        ReachedSnoc(rs, faults, r);
      }
      FirstIsUnreached(rs, faults);
    }
  }

  lemma {:induction false} FirstIsUnreached(rs: seq<Reference>, faults: seq<Option<Error>>)
    requires |faults| == |rs| && rs != []
    ensures var last := |rs| - 1;
            FirstWorkingCall(rs, faults, last) <==>
            faults[last] == None && !Reached(rs[..last], faults[..last], rs[last])
  {
    var last := |rs| - 1;
    if i :| 0 <= i < last && rs[..last][i] == rs[last] && faults[..last][i] == None {
      assert rs[i] == rs[last] && faults[i] == None;
    }
    forall j | 0 <= j < last && rs[j] == rs[last] && faults[j] == None
      ensures Reached(rs[..last], faults[..last], rs[last])
    {
      assert rs[..last][j] == rs[last] && faults[..last][j] == None;
    }
  }

  /** Nothing is processed twice, and what is processed was live, is listed and is live no more. */
  lemma {:induction false} ProcessedOnce(live: set<Reference>, rs: seq<Reference>, faults: seq<Option<Error>>)
    requires |faults| == |rs|
    ensures var s := SweepOf(live, rs, faults);
            && (forall i, j :: 0 <= i < j < |s.processed| ==> s.processed[i] != s.processed[j])
            && (forall r :: r in s.processed <==> r in live && r !in s.live)
            && s.live <= live
  {
    if rs != [] {
      var last := |rs| - 1;
      var front := SweepOf(live, rs[..last], faults[..last]);
      ProcessedOnce(live, rs[..last], faults[..last]);
      if OutcomeOf(front.live, rs[last], faults[last]).Deleted? {
        var s := SweepOf(live, rs, faults);
        assert forall r :: r in s.processed <==> r in front.processed || r == rs[last];
        assert rs[last] !in front.processed;
      }
    }
  }

  /**
   The action reports an error exactly when a call fails; and without failures the listed
   resources are gone afterwards, whatever the list.
   */
  lemma {:induction false} ErrorIffFailure(live: set<Reference>, rs: seq<Reference>, faults: seq<Option<Error>>)
    requires |faults| == |rs|
    ensures var s := SweepOf(live, rs, faults);
            && (Joined(s.failures) == None <==> forall i :: 0 <= i < |faults| ==> faults[i] == None)
            && (Joined(s.failures) == None ==> s.live == live - set r | r in rs)
  {
    var s := SweepOf(live, rs, faults);
    SweepIsExact(live, rs, faults);
    NoReasonsIff(faults);
    if Joined(s.failures) == None {
      forall r | r in rs
        ensures Reached(rs, faults, r)
      {
        var i :| 0 <= i < |rs| && rs[i] == r;
        assert faults[i] == None;
      }
      assert forall r :: r in s.live <==> r in live && r !in rs;
    }
  }

  lemma {:induction false} NoReasonsIff(faults: seq<Option<Error>>)
    ensures Reasons(faults) == [] <==> forall i :: 0 <= i < |faults| ==> faults[i] == None
  {
    if faults != [] {
      var front := faults[..|faults| - 1];
      NoReasonsIff(front);
      assert forall i :: 0 <= i < |front| ==> front[i] == faults[i];
    }
  }

  // ----- The action -----

  /** The positions of the failing calls. */
  function Failing(faults: seq<Option<Error>>): set<nat> {
    set i: nat | i < |faults| && faults[i].Some?
  }

  /** The positions where the resource was not there any more, or never had been. */
  ghost function AlreadyGone(live: set<Reference>, rs: seq<Reference>, faults: seq<Option<Error>>): set<nat>
    requires |faults| == |rs|
  {
    set i: nat | i < |rs| && faults[i] == None && (rs[i] !in live || Reached(rs[..i], faults[..i], rs[i]))
  }

  /**
   The error of the action: none if no call failed; otherwise one reason for each failing
   call, its own, at the place that the number of failing calls before it gives it.
   */
  ghost predicate ReportsEach(err: Option<seq<Error>>, faults: seq<Option<Error>>) {
    && (err == None <==> Failing(faults) == {})
    && (err.Some? ==>
          && |err.value| == |Failing(faults)|
          && forall i :: 0 <= i < |faults| && faults[i].Some? ==>
               |Failing(faults[..i])| < |err.value| && err.value[|Failing(faults[..i])|] == faults[i].value)
  }

  lemma {:induction false} FailingSnoc(faults: seq<Option<Error>>)
    requires faults != []
    ensures var last := |faults| - 1;
            |Failing(faults)| == |Failing(faults[..last])| + (if faults[last].Some? then 1 else 0)
  {
    var last := |faults| - 1;
    var front := Failing(faults[..last]);
    assert Failing(faults) == front + (if faults[last].Some? then {last} else {});
    assert last !in front;
  }

  lemma {:induction false} GoneSnoc(live: set<Reference>, rs: seq<Reference>, faults: seq<Option<Error>>)
    requires |faults| == |rs| && rs != []
    ensures var last := |rs| - 1;
            |AlreadyGone(live, rs, faults)| == |AlreadyGone(live, rs[..last], faults[..last])| +
              (if faults[last] == None && (rs[last] !in live || Reached(rs[..last], faults[..last], rs[last])) then 1
               else 0)
  {
    var last := |rs| - 1;
    var front := AlreadyGone(live, rs[..last], faults[..last]);
    assert forall i :: 0 <= i < last ==> rs[..last][..i] == rs[..i] && faults[..last][..i] == faults[..i];
    assert AlreadyGone(live, rs, faults) == front + (if last in AlreadyGone(live, rs, faults) then {last} else {});
    assert last !in front;
  }

  lemma {:induction false} ReasonsInPlace(faults: seq<Option<Error>>)
    ensures |Reasons(faults)| == |Failing(faults)|
    ensures forall i :: 0 <= i < |faults| && faults[i].Some? ==>
              |Failing(faults[..i])| < |Reasons(faults)| && Reasons(faults)[|Failing(faults[..i])|] == faults[i].value
  {
    if faults != [] {
      var last := |faults| - 1;
      ReasonsInPlace(faults[..last]);
      FailingSnoc(faults);
      hide Failing;
      assert forall i :: 0 <= i < last ==> faults[..last][..i] == faults[..i];
    }
  }

  lemma {:induction false} GoneIsCounted(live: set<Reference>, rs: seq<Reference>, faults: seq<Option<Error>>)
    requires |faults| == |rs|
    ensures SweepOf(live, rs, faults).gone == |AlreadyGone(live, rs, faults)|
  {
    if rs != [] {
      var last := |rs| - 1;
      GoneIsCounted(live, rs[..last], faults[..last]);
      GoneSnoc(live, rs, faults);
      SweepIsExact(live, rs[..last], faults[..last]);
    }
  }

  /** Each listed position is deleted, already gone, or has its reason in the error. */
  lemma {:induction false} AccountIsExact(live: set<Reference>, rs: seq<Reference>, faults: seq<Option<Error>>)
    requires |faults| == |rs|
    ensures var s := SweepOf(live, rs, faults);
            var err := Joined(s.failures);
            && ReportsEach(err, faults)
            && |s.processed| + (if err.Some? then |err.value| else 0) + |AlreadyGone(live, rs, faults)| == |rs|
  {
    SweepIsExact(live, rs, faults);
    GoneIsCounted(live, rs, faults);
    ReasonsInPlace(faults);
  }

  /** deleteMatchingResources: a resource that is gone is neither processed nor a failure. */
  method DeleteMatchingResources(c: Cluster, rs: seq<Reference>, faults: seq<Option<Error>>)
    returns (processed: seq<Reference>, err: Option<seq<Error>>)
    requires |faults| == |rs|
    modifies c
    ensures var s := SweepOf(old(c.live), rs, faults);
            c.live == s.live && processed == s.processed && err == Joined(s.failures)
    ensures ReportsEach(err, faults)
    ensures |processed| + (if err.Some? then |err.value| else 0) + |AlreadyGone(old(c.live), rs, faults)| == |rs|
  {
    processed := [];
    var failedActions: seq<Error> := [];
    for i := 0 to |rs|
      invariant var s := SweepOf(old(c.live), rs[..i], faults[..i]);
                c.live == s.live && processed == s.processed && failedActions == s.failures
    {
      assert rs[..i + 1][..i] == rs[..i] && faults[..i + 1][..i] == faults[..i];
      var o := c.Delete(rs[i], faults[i]);
      match o {
        case NotFound =>
        case Failed(e) => failedActions := failedActions + [e];
        case Deleted => processed := processed + [rs[i]];
      }
    }
    assert rs[..|rs|] == rs && faults[..|rs|] == faults;
    AccountIsExact(old(c.live), rs, faults);
    if |failedActions| > 0 {
      return processed, Some(failedActions);
    }
    return processed, None;
  }
}

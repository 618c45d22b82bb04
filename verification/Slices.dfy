/**
 List operations on values: the scanning loops (IndexOf), filtering, and the
 swap-removal of removeFromSlice with its effect on contents and multiplicities, both
 for a caller that keeps the slice it returns and for one that discards it.
 */
module Slices {

  /** The first position of x in s, or |s| when x does not occur. */
  function IndexOf<T(==)>(s: seq<T>, x: T): (i: nat)
    ensures i <= |s|
    ensures x !in s[..i]
    ensures i < |s| ==> s[i] == x
    ensures i == |s| <==> x !in s
  {
    if s == [] then 0
    else if s[0] == x then 0
    else
      var j := IndexOf(s[1..], x);
      assert s == [s[0]] + s[1..];
      assert s[..j + 1] == [s[0]] + s[1..][..j];
      j + 1
  }

  /** The first position is the only one with these properties. */
  lemma IndexOfUnique<T>(s: seq<T>, x: T, i: nat)
    requires i < |s| && s[i] == x
    requires forall j :: 0 <= j < i ==> s[j] != x
    ensures IndexOf(s, x) == i
  {
    var f := IndexOf(s, x);
    assert f < |s|;
    assert forall j | 0 <= j < f :: s[j] != x by {
      assert forall j | 0 <= j < f :: s[j] in s[..f];
    }
  }

  lemma IndexOfAppend<T>(s: seq<T>, t: seq<T>, x: T)
    requires x in s
    ensures IndexOf(s + t, x) == IndexOf(s, x)
  {
    var i := IndexOf(s, x);
    assert forall j | 0 <= j < i :: (s + t)[j] != x by {
      assert forall j | 0 <= j < i :: (s + t)[j] in s[..i];
    }
    IndexOfUnique(s + t, x, i);
  }

  lemma IndexOfTail<T>(s: seq<T>, x: T)
    requires x in s && s[0] != x
    ensures x in s[1..] && IndexOf(s[1..], x) == IndexOf(s, x) - 1
  {
    assert s == [s[0]] + s[1..];
  }

  /** Overwrite cell i with the last element, then drop the last element. */
  function SwapRemove<T>(s: seq<T>, i: nat): (r: seq<T>)
    requires i < |s|
    ensures |r| == |s| - 1
    ensures forall j :: 0 <= j < |r| ==> r[j] == if j == i then s[|s| - 1] else s[j]
  {
    s[i := s[|s| - 1]][..|s| - 1]
  }

  lemma SwapRemoveDropsOne<T>(s: seq<T>, i: nat)
    requires i < |s|
    ensures multiset(SwapRemove(s, i)) == multiset(s) - multiset{s[i]}
  {
    var last := |s| - 1;
    assert s == s[..last] + [s[last]];
    if i < last {
      assert s[..last] == s[..i] + [s[i]] + s[i + 1..last];
      assert s[i := s[last]][..last] == s[..i] + [s[last]] + s[i + 1..last];
    } else {
      assert s[i := s[last]][..last] == s[..last];
    }
  }

  /** Swap-remove the first occurrence of x, when there is one. */
  function RemoveFirst<T(==)>(s: seq<T>, x: T): (r: seq<T>)
    ensures multiset(r) == multiset(s) - multiset{x}
    ensures x in s ==> |r| == |s| - 1
    ensures x !in s ==> r == s
  {
    var i := IndexOf(s, x);
    if i < |s| then
      SwapRemoveDropsOne(s, i);
      SwapRemove(s, i)
    else
      assert x !in multiset(s);
      s
  }

  /** What removeFromSlice leaves in a slice whose length the caller keeps. */
  function OverwriteFirst<T(==)>(s: seq<T>, x: T): (r: seq<T>)
    ensures |r| == |s|
  {
    var i := IndexOf(s, x);
    if i < |s| then s[i := s[|s| - 1]] else s
  }

  /** The elements that keep accepts, in order. */
  function Filter<T(!new)>(s: seq<T>, keep: T -> bool): (r: seq<T>)
    ensures forall x :: x in r <==> x in s && keep(x)
  {
    if s == [] then []
    else
      assert s == [s[0]] + s[1..];
      if keep(s[0]) then [s[0]] + Filter(s[1..], keep) else Filter(s[1..], keep)
  }

  lemma {:induction false} FilterLength<T(!new)>(s: seq<T>, keep: T -> bool)
    ensures |Filter(s, keep)| <= |s|
    ensures |Filter(s, keep)| == |s| <==> forall x :: x in s ==> keep(x)
    ensures |Filter(s, keep)| == |s| ==> Filter(s, keep) == s
  {
    if s != [] {
      FilterLength(s[1..], keep);
      assert s == [s[0]] + s[1..];
    }
  }

  lemma {:induction false} FilterCount<T(!new)>(s: seq<T>, keep: T -> bool, x: T)
    ensures multiset(Filter(s, keep))[x] == if keep(x) then multiset(s)[x] else 0
  {
    if s != [] {
      FilterCount(s[1..], keep, x);
      assert s == [s[0]] + s[1..];
    }
  }

  lemma {:induction false} FilterHead<T(!new)>(s: seq<T>, keep: T -> bool)
    requires s != []
    ensures Filter(s, keep) == (if keep(s[0]) then [s[0]] else []) + Filter(s[1..], keep)
  {
  }

  lemma {:induction false} ConcatAssociates<T>(a: seq<T>, b: seq<T>, c: seq<T>)
    ensures a + (b + c) == (a + b) + c
  {
  }

  lemma {:induction false} FilterConcat<T(!new)>(a: seq<T>, b: seq<T>, keep: T -> bool)
    ensures Filter(a + b, keep) == Filter(a, keep) + Filter(b, keep)
  {
    if a == [] {
      assert a + b == b;
    } else {
      hide Filter;
      FilterConcat(a[1..], b, keep);
      FilterHead(a, keep);
      FilterHead(a + b, keep);
      assert (a + b)[1..] == a[1..] + b;
      ConcatAssociates(if keep(a[0]) then [a[0]] else [], Filter(a[1..], keep), Filter(b, keep));
    }
  }

  lemma {:induction false} FilterNone<T(!new)>(s: seq<T>, keep: T -> bool)
    requires forall x :: x in s ==> !keep(x)
    ensures Filter(s, keep) == []
  {
    if s != [] {
      FilterNone(s[1..], keep);
    }
  }

  lemma {:induction false} FilterTwice<T(!new)>(s: seq<T>, first: T -> bool, second: T -> bool, both: T -> bool)
    requires forall x :: both(x) <==> first(x) && second(x)
    ensures Filter(Filter(s, first), second) == Filter(s, both)
  {
    if s != [] {
      FilterTwice(s[1..], first, second, both);
    }
  }

  ghost predicate NoDuplicates<T(!new)>(s: seq<T>) {
    forall x :: multiset(s)[x] <= 1
  }

  lemma {:induction false} RemoveCounts<T>(s: seq<T>, k: T, x: T)
    ensures multiset(RemoveFirst(s, k))[x] ==
            if x == k && k in s then multiset(s)[x] - 1 else multiset(s)[x]
  {
    hide RemoveFirst;
    assert k in s <==> k in multiset(s);
  }

  lemma {:induction false} RemoveOther<T>(s: seq<T>, x: T, k: T)
    requires x != k
    ensures k in RemoveFirst(s, x) <==> k in s
  {
    hide RemoveFirst;
    assert k in RemoveFirst(s, x) <==> k in multiset(RemoveFirst(s, x));
    assert k in s <==> k in multiset(s);
  }

  // ----- A removal whose result is discarded -----

  function Last<T>(s: seq<T>): T
    requires s != []
  {
    s[|s| - 1]
  }

  /** The list keeps its length: one occurrence of k turns into a copy of the last element. */
  lemma {:induction false} OverwriteEffect<T>(s: seq<T>, k: T)
    requires k in s
    ensures multiset(OverwriteFirst(s, k)) == multiset(s) - multiset{k} + multiset{Last(s)}
    ensures RemoveFirst(s, k) == OverwriteFirst(s, k)[..|s| - 1]
  {
    var r := OverwriteFirst(s, k);
    var front := r[..|s| - 1];
    assert r == front + [Last(s)] by {
      assert r[|s| - 1] == Last(s);
    }
    assert front == SwapRemove(s, IndexOf(s, k));
  }

  /** k survives its own discarded removal: it is the last element or occurs twice. */
  predicate Stays<T(==)>(s: seq<T>, k: T) {
    k in s && (Last(s) == k || multiset(s)[k] >= 2)
  }

  /** A list without k is untouched; otherwise k stays exactly when it is last or occurs twice. */
  lemma {:induction false} OverwriteKeepsIff<T>(s: seq<T>, k: T)
    ensures k !in s ==> OverwriteFirst(s, k) == s
    ensures k in s ==>
              && (k in OverwriteFirst(s, k) <==> Last(s) == k || multiset(s)[k] >= 2)
              && (multiset(OverwriteFirst(s, k)) == multiset(s) <==> Last(s) == k)
              && forall x :: x != k ==>
                   multiset(OverwriteFirst(s, k))[x] == multiset(s)[x] + (if x == Last(s) then 1 else 0)
  {
    if k in s {
      OverwriteEffect(s, k);
      assert k in OverwriteFirst(s, k) <==> k in multiset(OverwriteFirst(s, k));
      assert Last(s) != k ==> multiset(OverwriteFirst(s, k))[k] == multiset(s)[k] - 1;
    }
  }

  /** The effect on the number of occurrences of one element. */
  lemma {:induction false} OverwriteCount<T>(s: seq<T>, k: T, x: T)
    ensures multiset(OverwriteFirst(s, k))[x] ==
            if k !in s then multiset(s)[x]
            else multiset(s)[x] + (if Last(s) == x then 1 else 0) - (if x == k then 1 else 0)
    ensures x in OverwriteFirst(s, k) <==> if x == k then Stays(s, x) else x in s
  {
    hide OverwriteFirst;
    if k in s {
      OverwriteEffect(s, k);
      assert k in multiset(s);
    } else {
      OverwriteKeepsIff(s, k);
    }
    assert x in OverwriteFirst(s, k) <==> x in multiset(OverwriteFirst(s, k));
    assert x in s <==> x in multiset(s);
    assert k in s ==> Last(s) in s;
  }
}

/**
 * `upper_bound(it, it_end, x)` of 05.Copy.cpp over array positions.
 *
 * The source's right step recurses on [mid + 1, it_end) and its left step on
 * [it, mid + 1).  The left range has length n/2 + 1, which is n itself when
 * n <= 2, so once the left step is taken the recursion never reaches its
 * base case.  `UpperBoundAsWritten` models the code with a fuel bound and
 * answers None when the fuel runs out; `UpperBound` is the binary search the
 * code evidently intends, whose left step is [it, mid).
 */
module UpperBound {
  import opened Wrappers

  predicate Sorted(a: seq<int>, lo: int, hi: int)
    requires 0 <= lo <= hi <= |a|
  {
    forall i, j :: lo <= i <= j < hi ==> a[i] <= a[j]
  }

  /** `(it_end - it) / 2` on a non-negative distance: the midpoint never
      leaves the range, and never reaches its end when the range is non-empty. */
  function MidDistance(n: nat): (d: nat)
    ensures d <= n
    ensures n > 0 ==> d < n
    ensures n > 0 ==> n - d - 1 < n
  {
    n / 2
  }

  /** The source's recursion, cut off after `fuel` calls. */
  function UpperBoundAsWritten(a: seq<int>, it: int, itEnd: int, x: int, fuel: nat): (r: Option<int>)
    requires 0 <= it <= itEnd <= |a|
    ensures r.Some? ==> it <= r.value <= itEnd
    ensures it == itEnd <==> r == Some(it)
    decreases fuel
  {
    if it == itEnd then Some(itEnd)
    else if fuel == 0 then None
    else
      var mid := it + MidDistance(itEnd - it);
      if a[mid] <= x then UpperBoundAsWritten(a, mid + 1, itEnd, x, fuel - 1)
      else UpperBoundAsWritten(a, it, mid + 1, x, fuel - 1)
  }

  /** Once the last element of a non-empty range exceeds x, no fuel is enough:
      a right step keeps that last element, a left step ends on an element
      that exceeds x, and neither empties the range. */
  lemma {:induction false} AsWrittenStuck(a: seq<int>, it: int, itEnd: int, x: int, fuel: nat)
    requires 0 <= it < itEnd <= |a| && a[itEnd - 1] > x
    ensures UpperBoundAsWritten(a, it, itEnd, x, fuel) == None
    decreases fuel
  {
    if fuel > 0 {
      var mid := it + MidDistance(itEnd - it);
      if a[mid] <= x {
        AsWrittenStuck(a, mid + 1, itEnd, x, fuel - 1);
      } else {
        AsWrittenStuck(a, it, mid + 1, x, fuel - 1);
      }
    }
  }

  /** Whatever the source's search returns is the end of the range it was
      given: only right steps, which keep `it_end`, can reach the base case. */
  lemma {:induction false} AsWrittenReturnsEnd(a: seq<int>, it: int, itEnd: int, x: int, fuel: nat)
    requires 0 <= it <= itEnd <= |a|
    ensures UpperBoundAsWritten(a, it, itEnd, x, fuel).Some? ==>
              UpperBoundAsWritten(a, it, itEnd, x, fuel).value == itEnd
    decreases fuel
  {
    if it != itEnd && fuel > 0 {
      var mid := it + MidDistance(itEnd - it);
      if a[mid] <= x {
        AsWrittenReturnsEnd(a, mid + 1, itEnd, x, fuel - 1);
      } else {
        AsWrittenStuck(a, it, mid + 1, x, fuel - 1);
      }
    }
  }

  /** When no element exceeds x, the source's search only steps right and
      returns `it_end` within n calls. */
  lemma {:induction false} AsWrittenAllAtMost(a: seq<int>, it: int, itEnd: int, x: int, fuel: nat)
    requires 0 <= it <= itEnd <= |a| && fuel >= itEnd - it
    requires forall i :: it <= i < itEnd ==> a[i] <= x
    ensures UpperBoundAsWritten(a, it, itEnd, x, fuel) == Some(itEnd)
    decreases itEnd - it
  {
    if it != itEnd {
      var mid := it + MidDistance(itEnd - it);
      AsWrittenAllAtMost(a, mid + 1, itEnd, x, fuel - 1);
    }
  }

  /** On a sorted range with enough fuel, the source's search returns exactly
      when the range is empty or x is at least its last element. */
  lemma AsWrittenTerminatesIff(a: seq<int>, it: int, itEnd: int, x: int, fuel: nat)
    requires 0 <= it <= itEnd <= |a| && Sorted(a, it, itEnd) && fuel >= itEnd - it
    ensures UpperBoundAsWritten(a, it, itEnd, x, fuel).Some? <==> (it == itEnd || a[itEnd - 1] <= x)
  {
    if it != itEnd {
      if a[itEnd - 1] <= x {
        AsWrittenAllAtMost(a, it, itEnd, x, fuel);
      } else {
        AsWrittenStuck(a, it, itEnd, x, fuel);
      }
    }
  }

  /** The intended search: the left step keeps [it, mid), since mid itself
      already holds an element greater than x. */
  function UpperBound(a: seq<int>, it: int, itEnd: int, x: int): (r: int)
    requires 0 <= it <= itEnd <= |a|
    ensures it <= r <= itEnd
    decreases itEnd - it
  {
    if it == itEnd then itEnd
    else
      var mid := it + MidDistance(itEnd - it);
      if a[mid] <= x then UpperBound(a, mid + 1, itEnd, x)
      else UpperBound(a, it, mid, x)
  }

  lemma SortedWithin(a: seq<int>, lo: int, hi: int, lo': int, hi': int)
    requires 0 <= lo <= lo' <= hi' <= hi <= |a| && Sorted(a, lo, hi)
    ensures Sorted(a, lo', hi')
  {
  }

  /** In a sorted range, everything up to an element at most x is at most x,
      and everything from an element above x is above x. */
  lemma SortedAroundMid(a: seq<int>, it: int, itEnd: int, x: int, mid: int)
    requires 0 <= it <= mid < itEnd <= |a| && Sorted(a, it, itEnd)
    ensures a[mid] <= x ==> forall i :: it <= i <= mid ==> a[i] <= x
    ensures a[mid] > x ==> forall i :: mid <= i < itEnd ==> a[i] > x
  {
  }

  /** On a sorted range, `UpperBound` splits it: everything before the result
      is at most x, everything from the result on exceeds x. */
  lemma {:induction false} UpperBoundSpec(a: seq<int>, it: int, itEnd: int, x: int)
    requires 0 <= it <= itEnd <= |a| && Sorted(a, it, itEnd)
    ensures var r := UpperBound(a, it, itEnd, x);
            && (forall i :: it <= i < r ==> a[i] <= x)
            && (forall i :: r <= i < itEnd ==> a[i] > x)
    decreases itEnd - it
  {
    if it != itEnd {
      var mid := it + MidDistance(itEnd - it);
      SortedAroundMid(a, it, itEnd, x, mid);
      if a[mid] <= x {
        assert UpperBound(a, it, itEnd, x) == UpperBound(a, mid + 1, itEnd, x);
        SortedWithin(a, it, itEnd, mid + 1, itEnd);
        UpperBoundSpec(a, mid + 1, itEnd, x);
      } else {
        assert UpperBound(a, it, itEnd, x) == UpperBound(a, it, mid, x);
        SortedWithin(a, it, itEnd, it, mid);
        UpperBoundSpec(a, it, mid, x);
      }
    }
  }

  /** Whenever the source's search does return on a sorted range, it agrees
      with the intended search. */
  lemma AsWrittenAgreesWhenItReturns(a: seq<int>, it: int, itEnd: int, x: int, fuel: nat)
    requires 0 <= it <= itEnd <= |a| && Sorted(a, it, itEnd)
    requires UpperBoundAsWritten(a, it, itEnd, x, fuel).Some?
    ensures UpperBoundAsWritten(a, it, itEnd, x, fuel).value == UpperBound(a, it, itEnd, x)
  {
    AsWrittenReturnsEnd(a, it, itEnd, x, fuel);
    UpperBoundSpec(a, it, itEnd, x);
    if it != itEnd && a[itEnd - 1] > x {
      AsWrittenStuck(a, it, itEnd, x, fuel);
    }
  }

  /** The intended search on [1,3,3,5,7]: 3 gives index 3, 0 gives index 0,
      7 gives the end. */
  lemma UpperBoundExamples()
    ensures UpperBound([1, 3, 3, 5, 7], 0, 5, 3) == 3
    ensures UpperBound([1, 3, 3, 5, 7], 0, 5, 0) == 0
    ensures UpperBound([1, 3, 3, 5, 7], 0, 5, 7) == 5
  {
  }

  /** The source's search on the same array: for 3 (and for 0) it never
      returns, whatever the fuel; for 7 it returns the end. */
  lemma AsWrittenExamples(fuel: nat)
    ensures UpperBoundAsWritten([1, 3, 3, 5, 7], 0, 5, 3, fuel) == None
    ensures UpperBoundAsWritten([1, 3, 3, 5, 7], 0, 5, 0, fuel) == None
    ensures fuel >= 5 ==> UpperBoundAsWritten([1, 3, 3, 5, 7], 0, 5, 7, fuel) == Some(5)
  {
    var a := [1, 3, 3, 5, 7];
    AsWrittenStuck(a, 0, 5, 3, fuel);
    AsWrittenStuck(a, 0, 5, 0, fuel);
    if fuel >= 5 {
      AsWrittenAllAtMost(a, 0, 5, 7, fuel);
    }
  }

  /** The trace on {1,3,3,5,7} with x = 3: the first step goes right to
      [3, 5), and from there the left step comes back to [3, 5). */
  lemma AsWrittenTrace(fuel: nat)
    ensures UpperBoundAsWritten([1, 3, 3, 5, 7], 0, 5, 3, fuel + 1) == UpperBoundAsWritten([1, 3, 3, 5, 7], 3, 5, 3, fuel)
    ensures UpperBoundAsWritten([1, 3, 3, 5, 7], 3, 5, 3, fuel + 1) == UpperBoundAsWritten([1, 3, 3, 5, 7], 3, 5, 3, fuel)
  {
    assert MidDistance(5) == 2 && MidDistance(2) == 1;
  }
}

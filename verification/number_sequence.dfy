/**
 * The integer counter of 01.NumberSequence.cpp: `myit` holds an int,
 * dereferences to it and counts up; `Numbers(start, end)` hands out the two
 * ends of the range.
 */
module NumberSequence {
  import opened Wrappers

  datatype Counter = Counter(value: int)

  /** What the postfix increment hands back: a holder of the old value. */
  datatype IntHolder = IntHolder(held: int)

  datatype Numbers = Numbers(start: int, end: int)

  function Deref(it: Counter): int { it.value }

  function HolderDeref(h: IntHolder): int { h.held }

  /** `operator==` compares the held integers. */
  function Equal(a: Counter, b: Counter): (r: bool)
    ensures r <==> a == b
  {
    a.value == b.value
  }

  /** Prefix increment: the next integer, never equal to the current one. */
  function PreInc(it: Counter): (r: Counter)
    ensures Deref(r) == Deref(it) + 1 && !Equal(r, it)
  {
    Counter(it.value + 1)
  }

  /** `==` is an equivalence relation that increments preserve and reflect,
      and a counter advanced k times from the beginning of a range equals
      its end exactly when k is the range's length. */
  lemma EqualityLaws(a: Counter, b: Counter, c: Counter, n: Numbers, k: nat)
    ensures Equal(a, a)
    ensures Equal(a, b) ==> Equal(b, a)
    ensures Equal(a, b) && Equal(b, c) ==> Equal(a, c)
    ensures Equal(PreInc(a), PreInc(b)) <==> Equal(a, b)
    ensures Equal(Advance(Begin(n), k), End(n)) <==> n.start + k == n.end
  {
    AdvanceAdds(Begin(n), k);
  }

  /** Postfix increment: the advanced counter and a holder of the old value. */
  function PostInc(it: Counter): (r: (IntHolder, Counter))
    ensures HolderDeref(r.0) == Deref(it) && Deref(r.1) == Deref(it) + 1
  {
    (IntHolder(it.value), PreInc(it))
  }

  function Begin(n: Numbers): Counter { Counter(n.start) }

  function End(n: Numbers): Counter { Counter(n.end) }

  /** The counter after k prefix increments. */
  function Advance(it: Counter, k: nat): Counter
    decreases k
  {
    if k == 0 then it else Advance(PreInc(it), k - 1)
  }

  /** Prefix increment moves to the next integer: k of them add k, and the
      counter never returns to an earlier value. */
  lemma {:induction false} AdvanceAdds(it: Counter, k: nat)
    ensures Deref(Advance(it, k)) == Deref(it) + k
    ensures k > 0 ==> !Equal(Advance(it, k), it)
    decreases k
  {
    if k > 0 {
      AdvanceAdds(PreInc(it), k - 1);
    }
  }

  /** The holder returned by postfix increment reads the value before the
      increment, while the counter moves on by exactly one. */
  lemma PostIncSpec(it: Counter)
    ensures HolderDeref(PostInc(it).0) == Deref(it)
    ensures Deref(PostInc(it).1) == Deref(it) + 1
    ensures PostInc(it).1 == Advance(it, 1)
  {
  }

  /** The range-for loop and the vector constructor: read and increment until
      the counter equals the end.  None when `fuel` steps do not reach it. */
  function Collect(it: Counter, e: Counter, fuel: nat): (r: Option<seq<int>>)
    ensures r.Some? ==> forall i :: 0 <= i < |r.value| ==> r.value[i] == Deref(it) + i
    ensures r.Some? ==> e.value == it.value + |r.value|
    decreases fuel
  {
    if Equal(it, e) then Some([])
    else if fuel == 0 then None
    else
      match Collect(PreInc(it), e, fuel - 1)
      case None => None
      case Some(rest) => Some([Deref(it)] + rest)
  }

  /** start..end-1, the sequence the loop should produce. */
  function Interval(start: int, end: int): (xs: seq<int>)
    requires start <= end
    ensures |xs| == end - start
    ensures forall i :: 0 <= i < |xs| ==> xs[i] == start + i
  {
    seq(end - start, i => start + i)
  }

  /** From below, the loop yields every integer from the start up to but not
      including the end. */
  lemma {:induction false} CollectCountsUp(start: int, end: int, fuel: nat)
    requires start <= end && fuel >= end - start
    ensures Collect(Counter(start), Counter(end), fuel) == Some(Interval(start, end))
    decreases end - start
  {
    if start != end {
      CollectCountsUp(start + 1, end, fuel - 1);
      assert Interval(start, end) == [start] + Interval(start + 1, end);
    }
  }

  /** From above, the counter only moves away from the end: no fuel is
      enough. */
  lemma {:induction false} CollectNeverEnds(start: int, end: int, fuel: nat)
    requires start > end
    ensures Collect(Counter(start), Counter(end), fuel) == None
    decreases fuel
  {
    if fuel > 0 {
      CollectNeverEnds(start + 1, end, fuel - 1);
    }
  }

  /** The loop over `Numbers(start, end)` ends exactly when start <= end,
      given enough fuel. */
  lemma CollectEndsIff(n: Numbers, fuel: nat)
    requires fuel >= n.end - n.start
    ensures Collect(Begin(n), End(n), fuel).Some? <==> n.start <= n.end
  {
    if n.start <= n.end {
      CollectCountsUp(n.start, n.end, fuel);
    } else {
      CollectNeverEnds(n.start, n.end, fuel);
    }
  }

  /** The vector-fill loop as a method. */
  method FillVector(n: Numbers) returns (v: seq<int>)
    requires n.start <= n.end
    ensures v == Interval(n.start, n.end)
  {
    v := [];
    var it := Begin(n);
    var e := End(n);
    while !Equal(it, e)
      invariant n.start <= it.value <= n.end
      invariant v == Interval(n.start, it.value)
      decreases n.end - it.value
    {
      v := v + [Deref(it)];
      it := PreInc(it);
    }
  }

  /** `Numbers(7, 10)` fills a vector with 7, 8, 9; `Numbers(3, 5)` prints 3
      and 4. */
  lemma NumbersExamples()
    ensures Collect(Begin(Numbers(7, 10)), End(Numbers(7, 10)), 3) == Some([7, 8, 9])
    ensures Collect(Begin(Numbers(3, 5)), End(Numbers(3, 5)), 2) == Some([3, 4])
    ensures Deref(Begin(Numbers(7, 10))) == 7 && Deref(End(Numbers(7, 10))) == 10
  {
    CollectCountsUp(7, 10, 3);
    assert Interval(7, 10) == [7, 8, 9];
    CollectCountsUp(3, 5, 2);
    assert Interval(3, 5) == [3, 4];
  }
}

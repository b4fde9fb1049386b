/**
 * The numeric range of 04.PostInc.cpp.  A `numeric_range` owns a current
 * value and an end; its iterators hold a pointer to the range, or null for
 * the end iterator, so every iterator of a range shares one current value.
 * Here the ranges alive are a sequence and a pointer is an index into it.
 * Exceptions become `Err` results carrying the exception's message.
 */
module PostInc {
  import opened Wrappers
  import NumberSequence

  datatype NumericRange = NumericRange(current: int, end: int)

  /** `at_end`. */
  predicate AtEnd(r: NumericRange) { r.current >= r.end }

  type World = seq<NumericRange>

  /** An iterator: the index of its range, or None for null. */
  datatype RangeIter = RangeIter(range: Option<nat>)

  predicate Valid(w: World, it: RangeIter)
  {
    it.range.Some? ==> it.range.value < |w|
  }

  /** `begin()`: an iterator on the range, which is never the end iterator,
      even for a range already at its end. */
  function Begin(id: nat): (it: RangeIter)
    ensures it != End()
  {
    RangeIter(Some(id))
  }

  function End(): RangeIter { RangeIter(None) }

  /** Dereference reads the shared current value.  Dereferencing the end
      iterator reads through a null pointer and is left out. */
  function Deref(w: World, it: RangeIter): int
    requires it.range.Some? && Valid(w, it)
  {
    w[it.range.value].current
  }

  /** `operator==` compares the range pointers. */
  function Equal(a: RangeIter, b: RangeIter): (r: bool)
    ensures r <==> a == b
  {
    a.range == b.range
  }

  /** `==` is an equivalence relation, and a begin iterator never equals the
      end iterator. */
  lemma EqualityLaws(a: RangeIter, b: RangeIter, c: RangeIter, id: nat)
    ensures Equal(a, a)
    ensures Equal(a, b) ==> Equal(b, a)
    ensures Equal(a, b) && Equal(b, c) ==> Equal(a, c)
    ensures !Equal(Begin(id), End())
    ensures Equal(a, End()) <==> a.range.None?
  {
  }

  const PastTheEnd: string := "Increment a past- the-end iterator"
  const CountDown: string := "Cannot count down"

  datatype Moved = Moved(world: World, it: RangeIter)

  /** `check_done`: become the end iterator once the range is at its end. */
  function CheckDone(w: World, it: RangeIter): (r: RangeIter)
    requires it.range.Some? && Valid(w, it)
    ensures Equal(r, End()) <==> AtEnd(w[it.range.value])
    ensures !Equal(r, End()) ==> r == it
  {
    if AtEnd(w[it.range.value]) then End() else it
  }

  /** Prefix increment: fails on the end iterator, otherwise bumps the shared
      current value and checks for the end. */
  function PreInc(w: World, it: RangeIter): (r: Result<Moved>)
    requires Valid(w, it)
    ensures r.Err? <==> Equal(it, End())
    ensures r.Ok? ==> |r.value.world| == |w| && Valid(r.value.world, r.value.it)
  {
    if it.range.None? then Err(PastTheEnd)
    else
      var id := it.range.value;
      var w' := w[id := NumericRange(w[id].current + 1, w[id].end)];
      Ok(Moved(w', CheckDone(w', it)))
  }

  /** Prefix increment fails exactly on the end iterator; otherwise it adds
      one to its own range's current value, touches no other range, and ends
      the iterator exactly when the new value reaches the end. */
  lemma PreIncSpec(w: World, it: RangeIter)
    requires Valid(w, it)
    ensures PreInc(w, it).Err? <==> it == End()
    ensures PreInc(w, it).Err? ==> PreInc(w, it).message == "Increment a past- the-end iterator"
    ensures PreInc(w, it).Ok? ==>
              var id := it.range.value;
              var m := PreInc(w, it).value;
              && |m.world| == |w|
              && m.world[id] == NumericRange(w[id].current + 1, w[id].end)
              && (forall j :: 0 <= j < |w| && j != id ==> m.world[j] == w[j])
              && (m.it == End() <==> w[id].current + 1 >= w[id].end)
              && (m.it != End() ==> m.it == it)
  {
  }

  datatype PostMoved = PostMoved(world: World, it: RangeIter, returned: RangeIter)

  /** Postfix increment as written: a copy of the iterator, taken before the
      increment, is returned. */
  function PostIncAsWritten(w: World, it: RangeIter): (r: Result<PostMoved>)
    requires Valid(w, it)
    ensures r.Err? <==> Equal(it, End())
    ensures r.Ok? ==> r.value.returned == it && Valid(r.value.world, r.value.returned)
  {
    var temp := it;
    match PreInc(w, it)
    case Err(e) => Err(e)
    case Ok(m) => Ok(PostMoved(m.world, m.it, temp))
  }

  /** The copy shares the range, so when it is not the end iterator it reads
      the value after the increment, not the one it was taken at. */
  lemma PostIncAsWrittenReadsNewValue(w: World, it: RangeIter)
    requires Valid(w, it) && it.range.Some?
    ensures PostIncAsWritten(w, it).Ok?
    ensures PostIncAsWritten(w, it).value.returned == it
    ensures Deref(PostIncAsWritten(w, it).value.world, it) == Deref(w, it) + 1
  {
  }

  /** `postinc_return`: a holder of a value. */
  datatype PostIncReturn = PostIncReturn(held: int)

  datatype PostStepped = PostStepped(world: World, it: RangeIter, returned: PostIncReturn)

  /** Postfix increment returning a holder of the value before the
      increment. */
  function PostInc(w: World, it: RangeIter): (r: Result<PostStepped>)
    requires Valid(w, it)
    ensures r.Err? <==> Equal(it, End())
    ensures r.Ok? ==> r.value.returned.held == Deref(w, it)
  {
    if it.range.None? then Err(PastTheEnd)
    else
      var before := Deref(w, it);
      match PreInc(w, it)
      case Err(e) => Err(e)
      case Ok(m) => Ok(PostStepped(m.world, m.it, PostIncReturn(before)))
  }

  /** The holder reads the value before the increment, and the iterator and
      ranges move exactly as under prefix increment. */
  lemma PostIncSpec(w: World, it: RangeIter)
    requires Valid(w, it)
    ensures PostInc(w, it).Err? <==> PreInc(w, it).Err?
    ensures PostInc(w, it).Ok? ==>
              && PostInc(w, it).value.returned.held == Deref(w, it)
              && Moved(PostInc(w, it).value.world, PostInc(w, it).value.it) == PreInc(w, it).value
  {
  }

  /** `range(to)`: counts from zero, with no check. */
  function RangeTo(to: int): (r: NumericRange)
    ensures r.current == 0 && r.end == to
    ensures AtEnd(r) <==> to <= 0
  {
    NumericRange(0, to)
  }

  /** `range(from, to)`: fails unless `from` is below `to`. */
  function RangeFromTo(from: int, to: int): (r: Result<NumericRange>)
    ensures r.Err? <==> to <= from
    ensures r.Err? ==> r.message == "Cannot count down"
    ensures r.Ok? ==> r.value == NumericRange(from, to) && !AtEnd(r.value)
  {
    if to <= from then Err(CountDown) else Ok(NumericRange(from, to))
  }

  datatype Collected = Collected(world: World, values: seq<int>)

  function Remaining(w: World, it: RangeIter): nat
    requires Valid(w, it)
  {
    if it.range.None? then 0
    else var r := w[it.range.value]; if r.current < r.end then r.end - r.current + 1 else 1
  }

  /** Read and increment until the iterator equals the end iterator: the
      vector constructor and the range-for loop. */
  function Collect(w: World, it: RangeIter): (c: Collected)
    requires Valid(w, it)
    ensures |c.world| == |w|
    ensures Equal(it, End()) <==> c.values == []
    decreases Remaining(w, it)
  {
    if Equal(it, End()) then Collected(w, [])
    else
      var m := PreInc(w, it).value;
      var rest := Collect(m.world, m.it);
      Collected(rest.world, [Deref(w, it)] + rest.values)
  }

  /** Iterating a range from its begin iterator: from below the end it yields
      every value up to but not including the end and leaves the shared value
      at the end; from at or past the end it still yields the start value,
      once.  No other range is touched. */
  lemma {:induction false} CollectSpec(w: World, id: nat)
    requires id < |w|
    ensures var r := w[id];
            var c := Collect(w, Begin(id));
            && c.values == (if r.current < r.end then NumberSequence.Interval(r.current, r.end) else [r.current])
            && |c.world| == |w|
            && c.world[id] == NumericRange(if r.current < r.end then r.end else r.current + 1, r.end)
            && (forall j :: 0 <= j < |w| && j != id ==> c.world[j] == w[j])
    decreases Remaining(w, Begin(id))
  {
    var r := w[id];
    var m := PreInc(w, Begin(id)).value;
    PreIncSpec(w, Begin(id));
    if m.it != End() {
      CollectSpec(m.world, id);
      var rest := Collect(m.world, m.it);
      assert NumberSequence.Interval(r.current, r.end) == [r.current] + rest.values;
    }
  }

  /** `begin()` as intended: already the end iterator when the range starts
      at or past its end. */
  function BeginChecked(w: World, id: nat): (it: RangeIter)
    requires id < |w|
    ensures Equal(it, End()) <==> AtEnd(w[id])
  {
    CheckDone(w, Begin(id))
  }

  /** With the checked `begin()`, iteration yields the values from the
      current one up to but not including the end, and none at all when the
      range starts at or past its end. */
  lemma CollectCheckedSpec(w: World, id: nat)
    requires id < |w|
    ensures var r := w[id];
            Collect(w, BeginChecked(w, id)).values
            == NumberSequence.Interval(r.current, if r.current < r.end then r.end else r.current)
  {
    CollectSpec(w, id);
  }

  /** The test: `range(0, 10)` read into a vector ends with 9 and leaves the
      shared value at 10, so `begin()` no longer reads 0.  `range(0)` yields a
      single 0 as written and nothing with the checked `begin()`. */
  lemma PostIncExamples()
    ensures RangeFromTo(0, 10) == Ok(NumericRange(0, 10))
    ensures var c := Collect([NumericRange(0, 10)], Begin(0));
            && |c.values| == 10 && c.values[9] == 9
            && Deref(c.world, Begin(0)) == 10
    ensures Collect([RangeTo(0)], Begin(0)).values == [0]
    ensures Collect([RangeTo(0)], BeginChecked([RangeTo(0)], 0)).values == []
    ensures RangeFromTo(5, 5) == Err("Cannot count down")
  {
    CollectSpec([NumericRange(0, 10)], 0);
    CollectSpec([RangeTo(0)], 0);
    CollectCheckedSpec([RangeTo(0)], 0);
  }
}

/**
 * The generic algorithms of 05.Copy.cpp: `copy`, `fill`, `max_element` and
 * `reverse`.  Each is a recursive function that takes exactly the steps of
 * the source's loop, one call per iteration, over the primitives of
 * `Primitives`; the lemmas state what the loop achieves.
 *
 * `copy` and `fill` work on either kind of position.  `reverse` needs
 * retreat, which only array positions have, so it works on a flat sequence.
 */
module Algorithms {
  import opened Wrappers
  import opened Primitives

  /** What `copy` leaves behind: the updated destination and the returned
      output position. */
  datatype Copied<T> = Copied(dst: Store<T>, out: int)

  /** `copy(input, in_end, out, out_end)`, the generic body: while neither range
      is exhausted, write the source element, then advance both positions. */
  function Copy<T>(src: Store<T>, input: int, inEnd: int, dst: Store<T>, out: int, outEnd: int): (r: Copied<T>)
    requires ValidRange(src, input, inEnd) && ValidRange(dst, out, outEnd)
    ensures SameShape(dst, r.dst) && Size(r.dst) == Size(dst)
    decreases Distance(src, input, inEnd)
  {
    if input != inEnd && out != outEnd then
      StepRange(src, input, inEnd);
      StepRange(dst, out, outEnd);
      var d := Sink(dst, out, Source(src, input));
      SameShapeSuccessor(dst, d, out);
      ShapeKeepsRange(dst, d, Successor(dst, out), outEnd);
      var r := Copy(src, Successor(src, input), inEnd, d, Successor(d, out), outEnd);
      SameShapeTransitive(dst, d, r.dst);
      r
    else
      Copied(dst, out)
  }

  /** One iteration of the copy loop, unfolded. */
  lemma CopyStep<T>(src: Store<T>, input: int, inEnd: int, dst: Store<T>, out: int, outEnd: int)
    requires ValidRange(src, input, inEnd) && ValidRange(dst, out, outEnd)
    requires input != inEnd && out != outEnd
    ensures Dereferenceable(src, input) && Dereferenceable(dst, out)
    ensures var d := Sink(dst, out, Source(src, input));
            var in1 := Successor(src, input);
            var out1 := Successor(dst, out);
            && ValidRange(src, in1, inEnd)
            && ValidRange(dst, out1, outEnd)
            && ValidRange(d, out1, outEnd)
            && Successor(d, out) == out1
            && Copy(src, input, inEnd, dst, out, outEnd) == Copy(src, in1, inEnd, d, out1, outEnd)
            && Distance(src, in1, inEnd) == Distance(src, input, inEnd) - 1
            && Distance(d, out1, outEnd) == Distance(dst, out, outEnd) - 1
            && Positions(d, out1, outEnd) == Positions(dst, out1, outEnd)
            && Positions(dst, out, outEnd) == [out] + Positions(dst, out1, outEnd)
            && Elements(src, input, inEnd) == [Source(src, input)] + Elements(src, in1, inEnd)
            && out !in Positions(dst, out1, outEnd)
  {
    ElementsStep(src, input, inEnd);
    ElementsStep(dst, out, outEnd);
    FirstNotRevisited(dst, out, outEnd);
    var d := Sink(dst, out, Source(src, input));
    SameShapeSuccessor(dst, d, out);
    var out1 := Successor(dst, out);
    ShapeKeepsRange(dst, d, out1, outEnd);
    ShapeKeepsPositions(dst, d, out1, outEnd);
  }

  /** The copy changes no position beyond the first k = min(len_in, len_out)
      of the destination range. */
  lemma {:induction false} CopyFrame<T>(src: Store<T>, input: int, inEnd: int, dst: Store<T>, out: int, outEnd: int)
    requires ValidRange(src, input, inEnd) && ValidRange(dst, out, outEnd)
    ensures var r := Copy(src, input, inEnd, dst, out, outEnd);
            var k := Min(Distance(src, input, inEnd), Distance(dst, out, outEnd));
            forall q :: Dereferenceable(dst, q) && q !in Positions(dst, out, outEnd)[..k] ==>
              Source(r.dst, q) == Source(dst, q)
    decreases Distance(src, input, inEnd)
  {
    if input != inEnd && out != outEnd {
      CopyStep(src, input, inEnd, dst, out, outEnd);
      var d := Sink(dst, out, Source(src, input));
      var in1, out1 := Successor(src, input), Successor(dst, out);
      CopyFrame(src, in1, inEnd, d, out1, outEnd);
      var k := Min(Distance(src, input, inEnd), Distance(dst, out, outEnd));
      var ps := Positions(dst, out, outEnd);
      assert ps[..k] == [out] + Positions(dst, out1, outEnd)[..k - 1];
    }
  }

  /** The copy writes the source elements, in order, into the first
      k = min(len_in, len_out) positions of the destination range. */
  lemma {:induction false} CopyWrites<T>(src: Store<T>, input: int, inEnd: int, dst: Store<T>, out: int, outEnd: int)
    requires ValidRange(src, input, inEnd) && ValidRange(dst, out, outEnd)
    ensures var r := Copy(src, input, inEnd, dst, out, outEnd);
            var k := Min(Distance(src, input, inEnd), Distance(dst, out, outEnd));
            var ps := Positions(dst, out, outEnd);
            forall i :: 0 <= i < k ==> Source(r.dst, ps[i]) == Elements(src, input, inEnd)[i]
    decreases Distance(src, input, inEnd)
  {
    if input != inEnd && out != outEnd {
      CopyStep(src, input, inEnd, dst, out, outEnd);
      var v := Source(src, input);
      var d := Sink(dst, out, v);
      var in1, out1 := Successor(src, input), Successor(dst, out);
      var r := Copy(src, in1, inEnd, d, out1, outEnd);
      CopyWrites(src, in1, inEnd, d, out1, outEnd);
      CopyFrame(src, in1, inEnd, d, out1, outEnd);
      var k := Min(Distance(src, input, inEnd), Distance(dst, out, outEnd));
      var ps := Positions(dst, out, outEnd);
      var ps1 := Positions(dst, out1, outEnd);
      assert out !in ps1[..k - 1];
      assert Source(r.dst, out) == v;
      forall i | 0 <= i < k
        ensures Source(r.dst, ps[i]) == Elements(src, input, inEnd)[i]
      {
        if i > 0 {
          assert ps[i] == ps1[i - 1];
        }
      }
    }
  }

  /** The copy returns the output position advanced k = min(len_in, len_out)
      steps. */
  lemma {:induction false} CopyReturns<T>(src: Store<T>, input: int, inEnd: int, dst: Store<T>, out: int, outEnd: int)
    requires ValidRange(src, input, inEnd) && ValidRange(dst, out, outEnd)
    ensures var k := Min(Distance(src, input, inEnd), Distance(dst, out, outEnd));
            Copy(src, input, inEnd, dst, out, outEnd).out == Advance(dst, out, outEnd, k)
    decreases Distance(src, input, inEnd)
  {
    if input != inEnd && out != outEnd {
      CopyStep(src, input, inEnd, dst, out, outEnd);
      var d := Sink(dst, out, Source(src, input));
      var in1, out1 := Successor(src, input), Successor(dst, out);
      CopyReturns(src, in1, inEnd, d, out1, outEnd);
      var k := Min(Distance(src, input, inEnd), Distance(dst, out, outEnd));
      ShapeKeepsAdvance(dst, d, out1, outEnd, k - 1);
      AdvanceStep(dst, out, outEnd, k);
    } else {
      EmptyRange(dst, out, outEnd);
      EmptyRange(src, input, inEnd);
    }
  }

  /** Contents view of `CopyWrites` and `CopyFrame`: the destination range now reads as the
      copied source prefix followed by its own untouched tail, and every
      position outside the destination range is unchanged. */
  lemma CopyContents<T>(src: Store<T>, input: int, inEnd: int, dst: Store<T>, out: int, outEnd: int)
    requires ValidRange(src, input, inEnd) && ValidRange(dst, out, outEnd)
    ensures var r := Copy(src, input, inEnd, dst, out, outEnd);
            var k := Min(Distance(src, input, inEnd), Distance(dst, out, outEnd));
            && ValidRange(r.dst, out, outEnd)
            && Elements(r.dst, out, outEnd)
               == Elements(src, input, inEnd)[..k] + Elements(dst, out, outEnd)[k..]
            && (forall q :: Dereferenceable(dst, q) && q !in Positions(dst, out, outEnd) ==>
                  Source(r.dst, q) == Source(dst, q))
  {
    var r := Copy(src, input, inEnd, dst, out, outEnd);
    var k := Min(Distance(src, input, inEnd), Distance(dst, out, outEnd));
    CopyWrites(src, input, inEnd, dst, out, outEnd);
    CopyFrame(src, input, inEnd, dst, out, outEnd);
    ShapeKeepsPositions(dst, r.dst, out, outEnd);
    PositionsDistinct(dst, out, outEnd);
    var ps := Positions(dst, out, outEnd);
    var es := Elements(src, input, inEnd);
    var ed := Elements(dst, out, outEnd);
    var lhs := Elements(r.dst, out, outEnd);
    var rhs := es[..k] + ed[k..];
    forall i | 0 <= i < |ps|
      ensures lhs[i] == rhs[i]
    {
      assert lhs[i] == Source(r.dst, ps[i]);
      if i >= k {
        forall j | 0 <= j < k
          ensures ps[..k][j] != ps[i]
        {
          assert ps[j] != ps[i];
        }
        assert ps[i] !in ps[..k];
        assert ed[i] == Source(dst, ps[i]);
      }
    }
    assert lhs == rhs;
    forall q | Dereferenceable(dst, q) && q !in ps
      ensures Source(r.dst, q) == Source(dst, q)
    {
      assert q !in ps[..k];
    }
  }

  /** The unconstrained `::copy` of the source: the same loop written as a
      loop.  It computes exactly what `Copy` computes. */
  method CopyLoop<T>(src: Store<T>, input: int, inEnd: int, dst: Store<T>, out: int, outEnd: int)
    returns (dst': Store<T>, out': int)
    requires ValidRange(src, input, inEnd) && ValidRange(dst, out, outEnd)
    ensures Copied(dst', out') == Copy(src, input, inEnd, dst, out, outEnd)
  {
    var i, o, d := input, out, dst;
    while i != inEnd && o != outEnd
      invariant ValidRange(src, i, inEnd) && ValidRange(d, o, outEnd)
      invariant Copy(src, i, inEnd, d, o, outEnd) == Copy(src, input, inEnd, dst, out, outEnd)
      decreases Distance(src, i, inEnd)
    {
      StepRange(src, i, inEnd);
      StepRange(d, o, outEnd);
      var d1 := Sink(d, o, Source(src, i));
      SameShapeSuccessor(d, d1, o);
      ShapeKeepsRange(d, d1, Successor(d, o), outEnd);
      d := d1;
      o := Successor(d, o);
      i := Successor(src, i);
    }
    dst', out' := d, o;
  }

  /** `fill(it, it_end, x)`: write x at each position of the range. */
  function Fill<T>(s: Store<T>, it: int, itEnd: int, x: T): (r: Store<T>)
    requires ValidRange(s, it, itEnd)
    ensures SameShape(s, r)
    decreases Distance(s, it, itEnd)
  {
    if it == itEnd then s
    else
      StepRange(s, it, itEnd);
      var t := Sink(s, it, x);
      SameShapeSuccessor(s, t, it);
      ShapeKeepsRange(s, t, Successor(s, it), itEnd);
      var r := Fill(t, Successor(t, it), itEnd, x);
      SameShapeTransitive(s, t, r);
      r
  }

  /** After `fill`, a position holds x exactly when it lies in the range;
      every other position keeps its element.  An empty range is a no-op. */
  lemma {:induction false} FillSpec<T>(s: Store<T>, it: int, itEnd: int, x: T)
    requires ValidRange(s, it, itEnd)
    ensures var r := Fill(s, it, itEnd, x);
            && Size(r) == Size(s)
            && (forall q :: Dereferenceable(s, q) ==>
                  Source(r, q) == if q in Positions(s, it, itEnd) then x else Source(s, q))
            && (it == itEnd ==> r == s)
    decreases Distance(s, it, itEnd)
  {
    var r := Fill(s, it, itEnd, x);
    SameShapeSize(s, r);
    if it != itEnd {
      ElementsStep(s, it, itEnd);
      FirstNotRevisited(s, it, itEnd);
      var t := Sink(s, it, x);
      var it1 := Successor(s, it);
      SameShapeSuccessor(s, t, it);
      ShapeKeepsRange(s, t, it1, itEnd);
      ShapeKeepsPositions(s, t, it1, itEnd);
      FillSpec(t, it1, itEnd, x);
    }
  }

  /** Reading the filled range back yields x at every step. */
  lemma FillElements<T>(s: Store<T>, it: int, itEnd: int, x: T)
    requires ValidRange(s, it, itEnd)
    ensures ValidRange(Fill(s, it, itEnd, x), it, itEnd)
    ensures Elements(Fill(s, it, itEnd, x), it, itEnd) == seq(Distance(s, it, itEnd), _ => x)
  {
    var r := Fill(s, it, itEnd, x);
    FillSpec(s, it, itEnd, x);
    ShapeKeepsPositions(s, r, it, itEnd);
    var ps := Positions(s, it, itEnd);
    assert forall i :: 0 <= i < |ps| ==> ps[i] in ps;
  }

  /** The scan of `max_element` after its first comparison: `maxIt` is the
      best position so far, `it` the next one to look at. */
  function MaxElementFrom(s: Store<int>, it: int, itEnd: int, maxIt: int): (r: int)
    requires ValidRange(s, it, itEnd)
    requires maxIt == it || Dereferenceable(s, maxIt)
    ensures r == maxIt || Dereferenceable(s, r)
    decreases Distance(s, it, itEnd)
  {
    if it == itEnd then maxIt
    else
      StepRange(s, it, itEnd);
      var m := if Source(s, it) > Source(s, maxIt) then it else maxIt;
      MaxElementFrom(s, Successor(s, it), itEnd, m)
  }

  /** `max_element(it, it_end)`: starts with `max_it = it` and replaces it only
      on a strictly greater element. */
  function MaxElement(s: Store<int>, it: int, itEnd: int): (r: int)
    requires ValidRange(s, it, itEnd)
    ensures it == itEnd ==> r == itEnd
    ensures it != itEnd ==> Dereferenceable(s, r)
  {
    assert it != itEnd ==> Dereferenceable(s, it) by {
      if it != itEnd { StepRange(s, it, itEnd); }
    }
    MaxElementFrom(s, it, itEnd, it)
  }

  /** i is the first index holding a maximum of xs. */
  predicate IsFirstMax(xs: seq<int>, i: int) {
    && 0 <= i < |xs|
    && (forall j :: 0 <= j < |xs| ==> xs[j] <= xs[i])
    && (forall j :: 0 <= j < i ==> xs[j] < xs[i])
  }

  /** There is at most one first maximum. */
  lemma FirstMaxUnique(xs: seq<int>, i: int, j: int)
    requires IsFirstMax(xs, i) && IsFirstMax(xs, j)
    ensures i == j
  {
    assert xs[j] <= xs[i] && xs[i] <= xs[j];
  }

  /** A head no smaller than everything after it is the first maximum. */
  lemma FirstMaxAtHead(x: int, ys: seq<int>)
    requires forall j :: 0 <= j < |ys| ==> ys[j] <= x
    ensures IsFirstMax([x] + ys, 0)
  {
    var xs := [x] + ys;
    forall j | 0 <= j < |xs|
      ensures xs[j] <= xs[0]
    {
      if j > 0 {
        assert xs[j] == ys[j - 1];
      }
    }
  }

  /** A head strictly below the first maximum of the tail keeps that
      maximum first, one place further on. */
  lemma FirstMaxBehindHead(x: int, ys: seq<int>, i: int)
    requires IsFirstMax(ys, i) && x < ys[i]
    ensures IsFirstMax([x] + ys, i + 1)
  {
    var xs := [x] + ys;
    forall j | 0 <= j < |xs|
      ensures xs[j] <= xs[i + 1] && (j < i + 1 ==> xs[j] < xs[i + 1])
    {
      if j > 0 {
        assert xs[j] == ys[j - 1];
      }
    }
  }

  lemma {:induction false} MaxElementFromSpec(s: Store<int>, it: int, itEnd: int, maxIt: int)
    requires ValidRange(s, it, itEnd) && Dereferenceable(s, maxIt)
    ensures var r := MaxElementFrom(s, it, itEnd, maxIt);
            var xs := Elements(s, it, itEnd);
            var ps := Positions(s, it, itEnd);
            || (r == maxIt && forall j :: 0 <= j < |xs| ==> xs[j] <= Source(s, maxIt))
            || (exists i :: 0 <= i < |xs| && r == ps[i] && Source(s, maxIt) < xs[i] && IsFirstMax(xs, i))
    decreases Distance(s, it, itEnd)
  {
    if it != itEnd {
      ElementsStep(s, it, itEnd);
      var it1 := Successor(s, it);
      var x := Source(s, it);
      var xs := Elements(s, it, itEnd);
      var ps := Positions(s, it, itEnd);
      var xs1 := Elements(s, it1, itEnd);
      var ps1 := Positions(s, it1, itEnd);
      var m := if x > Source(s, maxIt) then it else maxIt;
      var r := MaxElementFrom(s, it1, itEnd, m);
      MaxElementFromSpec(s, it1, itEnd, m);
      if r == m && forall j :: 0 <= j < |xs1| ==> xs1[j] <= Source(s, m) {
        if m == it {
          FirstMaxAtHead(x, xs1);
          assert r == ps[0];
        } else {
          forall j | 0 <= j < |xs|
            ensures xs[j] <= Source(s, maxIt)
          {
            if j > 0 {
              assert xs[j] == xs1[j - 1];
            }
          }
        }
      } else {
        var i :| 0 <= i < |xs1| && r == ps1[i] && Source(s, m) < xs1[i] && IsFirstMax(xs1, i);
        FirstMaxBehindHead(x, xs1, i);
        assert r == ps[i + 1] && xs[i + 1] == xs1[i];
      }
    }
  }

  /** `max_element` returns `it_end` on an empty range and otherwise the
      position of the first maximum (ties keep the earliest). */
  lemma MaxElementSpec(s: Store<int>, it: int, itEnd: int)
    requires ValidRange(s, it, itEnd)
    ensures var r := MaxElement(s, it, itEnd);
            var xs := Elements(s, it, itEnd);
            && (xs == [] ==> r == itEnd)
            && (xs != [] ==> exists i :: IsFirstMax(xs, i) && r == Positions(s, it, itEnd)[i])
  {
    EmptyRange(s, it, itEnd);
    if it != itEnd {
      ElementsStep(s, it, itEnd);
      var it1 := Successor(s, it);
      var x := Source(s, it);
      var xs1 := Elements(s, it1, itEnd);
      var ps := Positions(s, it, itEnd);
      var ps1 := Positions(s, it1, itEnd);
      var r := MaxElementFrom(s, it1, itEnd, it);
      MaxElementFromSpec(s, it1, itEnd, it);
      if r == it && forall j :: 0 <= j < |xs1| ==> xs1[j] <= x {
        FirstMaxAtHead(x, xs1);
        assert r == ps[0];
      } else {
        var i :| 0 <= i < |xs1| && r == ps1[i] && x < xs1[i] && IsFirstMax(xs1, i);
        FirstMaxBehindHead(x, xs1, i);
        assert r == ps[i + 1];
      }
    }
  }

  /** The exchange in `reverse`: `temp = source(e); sink(e) = source(b);
      sink(b) = temp`. */
  function Swap<T>(a: seq<T>, b: int, e: int): (r: seq<T>)
    requires 0 <= b < |a| && 0 <= e < |a|
    ensures |r| == |a|
    ensures r[b] == a[e] && r[e] == a[b]
    ensures forall i :: 0 <= i < |a| && i != b && i != e ==> r[i] == a[i]
  {
    a[e := a[b]][b := a[e]]
  }

  lemma SwapPermutes<T>(a: seq<T>, b: int, e: int)
    requires 0 <= b < |a| && 0 <= e < |a|
    ensures multiset(Swap(a, b, e)) == multiset(a)
  {
  }

  /** `reverse(it_begin, it_end)` on array positions: retreat the end; stop
      when the ends meet; otherwise swap and advance the beginning. */
  function Reverse<T>(a: seq<T>, b: int, e: int): (r: seq<T>)
    requires 0 <= b <= e <= |a|
    ensures |r| == |a|
    ensures forall i {:trigger r[i]} :: 0 <= i < |a| && !(b <= i < e) ==> r[i] == a[i]
    decreases e - b
  {
    if b == e then a
    else
      var e1 := Predecessor(e);
      if b == e1 then a
      else Reverse(Swap(a, b, e1), ArraySuccessor(b), e1)
  }

  /** The reversal of a whole sequence, as a reference. */
  function Reversed<T>(xs: seq<T>): (r: seq<T>)
    ensures |r| == |xs|
  {
    seq(|xs|, i requires 0 <= i < |xs| => xs[|xs| - 1 - i])
  }

  /** `reverse` puts the element at b + e - 1 - i into slot i of [b, e). */
  lemma {:induction false} ReverseMirror<T>(a: seq<T>, b: int, e: int)
    requires 0 <= b <= e <= |a|
    ensures forall i {:trigger Reverse(a, b, e)[i]} :: b <= i < e ==> Reverse(a, b, e)[i] == a[b + e - 1 - i]
    decreases e - b
  {
    if b != e && b != e - 1 {
      var r := Reverse(a, b, e);
      var a1 := Swap(a, b, e - 1);
      assert r == Reverse(a1, b + 1, e - 1);
      ReverseMirror(a1, b + 1, e - 1);
      forall i | b <= i < e
        ensures r[i] == a[b + e - 1 - i]
      {
        if b + 1 <= i < e - 1 {
          assert r[i] == a1[b + e - 1 - i];
        } else {
          assert r[i] == a1[i];
        }
      }
    }
  }

  /** `reverse` mirrors [b, e) and leaves the rest of the array alone. */
  lemma ReverseSpec<T>(a: seq<T>, b: int, e: int)
    requires 0 <= b <= e <= |a|
    ensures forall i {:trigger Reverse(a, b, e)[i]} :: b <= i < e ==> Reverse(a, b, e)[i] == a[b + e - 1 - i]
    ensures forall i {:trigger Reverse(a, b, e)[i]} :: 0 <= i < |a| && !(b <= i < e) ==> Reverse(a, b, e)[i] == a[i]
  {
    ReverseMirror(a, b, e);
  }

  /** The range [b, e) after `reverse` is the reversal of its former contents;
      the outside is unchanged. */
  lemma ReverseContents<T>(a: seq<T>, b: int, e: int)
    requires 0 <= b <= e <= |a|
    ensures Reverse(a, b, e)[b..e] == Reversed(a[b..e])
    ensures Reverse(a, b, e)[..b] == a[..b]
    ensures Reverse(a, b, e)[e..] == a[e..]
  {
    var r := Reverse(a, b, e);
    ReverseSpec(a, b, e);
    var m := r[b..e];
    var n := Reversed(a[b..e]);
    assert |m| == |n|;
    forall i | 0 <= i < |m|
      ensures m[i] == n[i]
    {
      assert m[i] == r[b + i];
    }
    assert m == n;
    assert r[..b] == a[..b];
    assert r[e..] == a[e..];
  }

  /** An odd-length range keeps its centre element. */
  lemma ReverseKeepsCentre<T>(a: seq<T>, b: int, e: int)
    requires 0 <= b <= e <= |a| && (e - b) % 2 == 1
    ensures Reverse(a, b, e)[b + (e - b) / 2] == a[b + (e - b) / 2]
  {
    ReverseSpec(a, b, e);
  }

  /** Reversing twice restores the array. */
  lemma ReverseInvolution<T>(a: seq<T>, b: int, e: int)
    requires 0 <= b <= e <= |a|
    ensures Reverse(Reverse(a, b, e), b, e) == a
  {
    var r := Reverse(a, b, e);
    var r2 := Reverse(r, b, e);
    ReverseSpec(a, b, e);
    ReverseSpec(r, b, e);
    forall i | 0 <= i < |a|
      ensures r2[i] == a[i]
    {
      if b <= i < e {
        assert r2[i] == r[b + e - 1 - i];
      }
    }
  }

  /** `reverse` only exchanges elements: the result is a permutation. */
  lemma {:induction false} ReversePermutes<T>(a: seq<T>, b: int, e: int)
    requires 0 <= b <= e <= |a|
    ensures multiset(Reverse(a, b, e)) == multiset(a)
    decreases e - b
  {
    if b != e && b != e - 1 {
      var a1 := Swap(a, b, e - 1);
      assert Reverse(a, b, e) == Reverse(a1, b + 1, e - 1);
      ReversePermutes(a1, b + 1, e - 1);
      SwapPermutes(a, b, e - 1);
    }
  }
}

/** The scenarios exercised by the source's `main`, stated as lemmas. */
module AlgorithmExamples {
  import opened Wrappers
  import opened Primitives
  import opened Algorithms
  import FastCopy

  /** Copying [1,2,3,4,5] into seven zeros fills the first five slots and
      returns the position just after them. */
  lemma CopyArrayExample()
    ensures Copy(Array([1, 2, 3, 4, 5]), 0, 5, Array([0, 0, 0, 0, 0, 0, 0]), 0, 7)
         == Copied(Array([1, 2, 3, 4, 5, 0, 0]), 5)
  {
    FastCopy.FastCopyMatchesGeneric([1, 2, 3, 4, 5], 0, 5, [0, 0, 0, 0, 0, 0, 0], 0, 7);
    FastCopy.FastCopyExample();
  }

  /** Nodes 0, 1, 2 hold 9, 8, 7 and link to the sentinel node 3, whose own
      link is null (written -1). */
  function ExampleList(): Store<int> {
    Nodes([Node(9, 1), Node(8, 2), Node(7, 3), Node(0, -1)])
  }

  lemma ExampleListElements()
    ensures ValidRange(ExampleList(), 0, 3)
    ensures Positions(ExampleList(), 0, 3) == [0, 1, 2]
    ensures Elements(ExampleList(), 0, 3) == [9, 8, 7]
  {
    var n := ExampleList().nodes;
    assert n[0].next == 1 && n[1].next == 2 && n[2].next == 3;
    assert Walk(n, 3, 3, 1) == Some([]);
    assert [2] + [] == [2] && [1] + [2] == [1, 2] && [0] + [1, 2] == [0, 1, 2];
    assert Walk(n, 2, 3, 2) == Some([2]);
    assert Walk(n, 1, 3, 3) == Some([1, 2]);
    assert Walk(n, 0, 3, 4) == Some([0, 1, 2]);
    NodePositions(n, 0, 3);
  }

  lemma ListThenZeros()
    ensures [9, 8, 7] + [0, 0, 0, 0, 0, 0, 0][3..] == [9, 8, 7, 0, 0, 0, 0]
  {
    assert [0, 0, 0, 0, 0, 0, 0][3..] == [0, 0, 0, 0];
  }

  /** Copying the example list into seven zeros yields 9, 8, 7 followed by
      the untouched zeros. */
  lemma CopyNodeExample()
    ensures ValidRange(ExampleList(), 0, 3)
    ensures Copy(ExampleList(), 0, 3, Array([0, 0, 0, 0, 0, 0, 0]), 0, 7).dst
         == Array([9, 8, 7, 0, 0, 0, 0])
  {
    var zeros := [0, 0, 0, 0, 0, 0, 0];
    var dst := Array(zeros);
    var list := ExampleList();
    ExampleListElements();
    CopyContents(list, 0, 3, dst, 0, 7);
    ArrayElements(zeros);
    var r := Copy(list, 0, 3, dst, 0, 7);
    assert Distance(list, 0, 3) == 3;
    assert Distance(dst, 0, 7) == 7;
    assert Elements(r.dst, 0, 7) == [9, 8, 7] + zeros[3..];
    assert r.dst.Array? && |r.dst.elems| == 7;
    ArrayElements(r.dst.elems);
    assert r.dst.elems == Elements(r.dst, 0, 7);
    ListThenZeros();
  }

  /** `max_element` over [1,2,3,4,5] lands on the 5. */
  lemma MaxElementExample()
    ensures MaxElement(Array([1, 2, 3, 4, 5]), 0, 5) == 4
  {
    var s := Array([1, 2, 3, 4, 5]);
    MaxElementSpec(s, 0, 5);
    ArrayPositions(s.elems, 0, 5);
    var i :| IsFirstMax(Elements(s, 0, 5), i) && MaxElement(s, 0, 5) == Positions(s, 0, 5)[i];
    assert Elements(s, 0, 5)[4] == 5;
  }

  /** Ties keep the earliest maximum: [5,3,5,1] gives position 0. */
  lemma MaxElementTieExample()
    ensures MaxElement(Array([5, 3, 5, 1]), 0, 4) == 0
  {
    var s := Array([5, 3, 5, 1]);
    MaxElementSpec(s, 0, 4);
    ArrayPositions(s.elems, 0, 4);
    var i :| IsFirstMax(Elements(s, 0, 4), i) && MaxElement(s, 0, 4) == Positions(s, 0, 4)[i];
    assert IsFirstMax(Elements(s, 0, 4), 0);
    FirstMaxUnique(Elements(s, 0, 4), i, 0);
  }

  /** Reversing [1,2,3,4,5] puts 5 first; even lengths reverse as well. */
  lemma ReverseExamples()
    ensures Reverse([1, 2, 3, 4, 5], 0, 5) == [5, 4, 3, 2, 1]
    ensures Reverse([1, 2, 3, 4], 0, 4) == [4, 3, 2, 1]
  {
    ReverseSpec([1, 2, 3, 4, 5], 0, 5);
    ReverseSpec([1, 2, 3, 4], 0, 4);
  }
}

/**
 * The contiguous fast path of `copy` in 05.Copy.cpp.
 *
 * The body computes `count = min(in_end - in, out_end - out)`, hands `count`
 * to `memmove` and returns `out_end`.  At the level of elements, `Transfer`
 * moves `count` elements as if through a temporary buffer, as `memmove` does
 * when source and destination overlap.  The generic body copies element by
 * element instead, so within one array the two agree only when the
 * destination does not start inside the source range past its first element
 * (`CopyWithinForward`, `OverlapExample`).  `FastCopyAsWritten` keeps the
 * source's return value; `FastCopy` returns the position after the last
 * element written, like the generic body.
 *
 * `memmove` measures its third argument in bytes, so for elements wider than
 * one byte the source moves only part of the range.  The byte-level section
 * at the end models that: `FastCopyBytesAsWritten` moves `count` bytes,
 * `FastCopyBytes` moves the bytes of `count` elements.
 */
module FastCopy {
  import opened Wrappers
  import opened Primitives
  import Algorithms

  /** `count` elements of `src` starting at `input` land in `dst` starting at
      `out`; the rest of `dst` is kept. */
  function Transfer<T>(src: seq<T>, input: int, dst: seq<T>, out: int, count: nat): (r: seq<T>)
    requires 0 <= input && input + count <= |src|
    requires 0 <= out && out + count <= |dst|
    ensures |r| == |dst|
    ensures forall j :: out <= j < out + count ==> r[j] == src[input + (j - out)]
    ensures forall j :: 0 <= j < |dst| && !(out <= j < out + count) ==> r[j] == dst[j]
  {
    dst[..out] + src[input..input + count] + dst[out + count..]
  }

  datatype Moved<T> = Moved(dst: seq<T>, out: int)

  /** The fast path exactly as the source writes it: the return value is
      `out_end` whatever `count` is. */
  function FastCopyAsWritten<T>(src: seq<T>, input: int, inEnd: int, dst: seq<T>, out: int, outEnd: int): (r: Moved<T>)
    requires 0 <= input <= inEnd <= |src| && 0 <= out <= outEnd <= |dst|
    ensures |r.dst| == |dst| && r.out == outEnd
    ensures forall j :: 0 <= j < |dst| && !(out <= j < outEnd) ==> r.dst[j] == dst[j]
    ensures inEnd - input >= outEnd - out ==>
              forall j :: out <= j < outEnd ==> r.dst[j] == src[input + (j - out)]
  {
    var count := Min(inEnd - input, outEnd - out);
    Moved(Transfer(src, input, dst, out, count), outEnd)
  }

  /** The fast path returning the position after the last element written. */
  function FastCopy<T>(src: seq<T>, input: int, inEnd: int, dst: seq<T>, out: int, outEnd: int): (r: Moved<T>)
    requires 0 <= input <= inEnd <= |src| && 0 <= out <= outEnd <= |dst|
    ensures |r.dst| == |dst| && out <= r.out <= outEnd && r.out - out <= inEnd - input
    ensures r.out == outEnd || r.out - out == inEnd - input
    ensures forall j :: out <= j < r.out ==> r.dst[j] == src[input + (j - out)]
    ensures forall j :: 0 <= j < |dst| && !(out <= j < r.out) ==> r.dst[j] == dst[j]
  {
    var count := Min(inEnd - input, outEnd - out);
    Moved(Transfer(src, input, dst, out, count), out + count)
  }

  /** The generic `copy` on array positions, element by element: the first
      `count` slots of the destination range take the source elements and
      every other slot keeps its value. */
  lemma GenericArrayCopy<T>(src: seq<T>, input: int, inEnd: int, dst: seq<T>, out: int, outEnd: int)
    requires 0 <= input <= inEnd <= |src| && 0 <= out <= outEnd <= |dst|
    ensures var e := Algorithms.Copy(Array(src), input, inEnd, Array(dst), out, outEnd).dst.elems;
            var count := Min(inEnd - input, outEnd - out);
            && |e| == |dst|
            && (forall j :: out <= j < out + count ==> e[j] == src[input + (j - out)])
            && (forall j :: 0 <= j < |dst| && !(out <= j < out + count) ==> e[j] == dst[j])
  {
    var g := Algorithms.Copy(Array(src), input, inEnd, Array(dst), out, outEnd);
    var e := g.dst.elems;
    var count := Min(inEnd - input, outEnd - out);
    Algorithms.CopyContents(Array(src), input, inEnd, Array(dst), out, outEnd);
    ArrayElementsAt(src, input, inEnd);
    ArrayElementsAt(dst, out, outEnd);
    ArrayElementsAt(e, out, outEnd);
    ArrayPositions(dst, out, outEnd);
    forall j | 0 <= j < |dst|
      ensures out <= j < out + count ==> e[j] == src[input + (j - out)]
      ensures !(out <= j < out + count) ==> e[j] == dst[j]
    {
      if out <= j < outEnd {
        assert e[j] == Elements(g.dst, out, outEnd)[j - out];
      } else {
        assert j !in Positions(Array(dst), out, outEnd);
        assert e[j] == Source(g.dst, j);
      }
    }
  }

  /** The corrected fast path computes exactly what the generic `copy` does on
      array positions: same destination contents, same returned position. */
  lemma FastCopyMatchesGeneric<T>(src: seq<T>, input: int, inEnd: int, dst: seq<T>, out: int, outEnd: int)
    requires 0 <= input <= inEnd <= |src| && 0 <= out <= outEnd <= |dst|
    ensures var g := Algorithms.Copy(Array(src), input, inEnd, Array(dst), out, outEnd);
            var f := FastCopy(src, input, inEnd, dst, out, outEnd);
            g == Algorithms.Copied(Array(f.dst), f.out)
  {
    var g := Algorithms.Copy(Array(src), input, inEnd, Array(dst), out, outEnd);
    var f := FastCopy(src, input, inEnd, dst, out, outEnd);
    var count := Min(inEnd - input, outEnd - out);
    Algorithms.CopyReturns(Array(src), input, inEnd, Array(dst), out, outEnd);
    ArrayPositions(src, input, inEnd);
    ArrayAdvance(dst, out, outEnd, count);
    GenericArrayCopy(src, input, inEnd, dst, out, outEnd);
    assert g.dst.elems == f.dst;
  }

  /** The source's fast path returns a different position from the generic
      `copy` exactly when the source range is shorter than the destination. */
  lemma AsWrittenReturnDiffers<T>(src: seq<T>, input: int, inEnd: int, dst: seq<T>, out: int, outEnd: int)
    requires 0 <= input <= inEnd <= |src| && 0 <= out <= outEnd <= |dst|
    ensures FastCopyAsWritten(src, input, inEnd, dst, out, outEnd).dst
         == Algorithms.Copy(Array(src), input, inEnd, Array(dst), out, outEnd).dst.elems
    ensures FastCopyAsWritten(src, input, inEnd, dst, out, outEnd).out
         != Algorithms.Copy(Array(src), input, inEnd, Array(dst), out, outEnd).out
         <==> inEnd - input < outEnd - out
  {
    FastCopyMatchesGeneric(src, input, inEnd, dst, out, outEnd);
  }

  /** The first array test: five elements into seven slots.  The generic
      `copy` returns position 5; the source's fast path would return 7. */
  lemma FastCopyExample()
    ensures FastCopyAsWritten([1, 2, 3, 4, 5], 0, 5, [0, 0, 0, 0, 0, 0, 0], 0, 7)
         == Moved([1, 2, 3, 4, 5, 0, 0], 7)
    ensures FastCopy([1, 2, 3, 4, 5], 0, 5, [0, 0, 0, 0, 0, 0, 0], 0, 7)
         == Moved([1, 2, 3, 4, 5, 0, 0], 5)
  {
  }

  /** The generic `copy` with source and destination in the same array: one
      element at a time, each assignment seeing the ones before it. */
  function CopyWithin<T>(a: seq<T>, input: int, inEnd: int, out: int, outEnd: int): (r: Moved<T>)
    requires 0 <= input <= inEnd <= |a| && 0 <= out <= outEnd <= |a|
    ensures |r.dst| == |a| && r.out == out + Min(inEnd - input, outEnd - out)
    ensures forall j :: 0 <= j < |a| && !(out <= j < r.out) ==> r.dst[j] == a[j]
    decreases inEnd - input
  {
    if input == inEnd || out == outEnd then Moved(a, out)
    else CopyWithin(a[out := a[input]], input + 1, inEnd, out + 1, outEnd)
  }

  /** Within one array, the element-by-element copy and the `memmove` of the
      corrected fast path agree whenever the destination starts at or before
      the source: no element is overwritten before it is read. */
  lemma {:induction false} CopyWithinForward<T>(a: seq<T>, input: int, inEnd: int, out: int, outEnd: int)
    requires 0 <= input <= inEnd <= |a| && 0 <= out <= outEnd <= |a|
    requires out <= input
    ensures CopyWithin(a, input, inEnd, out, outEnd) == FastCopy(a, input, inEnd, a, out, outEnd)
    decreases inEnd - input
  {
    var count := Min(inEnd - input, outEnd - out);
    if input != inEnd && out != outEnd {
      var b := a[out := a[input]];
      assert Min(inEnd - (input + 1), outEnd - (out + 1)) == count - 1;
      CopyWithinForward(b, input + 1, inEnd, out + 1, outEnd);
      var inner := Transfer(b, input + 1, b, out + 1, count - 1);
      var whole := Transfer(a, input, a, out, count);
      assert FastCopy(b, input + 1, inEnd, b, out + 1, outEnd) == Moved(inner, out + count);
      assert FastCopy(a, input, inEnd, a, out, outEnd) == Moved(whole, out + count);
      forall j | 0 <= j < |a|
        ensures inner[j] == whole[j]
      {
        if j == out {
          assert inner[j] == b[j];
        } else if out + 1 <= j < out + count {
          assert inner[j] == b[input + (j - out)];
        } else {
          assert inner[j] == b[j];
        }
      }
      assert inner == whole;
    }
  }

  /** `copy(a, a + 3, a + 1, a + 4)` on {1, 2, 3, 4}: element by element the
      first value spreads over the range; `memmove` shifts the range by one. */
  lemma OverlapExample()
    ensures CopyWithin([1, 2, 3, 4], 0, 3, 1, 4) == Moved([1, 1, 1, 1], 4)
    ensures FastCopy([1, 2, 3, 4], 0, 3, [1, 2, 3, 4], 1, 4) == Moved([1, 1, 2, 3], 4)
  {
    assert [1, 2, 3, 4][1 := 1] == [1, 1, 3, 4];
    assert [1, 1, 3, 4][2 := 1] == [1, 1, 1, 4];
    assert [1, 1, 1, 4][3 := 1] == [1, 1, 1, 1];
    var t := Transfer([1, 2, 3, 4], 0, [1, 2, 3, 4], 1, 3);
    assert t[0] == 1 && t[1] == 1 && t[2] == 2 && t[3] == 3;
  }

  /** `memmove` within one buffer, element by element: copy forwards when the
      destination starts at or before the source and backwards otherwise, so
      no element is overwritten before it is read.  The result is the
      temporary-buffer transfer. */
  method MoveWithin<T>(a: seq<T>, from: int, to: int, count: nat) returns (r: seq<T>)
    requires 0 <= from && from + count <= |a|
    requires 0 <= to && to + count <= |a|
    ensures r == Transfer(a, from, a, to, count)
  {
    r := a;
    if to <= from {
      var i := 0;
      while i < count
        invariant 0 <= i <= count && |r| == |a|
        invariant forall j :: to <= j < to + i ==> r[j] == a[from + (j - to)]
        invariant forall j :: 0 <= j < |a| && !(to <= j < to + i) ==> r[j] == a[j]
      {
        r := r[to + i := r[from + i]];
        i := i + 1;
      }
    } else {
      var i := count;
      while i > 0
        invariant 0 <= i <= count && |r| == |a|
        invariant forall j :: to + i <= j < to + count ==> r[j] == a[from + (j - to)]
        invariant forall j :: 0 <= j < |a| && !(to + i <= j < to + count) ==> r[j] == a[j]
      {
        i := i - 1;
        r := r[to + i := r[from + i]];
      }
    }
    var t := Transfer(a, from, a, to, count);
    assert forall j :: 0 <= j < |a| ==> r[j] == t[j];
  }

  /** `memmove` counts bytes.  Memory is modelled as a sequence of bytes in
      which an element occupies `IntWidth` consecutive bytes; a byte records
      the element it belongs to and its place inside it.  The width is that
      of the `int` arrays the fast path is called with. */
  const IntWidth: nat := 4

  datatype Byte<T> = Byte(of: T, part: nat)

  /** The bytes of an array of elements. */
  function Layout<T>(xs: seq<T>): (m: seq<Byte<T>>)
    ensures |m| == IntWidth * |xs|
  {
    seq(IntWidth * |xs|, k requires 0 <= k < IntWidth * |xs| => Byte(xs[k / IntWidth], k % IntWidth))
  }

  /** The fast path at the byte level as written: `memmove` is handed the
      element count as its byte count. */
  function FastCopyBytesAsWritten<T>(src: seq<T>, input: int, inEnd: int, dst: seq<T>, out: int, outEnd: int): (m: seq<Byte<T>>)
    requires 0 <= input <= inEnd <= |src| && 0 <= out <= outEnd <= |dst|
    ensures |m| == |Layout(dst)|
    ensures var count := Min(inEnd - input, outEnd - out);
            forall k :: IntWidth * out <= k < IntWidth * out + count ==>
              m[k] == Layout(src)[IntWidth * input + (k - IntWidth * out)]
  {
    var count := Min(inEnd - input, outEnd - out);
    Transfer(Layout(src), IntWidth * input, Layout(dst), IntWidth * out, count)
  }

  /** The fast path at the byte level with the byte count scaled by the
      element width. */
  function FastCopyBytes<T>(src: seq<T>, input: int, inEnd: int, dst: seq<T>, out: int, outEnd: int): (m: seq<Byte<T>>)
    requires 0 <= input <= inEnd <= |src| && 0 <= out <= outEnd <= |dst|
    ensures m == Layout(FastCopy(src, input, inEnd, dst, out, outEnd).dst)
  {
    var count := Min(inEnd - input, outEnd - out);
    LayoutTransfer(src, input, dst, out, count);
    Transfer(Layout(src), IntWidth * input, Layout(dst), IntWidth * out, IntWidth * count)
  }

  /** Moving the bytes of `count` whole elements is moving the elements. */
  lemma LayoutTransfer<T>(src: seq<T>, input: int, dst: seq<T>, out: int, count: nat)
    requires 0 <= input && input + count <= |src|
    requires 0 <= out && out + count <= |dst|
    ensures Transfer(Layout(src), IntWidth * input, Layout(dst), IntWidth * out, IntWidth * count)
         == Layout(Transfer(src, input, dst, out, count))
  {
    var lhs := Transfer(Layout(src), IntWidth * input, Layout(dst), IntWidth * out, IntWidth * count);
    var t := Transfer(src, input, dst, out, count);
    var rhs := Layout(t);
    forall k | 0 <= k < |rhs|
      ensures lhs[k] == rhs[k]
    {
      var e := k / IntWidth;
      if IntWidth * out <= k < IntWidth * (out + count) {
        assert out <= e < out + count;
        var k' := IntWidth * input + (k - IntWidth * out);
        assert k' / IntWidth == input + (e - out) && k' % IntWidth == k % IntWidth;
        assert lhs[k] == Layout(src)[k'];
      } else {
        assert !(out <= e < out + count);
      }
    }
  }

  /** As written, only the first `count` of the 4 * `count` bytes move: every
      byte past them in the destination range keeps its old value. */
  lemma AsWrittenMovesTooFewBytes<T>(src: seq<T>, input: int, inEnd: int, dst: seq<T>, out: int, outEnd: int)
    requires 0 <= input <= inEnd <= |src| && 0 <= out <= outEnd <= |dst|
    ensures var count := Min(inEnd - input, outEnd - out);
            var m := FastCopyBytesAsWritten(src, input, inEnd, dst, out, outEnd);
            forall k :: IntWidth * out + count <= k < IntWidth * (out + count) ==> m[k] == Layout(dst)[k]
  {
    var count := Min(inEnd - input, outEnd - out);
  }

  /** The array test at the byte level: as written, element 3 of the
      destination keeps its zero bytes and element 1 is torn, where the
      scaled count gives element 3 the bytes of 4. */
  lemma MemmoveCountExample()
    ensures var m := FastCopyBytesAsWritten([1, 2, 3, 4, 5], 0, 5, [0, 0, 0, 0, 0, 0, 0], 0, 7);
            && m[12] == Byte(0, 0)
            && m[4] == Byte(2, 0) && m[5] == Byte(0, 1)
    ensures FastCopyBytes([1, 2, 3, 4, 5], 0, 5, [0, 0, 0, 0, 0, 0, 0], 0, 7)[12] == Byte(4, 0)
  {
    var src := [1, 2, 3, 4, 5];
    var dst := [0, 0, 0, 0, 0, 0, 0];
    assert Layout(dst)[12] == Byte(0, 0) && Layout(dst)[5] == Byte(0, 1);
    assert Layout(src)[4] == Byte(2, 0);
    FastCopyExample();
    assert Layout([1, 2, 3, 4, 5, 0, 0])[12] == Byte(4, 0);
  }
}

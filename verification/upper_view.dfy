/**
 * The upper-casing view of 02.Wrapper.cpp: `Upper` keeps a copy of a string,
 * and its iterator walks the characters and dereferences to their upper-case
 * form.  The iterator wraps a `char*` into the stored string; here it is the
 * character index, and the string is passed alongside.
 */
module UpperView {
  /** The C locale's `toupper`: a-z become A-Z, every other character is
      kept. */
  function ToUpper(c: char): (u: char)
  {
    if 'a' <= c <= 'z' then (c as int - 32) as char else c
  }

  predicate IsLower(c: char) { 'a' <= c <= 'z' }

  /** Upper-casing maps lower-case letters to their capitals, leaves every
      other character alone, and never produces a lower-case letter. */
  lemma ToUpperSpec(c: char)
    ensures !IsLower(ToUpper(c))
    ensures ToUpper(c) != c <==> IsLower(c)
    ensures IsLower(c) ==> 'A' <= ToUpper(c) <= 'Z' && ToUpper(c) as int + 32 == c as int
    ensures ToUpper(ToUpper(c)) == ToUpper(c)
  {
  }

  datatype Upper = Upper(str: string)

  /** A position in the stored string. */
  datatype Cursor = Cursor(pos: int)

  /** What the postfix increment hands back: a holder of the old position. */
  datatype CharHolder = CharHolder(pos: int)

  /** The character at a position; the terminating NUL sits one past the
      last character. */
  function CharAt(s: string, i: int): char
    requires 0 <= i <= |s|
  {
    if i < |s| then s[i] else '\0'
  }

  function Deref(u: Upper, it: Cursor): char
    requires 0 <= it.pos <= |u.str|
  {
    ToUpper(CharAt(u.str, it.pos))
  }

  function HolderDeref(u: Upper, h: CharHolder): char
    requires 0 <= h.pos <= |u.str|
  {
    ToUpper(CharAt(u.str, h.pos))
  }

  /** `operator==` compares the wrapped pointers. */
  function Equal(a: Cursor, b: Cursor): (r: bool)
    ensures r <==> a == b
  {
    a.pos == b.pos
  }

  /** Prefix increment moves to the next character, a different position. */
  function PreInc(it: Cursor): (r: Cursor)
    ensures !Equal(r, it)
  {
    Cursor(it.pos + 1)
  }

  /** `==` is an equivalence relation that increments preserve and reflect;
      the view's two ends are equal exactly when the stored string is empty,
      and the cursor advanced past every character equals the end. */
  lemma EqualityLaws(a: Cursor, b: Cursor, c: Cursor, u: Upper)
    ensures Equal(a, a)
    ensures Equal(a, b) ==> Equal(b, a)
    ensures Equal(a, b) && Equal(b, c) ==> Equal(a, c)
    ensures Equal(PreInc(a), PreInc(b)) <==> Equal(a, b)
    ensures Equal(Begin(u), End(u)) <==> u.str == ""
    ensures |u.str| > 0 ==> Equal(PreInc(Cursor(|u.str| - 1)), End(u))
  {
  }

  /** Postfix increment: the advanced cursor and a holder of the old
      position. */
  function PostInc(it: Cursor): (CharHolder, Cursor)
  {
    (CharHolder(it.pos), PreInc(it))
  }

  function Begin(u: Upper): Cursor { Cursor(0) }

  function End(u: Upper): Cursor { Cursor(|u.str|) }

  /** The holder dereferences to the upper-cased character the cursor was
      on; the cursor moves exactly one character. */
  lemma PostIncSpec(u: Upper, it: Cursor)
    requires 0 <= it.pos < |u.str|
    ensures HolderDeref(u, PostInc(it).0) == Deref(u, it) == ToUpper(u.str[it.pos])
    ensures PostInc(it).1 == PreInc(it) && PreInc(it).pos == it.pos + 1
    ensures Deref(u, PostInc(it).1) == ToUpper(CharAt(u.str, it.pos + 1))
  {
  }

  /** Read and increment from `it` until it equals `e`, as the string
      constructor and the range-for loop do. */
  function Collect(u: Upper, it: Cursor, e: Cursor): (r: seq<char>)
    requires 0 <= it.pos <= e.pos <= |u.str|
    ensures |r| == e.pos - it.pos
    decreases e.pos - it.pos
  {
    if Equal(it, e) then [] else [Deref(u, it)] + Collect(u, PreInc(it), e)
  }

  /** The whole view reads as the stored string upper-cased, character by
      character. */
  lemma {:induction false} CollectUpper(u: Upper, it: Cursor, e: Cursor)
    requires 0 <= it.pos <= e.pos <= |u.str|
    ensures |Collect(u, it, e)| == e.pos - it.pos
    ensures forall k :: 0 <= k < e.pos - it.pos ==> Collect(u, it, e)[k] == ToUpper(u.str[it.pos + k])
    decreases e.pos - it.pos
  {
    if it.pos != e.pos {
      CollectUpper(u, PreInc(it), e);
    }
  }

  /** `begin()..end()` spans every character of the stored string, upper-cased,
      and contains no lower-case letter. */
  lemma ViewSpec(u: Upper)
    ensures Collect(u, Begin(u), End(u)) == seq(|u.str|, k requires 0 <= k < |u.str| => ToUpper(u.str[k]))
    ensures forall k :: 0 <= k < |u.str| ==> !IsLower(Collect(u, Begin(u), End(u))[k])
  {
    CollectUpper(u, Begin(u), End(u));
    forall k | 0 <= k < |u.str|
      ensures !IsLower(Collect(u, Begin(u), End(u))[k])
    {
      ToUpperSpec(u.str[k]);
    }
  }

  /** The test: "bAr" reads as "BAR", and the third character is 'R'. */
  lemma UpperExamples()
    ensures Collect(Upper("bAr"), Begin(Upper("bAr")), End(Upper("bAr"))) == "BAR"
    ensures Deref(Upper("bAr"), PreInc(PreInc(Begin(Upper("bAr"))))) == 'R'
    ensures Collect(Upper("abcdef"), Begin(Upper("abcdef")), End(Upper("abcdef"))) == "ABCDEF"
  {
    ViewSpec(Upper("bAr"));
    ViewSpec(Upper("abcdef"));
  }
}

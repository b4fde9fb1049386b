/**
 * The capability concepts of 05.Copy.cpp (Regular, Readable, Writable and
 * the iterator hierarchy) as predicates over `Types.Type`.
 *
 * A concept is the set of atomic constraints its definition expands to.  An
 * atom is identified by the place it is written, the C++20 rule for
 * subsumption, so the `successor` requirement of `Iterator` and the textually
 * identical one of `ForwardIterator` are two atoms.  The program is written
 * in the Concepts TS syntax (`concept bool`), under which two atoms that are
 * equivalent expressions coincide; the two rules differ only for those two
 * requirements, which `ContiguousIterator` contains neither of, so the
 * choice between the two `copy` overloads is the same under both.  A type models a concept when every atom
 * holds of it; one concept subsumes another when its atoms include the other's.
 *
 * The primitives `source`, `sink`, `successor` and `predecessor` are declared
 * only for raw pointers, so only pointer types can satisfy the requirements
 * that call them.
 */
module Capabilities {
  import opened Wrappers
  import opened Types

  datatype Atom =
    | RegularAtom          // the five conditions of `Regular`
    | IteratorSuccessor    // `successor(i) -> I` inside `Iterator`
    | ForwardSuccessor     // `successor(i) -> I` inside `ForwardIterator`
    | BidirectionalSteps   // `successor` and `predecessor` inside `BidirectionalIterator`
    | WeaklyOrderedAtom    // the literal `true`
    | RandomAccessArith    // `i + n`, `i - n`, `i - j`
    | ContiguousPointer    // `pointer_from(i)`
    | ReadableSource       // `value_type_t<T>` and `source(x)`
    | WritableSink         // `value_type_t<T>` and `sink(x)`

  /** `Regular`: default- and copy-constructible, destructible,
      copy-assignable and equality-comparable.  `node<T>` declares no `==`,
      arrays cannot be copied, references cannot be default-constructed and
      const objects cannot be assigned. */
  predicate Regular(t: Type)
    ensures Regular(t) ==> IsObject(t) && !t.Arr? && !t.Node? && !IsConst(t)
  {
    match t
    case Int => true
    case Char => true
    case Ptr(_) => true
    case Class(_, regular, _) => regular
    case Cv(b, isConst, _) => !isConst && (b.Int? || b.Char? || b.Ptr?)
    case _ => false
  }

  /** `t` with `const` added; on an array it goes to the element. */
  function AddConst(t: Type): (r: Type)
    ensures IsConst(r) && RemoveCv(r) == RemoveCv(t)
    ensures IsVolatile(r) == IsVolatile(t)
  {
    match t
    case Cv(b, _, v) => Cv(b, true, v)
    case Arr(e) => Arr(AddConst(e))
    case _ => Cv(t, true, false)
  }

  /** A reference to `v` binds directly to an lvalue of type `u`: the same
      type, and `v` at least as qualified. */
  predicate Binds(v: Type, u: Type)
  {
    RemoveCv(u) == RemoveCv(v) && (IsConst(u) ==> IsConst(v)) && (IsVolatile(u) ==> IsVolatile(v))
  }

  /** The lvalue type `source(p)` yields for a pointer to `p`.  The node
      overload at 05.Copy.cpp:31 takes `node<auto> const*`, so it wins for
      `node<T>*` and `node<T> const*` alike and yields the node's value; a
      volatile node cannot convert to it and takes the generic overload,
      which yields the pointee, as it does for every other pointer. */
  function SourceReferent(p: Type): Type
  {
    if p.Node? then p.value
    else if p.Cv? && p.base.Node? && p.isConst && !p.isVolatile then p.base.value
    else p
  }

  /** The lvalue type `sink(p)` yields for a pointer to `p`.  The node
      overload at 05.Copy.cpp:33 takes `node<auto>*`, so only an unqualified
      node yields its value; `node<T> const*` takes the generic overload and
      yields the const node itself. */
  function SinkReferent(p: Type): Type
  {
    if p.Node? then p.value else p
  }

  /** `successor(i)` resolves and yields an `I`. */
  predicate Successor(t: Type)
  {
    t.Ptr? && IsObject(t.pointee)
  }

  /** `predecessor(i)` resolves to a function that is not deleted. */
  predicate Predecessor(t: Type)
  {
    t.Ptr? && IsObject(t.pointee) && !t.pointee.Node?
  }

  /** The built-in pointer arithmetic `i + n`, `i - n` and `i - j`. */
  predicate Arithmetic(t: Type)
  {
    t.Ptr? && IsObject(t.pointee)
  }

  /** Reading through a pointer to a volatile object is never allowed: the
      value type drops the qualifier and a reference to const value type
      cannot bind to a volatile object. */
  predicate Readable(t: Type)
    ensures t.Ptr? && WellFormed(t) && Readable(t) ==> !IsVolatile(t.pointee)
  {
    t.Ptr? && IsObject(t.pointee) && ValueType(t).Some?
    && Binds(AddConst(ValueType(t).value), SourceReferent(t.pointee))
  }

  /** A position that can be written can also be read. */
  predicate Writable(t: Type)
    ensures Writable(t) ==> Readable(t)
  {
    t.Ptr? && IsObject(t.pointee) && ValueType(t).Some?
    && Binds(ValueType(t).value, SinkReferent(t.pointee))
  }

  /** Whether an atom holds of a type in the program as written. */
  predicate Holds(a: Atom, t: Type)
    ensures Holds(a, t) && a != RegularAtom && a != WeaklyOrderedAtom ==> t.Ptr? && IsObject(t.pointee)
    ensures a == ContiguousPointer ==> !Holds(a, t)
  {
    match a
    case RegularAtom => Regular(t)
    case IteratorSuccessor => Successor(t)
    case ForwardSuccessor => Successor(t)
    case BidirectionalSteps => Successor(t) && Predecessor(t)
    case WeaklyOrderedAtom => true
    case RandomAccessArith => Arithmetic(t)
    // `pointer_from` is declared nowhere, so the call never resolves
    case ContiguousPointer => false
    case ReadableSource => Readable(t)
    case WritableSink => Writable(t)
  }

  predicate Models(c: set<Atom>, t: Type)
  {
    forall a :: a in c ==> Holds(a, t)
  }

  const RegularConcept: set<Atom> := {RegularAtom}
  const IteratorConcept: set<Atom> := {RegularAtom, IteratorSuccessor}
  const ForwardConcept: set<Atom> := {RegularAtom, ForwardSuccessor}
  const BidirectionalConcept: set<Atom> := {RegularAtom, BidirectionalSteps}
  const WeaklyOrderedConcept: set<Atom> := {WeaklyOrderedAtom}
  const RandomAccessConcept: set<Atom> := {RegularAtom, WeaklyOrderedAtom, RandomAccessArith}
  const ContiguousConcept: set<Atom> := RandomAccessConcept + {ContiguousPointer}
  const ReadableConcept: set<Atom> := {ReadableSource}
  const WritableConcept: set<Atom> := {WritableSink}

  /** `Iterator` and `ForwardIterator` accept exactly the same types, yet
      under the C++20 rule they are different concepts: neither subsumes the
      other.  Under the Concepts TS rule their `successor` atoms would be one
      and each would subsume the other. */
  lemma IteratorIffForward(t: Type)
    ensures Models(IteratorConcept, t) <==> Models(ForwardConcept, t)
    ensures !(IteratorConcept <= ForwardConcept) && !(ForwardConcept <= IteratorConcept)
  {
    assert IteratorSuccessor !in ForwardConcept;
    assert ForwardSuccessor !in IteratorConcept;
    if Models(IteratorConcept, t) {
      assert Holds(RegularAtom, t) && Holds(IteratorSuccessor, t);
    }
    if Models(ForwardConcept, t) {
      assert Holds(RegularAtom, t) && Holds(ForwardSuccessor, t);
    }
  }

  /** `WeaklyOrdered` accepts every type. */
  lemma WeaklyOrderedAlways(t: Type)
    ensures Models(WeaklyOrderedConcept, t)
  {
  }

  /** No type is a `ContiguousIterator`, because its `pointer_from`
      requirement can never be met. */
  lemma ContiguousNever(t: Type)
    ensures !Models(ContiguousConcept, t)
  {
    assert ContiguousPointer in ContiguousConcept;
  }

  /** Only pointers are iterators of any kind. */
  lemma IteratorsArePointers(t: Type)
    ensures Models(IteratorConcept, t) ==> t.Ptr? && IsObject(t.pointee)
    ensures Models(RandomAccessConcept, t) ==> t.Ptr? && IsObject(t.pointee)
  {
    if Models(IteratorConcept, t) {
      assert Holds(IteratorSuccessor, t);
    }
    if Models(RandomAccessConcept, t) {
      assert Holds(RandomAccessArith, t);
    }
  }

  /** The hierarchy holds semantically even where the definitions do not say
      so: a bidirectional iterator is a forward one. */
  lemma BidirectionalIsForward(t: Type)
    requires Models(BidirectionalConcept, t)
    ensures Models(ForwardConcept, t) && Models(IteratorConcept, t)
  {
    assert Holds(RegularAtom, t) && Holds(BidirectionalSteps, t);
  }

  /** A pointer to an unqualified object other than a node is an iterator
      of every kind but contiguous, and is readable and writable. */
  lemma ObjectPointerCapabilities(p: Type)
    requires WellFormed(p) && IsObject(p) && !p.Node? && !IsConst(p) && !IsVolatile(p)
    ensures Models(IteratorConcept, Ptr(p)) && Models(ForwardConcept, Ptr(p))
    ensures Models(BidirectionalConcept, Ptr(p)) && Models(RandomAccessConcept, Ptr(p))
    ensures Models(ReadableConcept, Ptr(p)) && Models(WritableConcept, Ptr(p))
  {
    var t := Ptr(p);
    PointerValueType(p);
    RemoveCvIdempotent(p);
    assert Binds(RemoveCv(p), p);
    assert Writable(t);
    assert Holds(RegularAtom, t) && Holds(IteratorSuccessor, t) && Holds(ForwardSuccessor, t);
    assert Holds(BidirectionalSteps, t) && Holds(WeaklyOrderedAtom, t) && Holds(RandomAccessArith, t);
    assert Holds(ReadableSource, t) && Holds(WritableSink, t);
  }

  /** A pointer to const is readable but not writable. */
  lemma ConstPointerReadOnly(p: Type)
    requires WellFormed(p) && IsObject(p) && !p.Node? && !IsConst(p) && !IsVolatile(p)
    ensures Models(ReadableConcept, Ptr(AddConst(p)))
    ensures !Models(WritableConcept, Ptr(AddConst(p)))
  {
    var q := AddConst(p);
    RemoveCvIdempotent(p);
    assert ValueType(Ptr(q)) == Some(RemoveCv(p));
    assert Readable(Ptr(q));
    assert !Holds(WritableSink, Ptr(q));
  }

  /** `node<T>*` (T a plain object) is a readable, writable forward iterator,
      and, through raw pointer arithmetic, a random-access one, but not a
      bidirectional one: `RandomAccessIterator` does not require
      `BidirectionalIterator`. */
  lemma NodePointerCapabilities(e: Type)
    requires WellFormed(e) && IsObject(e) && !e.Cv?
    ensures Models(IteratorConcept, Ptr(Node(e))) && Models(ForwardConcept, Ptr(Node(e)))
    ensures Models(RandomAccessConcept, Ptr(Node(e)))
    ensures !Models(BidirectionalConcept, Ptr(Node(e)))
    ensures Models(ReadableConcept, Ptr(Node(e))) && Models(WritableConcept, Ptr(Node(e)))
  {
    var t := Ptr(Node(e));
    assert !Holds(BidirectionalSteps, t);
    assert Readable(t) && Writable(t);
  }

  /** A pointer to a qualified node is neither readable nor writable.  For
      `node<T> const*` the node overload of `source` yields the value, a
      `T const&`, while `value_type_t` is the node itself; for a volatile
      node the generic overload yields a volatile lvalue, to which a
      `node<T> const&` cannot bind. */
  lemma QualifiedNodePointerUnreadable(e: Type, v: bool)
    ensures !Readable(Ptr(Cv(Node(e), true, v))) && !Writable(Ptr(Cv(Node(e), true, v)))
    ensures !Readable(Ptr(Cv(Node(e), false, true))) && !Writable(Ptr(Cv(Node(e), false, true)))
  {
    var p := Cv(Node(e), true, v);
    assert IsObject(p) && RemoveCv(p) == Node(e);
    assert ValueType(Ptr(p)) == Some(Node(e));
    if !v {
      assert SourceReferent(p) == e;
      assert RemoveCv(e) != Node(e) by {
        assert Size(RemoveCv(e)) <= Size(e) < Size(Node(e));
      }
    }
    var q := Cv(Node(e), false, true);
    assert IsObject(q) && RemoveCv(q) == Node(e);
    assert ValueType(Ptr(q)) == Some(Node(e));
  }

  /** `{ pointer_from(i) } -> value_type_t<T> const*` in a program that
      declares `pointer_from` as the identity on pointers into contiguous
      storage, deleted for node pointers like `predecessor`, and that names
      the trait's `type` in the result (05.Copy.cpp:178 names the trait
      struct `value_type<T>` itself, which no pointer converts to).  The
      returned pointer must convert to a pointer to const value type. */
  predicate PointerFrom(t: Type)
  {
    t.Ptr? && IsObject(t.pointee) && !RemoveCv(t.pointee).Node?
    && ValueType(t).Some? && Binds(AddConst(ValueType(t).value), t.pointee)
  }

  /** An atom in the corrected program: `pointer_from` is declared. */
  predicate HoldsRefined(a: Atom, t: Type)
  {
    if a == ContiguousPointer then PointerFrom(t) else Holds(a, t)
  }

  predicate ModelsRefined(c: set<Atom>, t: Type)
  {
    forall a :: a in c ==> HoldsRefined(a, t)
  }

  /** The corrected hierarchy: each concept includes the atoms of the one it
      refines, so subsumption follows the hierarchy. */
  const RefinedForwardConcept: set<Atom> := IteratorConcept
  const RefinedBidirectionalConcept: set<Atom> := RefinedForwardConcept + {BidirectionalSteps}
  const RefinedRandomAccessConcept: set<Atom> := RefinedBidirectionalConcept + {WeaklyOrderedAtom, RandomAccessArith}
  const RefinedContiguousConcept: set<Atom> := RefinedRandomAccessConcept + {ContiguousPointer}

  /** In the corrected hierarchy every concept subsumes the ones below it. */
  lemma RefinedChain()
    ensures IteratorConcept <= RefinedForwardConcept <= RefinedBidirectionalConcept
    ensures RefinedBidirectionalConcept <= RefinedRandomAccessConcept <= RefinedContiguousConcept
    ensures IteratorConcept < RefinedContiguousConcept
  {
    assert ContiguousPointer !in IteratorConcept;
  }

  /** A type is a contiguous iterator in the corrected hierarchy exactly when
      `pointer_from` accepts it, and for a well-formed type that is exactly a
      pointer to an object that is neither a node nor volatile (a pointer to
      volatile does not convert to a pointer to const value type). */
  lemma RefinedContiguousIff(t: Type)
    ensures ModelsRefined(RefinedContiguousConcept, t) <==> PointerFrom(t)
    ensures WellFormed(t) ==> (ModelsRefined(RefinedContiguousConcept, t) <==>
      t.Ptr? && IsObject(t.pointee) && !RemoveCv(t.pointee).Node? && !IsVolatile(t.pointee))
  {
    if WellFormed(t) && t.Ptr? && IsObject(t.pointee) && !RemoveCv(t.pointee).Node? {
      var p := t.pointee;
      assert !p.Node?;
      PointerValueType(p);
      RemoveCvIdempotent(p);
      assert RemoveCv(AddConst(RemoveCv(p))) == RemoveCv(p);
    }
    if PointerFrom(t) {
      forall a | a in RefinedContiguousConcept
        ensures HoldsRefined(a, t)
      {
      }
    } else {
      assert ContiguousPointer in RefinedContiguousConcept;
    }
  }

  /** In the corrected hierarchy a random-access iterator is bidirectional, so
      node pointers are not random-access. */
  lemma RefinedRandomAccessIsBidirectional(t: Type)
    requires ModelsRefined(RefinedRandomAccessConcept, t)
    ensures Models(BidirectionalConcept, t) && Models(RandomAccessConcept, t)
    ensures t.Ptr? && !t.pointee.Node?
  {
    assert HoldsRefined(RegularAtom, t) && HoldsRefined(BidirectionalSteps, t);
    assert HoldsRefined(WeaklyOrderedAtom, t) && HoldsRefined(RandomAccessArith, t);
  }
}

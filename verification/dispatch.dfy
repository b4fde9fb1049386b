/**
 * Which `copy` overload of namespace `Concept` in 05.Copy.cpp a call selects,
 * and which position types the other algorithms accept.
 *
 * Both `copy` overloads take `(In, In, Out, Out)`, so once both are viable
 * only their constraints can tell them apart: the one whose requirements
 * include all of the other's, and more, wins; otherwise the call is
 * ambiguous.
 */
module Dispatch {
  import opened Wrappers
  import opened Types
  import opened Capabilities

  /** The two type tests of the fast overload. */
  datatype Test = SameValueTypes | ElementTriviallyCopyable

  /** An overload's constraints: the atoms it asks of `In`, those it asks of
      `Out`, and its type tests.  One overload subsumes another when each of
      the three includes the other's. */
  datatype Constraints = Constraints(onIn: set<Atom>, onOut: set<Atom>, tests: set<Test>)

  datatype Overload = Generic | Fast

  datatype Choice = NoMatch | Chose(overload: Overload) | Ambiguous

  predicate Subsumes(a: Constraints, b: Constraints)
  {
    b.onIn <= a.onIn && b.onOut <= a.onOut && b.tests <= a.tests
  }

  predicate MoreConstrained(a: Constraints, b: Constraints)
  {
    Subsumes(a, b) && !Subsumes(b, a)
  }

  /** The generic overload: `Iterator In, Iterator Out` with `Readable<In>`
      and `Writable<Out>`. */
  const GenericConstraints: Constraints :=
    Constraints(IteratorConcept + ReadableConcept, IteratorConcept + WritableConcept, {})

  /** The fast overload as written: `ContiguousIterator In, ContiguousIterator
      Out`, `Readable<In>`, `Writable<Out>` and the two type tests. */
  const FastConstraintsAsWritten: Constraints :=
    Constraints(ContiguousConcept + ReadableConcept, ContiguousConcept + WritableConcept,
                {SameValueTypes, ElementTriviallyCopyable})

  /** The fast overload over the corrected hierarchy. */
  const FastConstraints: Constraints :=
    Constraints(RefinedContiguousConcept + ReadableConcept, RefinedContiguousConcept + WritableConcept,
                {SameValueTypes, ElementTriviallyCopyable})

  /** A type test in the program as written.  `is_same_v` is applied to the
      trait structs `value_type<In>` and `value_type<Out>`, which are the same
      struct only when `In` and `Out` are the same type; and
      `is_trivially_copyable_v` is applied to the trait struct, which has no
      data members and is always trivially copyable. */
  predicate PassesAsWritten(test: Test, inT: Type, outT: Type)
    ensures test == SameValueTypes && PassesAsWritten(test, inT, outT) ==> Passes(test, inT, outT)
  {
    match test
    case SameValueTypes => inT == outT
    case ElementTriviallyCopyable => true
  }

  /** A type test on `value_type_t`, the trait's `type`, rather than on the
      trait struct: the tests of 05.Copy.cpp:268-269 with `value_type`
      replaced by `value_type_t`. */
  predicate Passes(test: Test, inT: Type, outT: Type)
    ensures test == ElementTriviallyCopyable && Passes(test, inT, outT) ==> ValueType(inT).Some? && IsObject(ValueType(inT).value)
  {
    match test
    case SameValueTypes => ValueType(inT) == ValueType(outT)
    case ElementTriviallyCopyable => ValueType(inT).Some? && TriviallyCopyable(ValueType(inT).value)
  }

  predicate ViableAsWritten(c: Constraints, inT: Type, outT: Type)
  {
    Models(c.onIn, inT) && Models(c.onOut, outT) && forall test :: test in c.tests ==> PassesAsWritten(test, inT, outT)
  }

  /** Viability once `pointer_from` is declared and the tests use
      `value_type_t`. */
  predicate Viable(c: Constraints, inT: Type, outT: Type)
  {
    ModelsRefined(c.onIn, inT) && ModelsRefined(c.onOut, outT) && forall test :: test in c.tests ==> Passes(test, inT, outT)
  }

  /** Overload resolution between the two candidates: a lone viable candidate
      is chosen; of two, the strictly more constrained one, if any. */
  function Resolve(genericViable: bool, fastViable: bool, generic: Constraints, fast: Constraints): (c: Choice)
    ensures c == NoMatch <==> !genericViable && !fastViable
    ensures c == Chose(Fast) <==> fastViable && (!genericViable || MoreConstrained(fast, generic))
    ensures c == Chose(Generic) <==> genericViable && (!fastViable || MoreConstrained(generic, fast))
    ensures c == Ambiguous <==>
              genericViable && fastViable && !MoreConstrained(fast, generic) && !MoreConstrained(generic, fast)
  {
    if !genericViable && !fastViable then NoMatch
    else if !fastViable then Chose(Generic)
    else if !genericViable then Chose(Fast)
    else if MoreConstrained(fast, generic) then Chose(Fast)
    else if MoreConstrained(generic, fast) then Chose(Generic)
    else Ambiguous
  }

  /** The overload `Concept::copy` selects in the program as written. */
  function ChooseCopyAsWritten(inT: Type, outT: Type): (c: Choice)
    ensures c != Chose(Fast) && c != Ambiguous
  {
    FastNeverViableAsWritten(inT, outT);
    Resolve(ViableAsWritten(GenericConstraints, inT, outT), ViableAsWritten(FastConstraintsAsWritten, inT, outT),
            GenericConstraints, FastConstraintsAsWritten)
  }

  /** The overload `Concept::copy` selects once `pointer_from` is declared,
      the hierarchy refines as intended and the tests use `value_type_t`. */
  function ChooseCopy(inT: Type, outT: Type): (c: Choice)
    ensures c != Ambiguous
    ensures c == NoMatch ==> !Viable(FastConstraints, inT, outT)
  {
    FastSubsumesGeneric();
    Resolve(Viable(GenericConstraints, inT, outT), Viable(FastConstraints, inT, outT),
            GenericConstraints, FastConstraints)
  }

  /** The generic body's own constraints, stated directly. */
  predicate GenericApplies(inT: Type, outT: Type)
  {
    Models(IteratorConcept, inT) && Models(IteratorConcept, outT) && Readable(inT) && Writable(outT)
  }

  /** The fast path applies when both sides are contiguous, the source is
      readable and the destination writable, the value types agree and are
      trivially copyable. */
  predicate FastPathApplies(inT: Type, outT: Type)
  {
    PointerFrom(inT) && PointerFrom(outT) && Readable(inT) && Writable(outT)
    && ValueType(inT) == ValueType(outT) && TriviallyCopyable(ValueType(inT).value)
  }

  /** A union of concepts is modelled when each part is. */
  lemma ModelsUnion(c: set<Atom>, d: set<Atom>, t: Type)
    ensures Models(c + d, t) <==> Models(c, t) && Models(d, t)
    ensures ModelsRefined(c + d, t) <==> ModelsRefined(c, t) && ModelsRefined(d, t)
  {
  }

  lemma ReadableWritableConcepts(t: Type)
    ensures Models(ReadableConcept, t) <==> Readable(t)
    ensures Models(WritableConcept, t) <==> Writable(t)
  {
    assert Models(ReadableConcept, t) <==> Holds(ReadableSource, t);
    assert Models(WritableConcept, t) <==> Holds(WritableSink, t);
  }

  /** The corrections change only `pointer_from`, so a concept that does not
      ask for it is modelled by the same types before and after. */
  lemma RefinedAgreesWithoutPointerFrom(c: set<Atom>, t: Type)
    requires ContiguousPointer !in c
    ensures ModelsRefined(c, t) <==> Models(c, t)
  {
    if ModelsRefined(c, t) {
      forall a | a in c
        ensures Holds(a, t)
      {
        assert HoldsRefined(a, t);
      }
    }
    if Models(c, t) {
      forall a | a in c
        ensures HoldsRefined(a, t)
      {
        assert Holds(a, t);
      }
    }
  }

  lemma GenericViableIff(inT: Type, outT: Type)
    ensures ViableAsWritten(GenericConstraints, inT, outT) <==> GenericApplies(inT, outT)
    ensures Viable(GenericConstraints, inT, outT) <==> GenericApplies(inT, outT)
  {
    var g := GenericConstraints;
    ModelsUnion(IteratorConcept, ReadableConcept, inT);
    ModelsUnion(IteratorConcept, WritableConcept, outT);
    ReadableWritableConcepts(inT);
    ReadableWritableConcepts(outT);
    RefinedAgreesWithoutPointerFrom(g.onIn, inT);
    RefinedAgreesWithoutPointerFrom(g.onOut, outT);
    assert g.tests == {};
  }

  /** The fast overload as written is never viable: its `ContiguousIterator`
      constraints cannot be met. */
  lemma FastNeverViableAsWritten(inT: Type, outT: Type)
    ensures !ViableAsWritten(FastConstraintsAsWritten, inT, outT)
  {
    ModelsUnion(ContiguousConcept, ReadableConcept, inT);
    ContiguousNever(inT);
  }

  /** As written, `Concept::copy` never takes the fast path: it takes the
      generic body exactly when that body's constraints hold, and finds no
      match otherwise. */
  lemma ChooseCopyAsWrittenSpec(inT: Type, outT: Type)
    ensures ChooseCopyAsWritten(inT, outT) != Chose(Fast)
    ensures ChooseCopyAsWritten(inT, outT) == Chose(Generic) <==> GenericApplies(inT, outT)
    ensures ChooseCopyAsWritten(inT, outT) == NoMatch <==> !GenericApplies(inT, outT)
  {
    FastNeverViableAsWritten(inT, outT);
    GenericViableIff(inT, outT);
  }

  /** The fast overload as written does not include the generic overload's
      requirements (its iterators are not `Iterator`s by subsumption), so if
      both were ever viable the call would be ambiguous. */
  lemma AsWrittenWouldBeAmbiguous()
    ensures !Subsumes(FastConstraintsAsWritten, GenericConstraints)
    ensures !Subsumes(GenericConstraints, FastConstraintsAsWritten)
    ensures Resolve(true, true, GenericConstraints, FastConstraintsAsWritten) == Ambiguous
  {
    assert IteratorSuccessor in GenericConstraints.onIn;
    assert IteratorSuccessor !in FastConstraintsAsWritten.onIn;
    assert SameValueTypes in FastConstraintsAsWritten.tests;
  }

  /** As written, `is_same_v` on the trait structs rejects `int const*` to
      `int*` although both name `int`, and the trivially-copyable test accepts
      a class whose copies are not trivial. */
  lemma AsWrittenTestsMissTheValueType()
    ensures ValueType(Ptr(Cv(Int, true, false))) == ValueType(Ptr(Int))
    ensures !PassesAsWritten(SameValueTypes, Ptr(Cv(Int, true, false)), Ptr(Int))
    ensures Passes(SameValueTypes, Ptr(Cv(Int, true, false)), Ptr(Int))
    ensures PassesAsWritten(ElementTriviallyCopyable, Ptr(Class(None, true, false)), Ptr(Class(None, true, false)))
    ensures !Passes(ElementTriviallyCopyable, Ptr(Class(None, true, false)), Ptr(Class(None, true, false)))
  {
  }

  /** With the corrections the fast overload is strictly more constrained
      than the generic one, so it wins whenever it is viable. */
  lemma FastSubsumesGeneric()
    ensures MoreConstrained(FastConstraints, GenericConstraints)
  {
    RefinedChain();
    assert SameValueTypes in FastConstraints.tests;
  }

  lemma FastTestsIff(inT: Type, outT: Type)
    ensures (forall test :: test in FastConstraints.tests ==> Passes(test, inT, outT))
        <==> Passes(SameValueTypes, inT, outT) && Passes(ElementTriviallyCopyable, inT, outT)
  {
    assert FastConstraints.tests == {SameValueTypes, ElementTriviallyCopyable};
  }

  lemma FastViableIff(inT: Type, outT: Type)
    ensures Viable(FastConstraints, inT, outT) <==> FastPathApplies(inT, outT)
  {
    RefinedContiguousIff(inT);
    RefinedContiguousIff(outT);
    ModelsUnion(RefinedContiguousConcept, ReadableConcept, inT);
    ModelsUnion(RefinedContiguousConcept, WritableConcept, outT);
    ReadableWritableConcepts(inT);
    ReadableWritableConcepts(outT);
    RefinedAgreesWithoutPointerFrom(ReadableConcept, inT);
    RefinedAgreesWithoutPointerFrom(WritableConcept, outT);
    FastTestsIff(inT, outT);
  }

  /** A fast-path candidate is also a generic one. */
  lemma FastImpliesGeneric(inT: Type, outT: Type)
    requires FastPathApplies(inT, outT)
    ensures GenericApplies(inT, outT)
  {
    assert Holds(RegularAtom, inT) && Holds(IteratorSuccessor, inT);
    assert Holds(RegularAtom, outT) && Holds(IteratorSuccessor, outT);
  }

  /** The corrected dispatch takes the fast path exactly when it applies,
      the generic body exactly when only that applies, and is never
      ambiguous. */
  lemma ChooseCopySpec(inT: Type, outT: Type)
    ensures ChooseCopy(inT, outT) == Chose(Fast) <==> FastPathApplies(inT, outT)
    ensures ChooseCopy(inT, outT) == Chose(Generic) <==> GenericApplies(inT, outT) && !FastPathApplies(inT, outT)
    ensures ChooseCopy(inT, outT) != Ambiguous
  {
    FastSubsumesGeneric();
    FastViableIff(inT, outT);
    GenericViableIff(inT, outT);
    if FastPathApplies(inT, outT) {
      FastImpliesGeneric(inT, outT);
    }
  }

  /** The calls in the test program, `int*` to `int*` and `node<int>*` to
      `int*`, both run the generic body as written. */
  lemma CopyCallsAsWritten()
    ensures ChooseCopyAsWritten(Ptr(Int), Ptr(Int)) == Chose(Generic)
    ensures ChooseCopyAsWritten(Ptr(Node(Int)), Ptr(Int)) == Chose(Generic)
  {
    ObjectPointerCapabilities(Int);
    NodePointerCapabilities(Int);
    ChooseCopyAsWrittenSpec(Ptr(Int), Ptr(Int));
    ChooseCopyAsWrittenSpec(Ptr(Node(Int)), Ptr(Int));
  }

  /** With the corrections `int*` to `int*` takes the fast path. */
  lemma CopyCallFast()
    ensures ChooseCopy(Ptr(Int), Ptr(Int)) == Chose(Fast)
  {
    ObjectPointerCapabilities(Int);
    ChooseCopySpec(Ptr(Int), Ptr(Int));
  }

  /** So does `int const*` to `int*`: the value types agree once cv is
      removed. */
  lemma CopyCallFromConstFast()
    ensures ChooseCopy(Ptr(Cv(Int, true, false)), Ptr(Int)) == Chose(Fast)
  {
    ObjectPointerCapabilities(Int);
    ConstPointerReadOnly(Int);
    ChooseCopySpec(Ptr(Cv(Int, true, false)), Ptr(Int));
  }

  /** With the corrections a node list still runs the generic body, and
      nothing copies into `int const*`. */
  lemma CopyCallsOther()
    ensures ChooseCopy(Ptr(Node(Int)), Ptr(Int)) == Chose(Generic)
    ensures ChooseCopy(Ptr(Int), Ptr(Cv(Int, true, false))) == NoMatch
  {
    ObjectPointerCapabilities(Int);
    ConstPointerReadOnly(Int);
    NodePointerCapabilities(Int);
    ChooseCopySpec(Ptr(Node(Int)), Ptr(Int));
    ChooseCopySpec(Ptr(Int), Ptr(Cv(Int, true, false)));
  }

  /** `node<int> const*` reads `int const&` through `source` but names
      `node<int>` as its value type, so `max_element`, `upper_bound` and
      `copy` from it to `node<int>*` are all rejected. */
  lemma ConstNodePointerRejected()
    ensures !MaxElementAccepts(Ptr(Cv(Node(Int), true, false)))
    ensures !UpperBoundAccepts(Ptr(Cv(Node(Int), true, false)))
    ensures ChooseCopyAsWritten(Ptr(Cv(Node(Int), true, false)), Ptr(Node(Int))) == NoMatch
    ensures ChooseCopy(Ptr(Cv(Node(Int), true, false)), Ptr(Node(Int))) == NoMatch
  {
    QualifiedNodePointerUnreadable(Int, false);
    ChooseCopyAsWrittenSpec(Ptr(Cv(Node(Int), true, false)), Ptr(Node(Int)));
    ChooseCopySpec(Ptr(Cv(Node(Int), true, false)), Ptr(Node(Int)));
  }

  /** `fill` takes a writable `Iterator`. */
  predicate FillAccepts(t: Type) { Models(IteratorConcept, t) && Writable(t) }

  /** The type `fill`'s third parameter refers to: the trait struct
      `value_type<It>` as written at 05.Copy.cpp:281, or a named type such
      as `value_type_t<It>`. */
  datatype ParamType = TraitStruct(it: Type) | Named(named: Type)

  /** An lvalue of type `arg` initialises a `p const&` parameter: directly
      when it has the type of `p` with no qualifier the parameter lacks, or
      through a temporary when both are arithmetic.  The trait struct is a
      class of its own with only its implicit constructors, and no type of
      the model is it or converts to it. */
  predicate InitialisesConstRef(p: ParamType, arg: Type)
  {
    match p
    case TraitStruct(_) => false
    case Named(t) => Binds(AddConst(t), arg) || (IsArithmetic(RemoveCv(t)) && IsArithmetic(RemoveCv(arg)))
  }

  /** `e = x` for an lvalue `e` of type `target` and a `p const&` named `x`:
      the trait struct assigns to nothing, and a named type to a non-const
      lvalue of the same copy-assignable type or between arithmetic types. */
  predicate AssignsFrom(target: Type, p: ParamType)
  {
    match p
    case TraitStruct(_) => false
    case Named(t) =>
      !IsConst(target)
      && ((RemoveCv(target) == RemoveCv(t) && Regular(RemoveCv(t)))
          || (IsArithmetic(RemoveCv(target)) && IsArithmetic(RemoveCv(t))))
  }

  /** A call `fill(it, it_end, x)` with `it` of type `t` and `x` an lvalue of
      type `arg` compiles, with the parameter `value_type<It> const&` as
      written: `It` must be accepted, `x` must initialise the parameter and
      `sink(it) = x` must assign. */
  predicate FillCallAsWritten(t: Type, arg: Type)
  {
    FillAccepts(t) && AssignsFrom(SinkReferent(t.pointee), TraitStruct(t)) && InitialisesConstRef(TraitStruct(t), arg)
  }

  /** The same call with the parameter `value_type_t<It> const&`. */
  predicate FillCall(t: Type, arg: Type)
  {
    FillAccepts(t)
    && InitialisesConstRef(Named(ValueType(t).value), arg)
    && AssignsFrom(SinkReferent(t.pointee), Named(ValueType(t).value))
  }

  /** As written, no call of `fill` compiles, whatever the positions and the
      value: neither initialising the parameter nor the assignment in the
      loop accepts any type. */
  lemma FillNeverCallableAsWritten(t: Type, arg: Type)
    ensures !FillCallAsWritten(t, arg)
    ensures forall a :: !InitialisesConstRef(TraitStruct(t), a)
    ensures forall e :: !AssignsFrom(e, TraitStruct(t))
  {
  }

  /** With `value_type_t`, `fill` over any writable iterator whose value type
      is a non-const copy-assignable type accepts a value of that type, and
      one of an arithmetic type when the value type is arithmetic. */
  lemma FillCallableWithElement(t: Type, arg: Type)
    requires FillAccepts(t)
    requires !IsConst(ValueType(t).value) && Regular(RemoveCv(ValueType(t).value))
    ensures FillCall(t, ValueType(t).value)
    ensures IsArithmetic(RemoveCv(ValueType(t).value)) && IsArithmetic(RemoveCv(arg)) ==> FillCall(t, arg)
  {
    var v := ValueType(t).value;
    assert Binds(v, SinkReferent(t.pointee));
    assert Binds(AddConst(v), v);
  }

  /** `fill` over `int*` with an int, over `node<int>*` with a char, and
      not with a pointer; none of them as written. */
  lemma FillExamples()
    ensures FillCall(Ptr(Int), Int) && FillCall(Ptr(Node(Int)), Char)
    ensures !FillCall(Ptr(Int), Ptr(Int))
    ensures !FillCall(Ptr(Cv(Int, true, false)), Int)
    ensures !FillCallAsWritten(Ptr(Int), Int)
  {
    ObjectPointerCapabilities(Int);
    NodePointerCapabilities(Int);
    assert FillAccepts(Ptr(Int)) && FillAccepts(Ptr(Node(Int)));
    FillCallableWithElement(Ptr(Int), Int);
    FillCallableWithElement(Ptr(Node(Int)), Char);
  }

  /** `max_element` takes a readable `ForwardIterator`. */
  predicate MaxElementAccepts(t: Type) { Models(ForwardConcept, t) && Readable(t) }

  /** `reverse` takes a readable, writable `BidirectionalIterator`. */
  predicate ReverseAccepts(t: Type) { Models(BidirectionalConcept, t) && Readable(t) && Writable(t) }

  /** `upper_bound` takes a readable `RandomAccessIterator` whose value type
      is `WeaklyOrdered`. */
  predicate UpperBoundAccepts(t: Type)
  {
    Models(RandomAccessConcept, t) && Readable(t) && ValueType(t).Some? && Models(WeaklyOrderedConcept, ValueType(t).value)
  }

  /** Node positions: `fill`, `max_element` and `upper_bound` accept them,
      `reverse` does not, since `predecessor` is deleted for nodes.  Array
      positions are accepted by all four. */
  lemma AlgorithmAcceptance(e: Type)
    requires WellFormed(e) && IsObject(e) && !e.Node? && !IsConst(e) && !IsVolatile(e)
    ensures FillAccepts(Ptr(Node(e))) && MaxElementAccepts(Ptr(Node(e))) && UpperBoundAccepts(Ptr(Node(e)))
    ensures !ReverseAccepts(Ptr(Node(e)))
    ensures FillAccepts(Ptr(e)) && MaxElementAccepts(Ptr(e)) && ReverseAccepts(Ptr(e)) && UpperBoundAccepts(Ptr(e))
  {
    NodePointerCapabilities(e);
    ObjectPointerCapabilities(e);
    assert Readable(Ptr(Node(e))) && Writable(Ptr(Node(e)));
    assert Readable(Ptr(e)) && Writable(Ptr(e));
    WeaklyOrderedAlways(e);
    WeaklyOrderedAlways(ValueType(Ptr(Node(e))).value);
    WeaklyOrderedAlways(ValueType(Ptr(e)).value);
  }

  /** In the corrected hierarchy, random access implies bidirectional, so
      `upper_bound` would turn node positions away as `reverse` does. */
  predicate UpperBoundAcceptsRefined(t: Type)
  {
    ModelsRefined(RefinedRandomAccessConcept, t) && Readable(t) && ValueType(t).Some?
  }

  lemma RefinedUpperBoundRejectsNodes(e: Type)
    ensures !UpperBoundAcceptsRefined(Ptr(Node(e)))
    ensures UpperBoundAcceptsRefined(Ptr(Int))
  {
    if UpperBoundAcceptsRefined(Ptr(Node(e))) {
      RefinedRandomAccessIsBidirectional(Ptr(Node(e)));
    }
    ObjectPointerCapabilities(Int);
    forall a | a in RefinedRandomAccessConcept
      ensures HoldsRefined(a, Ptr(Int))
    {
    }
  }
}

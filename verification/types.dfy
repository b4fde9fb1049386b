/**
 * The `value_type` trait of 05.Copy.cpp, over a small descriptor of C++
 * types.
 *
 * The trait is a primary template with no `type` member and six partial
 * specialisations; `ValueType` answers `Some(t)` exactly when
 * `value_type_t<T>` names `t`.  Each match arm below is one specialisation,
 * and an arm that recurses follows a specialisation that inherits from
 * another instantiation of the trait.
 */
module Types {
  import opened Wrappers

  /** A C++ type, as far as the trait and the capability concepts look at it.
      `Node(v)` is `node<v>`.  `Class` is any other class type; `member` is its
      nested `value_type`, if it declares one.  `Cv` adds `const` and/or
      `volatile` to its base. */
  datatype Type =
    | Int
    | Char
    | Void
    | Function
    | Ptr(pointee: Type)
    | Ref(referent: Type)
    | Arr(elem: Type)
    | Node(value: Type)
    | Class(member: Option<Type>, regular: bool, trivial: bool)
    | Cv(base: Type, isConst: bool, isVolatile: bool)

  /** `is_object`: everything but functions, references and `void`. */
  predicate IsObject(t: Type)
  {
    match t
    case Void => false
    case Function => false
    case Ref(_) => false
    case Cv(b, _, _) => IsObject(b)
    case _ => true
  }

  /** A type the language can form, written in one canonical way: cv
      qualifiers sit on a non-array object type and are not nested, and
      an array of const T is written as `Arr(Cv(T, true, _))`. */
  predicate WellFormed(t: Type)
  {
    match t
    case Ptr(p) => !p.Ref? && WellFormed(p)
    case Ref(r) => !r.Ref? && !r.Void? && WellFormed(r)
    case Arr(e) => IsObject(e) && WellFormed(e)
    case Node(v) => !v.Void? && !v.Function? && WellFormed(v)
    case Class(m, _, _) => m.Some? ==> WellFormed(m.value)
    case Cv(b, c, v) =>
      (c || v) && !b.Cv? && !b.Ref? && !b.Function? && !b.Arr? && !b.Void? && WellFormed(b)
    case _ => true
  }

  /** A measure that the trait's recursion decreases. */
  function Size(t: Type): (n: nat)
    ensures n >= 1
  {
    match t
    case Ptr(p) => 1 + Size(p)
    case Ref(r) => 1 + Size(r)
    case Arr(e) => 2 + Size(e)
    case Node(v) => 1 + Size(v)
    case Class(m, _, _) => if m.Some? then 1 + Size(m.value) else 1
    case Cv(b, _, _) => 2 + Size(b)
    case _ => 1
  }

  /** `remove_cv_t`.  The qualifiers of an array are those of its element,
      so `remove_cv_t<int const[3]>` is `int[3]`. */
  function RemoveCv(t: Type): (r: Type)
    ensures WellFormed(t) ==> !r.Cv? && WellFormed(r)
    ensures WellFormed(t) ==> !IsConst(r) && !IsVolatile(r)
    ensures IsObject(r) == IsObject(t)
    ensures Size(r) <= Size(t)
  {
    match t
    case Cv(b, _, _) => b
    case Arr(e) => Arr(RemoveCv(e))
    case _ => t
  }

  /** `remove_cv_t` leaves a type without qualifiers, so applying it twice
      changes nothing, and it keeps every type that is not qualified and not
      an array. */
  lemma {:induction false} RemoveCvIdempotent(t: Type)
    requires WellFormed(t)
    ensures RemoveCv(RemoveCv(t)) == RemoveCv(t)
    ensures !t.Cv? && !t.Arr? ==> RemoveCv(t) == t
  {
    match t
    case Arr(e) => RemoveCvIdempotent(e);
    case Cv(b, _, _) =>
    case _ =>
  }

  /** `decay_t`: drop a reference, turn an array or a function into a pointer,
      drop cv qualifiers. */
  function Decay(t: Type): (d: Type)
    ensures Size(d) <= Size(t) + 1
    ensures !d.Ref? && !d.Arr? && !d.Function? && !d.Cv?
  {
    match t
    case Ref(r) => Decay(r)
    case Arr(e) => Ptr(e)
    case Function => Ptr(Function)
    case Cv(b, _, _) => Decay(b)
    case _ => t
  }

  /** The nested `value_type` of a class, kept only when it is an object type
      (the last two specialisations). */
  function MemberValueType(t: Type): (r: Option<Type>)
    ensures r.Some? <==> t.Class? && t.member.Some? && IsObject(t.member.value)
    ensures r.Some? ==> r == t.member
  {
    if t.Class? && t.member.Some? && IsObject(t.member.value) then t.member else None
  }

  /** A qualified type without its `const`, keeping `volatile`. */
  function DropConst(t: Type): (r: Type)
    requires t.Cv?
    ensures Size(r) <= Size(t)
    ensures WellFormed(t) ==> WellFormed(r) && RemoveCv(r) == RemoveCv(t) && !IsConst(r)
  {
    if t.isVolatile then Cv(t.base, false, true) else t.base
  }

  /** `value_type_t<T>`, or None when the primary template is selected or the
      selected specialisation declares no `type`. */
  function ValueType(t: Type): (r: Option<Type>)
    ensures r.Some? ==> t.Ptr? || t.Arr? || t.Class? || (t.Cv? && (t.isConst || t.base.Class?))
    decreases Size(t)
  {
    match t
    // an array of const elements is itself const, and `T const` is more
    // specialised than `T[N]`: the trait of `decay_t` of the array without
    // its const applies, which for `node<U> const[N]` is the node rule
    case Arr(e) =>
      if e.Cv? && e.isConst then ValueType(Ptr(DropConst(e)))
      // any other array inherits from the trait of its decayed type
      else ValueType(Ptr(e))
    // `T const` inherits from the trait of `decay_t<T>`; a type that is only
    // volatile can match nothing but the class specialisations
    case Cv(b, isConst, _) => if isConst then ValueType(Decay(b)) else MemberValueType(b)
    // `node<T>*` is more specialised than `T*` and wins
    case Ptr(p) =>
      if p.Node? then Some(p.value)
      else if IsObject(p) then Some(RemoveCv(p))
      else None
    case Class(_, _, _) => MemberValueType(t)
    case _ => None
  }

  /** `is_arithmetic` for the unqualified scalars of the model. */
  predicate IsArithmetic(t: Type) { t.Int? || t.Char? }

  /** `is_const`-like test for the qualifiers of a type; an array carries
      the qualifiers of its element. */
  predicate IsConst(t: Type)
  {
    match t
    case Cv(_, c, _) => c
    case Arr(e) => IsConst(e)
    case _ => false
  }

  predicate IsVolatile(t: Type)
  {
    match t
    case Cv(_, _, v) => v
    case Arr(e) => IsVolatile(e)
    case _ => false
  }

  /** A pointer to an object names the pointee without its cv qualifiers, and
      a pointer to anything else names nothing; `node<T>*` is the exception. */
  lemma PointerValueType(p: Type)
    requires WellFormed(p) && !p.Node?
    ensures ValueType(Ptr(p)) == (if IsObject(p) then Some(RemoveCv(p)) else None)
    ensures IsObject(p) ==> !ValueType(Ptr(p)).value.Cv?
  {
  }

  /** For `node<T>*` the node specialisation wins over the pointer one: the
      result is the element type T, cv qualifiers and all, never the node. */
  lemma NodePointerWins(e: Type)
    ensures ValueType(Ptr(Node(e))) == Some(e)
    ensures ValueType(Ptr(Node(e))) != Some(RemoveCv(Node(e)))
  {
  }

  /** `node<T> const*` does not match `node<T>*`, so the generic pointer rule
      applies and the value type is the node itself. */
  lemma ConstNodePointer(e: Type)
    ensures ValueType(Ptr(Cv(Node(e), true, false))) == Some(Node(e))
  {
    assert IsObject(Cv(Node(e), true, false));
  }

  /** An array of non-const elements has the value type of a pointer to its
      element; an array of const elements that are not volatile nodes names
      the element without qualifiers, except that `node<U> const[N]` names U;
      a const non-array type has the value type of the type without
      qualifiers. */
  lemma ArraysAndConstDecay(t: Type)
    requires WellFormed(t)
    ensures t.Arr? && !IsConst(t.elem) ==> ValueType(t) == ValueType(Ptr(t.elem))
    ensures t.Arr? && !RemoveCv(t.elem).Node? ==> ValueType(t) == Some(RemoveCv(t.elem))
    ensures t.Arr? && t.elem.Cv? && t.elem.isConst && !t.elem.isVolatile && t.elem.base.Node?
      ==> ValueType(t) == Some(t.elem.base.value)
    ensures t.Cv? && t.isConst ==> ValueType(t) == ValueType(t.base)
  {
    if t.Arr? && IsObject(t.elem) {
      assert IsObject(RemoveCv(t.elem));
    }
    if t.Cv? && t.isConst {
      var b := t.base;
      assert Decay(b) == b by {
        match b
        case Ptr(_) =>
        case Node(_) =>
        case Class(_, _, _) =>
        case Int =>
        case Char =>
      }
    }
  }

  /** A class's member `value_type` counts exactly when it names an object
      type; a reference or `void` member leaves the trait empty. */
  lemma MemberMustBeObject(m: Type, regular: bool, trivial: bool)
    ensures ValueType(Class(Some(m), regular, trivial)).Some? <==> IsObject(m)
    ensures ValueType(Class(Some(m), regular, trivial)).Some? ==> ValueType(Class(Some(m), regular, trivial)) == Some(m)
    ensures ValueType(Class(None, regular, trivial)) == None
  {
  }

  /** A well-formed type that names a value type names an object type, or a
      reference when it is a pointer to a node holding one: the node
      specialisation, unlike the others, does not ask for an object. */
  lemma {:induction false} ValueTypeIsObject(t: Type)
    requires WellFormed(t)
    requires ValueType(t).Some?
    ensures IsObject(ValueType(t).value) || ValueType(t).value.Ref?
    decreases Size(t)
  {
    match t
    case Arr(e) =>
      if e.Cv? && e.isConst {
        ValueTypeIsObject(Ptr(DropConst(e)));
      } else {
        ValueTypeIsObject(Ptr(e));
      }
    case Cv(b, isConst, _) =>
      if isConst {
        assert Decay(b) == b by {
          match b
          case Ptr(_) =>
          case Node(_) =>
          case Class(_, _, _) =>
          case Int =>
          case Char =>
        }
        ValueTypeIsObject(b);
      }
    case Ptr(p) =>
      if p.Node? {
        assert WellFormed(Node(p.value));
        if !p.value.Ref? {
          ObjectUnlessExcluded(p.value);
        }
      }
    case Class(_, _, _) =>
  }

  /** A well-formed type that is neither void, a function nor a reference is
      an object type. */
  lemma ObjectUnlessExcluded(t: Type)
    requires WellFormed(t)
    requires !t.Void? && !t.Function? && !t.Ref?
    ensures IsObject(t)
  {
  }

  /** Plain scalars, pointers and `const`/`volatile` forms of them have no
      value type of their own: only pointers, arrays and classes do. */
  lemma ScalarsHaveNone(c: bool, v: bool)
    ensures ValueType(Int) == None && ValueType(Char) == None
    ensures ValueType(Cv(Int, c, v)) == None
    ensures ValueType(Ptr(Void)) == None && ValueType(Ptr(Function)) == None
    ensures ValueType(Ref(Ptr(Int))) == None
  {
  }

  /** Pointer examples: `int*` and `int const*` both name int, `int* const`
      names int through the const rule, `node<int>*` names int and
      `node<int const>*` keeps the const. */
  lemma PointerExamples()
    ensures ValueType(Ptr(Int)) == Some(Int)
    ensures ValueType(Ptr(Cv(Int, true, false))) == Some(Int)
    ensures ValueType(Cv(Ptr(Int), true, false)) == Some(Int)
    ensures ValueType(Ptr(Node(Int))) == Some(Int)
    ensures ValueType(Ptr(Node(Cv(Int, true, false)))) == Some(Cv(Int, true, false))
  {
  }

  /** Array examples: `char const[N]` names char; `node<int>[N]` and
      `node<int> const[N]` both name int, the second through the const rule;
      `node<int> const volatile[N]` decays to `node<int> volatile*`, which
      only the generic pointer rule matches. */
  lemma ArrayExamples()
    ensures ValueType(Arr(Cv(Char, true, false))) == Some(Char)
    ensures ValueType(Arr(Node(Int))) == Some(Int)
    ensures ValueType(Arr(Cv(Node(Int), true, false))) == Some(Int)
    ensures ValueType(Arr(Cv(Node(Int), true, true))) == Some(Node(Int))
  {
    assert ValueType(Ptr(Char)) == Some(Char);
    assert ValueType(Ptr(Node(Int))) == Some(Int);
    assert ValueType(Ptr(Cv(Node(Int), false, true))) == Some(Node(Int));
  }

  /** `is_trivially_copyable`, with a class's answer carried by its
      descriptor. */
  predicate TriviallyCopyable(t: Type)
    ensures TriviallyCopyable(t) ==> IsObject(t)
  {
    match t
    case Int => true
    case Char => true
    case Ptr(_) => true
    case Arr(e) => TriviallyCopyable(e)
    case Node(v) => TriviallyCopyable(v)
    case Class(_, _, trivial) => trivial
    case Cv(b, _, _) => TriviallyCopyable(b)
    case _ => false
  }
}

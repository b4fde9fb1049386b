/**
 * Positions and the four primitive operations of 05.Copy.cpp.
 *
 * A position is an integer naming a slot of a `Store`: either an index into a
 * flat block of elements (the `T*` overloads) or an index into a pool of
 * singly-linked nodes (the `node<T>*` overloads).  `Source`, `Sink` and
 * `Successor` are defined for both kinds; retreat (`Predecessor`) is defined
 * for array positions only, because the node overload of `predecessor` is
 * deleted.
 *
 * A range [first, last) is valid when repeated `Successor` from `first`
 * reaches `last`.  For nodes this is decided by `Walk`, which follows `next`
 * links with at most |nodes| steps: a chain that reaches its sentinel visits
 * each node at most once, so that bound excludes no terminating chain.
 */
module Primitives {
  import opened Wrappers

  /** `node<T>`: a value and the position of the following node. */
  datatype Node<T> = Node(value: T, next: int)

  /** The memory positions point into. */
  datatype Store<T> = Array(elems: seq<T>) | Nodes(nodes: seq<Node<T>>)

  function Size<T>(s: Store<T>): nat {
    match s
    case Array(elems) => |elems|
    case Nodes(nodes) => |nodes|
  }

  predicate Dereferenceable<T>(s: Store<T>, p: int) {
    0 <= p < Size(s)
  }

  /** `source(p)`: `*p` for an array position, `p->value` for a node. */
  function Source<T>(s: Store<T>, p: int): T
    requires Dereferenceable(s, p)
  {
    match s
    case Array(elems) => elems[p]
    case Nodes(nodes) => nodes[p].value
  }

  /** Two stores of the same kind and size whose node links agree: the
      successor structure of one is that of the other. */
  predicate SameShape<T>(s: Store<T>, t: Store<T>) {
    match s
    case Array(a) => t.Array? && |a| == |t.elems|
    case Nodes(a) =>
      && t.Nodes?
      && |a| == |t.nodes|
      && forall i :: 0 <= i < |a| ==> a[i].next == t.nodes[i].next
  }

  lemma SameShapeSize<T>(s: Store<T>, t: Store<T>)
    requires SameShape(s, t)
    ensures Size(s) == Size(t)
  {
  }

  lemma SameShapeTransitive<T>(s: Store<T>, t: Store<T>, u: Store<T>)
    requires SameShape(s, t) && SameShape(t, u)
    ensures SameShape(s, u)
  {
  }

  /** `sink(p) = v`: replaces the element at p and nothing else; a node keeps
      its link. */
  function Sink<T>(s: Store<T>, p: int, v: T): (t: Store<T>)
    requires Dereferenceable(s, p)
    ensures SameShape(s, t) && Size(t) == Size(s)
    ensures Source(t, p) == v
    ensures forall q :: Dereferenceable(s, q) && q != p ==> Source(t, q) == Source(s, q)
  {
    match s
    case Array(elems) => Array(elems[p := v])
    case Nodes(nodes) => Nodes(nodes[p := Node(v, nodes[p].next)])
  }

  /** `successor(T* p)`: the next address. */
  function ArraySuccessor(p: int): int {
    p + 1
  }

  /** `predecessor(T* p)`: the previous address; it undoes `ArraySuccessor`.
      There is deliberately no node counterpart. */
  function Predecessor(p: int): (q: int)
    ensures ArraySuccessor(q) == p
  {
    p - 1
  }

  /** The law stated beside `BidirectionalIterator`: retreat after advance is
      the identity. */
  lemma RetreatUndoesAdvance(p: int)
    ensures Predecessor(ArraySuccessor(p)) == p
  {
  }

  /** `successor(p)`: next address, or the node's `next` link. */
  function Successor<T>(s: Store<T>, p: int): int
    requires s.Array? || Dereferenceable(s, p)
  {
    match s
    case Array(_) => ArraySuccessor(p)
    case Nodes(nodes) => nodes[p].next
  }

  lemma SameShapeSuccessor<T>(s: Store<T>, t: Store<T>, p: int)
    requires SameShape(s, t) && Dereferenceable(s, p)
    ensures Dereferenceable(t, p) && Successor(t, p) == Successor(s, p)
  {
  }

  /** The positions visited by following links from p until `last`, or None
      when `last` is not reached within `fuel` steps or a link leaves the pool. */
  function Walk<T>(nodes: seq<Node<T>>, p: int, last: int, fuel: nat): Option<seq<int>>
    decreases fuel
  {
    if p == last then Some([])
    else if fuel == 0 || !(0 <= p < |nodes|) then None
    else match Walk(nodes, nodes[p].next, last, fuel - 1)
      case None => None
      case Some(rest) => Some([p] + rest)
  }

  /** [first, last) is a range: for arrays, first <= last inside the block
      (last may be one past the end); for nodes, the chain from first reaches
      the sentinel node `last`. */
  predicate ValidRange<T>(s: Store<T>, first: int, last: int) {
    match s
    case Array(elems) => 0 <= first <= last <= |elems|
    case Nodes(nodes) => 0 <= last < |nodes| && Walk(nodes, first, last, |nodes|).Some?
  }

  /** The number of `Successor` steps from first to last. */
  function Distance<T>(s: Store<T>, first: int, last: int): nat
    requires ValidRange(s, first, last)
  {
    match s
    case Array(_) => last - first
    case Nodes(nodes) => |Walk(nodes, first, last, |nodes|).value|
  }

  lemma {:induction false} WalkMoreFuel<T>(nodes: seq<Node<T>>, p: int, last: int, f: nat, g: nat)
    requires Walk(nodes, p, last, f).Some? && f <= g
    ensures Walk(nodes, p, last, g) == Walk(nodes, p, last, f)
    decreases f
  {
    if p != last {
      WalkMoreFuel(nodes, nodes[p].next, last, f - 1, g - 1);
    }
  }

  lemma {:induction false} WalkSameLinks<T>(a: seq<Node<T>>, b: seq<Node<T>>, p: int, last: int, fuel: nat)
    requires SameShape(Nodes(a), Nodes(b))
    ensures Walk(a, p, last, fuel) == Walk(b, p, last, fuel)
    decreases fuel
  {
    if p != last && fuel != 0 && 0 <= p < |a| {
      WalkSameLinks(a, b, a[p].next, last, fuel - 1);
    }
  }

  /** Every suffix of a walk is the walk from its first position. */
  lemma {:induction false} WalkSuffix<T>(nodes: seq<Node<T>>, p: int, last: int, f: nat, j: nat)
    requires Walk(nodes, p, last, f).Some?
    requires j < |Walk(nodes, p, last, f).value|
    ensures Walk(nodes, Walk(nodes, p, last, f).value[j], last, f)
         == Some(Walk(nodes, p, last, f).value[j..])
    decreases f
  {
    var path := Walk(nodes, p, last, f).value;
    if j > 0 {
      var next := nodes[p].next;
      var rest := Walk(nodes, next, last, f - 1).value;
      assert path == [p] + rest;
      WalkSuffix(nodes, next, last, f - 1, j - 1);
      assert path[j] == rest[j - 1] && path[j..] == rest[j - 1..];
      WalkMoreFuel(nodes, rest[j - 1], last, f - 1, f);
    }
  }

  /** One step inside a non-empty range stays inside it and shortens it by one. */
  lemma StepRange<T>(s: Store<T>, p: int, last: int)
    requires ValidRange(s, p, last) && p != last
    ensures Dereferenceable(s, p)
    ensures ValidRange(s, Successor(s, p), last)
    ensures Distance(s, Successor(s, p), last) == Distance(s, p, last) - 1
  {
    if s.Nodes? {
      var n := s.nodes;
      WalkMoreFuel(n, n[p].next, last, |n| - 1, |n|);
    }
  }

  lemma EmptyRange<T>(s: Store<T>, first: int, last: int)
    requires ValidRange(s, first, last)
    ensures Distance(s, first, last) == 0 <==> first == last
  {
  }

  lemma ShapeKeepsRange<T>(s: Store<T>, t: Store<T>, first: int, last: int)
    requires SameShape(s, t)
    ensures ValidRange(s, first, last) <==> ValidRange(t, first, last)
    ensures ValidRange(s, first, last) ==> Distance(s, first, last) == Distance(t, first, last)
  {
    if s.Nodes? {
      WalkSameLinks(s.nodes, t.nodes, first, last, |s.nodes|);
    }
  }

  /** The positions of [first, last), in visiting order. */
  function Positions<T>(s: Store<T>, first: int, last: int): (ps: seq<int>)
    requires ValidRange(s, first, last)
    ensures |ps| == Distance(s, first, last)
    ensures forall i :: 0 <= i < |ps| ==> Dereferenceable(s, ps[i])
    decreases Distance(s, first, last)
  {
    if first == last then []
    else
      StepRange(s, first, last);
      [first] + Positions(s, Successor(s, first), last)
  }

  /** The elements of [first, last), in visiting order. */
  function Elements<T>(s: Store<T>, first: int, last: int): (xs: seq<T>)
    requires ValidRange(s, first, last)
    ensures |xs| == Distance(s, first, last)
  {
    var ps := Positions(s, first, last);
    seq(|ps|, i requires 0 <= i < |ps| => Source(s, ps[i]))
  }

  lemma ElementsStep<T>(s: Store<T>, p: int, last: int)
    requires ValidRange(s, p, last) && p != last
    ensures Dereferenceable(s, p) && ValidRange(s, Successor(s, p), last)
    ensures Positions(s, p, last) == [p] + Positions(s, Successor(s, p), last)
    ensures Elements(s, p, last) == [Source(s, p)] + Elements(s, Successor(s, p), last)
  {
    StepRange(s, p, last);
  }

  lemma {:induction false} ShapeKeepsPositions<T>(s: Store<T>, t: Store<T>, first: int, last: int)
    requires SameShape(s, t) && ValidRange(s, first, last)
    ensures ValidRange(t, first, last)
    ensures Positions(t, first, last) == Positions(s, first, last)
    decreases Distance(s, first, last)
  {
    ShapeKeepsRange(s, t, first, last);
    if first != last {
      StepRange(s, first, last);
      SameShapeSuccessor(s, t, first);
      ShapeKeepsPositions(s, t, Successor(s, first), last);
    }
  }

  /** Array positions of [first, last) are the consecutive addresses. */
  lemma {:induction false} ArrayPositions<T>(a: seq<T>, first: int, last: int)
    requires ValidRange(Array(a), first, last)
    ensures Positions(Array(a), first, last) == seq(last - first, i => first + i)
    decreases last - first
  {
    if first != last {
      ArrayPositions(a, first + 1, last);
    }
  }

  /** The i-th element of an array range is the array's element at
      first + i. */
  lemma ArrayElementsAt<T>(a: seq<T>, first: int, last: int)
    requires ValidRange(Array(a), first, last)
    ensures Distance(Array(a), first, last) == last - first
    ensures forall i :: 0 <= i < last - first ==> Elements(Array(a), first, last)[i] == a[first + i]
  {
    ArrayPositions(a, first, last);
  }

  /** Reading a whole array range yields the array. */
  lemma ArrayElements<T>(a: seq<T>)
    ensures ValidRange(Array(a), 0, |a|)
    ensures Elements(Array(a), 0, |a|) == a
  {
    ArrayPositions(a, 0, |a|);
  }

  /** Node positions of [first, last) are the walk along the links. */
  lemma {:induction false} NodePositions<T>(nodes: seq<Node<T>>, first: int, last: int)
    requires ValidRange(Nodes(nodes), first, last)
    ensures Positions(Nodes(nodes), first, last) == Walk(nodes, first, last, |nodes|).value
    decreases Distance(Nodes(nodes), first, last)
  {
    if first != last {
      StepRange(Nodes(nodes), first, last);
      WalkMoreFuel(nodes, nodes[first].next, last, |nodes| - 1, |nodes|);
      NodePositions(nodes, nodes[first].next, last);
    }
  }

  /** A range never revisits its first position. */
  lemma FirstNotRevisited<T>(s: Store<T>, p: int, last: int)
    requires ValidRange(s, p, last) && p != last
    ensures Dereferenceable(s, p) && ValidRange(s, Successor(s, p), last)
    ensures p !in Positions(s, Successor(s, p), last)
  {
    StepRange(s, p, last);
    var q := Successor(s, p);
    match s
    case Array(a) =>
      ArrayPositions(a, q, last);
    case Nodes(n) =>
      NodePositions(n, q, last);
      NodePositions(n, p, last);
      var rest := Walk(n, q, last, |n|).value;
      if j :| 0 <= j < |rest| && rest[j] == p {
        WalkSuffix(n, q, last, |n|, j);
        assert false;
      }
  }

  predicate Distinct(ps: seq<int>) {
    forall i, j :: 0 <= i < j < |ps| ==> ps[i] != ps[j]
  }

  /** The positions of a range are pairwise distinct, so writing one never
      disturbs another. */
  lemma {:induction false} PositionsDistinct<T>(s: Store<T>, first: int, last: int)
    requires ValidRange(s, first, last)
    ensures Distinct(Positions(s, first, last))
    decreases Distance(s, first, last)
  {
    if first != last {
      FirstNotRevisited(s, first, last);
      ElementsStep(s, first, last);
      PositionsDistinct(s, Successor(s, first), last);
    }
  }

  /** Following a range k steps further yields the suffix of its positions. */
  lemma {:induction false} PositionsSuffix<T>(s: Store<T>, first: int, last: int, k: nat)
    requires ValidRange(s, first, last) && k < Distance(s, first, last)
    ensures ValidRange(s, Positions(s, first, last)[k], last)
    ensures Positions(s, Positions(s, first, last)[k], last) == Positions(s, first, last)[k..]
    decreases k
  {
    ElementsStep(s, first, last);
    if k > 0 {
      PositionsSuffix(s, Successor(s, first), last, k - 1);
    }
  }

  /** The position k steps after `first` inside [first, last). */
  function Advance<T>(s: Store<T>, first: int, last: int, k: nat): (p: int)
    requires ValidRange(s, first, last) && k <= Distance(s, first, last)
    ensures ValidRange(s, p, last)
    ensures Positions(s, p, last) == Positions(s, first, last)[k..]
  {
    if k == Distance(s, first, last) then
      EmptyRange(s, last, last);
      last
    else
      PositionsSuffix(s, first, last, k);
      Positions(s, first, last)[k]
  }

  /** Advancing k steps from `first` is advancing k - 1 steps from its
      successor. */
  lemma AdvanceStep<T>(s: Store<T>, first: int, last: int, k: nat)
    requires ValidRange(s, first, last) && first != last && 1 <= k <= Distance(s, first, last)
    ensures ValidRange(s, Successor(s, first), last)
    ensures k - 1 <= Distance(s, Successor(s, first), last)
    ensures Advance(s, first, last, k) == Advance(s, Successor(s, first), last, k - 1)
  {
    ElementsStep(s, first, last);
  }

  /** For arrays, advancing k steps is adding k to the address. */
  lemma ArrayAdvance<T>(a: seq<T>, first: int, last: int, k: nat)
    requires ValidRange(Array(a), first, last) && k <= last - first
    ensures Advance(Array(a), first, last, k) == first + k
  {
    ArrayPositions(a, first, last);
  }

  lemma ShapeKeepsAdvance<T>(s: Store<T>, t: Store<T>, first: int, last: int, k: nat)
    requires SameShape(s, t) && ValidRange(s, first, last) && k <= Distance(s, first, last)
    ensures ValidRange(t, first, last) && k <= Distance(t, first, last)
    ensures Advance(t, first, last, k) == Advance(s, first, last, k)
  {
    ShapeKeepsRange(s, t, first, last);
    ShapeKeepsPositions(s, t, first, last);
  }
}

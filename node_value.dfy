/// Values stored in the nodes of the skip list (src/lib.rs:9-62).

module Options {
  datatype Option<T> = None | Some(value: T)
}

module NodeValues {
  import opened Options

  /** Rust's `std::cmp::Ordering`. */
  datatype Ordering = Less | Equal | Greater

  /** The element type. The source is generic over `T: PartialOrd + Clone`;
      the model fixes a totally ordered payload. */
  type Elem = int

  /** A cell's value: the two sentinels that bound every row, or an element. */
  datatype NodeValue = NegInf | Value(v: Elem) | PosInf

  /** One cell of the grid. `right` and `down` are arena indices standing for
      the source's `Option<NonNull<Node<T>>>` links. */
  datatype Node = Node(value: NodeValue, right: Option<nat>, down: Option<nat>)

  /** The intended order of extended elements: NegInf below every element,
      PosInf above every element, elements by payload. A reference definition
      the two comparison impls below are checked against. */
  predicate ExtLess(a: NodeValue, b: NodeValue) {
    (a.NegInf? && !b.NegInf?) || (a.Value? && b.PosInf?) || (a.Value? && b.Value? && a.v < b.v)
  }

  /** `get_value`: only defined on `Value(_)`; the sentinel arms are `unreachable!()`. */
  function GetValue(a: NodeValue): (v: Elem)
    requires a.Value?
    ensures Value(v) == a
  {
    a.v
  }

  /** `impl PartialEq<T> for NodeValue<T>`: a sentinel never equals an element. */
  function EqItem(a: NodeValue, x: Elem): (b: bool)
    ensures b <==> a == Value(x)
  {
    match a
    case Value(v) => v == x
    case _ => false
  }

  /** `partial_cmp` on the payload type (always `Some` for a total order). */
  function CompareElems(l: Elem, r: Elem): (o: Ordering)
    ensures o == Less <==> l < r
    ensures o == Equal <==> l == r
    ensures o == Greater <==> r < l
  {
    if l < r then Less else if l == r then Equal else Greater
  }

  /** The argument pairs on which `PartialOrd<NodeValue<T>>` does not reach
      its `unreachable!()` arm. */
  predicate Comparable(a: NodeValue, b: NodeValue) {
    a.NegInf? || b.PosInf? || (a.Value? && b.Value?)
  }

  /** `impl PartialOrd<NodeValue<T>> for NodeValue<T>`. Whenever the left side is
      NegInf or the right side is PosInf the answer is `Less`, so it agrees with
      ExtLess on every comparable pair except the two sentinel pairs
      (NegInf, NegInf) and (PosInf, PosInf), which it also calls `Less`. */
  function CompareNodes(a: NodeValue, b: NodeValue): (o: Ordering)
    requires Comparable(a, b)
    ensures o == Less <==> ExtLess(a, b) || (a == b && !a.Value?)
    ensures o == Equal <==> a == b && a.Value?
  {
    if a.NegInf? then Less
    else if b.PosInf? then Less
    else CompareElems(a.v, b.v)
  }

  /** `impl PartialOrd<T> for NodeValue<T>`: a total comparison of a cell value
      against an element, consistent with ExtLess and with EqItem. */
  function CompareItem(a: NodeValue, x: Elem): (o: Ordering)
    ensures o == Less <==> ExtLess(a, Value(x))
    ensures o == Equal <==> EqItem(a, x)
    ensures o == Greater <==> ExtLess(Value(x), a)
  {
    match a
    case NegInf => Less
    case PosInf => Greater
    case Value(v) => CompareElems(v, x)
  }

  /** `node_value < item`, the `lt` that `PartialOrd<T>` derives from
      `partial_cmp`. */
  function LessItem(a: NodeValue, x: Elem): (b: bool)
    ensures b <==> ExtLess(a, Value(x))
  {
    CompareItem(a, x) == Less
  }

  /** `node_value >= item`: the complement of `<`, since the comparison
      with an element is total. */
  function AtLeastItem(a: NodeValue, x: Elem): (b: bool)
    ensures b <==> !LessItem(a, x)
    ensures b <==> a == Value(x) || ExtLess(Value(x), a)
  {
    CompareItem(a, x) == Greater || CompareItem(a, x) == Equal
  }

  /** `node_value <= item` */
  function AtMostItem(a: NodeValue, x: Elem): (b: bool)
    ensures b <==> ExtLess(a, Value(x)) || a == Value(x)
    ensures b <==> !ExtLess(Value(x), a)
  {
    CompareItem(a, x) == Less || CompareItem(a, x) == Equal
  }

  /** The two comparison impls agree wherever both apply. */
  lemma CompareConsistent(a: NodeValue, x: Elem)
    requires !a.PosInf?
    ensures Comparable(a, Value(x))
    ensures CompareNodes(a, Value(x)) == CompareItem(a, x)
  {
  }
}

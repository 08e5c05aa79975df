/**
  compare<T, Compare>(x, y): a boolean mask holding the chosen predicate
  functor's verdict on each pair x[i], y[i]. The functor template argument
  is one of the six standard comparison function objects.
 */
module Comparison {

  /** std::equal_to, std::not_equal_to, std::less, std::less_equal, std::greater, std::greater_equal */
  datatype ComparisonKind = EqualTo | NotEqualTo | Less | LessEqual | Greater | GreaterEqual

  /**
    Compare<T>()(a, b) for each of the six functors. On integers every one
    of them is decided by the strict order alone, which the contract states.
   */
  predicate Holds(kind: ComparisonKind, a: int, b: int): (r: bool)
    ensures kind == EqualTo ==> (r <==> !(a < b) && !(b < a))
    ensures kind == NotEqualTo ==> (r <==> a < b || b < a)
    ensures kind == Less ==> (r <==> a < b)
    ensures kind == LessEqual ==> (r <==> !(b < a))
    ensures kind == Greater ==> (r <==> b < a)
    ensures kind == GreaterEqual ==> (r <==> !(a < b))
  {
    match kind
    case EqualTo => a == b
    case NotEqualTo => a != b
    case Less => a < b
    case LessEqual => a <= b
    case Greater => a > b
    case GreaterEqual => a >= b
  }

  /** The kind whose verdict is always the opposite one. */
  function Negation(kind: ComparisonKind): (k: ComparisonKind) {
    match kind
    case EqualTo => NotEqualTo
    case NotEqualTo => EqualTo
    case Less => GreaterEqual
    case LessEqual => Greater
    case Greater => LessEqual
    case GreaterEqual => Less
  }

  /** The kind that gives the same verdict with its operands swapped. */
  function Converse(kind: ComparisonKind): (k: ComparisonKind) {
    match kind
    case EqualTo => EqualTo
    case NotEqualTo => NotEqualTo
    case Less => Greater
    case LessEqual => GreaterEqual
    case Greater => Less
    case GreaterEqual => LessEqual
  }

  /**
    A mask of x's size filled by std::transform over x's range, reading y at
    the same index; y must have at least as many elements as x.
   */
  function Compare(kind: ComparisonKind, x: seq<int>, y: seq<int>): (z: seq<bool>)
    requires |y| >= |x|
    ensures |z| == |x|
    ensures forall i :: 0 <= i < |x| ==> (z[i] <==> Holds(kind, x[i], y[i]))
  {
    if |x| == 0 then []
    else [Holds(kind, x[0], y[0])] + Compare(kind, x[1..], y[1..])
  }

  /** Elementwise logical negation of a mask. */
  function Not(s: seq<bool>): (z: seq<bool>)
    ensures |z| == |s|
    ensures forall i :: 0 <= i < |s| ==> z[i] == !s[i]
  {
    seq(|s|, i requires 0 <= i < |s| => !s[i])
  }

  /** Comparing a tensor with itself for equality gives an all-true mask. */
  lemma EqualToIsReflexive(x: seq<int>)
    ensures Compare(EqualTo, x, x) == seq(|x|, i => true)
    ensures Compare(NotEqualTo, x, x) == seq(|x|, i => false)
  {
  }

  /**
    Each kind's mask is the exact complement of its negation's mask; in
    particular `less` and `greater_equal` are elementwise complements.
   */
  lemma NegationComplements(kind: ComparisonKind, x: seq<int>, y: seq<int>)
    requires |y| >= |x|
    ensures Compare(Negation(kind), x, y) == Not(Compare(kind, x, y))
    ensures Negation(Negation(kind)) == kind
  {
    var a, b := Compare(Negation(kind), x, y), Not(Compare(kind, x, y));
    assert forall i :: 0 <= i < |x| ==> a[i] == b[i];
  }

  /** Swapping equal-length operands is the same as comparing with the converse kind. */
  lemma ConverseSwapsOperands(kind: ComparisonKind, x: seq<int>, y: seq<int>)
    requires |x| == |y|
    ensures Compare(Converse(kind), y, x) == Compare(kind, x, y)
  {
    var a, b := Compare(Converse(kind), y, x), Compare(kind, x, y);
    forall i | 0 <= i < |x|
      ensures a[i] == b[i]
    {
      ConverseHolds(kind, x[i], y[i]);
    }
  }

  lemma ConverseHolds(kind: ComparisonKind, a: int, b: int)
    ensures Holds(Converse(kind), b, a) == Holds(kind, a, b)
  {
  }

  /** The mask does not depend on elements of y past the end of x. */
  lemma ExtraRightOperandIgnored(kind: ComparisonKind, x: seq<int>, y: seq<int>)
    requires |y| >= |x|
    ensures Compare(kind, x, y) == Compare(kind, x, y[..|x|])
  {
    var a, b := Compare(kind, x, y), Compare(kind, x, y[..|x|]);
    assert forall i :: 0 <= i < |x| ==> a[i] == b[i];
  }
}

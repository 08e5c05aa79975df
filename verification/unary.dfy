/**
  Unary elementwise ops on flattened integer tensors: abs on vector<T> and
  convert from vector<T2> to vector<T1>. Both keep the length of their
  operand and apply the scalar rule at each index.
 */
module Unary {
  import Scalar

  /** The scalar rule a unary sequence op applies. */
  datatype UnaryOp = Magnitude | ConvertTo(target: Scalar.IntType)

  /** The scalar rule of each unary op: it dispatches to Scalar.Abs or Scalar.Wrap. */
  function Apply(op: UnaryOp, a: int): (r: int) {
    match op
    case Magnitude => Scalar.Abs(a)
    case ConvertTo(t) => Scalar.Wrap(t, a)
  }

  /** The loop `for i < z.size(): z[i] = rule(x[i])` over a vector of x's size. */
  function MapElements(op: UnaryOp, x: seq<int>): (z: seq<int>)
    ensures |z| == |x|
    ensures forall i :: 0 <= i < |x| ==> z[i] == Apply(op, x[i])
  {
    if |x| == 0 then []
    else [Apply(op, x[0])] + MapElements(op, x[1..])
  }

  function Abs(x: seq<int>): (z: seq<int>)
    ensures |z| == |x|
    ensures forall i :: 0 <= i < |x| ==> z[i] >= 0 && (z[i] == x[i] || z[i] == -x[i])
  {
    MapElements(Magnitude, x)
  }

  /** convert<T1>(x): every element cast to the target integral type. */
  function Convert(t: Scalar.IntType, x: seq<int>): (z: seq<int>)
    ensures |z| == |x|
    ensures forall i :: 0 <= i < |x| ==> Scalar.InRange(t, z[i])
    ensures forall i :: 0 <= i < |x| ==> (x[i] - z[i]) % t.Modulus() == 0
  {
    MapElements(ConvertTo(t), x)
  }

  /** Each converted element is the scalar cast of the original element. */
  lemma ConvertIsWrap(t: Scalar.IntType, x: seq<int>)
    ensures forall i :: 0 <= i < |x| ==> Convert(t, x)[i] == Scalar.Wrap(t, x[i])
  {
  }

  /** abs leaves nonnegative tensors alone, so applying it twice changes nothing more. */
  lemma AbsFixesNonNegative(x: seq<int>)
    ensures (forall i :: 0 <= i < |x| ==> x[i] >= 0) ==> Abs(x) == x
    ensures Abs(Abs(x)) == Abs(x)
  {
    var a := Abs(x);
    if forall i :: 0 <= i < |x| ==> x[i] >= 0 {
      assert forall i :: 0 <= i < |x| ==> a[i] == x[i];
    }
    assert forall i :: 0 <= i < |x| ==> Abs(a)[i] == a[i];
  }

  /** abs does not see the sign of its operand. */
  lemma AbsIgnoresSign(x: seq<int>, y: seq<int>)
    requires |x| == |y|
    requires forall i :: 0 <= i < |x| ==> y[i] == -x[i]
    ensures Abs(y) == Abs(x)
  {
    assert forall i :: 0 <= i < |x| ==> Abs(y)[i] == Abs(x)[i];
  }

  /** Converting a tensor whose values all fit the target type changes nothing. */
  lemma ConvertFixesInRange(t: Scalar.IntType, x: seq<int>)
    requires forall i :: 0 <= i < |x| ==> Scalar.InRange(t, x[i])
    ensures Convert(t, x) == x
  {
    var z := Convert(t, x);
    forall i | 0 <= i < |x|
      ensures z[i] == x[i]
    {
      Scalar.WrapIsUnique(t, x[i], z[i]);
    }
  }

  /** Converting twice to the same type is converting once. */
  lemma ConvertIdempotent(t: Scalar.IntType, x: seq<int>)
    ensures Convert(t, Convert(t, x)) == Convert(t, x)
  {
    ConvertFixesInRange(t, Convert(t, x));
  }

  /** Widening a tensor and narrowing it back returns the original tensor. */
  lemma WideningRoundTrip(narrow: Scalar.IntType, wide: Scalar.IntType, x: seq<int>)
    requires Scalar.Widens(narrow, wide)
    requires forall i :: 0 <= i < |x| ==> Scalar.InRange(narrow, x[i])
    ensures Convert(narrow, Convert(wide, x)) == x
  {
    ConvertFixesInRange(wide, x);
    ConvertFixesInRange(narrow, x);
  }
}

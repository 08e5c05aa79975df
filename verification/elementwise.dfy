/**
  Binary elementwise ops on flattened integer tensors: add, sub, mul, div,
  max and min. Each sequence form copies `x` and then runs std::transform
  over x's range, reading `y` at the same index; `y` is never length-checked,
  so it must be at least as long as `x`, and any extra elements of `y` are
  ignored. The result always has the length of `x`.
 */
module Elementwise {
  import Scalar
  import Unary

  /** The functor handed to std::transform. */
  datatype BinaryOp = Plus | Minus | Multiplies | Divides | Maximum | Minimum

  /**
    The scalar overloads add, sub, mul, div, max and min, before the result
    is narrowed into the element type: the sum and the difference are undone
    by the opposite op, mul gives the product, which is zero exactly when a
    factor is, the quotient leaves a remainder of the dividend's sign smaller
    than |b|, and max and min pick the larger and the smaller operand.
   */
  function Apply(op: BinaryOp, a: int, b: int): (r: int)
    requires op == Divides ==> b != 0
    ensures op == Plus ==> r - b == a
    ensures op == Minus ==> r + b == a
    ensures op == Multiplies ==> r == a * b
    ensures op == Multiplies ==> (r == 0 <==> a == 0 || b == 0)
    ensures op == Divides && a >= 0 ==> 0 <= a - r * b < Scalar.Abs(b)
    ensures op == Divides && a < 0 ==> -Scalar.Abs(b) < a - r * b <= 0
    ensures op == Maximum ==> (r == a || r == b) && r >= a && r >= b
    ensures op == Minimum ==> (r == a || r == b) && r <= a && r <= b
  {
    match op
    case Plus => a + b
    case Minus => a - b
    case Multiplies => Scalar.ProductIsZero(a, b); a * b
    case Divides => Scalar.TruncDiv(a, b)
    case Maximum => Scalar.Max(a, b)
    case Minimum => Scalar.Min(a, b)
  }

  /** What std::transform needs of `y`: one readable element per index of `x`. */
  predicate Transformable(op: BinaryOp, x: seq<int>, y: seq<int>) {
    |y| >= |x| &&
    (op == Divides ==> forall i :: 0 <= i < |x| ==> y[i] != 0)
  }

  /**
    The transform loop of every binary sequence op: a copy of x whose
    element at each index of x, in index order, is overwritten by the scalar
    rule applied to x and y at that index.
   */
  function Transform(op: BinaryOp, x: seq<int>, y: seq<int>): (z: seq<int>)
    requires Transformable(op, x, y)
    ensures |z| == |x|
    ensures forall i :: 0 <= i < |x| ==> z[i] == Apply(op, x[i], y[i])
  {
    if |x| == 0 then []
    else [Apply(op, x[0], y[0])] + Transform(op, x[1..], y[1..])
  }

  function Add(x: seq<int>, y: seq<int>): (z: seq<int>)
    requires |y| >= |x|
    ensures |z| == |x|
    ensures forall i :: 0 <= i < |x| ==> z[i] == x[i] + y[i]
  {
    Transform(Plus, x, y)
  }

  function Sub(x: seq<int>, y: seq<int>): (z: seq<int>)
    requires |y| >= |x|
    ensures |z| == |x|
    ensures forall i :: 0 <= i < |x| ==> z[i] == x[i] - y[i]
  {
    Transform(Minus, x, y)
  }

  function Mul(x: seq<int>, y: seq<int>): (z: seq<int>)
    requires |y| >= |x|
    ensures |z| == |x|
    ensures forall i :: 0 <= i < |x| ==> z[i] == x[i] * y[i]
  {
    Transform(Multiplies, x, y)
  }

  /** Integer division; a zero divisor is undefined behaviour in the source. */
  function Div(x: seq<int>, y: seq<int>): (z: seq<int>)
    requires |y| >= |x|
    requires forall i :: 0 <= i < |x| ==> y[i] != 0
    ensures |z| == |x|
    ensures forall i :: 0 <= i < |x| ==> z[i] == Scalar.TruncDiv(x[i], y[i])
  {
    Transform(Divides, x, y)
  }

  function Max(x: seq<int>, y: seq<int>): (z: seq<int>)
    requires |y| >= |x|
    ensures |z| == |x|
    ensures forall i :: 0 <= i < |x| ==> z[i] == x[i] || z[i] == y[i]
    ensures forall i :: 0 <= i < |x| ==> z[i] >= x[i] && z[i] >= y[i]
  {
    Transform(Maximum, x, y)
  }

  function Min(x: seq<int>, y: seq<int>): (z: seq<int>)
    requires |y| >= |x|
    ensures |z| == |x|
    ensures forall i :: 0 <= i < |x| ==> z[i] == x[i] || z[i] == y[i]
    ensures forall i :: 0 <= i < |x| ==> z[i] <= x[i] && z[i] <= y[i]
  {
    Transform(Minimum, x, y)
  }

  /** Elements of `y` past the end of `x` play no part in any binary op. */
  lemma ExtraRightOperandIgnored(op: BinaryOp, x: seq<int>, y: seq<int>)
    requires Transformable(op, x, y)
    ensures Transformable(op, x, y[..|x|])
    ensures Transform(op, x, y) == Transform(op, x, y[..|x|])
  {
    var z, z' := Transform(op, x, y), Transform(op, x, y[..|x|]);
    assert forall i :: 0 <= i < |x| ==> z[i] == z'[i];
  }

  /** Subtracting `y` undoes adding it. */
  lemma SubUndoesAdd(x: seq<int>, y: seq<int>)
    requires |y| >= |x|
    ensures Sub(Add(x, y), y) == x
  {
    var z := Sub(Add(x, y), y);
    assert forall i :: 0 <= i < |x| ==> z[i] == x[i];
  }

  /** Adding `y` undoes subtracting it. */
  lemma AddUndoesSub(x: seq<int>, y: seq<int>)
    requires |y| >= |x|
    ensures Add(Sub(x, y), y) == x
  {
    var z := Add(Sub(x, y), y);
    assert forall i :: 0 <= i < |x| ==> z[i] == x[i];
  }

  /** Dividing by a nonzero `y` undoes multiplying by it. */
  lemma DivUndoesMul(x: seq<int>, y: seq<int>)
    requires |y| >= |x|
    requires forall i :: 0 <= i < |x| ==> y[i] != 0
    ensures Div(Mul(x, y), y) == x
  {
    var p := Mul(x, y);
    var z := Div(p, y);
    forall i | 0 <= i < |x|
      ensures z[i] == x[i]
    {
      Scalar.TruncDivOfProduct(x[i], y[i]);
    }
  }

  /** On operands of equal length, add, mul, max and min do not care about order. */
  lemma CommutativeOps(x: seq<int>, y: seq<int>)
    requires |x| == |y|
    ensures Add(x, y) == Add(y, x)
    ensures Mul(x, y) == Mul(y, x)
    ensures Max(x, y) == Max(y, x)
    ensures Min(x, y) == Min(y, x)
  {
    assert forall i :: 0 <= i < |x| ==> Add(x, y)[i] == Add(y, x)[i];
    assert forall i :: 0 <= i < |x| ==> Mul(x, y)[i] == Mul(y, x)[i];
    assert forall i :: 0 <= i < |x| ==> Max(x, y)[i] == Max(y, x)[i];
    assert forall i :: 0 <= i < |x| ==> Min(x, y)[i] == Min(y, x)[i];
  }

  /** min and max split each pair between them: their sum is the sum of the operands. */
  lemma MinPlusMaxIsAdd(x: seq<int>, y: seq<int>)
    requires |y| >= |x|
    ensures Add(Min(x, y), Max(x, y)) == Add(x, y)
  {
    var lo, hi := Min(x, y), Max(x, y);
    assert forall i :: 0 <= i < |x| ==> Add(lo, hi)[i] == Add(x, y)[i];
  }

  /** Storing a sum into t wraps each elementwise sum. */
  lemma StoredSum(t: Scalar.IntType, x: seq<int>, y: seq<int>)
    requires |y| >= |x|
    ensures forall i :: 0 <= i < |x| ==> Unary.Convert(t, Add(x, y))[i] == Scalar.Wrap(t, x[i] + y[i])
  {
    Unary.ConvertIsWrap(t, Add(x, y));
  }

  /** Storing a difference into t wraps each elementwise difference. */
  lemma StoredDifference(t: Scalar.IntType, x: seq<int>, y: seq<int>)
    requires |y| >= |x|
    ensures forall i :: 0 <= i < |x| ==> Unary.Convert(t, Sub(x, y))[i] == Scalar.Wrap(t, x[i] - y[i])
  {
    Unary.ConvertIsWrap(t, Sub(x, y));
  }

  /**
    The inverse law survives narrowing into an element type: for a tensor x
    of values of t, storing x + y into t, subtracting y and storing again
    gives back x, whatever wrapped on the way.
   */
  lemma WrappedSubUndoesAdd(t: Scalar.IntType, x: seq<int>, y: seq<int>)
    requires |y| >= |x|
    requires forall i :: 0 <= i < |x| ==> Scalar.InRange(t, x[i])
    ensures Unary.Convert(t, Sub(Unary.Convert(t, Add(x, y)), y)) == x
  {
    var z := Unary.Convert(t, Sub(Unary.Convert(t, Add(x, y)), y));
    forall i | 0 <= i < |x|
      ensures z[i] == x[i]
    {
      WrappedSubUndoesAddAt(t, x, y, i);
    }
  }

  lemma WrappedSubUndoesAddAt(t: Scalar.IntType, x: seq<int>, y: seq<int>, i: int)
    requires |y| >= |x| && 0 <= i < |x|
    requires Scalar.InRange(t, x[i])
    ensures Unary.Convert(t, Sub(Unary.Convert(t, Add(x, y)), y))[i] == x[i]
  {
    var sum := Add(x, y);
    var s := Unary.Convert(t, sum);
    var diff := Sub(s, y);
    var z := Unary.Convert(t, diff);
    Scalar.StoredOffsetCancels(t, x[i], y[i], sum[i], s[i], diff[i], z[i]);
  }

  /** The same with the roles of add and sub exchanged. */
  lemma WrappedAddUndoesSub(t: Scalar.IntType, x: seq<int>, y: seq<int>)
    requires |y| >= |x|
    requires forall i :: 0 <= i < |x| ==> Scalar.InRange(t, x[i])
    ensures Unary.Convert(t, Add(Unary.Convert(t, Sub(x, y)), y)) == x
  {
    var z := Unary.Convert(t, Add(Unary.Convert(t, Sub(x, y)), y));
    forall i | 0 <= i < |x|
      ensures z[i] == x[i]
    {
      WrappedAddUndoesSubAt(t, x, y, i);
    }
  }

  lemma WrappedAddUndoesSubAt(t: Scalar.IntType, x: seq<int>, y: seq<int>, i: int)
    requires |y| >= |x| && 0 <= i < |x|
    requires Scalar.InRange(t, x[i])
    ensures Unary.Convert(t, Add(Unary.Convert(t, Sub(x, y)), y))[i] == x[i]
  {
    var diff := Sub(x, y);
    var d := Unary.Convert(t, diff);
    var sum := Add(d, y);
    var z := Unary.Convert(t, sum);
    Scalar.StoredNegativeOffsetCancels(t, x[i], y[i], diff[i], d[i], sum[i], z[i]);
  }
}

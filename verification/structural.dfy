/**
  Structural ops on flattened tensors. Shapes are not tracked, so
  broadcast_in_dim is flat repetition, concatenate joins along the one
  implicit axis and reshape is a copy; select picks per index by a mask.
 */
module Structural {
  import Scalar
  import Elementwise
  import Comparison

  /**
    broadcast_in_dim(x, n): starting from an empty vector, appends all of x
    once per iteration, n times; element k is x[k mod |x|].
   */
  function BroadcastInDim<T>(x: seq<T>, n: nat): (z: seq<T>)
    ensures |z| == n * |x|
    ensures forall k :: 0 <= k < |z| ==> z[k] == x[k % |x|]
  {
    if n == 0 then []
    else
      var prev := BroadcastInDim(x, n - 1);
      var z := prev + x;
      assert |z| == n * |x| by {
        assert n * |x| == (n - 1) * |x| + |x|;
      }
      forall k | |prev| <= k < |z|
        ensures z[k] == x[k % |x|]
      {
        RemainderInLastBlock(k, n - 1, |x|);
      }
      z
  }

  /** An index in block q of width m sits q*m past the block start. */
  lemma RemainderInLastBlock(k: int, q: nat, m: nat)
    requires q * m <= k < q * m + m
    ensures k % m == k - q * m
  {
    var r := k - q * m;
    assert 0 <= r < m;
    assert k == q * m + r;
    RemainderIsUnique(k, m, q, r);
  }

  lemma RemainderIsUnique(k: int, m: nat, q: int, r: int)
    requires 0 <= r < m
    requires k == q * m + r
    ensures k % m == r
  {
    var q', r' := k / m, k % m;
    assert k == q' * m + r';
    assert (q - q') * m == r' - r;
    Scalar.MultipleIsFarFromZero(q - q', m);
  }

  /** Repeating n + m times is repeating n times followed by repeating m times. */
  lemma {:induction false} BroadcastSplits<T>(x: seq<T>, n: nat, m: nat)
    ensures BroadcastInDim(x, n + m) == Concatenate(BroadcastInDim(x, n), BroadcastInDim(x, m))
  {
    if m > 0 {
      BroadcastSplits(x, n, m - 1);
      assert BroadcastInDim(x, n + m) == BroadcastInDim(x, n + m - 1) + x;
      assert BroadcastInDim(x, m) == BroadcastInDim(x, m - 1) + x;
    } else {
      assert BroadcastInDim(x, m) == [];
    }
  }

  /** Three copies of [1, 2] laid end to end. */
  lemma BroadcastExample()
    ensures BroadcastInDim([1, 2], 3) == [1, 2, 1, 2, 1, 2]
  {
    assert BroadcastInDim([1, 2], 1) == [1, 2];
    assert BroadcastInDim([1, 2], 2) == [1, 2, 1, 2];
  }

  /** concatenate(x, y): x followed by y. */
  function Concatenate<T>(x: seq<T>, y: seq<T>): (z: seq<T>)
    ensures |z| == |x| + |y|
    ensures z[..|x|] == x
    ensures z[|x|..] == y
  {
    x + y
  }

  /** Chained concatenations group either way. */
  lemma ConcatenateAssociative<T>(x: seq<T>, y: seq<T>, w: seq<T>)
    ensures Concatenate(Concatenate(x, y), w) == Concatenate(x, Concatenate(y, w))
  {
  }

  /** Swapping the operands can change the result. */
  lemma ConcatenateNotCommutative()
    ensures Concatenate([3, 4], [1, 2]) != Concatenate([1, 2], [3, 4])
  {
    assert Concatenate([3, 4], [1, 2])[0] == 3;
  }

  /** reshape(x): a copy of x, element for element. */
  function Reshape<T>(x: seq<T>): (z: seq<T>)
    ensures |z| == |x|
    ensures forall i :: 0 <= i < |x| ==> z[i] == x[i]
  {
    x
  }

  /**
    select(s, x, y): a vector of x's size with x[i] where s[i] holds and
    y[i] elsewhere; s and y are read at every index of x.
   */
  function Select<T>(s: seq<bool>, x: seq<T>, y: seq<T>): (z: seq<T>)
    requires |s| >= |x| && |y| >= |x|
    ensures |z| == |x|
    ensures forall i :: 0 <= i < |x| ==> z[i] == (if s[i] then x[i] else y[i])
  {
    if |x| == 0 then []
    else [if s[0] then x[0] else y[0]] + Select(s[1..], x[1..], y[1..])
  }

  /** Mask [true, false, true] takes the ends from x and the middle from y. */
  lemma SelectExample()
    ensures Select([true, false, true], [1, 2, 3], [10, 20, 30]) == [1, 20, 3]
  {
  }

  /** An all-true mask picks x; an all-false mask picks y, cut to x's size. */
  lemma SelectConstantMask<T>(s: seq<bool>, x: seq<T>, y: seq<T>)
    requires |s| >= |x| && |y| >= |x|
    ensures (forall i :: 0 <= i < |x| ==> s[i]) ==> Select(s, x, y) == x
    ensures (forall i :: 0 <= i < |x| ==> !s[i]) ==> Select(s, x, y) == y[..|x|]
  {
  }

  /** Negating the mask swaps the roles of equal-length x and y. */
  lemma SelectNegatedMask<T>(s: seq<bool>, x: seq<T>, y: seq<T>)
    requires |s| >= |x| && |y| == |x|
    ensures Select(Comparison.Not(s), y, x) == Select(s, x, y)
  {
    var ns := Comparison.Not(s);
    var a, b := Select(ns, y, x), Select(s, x, y);
    forall i | 0 <= i < |x|
      ensures a[i] == b[i]
    {
      assert ns[i] == !s[i];
    }
  }

  /** select(compare(x, y, greater), x, y) is max(x, y); with less it is min(x, y). */
  lemma SelectByComparisonIsMaxMin(x: seq<int>, y: seq<int>)
    requires |y| >= |x|
    ensures Select(Comparison.Compare(Comparison.Greater, x, y), x, y) == Elementwise.Max(x, y)
    ensures Select(Comparison.Compare(Comparison.Less, x, y), x, y) == Elementwise.Min(x, y)
  {
    var gt, lt := Comparison.Compare(Comparison.Greater, x, y), Comparison.Compare(Comparison.Less, x, y);
    var hi, lo := Select(gt, x, y), Select(lt, x, y);
    assert forall i :: 0 <= i < |x| ==> hi[i] == Elementwise.Max(x, y)[i];
    assert forall i :: 0 <= i < |x| ==> lo[i] == Elementwise.Min(x, y)[i];
  }
}

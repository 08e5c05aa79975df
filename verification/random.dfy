/**
  Random ops on integral element types. The source seeds a fresh Mersenne
  Twister from std::random_device on every call; here each sample is an
  unconstrained choice within the distribution's bounds, so the contracts
  state exactly the count and range guarantees and nothing about the
  statistics.
 */
module Random {
  import Scalar

  /** One word of the generator state, a uint64_t. */
  type Word64 = w: int | 0 <= w < 0x1_0000_0000_0000_0000

  /** The number of elements of a tensor with dimensions `shape`, folded from the left. */
  function Product(shape: seq<int>): (n: int) {
    if |shape| == 0 then 1
    else Product(shape[..|shape| - 1]) * shape[|shape| - 1]
  }

  lemma {:induction false} ProductOfDimensions(shape: seq<int>)
    requires forall i :: 0 <= i < |shape| ==> shape[i] >= 0
    ensures Product(shape) >= 0
    ensures Product(shape) == 0 <==> exists i :: 0 <= i < |shape| && shape[i] == 0
  {
    if |shape| > 0 {
      var init, last := shape[..|shape| - 1], shape[|shape| - 1];
      ProductOfDimensions(init);
      assert forall i :: 0 <= i < |init| ==> init[i] == shape[i];
      if Product(shape) == 0 {
        if last != 0 {
          var i :| 0 <= i < |init| && init[i] == 0;
          assert shape[i] == 0;
        }
      }
    }
  }

  /**
    The sample count as the code computes it: a left fold of the dimensions
    by 64-bit multiplication that starts from the `int` 1, so the running
    product is stored back into a 32-bit int after every step.
   */
  function AccumulatedCount(shape: seq<int>): (n: int)
    ensures Scalar.InRange(Scalar.Int32, n)
  {
    if |shape| == 0 then 1
    else Scalar.Wrap(Scalar.Int32, AccumulatedCount(shape[..|shape| - 1]) * shape[|shape| - 1])
  }

  /** The count as written is the true element count wrapped to 32 bits. */
  lemma {:induction false} AccumulatedCountIsWrappedProduct(shape: seq<int>)
    ensures AccumulatedCount(shape) == Scalar.Wrap(Scalar.Int32, Product(shape))
  {
    if |shape| > 0 {
      var init, last := shape[..|shape| - 1], shape[|shape| - 1];
      AccumulatedCountIsWrappedProduct(init);
      Scalar.WrapOfProduct(Scalar.Int32, Product(init), last);
    }
  }

  /** A 65536 x 65536 shape has 2^32 elements, but the count as written is 0. */
  lemma AccumulatedCountOverflows()
    ensures Product([65536, 65536]) == 0x1_0000_0000
    ensures AccumulatedCount([65536, 65536]) == 0
  {
    var shape := [65536, 65536];
    assert shape[..1] == [65536];
    assert [65536][..0] == [];
    AccumulatedCountIsWrappedProduct(shape);
  }

  /**
    rng_bit_generator passes its count N as the one-dimension shape [N], so
    as written it draws N samples only below 2^31; above that the count is
    N wrapped to 32 bits, which is 0 for N = 2^32 and negative (an invalid
    vector size) for N = 2^31.
   */
  lemma BitGeneratorCountAsWritten(n: int)
    ensures AccumulatedCount([n]) == Scalar.Wrap(Scalar.Int32, n)
    ensures 0 <= n < 0x8000_0000 ==> AccumulatedCount([n]) == n
    ensures AccumulatedCount([0x1_0000_0000]) == 0
    ensures AccumulatedCount([0x8000_0000]) == -0x8000_0000
  {
    assert [n][..0] == [];
    assert [0x1_0000_0000][..0] == [];
    assert [0x8000_0000][..0] == [];
    Scalar.WrapIsUnique(Scalar.Int32, 0x1_0000_0000, 0);
    Scalar.WrapIsUnique(Scalar.Int32, 0x8000_0000, -0x8000_0000);
  }

  /**
    Integral rng_uniform(low, high, shape): Product(shape) samples from
    std::uniform_int_distribution(low, high - 1), which is closed on both
    ends, so every sample lies in the half-open [low, high).
   */
  method RngUniform(t: Scalar.IntType, low: int, high: int, shape: seq<int>) returns (r: seq<int>)
    requires Scalar.InRange(t, low) && Scalar.InRange(t, high)
    requires low <= high - 1
    requires forall i :: 0 <= i < |shape| ==> shape[i] >= 0
    ensures |r| == Product(shape)
    ensures forall i :: 0 <= i < |r| ==> low <= r[i] < high
    ensures forall i :: 0 <= i < |r| ==> Scalar.InRange(t, r[i])
  {
    var n := Product(shape);
    ProductOfDimensions(shape);
    r := seq(n, _ => 0);
    var i := 0;
    while i < n
      invariant 0 <= i <= n
      invariant |r| == n
      invariant forall j :: 0 <= j < i ==> low <= r[j] <= high - 1
    {
      var v :| low <= v <= high - 1;
      r := r[i := v];
      i := i + 1;
    }
  }

  /**
    The placeholder rng_bit_generator<T, Algorithm, N>(state): ignores the
    algorithm, returns the state unchanged and N samples of rng_uniform over
    [min, max) of T, so the largest value of T never occurs.
   */
  method RngBitGenerator(t: Scalar.IntType, algorithm: int, n: int, state: seq<Word64>)
    returns (newState: seq<Word64>, values: seq<int>)
    requires n >= 0
    ensures newState == state
    ensures |values| == n
    ensures forall i :: 0 <= i < n ==> t.MinValue() <= values[i] < t.MaxValue()
  {
    newState := state;
    Scalar.RangeIsOneModulusWide(t);
    assert [n][..0] == [];
    values := RngUniform(t, t.MinValue(), t.MaxValue(), [n]);
  }
}

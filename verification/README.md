# MHLO runtime catalog, integer core, in Dafny

This project models the integer part of the EmitC MHLO runtime header
`lib/Target/Cpp/emitc_mhlo.h`. The header is a catalog of small templates
that generated code calls, one per MHLO op. Tensors are flattened into a
`std::vector<T>`; the header does not track shapes.

A `std::vector<T>` of an integral `T` is modelled as `seq<int>`, and a
`std::vector<bool>` as `seq<bool>`. The structural ops are generic over the
element type. Values are mathematical integers. An element type
(`Scalar.IntType`, int8 through uint64) matters only where the catalog
converts into it or samples its full range.

Modules:

- `Scalar` (scalar.dfy): the element types and their limits. It also holds
  `static_cast` between integral types as wrap-around (`Wrap`), division
  truncated toward zero (`TruncDiv`), and `std::abs`, `std::max` and
  `std::min`.
- `Elementwise` (elementwise.dfy): `add`, `sub`, `mul`, `div`, `max` and `min`
  on sequences. They share one model of the `std::transform` loop
  (`Transform`) over a `BinaryOp` functor.
- `Unary` (unary.dfy): `abs` and `convert` on sequences.
- `Comparison` (comparison.dfy): `compare` with the six standard comparison
  functors as a `ComparisonKind` enum.
- `Structural` (structural.dfy): `broadcast_in_dim`, `concatenate`,
  `reshape` and `select`.
- `Random` (random.dfy): the integral `rng_uniform` and the placeholder
  `rng_bit_generator`. Both are methods that pick each sample with `:|`
  inside the distribution's bounds.

The source never checks its operands. `std::transform` and the `select` loop
read `y` (and the mask `s`) at every index of `x`, so the model requires
`|y| >= |x|` (and `|s| >= |x|`). An integer `div` by zero is undefined
behaviour, so `Div` requires nonzero divisors. The code has no error path for
these cases, so the model states them as preconditions. Elements of `y` past
the end of `x` are ignored, and every result has the length of `x`.

Arithmetic results are unbounded integers. The scalar overloads return `T`
(`T1` for `abs`), and a `std::vector<T>` stores `T`, so the value the code
actually returns is that result narrowed into `T`. For a scalar that is
`Scalar.Wrap`, and for a vector it is `Unary.Convert`; the "## Left out" lines below say where this
narrowing is defined and where the source has undefined behaviour instead.

## Model

| member | source | states |
|---|---|---|
| Scalar.Wrap | lib/Target/Cpp/emitc_mhlo.h:82-85 | The integral cast lands in the target type's range. It is congruent to its input modulo 2^bits. It leaves values already in range unchanged. |
| Scalar.WrapIsUnique | lib/Target/Cpp/emitc_mhlo.h:82-85 | Any in-range value congruent to the input is the cast's result, so the three facts above fully determine the cast. |
| Scalar.Abs | lib/Target/Cpp/emitc_mhlo.h:33-36 | The scalar abs is nonnegative and equals either the operand or its negation. |
| Scalar.TruncDiv | lib/Target/Cpp/emitc_mhlo.h:169-172 | Integer division truncates toward zero. The remainder has the dividend's sign and is smaller in magnitude than the divisor. |
| Scalar.TruncDivIsUnique | lib/Target/Cpp/emitc_mhlo.h:169-172 | Any quotient whose remainder has the dividend's sign and is smaller than the divisor is the truncated quotient, so the remainder conditions fully determine division. |
| Scalar.TruncDivOfProduct | lib/Target/Cpp/emitc_mhlo.h:169-172 | Dividing an exact product a*b by b gives a. |
| Scalar.TruncDivOfNegation | lib/Target/Cpp/emitc_mhlo.h:169-172 | Negating the dividend or the divisor negates the quotient. Euclidean division does not have this property. |
| Scalar.WrapOfSum | lib/Target/Cpp/emitc_mhlo.h:82-85 | Narrowing an intermediate value before adding gives the same narrowed sum as narrowing once at the end. |
| Scalar.WrappedSumThenDifference | lib/Target/Cpp/emitc_mhlo.h:156-159 | For a value a of T, narrowing a + b into T, subtracting b and narrowing again gives a. |
| Scalar.WrappedDifferenceThenSum | lib/Target/Cpp/emitc_mhlo.h:243-246 | For a value a of T, narrowing a - b into T, adding b and narrowing again gives a. |
| Scalar.Max | lib/Target/Cpp/emitc_mhlo.h:182-185 | The scalar max is one of its operands and is at least both. |
| Scalar.Min | lib/Target/Cpp/emitc_mhlo.h:196-199 | The scalar min is one of its operands and is at most both. |
| Elementwise.Apply | lib/Target/Cpp/emitc_mhlo.h:156-246 | The scalar add, sub, mul, div, max and min before narrowing. Subtracting b undoes add and adding b undoes sub. mul gives the product a*b, which is zero exactly when a factor is. The quotient leaves a remainder of the dividend's sign smaller than the divisor. max and min return the larger and the smaller operand. |
| Elementwise.Transform | lib/Target/Cpp/emitc_mhlo.h:161-166 | A copy of x overwritten by std::transform has x's length. Index i holds the scalar overload applied to x[i] and y[i]. |
| Elementwise.Add | lib/Target/Cpp/emitc_mhlo.h:161-166 | The result has length len(x) and holds x[i] + y[i] at each index, given len(y) >= len(x). |
| Elementwise.Sub | lib/Target/Cpp/emitc_mhlo.h:248-253 | The result has length len(x) and holds x[i] - y[i] at each index. |
| Elementwise.Mul | lib/Target/Cpp/emitc_mhlo.h:215-220 | The result has length len(x) and holds x[i] * y[i] at each index. |
| Elementwise.Div | lib/Target/Cpp/emitc_mhlo.h:174-179 | The result has length len(x) and holds the truncated quotient of x[i] by y[i], given nonzero divisors. |
| Elementwise.Max | lib/Target/Cpp/emitc_mhlo.h:187-193 | Each element of the result is x[i] or y[i] and is at least both. The length is len(x). |
| Elementwise.Min | lib/Target/Cpp/emitc_mhlo.h:201-207 | Each element of the result is x[i] or y[i] and is at most both. The length is len(x). |
| Elementwise.ExtraRightOperandIgnored | lib/Target/Cpp/emitc_mhlo.h:161-166 | A binary op gives the same result when y is cut to x's length. |
| Elementwise.SubUndoesAdd | lib/Target/Cpp/emitc_mhlo.h:248-253 | sub(add(x, y), y) == x. |
| Elementwise.AddUndoesSub | lib/Target/Cpp/emitc_mhlo.h:161-166 | add(sub(x, y), y) == x. |
| Elementwise.DivUndoesMul | lib/Target/Cpp/emitc_mhlo.h:174-179 | div(mul(x, y), y) == x for nonzero y. |
| Elementwise.CommutativeOps | lib/Target/Cpp/emitc_mhlo.h:161-220 | On equal-length operands, add, mul, max and min are symmetric in x and y. |
| Elementwise.MinPlusMaxIsAdd | lib/Target/Cpp/emitc_mhlo.h:187-207 | add(min(x, y), max(x, y)) == add(x, y), so min and max split each pair between them. |
| Elementwise.StoredSum | lib/Target/Cpp/emitc_mhlo.h:161-166 | Storing add(x, y) into T narrows each elementwise sum x[i] + y[i]. |
| Elementwise.StoredDifference | lib/Target/Cpp/emitc_mhlo.h:248-253 | Storing sub(x, y) into T narrows each elementwise difference x[i] - y[i]. |
| Elementwise.WrappedSubUndoesAdd | lib/Target/Cpp/emitc_mhlo.h:161-166 | For a tensor of values of T, storing add(x, y) into T, subtracting y and storing again gives back x, even when the sum wrapped. |
| Elementwise.WrappedAddUndoesSub | lib/Target/Cpp/emitc_mhlo.h:248-253 | For a tensor of values of T, storing sub(x, y) into T, adding y and storing again gives back x, even when the difference wrapped. |
| Unary.MapElements | lib/Target/Cpp/emitc_mhlo.h:87-94 | A unary sequence op keeps the length and applies the scalar overload at each index. |
| Unary.Abs | lib/Target/Cpp/emitc_mhlo.h:38-45 | abs on a vector keeps the length. Each element is nonnegative and equals x[i] or -x[i]. |
| Unary.Convert | lib/Target/Cpp/emitc_mhlo.h:87-94 | convert keeps the length. Each element is in the target type's range and congruent to x[i] modulo 2^bits. |
| Unary.ConvertIsWrap | lib/Target/Cpp/emitc_mhlo.h:87-94 | Element i of convert(x) is the scalar cast of x[i]. |
| Unary.AbsFixesNonNegative | lib/Target/Cpp/emitc_mhlo.h:38-45 | abs leaves a nonnegative tensor unchanged, so abs is idempotent. |
| Unary.AbsIgnoresSign | lib/Target/Cpp/emitc_mhlo.h:38-45 | abs gives the same result for a tensor and its elementwise negation. |
| Unary.ConvertFixesInRange | lib/Target/Cpp/emitc_mhlo.h:87-94 | Converting a tensor whose values all fit the target type returns it unchanged. |
| Unary.ConvertIdempotent | lib/Target/Cpp/emitc_mhlo.h:87-94 | Converting twice to the same type is the same as converting once. |
| Unary.WideningRoundTrip | lib/Target/Cpp/emitc_mhlo.h:87-94 | Converting to a wider type and back restores the tensor. |
| Comparison.Holds | lib/Target/Cpp/emitc_mhlo.h:74-79 | The verdict of each of the six standard functors on a pair, stated through the strict order alone: equal_to holds when neither operand is less than the other, not_equal_to when one is, and less_equal, greater and greater_equal by swapping or negating less. |
| Comparison.Compare | lib/Target/Cpp/emitc_mhlo.h:74-79 | The mask has length len(x). Element i is true exactly when the chosen predicate holds of x[i] and y[i]. |
| Comparison.EqualToIsReflexive | lib/Target/Cpp/emitc_mhlo.h:74-79 | compare(x, x, equal_to) is all true, and compare(x, x, not_equal_to) is all false. |
| Comparison.NegationComplements | lib/Target/Cpp/emitc_mhlo.h:74-79 | Each kind's mask is the elementwise complement of its negation's mask, for example less and greater_equal. |
| Comparison.ConverseSwapsOperands | lib/Target/Cpp/emitc_mhlo.h:74-79 | compare(y, x, greater) == compare(x, y, less), and likewise for every kind and its converse. |
| Comparison.ExtraRightOperandIgnored | lib/Target/Cpp/emitc_mhlo.h:74-79 | The mask does not depend on elements of y past the end of x. |
| Structural.BroadcastInDim | lib/Target/Cpp/emitc_mhlo.h:264-273 | broadcast_in_dim(x, n) has length n*len(x), and element k equals x[k mod len(x)]. With n = 0 the result is empty. |
| Structural.BroadcastSplits | lib/Target/Cpp/emitc_mhlo.h:264-273 | Repeating n + m times is repeating n times followed by repeating m times. |
| Structural.BroadcastExample | lib/Target/Cpp/emitc_mhlo.h:264-273 | broadcast_in_dim([1,2], 3) == [1,2,1,2,1,2]. |
| Structural.Concatenate | lib/Target/Cpp/emitc_mhlo.h:276-281 | The result has length len(x) + len(y), with x as its prefix and y as its suffix. |
| Structural.ConcatenateAssociative | lib/Target/Cpp/emitc_mhlo.h:276-281 | Chained concatenation is associative. |
| Structural.ConcatenateNotCommutative | lib/Target/Cpp/emitc_mhlo.h:276-281 | concatenate([3,4],[1,2]) differs from concatenate([1,2],[3,4]). |
| Structural.Reshape | lib/Target/Cpp/emitc_mhlo.h:285-288 | reshape copies x element for element. |
| Structural.Select | lib/Target/Cpp/emitc_mhlo.h:291-299 | The result has length len(x). Element i is x[i] where s[i] holds and y[i] otherwise, given len(s), len(y) >= len(x). |
| Structural.SelectExample | lib/Target/Cpp/emitc_mhlo.h:291-299 | select([true,false,true], [1,2,3], [10,20,30]) == [1,20,3]. |
| Structural.SelectConstantMask | lib/Target/Cpp/emitc_mhlo.h:291-299 | An all-true mask selects x. An all-false mask selects y cut to x's length. |
| Structural.SelectNegatedMask | lib/Target/Cpp/emitc_mhlo.h:291-299 | Negating the mask is the same as swapping equal-length x and y. |
| Structural.SelectByComparisonIsMaxMin | lib/Target/Cpp/emitc_mhlo.h:291-299 | select(compare(x, y, greater), x, y) == max(x, y), and select with less gives min(x, y). |
| Random.ProductOfDimensions | lib/Target/Cpp/emitc_mhlo.h:311-313 | The element count of a shape with nonnegative dimensions is nonnegative. It is zero exactly when some dimension is zero. |
| Random.AccumulatedCount | lib/Target/Cpp/emitc_mhlo.h:312-313 | The sample count as written always fits in a 32-bit int. |
| Random.AccumulatedCountIsWrappedProduct | lib/Target/Cpp/emitc_mhlo.h:312-313 | The sample count as written is the true element count wrapped to 32 bits. |
| Random.AccumulatedCountOverflows | lib/Target/Cpp/emitc_mhlo.h:312-313 | For shape [65536, 65536] the true count is 2^32, but the count as written is 0. |
| Random.BitGeneratorCountAsWritten | lib/Target/Cpp/emitc_mhlo.h:351-355 | As written, the count for the shape [N] is N narrowed to 32 bits. It equals N only for N below 2^31. N = 2^32 gives 0, and N = 2^31 gives -2^31, which is an invalid vector size. |
| Random.RngUniform | lib/Target/Cpp/emitc_mhlo.h:310-326 | Given low <= high - 1, it returns exactly product(shape) samples. Each sample v satisfies low <= v < high, so high never occurs. |
| Random.RngBitGenerator | lib/Target/Cpp/emitc_mhlo.h:345-358 | The state is returned unchanged, and exactly N values come back, using the corrected count. Each value lies in [min, max) of T, so T's maximum never occurs. |

## Left out

- Floating-point ops: `cos`, `sin`, `sqrt` and `pow`, the floating variants of the arithmetic ops, and the floating `rng_uniform` (lines 96-152, 222-234, 329-342). IEEE 754 semantics and the platform-dependent edge behaviour of `uniform_real_distribution` are outside an integer model.
- `abs` on complex vectors (lines 48-56): it depends on floating point. As written it calls `reserve` and then loops to `z.size()`, which is 0, so it always returns an empty vector. It is not modelled.
- `bitcast_convert` (lines 58-71): a `reinterpret_cast` of bit patterns, with no value-level meaning to state.
- Randomness: `std::random_device` and `std::mt19937` are replaced by nondeterministic choice. Nothing is said about the distribution's statistics or independence.
- Elementwise.Add: the result is the unbounded sum and is not narrowed into the element type. For 8- and 16-bit types the sum is computed in promoted `int`, and for `uint32_t` and `uint64_t` it is computed modulo 2^bits. In both cases the stored element is `Unary.Convert` of the model's result, and `Elementwise.WrappedSubUndoesAdd` proves the inverse law for that narrowed form. For `int32_t` and `int64_t`, an overflowing sum is undefined behaviour.
- Elementwise.Sub: the result is the unbounded difference and is not narrowed. The situation is the same as for add. For example, sub of uint32 [0] and [1] stores 4294967295, which is `Unary.Convert` of the model's [-1].
- Elementwise.Mul: the result is the unbounded product and is not narrowed. The situation is the same as for add, except that `uint16_t` operands are promoted to signed `int`. A product above 2^31 - 1 is then undefined behaviour.
- Elementwise.Div: the result is the unbounded truncated quotient and is not narrowed. For int8 and int16, -128 / -1 and -32768 / -1 store the minimum value again after narrowing, where the model gives the positive quotient. For `int32_t` and `int64_t`, the minimum divided by -1 is undefined behaviour.
- Unary.Abs: the result is the unbounded magnitude and is not narrowed. For int8 and int16, the abs of the minimum value stores the minimum again after narrowing, where the model gives its magnitude. For `int32_t` and `int64_t`, it is undefined behaviour.
- Scalar.Abs: the scalar `abs<T1, T2>` returns T1, so the code returns `Scalar.Wrap(T1, Abs(a))` where the model gives the magnitude. The two differ only when the magnitude does not fit T1. For int8 and int16 the minimum comes back as itself; for example `abs<int8_t, int8_t>(-128)` is -128. For `int32_t` and `int64_t`, `std::abs` of the minimum is undefined behaviour.
- Scalar.TruncDiv: the scalar `div<T>` returns T, so the code returns `Scalar.Wrap(T, TruncDiv(a, b))`. The two differ only for the minimum divided by -1. For int8 and int16 that gives the minimum again; for example `div<int8_t>(-128, -1)` is -128. For `int32_t` and `int64_t` it is undefined behaviour.
- Elementwise.Apply: the scalar `add`, `sub`, `mul` and `div` return T, so the code returns `Scalar.Wrap(T, Apply(op, a, b))` wherever the arithmetic is defined. Where narrowing is defined and where the source has undefined behaviour instead is the same as for the sequence forms above. `max` and `min` return one of their operands, so nothing is narrowed.
- `bool` as an element type of `convert` and `rng_uniform` is not modelled; only the eight fixed-width integer types are.
- Random.RngUniform: `std::uniform_int_distribution` is undefined for 8-bit types by the C++ standard. The model allows them and gives the bounds the distribution would honour.
- Random.RngUniform: the count uses the true product `Product(shape)`, not the 32-bit fold the code performs (see Findings). Overflow of the 64-bit product is not modelled. Negative dimensions are not valid shape entries and are excluded by a precondition. As written, a negative dimension does not always break the call: the shape [-1, -1] folds to 1 and draws one sample. The constructor `result(n)` throws exactly when the folded count is negative.
- Random.RngUniform: the precondition low <= high - 1 also excludes high equal to the minimum of T. As written, `high - 1` then becomes T's maximum after conversion back to T: for `uint16_t` and `int16_t` it is computed in promoted `int` and narrowed, and for `uint32_t` and `uint64_t` it wraps. The code then samples [low, max] of T. For `int32_t` and `int64_t`, `high - 1` is signed overflow, which is undefined behaviour.
- Random.RngBitGenerator: it inherits the corrected count from `Random.RngUniform`, so it promises N values for every N >= 0. As written the count is N narrowed to 32 bits (`Random.BitGeneratorCountAsWritten`). That count is 0 for N = 2^32, and it is negative for N = 2^31, where the result vector's constructor throws. A negative N is not a valid count and is excluded by a precondition. As written, the constructor throws only when N folds to a negative count, for example for -2^31 <= N < 0. N = -2^32 folds to 0 and returns no values.
- Random.RngBitGenerator: the algorithm selector is accepted and ignored, as in the code. No counter-based algorithm is modelled, because the code has none.
- The unimplemented ops (Exp, IsFinite, Log, Neg, ShiftLeft, ShiftRightLogical, Or, Xor) are TODO comments with no behaviour.

## Findings

| source | as written | input that shows it | evidently intended | confidence | as-written member | corrected member |
|---|---|---|---|---|---|---|
| lib/Target/Cpp/emitc_mhlo.h:312-313 | `std::accumulate` starts from the `int` literal `1`, so the running product is stored in a 32-bit `int` after each step | shape [65536, 65536]: 2^32 elements, but the count is 0, so no samples are drawn. Shape [2^31] folds to a negative count, and `result(n)` throws. | the full element count, held in `int64_t` | medium, not executed | Random.AccumulatedCountOverflows | Random.RngUniform |
| lib/Target/Cpp/emitc_mhlo.h:351-355 | `rng_bit_generator` passes N as the shape [N] into the same 32-bit fold | N = 2^32 returns 0 values. N = 2^31 gives the count -2^31, and `result(n)` throws. | N values | medium, not executed | Random.BitGeneratorCountAsWritten | Random.RngBitGenerator |

/**
  Scalar rules of the MHLO runtime catalog: the integral element types,
  C++ integral conversion, division truncated toward zero, and the scalar
  abs/min/max that every sequence form applies at each index.
  Values are mathematical integers; an element type only matters where the
  catalog converts into it or samples its full range.
 */
module Scalar {

  /** The integral element types the catalog is instantiated with. */
  datatype IntType = Int8 | Int16 | Int32 | Int64 | UInt8 | UInt16 | UInt32 | UInt64 {

    predicate IsSigned() {
      Int8? || Int16? || Int32? || Int64?
    }

    /** 2 to the power of the type's bit width. */
    function Modulus(): nat {
      match this
      case Int8 | UInt8 => 0x100
      case Int16 | UInt16 => 0x1_0000
      case Int32 | UInt32 => 0x1_0000_0000
      case Int64 | UInt64 => 0x1_0000_0000_0000_0000
    }

    /** std::numeric_limits<T>::min() */
    function MinValue(): int {
      if IsSigned() then -(Modulus() / 2) else 0
    }

    /** std::numeric_limits<T>::max() */
    function MaxValue(): int {
      if IsSigned() then Modulus() / 2 - 1 else Modulus() - 1
    }
  }

  predicate InRange(t: IntType, v: int) {
    t.MinValue() <= v <= t.MaxValue()
  }

  /** Every value of `narrow` is also a value of `wide`. */
  predicate Widens(narrow: IntType, wide: IntType) {
    wide.MinValue() <= narrow.MinValue() && narrow.MaxValue() <= wide.MaxValue()
  }

  lemma RangeIsOneModulusWide(t: IntType)
    ensures t.MaxValue() - t.MinValue() + 1 == t.Modulus()
    ensures t.MinValue() <= 0 < t.MaxValue()
  {
  }

  /**
    static_cast<T>(v) for an integral target T: the unique value of T that is
    congruent to v modulo 2^bits (the C++20 rule; earlier standards left the
    signed case implementation-defined and every mainstream compiler wraps).
   */
  function Wrap(t: IntType, v: int): (r: int)
    ensures InRange(t, r)
    ensures (v - r) % t.Modulus() == 0
    ensures InRange(t, v) ==> r == v
  {
    var m := t.Modulus();
    var low := v % m;
    assert v == (v / m) * m + low;
    if t.IsSigned() && low > t.MaxValue() then
      assert v - (low - m) == (v / m + 1) * m;
      low - m
    else
      assert v - low == (v / m) * m;
      low
  }

  /** A nonzero multiple of m is at least |m| away from zero. */
  lemma MultipleIsFarFromZero(k: int, m: int)
    ensures k != 0 ==> Abs(k * m) >= Abs(m)
  {
    if k != 0 {
      NaturalMultipleGrows(Abs(k), Abs(m));
      if k < 0 && m < 0 {
        assert k * m == Abs(k) * Abs(m);
      } else if k < 0 {
        assert k * m == -(Abs(k) * Abs(m));
      } else if m < 0 {
        assert k * m == -(Abs(k) * Abs(m));
      } else {
        assert k * m == Abs(k) * Abs(m);
      }
    }
  }

  lemma {:induction false} NaturalMultipleGrows(a: nat, b: nat)
    ensures a >= 1 ==> a * b >= b
  {
    if a > 1 {
      NaturalMultipleGrows(a - 1, b);
      assert a * b == (a - 1) * b + b;
    }
  }

  /** A product of integers is zero exactly when one of the factors is. */
  lemma ProductIsZero(a: int, b: int)
    ensures a * b == 0 <==> a == 0 || b == 0
  {
    MultipleIsFarFromZero(a, b);
  }

  /** Two values of one type that differ by a multiple of 2^bits are equal. */
  lemma CongruentInRangeAreEqual(t: IntType, a: int, b: int, k: int)
    requires InRange(t, a) && InRange(t, b)
    requires a - b == k * t.Modulus()
    ensures a == b
  {
    RangeIsOneModulusWide(t);
    MultipleIsFarFromZero(k, t.Modulus());
  }

  /** Wrap is the only conversion that is in range and congruent to its input. */
  lemma WrapIsUnique(t: IntType, v: int, r: int)
    requires InRange(t, r)
    requires (v - r) % t.Modulus() == 0
    ensures r == Wrap(t, v)
  {
    var c := (v - r) / t.Modulus();
    assert v - r == c * t.Modulus();
    WrapIsUniqueWithMultiple(t, v, r, c);
  }

  lemma WrapIsUniqueWithMultiple(t: IntType, v: int, r: int, c: int)
    requires InRange(t, r)
    requires v - r == c * t.Modulus()
    ensures r == Wrap(t, v)
  {
    CongruentToSameAreEqual(t, v, r, Wrap(t, v), c);
  }

  /** Two values of t that are both congruent to v are equal. */
  lemma CongruentToSameAreEqual(t: IntType, v: int, r: int, w: int, c: int)
    requires InRange(t, r) && InRange(t, w)
    requires v - r == c * t.Modulus()
    requires (v - w) % t.Modulus() == 0
    ensures r == w
  {
    var m := t.Modulus();
    var k := (v - w) / m;
    assert v - w == k * m;
    assert w - r == (c - k) * m by {
      assert (c - k) * m == c * m - k * m;
    }
    CongruentInRangeAreEqual(t, w, r, c - k);
  }

  /** Wrapping an intermediate result before multiplying does not change the wrapped product. */
  lemma WrapOfProduct(t: IntType, a: int, d: int)
    ensures Wrap(t, Wrap(t, a) * d) == Wrap(t, a * d)
  {
    CongruentProductsAgree(t, a, d, Wrap(t, a), Wrap(t, Wrap(t, a) * d), Wrap(t, a * d));
  }

  /** Two in-range results of multiplying by d values congruent to a are equal. */
  lemma CongruentProductsAgree(t: IntType, a: int, d: int, w: int, r: int, r': int)
    requires InRange(t, r) && InRange(t, r')
    requires (a - w) % t.Modulus() == 0
    requires (w * d - r) % t.Modulus() == 0
    requires (a * d - r') % t.Modulus() == 0
    ensures r == r'
  {
    var m := t.Modulus();
    var k, j, l := (a - w) / m, (w * d - r) / m, (a * d - r') / m;
    assert a - w == k * m;
    assert w * d - r == j * m;
    assert a * d - r' == l * m;
    CongruenceSurvivesProduct(a, w, d, r, k, j, m);
    assert r' - r == (k * d + j - l) * m by {
      assert (k * d + j - l) * m == (k * d + j) * m - l * m;
    }
    CongruentInRangeAreEqual(t, r', r, k * d + j - l);
  }

  /** Wrapping an intermediate result before adding does not change the wrapped sum. */
  lemma WrapOfSum(t: IntType, a: int, d: int)
    ensures Wrap(t, Wrap(t, a) + d) == Wrap(t, a + d)
  {
    CongruentSumsAgree(t, a, d, Wrap(t, a), Wrap(t, Wrap(t, a) + d), Wrap(t, a + d));
  }

  /** Two in-range results of adding d to values congruent to a are equal. */
  lemma CongruentSumsAgree(t: IntType, a: int, d: int, w: int, r: int, r': int)
    requires InRange(t, r) && InRange(t, r')
    requires (a - w) % t.Modulus() == 0
    requires (w + d - r) % t.Modulus() == 0
    requires (a + d - r') % t.Modulus() == 0
    ensures r == r'
  {
    var m := t.Modulus();
    var k, j, l := (a - w) / m, (w + d - r) / m, (a + d - r') / m;
    assert a - w == k * m;
    assert w + d - r == j * m;
    assert a + d - r' == l * m;
    assert r - r' == (l - k - j) * m by {
      assert (l - k - j) * m == l * m - k * m - j * m;
    }
    CongruentInRangeAreEqual(t, r, r', l - k - j);
  }

  /**
    A value a of t, offset by b to u, stored as s, offset back to v and
    stored as z, each store in range and congruent modulo 2^bits, comes
    back unchanged.
   */
  lemma StoredOffsetCancels(t: IntType, a: int, b: int, u: int, s: int, v: int, z: int)
    requires InRange(t, a) && InRange(t, z)
    requires u == a + b && (u - s) % t.Modulus() == 0
    requires v == s - b && (v - z) % t.Modulus() == 0
    ensures z == a
  {
    var m := t.Modulus();
    var k, j := (u - s) / m, (v - z) / m;
    assert u - s == k * m;
    assert v - z == j * m;
    assert a - z == (k + j) * m by {
      assert (k + j) * m == k * m + j * m;
    }
    CongruentInRangeAreEqual(t, a, z, k + j);
  }

  /** The same with the offset taken away first and added back after. */
  lemma StoredNegativeOffsetCancels(t: IntType, a: int, b: int, u: int, s: int, v: int, z: int)
    requires InRange(t, a) && InRange(t, z)
    requires u == a - b && (u - s) % t.Modulus() == 0
    requires v == s + b && (v - z) % t.Modulus() == 0
    ensures z == a
  {
    StoredOffsetCancels(t, a, -b, u, s, v, z);
  }

  /** Stored into t, adding b and then subtracting it gives back a value of t. */
  lemma WrappedSumThenDifference(t: IntType, a: int, b: int)
    requires InRange(t, a)
    ensures Wrap(t, Wrap(t, a + b) - b) == a
  {
    var s := Wrap(t, a + b);
    StoredOffsetCancels(t, a, b, a + b, s, s - b, Wrap(t, s - b));
  }

  /** Stored into t, subtracting b and then adding it gives back a value of t. */
  lemma WrappedDifferenceThenSum(t: IntType, a: int, b: int)
    requires InRange(t, a)
    ensures Wrap(t, Wrap(t, a - b) + b) == a
  {
    var s := Wrap(t, a - b);
    StoredNegativeOffsetCancels(t, a, b, a - b, s, s + b, Wrap(t, s + b));
  }

  lemma CongruenceSurvivesProduct(a: int, w: int, d: int, r: int, k: int, j: int, m: int)
    requires a - w == k * m
    requires w * d - r == j * m
    ensures a * d - r == (k * d + j) * m
  {
    calc {
      a * d - r;
      (a - w) * d + (w * d - r);
      (k * m) * d + j * m;
      (k * d + j) * m;
    }
  }

  /** std::abs on an integer. */
  function Abs(a: int): (r: int)
    ensures r >= 0
    ensures r == a || r == -a
  {
    if a < 0 then -a else a
  }

  /**
    Integer std::divides: the quotient truncated toward zero, so the
    remainder a - q*b takes the sign of the dividend and is smaller than |b|.
    (Dafny's own `/` rounds so that the remainder is never negative.)
   */
  function TruncDiv(a: int, b: int): (q: int)
    requires b != 0
    ensures a >= 0 ==> 0 <= a - q * b < Abs(b)
    ensures a < 0 ==> -Abs(b) < a - q * b <= 0
  {
    if a >= 0 then
      if b > 0 then a / b else -(a / -b)
    else
      if b > 0 then -((-a) / b) else (-a) / (-b)
  }

  /**
    The remainder conditions pin the quotient down: any q whose remainder
    a - q*b has the dividend's sign and is smaller than |b| is TruncDiv(a, b).
   */
  lemma TruncDivIsUnique(a: int, b: int, q: int)
    requires b != 0
    requires a >= 0 ==> 0 <= a - q * b < Abs(b)
    requires a < 0 ==> -Abs(b) < a - q * b <= 0
    ensures q == TruncDiv(a, b)
  {
    QuotientIsUnique(a, b, TruncDiv(a, b), q);
  }

  /** Two quotients that both leave a remainder of the dividend's sign below |b| agree. */
  lemma QuotientIsUnique(a: int, b: int, p: int, q: int)
    requires b != 0
    requires a >= 0 ==> 0 <= a - p * b < Abs(b) && 0 <= a - q * b < Abs(b)
    requires a < 0 ==> -Abs(b) < a - p * b <= 0 && -Abs(b) < a - q * b <= 0
    ensures p == q
  {
    assert (a - q * b) - (a - p * b) == (p - q) * b;
    MultipleIsFarFromZero(p - q, b);
  }

  /** The quotient of an exact product is the other factor. */
  lemma TruncDivOfProduct(a: int, b: int)
    requires b != 0
    ensures TruncDiv(a * b, b) == a
  {
    TruncDivIsUnique(a * b, b, a);
  }

  /** Truncation is symmetric: negating the dividend or the divisor negates the quotient. */
  lemma TruncDivOfNegation(a: int, b: int)
    requires b != 0
    ensures TruncDiv(-a, b) == -TruncDiv(a, b)
    ensures TruncDiv(a, -b) == -TruncDiv(a, b)
  {
    var q := TruncDiv(a, b);
    if a == 0 {
      TruncDivIsUnique(a, b, 0);
    }
    assert -a - (-q) * b == -(a - q * b);
    TruncDivIsUnique(-a, b, -q);
    assert a - (-q) * (-b) == a - q * b;
    TruncDivIsUnique(a, -b, -q);
  }

  /** std::max(a, b): b when a < b, otherwise a. */
  function Max(a: int, b: int): (r: int)
    ensures r == a || r == b
    ensures r >= a && r >= b
  {
    if a < b then b else a
  }

  /** std::min(a, b): b when b < a, otherwise a. */
  function Min(a: int, b: int): (r: int)
    ensures r == a || r == b
    ensures r <= a && r <= b
  {
    if b < a then b else a
  }
}

/**
 * Exact decimal numbers in the manner of java.math.BigDecimal: an unscaled
 * integer and a scale, standing for unscaled × 10^(-scale). "10.0" is
 * Decimal(100, 1) and "10.00" is Decimal(1000, 2): the same number written
 * at two scales.
 */
module Decimals {

  datatype Decimal = Decimal(unscaled: int, scale: nat)

  function Pow10(n: nat): (p: nat)
    ensures p > 0
  {
    if n == 0 then 1 else 10 * Pow10(n - 1)
  }

  lemma {:induction false} Pow10Add(m: nat, n: nat)
    ensures Pow10(m + n) == Pow10(m) * Pow10(n)
  {
    if m > 0 {
      Pow10Add(m - 1, n);
      calc {
        Pow10(m + n);
        10 * Pow10(m - 1 + n);
        10 * (Pow10(m - 1) * Pow10(n));
        (10 * Pow10(m - 1)) * Pow10(n);
      }
    }
  }

  function Max(a: nat, b: nat): nat
  {
    if a < b then b else a
  }

  /** The unscaled value of d once d is written at the larger scale s (no rounding). */
  function Rescaled(d: Decimal, s: nat): int
    requires d.scale <= s
  {
    d.unscaled * Pow10(s - d.scale)
  }

  function Sign(x: int): int
  {
    if x < 0 then -1 else if x == 0 then 0 else 1
  }

  /** The number a decimal stands for: unscaled / 10^scale. */
  function Value(d: Decimal): real
  {
    d.unscaled as real / Pow10(d.scale) as real
  }

  lemma CastMul(m: int, n: int)
    ensures (m * n) as real == m as real * n as real
  {
  }

  lemma DivCancel(x: real, p: real, q: real)
    requires p > 0.0 && q > 0.0
    ensures (x * q) / (p * q) == x / p
  {
    assert (x / p) * (p * q) == x * q;
  }

  lemma DivMonotone(x: real, y: real, p: real)
    requires p > 0.0
    ensures x < y <==> x / p < y / p
    ensures x == y <==> x / p == y / p
  {
    assert x == (x / p) * p && y == (y / p) * p;
    if x / p < y / p {
      assert (y / p - x / p) * p > 0.0;
    } else if y / p < x / p {
      assert (x / p - y / p) * p > 0.0;
    }
  }

  /** Writing u / p at the finer denominator p * q does not change the number. */
  lemma ScaleValue(u: int, p: nat, q: nat)
    requires p > 0 && q > 0
    ensures (u * q) as real / (p * q) as real == u as real / p as real
  {
    CastMul(u, q);
    CastMul(p, q);
    DivCancel(u as real, p as real, q as real);
  }

  /** Read at any scale at least its own, a decimal's rescaled value over 10^s is its number. */
  lemma {:induction false} ValueAtScale(d: Decimal, s: nat)
    requires d.scale <= s
    ensures Value(d) == Rescaled(d, s) as real / Pow10(s) as real
  {
    Pow10Add(d.scale, s - d.scale);
    ScaleValue(d.unscaled, Pow10(d.scale), Pow10(s - d.scale));
  }

  /**
   * BigDecimal.compareTo: both operands are brought to the larger of the two
   * scales and their unscaled values compared. The answer is the sign of the
   * difference of the two numbers, whatever the scales.
   */
  function Compare(a: Decimal, b: Decimal): (c: int)
    ensures c == 0 <==> Value(a) == Value(b)
    ensures c == -1 <==> Value(a) < Value(b)
    ensures c == 1 <==> Value(a) > Value(b)
  {
    var s := Max(a.scale, b.scale);
    ValueAtScale(a, s);
    ValueAtScale(b, s);
    DivMonotone(Rescaled(a, s) as real, Rescaled(b, s) as real, Pow10(s) as real);
    DivMonotone(Rescaled(b, s) as real, Rescaled(a, s) as real, Pow10(s) as real);
    Sign(Rescaled(a, s) - Rescaled(b, s))
  }

  /** compareTo(...) == 0 */
  predicate NumericallyEqual(a: Decimal, b: Decimal)
  {
    Compare(a, b) == 0
  }

  /** compareTo(...) < 0 */
  predicate Less(a: Decimal, b: Decimal)
  {
    Compare(a, b) < 0
  }

  lemma MulPositive(x: int, y: int, p: int)
    requires p > 0
    ensures x < y <==> x * p < y * p
    ensures x == y <==> x * p == y * p
  {
    if x < y {
      assert (y - x) * p > 0;
    } else if y < x {
      assert (x - y) * p > 0;
    }
  }

  lemma {:induction false} RescaledShift(d: Decimal, s: nat, k: nat)
    requires d.scale <= s
    ensures Rescaled(d, s + k) == Rescaled(d, s) * Pow10(k)
  {
    Pow10Add(s - d.scale, k);
    assert s + k - d.scale == (s - d.scale) + k;
  }

  /** Comparing at any common scale at least as large as both gives compareTo's answer. */
  lemma {:induction false} CompareAtScale(a: Decimal, b: Decimal, s: nat)
    requires a.scale <= s && b.scale <= s
    ensures Compare(a, b) == Sign(Rescaled(a, s) - Rescaled(b, s))
  {
    var m := Max(a.scale, b.scale);
    var k := s - m;
    RescaledShift(a, m, k);
    RescaledShift(b, m, k);
    MulPositive(Rescaled(a, m), Rescaled(b, m), Pow10(k));
  }

  lemma NumericallyEqualSymmetric(a: Decimal, b: Decimal)
    ensures NumericallyEqual(a, b) <==> NumericallyEqual(b, a)
  {
    assert Max(a.scale, b.scale) == Max(b.scale, a.scale);
  }

  lemma {:induction false} NumericallyEqualTransitive(a: Decimal, b: Decimal, c: Decimal)
    requires NumericallyEqual(a, b) && NumericallyEqual(b, c)
    ensures NumericallyEqual(a, c)
  {
    var s := Max(Max(a.scale, b.scale), c.scale);
    CompareAtScale(a, b, s);
    CompareAtScale(b, c, s);
    CompareAtScale(a, c, s);
  }

  /** Numerical equality is an equivalence relation on decimals of any scale. */
  lemma {:induction false} NumericallyEqualIsEquivalence()
    ensures forall a: Decimal :: NumericallyEqual(a, a)
    ensures forall a: Decimal, b: Decimal :: NumericallyEqual(a, b) ==> NumericallyEqual(b, a)
    ensures forall a: Decimal, b: Decimal, c: Decimal ::
      NumericallyEqual(a, b) && NumericallyEqual(b, c) ==> NumericallyEqual(a, c)
  {
    forall a: Decimal, b: Decimal | NumericallyEqual(a, b)
      ensures NumericallyEqual(b, a)
    {
      NumericallyEqualSymmetric(a, b);
    }
    forall a: Decimal, b: Decimal, c: Decimal | NumericallyEqual(a, b) && NumericallyEqual(b, c)
      ensures NumericallyEqual(a, c)
    {
      NumericallyEqualTransitive(a, b, c);
    }
  }

  /** Writing a number at a larger scale (appending zeros) does not change it. */
  lemma {:induction false} WideningKeepsValue(d: Decimal, k: nat)
    ensures NumericallyEqual(Decimal(d.unscaled * Pow10(k), d.scale + k), d)
  {
    var w := Decimal(d.unscaled * Pow10(k), d.scale + k);
    CompareAtScale(w, d, d.scale + k);
    RescaledShift(d, d.scale, k);
  }

  /** No trailing zero can be dropped any more. */
  predicate Canonical(d: Decimal)
  {
    d.scale == 0 || d.unscaled % 10 != 0
  }

  /**
   * BigDecimal.stripTrailingZeros, within non-negative scales: drops trailing
   * zero digits of the fraction. The result is the same number, written in
   * the one form that has no trailing zero left to drop.
   */
  function StripTrailingZeros(d: Decimal): (r: Decimal)
    ensures NumericallyEqual(r, d)
    ensures Canonical(r)
    decreases d.scale
  {
    if d.scale > 0 && d.unscaled % 10 == 0 then
      var shorter := Decimal(d.unscaled / 10, d.scale - 1);
      WideningKeepsValue(shorter, 1);
      assert Decimal(shorter.unscaled * Pow10(1), shorter.scale + 1) == d;
      var r := StripTrailingZeros(shorter);
      NumericallyEqualTransitive(r, shorter, d);
      r
    else
      d
  }

  /** Two canonical decimals that are numerically equal are the same decimal. */
  lemma {:induction false} CanonicalFormIsUnique(a: Decimal, b: Decimal)
    requires Canonical(a) && Canonical(b) && NumericallyEqual(a, b)
    ensures a == b
  {
    if a.scale <= b.scale {
      CanonicalBelow(a, b);
    } else {
      NumericallyEqualSymmetric(a, b);
      CanonicalBelow(b, a);
    }
  }

  lemma {:induction false} CanonicalBelow(a: Decimal, b: Decimal)
    requires Canonical(a) && Canonical(b) && NumericallyEqual(a, b)
    requires a.scale <= b.scale
    ensures a == b
  {
    var k := b.scale - a.scale;
    CompareAtScale(a, b, b.scale);
    assert b.unscaled == a.unscaled * Pow10(k);
    if k > 0 {
      ShiftedEndsInZero(a.unscaled, k);
    }
  }

  lemma ShiftedEndsInZero(x: int, k: nat)
    requires k > 0
    ensures (x * Pow10(k)) % 10 == 0
  {
    assert x * Pow10(k) == 10 * (x * Pow10(k - 1));
  }

  /**
   * The hash of a BigDecimal taken after stripTrailingZeros agrees with
   * compareTo-equality: numerically equal decimals strip to the same decimal.
   */
  lemma {:induction false} EqualNumbersStripAlike(a: Decimal, b: Decimal)
    requires NumericallyEqual(a, b)
    ensures StripTrailingZeros(a) == StripTrailingZeros(b)
  {
    var ra, rb := StripTrailingZeros(a), StripTrailingZeros(b);
    NumericallyEqualTransitive(ra, a, b);
    NumericallyEqualSymmetric(rb, b);
    NumericallyEqualTransitive(ra, b, rb);
    CanonicalFormIsUnique(ra, rb);
  }
}

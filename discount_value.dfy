/**
 * DiscountValue: a value object holding an exact decimal discount of at least
 * 0.5. `Of` refuses null and anything numerically below 0.5 and keeps the
 * accepted decimal as given, scale included; `Reconstitute` trusts any stored
 * decimal. Two discounts are equal when their numbers are equal, whatever
 * their scales, and the hash is taken from the trailing-zero-free form.
 */
module Discounts {
  import opened Decimals
  import opened Errors

  /** MIN_VALUE = new BigDecimal("0.5") */
  const MinValue: Decimal := Decimal(5, 1)

  datatype DiscountValue = DiscountValue(value: Decimal)

  /**
   * A decimal is at least one half exactly when twice its unscaled value
   * reaches 10^scale, that is, when the number it stands for is at least 0.5.
   */
  lemma AtLeastHalf(v: Decimal)
    ensures !Less(v, MinValue) <==> 2 * v.unscaled >= Pow10(v.scale)
    ensures !Less(v, MinValue) <==> Value(v) >= 0.5
  {
    if v.scale == 0 {
      assert Compare(v, MinValue) == Sign(v.unscaled * 10 - 5);
    } else {
      assert Pow10(v.scale) == 10 * Pow10(v.scale - 1);
      assert Compare(v, MinValue) == Sign(v.unscaled - 5 * Pow10(v.scale - 1));
    }
  }

  /** DiscountValue.of */
  function Of(value: Option<Decimal>): (r: Result<DiscountValue>)
    ensures r.Ok? <==> value.Some? && 2 * value.value.unscaled >= Pow10(value.value.scale)
    ensures r.Ok? <==> value.Some? && Value(value.value) >= 0.5
    ensures r.Ok? ==> r.value.value == value.value
    ensures r.Err? ==> r.error.InvalidDiscountValue?
  {
    if value.None? then
      Err(InvalidDiscountValue(DiscountRequired))
    else if Less(value.value, MinValue) then
      AtLeastHalf(value.value);
      Err(InvalidDiscountValue(DiscountBelowMinimum(value.value)))
    else
      AtLeastHalf(value.value);
      Ok(DiscountValue(value.value))
  }

  /** DiscountValue.reconstitute: no validation at all; value() gives back the decimal unchanged. */
  function Reconstitute(value: Decimal): (d: DiscountValue)
    ensures d.value == value
  {
    DiscountValue(value)
  }

  /** DiscountValue.equals: compareTo(...) == 0, so the scale is ignored. */
  function Equals(a: DiscountValue, b: DiscountValue): (eq: bool)
    ensures eq <==> Value(a.value) == Value(b.value)
  {
    NumericallyEqual(a.value, b.value)
  }

  /** The decimal DiscountValue.hashCode hashes: value.stripTrailingZeros(). */
  function HashKey(d: DiscountValue): (h: Decimal)
    ensures Value(h) == Value(d.value) && Canonical(h)
  {
    StripTrailingZeros(d.value)
  }

  /** Null is refused as "required", a distinct error from "below the minimum". */
  lemma OfRefusesNull()
    ensures Of(None) == Err(InvalidDiscountValue(DiscountRequired))
    ensures forall v :: Of(Some(v)).Err? ==> Of(Some(v)) == Err(InvalidDiscountValue(DiscountBelowMinimum(v)))
  {
  }

  /**
   * The boundary, compared exactly: 0.5 and 0.50 are accepted; 0.49, 0, -1.0
   * and 0.4999999999999999999 (which a double would round to 0.5) are refused.
   */
  lemma {:induction false} Boundary()
    ensures Of(Some(Decimal(5, 1))) == Ok(DiscountValue(Decimal(5, 1)))
    ensures Of(Some(Decimal(50, 2))).Ok?
    ensures Of(Some(Decimal(49, 2))) == Err(InvalidDiscountValue(DiscountBelowMinimum(Decimal(49, 2))))
    ensures Of(Some(Decimal(0, 0))).Err?
    ensures Of(Some(Decimal(-10, 1))).Err?
    ensures Of(Some(Decimal(4999999999999999999, 19))).Err?
  {
    assert Pow10(2) == 100;
    assert Pow10(4) == 10000;
    assert Pow10(8) == 100000000 by { Pow10Add(4, 4); }
    assert Pow10(16) == 10000000000000000 by { Pow10Add(8, 8); }
    assert Pow10(19) == 10000000000000000000 by { Pow10Add(16, 3); }
  }

  /** "10.00" is stored as "10.00": the scale is not normalised on acceptance. */
  lemma {:induction false} OfKeepsScale()
    ensures Of(Some(Decimal(1000, 2))) == Ok(DiscountValue(Decimal(1000, 2)))
  {
    assert Pow10(2) == 100;
  }

  /** Reconstitute accepts any decimal, also one below the minimum that Of refuses. */
  lemma ReconstituteSkipsValidation(v: Decimal)
    ensures Reconstitute(v).value == v
    ensures Of(Some(Decimal(1, 1))).Err? && Reconstitute(Decimal(1, 1)).value == Decimal(1, 1)
  {
  }

  /**
   * Equals compares the numbers the decimals stand for, so it is an
   * equivalence relation that ignores the scale: 10.0 equals 10.00.
   */
  lemma {:induction false} EqualsIgnoresScale(a: DiscountValue, b: DiscountValue, c: DiscountValue)
    ensures Equals(a, b) <==> Value(a.value) == Value(b.value)
    ensures Equals(a, a)
    ensures Equals(a, b) ==> Equals(b, a)
    ensures Equals(a, b) && Equals(b, c) ==> Equals(a, c)
    ensures Equals(DiscountValue(Decimal(100, 1)), DiscountValue(Decimal(1000, 2)))
    ensures DiscountValue(Decimal(100, 1)) != DiscountValue(Decimal(1000, 2))
  {
    NumericallyEqualSymmetric(a.value, b.value);
    if Equals(a, b) && Equals(b, c) {
      NumericallyEqualTransitive(a.value, b.value, c.value);
    }
    WideningKeepsValue(Decimal(100, 1), 1);
    NumericallyEqualSymmetric(Decimal(1000, 2), Decimal(100, 1));
  }

  /** hashCode is consistent with equals: equal discounts hash the same decimal. */
  lemma {:induction false} HashConsistentWithEquals(a: DiscountValue, b: DiscountValue)
    requires Equals(a, b)
    ensures HashKey(a) == HashKey(b)
  {
    EqualNumbersStripAlike(a.value, b.value);
  }
}

/** The integer core of the fixed-point type numeric::decimal<PRECISION>: a 64-bit raw
    value `data` that stands for data / 10^PRECISION, kept within a range that leaves one
    spare decimal digit for rounding. PRECISION is a template argument in the source; here
    it is a constant field fixed at construction. */
module Decimals {
  import opened Wrappers
  import opened TruncArith

  /** MAX_PRECISION: the most decimal places a long long can hold with the rounding digit. */
  const MAX_PRECISION: nat := 17
  /** LLONG_MAX and LLONG_MIN of a 64-bit long long. */
  const LLONG_MAX: int := 0x7FFF_FFFF_FFFF_FFFF
  const LLONG_MIN: int := -0x8000_0000_0000_0000

  /** Why an operation gives up (the source throws std::exception). */
  datatype DecimalError = PrecisionTooLarge | OutOfRange

  /** (long long) pow(10.0, n): every power of ten up to 10^22 is exact in a double. */
  function Pow10(n: nat): (r: nat)
    ensures r >= 1
    ensures n > 0 ==> r >= 10 && r % 10 == 0
  {
    if n == 0 then 1 else 10 * Pow10(n - 1)
  }

  /** 10^18, the largest power of ten the range computation divides by, is below LLONG_MAX. */
  lemma Pow10AtMost(n: nat)
    requires n <= MAX_PRECISION + 1
    ensures Pow10(n) <= 1_000_000_000_000_000_000
  {
    Pow10Mono(n, 18);
    Pow10Twelve();
    assert Pow10(14) == 100_000_000_000_000;
    assert Pow10(16) == 10_000_000_000_000_000;
  }

  lemma Pow10Twelve()
    ensures Pow10(12) == 1_000_000_000_000
  {
    Pow10Six();
    assert Pow10(8) == 100_000_000;
    assert Pow10(10) == 10_000_000_000;
  }

  lemma Pow10Six()
    ensures Pow10(6) == 1_000_000
  {
    assert Pow10(2) == 100;
    assert Pow10(4) == 10_000;
  }

  lemma {:induction false} Pow10Mono(m: nat, n: nat)
    requires m <= n
    ensures Pow10(m) <= Pow10(n)
    decreases n
  {
    if m < n {
      Pow10Mono(m, n - 1);
    }
  }

  /** GetMaxValue: LLONG_MAX with PRECISION + 1 digits shifted out, that is, the largest
      whole number of the scale 10^(PRECISION + 1) that fits in a long long. */
  function MaxValue(precision: nat): (m: int)
    requires precision <= MAX_PRECISION
    ensures m > 0
    ensures m * Pow10(precision + 1) <= LLONG_MAX < (m + 1) * Pow10(precision + 1)
  {
    var d := Pow10(precision + 1);
    Pow10AtMost(precision + 1);
    TruncDivMod(LLONG_MAX, d);
    QuotientBounds(LLONG_MAX, d);
    TruncDiv(LLONG_MAX, d)
  }

  /** A dividend at least the divisor has a positive quotient, whose multiple of the divisor
      is the last one not above the dividend. */
  lemma QuotientBounds(a: int, d: int)
    requires a >= d > 0
    ensures a / d > 0 && (a / d) * d <= a < (a / d + 1) * d
  {
    var q := a / d;
    assert a == q * d + a % d;
    assert (q + 1) * d == q * d + d;
  }

  /** GetMinValue: LLONG_MIN divided by the same power of ten, rounding toward zero, that
      is, the most negative whole number of the scale 10^(PRECISION + 1) that does not go
      below LLONG_MIN. */
  function MinValue(precision: nat): (m: int)
    requires precision <= MAX_PRECISION
    ensures m < 0
    ensures LLONG_MIN <= m * Pow10(precision + 1) && (m - 1) * Pow10(precision + 1) < LLONG_MIN
  {
    var d := Pow10(precision + 1);
    Pow10AtMost(precision + 1);
    var q := -LLONG_MIN / d;
    QuotientBounds(-LLONG_MIN, d);
    NegatedBounds(-LLONG_MIN, d, q);
    assert TruncDiv(LLONG_MIN, d) == -q;
    TruncDiv(LLONG_MIN, d)
  }

  /** Bounds on a positive dividend's quotient, negated. */
  lemma NegatedBounds(a: int, d: int, q: int)
    requires q * d <= a < (q + 1) * d
    ensures -a <= (-q) * d && (-q - 1) * d < -a
  {
  }

  /** The range is symmetric: because no power of ten above 1 divides 2^63, truncating
      LLONG_MIN gives the same quotient as LLONG_MAX, with the opposite sign. */
  lemma MinIsNegMax(precision: nat)
    requires precision <= MAX_PRECISION
    ensures MinValue(precision) == -MaxValue(precision)
  {
    var d := Pow10(precision + 1);
    TruncDivMod(LLONG_MAX, d);
    TruncDivMod(LLONG_MIN, d);
    if (-LLONG_MIN) % d == 0 {
      MultipleOfTen(-LLONG_MIN, d);
    }
    NextQuotient(LLONG_MAX, d);
  }

  /** Dividing by the same positive scale keeps equality and order. */
  lemma ScaledOrder(a: int, b: int, d: nat)
    requires d > 0
    ensures a == b <==> a as real / d as real == b as real / d as real
    ensures a < b <==> a as real / d as real < b as real / d as real
  {
  }

  /** A multiple of a multiple of ten is a multiple of ten. */
  lemma MultipleOfTen(x: int, d: int)
    requires d > 0 && d % 10 == 0 && x % d == 0
    ensures x % 10 == 0
  {
    var k, e := x / d, d / 10;
    assert x == k * d;
    assert k * d == 10 * (k * e);
  }

  /** Adding one changes the quotient only when it reaches a multiple of the divisor. */
  lemma NextQuotient(a: int, d: int)
    requires d > 0 && (a + 1) % d != 0
    ensures (a + 1) / d == a / d
  {
    if a % d == d - 1 {
      ModOfNext(a, d);
    }
    DivUnique(a + 1, d, a / d, a % d + 1);
  }

  lemma ModOfNext(a: int, d: int)
    requires d > 0 && a % d == d - 1
    ensures (a + 1) % d == 0
  {
    var q := a / d;
    assert a + 1 == (q + 1) * d;
    DivUnique(a + 1, d, q + 1, 0);
  }

  /** The values SetData accepts. */
  predicate InRange(precision: nat, x: int)
    requires precision <= MAX_PRECISION
  {
    MinValue(precision) <= x <= MaxValue(precision)
  }

  /** The sum or difference of two values in range is at most twice the maximum, far inside
      a long long: the C++ `data + rhs.data` and `data - rhs.data` never overflow. */
  lemma NoOverflow(precision: nat, a: int, b: int)
    requires precision <= MAX_PRECISION
    requires InRange(precision, a) && InRange(precision, b)
    ensures LLONG_MIN <= a + b <= LLONG_MAX
    ensures LLONG_MIN <= a - b <= LLONG_MAX
  {
    MinIsNegMax(precision);
    var m, d := MaxValue(precision), Pow10(precision + 1);
    MulAtLeastTen(m, d);
  }

  lemma MulAtLeastTen(m: int, d: int)
    requires m >= 0 && d >= 10
    ensures m * 10 <= m * d
  {
    var e := d - 10;
    assert m * d == m * 10 + m * e;
  }

  /** What the rounding step of the long double constructor stores for the scaled integer
      s: sign(s) * ((|s| + 5) / 10). The result is the nearest whole number to s / 10,
      halves rounded away from zero, and keeps the sign of s. */
  function Rounded(s: int): (r: int)
    ensures -5 <= 10 * r - s <= 5
    ensures 10 * r - s == 5 ==> s > 0
    ensures 10 * r - s == -5 ==> s < 0
    ensures r == 0 <==> -5 < s < 5
    ensures s > 0 ==> r >= 0
    ensures s < 0 ==> r <= 0
    ensures Abs(r) <= Abs(s)
  {
    var sign := if s > 0 then 1 else if s < 0 then -1 else 0;
    var q := TruncDiv(Abs(s) + 5, 10);
    TruncDivMod(Abs(s) + 5, 10);
    sign * q
  }

  /** The second SetData of the constructor never fails: rounding a value in range gives a
      value in range. */
  lemma RoundedInRange(precision: nat, s: int)
    requires precision <= MAX_PRECISION && InRange(precision, s)
    ensures InRange(precision, Rounded(s))
  {
    MinIsNegMax(precision);
  }

  class Decimal {
    /** PRECISION: the number of decimal places. */
    const precision: nat
    /** The raw value: the number times 10^PRECISION. */
    var data: int

    /** Every decimal that was successfully built or updated: a supported precision and a
        raw value within range. */
    ghost predicate Valid()
      reads this
    {
      precision <= MAX_PRECISION && InRange(precision, data)
    }

    /** Default constructor, for a supported precision (the precision check that throws is
        New). */
    constructor(precision: nat)
      requires precision <= MAX_PRECISION
      ensures this.precision == precision && data == 0
      ensures Valid()
    {
      this.precision := precision;
      data := 0;
      new;
      MinIsNegMax(precision);
    }

    /** Copy constructor: the raw value is copied without a range check. */
    constructor Copy(orig: Decimal)
      requires orig.Valid()
      ensures precision == orig.precision && data == orig.data
      ensures Valid()
    {
      precision := orig.precision;
      data := orig.data;
    }

    /** SetData: store the new raw value only when it is within range; otherwise fail and
        leave the value as it was. */
    method SetData(newData: int) returns (o: Outcome<DecimalError>)
      requires Valid()
      modifies this
      ensures Valid()
      ensures InRange(precision, newData) ==> o == Pass && data == newData
      ensures !InRange(precision, newData) ==> o == Fail(OutOfRange) && data == old(data)
    {
      if newData > MaxValue(precision) || newData < MinValue(precision) {
        return Fail(OutOfRange);
      }
      data := newData;
      o := Pass;
    }

    /** operator+: a new decimal whose raw value is the exact sum, when that is in range. */
    method Plus(rhs: Decimal) returns (r: Result<Decimal, DecimalError>)
      requires Valid() && rhs.Valid() && rhs.precision == precision
      ensures r.Failure? <==> !InRange(precision, data + rhs.data)
      ensures r.Failure? ==> r.error == OutOfRange
      ensures r.Success? ==>
                fresh(r.value) && r.value.Valid() && r.value.precision == precision &&
                r.value.data == data + rhs.data
    {
      NoOverflow(precision, data, rhs.data);
      var retObj := new Decimal(precision);
      var o := retObj.SetData(data + rhs.data);
      if o.Fail? {
        return Failure(o.error);
      }
      return Success(retObj);
    }

    /** operator-: a new decimal whose raw value is the exact difference, when that is in
        range. */
    method Minus(rhs: Decimal) returns (r: Result<Decimal, DecimalError>)
      requires Valid() && rhs.Valid() && rhs.precision == precision
      ensures r.Failure? <==> !InRange(precision, data - rhs.data)
      ensures r.Failure? ==> r.error == OutOfRange
      ensures r.Success? ==>
                fresh(r.value) && r.value.Valid() && r.value.precision == precision &&
                r.value.data == data - rhs.data
    {
      NoOverflow(precision, data, rhs.data);
      var retObj := new Decimal(precision);
      var o := retObj.SetData(data - rhs.data);
      if o.Fail? {
        return Failure(o.error);
      }
      return Success(retObj);
    }

    /** The number the raw value stands for: data / 10^PRECISION. */
    function Value(): real
      reads this
    {
      data as real / Pow10(precision) as real
    }

    /** operator==, operator!=, operator> and operator<: the raw values are compared, which
        between decimals of one precision compares the numbers they stand for. */
    function Equals(rhs: Decimal): (r: bool)
      reads this, rhs
      ensures precision == rhs.precision ==> (r <==> Value() == rhs.Value())
    {
      ScaledOrder(data, rhs.data, Pow10(precision));
      rhs.data == data
    }

    function NotEquals(rhs: Decimal): (r: bool)
      reads this, rhs
      ensures precision == rhs.precision ==> (r <==> Value() != rhs.Value())
    {
      ScaledOrder(data, rhs.data, Pow10(precision));
      rhs.data != data
    }

    function Greater(rhs: Decimal): (r: bool)
      reads this, rhs
      ensures precision == rhs.precision ==> (r <==> Value() > rhs.Value())
    {
      ScaledOrder(rhs.data, data, Pow10(precision));
      data > rhs.data
    }

    function Less(rhs: Decimal): (r: bool)
      reads this, rhs
      ensures precision == rhs.precision ==> (r <==> Value() < rhs.Value())
    {
      ScaledOrder(data, rhs.data, Pow10(precision));
      data < rhs.data
    }

    /** operator=(const decimal &): the raw value of rhs through SetData. Both sides have the
        same precision, so the range check always passes. */
    method Assign(rhs: Decimal) returns (o: Outcome<DecimalError>)
      requires Valid() && rhs.Valid() && rhs.precision == precision
      modifies this
      ensures o == Pass && data == old(rhs.data) && Valid()
    {
      o := SetData(rhs.data);
    }
  }

  /** The comparisons agree with each other and with the integer order: != is the negation
      of ==, a < b is b > a, and exactly one of <, == and > holds. */
  lemma ComparisonLaws(a: Decimal, b: Decimal)
    ensures a.NotEquals(b) == !a.Equals(b)
    ensures a.Less(b) == b.Greater(a)
    ensures a.Equals(b) == b.Equals(a)
    ensures (a.Less(b) || a.Equals(b) || a.Greater(b)) &&
            !(a.Less(b) && a.Equals(b)) && !(a.Less(b) && a.Greater(b)) && !(a.Equals(b) && a.Greater(b))
  {
  }

  /** The default constructor with its precision check. */
  method New(precision: nat) returns (r: Result<Decimal, DecimalError>)
    ensures r.Failure? <==> precision > MAX_PRECISION
    ensures r.Failure? ==> r.error == PrecisionTooLarge
    ensures r.Success? ==> fresh(r.value) && r.value.Valid() && r.value.precision == precision && r.value.data == 0
  {
    if precision > MAX_PRECISION {
      return Failure(PrecisionTooLarge);
    }
    var d := new Decimal(precision);
    return Success(d);
  }

  /** The long double constructor from the scaled integer s = (long long)(number *
      10^(PRECISION + 1)): s itself must be in range, and the value stored is s rounded to
      one digit fewer, halves away from zero. */
  method FromScaled(precision: nat, scaled: int) returns (r: Result<Decimal, DecimalError>)
    ensures precision > MAX_PRECISION ==> r == Failure(PrecisionTooLarge)
    ensures precision <= MAX_PRECISION ==> (r.Failure? <==> !InRange(precision, scaled))
    ensures r.Failure? && precision <= MAX_PRECISION ==> r.error == OutOfRange
    ensures r.Success? ==>
              fresh(r.value) && r.value.Valid() && r.value.precision == precision &&
              r.value.data == Rounded(scaled)
  {
    if precision > MAX_PRECISION {
      return Failure(PrecisionTooLarge);
    }
    var d := new Decimal(precision);
    var o := d.SetData(scaled);
    if o.Fail? {
      return Failure(o.error);
    }
    // The sign through fabs((double) data) / data, exact for every value in range.
    var sign := 0;
    if d.data != 0 {
      sign := if d.data > 0 then 1 else -1;
    }
    RoundedInRange(precision, scaled);
    o := d.SetData(sign * ((Abs(d.data) + 5) / 10));
    return Success(d);
  }
}

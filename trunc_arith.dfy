/** C++ integer division and remainder, which truncate toward zero (Dafny's `/` and `%`
    are Euclidean and differ for negative operands). */
module TruncArith {

  function Abs(x: int): nat
  {
    if x < 0 then -x else x
  }

  /** C++ `a / b`. */
  function TruncDiv(a: int, b: int): int
    requires b != 0
  {
    var q := Abs(a) / Abs(b);
    if (a < 0) == (b < 0) then q else -q
  }

  /** C++ `a % b`. */
  function TruncMod(a: int, b: int): int
    requires b != 0
  {
    a - b * TruncDiv(a, b)
  }

  /** The C++ guarantees for a positive divisor: the quotient rounds toward zero, and the
      remainder is smaller than the divisor and takes the sign of the dividend. */
  lemma TruncDivMod(a: int, b: int)
    requires b > 0
    ensures b * TruncDiv(a, b) + TruncMod(a, b) == a
    ensures a >= 0 ==> TruncDiv(a, b) == a / b && TruncMod(a, b) == a % b
    ensures a < 0 ==> TruncDiv(a, b) == -((-a) / b) && TruncMod(a, b) == -((-a) % b)
    ensures -b < TruncMod(a, b) < b
    ensures a >= 0 ==> TruncMod(a, b) >= 0
    ensures a <= 0 ==> TruncMod(a, b) <= 0
    ensures TruncDiv(a, b) == 0 <==> Abs(a) < b
  {
    var q := Abs(a) / b;
    assert Abs(a) == q * b + Abs(a) % b;
    if Abs(a) < b {
      DivUnique(Abs(a), b, 0, Abs(a));
    }
    if a < 0 {
      assert TruncMod(a, b) == a + b * q;
    }
  }

  lemma MulAtLeast(c: int, v: int)
    requires c >= 1 && v > 0
    ensures c * v >= v
  {
    var d := c - 1;
    assert c * v == d * v + v;
    assert d * v >= 0;
  }

  /** A count no larger than the C++ quotient c / d has copies of d no larger than c. */
  lemma QuotientFits(w: int, c: int, d: int)
    requires c >= 0 && d > 0 && w <= TruncDiv(c, d)
    ensures TruncDiv(c, d) >= 0 && w * d <= c
  {
    TruncDivMod(c, d);
    var q := c / d;
    assert (q - w) * d >= 0;
    assert q * d <= c;
  }

  /** Euclidean division is determined by its quotient-remainder equation. */
  lemma DivUnique(a: int, b: int, q: int, r: int)
    requires b > 0 && a == q * b + r && 0 <= r < b
    ensures a / b == q && a % b == r
  {
    var q', r' := a / b, a % b;
    assert a == q' * b + r';
    assert (q - q') * b == r' - r;
    if q > q' {
      MulAtLeast(q - q', b);
    } else if q < q' {
      MulAtLeast(q' - q, b);
    }
  }
}

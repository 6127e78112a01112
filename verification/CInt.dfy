/** The C integer types and operators used by the module: wrap-around to a fixed
    width, and division that truncates toward zero (Dafny's `/` is Euclidean). */
module CInt {
  const TWO31: int := 0x8000_0000
  const TWO32: int := 0x1_0000_0000
  const TWO63: int := 0x8000_0000_0000_0000
  const TWO64: int := 0x1_0000_0000_0000_0000

  type U32 = x: int | 0 <= x < 0x1_0000_0000
  type U64 = x: int | 0 <= x < 0x1_0000_0000_0000_0000
  type S64 = x: int | -0x8000_0000_0000_0000 <= x < 0x8000_0000_0000_0000
  type S32 = x: int | -0x8000_0000 <= x < 0x8000_0000

  function WrapU32(x: int): U32 { x % 0x1_0000_0000 }

  function WrapU64(x: int): U64 { x % 0x1_0000_0000_0000_0000 }

  function WrapS32(x: int): S32 {
    var u := x % 0x1_0000_0000;
    if u < 0x8000_0000 then u else u - 0x1_0000_0000
  }

  function WrapS64(x: int): S64 {
    var u := x % 0x1_0000_0000_0000_0000;
    if u < 0x8000_0000_0000_0000 then u else u - 0x1_0000_0000_0000_0000
  }

  /** C's `/`: the quotient is rounded toward zero. */
  function TruncDiv(a: int, b: int): int
    requires b != 0
  {
    if a >= 0 then a / b else -((-a) / b)
  }

  /** The quotient q of a nonnegative a by a positive c, from its bounds. */
  lemma QuotientUnique(a: int, c: int, q: int)
    requires c > 0 && q * c <= a < q * c + c
    ensures a / c == q
  {
    var d := a / c - q;
    assert a == (a / c) * c + a % c;
    assert d * c == (a / c) * c - q * c;
    assert d >= 1 ==> d * c >= c;
    assert d <= -1 ==> d * c <= -c;
  }

  lemma DivMod(a: int, b: int)
    requires b != 0
    ensures a == (a / b) * b + a % b && 0 <= a % b < (if b > 0 then b else -b)
  {
  }

  lemma NegateProduct(x: int, y: int)
    ensures (-x) * y == -(x * y)
  {
  }

  lemma OneMoreTimes(x: int, y: int, c: int)
    requires c > 0
    ensures x < y ==> x * c + c <= y * c
  {
    assert (x + 1) * c == x * c + c;
    assert x < y ==> (x + 1) * c <= y * c;
  }

  /** The law that C fixes for division: quotient times divisor plus a remainder that
      is smaller than the divisor and has the sign of the dividend. */
  lemma TruncDivLaw(a: int, b: int)
    requires b != 0
    ensures var r := a - TruncDiv(a, b) * b;
            (a >= 0 ==> 0 <= r < (if b > 0 then b else -b)) &&
            (a <= 0 ==> (if b > 0 then -b else b) < r <= 0)
  {
    DivMod(a, b);
    DivMod(-a, b);
    NegateProduct((-a) / b, b);
    if a == 0 {
      ZeroDiv(b);
    }
  }

  lemma ZeroDiv(b: int)
    requires b != 0
    ensures 0 / b == 0
  {
  }

  lemma TruncDivMonotone(a: int, b: int, c: int)
    requires c > 0 && a <= b
    ensures TruncDiv(a, c) <= TruncDiv(b, c)
  {
    if 0 <= a {
      DivMonotone(a, b, c);
    } else if b < 0 {
      DivMonotone(-b, -a, c);
    } else {
      DivMonotone(0, b, c);
      DivMonotone(0, -a, c);
    }
  }

  lemma DivMonotone(a: int, b: int, c: int)
    requires c > 0 && 0 <= a <= b
    ensures a / c <= b / c
    ensures 0 <= a / c
  {
    var p, q := a / c, b / c;
    assert a == p * c + a % c && b == q * c + b % c;
    assert q < p ==> (q + 1) * c <= p * c;
    assert p < 0 ==> (p + 1) * c <= 0;
  }

  lemma TruncDivAntitone(a: int, c: int, d: int)
    requires 0 < c <= d && 0 <= a
    ensures TruncDiv(a, d) <= TruncDiv(a, c)
  {
    var p, q := a / d, a / c;
    DivMonotone(0, a, d);
    DivMod(a, d);
    DivMod(a, c);
    OneMoreTimes(q, p, c);
    FactorMonotone(p, c, d);
  }

  lemma FactorMonotone(x: int, c: int, d: int)
    requires c <= d && x >= 0
    ensures x * c <= x * d
  {
  }

  lemma DivScale(m: int, c: int, k: int)
    requires m >= 0 && c > 0 && k > 0
    ensures k * c > 0
    ensures (k * m) / (k * c) == m / c
  {
    var q, r := m / c, m % c;
    assert k * m == q * (k * c) + k * r by {
      assert m == q * c + r;
    }
    assert 0 <= k * r;
    assert k * r < k * c;
    QuotientUnique(k * m, k * c, q);
  }

  lemma TruncDivScale(a: int, b: int, k: int)
    requires b != 0 && k > 0
    ensures k * b != 0
    ensures TruncDiv(k * a, k * b) == TruncDiv(a, b)
  {
    var m := if a >= 0 then a else -a;
    var c := if b > 0 then b else -b;
    DivScale(m, c, k);
    MagnitudeDiv(a, b);
    assert (k * b > 0) == (b > 0) && (k * a >= 0) == (a >= 0) by {
      SignOfProduct(k, a);
      SignOfProduct(k, b);
    }
    MagnitudeDiv(k * a, k * b);
    assert k * m == if a >= 0 then k * a else -(k * a);
    assert k * c == if b > 0 then k * b else -(k * b);
  }

  lemma SignOfProduct(k: int, x: int)
    requires k > 0
    ensures (k * x > 0) == (x > 0) && (k * x >= 0) == (x >= 0)
  {
  }

  /** Truncating division divides the magnitudes and then sets the sign. */
  lemma MagnitudeDiv(a: int, b: int)
    requires b != 0
    ensures var q := (if a >= 0 then a else -a) / (if b > 0 then b else -b);
            TruncDiv(a, b) == if (a >= 0) == (b > 0) then q else -q
  {
    DivByNegative(if a >= 0 then a else -a, b);
  }

  lemma DivByNegative(m: int, b: int)
    requires b != 0 && m >= 0
    ensures b < 0 ==> m / b == -(m / (-b))
  {
    if b < 0 {
      assert m == (m / b) * b + m % b;
      assert (m / b) * b == (-(m / b)) * (-b);
      QuotientUnique(m, -b, -(m / b));
    }
  }

  /** Reinterpreting a u64 difference as s64 is exact below 2^63. */
  lemma SignedDifferenceExact(a: U64, b: U64)
    requires a < TWO63 && b < TWO63
    ensures WrapS64(a - b) == a - b
  {
  }
}

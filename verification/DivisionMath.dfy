// The arithmetic behind the operators: truncating division of integers and
// the scaling of divisor and dividend.
module DivisionMath {
  import opened Digits
  import opened LongDivision

  function Abs(x: int): nat {
    if x < 0 then -x else x
  }

  // Division of C: the quotient is truncated toward zero and the remainder
  // takes the sign of the dividend.
  function TruncQuot(x: int, y: int): int
    requires y != 0
  {
    var q := Abs(x) / Abs(y);
    if (x < 0) == (y < 0) then q else -q
  }

  function TruncRem(x: int, y: int): int
    requires y != 0
  {
    var r := Abs(x) % Abs(y);
    if x < 0 then -r else r
  }

  lemma DivModUnique(x: nat, y: nat, q: int, r: int)
    requires y > 0 && x == q * y + r && 0 <= r < y
    ensures q == x / y && r == x % y
  {
    var d := x / y - q;
    assert x == (x / y) * y + x % y;
    MulLess(x / y, q, y);
    if d > 0 {
      MulLe(1, d, y);
    } else if d < 0 {
      MulLe(1, -d, y);
    }
  }

  lemma SignedProduct(q: int, y: int)
    ensures (-q) * (-y) == q * y && (-q) * y == -(q * y) && q * (-y) == -(q * y)
  {
  }

  // The defining property of C division.
  ghost predicate IsTruncDivision(x: int, y: int, q: int, r: int) {
    && x == q * y + r
    && Abs(r) < Abs(y)
    && (r == 0 || (r < 0 <==> x < 0))
  }

  lemma TruncDivides(x: int, y: int)
    requires y != 0
    ensures IsTruncDivision(x, y, TruncQuot(x, y), TruncRem(x, y))
  {
    var q, r := Abs(x) / Abs(y), Abs(x) % Abs(y);
    assert Abs(x) == q * Abs(y) + r;
    SignedProduct(q, y);
  }

  // No other pair of numbers is a quotient and remainder.
  lemma TruncIsTheOnlyDivision(x: int, y: int, q: int, r: int)
    requires y != 0 && IsTruncDivision(x, y, q, r)
    ensures q == TruncQuot(x, y) && r == TruncRem(x, y)
  {
    SignedProduct(q, y);
    var sq := if (x < 0) == (y < 0) then q else -q;
    var sr := if x < 0 then -r else r;
    DivModUnique(Abs(x), Abs(y), sq, sr);
  }

  function Signed(positive: bool, mag: int): int {
    if positive then mag else -mag
  }

  // Quotient and remainder of signed magnitudes.
  lemma TruncOfMagnitudes(x: nat, y: nat, xPositive: bool, yPositive: bool, q: nat, r: nat)
    requires y > 0 && x == q * y + r && r < y
    ensures TruncQuot(Signed(xPositive, x), Signed(yPositive, y)) == Signed(xPositive == yPositive, q)
    ensures TruncRem(Signed(xPositive, x), Signed(yPositive, y)) == Signed(xPositive, r)
  {
    DivModUnique(x, y, q, r);
    if x == 0 {
      DivModUnique(x, y, 0, 0);
    }
  }

  // ---------------------------------------------------------------- scaling

  // The scale factor brings the divisor's top digit up to half the base.
  lemma ScaleReachesHalf(top: Digit, scale: int)
    requires 0 < top < SINGLE_MAX && scale == BASE / (1 + top)
    ensures 1 <= scale <= BASE / 2
    ensures BASE / 2 <= scale * top < BASE && scale * (top + 1) <= BASE
    ensures scale == 1 ==> BASE / 2 <= top
  {
    DivModFacts(BASE, 1 + top);
    assert scale * (1 + top) == scale * top + scale;
    if scale * top < BASE / 2 {
      assert (scale - 1) * (top - 1) == scale * top - scale - top + 1;
      if scale > 1 && top > 1 {
        MulLe(1, scale - 1, top - 1);
      }
    }
  }

  lemma DivModFacts(x: int, d: int)
    requires d > 0
    ensures x == (x / d) * d + x % d && 0 <= x % d < d
  {
  }

  // A scaled divisor still fits its digits and its top digit has grown by at
  // least the factor.
  lemma ScaledDivisor(y: seq<Digit>, scale: Digit, product: seq<Digit>, carry: Digit)
    requires |y| == |product| > 0
    requires 0 < y[|y| - 1] < SINGLE_MAX && scale == BASE / (1 + y[|y| - 1])
    requires WithHigh(product, carry) == scale * Val(y)
    ensures carry == 0 && BASE / 2 <= product[|y| - 1]
  {
    var n := |y| - 1;
    ScaleReachesHalf(y[n], scale);
    SplitLast(y, 0);
    SplitLast(product, carry);
    ScaledTop(Pow(n), scale, y[n], Val(y[..n]), Val(product[..n]), product[n] + BASE * carry);
  }

  lemma ScaledTop(p: int, scale: int, top: int, low: int, plow: int, ptop: int)
    requires 1 <= p && 0 <= low < p && 0 <= plow < p && 1 <= scale && 0 <= top
    requires plow + p * ptop == scale * (low + p * top)
    ensures scale * top <= ptop < scale * (top + 1)
  {
    ScaledParts(p, scale, top, low);
    MulLe(0, scale, low);
    MulLe(low + 1, p, scale);
    if ptop < scale * top {
      LessByUnit(p, ptop, scale * top);
    }
    if ptop >= scale * (top + 1) {
      AtLeastProduct(p, scale * (top + 1), ptop);
    }
  }

  lemma ScaledParts(p: int, scale: int, top: int, low: int)
    ensures scale * (low + p * top) == low * scale + p * (scale * top)
    ensures (low + 1) * scale == low * scale + scale
    ensures p * (scale * (top + 1)) == p * (scale * top) + p * scale
  {
    assert scale * (p * top) == p * (scale * top);
  }

  lemma LessByUnit(p: int, x: int, y: int)
    requires 1 <= p && x < y
    ensures p * x + p <= p * y
  {
    MulPlus(x, 1, p);
    MulPlus(x + 1, y - x - 1, p);
    MulLe(0, y - x - 1, p);
  }

  lemma AtLeastProduct(p: int, x: int, y: int)
    requires 1 <= p && x <= y
    ensures p * x <= p * y
  {
    MulPlus(x, y - x, p);
    MulLe(0, y - x, p);
  }

  // Scaling both operands by the same factor keeps the quotient, and the
  // scaled remainder divides back without a rest.
  lemma UnscaleRemainder(x: int, y: int, scale: int, q: int, scaledRem: int, rem: int, rest: int)
    requires 0 < scale && 0 < y
    requires scale * x == scaledRem + q * (scale * y) && 0 <= scaledRem < scale * y
    requires scaledRem == rem * scale + rest && 0 <= rest < scale
    ensures x == q * y + rem && 0 <= rem < y && rest == 0
  {
    var d := x - q * y - rem;
    ScaledDifference(x, q * y, rem, scale);
    assert q * (scale * y) == scale * (q * y);
    NoSmallMultiple(d, scale, rest);
    QuotientInRange(rem, y, scale);
  }

  lemma ScaledDifference(x: int, y: int, rem: int, scale: int)
    ensures (x - y - rem) * scale == scale * x - scale * y - rem * scale
  {
  }

  // Only zero is a multiple of scale below it.
  lemma NoSmallMultiple(d: int, scale: int, rest: int)
    requires d * scale == rest && 0 <= rest < scale
    ensures d == 0 && rest == 0
  {
    if d > 0 {
      MulLe(1, d, scale);
    } else if d < 0 {
      MulLe(1, -d, scale);
    }
  }

  lemma QuotientInRange(rem: int, y: int, scale: int)
    requires 0 < scale && 0 <= rem * scale < scale * y
    ensures 0 <= rem < y
  {
    if rem < 0 {
      MulLe(1, -rem, scale);
    }
    if rem >= y {
      AtLeastProduct(scale, y, rem);
    }
  }
}

// Scaling of dividend and divisor before long division, shared by the
// quotient and the remainder operator.
module Scaling {
  import opened Digits
  import opened DigitOps
  import opened LongDivision
  import opened DivisionMath

  lemma Snoc(s: seq<Digit>, d: Digit)
    ensures Val(s + [d]) == WithHigh(s, d)
  {
    HighConcat(s, [d], 0);
    assert WithHigh([d], 0) == d;
  }

  lemma CarryBelowFactor(s: seq<Digit>, product: seq<Digit>, carry: int, factor: int)
    requires |s| == |product| && WithHigh(product, carry) == factor * Val(s) && 1 <= factor
    ensures carry < factor
  {
    hide WithHigh, Val, Pow;
    HighIsPow(product, carry);
    ValBound(product);
    ValBound(s);
    var p := Pow(|s|);
    MulLe(Val(s) + 1, p, factor);
    assert factor * (Val(s) + 1) == factor * Val(s) + factor;
    if carry >= factor {
      MulLe(factor, carry, p);
    }
  }

  // Multiplies the dividend by the scale factor, keeping the digit that
  // overflows.
  method ScaleDividend(a: array<Digit>, al: nat, scale: Digit) returns (n: nat)
    requires 1 <= al && al + 1 <= a.Length && 2 <= scale
    modifies a
    ensures al <= n <= al + 1
    ensures Val(a[..n]) == scale * old(Val(a[..al]))
    ensures n == al + 1 ==> a[al] < scale
    ensures forall j :: al + 1 <= j < a.Length ==> a[j] == old(a[j])
  {
    ghost var s: seq<Digit> := a[..al];
    var c := DigitMulSingle(a, al, scale);
    ghost var low: seq<Digit> := a[..al];
    CarryBelowFactor(s, low, c, scale);
    a[al] := c;
    assert a[..al] == low;
    if c != 0 {
      Snoc(low, c);
      assert a[..al + 1] == low + [c];
      return al + 1;
    }
    return al;
  }

  // Multiplies the divisor by the scale factor: nothing overflows, so the
  // digit returned by digit_mul can be ignored.
  method ScaleDivisor(b: array<Digit>, bl: nat, scale: Digit)
    requires 1 <= bl <= b.Length
    requires 0 < b[bl - 1] < SINGLE_MAX && scale == BASE / (1 + b[bl - 1])
    modifies b
    ensures Val(b[..bl]) == scale * old(Val(b[..bl]))
    ensures BASE / 2 <= b[bl - 1]
  {
    ghost var s: seq<Digit> := b[..bl];
    var c := DigitMulSingle(b, bl, scale);
    ScaledDivisor(s, scale, b[..bl], c);
  }

  // With a smaller top digit, the top of the dividend is below the divisor.
  lemma SmallerTopIsSmaller(a: seq<Digit>, b: seq<Digit>)
    requires |a| == |b| > 0 && a[|a| - 1] < b[|b| - 1]
    ensures Val(a) < Val(b)
  {
    TopDigitDecides(a, b, |a| - 1);
  }

  // The whole preparation: both operands grow by the same factor, the divisor
  // becomes large enough for two decrements of the guess to do, and the
  // dividend takes at most one more digit.
  method ScaleOperands(a: array<Digit>, al: nat, b: array<Digit>, bl: nat, scale: Digit)
    returns (n: nat)
    requires 2 <= bl <= al && bl <= b.Length && al + 1 <= a.Length && a != b
    requires 0 < b[bl - 1] < SINGLE_MAX && scale == BASE / (1 + b[bl - 1])
    modifies a, b
    ensures al <= n <= al + 1
    ensures Val(a[..n]) == scale * old(Val(a[..al]))
    ensures Val(b[..bl]) == scale * old(Val(b[..bl]))
    ensures BASE / 2 <= b[bl - 1]
    ensures Val(a[n - bl..n]) < Val(b[..bl])
  {
    ScaleReachesHalf(b[bl - 1], scale);
    ghost var y: seq<Digit> := b[..bl];
    n := al;
    if scale != 1 {
      n := ScaleDividend(a, al, scale);
      assert b[..bl] == y;
      ghost var x: seq<Digit> := a[..n];
      ScaleDivisor(b, bl, scale);
      assert a[..n] == x;
    }
    if a[n - 1] >= b[bl - 1] {
      assert n == al;
      ghost var x: seq<Digit> := a[..n];
      a[n] := 0;
      Snoc(x, 0);
      assert a[..n + 1] == x + [0];
      n := n + 1;
    }
    SmallerTopIsSmaller(a[n - bl..n], b[..bl]);
  }

  // Scaling followed by long division, in terms of the unscaled operands; x
  // and y are their numbers.
  method ScaleAndDivide(a: array<Digit>, al: nat, b: array<Digit>, bl: nat, scale: Digit, q: array?<Digit>)
    returns (n: nat, ghost qs: seq<Digit>)
    requires 2 <= bl <= al && bl <= b.Length && al + 1 <= a.Length && a != b
    requires q != null ==> q != a && q != b && al + 1 - bl <= q.Length
    requires 0 < b[bl - 1] < SINGLE_MAX && scale == BASE / (1 + b[bl - 1])
    modifies a, b, q
    ensures al <= n <= al + 1 && |qs| == n - bl && (q != null ==> q[..n - bl] == qs)
    ensures Val(a[..bl]) < scale * old(Val(b[..bl]))
    ensures scale * old(Val(a[..al])) == Val(a[..bl]) + Val(qs) * (scale * old(Val(b[..bl])))
  {
    n := ScaleOperands(a, al, b, bl, scale);
    ghost var y: seq<Digit> := b[..bl];
    ghost var x := Val(a[..n]);
    qs := DigitDiv(a, b, bl, q, n - bl);
    assert b[..bl] == y;
  }

  // The quotient of the scaled operands is that of the operands.
  lemma ScaledQuotient(x: int, y: int, scale: int, q: int, scaledRem: int)
    requires 0 < scale && 0 < y
    requires scale * x == scaledRem + q * (scale * y) && 0 <= scaledRem < scale * y
    ensures x == q * y + scaledRem / scale && 0 <= scaledRem / scale < y
  {
    DivModFacts(scaledRem, scale);
    UnscaleRemainder(x, y, scale, q, scaledRem, scaledRem / scale, scaledRem % scale);
  }
}

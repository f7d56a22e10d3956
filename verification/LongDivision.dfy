// Long division of digit strings: Algorithm D of Knuth, The Art of Computer
// Programming, volume 2, section 4.3.1, without its normalisation step.
module LongDivision {
  import opened Digits
  import opened DigitOps

  // ------------------------------------------------------- quotient digit

  // First estimate of guess_q, from two dividend digits and one divisor digit.
  function FirstGuess(r: seq<Digit>, y: seq<Digit>): (q: Digit)
    requires |r| == 3 && |y| == 2
    requires 0 < y[1] && r[2] <= y[1]
    ensures q == SINGLE_MAX || r[2] * BASE + r[1] < (q + 1) * y[1]
    ensures q * y[1] <= r[2] * BASE + r[1]
  {
    if y[1] == r[2] then
      MulLe(SINGLE_MAX, BASE, y[1]);
      SINGLE_MAX
    else
      var num: TwoDig := r[2] as TwoDig * BASE + r[1] as TwoDig;
      QuotientFits(num, y[1]);
      num / y[1]
  }

  // q is the greatest digit whose product with y does not exceed r.
  ghost predicate GreatestDigit(q: int, r: int, y: int) {
    && 0 <= q < BASE
    && q * y <= r
    && (q == SINGLE_MAX || r < (q + 1) * y)
  }

  lemma Val2(y: seq<Digit>)
    requires |y| == 2
    ensures Val(y) == y[0] + BASE * y[1]
  {
    assert WithHigh(y[1..], 0) == y[1];
  }

  lemma Val3(r: seq<Digit>)
    requires |r| == 3
    ensures Val(r) == r[0] + BASE * (r[1] + BASE * r[2])
  {
    assert WithHigh(r[1..][1..], 0) == r[2];
    assert WithHigh(r[1..], 0) == r[1] + BASE * r[2];
  }

  lemma FirstGuessIsEnough(r: seq<Digit>, y: seq<Digit>)
    requires |r| == 3 && |y| == 2
    requires 0 < y[1] && r[2] <= y[1]
    ensures var q := FirstGuess(r, y); q == SINGLE_MAX || Val(r) < (q + 1) * Val(y)
  {
    var q: int := FirstGuess(r, y);
    Val2(y);
    Val3(r);
    MulStep(q + 1, Val(y), y[0], y[1]);
    MulLe(0, q + 1, y[0]);
  }

  lemma MulLess(g: int, k: int, y: int)
    ensures (g - k) * y == g * y - k * y
  {
  }

  // With a divisor scaled to a top digit of at least half the base, the loop
  // of guess_q decrements the first estimate at most twice.
  lemma AtMostTwoDecrements(r: seq<Digit>, y: seq<Digit>, q: int)
    requires |r| == 3 && |y| == 2
    requires BASE / 2 <= y[1] && r[2] <= y[1]
    requires GreatestDigit(q, Val(r), Val(y))
    ensures FirstGuess(r, y) - 2 <= q <= FirstGuess(r, y)
  {
    var g: int := FirstGuess(r, y);
    Val2(y);
    Val3(r);
    FirstGuessIsEnough(r, y);
    if q < g - 2 {
      MulLe(q + 1, g - 2, Val(y));
      MulStep(g - 2, Val(y), y[0], y[1]);
      ProductFits(g - 2, y[0]);
      MulLess(g, 2, y[1]);
      assert false;
    }
    if q > g {
      MulLe(g + 1, q, Val(y));
      assert false;
    }
  }

  // guess_q: r holds the three top digits of the dividend window and y the
  // two top digits of the divisor, least significant first.
  method GuessQ(r: seq<Digit>, y: seq<Digit>) returns (q: Digit)
    requires |r| == 3 && |y| == 2
    requires 0 < y[1] && r[2] <= y[1]
    ensures GreatestDigit(q, Val(r), Val(y))
  {
    q := FirstGuess(r, y);
    FirstGuessIsEnough(r, y);
    Val2(y);
    while true
      invariant q == SINGLE_MAX || Val(r) < (q + 1) * Val(y)
      decreases q
    {
      var t := ThreeDigitProduct(q, y);
      var cmp := DigitCmp(t, r);
      if cmp <= 0 {
        return;
      }
      ZeroOrMore(r);
      q := q - 1;
    }
  }

  // The product that guess_q forms on each round.
  method ThreeDigitProduct(q: Digit, y: seq<Digit>) returns (t: seq<Digit>)
    requires |y| == 2
    ensures |t| == 3 && Val(t) == q * Val(y)
  {
    ProductFits(q, y[0]);
    ProductFits(q, y[1]);
    var p: TwoDig := q as TwoDig * y[0] as TwoDig;
    ghost var p0 := p;
    var t0 := Low(p);
    p := High(p);
    p := p + q as TwoDig * y[1] as TwoDig;
    ThreeDigitValue(q, y, p0, p);
    var t1 := Low(p);
    p := High(p);
    return [t0, t1, Low(p)];
  }

  lemma ThreeDigitValue(q: Digit, y: seq<Digit>, p0: TwoDig, p1: TwoDig)
    requires |y| == 2 && p0 == q * y[0] && p1 == High(p0) + q * y[1]
    ensures Val([Low(p0), Low(p1), Low(High(p1))]) == q * Val(y)
  {
    hide WithHigh, Val, Low, High;
    Split(p0);
    Split(p1);
    LowOfSmall(High(p1));
    Val2(y);
    Val3([Low(p0), Low(p1), Low(High(p1))]);
    MulStep(q, Val(y), y[0], y[1]);
  }

  lemma ZeroOrMore(s: seq<Digit>)
    ensures Val(s) >= 0
  {
    HighSign(s, 0);
  }

  // The two top digits of the divisor fix the quotient digit up to one.  With
  // p the unit of those digits, rLow and yLow are what lies below them.
  lemma GuessNotTooBig(p: int, q: int, rLow: int, rTop: int, yLow: int, yTop: int)
    requires 1 <= p && 0 <= rLow && 0 <= yLow < p
    requires BASE <= yTop && GreatestDigit(q, rTop, yTop)
    ensures (q - 1) * (yLow + p * yTop) <= rLow + p * rTop
  {
    if q >= 1 {
      MulLe(q * yTop, rTop, p);
      MulLe(yLow, p, q - 1);
      MulLe(q - 1, yTop, p);
      assert (q - 1) * (yLow + p * yTop) == (q - 1) * yLow + (q * yTop) * p - yTop * p;
    } else {
      MulLe(0, rTop, p);
      MulLe(0, yTop, p);
    }
  }

  lemma GuessNotTooSmall(p: int, q: int, rLow: int, rTop: int, yLow: int, yTop: int)
    requires 1 <= p && 0 <= rLow < p && 0 <= yLow
    requires GreatestDigit(q, rTop, yTop) && q != SINGLE_MAX && 0 <= rTop
    ensures rLow + p * rTop < (q + 1) * (yLow + p * yTop)
  {
    MulLe(rTop + 1, (q + 1) * yTop, p);
    MulLe(0, q + 1, yLow);
    assert (q + 1) * (yLow + p * yTop) == (q + 1) * yLow + ((q + 1) * yTop) * p;
  }

  lemma SplitTop(s: seq<Digit>, k: nat)
    requires k <= |s|
    ensures Val(s) == Val(s[..k]) + Pow(k) * Val(s[k..])
    ensures 0 <= Val(s[..k]) < Pow(k)
  {
    assert s == s[..k] + s[k..];
    HighConcat(s[..k], s[k..], 0);
    HighIsPow(s[..k], Val(s[k..]));
    ValBound(s[..k]);
  }

  // For a window below BASE times the divisor, whose top digit need not be
  // large, the guessed digit is the quotient digit or one more.
  lemma GuessIsOffByAtMostOne(w: seq<Digit>, y: seq<Digit>, q: int)
    requires 2 <= |y| && |w| == |y| + 1 && y[|y| - 1] != 0
    requires Val(w) < BASE * Val(y)
    requires GreatestDigit(q, Val(w[|y| - 2..]), Val(y[|y| - 2..]))
    ensures (q - 1) * Val(y) <= Val(w) < (q + 1) * Val(y)
  {
    var k := |y| - 2;
    SplitTop(w, k);
    SplitTop(y, k);
    Val2(y[k..]);
    Val3(w[k..]);
    GuessNotTooBig(Pow(k), q, Val(w[..k]), Val(w[k..]), Val(y[..k]), Val(y[k..]));
    if q != SINGLE_MAX {
      GuessNotTooSmall(Pow(k), q, Val(w[..k]), Val(w[k..]), Val(y[..k]), Val(y[k..]));
    }
  }

  // The two top digits that guess_q divides never exceed its range.
  lemma TopDigitAtMost(a: seq<Digit>, b: seq<Digit>)
    requires |a| == |b| > 0 && Val(a) < Val(b)
    ensures a[|a| - 1] <= b[|b| - 1]
  {
    if a[|a| - 1] > b[|b| - 1] {
      TopDigitDecides(b, a, |a| - 1);
    }
  }

  // --------------------------------------------------- subtract and add back

  // The arithmetic of one round of multiply_and_subtract on divisor digit v
  // and window digit x.
  method MulSubDigit(q: Digit, v: Digit, x: Digit, pIn: TwoDig, hIn: TwoDig)
    returns (d: Digit, p: TwoDig, h: TwoDig)
    requires pIn < BASE && hIn <= 1
    ensures p < BASE && h <= 1
    ensures d + BASE * (h - 1 - p) == hIn - 1 + x - (pIn + q * v)
  {
    ProductFits(q, v);
    p := pIn + q as TwoDig * v as TwoDig;
    h := hIn + x as TwoDig;
    h := h + SINGLE_MAX;
    h := h - Low(p);
    d := Low(h);
    p := High(p);
    h := High(h);
  }

  lemma MulSubStep(done: seq<Digit>, d: Digit, q: Digit, c: int, c': int,
                   x: int, w: int, w': int, v: int, s: int, s': int)
    requires w == x + BASE * w' && s == v + BASE * s'
    requires d + BASE * c' == c + x - q * v
    ensures WithHigh(done, c + w - q * s) == WithHigh(done + [d], c' + w' - q * s')
  {
    MulStep(q, s, v, s');
    Advance(done, d, c + w - q * s, c' + w' - q * s');
  }

  // The loop of multiply_and_subtract, up to the top digit of the window.
  method MulSubDigits(r: array<Digit>, at: nat, y: array<Digit>, l: nat, q: Digit)
    returns (p: TwoDig, h: TwoDig)
    requires l <= y.Length && at + l < r.Length && r != y
    modifies r
    ensures p < BASE && h <= 1
    ensures WithHigh(r[at..at + l], h - 1 - p) == old(Val(r[at..at + l])) - q * Val(y[..l])
    ensures forall j :: 0 <= j < at || at + l <= j < r.Length ==> r[j] == old(r[j])
  {
    hide WithHigh, Low, High;
    ghost var w: seq<Digit>, s: seq<Digit> := r[at..at + l], y[..l];
    p := 0;
    h := 1;
    var i := 0;
    assert s[0..] == s && w[0..] == w;
    NoDigits(r[at..at], Val(w) - q * Val(s));
    while i < l
      invariant 0 <= i <= l
      invariant 0 <= p < BASE && 0 <= h <= 1
      invariant forall j :: 0 <= j < at || at + i <= j < r.Length ==> r[j] == old(r[j])
      invariant WithHigh(r[at..at + i], (h - 1 - p) + Val(w[i..]) - q * Val(s[i..])) == Val(w) - q * Val(s)
    {
      ghost var done: seq<Digit>, c: int := r[at..at + i], h - 1 - p;
      assert y[i] == s[i] && r[at + i] == w[i];
      var d;
      d, p, h := MulSubDigit(q, y[i], r[at + i], p, h);
      ValDrop(s, i);
      ValDrop(w, i);
      MulSubStep(done, d, q, c, h - 1 - p, w[i], Val(w[i..]), Val(w[i + 1..]), s[i], Val(s[i..]), Val(s[i + 1..]));
      r[at + i] := d;
      i := i + 1;
      assert r[at..at + i] == done + [d];
    }
    NoDigits(s[i..], 0);
    NoDigits(w[i..], 0);
    assert y[..l] == s;
  }

  // multiply_and_subtract on the window of l + 1 digits at offset at; the
  // result is 0 exactly when the product exceeds the window.
  method MultiplyAndSubtract(r: array<Digit>, at: nat, y: array<Digit>, l: nat, q: Digit)
    returns (flag: Digit)
    requires l <= y.Length && at + l < r.Length && r != y
    modifies r
    ensures flag <= 1
    ensures WithHigh(r[at..at + l + 1], flag - 1) == old(Val(r[at..at + l + 1])) - q * Val(y[..l])
    ensures forall j :: 0 <= j < at || at + l < j < r.Length ==> r[j] == old(r[j])
  {
    ghost var w: seq<Digit>, top: Digit := r[at..at + l], r[at + l];
    assert r[at..at + l + 1] == w + [top];
    HighConcat(w, [top], 0);
    var p, h := MulSubDigits(r, at, y, l, q);
    ghost var done: seq<Digit>, high: int := r[at..at + l], h - 1 - p;
    h := h + r[at + l] as TwoDig;
    h := h + SINGLE_MAX;
    h := h - p;
    r[at + l] := Low(h);
    assert r[at..at + l + 1] == done + [r[at + l]];
    Split(h);
    Advance(done, Low(h), high + top, High(h) - 1);
    HighAdd(w, done, top, 0, high);
    return High(h);
  }

  // add_back: the carry out of the top digit is dropped.
  method AddBack(r: array<Digit>, at: nat, y: array<Digit>, l: nat) returns (ghost carry: int)
    requires l <= y.Length && at + l < r.Length && r != y
    modifies r
    ensures 0 <= carry <= 1
    ensures WithHigh(r[at..at + l], carry) == old(Val(r[at..at + l])) + Val(y[..l])
    ensures r[at + l] == 0
    ensures forall j :: 0 <= j < at || at + l < j < r.Length ==> r[j] == old(r[j])
  {
    hide WithHigh, Low, High;
    ghost var w: seq<Digit>, s: seq<Digit> := r[at..at + l], y[..l];
    ghost var done: seq<Digit> := [];
    NoDigits(done, Val(w) + Val(s));
    var h: TwoDig := 0;
    var i := 0;
    assert s[0..] == s && w[0..] == w;
    while i < l
      invariant 0 <= i <= l && |done| == i
      invariant 0 <= h <= 1
      invariant forall j :: 0 <= j < at || at + i <= j < r.Length ==> r[j] == old(r[j])
      invariant forall j :: at <= j < at + i ==> r[j] == done[j - at]
      invariant WithHigh(done, h + Val(w[i..]) + Val(s[i..])) == Val(w) + Val(s)
    {
      ghost var high: int := h + Val(w[i..]) + Val(s[i..]);
      assert y[i] == s[i];
      ValDrop(s, i);
      assert r[at + i] == w[i];
      ValDrop(w, i);
      h := h + r[at + i] as TwoDig;
      h := h + y[i] as TwoDig;
      Split(h);
      Advance(done, Low(h), high, High(h) + Val(w[i + 1..]) + Val(s[i + 1..]));
      done := done + [Low(h)];
      r[at + i] := Low(h);
      h := High(h);
      i := i + 1;
    }
    NoDigits(s[i..], 0);
    NoDigits(w[i..], 0);
    carry := h;
    r[at + l] := 0;
    assert r[at..at + l] == done;
  }

  // ------------------------------------------------------------ the division

  // After a product that was one divisor too large, adding the divisor back
  // and dropping the carry leaves exactly the remainder.
  lemma AddBackIsExact(low: seq<Digit>, top: Digit, back: seq<Digit>, carry: int, rem: int, y: int)
    requires |low| == |back| && 0 <= carry <= 1
    requires WithHigh(low + [top], -1) == rem - y
    requires WithHigh(back, carry) == Val(low) + y
    requires 0 <= rem
    ensures Val(back) == rem
  {
    HighConcat(low, [top], -1);
    assert WithHigh([top], -1) == top - BASE;
    HighAdd(low, back, top - BASE, 0, carry);
    HighSign(back, carry + top - BASE);
  }

  // A remainder below the divisor leaves nothing in the window's top digit.
  lemma TopDigitIsZero(low: seq<Digit>, top: Digit, y: seq<Digit>)
    requires |low| == |y| && Val(low + [top]) < Val(y)
    ensures Val(low + [top]) == Val(low)
  {
    HighConcat(low, [top], 0);
    assert WithHigh([top], 0) == top;
    if top > 0 {
      HighBound(y, low, 0, top);
    }
  }

  // The quotient digit is q or q - 1, by the sign of what q leaves over.
  lemma OffByOne(q: int, y: int, w: int)
    requires (q - 1) * y <= w < (q + 1) * y && 0 <= q && 0 <= w
    ensures q * y <= w ==> 0 <= w - q * y < y
    ensures w < q * y ==> 0 <= w - (q - 1) * y < y && 1 <= q
    ensures (q - 1) * y == q * y - y
  {
    MulPlus(q, -1, y);
    MulPlus(q, 1, y);
  }

  // One round of the loop of digit_div: the window at offset at shrinks to its
  // remainder and the quotient digit is exact.
  method DivideWindow(r: array<Digit>, at: nat, y: array<Digit>, l: nat) returns (qh: Digit)
    requires 2 <= l <= y.Length && at + l < r.Length && r != y
    requires y[l - 1] != 0
    requires Val(r[at + 1..at + l + 1]) < Val(y[..l])
    modifies r
    ensures old(Val(r[at..at + l + 1])) == qh * Val(y[..l]) + Val(r[at..at + l])
    ensures Val(r[at..at + l]) < Val(y[..l])
    ensures forall j :: 0 <= j < at || at + l < j < r.Length ==> r[j] == old(r[j])
  {
    ghost var w: seq<Digit>, s: seq<Digit> := r[at..at + l + 1], y[..l];
    assert w[1..] == r[at + 1..at + l + 1];
    TopDigitAtMost(w[1..], s);
    assert w[l - 2..] == r[at + l - 2..at + l + 1] && s[l - 2..] == y[l - 2..l];
    qh := GuessQ(r[at + l - 2..at + l + 1], y[l - 2..l]);
    GuessIsOffByAtMostOne(w, s, qh);
    ValBound(w);
    OffByOne(qh, Val(s), Val(w));
    var flag := MultiplyAndSubtract(r, at, y, l, qh);
    ghost var low: seq<Digit>, top: Digit := r[at..at + l], r[at + l];
    assert y[..l] == s && r[at..at + l + 1] == low + [top];
    HighSign(low + [top], flag as int - 1);
    if flag == 0 {
      qh := qh - 1;
      ghost var carry := AddBack(r, at, y, l);
      AddBackIsExact(low, top, r[at..at + l], carry, Val(w) - qh * Val(s), Val(s));
      assert y[..l] == s;
    } else {
      TopDigitIsZero(low, top, s);
    }
  }

  lemma MulPlus(a: int, b: int, k: int)
    ensures (a + b) * k == a * k + b * k
  {
  }

  // Bringing down digit x: the window w over it gives quotient digit q.
  lemma QuotientStep(low: seq<Digit>, x: Digit, w: int, w': int, q: Digit, qs: seq<Digit>, y: int)
    requires x + BASE * w == q * y + w'
    ensures WithHigh(low + [x], w + Val(qs) * y) == WithHigh(low, w' + Val([q] + qs) * y)
  {
    var v := Val(qs);
    assert ([q] + qs)[1..] == qs;
    MulStep(y, q + BASE * v, q, v);
    Advance(low, x, x + BASE * (w + v * y), w + v * y);
  }

  // The guarded store of one quotient digit.
  method StoreDigit(q: array?<Digit>, i: nat, ql: nat, qh: Digit, ghost qs: seq<Digit>)
    requires q != null ==> i < ql <= q.Length && q[i + 1..ql] == qs
    modifies q
    ensures q != null ==> q[i..ql] == [qh] + qs
  {
    if q != null {
      q[i] := qh;
    }
  }

  // digit_div: divides the yl + ql digits of r by y.  The remainder is left in
  // the low digits of r, the quotient goes to q unless q is null.
  method DigitDiv(r: array<Digit>, y: array<Digit>, yl: nat, q: array?<Digit>, ql: nat)
    returns (ghost qs: seq<Digit>)
    requires 2 <= yl <= y.Length && yl + ql <= r.Length && r != y
    requires q != null ==> q != r && q != y && ql <= q.Length
    requires y[yl - 1] != 0
    requires Val(r[ql..ql + yl]) < Val(y[..yl])
    modifies r, q
    ensures |qs| == ql && (q != null ==> q[..ql] == qs)
    ensures old(Val(r[..ql + yl])) == Val(r[..yl]) + Val(qs) * Val(y[..yl])
    ensures Val(r[..yl]) < Val(y[..yl])
  {
    hide WithHigh;
    ghost var s: seq<Digit>, all: seq<Digit> := y[..yl], r[..ql + yl];
    var i := ql;
    qs := [];
    NoDigits(qs, 0);
    assert all == all[..ql] + all[ql..] && all[ql..] == r[ql..ql + yl] && all[..ql] == r[..ql];
    HighConcat(all[..ql], all[ql..], 0);
    while i > 0
      invariant 0 <= i <= ql
      invariant y[..yl] == s
      invariant |qs| == ql - i
      invariant q != null ==> q[i..ql] == qs
      invariant Val(r[i..i + yl]) < Val(s)
      invariant WithHigh(r[..i], Val(r[i..i + yl]) + Val(qs) * Val(s)) == Val(all)
    {
      i := i - 1;
      ghost var low: seq<Digit>, x: Digit, w: int := r[..i], r[i], Val(r[i + 1..i + 1 + yl]);
      assert r[..i + 1] == low + [x];
      ghost var window: seq<Digit> := r[i..i + 1 + yl];
      ValDrop(window, 0);
      assert window[0..] == window && window[1..] == r[i + 1..i + 1 + yl];
      var qh := DivideWindow(r, i, y, yl);
      assert y[..yl] == s && r[..i] == low;
      ghost var rem: seq<Digit> := r[i..i + yl];
      QuotientStep(low, x, w, Val(rem), qh, qs, Val(s));
      StoreDigit(q, i, ql, qh, qs);
      assert y[..yl] == s && r[..i] == low && r[i..i + yl] == rem;
      qs := [qh] + qs;
    }
    NoDigits(r[..0], Val(r[..yl]) + Val(qs) * Val(s));
  }
}

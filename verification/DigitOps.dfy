// The primitives on unsigned digit strings: carry and borrow loops that write
// their result into a buffer, which may be one of the operands.
module DigitOps {
  import opened Digits

  function Sign(x: int): int {
    if x < 0 then -1 else if x > 0 then 1 else 0
  }

  // ---------------------------------------------------------------- compare

  lemma TopDigitDecides(a: seq<Digit>, b: seq<Digit>, i: nat)
    requires |a| == |b| && i < |a|
    requires a[i + 1..] == b[i + 1..] && a[i] < b[i]
    ensures Val(a) < Val(b)
  {
    assert a == a[..i] + a[i..] && b == b[..i] + b[i..];
    HighConcat(a[..i], a[i..], 0);
    HighConcat(b[..i], b[i..], 0);
    assert a[i..][1..] == a[i + 1..];
    ValDrop(b, i);
    HighBound(a[..i], b[..i], Val(a[i..]), Val(b[i..]));
  }

  // digit_cmp: the three-way comparison is that of the numbers.
  method DigitCmp(a: seq<Digit>, b: seq<Digit>) returns (r: int)
    requires |a| == |b|
    ensures r == Sign(Val(a) - Val(b))
  {
    var i := |a|;
    while i > 0
      invariant 0 <= i <= |a|
      invariant a[i..] == b[i..]
    {
      i := i - 1;
      if a[i] < b[i] {
        TopDigitDecides(a, b, i);
        return -1;
      }
      if a[i] > b[i] {
        TopDigitDecides(b, a, i);
        return 1;
      }
    }
    assert a == a[0..] && b == b[0..];
    return 0;
  }

  // -------------------------------------------------------- add and subtract

  // The copy label shared by digit_add and digit_sub: the remaining digits of
  // d1 go to r unless they are there already.
  method CopyRest(d1: array<Digit>, from: nat, l1: nat, r: array<Digit>)
    requires from <= l1 <= d1.Length && l1 <= r.Length
    modifies r
    ensures r[..l1] == old(r[..from]) + old(d1[from..l1])
    ensures forall j :: l1 <= j < r.Length ==> r[j] == old(r[j])
  {
    if r != d1 {
      var i := from;
      while i < l1
        invariant from <= i <= l1
        invariant forall j :: 0 <= j < from || l1 <= j < r.Length ==> r[j] == old(r[j])
        invariant forall j :: from <= j < i ==> r[j] == d1[j]
      {
        r[i] := d1[i];
        i := i + 1;
      }
    }
  }

  // First loop of digit_add: both operands still have digits.
  method AddCommon(d1: array<Digit>, l1: nat, d2: array<Digit>, l2: nat, r: array<Digit>)
    returns (c: TwoDig)
    requires l2 <= l1 <= d1.Length && l2 <= d2.Length && l1 <= r.Length
    modifies r
    ensures c <= 1
    ensures WithHigh(r[..l2], c + Val(old(d1[l2..l1]))) == old(Val(d1[..l1])) + old(Val(d2[..l2]))
    ensures forall j :: l2 <= j < r.Length ==> r[j] == old(r[j])
  {
    hide WithHigh, Low, High;
    ghost var s1: seq<Digit>, s2: seq<Digit> := d1[..l1], d2[..l2];
    c := 0;
    var i := 0;
    assert s1[0..] == s1 && s2[0..] == s2;
    NoDigits(r[..0], Val(s1) + Val(s2));
    while i < l2
      invariant 0 <= i <= l2
      invariant 0 <= c <= 1
      invariant forall j :: i <= j < r.Length ==> r[j] == old(r[j])
      invariant WithHigh(r[..i], c + Val(s1[i..]) + Val(s2[i..])) == Val(s1) + Val(s2)
    {
      ghost var done: seq<Digit>, high: int := r[..i], c + Val(s1[i..]) + Val(s2[i..]);
      assert d1[i] == s1[i] && d2[i] == s2[i];
      c := c + (d1[i] as TwoDig + d2[i] as TwoDig);
      Split(c);
      r[i] := Low(c);
      c := High(c);
      i := i + 1;
      assert r[..i] == done + [r[i - 1]];
      ValDrop(s1, i - 1);
      ValDrop(s2, i - 1);
      Advance(done, r[i - 1], high, c + Val(s1[i..]) + Val(s2[i..]));
    }
    NoDigits(s2[i..], 0);
    assert s1[l2..] == old(d1[l2..l1]);
  }

  // Second loop of digit_add: only the carry is left to add.
  method AddCarry(d1: array<Digit>, from: nat, l1: nat, r: array<Digit>, carryIn: TwoDig)
    returns (c: TwoDig)
    requires from <= l1 <= d1.Length && l1 <= r.Length && carryIn <= 1
    modifies r
    ensures c <= 1
    ensures WithHigh(r[..l1], c) == old(WithHigh(r[..from], carryIn + Val(d1[from..l1])))
    ensures forall j :: l1 <= j < r.Length ==> r[j] == old(r[j])
  {
    ghost var s1: seq<Digit> := d1[..l1];
    ghost var sum := WithHigh(r[..from], carryIn + Val(s1[from..]));
    c := carryIn;
    var i := from;
    assert s1[from..] == d1[from..l1];
    while i < l1
      invariant from <= i <= l1
      invariant 0 <= c <= 1
      invariant forall j :: i <= j < r.Length ==> r[j] == old(r[j])
      invariant WithHigh(r[..i], c + Val(s1[i..])) == sum
    {
      ghost var done: seq<Digit>, high: int := r[..i], c + Val(s1[i..]);
      assert d1[i] == s1[i];
      c := c + d1[i] as TwoDig;
      r[i] := Low(c);
      c := High(c);
      i := i + 1;
      assert r[..i] == done + [r[i - 1]];
      ValDrop(s1, i - 1);
      Advance(done, r[i - 1], high, c + Val(s1[i..]));
      if c == 0 {
        break;
      }
    }
    if c == 0 {
      HighConcat(r[..i], s1[i..], 0);
      assert s1[i..] == d1[i..l1];
      CopyRest(d1, i, l1, r);
    }
  }

  // digit_add: r may be d1 or d2.
  method DigitAdd(d1: array<Digit>, l1: nat, d2: array<Digit>, l2: nat, r: array<Digit>)
    returns (carry: Digit)
    requires l2 <= l1 <= d1.Length && l2 <= d2.Length && l1 <= r.Length
    modifies r
    ensures WithHigh(r[..l1], carry) == old(Val(d1[..l1])) + old(Val(d2[..l2]))
    ensures carry <= 1
    ensures forall j :: l1 <= j < r.Length ==> r[j] == old(r[j])
  {
    var c := AddCommon(d1, l1, d2, l2, r);
    assert old(d1[l2..l1]) == d1[l2..l1];
    c := AddCarry(d1, l2, l1, r, c);
    return c;
  }

  // First loop of digit_sub: carry 1 means that nothing is borrowed.
  method SubCommon(d1: array<Digit>, l1: nat, d2: array<Digit>, l2: nat, r: array<Digit>)
    returns (c: TwoDig)
    requires l2 <= l1 <= d1.Length && l2 <= d2.Length && l1 <= r.Length
    modifies r
    ensures c <= 1
    ensures WithHigh(r[..l2], c - 1 + Val(old(d1[l2..l1]))) == old(Val(d1[..l1])) - old(Val(d2[..l2]))
    ensures forall j :: l2 <= j < r.Length ==> r[j] == old(r[j])
  {
    hide WithHigh, Low, High;
    ghost var s1: seq<Digit>, s2: seq<Digit> := d1[..l1], d2[..l2];
    c := 1;
    var i := 0;
    assert s1[0..] == s1 && s2[0..] == s2;
    NoDigits(r[..0], Val(s1) - Val(s2));
    while i < l2
      invariant 0 <= i <= l2
      invariant 0 <= c <= 1
      invariant forall j :: i <= j < r.Length ==> r[j] == old(r[j])
      invariant WithHigh(r[..i], c - 1 + Val(s1[i..]) - Val(s2[i..])) == Val(s1) - Val(s2)
    {
      ghost var done: seq<Digit>, high: int := r[..i], c - 1 + Val(s1[i..]) - Val(s2[i..]);
      assert d1[i] == s1[i] && d2[i] == s2[i];
      c := c + (d1[i] as TwoDig + SINGLE_MAX - d2[i] as TwoDig);
      Split(c);
      r[i] := Low(c);
      c := High(c);
      i := i + 1;
      assert r[..i] == done + [r[i - 1]];
      ValDrop(s1, i - 1);
      ValDrop(s2, i - 1);
      Advance(done, r[i - 1], high, c - 1 + Val(s1[i..]) - Val(s2[i..]));
    }
    NoDigits(s2[i..], 0);
    assert s1[l2..] == old(d1[l2..l1]);
  }

  // Second loop of digit_sub: only the borrow is left to subtract.
  method SubBorrow(d1: array<Digit>, from: nat, l1: nat, r: array<Digit>, carryIn: TwoDig)
    returns (ghost c: int)
    requires from <= l1 <= d1.Length && l1 <= r.Length && carryIn <= 1
    modifies r
    ensures 0 <= c <= 1
    ensures WithHigh(r[..l1], c - 1) == old(WithHigh(r[..from], carryIn - 1 + Val(d1[from..l1])))
    ensures forall j :: l1 <= j < r.Length ==> r[j] == old(r[j])
  {
    ghost var s1: seq<Digit> := d1[..l1];
    ghost var diff := WithHigh(r[..from], carryIn - 1 + Val(s1[from..]));
    var k: TwoDig := carryIn;
    var i := from;
    assert s1[from..] == d1[from..l1];
    while i < l1
      invariant from <= i <= l1
      invariant 0 <= k <= 1
      invariant forall j :: i <= j < r.Length ==> r[j] == old(r[j])
      invariant WithHigh(r[..i], k - 1 + Val(s1[i..])) == diff
    {
      if k != 0 {
        break;
      }
      ghost var done: seq<Digit>, high: int := r[..i], k - 1 + Val(s1[i..]);
      assert d1[i] == s1[i];
      k := d1[i] as TwoDig + SINGLE_MAX;
      r[i] := Low(k);
      k := High(k);
      i := i + 1;
      assert r[..i] == done + [r[i - 1]];
      ValDrop(s1, i - 1);
      Advance(done, r[i - 1], high, k - 1 + Val(s1[i..]));
    }
    if k != 0 {
      HighConcat(r[..i], s1[i..], 0);
      assert s1[i..] == d1[i..l1];
      CopyRest(d1, i, l1, r);
    }
    return k;
  }

  // digit_sub: r may be d1 or d2; the greater operand comes first.
  method DigitSub(d1: array<Digit>, l1: nat, d2: array<Digit>, l2: nat, r: array<Digit>)
    requires l2 <= l1 <= d1.Length && l2 <= d2.Length && l1 <= r.Length
    requires Val(d2[..l2]) <= Val(d1[..l1])
    modifies r
    ensures Val(r[..l1]) == old(Val(d1[..l1])) - old(Val(d2[..l2]))
    ensures forall j :: l1 <= j < r.Length ==> r[j] == old(r[j])
  {
    var c := SubCommon(d1, l1, d2, l2, r);
    assert old(d1[l2..l1]) == d1[l2..l1];
    ghost var k := SubBorrow(d1, l2, l1, r, c);
    HighSign(r[..l1], k - 1);
  }

  // ------------------------------------------------------------- multiply

  // A product of two digits leaves room for two more digits in a twodig_t.
  lemma ProductFits(x: Digit, y: Digit)
    ensures 0 <= x * y <= SINGLE_MAX * SINGLE_MAX
  {
    MulLe(x, SINGLE_MAX, y);
  }

  lemma MulStep(d: int, v: int, x: int, w: int)
    requires v == x + BASE * w
    ensures d * v == d * x + BASE * (d * w)
  {
  }

  // A multiplication step consumes digit x, the lowest of the number v.
  lemma MulAdvance(done: seq<Digit>, digit: Digit, p: int, p': int, d: Digit, x: Digit, v: int, w: int)
    requires p + d * x == digit + BASE * p'
    requires v == x + BASE * w
    ensures WithHigh(done, p + d * v) == WithHigh(done + [digit], p' + d * w)
  {
    MulStep(d, v, x, w);
    Advance(done, digit, p + d * v, p' + d * w);
  }

  // digit_mul by a single digit: product in place, overflowing digit returned.
  method DigitMulSingle(b: array<Digit>, l: nat, d: Digit) returns (overflow: Digit)
    requires l <= b.Length
    modifies b
    ensures WithHigh(b[..l], overflow) == d * old(Val(b[..l]))
    ensures forall j :: l <= j < b.Length ==> b[j] == old(b[j])
  {
    hide WithHigh, Low, High;
    ghost var s: seq<Digit> := b[..l];
    var p: TwoDig := 0;
    var i := 0;
    assert s[0..] == s;
    NoDigits(b[..0], d * Val(s));
    while i < l
      invariant 0 <= i <= l
      invariant 0 <= p < BASE
      invariant forall j :: i <= j < b.Length ==> b[j] == old(b[j])
      invariant WithHigh(b[..i], p + d * Val(s[i..])) == d * Val(s)
    {
      ghost var done: seq<Digit>, pIn: int := b[..i], p;
      assert b[i] == s[i];
      ValDrop(s, i);
      ProductFits(d, b[i]);
      p := p + d as TwoDig * b[i] as TwoDig;
      Split(p);
      MulAdvance(done, Low(p), pIn, High(p), d, s[i], Val(s[i..]), Val(s[i + 1..]));
      b[i] := Low(p);
      p := High(p);
      i := i + 1;
      assert b[..i] == done + [b[i - 1]];
    }
    NoDigits(s[i..], 0);
    return p;
  }

  // Inner loop of the two-string digit_mul: adds d * b to the window of r
  // that starts at offset at and returns the carry.
  method MulRow(d: Digit, b: array<Digit>, lb: nat, r: array<Digit>, at: nat) returns (p: TwoDig)
    requires lb <= b.Length && at + lb < r.Length && r != b
    modifies r
    ensures p < BASE
    ensures WithHigh(r[at..at + lb], p) == old(Val(r[at..at + lb])) + d * Val(b[..lb])
    ensures forall j :: 0 <= j < at || at + lb <= j < r.Length ==> r[j] == old(r[j])
  {
    hide WithHigh, Low, High;
    ghost var w: seq<Digit>, s: seq<Digit> := r[at..at + lb], b[..lb];
    NoDigits(r[at..at], Val(w) + d * Val(s));
    p := 0;
    var j := 0;
    assert s[0..] == s && w[0..] == w;
    while j < lb
      invariant 0 <= j <= lb
      invariant 0 <= p < BASE
      invariant forall k :: 0 <= k < at || at + j <= k < r.Length ==> r[k] == old(r[k])
      invariant WithHigh(r[at..at + j], (p + Val(w[j..])) + d * Val(s[j..])) == Val(w) + d * Val(s)
    {
      ghost var done: seq<Digit>, pIn: int := r[at..at + j], p;
      assert b[j] == s[j];
      ValDrop(s, j);
      assert r[at + j] == w[j];
      ValDrop(w, j);
      ProductFits(d, b[j]);
      p := p + (r[at + j] as TwoDig + d as TwoDig * b[j] as TwoDig);
      Split(p);
      MulAdvance(done, Low(p), pIn + Val(w[j..]), High(p) + Val(w[j + 1..]),
        d, s[j], Val(s[j..]), Val(s[j + 1..]));
      r[at + j] := Low(p);
      p := High(p);
      j := j + 1;
      assert r[at..at + j] == done + [r[at + j - 1]];
    }
    assert s[j..] == [] && w[j..] == [] && b[..lb] == s;
    NoDigits(s[j..], 0);
  }

  // One pass of the outer loop: the digit above the window takes the carry.
  method AddRow(d: Digit, b: array<Digit>, lb: nat, r: array<Digit>, at: nat)
    requires lb <= b.Length && at + lb < r.Length && r != b
    modifies r
    ensures Val(r[at..at + lb + 1]) == old(Val(r[at..at + lb])) + d * Val(b[..lb])
    ensures forall j :: 0 <= j < at || at + lb < j < r.Length ==> r[j] == old(r[j])
  {
    ghost var s: seq<Digit> := b[..lb];
    var p := MulRow(d, b, lb, r, at);
    ghost var done: seq<Digit> := r[at..at + lb];
    r[at + lb] := p;
    assert r[at..at + lb + 1] == done + [r[at + lb]] && b[..lb] == s;
    Advance(done, r[at + lb], p, 0);
  }

  // The lowest digit of the window, which held w, becomes final.
  lemma RowStep(low: seq<Digit>, w: int, window: seq<Digit>, rest: seq<Digit>, vb: int)
    requires |window| > 0 && |rest| > 0
    requires Val(window) == w + rest[0] * vb
    ensures WithHigh(low, w + Val(rest) * vb) == WithHigh(low + [window[0]], Val(window[1..]) + Val(rest[1..]) * vb)
  {
    MulStep(vb, Val(rest), rest[0], Val(rest[1..]));
    Advance(low, window[0], w + Val(rest) * vb, Val(window[1..]) + Val(rest[1..]) * vb);
  }

  // The two-string digit_mul: schoolbook product into a separate buffer.
  method DigitMul(a: array<Digit>, la: nat, b: array<Digit>, lb: nat, r: array<Digit>)
    requires la <= a.Length && lb <= b.Length && la + lb <= r.Length
    requires r != a && r != b
    modifies r
    ensures Val(r[..la + lb]) == Val(a[..la]) * Val(b[..lb])
  {
    hide WithHigh;
    ghost var sa: seq<Digit>, sb: seq<Digit> := a[..la], b[..lb];
    ghost var vb := Val(sb);
    forall k | 0 <= k < la + lb {
      r[k] := 0;
    }
    ghost var zeros: seq<Digit> := r[..lb];
    ZeroVal(zeros);
    var i := 0;
    assert sa[0..] == sa && r[0..lb] == zeros;
    NoDigits(r[..0], Val(zeros) + Val(sa) * vb);
    while i < la
      invariant 0 <= i <= la
      invariant WithHigh(r[..i], Val(r[i..i + lb]) + Val(sa[i..]) * vb) == Val(sa) * vb
    {
      ghost var low: seq<Digit>, w: int := r[..i], Val(r[i..i + lb]);
      assert a[i] == sa[i..][0] && sa[i..][1..] == sa[i + 1..];
      AddRow(a[i], b, lb, r, i);
      assert b[..lb] == sb;
      ghost var window: seq<Digit> := r[i..i + lb + 1];
      assert window[1..] == r[i + 1..i + 1 + lb];
      assert r[..i + 1] == low + [window[0]];
      RowStep(low, w, window, sa[i..], vb);
      i := i + 1;
    }
    NoDigits(sa[i..], 0);
    assert a[..la] == sa && b[..lb] == sb;
    assert r[..la + lb] == r[..la] + r[la..la + lb];
    HighConcat(r[..la], r[la..la + lb], 0);
  }

  lemma {:induction false} ZeroVal(s: seq<Digit>)
    requires forall k :: 0 <= k < |s| ==> s[k] == 0
    ensures Val(s) == 0
  {
    if |s| > 0 {
      ZeroVal(s[1..]);
    }
  }

  // ---------------------------------------------------------------- divide

  lemma DivStep(d: int, q: int, r: int, x: int, r': int, v: int, w: int)
    requires r * BASE + x == q * d + r'
    requires v == w * d + r
    ensures x + BASE * v == (q + BASE * w) * d + r'
  {
  }

  // digit_div by a single digit: quotient in place, remainder returned.
  method DigitDivSingle(b: array<Digit>, l: nat, d: Digit) returns (rem: Digit)
    requires l <= b.Length && d > 0
    modifies b
    ensures old(Val(b[..l])) == Val(b[..l]) * d + rem && rem < d
    ensures forall j :: l <= j < b.Length ==> b[j] == old(b[j])
  {
    ghost var s: seq<Digit> := b[..l];
    var r: TwoDig := 0;
    var i := l;
    while i > 0
      invariant 0 <= i <= l
      invariant 0 <= r < d
      invariant forall j :: 0 <= j < i || l <= j < b.Length ==> b[j] == old(b[j])
      invariant Val(s[i..]) == Val(b[i..l]) * d + r
    {
      i := i - 1;
      ghost var hi: seq<Digit>, rIn: int := b[i + 1..l], r;
      assert b[i] == s[i];
      ValDrop(s, i);
      r := r * BASE;
      r := r + b[i] as TwoDig;
      QuotientFits(r, d);
      DivStep(d, r / d, rIn, s[i], r % d, Val(s[i + 1..]), Val(hi));
      b[i] := r / d;
      r := r % d;
      assert b[i..l][1..] == hi;
    }
    assert s[0..] == s && b[0..l] == b[..l];
    return r;
  }

  lemma QuotientFits(r: int, d: int)
    requires 0 < d && 0 <= r < d * BASE
    ensures 0 <= r / d < BASE && r == (r / d) * d + r % d && 0 <= r % d < d
  {
  }
}

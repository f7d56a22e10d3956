// Little-endian digit strings in base 2^32 and the number they stand for.
module Digits {

  const BASE: int := 0x1_0000_0000
  const SINGLE_MAX: int := 0xFFFF_FFFF
  const SINGLE_BITS: int := 32

  // onedig_t and twodig_t.  Every variable of type TwoDig carries the proof
  // that the 64-bit arithmetic of the source never wraps around.
  type Digit = x: int | 0 <= x < 0x1_0000_0000
  type TwoDig = x: int | 0 <= x < 0x1_0000_0000_0000_0000

  // Conversion onedig_t(c) and shift c >>= single_bits.
  function Low(c: TwoDig): Digit {
    c % BASE
  }

  function High(c: TwoDig): Digit {
    c / BASE
  }

  // The number with low digits s and with high as its part above them, that
  // is Val(s) + high * BASE^|s|.  The high part may be negative.
  ghost function WithHigh(s: seq<Digit>, high: int): int {
    if |s| == 0 then high else s[0] + BASE * WithHigh(s[1..], high)
  }

  // The number a digit string stands for, least significant digit first.
  ghost function Val(s: seq<Digit>): int {
    WithHigh(s, 0)
  }

  lemma NoDigits(s: seq<Digit>, high: int)
    requires |s| == 0
    ensures WithHigh(s, high) == high
  {
  }

  lemma ValDrop(s: seq<Digit>, i: nat)
    requires i < |s|
    ensures Val(s[i..]) == s[i] + BASE * Val(s[i + 1..])
  {
    assert s[i..][1..] == s[i + 1..];
  }

  lemma Single(d: Digit, high: int)
    ensures WithHigh([d], high) == d + BASE * high
  {
  }

  ghost function Pow(k: nat): int
    ensures Pow(k) >= 1
  {
    if k == 0 then 1 else BASE * Pow(k - 1)
  }

  lemma {:induction false} HighConcat(s: seq<Digit>, t: seq<Digit>, high: int)
    ensures WithHigh(s + t, high) == WithHigh(s, WithHigh(t, high))
  {
    if |s| == 0 {
      assert s + t == t;
    } else {
      assert (s + t)[1..] == s[1..] + t;
      HighConcat(s[1..], t, high);
    }
  }

  // One step of every loop that walks up from the least significant digit:
  // digit d becomes final and high' is still to be produced.
  lemma Advance(done: seq<Digit>, d: Digit, high: int, high': int)
    requires high == d + BASE * high'
    ensures WithHigh(done, high) == WithHigh(done + [d], high')
  {
    HighConcat(done, [d], high');
    assert [d][1..] == [];
  }

  lemma {:induction false} HighSign(s: seq<Digit>, x: int)
    ensures x < 0 <==> WithHigh(s, x) < 0
  {
    if |s| > 0 {
      HighSign(s[1..], x);
    }
  }

  // Raising the high part adds the same amount above any digits.
  lemma {:induction false} HighAdd(s: seq<Digit>, t: seq<Digit>, d: int, x: int, y: int)
    requires |s| == |t|
    ensures WithHigh(s, x + d) - WithHigh(s, x) == WithHigh(t, y + d) - WithHigh(t, y)
  {
    if |s| > 0 {
      HighAdd(s[1..], t[1..], d, x, y);
    }
  }

  lemma {:induction false} HighBound(s: seq<Digit>, t: seq<Digit>, x: int, y: int)
    requires |s| == |t| && x < y
    ensures WithHigh(s, x) < WithHigh(t, y)
  {
    if |s| > 0 {
      HighBound(s[1..], t[1..], x, y);
    }
  }

  lemma Split(c: TwoDig)
    ensures c == Low(c) + BASE * High(c)
    ensures High(c) < BASE
  {
  }

  lemma LowOfSmall(c: TwoDig)
    requires c < BASE
    ensures Low(c) == c
  {
  }

  lemma MulLe(x: int, y: int, k: int)
    requires 0 <= x <= y && 0 <= k
    ensures 0 <= x * k <= y * k
  {
  }

  lemma MulBase(p: int, x: int)
    ensures BASE * (p * x) == (BASE * p) * x
  {
  }

  lemma {:induction false} HighIsPow(s: seq<Digit>, high: int)
    ensures WithHigh(s, high) == Val(s) + Pow(|s|) * high
  {
    if |s| > 0 {
      HighIsPow(s[1..], high);
      MulBase(Pow(|s| - 1), high);
    }
  }

  lemma {:induction false} ValBound(s: seq<Digit>)
    ensures 0 <= Val(s) < Pow(|s|)
  {
    if |s| > 0 {
      ValBound(s[1..]);
    }
  }

  // The same number seen from its top digit.
  lemma SplitLast(s: seq<Digit>, high: int)
    requires |s| > 0
    ensures var n := |s| - 1;
      && WithHigh(s, high) == Val(s[..n]) + Pow(n) * (s[n] + BASE * high)
      && 0 <= Val(s[..n]) < Pow(n)
  {
    hide WithHigh, Pow;
    var n := |s| - 1;
    assert s == s[..n] + [s[n]];
    HighConcat(s[..n], [s[n]], high);
    Single(s[n], high);
    HighIsPow(s[..n], s[n] + BASE * high);
    ValBound(s[..n]);
  }
}

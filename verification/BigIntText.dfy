// Text input and output of big integers.
module BigIntText {
  import opened Digits
  import opened DigitOps
  import opened DivisionMath
  import opened Scaling
  import opened BigInts
  import opened Numerals

  datatype Option<T> = None | Some(value: T)

  // ------------------------------------------------------------------ input

  // While scanning, zero may be held as a single zero digit.
  predicate Scanned(s: seq<Digit>) {
    Trimmed(s) || s == [0]
  }

  // Multiplies the magnitude by the base.
  method ScaleByBase(x: BigInt, b: Digit)
    requires x.Valid() && Scanned(x.digit[..x.length]) && b > 0
    modifies x, x.digit
    ensures x.Valid() && Scanned(x.digit[..x.length])
    ensures x.Mag() == b * old(x.Mag()) && x.positive == old(x.positive)
    ensures x.digit == old(x.digit) || fresh(x.digit)
    ensures x.length == 0 <==> old(x.length) == 0
  {
    ghost var s: seq<Digit> := x.digit[..x.length];
    var r := DigitMulSingle(x.digit, x.length, b);
    ghost var product: seq<Digit> := x.digit[..x.length];
    if r != 0 {
      x.Resize(x.length + 1);
      assert x.digit[..x.length] == product;
      x.digit[x.length] := r;
      x.length := x.length + 1;
      assert x.digit[..x.length] == product + [r];
      Snoc(product, r);
    } else if s == [0] {
      Single(0, 0);
      Single(product[0], 0);
      assert product == [product[0]];
    } else {
      TrimmedZero(s);
      MulLe(1, b, Val(s));
      GreaterIsTrimmed(product, s);
    }
  }

  // Adds one digit to a non-empty magnitude.
  method AddDigit(x: BigInt, dig: Digit)
    requires x.Valid() && x.length > 0 && Scanned(x.digit[..x.length])
    modifies x, x.digit
    ensures x.Valid() && x.length > 0 && Scanned(x.digit[..x.length])
    ensures x.Mag() == old(x.Mag()) + dig && x.positive == old(x.positive)
    ensures x.digit == old(x.digit) || fresh(x.digit)
  {
    ghost var s: seq<Digit> := x.digit[..x.length];
    var one := new Digit[1];
    one[0] := dig;
    assert one[..1] == [dig];
    Single(dig, 0);
    var r := DigitAdd(x.digit, x.length, one, 1, x.digit);
    ghost var sum: seq<Digit> := x.digit[..x.length];
    if r != 0 {
      x.Resize(x.length + 1);
      assert x.digit[..x.length] == sum;
      x.digit[x.length] := r;
      x.length := x.length + 1;
      assert x.digit[..x.length] == sum + [r];
      Snoc(sum, r);
    } else if s == [0] {
      assert sum == [sum[0]];
    } else {
      GreaterIsTrimmed(sum, s);
    }
  }

  // One round of scan_on.
  method ConsumeDigit(x: BigInt, dig: Digit, b: Digit)
    requires x.Valid() && Scanned(x.digit[..x.length]) && b > 0
    modifies x, x.digit
    ensures x.Valid() && x.length > 0 && Scanned(x.digit[..x.length])
    ensures x.Mag() == old(x.Mag()) * b + dig && x.positive == old(x.positive)
    ensures x.digit == old(x.digit) || fresh(x.digit)
  {
    hide WithHigh;
    TrimmedZero([]);
    assert x.length == 0 ==> x.digit[..x.length] == [];
    ScaleByBase(x, b);
    if x.length == 0 {
      x.length := 1;
      x.digit[0] := dig;
      assert x.digit[..x.length] == [dig];
      Single(dig, 0);
    } else {
      AddDigit(x, dig);
    }
  }

  lemma ScannedIsTrimmedUnlessZero(s: seq<Digit>)
    requires Scanned(s) && |s| > 0
    ensures Trimmed(s) <==> Val(s) != 0
  {
    Single(0, 0);
    if Trimmed(s) {
      TrimmedZero(s);
    }
  }

  lemma FoldOfNothing(acc: int, s: string, b: nat)
    requires s == ""
    ensures Fold(acc, s, b) == acc
  {
  }

  lemma FoldStep(acc: int, s: string, c: char, b: nat)
    requires forall i :: 0 <= i < |s| ==> IsDigitOf(s[i], b)
    requires IsDigitOf(c, b)
    ensures Fold(acc, s + [c], b) == Fold(acc, s, b) * b + DigitValue(c)
  {
    assert (s + [c])[..|s|] == s;
  }

  // The loop of scan_on.
  method ScanDigits(x: BigInt, s: string, i: nat, b: Digit) returns (stop: nat)
    requires x.Valid() && Scanned(x.digit[..x.length]) && i <= |s|
    modifies x, x.digit
    ensures x.Valid() && Scanned(x.digit[..x.length])
    ensures stop == ScanStop(s, i, b)
    ensures x.Mag() == Fold(old(x.Mag()), s[i..stop], b)
    ensures x.digit == old(x.digit) || fresh(x.digit)
    ensures x.positive == old(x.positive)
    ensures if stop == i then x.digit[..x.length] == old(x.digit[..x.length]) else x.length > 0
  {
    hide Fold, WithHigh, DigitValue;
    stop := i;
    ghost var acc := x.Mag();
    ghost var text := [];
    FoldOfNothing(acc, text, b);
    while stop < |s|
      invariant x.Valid() && Scanned(x.digit[..x.length]) && i <= stop <= |s|
      invariant x.digit == old(x.digit) || fresh(x.digit)
      invariant x.positive == old(x.positive)
      invariant if stop == i then x.digit[..x.length] == old(x.digit[..x.length]) else x.length > 0
      invariant ScanStop(s, i, b) == ScanStop(s, stop, b)
      invariant text == s[i..stop] && forall k :: 0 <= k < |text| ==> IsDigitOf(text[k], b)
      invariant x.Mag() == Fold(acc, text, b)
    {
      var dig := DigitValue(s[stop]);
      if dig < 0 || dig >= b {
        break;
      }
      FoldStep(acc, text, s[stop], b);
      text := text + [s[stop]];
      ConsumeDigit(x, dig, b);
      stop := stop + 1;
    }
  }

  // scan_on: continues the magnitude with the digits of s from position i and
  // returns where it stopped.  Stopping short of the end skips adjust(), so a
  // zero that was written out keeps its digit.
  method ScanOn(x: BigInt, s: string, i: nat, b: Digit) returns (stop: nat)
    requires x.Valid() && Trimmed(x.digit[..x.length]) && i <= |s| && '\0' !in s
    modifies x, x.digit
    ensures x.Valid() && stop == ScanStop(s, i, b)
    ensures x.Mag() == Fold(old(x.Mag()), s[i..stop], b)
    ensures x.digit == old(x.digit) || fresh(x.digit)
    ensures stop == |s| ==> x.Canonical() && (x.Mag() != 0 ==> x.positive == old(x.positive))
    ensures stop < |s| ==> x.positive == old(x.positive)
    ensures stop < |s| ==> (x.Canonical() <==> x.Mag() != 0 || (stop == i && x.positive))
  {
    ghost var before: seq<Digit> := x.digit[..x.length];
    TrimmedZero(before);
    stop := ScanDigits(x, s, i, b);
    assert s[i..i] == [];
    if stop == |s| {
      x.Adjust();
      assert x.length == 0 ==> x.digit[..x.length] == [];
    } else if stop > i {
      ScannedIsTrimmedUnlessZero(x.digit[..x.length]);
    } else {
      assert Trimmed(x.digit[..x.length]);
    }
  }

  // Length of an optional sign.
  function SignLength(s: string): nat {
    if |s| > 0 && (s[0] == '-' || s[0] == '+') then 1 else 0
  }

  // scan: an optional sign, then digits.  A plus sign does not make a negative
  // receiver positive, and the result is canonical unless zero was written out
  // or given a minus sign in a text that is not consumed to its end.
  method Scan(x: BigInt, s: string, b: Digit) returns (stop: nat)
    requires x.Valid() && x.Canonical() && '\0' !in s
    modifies x, x.digit
    ensures x.Valid() && stop == ScanStop(s, SignLength(s), b)
    ensures x.Mag() == Fold(old(x.Mag()), s[SignLength(s)..stop], b)
    ensures x.Mag() != 0 ==> x.positive == (old(x.positive) && (|s| == 0 || s[0] != '-'))
    ensures x.Canonical() <==>
      (stop == |s| || x.Mag() != 0 || (stop == SignLength(s) && (old(x.positive) && s[0] != '-')))
    ensures x.digit == old(x.digit) || fresh(x.digit)
  {
    if |s| > 0 && s[0] == '-' {
      x.positive := false;
      stop := ScanOn(x, s, 1, b);
    } else if |s| > 0 && s[0] == '+' {
      stop := ScanOn(x, s, 1, b);
    } else {
      stop := ScanOn(x, s, 0, b);
    }
  }

  // ----------------------------------------------------------------- output

  lemma LargeIsTrimmed(s: seq<Digit>)
    requires |s| > 0 && Pow(|s| - 1) <= Val(s)
    ensures Trimmed(s)
  {
    SplitLast(s, 0);
  }

  lemma PowOfNextDigit(k: nat)
    ensures Pow(k + 1) == BASE * Pow(k)
  {
  }

  lemma SmallQuotient(v: int, q: int, b: int, rem: int, p: int)
    requires v == q * b + rem && 0 <= rem < b <= BASE && 0 <= q < p
    ensures v < BASE * p
  {
    MulLe(q + 1, p, b);
    MulLe(b, BASE, p);
    assert (q + 1) * b == q * b + b;
  }

  // Dividing by a small base clears at most the top digit, so dropping one
  // digit leaves a non-zero top digit or nothing.
  lemma AtMostOneDigitCleared(s: seq<Digit>, q: seq<Digit>, b: Digit, rem: int)
    requires |s| == |q| > 0 && Trimmed(s) && 2 <= b
    requires Val(s) == Val(q) * b + rem && 0 <= rem < b
    ensures q[|q| - 1] == 0 ==> Trimmed(q[..|q| - 1]) && Val(q[..|q| - 1]) == Val(q)
  {
    hide WithHigh, Pow;
    var n := |q| - 1;
    if q[n] == 0 {
      assert q == q[..n] + [0];
      Snoc(q[..n], 0);
      if n > 0 {
        TrimmedIsLarge(s);
        HighSign(q, 0);
        PowOfNextDigit(n - 1);
        if Val(q) < Pow(n - 1) {
          SmallQuotient(Val(s), Val(q), b, rem, Pow(n - 1));
          assert false;
        }
        LargeIsTrimmed(q[..n]);
      }
    }
  }

  // One round of as_string: the remainder is the next digit from the right.
  lemma NextDigit(v: int, q: int, r: int, b: nat)
    requires 2 <= b <= 36 && 0 < v && v == q * b + r && 0 <= r < b
    ensures 0 <= q && Numeral(v, b) == Numeral(q, b) + [DigitChar(r)]
  {
    DivModUnique(v, b, q, r);
    QuotientIsSmaller(v, b);
  }

  // The division loop of as_string: writes the numeral of v = Val(dig[..len])
  // right-adjusted before position l; None when it does not fit.
  method WriteDigits(dig: array<Digit>, len: nat, p: array<char>, l: nat, b: Digit) returns (at: Option<nat>)
    requires 0 < len <= dig.Length && Trimmed(dig[..len])
    requires l <= p.Length && 2 <= b <= 36
    modifies dig, p
    ensures at.Some? <==> |Numeral(old(Val(dig[..len])), b)| <= l
    ensures at.Some? ==> at.value <= l && p[at.value..l] == Numeral(old(Val(dig[..len])), b)
    ensures forall j :: l <= j < p.Length ==> p[j] == old(p[j])
  {
    hide Numeral, WithHigh;
    ghost var v := Val(dig[..len]);
    var n, i := len, l;
    TrimmedZero(dig[..len]);
    ghost var tail := [];
    NumeralOfZero(b);
    while n > 0
      invariant 0 <= n <= len && 0 <= i <= l
      invariant Trimmed(dig[..n]) && 0 <= Val(dig[..n]) && (n > 0 || Val(dig[..n]) == 0)
      invariant p[i..l] == tail
      invariant forall j :: l <= j < p.Length ==> p[j] == old(p[j])
      invariant Numeral(v, b) == Numeral(Val(dig[..n]), b) + tail
      decreases n, Val(dig[..n])
    {
      ghost var s: seq<Digit> := dig[..n];
      TrimmedZero(s);
      if i == 0 {
        NumeralNotEmpty(Val(s), b);
        return None;
      }
      var r := DigitDivSingle(dig, n, b);
      ghost var q: seq<Digit> := dig[..n];
      AtMostOneDigitCleared(s, q, b, r);
      HighSign(q, 0);
      NextDigit(Val(s), Val(q), r, b);
      QuotientDrops(Val(s), Val(q), b, r);
      i := i - 1;
      p[i] := DigitChar(r);
      tail := [p[i]] + tail;
      if dig[n - 1] == 0 {
        n := n - 1;
        assert dig[..n] == q[..n];
      }
      TrimmedZero(dig[..n]);
    }
    assert dig[..n] == [];
    NoDigits(dig[..n], 0);
    return Some(i);
  }

  lemma NumeralOfZero(b: nat)
    requires 2 <= b <= 36
    ensures Numeral(0, b) == ""
  {
  }

  lemma NumeralNotEmpty(v: nat, b: nat)
    requires 2 <= b <= 36 && 0 < v
    ensures |Numeral(v, b)| > 0
  {
  }

  lemma QuotientDrops(v: int, q: int, b: int, r: int)
    requires 0 < v && v == q * b + r && 0 <= r && 2 <= b && 0 <= q
    ensures q < v
  {
    MulLe(2, b, q);
  }

  // The division works on a copy of the digits.
  method WriteCopy(x: BigInt, len: nat, p: array<char>, l: nat, b: Digit) returns (at: Option<nat>)
    requires x.Valid() && 0 < len <= x.length && Trimmed(x.digit[..len])
    requires l <= p.Length && 2 <= b <= 36
    modifies p
    ensures at.Some? <==> |Numeral(Val(x.digit[..len]), b)| <= l
    ensures at.Some? ==> at.value <= l && p[at.value..l] == Numeral(Val(x.digit[..len]), b)
    ensures forall j :: l <= j < p.Length ==> p[j] == old(p[j])
  {
    hide Numeral, WithHigh;
    var dig := CopyDigits(x.digit, len, 0);
    at := WriteDigits(dig, len, p, l, b);
  }

  // Number of digits without leading zeros.
  method SignificantLength(x: BigInt) returns (len: nat)
    requires x.Valid()
    ensures len <= x.length && Trimmed(x.digit[..len]) && Val(x.digit[..len]) == x.Mag()
    ensures len == 0 <==> x.Mag() == 0
  {
    len := x.length;
    while len > 0 && x.digit[len - 1] == 0
      invariant 0 <= len <= x.length
      invariant Val(x.digit[..len]) == x.Mag()
    {
      ghost var s: seq<Digit> := x.digit[..len - 1];
      assert x.digit[..len] == s + [0];
      Snoc(s, 0);
      len := len - 1;
    }
    TrimmedZero(x.digit[..len]);
  }

  // The sign before the digits.
  method PutMinus(p: array<char>, i: nat, k: nat) returns (at: Option<nat>)
    requires i <= k <= p.Length
    modifies p
    ensures at.Some? <==> i > 0
    ensures at.Some? ==> at.value == i - 1 && p[at.value..k] == ['-'] + old(p[i..k])
    ensures forall j :: k <= j < p.Length ==> p[j] == old(p[j])
  {
    if i == 0 {
      return None;
    }
    p[i - 1] := '-';
    return Some(i - 1);
  }

  // as_string: right-adjusted in l characters with a terminating NUL; None
  // stands for the null pointer.
  method AsString(x: BigInt, p: array<char>, l: nat, b: Digit) returns (at: Option<nat>)
    requires x.Valid() && l <= p.Length && 2 <= b <= 36
    modifies p
    ensures at.Some? <==> |Text(x.Value(), b)| + 1 <= l
    ensures at.Some? ==>
      at.value + |Text(x.Value(), b)| + 1 == l && p[at.value..l] == Text(x.Value(), b) + ['\0']
    ensures forall j :: l <= j < p.Length ==> p[j] == old(p[j])
  {
    hide Numeral, Text, WithHigh;
    ghost var v := x.Value();
    TextNotEmpty(v, b);
    TextParts(v, b);
    if l < 2 {
      return None;
    }
    var k := l - 1;
    p[k] := '\0';
    var len := SignificantLength(x);
    if len == 0 {
      k := k - 1;
      p[k] := '0';
      return Some(k);
    }
    TrimmedZero(x.digit[..len]);
    at := WriteCopy(x, len, p, k, b);
    if at.Some? && !x.positive {
      at := PutMinus(p, at.value, k);
    }
    if at.Some? {
      assert p[at.value..l] == p[at.value..k] + ['\0'];
    }
  }

  lemma TextParts(v: int, b: nat)
    requires 2 <= b <= 36
    ensures Text(v, b) == if v == 0 then ['0'] else if v < 0 then ['-'] + Numeral(-v, b) else Numeral(v, b)
  {
  }

  lemma TextNotEmpty(v: int, b: nat)
    requires 2 <= b <= 36
    ensures |Text(v, b)| > 0
  {
    NumeralNotEmpty(if v < 0 then -v else if v == 0 then 1 else v, b);
  }

  // ------------------------------------------------------------- round trip

  lemma FoldOfZero(b: nat)
    requires 2 <= b <= 36
    ensures IsDigitOf('0', b) && Fold(0, "0", b) == 0
  {
    FoldOfNothing(0, "", b);
    FoldStep(0, "", '0', b);
    assert "" + ['0'] == "0";
  }

  // Scanning the text of a number stops at its end and gives its magnitude.
  lemma ScanOfText(v: int, b: nat)
    requires 2 <= b <= 36
    ensures var s := Text(v, b); var i := SignLength(s);
      && '\0' !in s
      && ScanStop(s, i, b) == |s|
      && Fold(0, s[i..|s|], b) == Abs(v)
      && (s[0] == '-' <==> v < 0)
  {
    hide Numeral, Fold, DigitValue;
    var s := Text(v, b);
    FoldDigits(Abs(v), b);
    TextNotEmpty(v, b);
    if v == 0 {
      assert s[0..|s|] == "0";
      FoldOfZero(b);
    } else if v < 0 {
      assert s[1..|s|] == Numeral(-v, b);
    } else {
      assert s[0..|s|] == Numeral(v, b);
    }
    forall k | SignLength(s) <= k < |s| ensures IsDigitOf(s[k], b) {
      assert s[SignLength(s)..|s|][k - SignLength(s)] == s[k];
    }
    ScanTakesAll(s, SignLength(s), b);
  }

  // The same for the numeral in lower case.
  lemma ScanOfLowerText(v: int, b: nat)
    requires 2 <= b <= 36
    ensures var s := Lower(Text(v, b)); var i := SignLength(s);
      && ScanStop(s, i, b) == |s|
      && Fold(0, s[i..|s|], b) == Abs(v)
      && (s[0] == '-' <==> v < 0)
  {
    hide Numeral, Fold, DigitValue, Text;
    var s := Text(v, b);
    ScanOfText(v, b);
    TextNotEmpty(v, b);
    ReadingIgnoresCase(0, s, SignLength(s), b);
    assert SignLength(Lower(s)) == SignLength(s);
  }

  // A plus sign is read over.
  lemma PlusIsReadOver(t: string, b: nat)
    requires t == "" || (t[0] != '-' && t[0] != '+')
    ensures var s := "+" + t; var i, j := ScanStop(s, SignLength(s), b), ScanStop(t, SignLength(t), b);
      i == j + 1 && s[SignLength(s)..i] == t[SignLength(t)..j]
  {
    ScanBehind("+", t, 0, b);
  }

  lemma {:induction false} ScanBehind(before: string, t: string, i: nat, b: nat)
    requires i <= |t|
    ensures ScanStop(before + t, |before| + i, b) == |before| + ScanStop(t, i, b)
    decreases |t| - i
  {
    if i < |t| {
      ScanBehind(before, t, i + 1, b);
    }
  }

  // The constructor from text: scan into a new object.
  method FromText(s: string, b: Digit) returns (y: BigInt, stop: nat)
    requires '\0' !in s
    ensures fresh(y) && y.Valid() && stop == ScanStop(s, SignLength(s), b)
    ensures y.Mag() == Fold(0, s[SignLength(s)..stop], b)
    ensures y.Mag() != 0 ==> y.positive == (|s| == 0 || s[0] != '-')
    ensures stop == |s| ==> y.Canonical()
  {
    y := new BigInt();
    assert y.digit[..y.length] == [];
    stop := Scan(y, s, b);
  }

  lemma PrintedText(line: string, text: string, s: string)
    requires line == text + ['\0'] && |s| == |text| && s == line[..|text|]
    ensures s == text
  {
  }

  // Printing a number and scanning the text into a new object gives the
  // number back, sign included.
  method PrintThenScan(x: BigInt, p: array<char>, b: Digit) returns (y: BigInt)
    requires x.Valid() && 2 <= b <= 36
    requires |Text(x.Value(), b)| + 1 <= p.Length
    modifies p
    ensures y.Valid() && y.Canonical() && y.Value() == x.Value()
  {
    ghost var v := x.Value();
    var at := AsString(x, p, p.Length, b);
    var s := p[at.value..p.Length - 1];
    PrintedText(p[at.value..p.Length], Text(v, b), s);
    ScanOfText(v, b);
    var stop;
    y, stop := FromText(s, b);
  }

  // ------------------------------------------------------- size of the text

  ghost function Log2(b: nat): nat
    requires b > 0
    decreases b
  {
    if b == 1 then 0 else 1 + Log2(b / 2)
  }

  // The greatest power of two that does not exceed b.
  lemma {:induction false} Log2Bound(b: nat)
    requires b > 0
    ensures PowOf(2, Log2(b)) <= b < PowOf(2, Log2(b) + 1)
    decreases b
  {
    if b > 1 {
      Log2Bound(b / 2);
    }
  }

  // digits: an upper bound for the number of digits in base b.
  method DigitsBound(x: BigInt, b: Digit) returns (n: nat)
    requires x.Valid() && 2 <= b <= 36
    ensures n == (SINGLE_BITS * x.length + Log2(b) - 1) / Log2(b)
    ensures |Text(x.Value(), b)| + 1 <= n + 2
  {
    var bits := -1;
    var rest := b;
    while rest > 0
      invariant 0 <= rest && bits >= -1 && (bits >= 0 || rest > 0)
      invariant if rest == 0 then bits == Log2(b) else bits + 1 + Log2(rest) == Log2(b)
      decreases rest
    {
      bits := bits + 1;
      rest := rest / 2;
    }
    assert bits > 0;
    n := (SINGLE_BITS * x.length + bits - 1) / bits;
    TextFits(x.digit[..x.length], b, n);
    HighSign(x.digit[..x.length], 0);
  }

  lemma {:induction false} PowOfProduct(b: nat, k: nat, m: nat)
    requires b >= 1
    ensures PowOf(b, k * m) == PowOf(PowOf(b, k), m)
    decreases m
  {
    if m > 0 {
      PowOfProduct(b, k, m - 1);
      assert k * m == k + k * (m - 1);
      PowOfSum(b, k, k * (m - 1));
    } else {
      assert k * m == 0;
    }
  }

  lemma Regroup(x: int, y: int, z: int)
    ensures x * (y * z) == (x * y) * z
  {
  }

  lemma {:induction false} PowOfSum(b: nat, i: nat, j: nat)
    ensures PowOf(b, i + j) == PowOf(b, i) * PowOf(b, j)
  {
    if i > 0 {
      PowOfSum(b, i - 1, j);
      Regroup(b, PowOf(b, i - 1), PowOf(b, j));
      assert PowOf(b, i + j) == b * PowOf(b, i - 1 + j);
    }
  }

  lemma {:induction false} PowOfMono(a: nat, b: nat, k: nat)
    requires a <= b
    ensures PowOf(a, k) <= PowOf(b, k)
  {
    if k > 0 {
      PowOfMono(a, b, k - 1);
      MulLe(a, b, PowOf(a, k - 1));
      MulLe(PowOf(a, k - 1), PowOf(b, k - 1), b);
    }
  }

  lemma {:induction false} PowOfGrows(b: nat, i: nat, j: nat)
    requires 1 <= b && i <= j
    ensures 1 <= PowOf(b, i) <= PowOf(b, j)
    decreases j
  {
    if i < j {
      PowOfGrows(b, i, j - 1);
      MulLe(1, b, PowOf(b, j - 1));
    } else if i > 0 {
      PowOfGrows(b, i - 1, i - 1);
      MulLe(1, b, PowOf(b, i - 1));
    }
  }

  lemma {:induction false} BaseIsPowerOfTwo(k: nat)
    ensures PowOf(PowOf(2, 32), k) == Pow(k)
  {
    Pow32();
    if k > 0 {
      BaseIsPowerOfTwo(k - 1);
    }
  }

  lemma Pow32()
    ensures PowOf(2, 32) == BASE
  {
    PowOfSum(2, 16, 16);
    PowOfSum(2, 8, 8);
    PowOfSum(2, 4, 4);
    assert PowOf(2, 4) == 16;
  }

  // The numeral never outgrows the bound: base^bound reaches 2^(32 length).
  lemma TextFits(s: seq<Digit>, b: nat, n: nat)
    requires 2 <= b <= 36 && n == (SINGLE_BITS * |s| + Log2(b) - 1) / Log2(b)
    ensures |Numeral(Val(s), b)| <= n
  {
    hide PowOf, Pow, Numeral, WithHigh;
    var k := Log2(b);
    DivModFacts(SINGLE_BITS * |s| + k - 1, k);
    assert SINGLE_BITS * |s| <= k * n;
    PowOfGrows(2, SINGLE_BITS * |s|, k * n);
    PowOfProduct(2, 32, |s|);
    BaseIsPowerOfTwo(|s|);
    PowOfProduct(2, k, n);
    Log2Bound(b);
    PowOfMono(PowOf(2, k), b, n);
    ValBound(s);
    DigitCount(Val(s), b, n);
  }
}

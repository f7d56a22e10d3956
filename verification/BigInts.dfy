// Signed-magnitude integers of any size, updated in place.
module BigInts {
  import opened Digits
  import opened DigitOps
  import opened DivisionMath
  import opened Scaling

  // Number of onedig_t digits in a ullong_t.
  const SMALL: nat := 2

  // Allocation sizes: at least one digit more than a ullong_t, rounded up to a
  // granularity of 32 bytes less the 8 bytes of bookkeeping.
  function AdjustSize(size: nat): (r: nat)
    ensures r >= size && r > SMALL
  {
    var s := if size <= SMALL then SMALL + 1 else size;
    ((s * 4 + 8 + 31) / 32 * 32 - 8) / 4
  }

  // The least size that has room for the digits, and for one more than a
  // ullong_t, and takes whole 32-byte units together with the bookkeeping.
  lemma AllocationSizes(size: nat)
    ensures (4 * AdjustSize(size) + 8) % 32 == 0
    ensures forall r: nat :: size <= r && SMALL < r && (4 * r + 8) % 32 == 0 ==> AdjustSize(size) <= r
  {
  }

  // A digit string without leading zeros.
  predicate Trimmed(s: seq<Digit>) {
    |s| == 0 || s[|s| - 1] != 0
  }

  lemma {:induction false} PowMono(i: nat, j: nat)
    requires i <= j
    ensures Pow(i) <= Pow(j)
    decreases j
  {
    if i < j {
      PowMono(i, j - 1);
    }
  }

  lemma TrimmedIsLarge(s: seq<Digit>)
    requires |s| > 0 && Trimmed(s)
    ensures Pow(|s| - 1) <= Val(s)
  {
    SplitLast(s, 0);
    MulLe(1, s[|s| - 1], Pow(|s| - 1));
  }

  lemma LongerIsGreater(s: seq<Digit>, t: seq<Digit>)
    requires |s| > |t| && Trimmed(s)
    ensures Val(s) > Val(t)
  {
    TrimmedIsLarge(s);
    ValBound(t);
    PowMono(|t|, |s| - 1);
  }

  // A string that is no smaller than a trimmed one of its length is trimmed.
  lemma GreaterIsTrimmed(s: seq<Digit>, t: seq<Digit>)
    requires |s| == |t| && Trimmed(t) && Val(t) <= Val(s)
    ensures Trimmed(s)
  {
    if |s| > 0 && s[|s| - 1] == 0 {
      TopDigitDecides(s, t, |s| - 1);
    }
  }

  lemma TrimmedZero(s: seq<Digit>)
    requires Trimmed(s)
    ensures Val(s) >= 0 && (Val(s) == 0 <==> |s| == 0)
  {
    HighSign(s, 0);
    if |s| > 0 {
      TrimmedIsLarge(s);
    }
  }

  lemma PositiveProduct(a: int, b: int)
    requires 0 < a && 0 < b
    ensures 0 < a * b && a * b == b * a
  {
  }

  lemma MagnitudeOrder(s: seq<Digit>, t: seq<Digit>)
    requires Trimmed(s) && Trimmed(t)
    ensures |s| > |t| ==> Val(s) > Val(t)
    ensures |s| < |t| ==> Val(s) < Val(t)
  {
    if |s| > |t| {
      LongerIsGreater(s, t);
    } else if |s| < |t| {
      LongerIsGreater(t, s);
    }
  }

  datatype DivOutcome =
    | Completed
    | ZeroDivision // the error branch: message and abort
    | Trap         // one plus the divisor's top digit wraps to zero

  // digit_set: stores an elementary unsigned number.
  method DigitSet(ul: TwoDig, d: array<Digit>) returns (l: nat)
    requires SMALL <= d.Length
    modifies d
    ensures l <= SMALL && Val(d[..l]) == ul && Trimmed(d[..l])
    ensures forall j :: SMALL <= j < d.Length ==> d[j] == old(d[j])
  {
    l := 0;
    if ul != 0 {
      d[0] := Low(ul);
      l := 1;
      var rest := High(ul);
      if rest != 0 {
        d[1] := Low(rest);
        l := 2;
        assert d[..2] == [d[0]] + [d[1]];
        Snoc([d[0]], d[1]);
        assert WithHigh([d[0]], d[1]) == ul;
      } else {
        assert d[..1] == [d[0]];
        assert WithHigh([d[0]], 0) == ul;
      }
    }
  }

  // Two digits hold what is left modulo 2^64 when a digit is shifted in.
  lemma ShiftIn(d: Digit, v: int, ul: TwoDig)
    requires ul == v % 0x1_0000_0000_0000_0000
    ensures Low(ul) * BASE + d == (d + BASE * v) % 0x1_0000_0000_0000_0000
  {
    var m := 0x1_0000_0000_0000_0000;
    var q := High(ul) + BASE * (v / m);
    assert v == (v / m) * m + ul && ul == High(ul) * BASE + Low(ul);
    RemainderOfWhole(d + BASE * v, q, Low(ul) * BASE + d);
  }

  lemma RemainderOfWhole(x: int, q: int, r: int)
    requires x == q * 0x1_0000_0000_0000_0000 + r && 0 <= r < 0x1_0000_0000_0000_0000
    ensures r == x % 0x1_0000_0000_0000_0000
  {
  }

  class BigInt {
    var size: nat
    var length: nat
    var digit: array<Digit>
    var positive: bool

    ghost predicate Valid()
      reads this
    {
      length <= size == digit.Length && SMALL < size
    }

    ghost function Mag(): int
      requires Valid()
      reads this, digit
    {
      Val(digit[..length])
    }

    ghost function Value(): int
      requires Valid()
      reads this, digit
    {
      if positive then Mag() else -Mag()
    }

    // No leading zeros and no negative zero.
    ghost predicate Canonical()
      requires Valid()
      reads this, digit
    {
      Trimmed(digit[..length]) && (length == 0 ==> positive)
    }

    constructor ()
      ensures Valid() && Canonical() && Value() == 0 && length == 0 && positive
      ensures fresh(digit) && size == AdjustSize(SMALL)
    {
      size := AdjustSize(SMALL);
      length := 0;
      digit := new Digit[AdjustSize(SMALL)];
      positive := true;
    }

    // Copy constructor.
    constructor Copy(y: BigInt)
      requires y.Valid()
      ensures Valid() && fresh(digit) && size == AdjustSize(y.length)
      ensures length == y.length && digit[..length] == y.digit[..length] && positive == y.positive
    {
      var n := AdjustSize(y.length);
      var d := new Digit[n];
      forall j | 0 <= j < y.length {
        d[j] := y.digit[j];
      }
      size, length, digit, positive := n, y.length, d, y.positive;
    }

    // The move operations and operator= are swaps.
    method Swap(other: BigInt)
      modifies this, other
      ensures size == old(other.size) && length == old(other.length)
      ensures digit == old(other.digit) && positive == old(other.positive)
      ensures other.size == old(size) && other.length == old(length)
      ensures other.digit == old(digit) && other.positive == old(positive)
    {
      var s, l, d, p := other.size, other.length, other.digit, other.positive;
      other.size, other.length, other.digit, other.positive := size, length, digit, positive;
      size, length, digit, positive := s, l, d, p;
    }

    // operator= from another object: copy and swap.
    method Assign(y: BigInt)
      requires y.Valid()
      modifies this
      ensures Valid() && Value() == old(y.Value()) && (old(y.Canonical()) ==> Canonical())
      ensures fresh(digit)
    {
      var copy := new BigInt.Copy(y);
      Swap(copy);
    }

    // Sign-and-magnitude assignment of an elementary signed number.
    method AssignLong(l: int)
      requires Valid() && -0x8000_0000_0000_0000 <= l < 0x8000_0000_0000_0000
      modifies this, digit
      ensures Valid() && Canonical() && Value() == l
      ensures digit == old(digit)
    {
      if l >= 0 {
        length := DigitSet(l, digit);
        positive := true;
      } else {
        length := DigitSet(-l, digit);
        positive := false;
      }
    }

    // resize: room for more digits, keeping the contents.
    method Resize(digits: nat)
      requires Valid() && length <= digits
      modifies this
      ensures Valid() && size == if digits > old(size) then AdjustSize(digits) else old(size)
      ensures if digits > old(size) then fresh(digit) else digit == old(digit)
      ensures length == old(length) && positive == old(positive)
      ensures digit[..length] == old(digit[..length])
    {
      if digits > size {
        var n := AdjustSize(digits);
        var d := new Digit[n];
        forall j | 0 <= j < length {
          d[j] := digit[j];
        }
        size, digit := n, d;
      }
    }

    // reallocate: room for more digits, contents lost.
    method Reallocate(digits: nat)
      requires Valid()
      modifies this
      ensures Valid() && size == if digits > old(size) then AdjustSize(digits) else old(size)
      ensures length == old(length) && positive == old(positive)
      ensures if digits > old(size) then fresh(digit) else digit == old(digit)
    {
      if digits > size {
        size := AdjustSize(digits);
        digit := new Digit[size];
      }
    }

    // adjust: drops leading zeros and the sign of zero.
    method Adjust()
      requires Valid()
      modifies this`length, this`positive
      ensures Valid() && Canonical() && Value() == old(Value())
      ensures length <= old(length) && (length > 0 ==> positive == old(positive))
    {
      while length > 0 && digit[length - 1] == 0
        invariant Valid() && length <= old(length) && Mag() == old(Mag())
        invariant positive == old(positive)
      {
        ghost var s: seq<Digit> := digit[..length - 1];
        assert digit[..length] == s + [0];
        Snoc(s, 0);
        length := length - 1;
      }
      if length == 0 {
        assert digit[..length] == [];
        positive := true;
      }
    }

    // Comparison of magnitudes.
    method UCompare(b: BigInt) returns (r: int)
      requires Valid() && b.Valid() && Canonical() && b.Canonical()
      ensures r == Sign(Mag() - b.Mag())
    {
      if length < b.length {
        LongerIsGreater(b.digit[..b.length], digit[..length]);
        return -1;
      }
      if length > b.length {
        LongerIsGreater(digit[..length], b.digit[..b.length]);
        return 1;
      }
      r := DigitCmp(digit[..length], b.digit[..length]);
    }

    // Three-way comparison of the numbers, behind all comparison operators.
    method Compare(b: BigInt) returns (r: int)
      requires Valid() && b.Valid() && Canonical() && b.Canonical()
      ensures r == Sign(Value() - b.Value())
    {
      TrimmedZero(digit[..length]);
      TrimmedZero(b.digit[..b.length]);
      if !positive && b.positive {
        return -1;
      }
      if positive && !b.positive {
        return 1;
      }
      r := UCompare(b);
      r := if positive then r else -r;
    }

    method Negate()
      requires Valid()
      modifies this`positive
      ensures Valid() && Value() == -old(Value()) && (old(Canonical()) ==> Canonical())
    {
      if length != 0 {
        positive := !positive;
      }
    }

    // ------------------------------------------------------ add and subtract

    // Adds or subtracts two magnitudes, the greater one first, into this; gt
    // says that the greater one is this.
    method Combine(d1: array<Digit>, l1: nat, d2: array<Digit>, l2: nat, gt: bool, pos: bool)
      requires Valid() && l2 <= l1 < size && l1 <= d1.Length && l2 <= d2.Length
      requires Trimmed(d1[..l1]) && Val(d2[..l2]) <= Val(d1[..l1])
      requires length == 0 ==> positive
      modifies this`length, this`positive, digit
      ensures Valid()
      ensures if old(positive) == pos
        then Mag() == old(Val(d1[..l1])) + old(Val(d2[..l2])) && positive == old(positive)
        else Mag() == old(Val(d1[..l1])) - old(Val(d2[..l2]))
      ensures Trimmed(digit[..length])
      ensures old(positive) != pos ==> Canonical()
      ensures old(positive) != pos && length > 0 ==> positive == if gt then old(positive) else pos
    {
      ghost var s1: seq<Digit>, s2: seq<Digit> := d1[..l1], d2[..l2];
      if positive == pos {
        var c := DigitAdd(d1, l1, d2, l2, digit);
        ghost var sum: seq<Digit> := digit[..l1];
        length := l1;
        if c != 0 {
          digit[length] := c;
          length := length + 1;
          assert digit[..length] == sum + [c];
          Snoc(sum, c);
        } else {
          HighSign(s2, 0);
          GreaterIsTrimmed(sum, s1);
        }
      } else {
        DigitSub(d1, l1, d2, l2, digit);
        length := l1;
        if !gt {
          positive := pos;
        }
        Adjust();
      }
    }

    // The operand may be the receiver's own buffer if that need not grow.
    method Add(dig: array<Digit>, len: nat, pos: bool)
      requires Valid() && Canonical()
      requires len <= dig.Length && Trimmed(dig[..len])
      requires dig == digit ==> len == length < size
      modifies this, digit
      ensures Valid() && Canonical()
      ensures Value() == old(Value()) + (if pos then old(Val(dig[..len])) else -old(Val(dig[..len])))
      ensures digit == old(digit) || fresh(digit)
    {
      ghost var mine: seq<Digit>, theirs: seq<Digit> := digit[..length], dig[..len];
      Resize((if length > len then length else len) + 1);
      assert digit[..length] == mine && dig[..len] == theirs;
      var gt := length > len;
      if length == len {
        var cmp := DigitCmp(digit[..length], dig[..len]);
        gt := cmp >= 0;
      }
      MagnitudeOrder(mine, theirs);
      if gt {
        Combine(digit, length, dig, len, gt, pos);
      } else {
        Combine(dig, len, digit, length, gt, pos);
      }
      TrimmedZero(mine);
      TrimmedZero(theirs);
      TrimmedZero(digit[..length]);
    }

    // operator+= and operator-=.
    method PlusAssign(y: BigInt)
      requires Valid() && Canonical() && y.Valid() && y.Canonical()
      requires y.digit == digit ==> y == this && length < size
      modifies this, digit
      ensures Valid() && Canonical() && Value() == old(Value()) + old(y.Value())
      ensures digit == old(digit) || fresh(digit)
    {
      Add(y.digit, y.length, y.positive);
    }

    method MinusAssign(y: BigInt)
      requires Valid() && Canonical() && y.Valid() && y.Canonical()
      requires y.digit == digit ==> y == this && length < size
      modifies this, digit
      ensures Valid() && Canonical() && Value() == old(Value()) - old(y.Value())
      ensures digit == old(digit) || fresh(digit)
    {
      Add(y.digit, y.length, !y.positive);
    }

    // ------------------------------------------------------------- multiply

    // Multiplies the magnitude by a single digit in place.
    method TimesDigit(d: Digit)
      requires Valid() && Trimmed(digit[..length]) && d != 0
      modifies this, digit
      ensures Valid() && Trimmed(digit[..length]) && positive == old(positive)
      ensures Mag() == d * old(Mag()) && (length == 0 <==> old(length) == 0)
      ensures digit == old(digit) || fresh(digit)
    {
      hide AdjustSize;
      ghost var s: seq<Digit> := digit[..length];
      var c := DigitMulSingle(digit, length, d);
      ghost var product: seq<Digit> := digit[..length];
      if c != 0 {
        Resize(length + 1);
        assert digit[..length] == product;
        digit[length] := c;
        length := length + 1;
        assert digit[..length] == product + [c];
        Snoc(product, c);
      } else {
        TrimmedZero(s);
        MulLe(1, d, Val(s));
        GreaterIsTrimmed(product, s);
      }
      TrimmedZero(s);
      TrimmedZero(digit[..length]);
    }

    // The schoolbook product into a new buffer, the shorter factor outside.
    method TimesString(dig: array<Digit>, len: nat)
      requires Valid() && length > 0 && 0 < len <= dig.Length
      requires Trimmed(digit[..length]) && Trimmed(dig[..len])
      modifies this
      ensures Valid() && Canonical() && length > 0 && positive == old(positive)
      ensures Mag() == old(Mag()) * old(Val(dig[..len])) && fresh(digit)
    {
      hide WithHigh, AdjustSize;
      ghost var s: seq<Digit>, t: seq<Digit> := digit[..length], dig[..len];
      TrimmedZero(s);
      TrimmedZero(t);
      PositiveProduct(Val(s), Val(t));
      var n := AdjustSize(length + len);
      var r := new Digit[n];
      if length < len {
        DigitMul(digit, length, dig, len, r);
      } else {
        DigitMul(dig, len, digit, length, r);
      }
      size, digit, length := n, r, length + len;
      Adjust();
      TrimmedZero(digit[..length]);
    }

    // A one-digit receiver is replaced by the operand times that digit.
    method TimesIntoDigit(dig: array<Digit>, len: nat)
      requires Valid() && length == 1 && 2 <= len <= dig.Length && dig != digit
      requires Trimmed(digit[..length]) && Trimmed(dig[..len])
      modifies this, digit
      ensures Valid() && Trimmed(digit[..length]) && length > 0 && positive == old(positive)
      ensures Mag() == old(Mag()) * old(Val(dig[..len]))
      ensures digit == old(digit) || fresh(digit)
    {
      hide AdjustSize;
      ghost var t: seq<Digit> := dig[..len];
      var d := digit[0];
      Single(d, 0);
      assert digit[..1] == [d];
      Reallocate(len + 1);
      forall j | 0 <= j < len {
        digit[j] := dig[j];
      }
      length := len;
      assert digit[..length] == t;
      if d != 1 {
        TimesDigit(d);
      }
    }

    // The three size branches of mul, without the sign; ended says that a zero
    // was found.
    method MulMagnitude(dig: array<Digit>, len: nat) returns (ended: bool)
      requires Valid() && Canonical()
      requires len <= dig.Length && Trimmed(dig[..len])
      requires dig == digit ==> len == length
      modifies this, digit
      ensures Valid() && Trimmed(digit[..length])
      ensures Mag() == old(Mag()) * old(Val(dig[..len]))
      ensures ended == (len == 0 || (len >= 2 && old(length) == 0))
      ensures if ended then length == 0 && positive
        else positive == old(positive) && (length == 0 <==> old(length) == 0)
      ensures digit == old(digit) || fresh(digit)
    {
      ended := false;
      if len < 2 {
        if len == 0 || dig[0] == 0 {
          assert dig[..len] == [];
          length, positive := 0, true;
          assert digit[..length] == [];
          return true;
        }
        assert dig[..len] == [dig[0]];
        Single(dig[0], 0);
        if dig[0] != 1 {
          TimesDigit(dig[0]);
        }
      } else if length < 2 {
        if length == 0 || digit[0] == 0 {
          assert digit[..length] == [];
          length, positive := 0, true;
          return true;
        }
        TimesIntoDigit(dig, len);
      } else {
        TimesString(dig, len);
      }
    }

    // The number is always the product, but a negative one-digit operand
    // turns zero into a negative zero.
    method Mul(dig: array<Digit>, len: nat, pos: bool)
      requires Valid() && Canonical()
      requires len <= dig.Length && Trimmed(dig[..len])
      requires dig == digit ==> len == length
      modifies this, digit
      ensures Valid()
      ensures Value() == old(Value()) * (if pos then old(Val(dig[..len])) else -old(Val(dig[..len])))
      ensures Canonical() <==> !(old(length) == 0 && len == 1 && !pos)
      ensures digit == old(digit) || fresh(digit)
    {
      SignedProduct(Mag(), Val(dig[..len]));
      TrimmedZero(dig[..len]);
      TrimmedZero(digit[..length]);
      var ended := MulMagnitude(dig, len);
      if ended {
        return;
      }
      if !pos {
        positive := !positive;
      }
    }

    // operator*=: a negative zero arises only from zero times a negative
    // one-digit number.
    method TimesAssign(y: BigInt)
      requires Valid() && Canonical() && y.Valid() && y.Canonical()
      requires y.digit == digit ==> y == this
      modifies this, digit
      ensures Valid() && Value() == old(Value()) * old(y.Value())
      ensures Canonical() <==> !(old(length) == 0 && old(y.length) == 1 && !old(y.positive))
      ensures digit == old(digit) || fresh(digit)
    {
      Mul(y.digit, y.length, y.positive);
    }

    // --------------------------------------------------------------- divide

    predicate IsUint64()
      reads this
    {
      length <= SMALL
    }

    // to_uint64: the shift drops what does not fit, so this is the magnitude
    // modulo 2^64.
    method ToUint64() returns (ul: TwoDig)
      requires Valid()
      ensures ul == Mag() % 0x1_0000_0000_0000_0000
    {
      ul := 0;
      var i := length;
      while i > 0
        invariant 0 <= i <= length
        invariant ul == Val(digit[i..length]) % 0x1_0000_0000_0000_0000
      {
        i := i - 1;
        ValDrop(digit[..length], i);
        assert digit[..length][i..] == digit[i..length] && digit[..length][i + 1..] == digit[i + 1..length];
        ShiftIn(digit[i], Val(digit[i + 1..length]), ul);
        ul := Low(ul) * BASE;
        ul := ul + digit[i] as TwoDig;
      }
      assert digit[0..length] == digit[..length];
    }

    // to_uint64 where is_uint64 holds.
    method SmallValue() returns (ul: TwoDig)
      requires Valid() && IsUint64()
      ensures ul == Mag()
    {
      SmallIsUint64(digit[..length]);
      ul := ToUint64();
    }

    // Scaled copies of both magnitudes are divided into the quotient digits.
    method LongQuotient(y: BigInt) returns (out: DivOutcome, ghost rem: int)
      requires Valid() && y.Valid() && 2 <= y.length <= length
      requires y.digit != digit && y.digit[y.length - 1] != 0
      modifies this`length, digit
      ensures Valid()
      ensures out == if old(y.digit[y.length - 1]) == SINGLE_MAX then Trap else Completed
      ensures out == Completed ==> 0 <= rem < old(y.Mag()) && old(Mag()) == Mag() * old(y.Mag()) + rem
    {
      hide WithHigh;
      var al, bl := length, y.length;
      var a := CopyDigits(digit, al, 2);
      var b := CopyDigits(y.digit, bl, 0);
      ghost var x: seq<Digit>, v: seq<Digit> := a[..al], b[..bl];
      assert b[bl - 1] == v[bl - 1];
      var divisor := Low(1 + b[bl - 1] as TwoDig);
      if divisor == 0 {
        return Trap, 0;
      }
      var scale := BASE / divisor;
      ScaleReachesHalf(b[bl - 1], scale);
      ghost var qs;
      al, qs := ScaleAndDivide(a, al, b, bl, scale, digit);
      length := al - bl;
      TrimmedZero(v);
      HighSign(a[..bl], 0);
      ScaledQuotient(Val(x), Val(v), scale, Val(qs), Val(a[..bl]));
      rem := Val(a[..bl]) / scale;
      return Completed, rem;
    }

    // Quotient of magnitudes that fit an elementary type.
    method ElementaryQuotient(y: BigInt) returns (ghost rem: int)
      requires Valid() && y.Valid() && length <= SMALL && y.length <= SMALL
      requires y.digit != digit && 0 < y.Mag() && 0 <= Mag()
      modifies this`length, digit
      ensures Valid() && 0 <= rem < y.Mag() && old(Mag()) == Mag() * y.Mag() + rem
    {
      hide Val;
      ghost var v: seq<Digit> := y.digit[..y.length];
      var n := SmallValue();
      var m := y.SmallValue();
      var q := n / m;
      rem := n % m;
      ElementaryDivMod(n, m);
      length := DigitSet(q, digit);
      assert y.digit[..y.length] == v;
    }

    // Replaces the magnitude by its quotient, by the size of the operands.
    method DivideMagnitude(y: BigInt) returns (out: DivOutcome, ghost rem: int)
      requires Valid() && Canonical() && y.Valid() && y.Canonical()
      requires y.digit != digit && 0 < y.length && y.Mag() < Mag()
      modifies this`length, digit
      ensures Valid()
      ensures out == (if old(length) > SMALL && y.length > 1 && y.digit[y.length - 1] == SINGLE_MAX
        then Trap else Completed)
      ensures out == Completed ==> 0 <= rem < y.Mag() && old(Mag()) == Mag() * y.Mag() + rem
    {
      ghost var v: seq<Digit> := y.digit[..y.length];
      MagnitudeOrder(v, digit[..length]);
      TrimmedZero(v);
      if IsUint64() {
        rem := ElementaryQuotient(y);
        out := Completed;
      } else if y.length == 1 {
        assert v == [y.digit[0]];
        Single(y.digit[0], 0);
        rem := DigitDivSingle(digit, length, y.digit[0]);
        out := Completed;
      } else {
        out, rem := LongQuotient(y);
      }
      assert y.digit[..y.length] == v;
    }

    // The guard of the long division whose scale factor divides by zero.
    ghost predicate DivisionTraps(y: BigInt)
      requires Valid() && y.Valid()
      reads this, digit, y, y.digit
    {
      && length > SMALL && y.length > 1
      && y.Mag() < Mag()
      && y.digit[y.length - 1] == SINGLE_MAX
    }

    // operator/=.  A receiver divided by itself is allowed.
    method DivAssign(y: BigInt) returns (out: DivOutcome)
      requires Valid() && Canonical() && y.Valid() && y.Canonical()
      requires y.digit == digit ==> y == this
      modifies this`length, this`positive, digit
      ensures Valid()
      ensures out == ZeroDivision <==> old(y.Value()) == 0 && old(Value()) != 0
      ensures out == Trap <==> old(DivisionTraps(y))
      ensures out == Completed ==> Canonical()
      ensures out == Completed && old(y.Value()) != 0 ==> Value() == TruncQuot(old(Value()), old(y.Value()))
      ensures out == Completed && old(y.Value()) == 0 ==> Value() == 1
    {
      hide WithHigh, TruncQuot, TruncRem;
      TrimmedZero(digit[..length]);
      TrimmedZero(y.digit[..y.length]);
      ghost var x, v, xPositive, yPositive := Mag(), y.Mag(), positive, y.positive;
      var cmp := UCompare(y);
      if cmp < 0 {
        length, positive := 0, true;
        assert digit[..length] == [];
        NoDigits(digit[..length], 0);
        TruncOfMagnitudes(x, v, xPositive, yPositive, 0, x);
        return Completed;
      }
      if cmp == 0 {
        length := 1;
        digit[0] := 1;
        assert digit[..length] == [1];
        Single(1, 0);
        if !y.positive {
          Negate();
        }
        if v > 0 {
          TruncOfMagnitudes(x, v, xPositive, yPositive, 1, 0);
        }
        return Completed;
      }
      if y.length == 0 {
        return ZeroDivision;
      }
      ghost var rem;
      out, rem := DivideMagnitude(y);
      if out == Trap {
        return;
      }
      HighSign(digit[..length], 0);
      TruncOfMagnitudes(x, v, xPositive, yPositive, Mag(), rem);
      Adjust();
      if !y.positive {
        Negate();
      }
    }

    // Remainder of magnitudes that fit an elementary type.
    method ElementaryRemainder(y: BigInt) returns (ghost quot: int)
      requires Valid() && y.Valid() && length <= SMALL && y.length <= SMALL
      requires y.digit != digit && 0 < y.Mag() && 0 <= Mag()
      modifies this`length, digit
      ensures Valid() && 0 <= Mag() < y.Mag() && old(Mag()) == quot * y.Mag() + Mag()
    {
      hide Val;
      ghost var v: seq<Digit> := y.digit[..y.length];
      var n := SmallValue();
      var m := y.SmallValue();
      quot := n / m;
      var r := n % m;
      ElementaryDivMod(n, m);
      length := DigitSet(r, digit);
      assert y.digit[..y.length] == v;
    }

    // The dividend is scaled and divided in its own buffer and what remains is
    // divided back by the scale factor.
    method LongRemainder(y: BigInt) returns (out: DivOutcome, ghost quot: int)
      requires Valid() && Canonical() && y.Valid() && 2 <= y.length <= length
      requires y.digit != digit && y.digit[y.length - 1] != 0
      modifies this, digit
      ensures Valid()
      ensures digit == old(digit) || fresh(digit)
      ensures out == if old(y.digit[y.length - 1]) == SINGLE_MAX then Trap else Completed
      ensures out == Completed ==> 0 <= Mag() < old(y.Mag()) && old(Mag()) == quot * old(y.Mag()) + Mag()
      ensures positive == old(positive) || length == 0
    {
      hide WithHigh, AdjustSize;
      ghost var x: seq<Digit>, v: seq<Digit> := digit[..length], y.digit[..y.length];
      Resize(length + 2);
      assert digit[..length] == x;
      var bl := y.length;
      var b := CopyDigits(y.digit, bl, 0);
      assert b[..bl] == v && b[bl - 1] == v[bl - 1];
      var divisor := Low(1 + b[bl - 1] as TwoDig);
      if divisor == 0 {
        return Trap, 0;
      }
      var scale := BASE / divisor;
      ScaleReachesHalf(b[bl - 1], scale);
      ghost var qs;
      length, qs := ScaleAndDivide(digit, length, b, bl, scale, null);
      length := bl;
      TrimmedZero(v);
      HighSign(digit[..length], 0);
      ScaledQuotient(Val(x), Val(v), scale, Val(qs), Mag());
      Adjust();
      assert length == 0 ==> digit[..length] == [];
      NoDigits([], 0);
      Unscale(scale);
      return Completed, Val(qs);
    }

    // Divides the scaled remainder back.
    method Unscale(scale: Digit)
      requires Valid() && 0 < scale
      modifies digit
      ensures Mag() == old(Mag()) / scale
    {
      HighSign(digit[..length], 0);
      if scale != 1 {
        ghost var scaled := Mag();
        ghost var rest := DigitDivSingle(digit, length, scale);
        HighSign(digit[..length], 0);
        DivModUnique(scaled, scale, Mag(), rest);
      }
    }

    // Replaces the magnitude by its remainder, by the size of the operands.
    method ReduceMagnitude(y: BigInt) returns (out: DivOutcome, ghost quot: int)
      requires Valid() && Canonical() && y.Valid() && y.Canonical()
      requires y.digit != digit && 0 < y.length && y.Mag() < Mag()
      modifies this, digit
      ensures Valid()
      ensures digit == old(digit) || fresh(digit)
      ensures out == (if old(length) > SMALL && y.length > 1 && y.digit[y.length - 1] == SINGLE_MAX
        then Trap else Completed)
      ensures out == Completed ==> 0 <= Mag() < y.Mag() && old(Mag()) == quot * y.Mag() + Mag()
      ensures positive == old(positive) || length == 0
    {
      hide WithHigh, Pow, AdjustSize;
      ghost var v: seq<Digit> := y.digit[..y.length];
      MagnitudeOrder(v, digit[..length]);
      TrimmedZero(v);
      if IsUint64() {
        quot := ElementaryRemainder(y);
        out := Completed;
      } else if y.length == 1 {
        assert v == [y.digit[0]];
        Single(y.digit[0], 0);
        var rem := DigitDivSingle(digit, length, y.digit[0]);
        quot := Mag();
        digit[0] := rem;
        length := 1;
        assert digit[..length] == [rem];
        Single(rem, 0);
        out := Completed;
      } else {
        out, quot := LongRemainder(y);
      }
      assert y.digit[..y.length] == v;
    }

    // operator%=.  A receiver reduced by itself is allowed.
    method ModAssign(y: BigInt) returns (out: DivOutcome)
      requires Valid() && Canonical() && y.Valid() && y.Canonical()
      requires y.digit == digit ==> y == this
      modifies this, digit
      ensures Valid()
      ensures digit == old(digit) || fresh(digit)
      ensures out == ZeroDivision <==> old(y.Value()) == 0 && old(Value()) != 0
      ensures out == Trap <==> old(DivisionTraps(y))
      ensures out == Completed ==> Canonical()
      ensures out == Completed && old(y.Value()) != 0 ==> Value() == TruncRem(old(Value()), old(y.Value()))
      ensures out == Completed && old(y.Value()) == 0 ==> Value() == 0
    {
      hide WithHigh, TruncQuot, TruncRem;
      TrimmedZero(digit[..length]);
      TrimmedZero(y.digit[..y.length]);
      ghost var x, v, xPositive, yPositive := Mag(), y.Mag(), positive, y.positive;
      var cmp := UCompare(y);
      if cmp < 0 {
        TruncOfMagnitudes(x, v, xPositive, yPositive, 0, x);
        return Completed;
      }
      if cmp == 0 {
        length, positive := 0, true;
        assert digit[..length] == [];
        if v > 0 {
          NoDigits(digit[..length], 0);
          TruncOfMagnitudes(x, v, xPositive, yPositive, 1, 0);
        }
        return Completed;
      }
      if y.length == 0 {
        return ZeroDivision;
      }
      ghost var quot;
      out, quot := ReduceMagnitude(y);
      if out == Trap {
        return;
      }
      HighSign(digit[..length], 0);
      TruncOfMagnitudes(x, v, xPositive, yPositive, quot, Mag());
      NoDigits([], 0);
      assert length == 0 ==> digit[..length] == [];
      Adjust();
      if length == 0 {
        positive := true;
      }
    }
  }

  lemma SmallIsUint64(s: seq<Digit>)
    requires |s| <= SMALL
    ensures 0 <= Val(s) < 0x1_0000_0000_0000_0000
  {
    ValBound(s);
    PowMono(|s|, 2);
    assert Pow(2) == BASE * Pow(1) && Pow(1) == BASE * Pow(0);
  }

  lemma ElementaryDivMod(n: TwoDig, m: TwoDig)
    requires m > 0
    ensures 0 <= n / m <= n && 0 <= n % m < m && n == (n / m) * m + n % m
  {
    if n / m > n {
      MulLe(n + 1, n / m, m);
      MulLe(1, m, n + 1);
    }
  }

  // The division of 2^64 by 2^64 - 1 is one that traps.
  lemma TrappingOperands(x: BigInt, y: BigInt)
    requires x.Valid() && x.digit[..x.length] == [0, 0, 1]
    requires y.Valid() && y.digit[..y.length] == [SINGLE_MAX, SINGLE_MAX]
    ensures x.Mag() == 0x1_0000_0000_0000_0000 && y.Mag() == 0xFFFF_FFFF_FFFF_FFFF
    ensures x.Canonical() && y.Canonical() && x.DivisionTraps(y)
  {
    ghost var s: seq<Digit>, t: seq<Digit> := x.digit[..x.length], y.digit[..y.length];
    ValDrop(s, 0);
    ValDrop(s, 1);
    ValDrop(s, 2);
    NoDigits(s[3..], 0);
    ValDrop(t, 0);
    ValDrop(t, 1);
    NoDigits(t[2..], 0);
    assert s[0..] == s && t[0..] == t;
    assert y.digit[y.length - 1] == t[1];
  }

  method DivideByLargest() returns (out: DivOutcome)
    ensures out == Trap
  {
    var x := new BigInt();
    var y := new BigInt();
    x.digit[0], x.digit[1], x.digit[2], x.length := 0, 0, 1, 3;
    y.digit[0], y.digit[1], y.length := SINGLE_MAX, SINGLE_MAX, 2;
    TrappingOperands(x, y);
    out := x.DivAssign(y);
  }

  method CopyDigits(d: array<Digit>, n: nat, room: nat) returns (c: array<Digit>)
    requires n <= d.Length
    ensures fresh(c) && c.Length == n + room && c[..n] == d[..n]
  {
    c := new Digit[n + room];
    forall j | 0 <= j < n {
      c[j] := d[j];
    }
  }
}

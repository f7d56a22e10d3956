// Compact binary form of big integers: bytes, most significant first.
module BigIntBytes {
  import opened Digits
  import opened Scaling
  import opened BigInts
  import opened Numerals
  import opened BigIntText

  type Byte = x: int | 0 <= x < 256

  // sizeof(onedig_t).
  const DIGIT_BYTES: nat := 4

  // The number a byte string stands for, most significant byte first.
  ghost function BytesVal(s: seq<Byte>): int
    ensures BytesVal(s) >= 0
  {
    if |s| == 0 then 0 else BytesVal(s[..|s| - 1]) * 256 + s[|s| - 1]
  }

  // Value of bit i * CHAR_BIT of a digit.
  function Unit(i: nat): (u: int)
    requires i <= DIGIT_BYTES
    ensures u == PowOf(256, i)
  {
    UnitPowers();
    if i == 0 then 1 else if i == 1 then 0x100 else if i == 2 then 0x1_0000
    else if i == 3 then 0x100_0000 else 0x1_0000_0000
  }

  lemma UnitPowers()
    ensures PowOf(256, 0) == 1 && PowOf(256, 1) == 0x100 && PowOf(256, 2) == 0x1_0000
    ensures PowOf(256, 3) == 0x100_0000 && PowOf(256, 4) == 0x1_0000_0000
  {
    assert PowOf(256, 2) == 256 * PowOf(256, 1);
    assert PowOf(256, 3) == 256 * PowOf(256, 2);
    assert PowOf(256, 4) == 256 * PowOf(256, 3);
  }

  lemma BytesSnoc(s: seq<Byte>, b: Byte)
    ensures BytesVal(s + [b]) == BytesVal(s) * 256 + b
  {
    assert (s + [b])[..|s|] == s;
  }

  lemma OneMoreByte(n: nat)
    ensures PowOf(256, n + 1) == 256 * PowOf(256, n)
  {
  }

  lemma ShiftByte(b: int, p: int, v: int)
    ensures (b * p + v) * 256 == b * (256 * p) + v * 256
  {
  }

  // The first byte counts most.
  lemma {:induction false} FirstByteIsHighest(b: Byte, s: seq<Byte>)
    ensures BytesVal([b] + s) == b * PowOf(256, |s|) + BytesVal(s)
  {
    if s == [] {
      assert [b] + s == [] + [b];
      BytesSnoc([], b);
      assert PowOf(256, 0) == 1;
    } else {
      hide BytesVal, PowOf;
      var n := |s| - 1;
      var rest := s[..n];
      FirstByteIsHighest(b, rest);
      BytesSnoc([b] + rest, s[n]);
      BytesSnoc(rest, s[n]);
      assert s == rest + [s[n]] && [b] + s == [b] + rest + [s[n]];
      OneMoreByte(n);
      ShiftByte(b, PowOf(256, n), BytesVal(rest));
    }
  }

  lemma {:induction false} BytesBound(s: seq<Byte>)
    ensures BytesVal(s) < PowOf(256, |s|)
  {
    if |s| > 0 {
      BytesBound(s[..|s| - 1]);
    }
  }

  lemma {:induction false} ZeroBytes(s: seq<Byte>)
    requires forall k :: 0 <= k < |s| ==> s[k] == 0
    ensures BytesVal(s) == 0
  {
    if |s| > 0 {
      ZeroBytes(s[..|s| - 1]);
    }
  }

  // Four bytes make a digit.
  lemma {:induction false} PowOfBytes(t: nat)
    ensures PowOf(256, DIGIT_BYTES * t) == Pow(t)
  {
    if t > 0 {
      PowOfBytes(t - 1);
      UnitPowers();
      PowOfSum(256, 4, 4 * (t - 1));
      assert 4 + 4 * (t - 1) == 4 * t;
    }
  }

  // ------------------------------------------------------------------- dump

  // Number of bytes of a non-zero digit: the index of its top byte plus one.
  method TopByte(d: Digit) returns (i: nat)
    requires d > 0
    ensures 1 <= i <= DIGIT_BYTES
    ensures Unit(i - 1) <= d < Unit(i)
  {
    i := DIGIT_BYTES - 1;
    while i > 0 && d / Unit(i) == 0
      invariant 0 <= i < DIGIT_BYTES
      invariant d < Unit(i + 1)
    {
      i := i - 1;
    }
    i := i + 1;
  }

  // The byte count decides whether the number fits.
  lemma ByteCount(low: seq<Digit>, d: Digit, i: nat)
    requires 1 <= i <= DIGIT_BYTES && Unit(i - 1) <= d < Unit(i)
    ensures PowOf(256, i - 1 + DIGIT_BYTES * |low|) <= WithHigh(low, d) < PowOf(256, i + DIGIT_BYTES * |low|)
  {
    var t := |low|;
    HighIsPow(low, d);
    ValBound(low);
    PowOfBytes(t);
    PowOfSum(256, i - 1, DIGIT_BYTES * t);
    PowOfSum(256, i, DIGIT_BYTES * t);
    MulLe(Unit(i - 1), d, Pow(t));
    MulLe(d + 1, Unit(i), Pow(t));
    assert (d + 1) * Pow(t) == Pow(t) * d + Pow(t);
  }

  // Writing the next byte of digit d.
  lemma ByteStep(v: int, d: Digit, i: nat)
    requires 1 <= i <= DIGIT_BYTES && 0 <= v
    ensures 0 <= d / Unit(i - 1) % 256 < 256
    ensures v * Unit(i) + d % Unit(i)
         == (v * 256 + d / Unit(i - 1) % 256) * Unit(i - 1) + d % Unit(i - 1)
  {
    if i == 1 {
    } else if i == 2 {
    } else if i == 3 {
    } else {
    }
  }

  // The bytes written so far with k bytes of d to follow.
  ghost function Followed(s: seq<Byte>, d: Digit, k: nat): int
    requires k <= DIGIT_BYTES
  {
    BytesVal(s) * Unit(k) + d % Unit(k)
  }

  lemma FollowedStep(s: seq<Byte>, d: Digit, k: nat)
    requires 1 <= k <= DIGIT_BYTES
    ensures 0 <= d / Unit(k - 1) % 256 < 256
    ensures Followed(s, d, k) == Followed(s + [d / Unit(k - 1) % 256], d, k - 1)
  {
    ByteStep(BytesVal(s), d, k);
    BytesSnoc(s, d / Unit(k - 1) % 256);
  }

  lemma FollowedByNone(s: seq<Byte>, d: Digit)
    ensures Followed(s, d, 0) == BytesVal(s)
  {
  }

  // Copies the i low bytes of d.
  method WriteDigit(p: array<Byte>, pos: nat, d: Digit, i: nat)
    requires i <= DIGIT_BYTES && pos + i <= p.Length
    modifies p
    ensures BytesVal(p[..pos + i]) == old(Followed(p[..pos], d, i))
    ensures forall k :: 0 <= k < pos || pos + i <= k < p.Length ==> p[k] == old(p[k])
  {
    hide Followed, BytesVal;
    var k, at := i, pos;
    while k > 0
      invariant 0 <= k <= i && at == pos + (i - k)
      invariant forall j :: 0 <= j < pos || at <= j < p.Length ==> p[j] == old(p[j])
      invariant Followed(p[..at], d, k) == old(Followed(p[..pos], d, i))
    {
      ghost var done: seq<Byte> := p[..at];
      FollowedStep(done, d, k);
      k := k - 1;
      p[at] := d / Unit(k) % 256;
      at := at + 1;
      assert p[..at] == done + [p[at - 1]];
    }
    FollowedByNone(p[..at], d);
  }

  // A whole digit after the bytes of a number v.
  method WriteNextDigit(p: array<Byte>, pos: nat, d: Digit)
    requires pos + DIGIT_BYTES <= p.Length
    modifies p
    ensures BytesVal(p[..pos + DIGIT_BYTES]) == d + BASE * old(BytesVal(p[..pos]))
  {
    WriteDigit(p, pos, d, DIGIT_BYTES);
  }

  // The top digit after leading zeros, without its own leading zeros.
  method WriteTopDigit(p: array<Byte>, pos: nat, d: Digit, i: nat)
    requires 1 <= i <= DIGIT_BYTES && pos + i <= p.Length && d < Unit(i)
    modifies p
    ensures BytesVal(p[..pos + i]) == d
  {
    FillZero(p, pos);
    WriteDigit(p, pos, d, i);
  }

  // memset(p, 0, n).
  method FillZero(p: array<Byte>, n: nat)
    requires n <= p.Length
    modifies p
    ensures BytesVal(p[..n]) == 0
    ensures forall k :: 0 <= k < n ==> p[k] == 0
  {
    forall k | 0 <= k < n {
      p[k] := 0;
    }
    ZeroBytes(p[..n]);
  }

  // dump: fills the bytes of p; fails exactly when the number is too big.
  method Dump(x: BigInt, p: array<Byte>) returns (ok: bool)
    requires x.Valid()
    modifies p
    ensures ok <==> x.Mag() < PowOf(256, p.Length)
    ensures ok ==> BytesVal(p[..]) == x.Mag()
    ensures !ok ==> forall k :: 0 <= k < p.Length ==> p[k] == 0
  {
    var n := p.Length;
    var t := SignificantLength(x);
    if t == 0 {
      PowOfGrows(256, 0, n);
      FillZero(p, n);
      assert p[..n] == p[..];
      return true;
    }
    var d := x.digit[t - 1];
    ghost var low: seq<Digit> := x.digit[..t - 1];
    assert x.digit[..t] == low + [d];
    Snoc(low, d);
    t := t - 1;
    var i := TopByte(d);
    ByteCount(low, d, i);
    var m := i + t * DIGIT_BYTES;
    if m > n {
      PowOfGrows(256, n, m - 1);
      FillZero(p, n);
      return false;
    }
    PowOfGrows(256, m, n);
    CopyOut(x, p, t, d, i);
    assert x.digit[..t] == low;
    return true;
  }

  // Leading zeros and the copy loop of dump.
  method CopyOut(x: BigInt, p: array<Byte>, top: nat, topDigit: Digit, topBytes: nat)
    requires x.Valid() && top <= x.length
    requires 1 <= topBytes <= DIGIT_BYTES && topDigit < Unit(topBytes)
    requires topBytes + top * DIGIT_BYTES <= p.Length
    modifies p
    ensures BytesVal(p[..]) == WithHigh(x.digit[..top], topDigit)
  {
    var pos, t, d, i := p.Length - (topBytes + top * DIGIT_BYTES), top, topDigit, topBytes;
    WriteTopDigit(p, pos, d, i);
    pos := pos + i;
    while t > 0
      invariant 0 <= t <= top && pos + t * DIGIT_BYTES == p.Length
      invariant WithHigh(x.digit[..t], BytesVal(p[..pos])) == WithHigh(x.digit[..top], topDigit)
    {
      ghost var low: seq<Digit>, v: int := x.digit[..t - 1], BytesVal(p[..pos]);
      t := t - 1;
      d := x.digit[t];
      WriteNextDigit(p, pos, d);
      pos := pos + DIGIT_BYTES;
      assert x.digit[..t + 1] == low + [d];
      Advance(low, d, BytesVal(p[..pos]), v);
    }
    assert x.digit[..0] == [] && p[..pos] == p[..];
  }

  // ------------------------------------------------------------------- load

  // Reading the byte before position q into digit d, which holds i bytes.
  lemma LoadStep(d: int, i: nat, v: int, b: Byte)
    requires i < DIGIT_BYTES && 0 <= d < Unit(i)
    ensures d + Unit(i) * (v * 256 + b) == (d + b * Unit(i)) + Unit(i + 1) * v
    ensures 0 <= d + b * Unit(i) < Unit(i + 1)
  {
    if i == 0 {
    } else if i == 1 {
    } else if i == 2 {
    } else {
    }
  }

  // Bytes that start with a non-zero one leave no room for a leading zero.
  lemma {:induction false} FirstByteCounts(s: seq<Byte>)
    requires |s| > 0 && s[0] != 0
    ensures PowOf(256, |s| - 1) <= BytesVal(s)
  {
    if |s| > 1 {
      FirstByteCounts(s[..|s| - 1]);
    } else {
      assert BytesVal(s[..0]) == 0;
    }
  }

  lemma {:induction false} SkipZeros(s: seq<Byte>, k: nat)
    requires k <= |s| && forall j :: 0 <= j < k ==> s[j] == 0
    ensures BytesVal(s) == BytesVal(s[k..])
    decreases |s|
  {
    if |s| > k {
      assert s[k..][..|s[k..]| - 1] == s[..|s| - 1][k..];
      SkipZeros(s[..|s| - 1], k);
    } else {
      assert s[k..] == [];
      ZeroBytes(s);
    }
  }

  lemma NoBytes()
    ensures BytesVal([]) == 0
  {
  }

  // The copy loop of load: bytes from..n of p become the digits, the last one
  // of them still in d with i bytes.
  method CopyIn(x: BigInt, p: seq<Byte>) returns (d: Digit, i: nat)
    requires x.Valid() && x.length == 0 && |p| <= DIGIT_BYTES * x.size
    modifies x`length, x.digit
    ensures x.Valid() && i < DIGIT_BYTES && DIGIT_BYTES * x.length + i == |p|
    ensures d < Unit(i) && WithHigh(x.digit[..x.length], d) == BytesVal(p)
  {
    hide BytesVal, WithHigh, PowOf;
    var q := |p|;
    d, i := 0, 0;
    assert x.digit[..x.length] == [] && p[..q] == p;
    NoDigits(x.digit[..x.length], BytesVal(p));
    while q > 0
      invariant x.Valid() && 0 <= q <= |p|
      invariant i < DIGIT_BYTES && DIGIT_BYTES * x.length + i + q == |p|
      invariant d < Unit(i)
      invariant WithHigh(x.digit[..x.length], d + Unit(i) * BytesVal(p[..q])) == BytesVal(p)
    {
      q := q - 1;
      assert p[..q + 1] == p[..q] + [p[q]];
      BytesSnoc(p[..q], p[q]);
      LoadStep(d, i, BytesVal(p[..q]), p[q]);
      d := d + p[q] * Unit(i);
      i := i + 1;
      if i == DIGIT_BYTES {
        ghost var low: seq<Digit>, last: Digit := x.digit[..x.length], d;
        x.digit[x.length] := d;
        x.length := x.length + 1;
        assert x.digit[..x.length] == low + [last];
        Advance(low, last, last + BASE * BytesVal(p[..q]), BytesVal(p[..q]));
        d, i := 0, 0;
      }
    }
    NoBytes();
    assert p[..0] == [];
  }

  // load: replaces the magnitude, which comes out without leading zeros; the
  // sign flag is left alone.
  method Load(x: BigInt, p: seq<Byte>)
    requires x.Valid()
    modifies x, x.digit
    ensures x.Valid() && x.Mag() == BytesVal(p) && Trimmed(x.digit[..x.length])
    ensures x.positive == old(x.positive)
    ensures x.digit == old(x.digit) || fresh(x.digit)
  {
    hide AdjustSize, BytesVal, PowOf;
    var from := 0;
    while from < |p| && p[from] == 0
      invariant 0 <= from <= |p|
      invariant forall j :: 0 <= j < from ==> p[j] == 0
    {
      from := from + 1;
    }
    SkipZeros(p, from);
    var bytes := p[from..];
    x.Reallocate((|bytes| + DIGIT_BYTES - 1) / DIGIT_BYTES);
    x.length := 0;
    var d, i := CopyIn(x, bytes);
    ghost var low: seq<Digit> := x.digit[..x.length];
    if |bytes| > 0 {
      FirstByteCounts(bytes);
      TopIsNotZero(low, d, i, BytesVal(bytes));
    }
    if d != 0 {
      x.digit[x.length] := d;
      x.length := x.length + 1;
      assert x.digit[..x.length] == low + [d];
      Snoc(low, d);
    }
  }

  lemma TopIsNotZero(low: seq<Digit>, d: Digit, i: nat, v: int)
    requires i < DIGIT_BYTES && 0 < i + DIGIT_BYTES * |low| && d < Unit(i)
    requires WithHigh(low, d) == v && PowOf(256, DIGIT_BYTES * |low| + i - 1) <= v
    ensures d == 0 ==> Trimmed(low)
    ensures i > 0 ==> d != 0
  {
    var t := |low|;
    ValBound(low);
    PowOfBytes(t);
    if i > 0 {
      PowOfGrows(256, DIGIT_BYTES * t, DIGIT_BYTES * t + i - 1);
    } else {
      PowOfBytes(t - 1);
      PowOfGrows(256, DIGIT_BYTES * (t - 1), DIGIT_BYTES * t - 1);
      LargeIsTrimmed(low);
    }
  }

  // Dumping a number and loading the bytes gives the magnitude back.
  method DumpThenLoad(x: BigInt, p: array<Byte>, y: BigInt)
    requires x.Valid() && y.Valid() && x != y && x.digit != y.digit
    requires x.Mag() < PowOf(256, p.Length)
    modifies p, y, y.digit
    ensures y.Valid() && Trimmed(y.digit[..y.length]) && y.Mag() == x.Mag()
  {
    ghost var mag := x.Mag();
    var ok := Dump(x, p);
    Load(y, p[..]);
    assert x.Mag() == mag;
  }
}

// Splitting a floating literal into significand and exponent.
module FloatParsing {
  import opened Numerals
  import opened BigIntText
  import opened BigInts
  import opened Digits

  // ------------------------------------------------------------ string2integer

  predicate IsAlnum(c: char) {
    '0' <= c <= '9' || 'a' <= c <= 'z' || 'A' <= c <= 'Z'
  }

  predicate IsIntegerText(s: string) {
    forall i :: 0 <= i < |s| ==> IsAlnum(s[i]) || (s[i] == '-' && i == 0)
  }

  // string2integer: zero for other characters, else what scanning the text as a
  // big integer gives.
  function ToInteger(s: string, b: nat): int {
    if !IsIntegerText(s) then 0
    else
      var i := SignLength(s);
      var n := Fold(0, s[i..ScanStop(s, i, b)], b);
      if i == 1 then -n else n
  }

  // A text with any other character in it, or a sign after its start, is zero.
  lemma OtherTextsAreZero(s: string, b: nat, i: nat)
    requires i < |s| && !('0' <= s[i] <= '9') && !('a' <= s[i] <= 'z') && !('A' <= s[i] <= 'Z')
    requires s[i] == '-' ==> i > 0
    ensures ToInteger(s, b) == 0
  {
  }

  // A text of letters and digits only is worth its digits up to the first
  // character that is none of the base, and negative after a minus sign.
  lemma AlphanumericTexts(s: string, b: nat)
    requires forall i :: 0 <= i < |s| ==> '0' <= s[i] <= '9' || 'a' <= s[i] <= 'z' || 'A' <= s[i] <= 'Z'
    ensures ToInteger(s, b) == Fold(0, s[..ScanStop(s, 0, b)], b) && ToInteger("-" + s, b) == -ToInteger(s, b)
  {
    var minus := "-" + s;
    assert forall i :: 0 < i < |minus| ==> minus[i] == s[i - 1];
    assert IsIntegerText(minus) && SignLength(minus) == 1 && SignLength(s) == 0;
    ScanBehind("-", s, 0, b);
    assert minus[1..1 + ScanStop(s, 0, b)] == s[0..ScanStop(s, 0, b)];
  }

  // -------------------------------------------------------------- parse_float

  datatype Float = Float(significand: int, exponent: int, base: nat, isFloat: bool, isLong: bool)

  const SUFFIXES: string := "fFlLwWqQdD"
  const IMAGINARY: string := "iIjJ"

  predicate Stops(s: string, i: nat, stops: string) {
    i >= |s| || s[i] == '\0' || s[i] in stops
  }

  // The first place from i on that holds one of the characters, or the end.
  function StopAt(s: string, i: nat, stops: string): (j: nat)
    requires i <= |s|
    ensures i <= j <= |s|
    decreases |s| - i
  {
    if Stops(s, i, stops) then i else StopAt(s, i + 1, stops)
  }

  function SkipAt(s: string, i: nat, skipped: string): (j: nat)
    requires i <= |s|
    ensures i <= j <= |s|
  {
    if i < |s| && s[i] in skipped then i + 1 else i
  }

  predicate IsHex(s: string) {
    |s| >= 2 && s[0] == '0' && s[1] in "xX"
  }

  // Where the parts of a literal end, for its markers of the exponent and the
  // characters that end it.
  datatype Parts = Parts(whole: string, fraction: string, exponent: string, rest: nat)

  function PartsOf(s: string, start: nat, marker: string, numberEnds: string, ends: string): (parts: Parts)
    requires start <= |s|
    ensures parts.rest <= |s|
  {
    var i := StopAt(s, start, "." + numberEnds);
    var j := SkipAt(s, i, ".");
    var k := StopAt(s, j, numberEnds);
    var m := SkipAt(s, SkipAt(s, k, marker), "+");
    var n := StopAt(s, m, ends);
    Parts(s[start..i], s[j..k], s[m..n], n)
  }

  // Flags after position i.
  predicate HasFlag(s: string, i: nat, flag: string) {
    exists k :: i <= k < |s| && s[k] in flag && '\0' !in s[i..k]
  }

  function Parsed(s: string): Float {
    if IsHex(s) then
      var p := PartsOf(s, 2, "pP", "pP", SUFFIXES);
      Float(ToInteger(p.whole + p.fraction, 16), ToInteger(p.exponent, 10) - 4 * |p.fraction|, 2,
        HasFlag(s, p.rest, "fF"), HasFlag(s, p.rest, "lL"))
    else
      var p := PartsOf(s, 0, "eE", "eE" + SUFFIXES + IMAGINARY, SUFFIXES + IMAGINARY);
      Float(ToInteger(p.whole + p.fraction, 10), ToInteger(p.exponent, 10) - |p.fraction|, 10,
        HasFlag(s, p.rest, "fF"), HasFlag(s, p.rest, "lL"))
  }

  // Powers of two belong to the texts that start with 0x, in either case.
  lemma HexTexts(s: string)
    ensures Parsed(s).base == if "0x" <= s || "0X" <= s then 2 else 10
  {
    if |s| >= 2 {
      assert s[..2] == [s[0], s[1]];
    }
  }

  // ------------------------------------------------------- the end of the text

  function WithNul(s: string, rest: string): string {
    s + (['\0'] + rest)
  }

  lemma {:induction false} StopsAtNul(s: string, rest: string, i: nat, stops: string)
    requires '\0' !in s && i <= |s|
    ensures StopAt(WithNul(s, rest), i, stops) == StopAt(s, i, stops)
    decreases |s| - i
  {
    if !Stops(s, i, stops) {
      StopsAtNul(s, rest, i + 1, stops);
    }
  }

  lemma NulIsInside(t: string, n: nat, i: nat, k: nat)
    requires i <= n < k <= |t| && t[n] == '\0'
    ensures '\0' in t[i..k]
  {
    assert t[i..k][n - i] == '\0';
  }

  lemma FlagsEndAtNul(s: string, rest: string, i: nat, flag: string)
    requires '\0' !in s && '\0' !in flag && i <= |s|
    ensures HasFlag(WithNul(s, rest), i, flag) == HasFlag(s, i, flag)
  {
    var t := WithNul(s, rest);
    if HasFlag(t, i, flag) {
      var k :| i <= k < |t| && t[k] in flag && '\0' !in t[i..k];
      if k > |s| {
        NulIsInside(t, |s|, i, k);
      }
      assert s[k] in flag;
    }
    if HasFlag(s, i, flag) {
      var k :| i <= k < |s| && s[k] in flag && '\0' !in s[i..k];
      assert t[i..k] == s[i..k] && t[k] in flag;
    }
  }

  lemma PartsEndAtNul(s: string, rest: string, start: nat, marker: string, numberEnds: string, ends: string)
    requires '\0' !in s && '\0' !in marker && start <= |s|
    ensures PartsOf(WithNul(s, rest), start, marker, numberEnds, ends) == PartsOf(s, start, marker, numberEnds, ends)
  {
    var t := WithNul(s, rest);
    var i := StopAt(s, start, "." + numberEnds);
    StopsAtNul(s, rest, start, "." + numberEnds);
    var j := SkipAt(s, i, ".");
    assert SkipAt(t, i, ".") == j;
    var k := StopAt(s, j, numberEnds);
    StopsAtNul(s, rest, j, numberEnds);
    var m := SkipAt(s, SkipAt(s, k, marker), "+");
    assert SkipAt(t, SkipAt(t, k, marker), "+") == m;
    StopsAtNul(s, rest, m, ends);
    assert t[start..i] == s[start..i] && t[j..k] == s[j..k];
    assert t[m..StopAt(s, m, ends)] == s[m..StopAt(s, m, ends)];
  }

  // Nothing behind a NUL is read.
  lemma NulEndsTheText(s: string, rest: string)
    requires '\0' !in s
    ensures Parsed(WithNul(s, rest)) == Parsed(s)
  {
    hide PartsOf, HasFlag, ToInteger;
    var t := WithNul(s, rest);
    assert IsHex(t) == IsHex(s);
    var p := PartsOf(s, if IsHex(s) then 2 else 0, "pP", "pP", SUFFIXES);
    if IsHex(s) {
      PartsEndAtNul(s, rest, 2, "pP", "pP", SUFFIXES);
    } else {
      p := PartsOf(s, 0, "eE", "eE" + SUFFIXES + IMAGINARY, SUFFIXES + IMAGINARY);
      PartsEndAtNul(s, rest, 0, "eE", "eE" + SUFFIXES + IMAGINARY, SUFFIXES + IMAGINARY);
    }
    FlagsEndAtNul(s, rest, p.rest, "fF");
    FlagsEndAtNul(s, rest, p.rest, "lL");
  }

  // -------------------------------------------------------------- as it runs

  // string2integer on a big integer.
  method StringToInteger(s: string, b: Digit) returns (x: BigInt)
    requires 2 <= b <= 36
    ensures fresh(x) && x.Valid() && x.Value() == ToInteger(s, b as int)
  {
    for i := 0 to |s|
      invariant IsIntegerText(s[..i])
    {
      if !(IsAlnum(s[i]) || (s[i] == '-' && i == 0)) {
        x := new BigInt();
        return;
      }
      assert s[..i + 1] == s[..i] + [s[i]];
    }
    assert s[..|s|] == s;
    var stop;
    x, stop := FromText(s, b);
  }

  // One loop over the characters up to the next one of the stops.
  method TakeUntil(s: string, i: nat, stops: string) returns (text: string, p: nat)
    requires i <= |s|
    ensures p == StopAt(s, i, stops) && text == s[i..p]
  {
    text, p := "", i;
    while !Stops(s, p, stops)
      invariant i <= p <= |s| && text == s[i..p] && StopAt(s, p, stops) == StopAt(s, i, stops)
      decreases |s| - p
    {
      text := text + [s[p]];
      p := p + 1;
    }
  }

  method TakeParts(s: string, start: nat, marker: string, numberEnds: string, ends: string) returns (parts: Parts)
    requires start <= |s|
    ensures parts == PartsOf(s, start, marker, numberEnds, ends)
  {
    var whole, p := TakeUntil(s, start, "." + numberEnds);
    p := SkipAt(s, p, ".");
    var fraction, q := TakeUntil(s, p, numberEnds);
    q := SkipAt(s, q, marker);
    q := SkipAt(s, q, "+");
    var exponent, r := TakeUntil(s, q, ends);
    parts := Parts(whole, fraction, exponent, r);
  }

  method TakeFlags(s: string, start: nat) returns (isFloat: bool, isLong: bool)
    requires start <= |s|
    ensures isFloat == HasFlag(s, start, "fF") && isLong == HasFlag(s, start, "lL")
  {
    isFloat, isLong := false, false;
    var p := start;
    while p < |s| && s[p] != '\0'
      invariant start <= p <= |s| && '\0' !in s[start..p]
      invariant isFloat <==> exists k :: start <= k < p && s[k] in "fF"
      invariant isLong <==> exists k :: start <= k < p && s[k] in "lL"
    {
      if s[p] == 'f' || s[p] == 'F' {
        isFloat := true;
      } else if s[p] == 'l' || s[p] == 'L' {
        isLong := true;
      }
      p := p + 1;
    }
  }

  method ParseFloat(src: string) returns (float: Float)
    ensures float == Parsed(src)
  {
    var parts, base, significand, exponent;
    if IsHex(src) {
      base := 2;
      parts := TakeParts(src, 2, "pP", "pP", SUFFIXES);
      significand := ToInteger(parts.whole + parts.fraction, 16);
      exponent := ToInteger(parts.exponent, 10);
      exponent := exponent - |parts.fraction| * 4;
    } else {
      base := 10;
      parts := TakeParts(src, 0, "eE", "eE" + SUFFIXES + IMAGINARY, SUFFIXES + IMAGINARY);
      significand := ToInteger(parts.whole + parts.fraction, 10);
      exponent := ToInteger(parts.exponent, 10);
      exponent := exponent - |parts.fraction|;
    }
    var isFloat, isLong := TakeFlags(src, parts.rest);
    float := Float(significand, exponent, base, isFloat, isLong);
  }
}

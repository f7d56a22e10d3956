// Floating literals as section 6.4.4.2 of ISO/IEC 9899:1999 writes them, the
// number they denote, and what parsing them gives.
module FloatLiterals {
  import opened Numerals
  import opened BigIntText
  import opened FloatParsing

  datatype Exponent = NoExponent | Exponent(marker: char, sign: string, digits: string)

  // hexPrefix is "" for a decimal literal.
  datatype Literal = Literal(
    hexPrefix: string, whole: string, hasDot: bool, fraction: string, exponent: Exponent, suffix: string)

  predicate AreDigits(s: string, b: nat) {
    forall i :: 0 <= i < |s| ==> IsDigitOf(s[i], b)
  }

  predicate IsHexLiteral(l: Literal) {
    l.hexPrefix != ""
  }

  function Base(l: Literal): nat {
    if IsHexLiteral(l) then 16 else 10
  }

  function Markers(l: Literal): string {
    if IsHexLiteral(l) then "pP" else "eE"
  }

  // The grammar; a fraction needs the dot, a decimal literal the dot or an
  // exponent, a hexadecimal one an exponent.
  predicate WellFormed(l: Literal) {
    && l.hexPrefix in ["", "0x", "0X"]
    && AreDigits(l.whole, Base(l)) && AreDigits(l.fraction, Base(l)) && l.whole + l.fraction != ""
    && (l.fraction != "" ==> l.hasDot)
    && (l.exponent.NoExponent? ==> !IsHexLiteral(l) && l.hasDot)
    && (l.exponent.Exponent? ==>
          && l.exponent.marker in Markers(l) && l.exponent.sign in ["", "+", "-"]
          && l.exponent.digits != "" && AreDigits(l.exponent.digits, 10))
    && (forall k :: 0 <= k < |l.suffix| ==> l.suffix[k] in SuffixLetters(l))
  }

  // Letters of suffixes: besides those of the standard the extensions w, q and
  // d, and for decimal literals those of imaginary numbers, in any number.
  function SuffixLetters(l: Literal): string {
    if IsHexLiteral(l) then "fFlLwWqQdD" else "fFlLwWqQdDiIjJ"
  }

  predicate HasAny(s: string, letters: string) {
    exists k :: 0 <= k < |s| && s[k] in letters
  }

  function MarkerText(e: Exponent): string {
    if e.Exponent? then [e.marker] else ""
  }

  function PlusText(e: Exponent): string {
    if e.Exponent? && e.sign == "+" then "+" else ""
  }

  // The exponent as it reaches string2integer: without the marker and a plus.
  function SignedDigits(e: Exponent): string {
    match e
    case NoExponent => ""
    case Exponent(_, sign, digits) => (if sign == "-" then "-" else "") + digits
  }

  function Dot(l: Literal): string {
    if l.hasDot then "." else ""
  }

  // The text from the exponent's sign on, from its marker, and from the dot on.
  function FromSign(l: Literal): string {
    PlusText(l.exponent) + (SignedDigits(l.exponent) + l.suffix)
  }

  function FromMarker(l: Literal): string {
    MarkerText(l.exponent) + FromSign(l)
  }

  function FromDot(l: Literal): string {
    Dot(l) + (l.fraction + FromMarker(l))
  }

  function Render(l: Literal): string {
    l.hexPrefix + (l.whole + FromDot(l))
  }

  // ------------------------------------------------------- the number denoted

  function Power(b: nat, e: int): real
    requires b > 0
  {
    if e >= 0 then PowOf(b, e) as real else (PowPositive(b, -e); 1.0 / PowOf(b, -e) as real)
  }

  lemma {:induction false} PowPositive(b: nat, k: nat)
    requires b > 0
    ensures PowOf(b, k) > 0
  {
    if k > 0 {
      PowPositive(b, k - 1);
      assert b * PowOf(b, k - 1) >= PowOf(b, k - 1);
    }
  }

  function ExponentValue(e: Exponent): int
    requires e.Exponent? ==> AreDigits(e.digits, 10)
  {
    match e
    case NoExponent => 0
    case Exponent(_, sign, digits) => if sign == "-" then -Fold(0, digits, 10) else Fold(0, digits, 10)
  }

  // The digits before the dot plus the fraction, times a power of ten, or of
  // two for a hexadecimal literal.
  function Denoted(l: Literal): real
    requires WellFormed(l)
  {
    PowPositive(Base(l), |l.fraction|);
    (Fold(0, l.whole, Base(l)) as real
      + Fold(0, l.fraction, Base(l)) as real / PowOf(Base(l), |l.fraction|) as real)
    * Power(if IsHexLiteral(l) then 2 else 10, ExponentValue(l.exponent))
  }

  // ------------------------------------------------------------ taking it apart

  lemma {:induction false} StopsThere(s: string, i: nat, j: nat, stops: string)
    requires i <= j <= |s| && Stops(s, j, stops)
    requires forall k :: i <= k < j ==> !Stops(s, k, stops)
    ensures StopAt(s, i, stops) == j
    decreases j - i
  {
    if i < j {
      StopsThere(s, i + 1, j, stops);
    }
  }

  // A part that holds no stop ends where the text after it begins.
  lemma TakesPart(before: string, part: string, after: string, stops: string)
    requires forall k :: 0 <= k < |part| ==> part[k] != '\0' && part[k] !in stops
    requires after == "" || after[0] in stops
    ensures var s := before + (part + after);
      StopAt(s, |before|, stops) == |before| + |part| && s[|before|..|before| + |part|] == part
  {
    var s := before + (part + after);
    forall k | |before| <= k < |before| + |part|
      ensures !Stops(s, k, stops)
    {
      assert s[k] == part[k - |before|];
    }
    assert after != "" ==> s[|before| + |part|] == after[0];
    StopsThere(s, |before|, |before| + |part|, stops);
  }

  lemma TakesLast(before: string, part: string, after: string, stops: string)
    requires forall k :: 0 <= k < |part| ==> part[k] != '\0' && part[k] !in stops
    requires after == "" || after[0] in stops
    ensures var s := before + (part + after);
      && StopAt(s, |before|, stops) == |s| - |after| && s[|before|..|s| - |after|] == part
  {
    TakesPart(before, part, after, stops);
  }

  // An optional character is skipped.
  lemma SkipsPart(before: string, part: string, after: string, skipped: string)
    requires if part == "" then after == "" || after[0] !in skipped else |part| == 1 && part[0] in skipped
    ensures SkipAt(before + (part + after), |before|, skipped) == |before| + |part|
  {
    var s := before + (part + after);
    assert part != "" ==> s[|before|] == part[0];
    assert part == "" && after != "" ==> s[|before|] == after[0];
  }

  lemma MovesOn(before: string, part: string, after: string)
    ensures before + (part + after) == (before + part) + after && |before + part| == |before| + |part|
  {
  }

  lemma DigitsAreNoMarks(s: string, b: nat)
    requires AreDigits(s, b) && (b == 10 || b == 16)
    ensures forall k :: 0 <= k < |s| ==> s[k] !in ".pP" && s[k] != '\0' && s[k] != '-' && s[k] != '+' && IsAlnum(s[k])
    ensures b == 10 ==> forall k :: 0 <= k < |s| ==> s[k] !in "eE" + SUFFIXES + IMAGINARY && s[k] !in SUFFIXES
  {
  }

  function Ends(l: Literal): string {
    if IsHexLiteral(l) then SUFFIXES else SUFFIXES + IMAGINARY
  }

  function NumberEnds(l: Literal): string {
    if IsHexLiteral(l) then "pP" else "eE" + SUFFIXES + IMAGINARY
  }

  // What each part may be followed by.
  lemma SuffixHead(l: Literal)
    requires WellFormed(l)
    ensures l.suffix == "" || (l.suffix[0] in Ends(l) && l.suffix[0] !in Markers(l) && l.suffix[0] != '+')
  {
    assert Ends(l) == SuffixLetters(l);
    if l.suffix != "" {
      assert l.suffix[0] in SuffixLetters(l);
      LettersAreNoMarks(l, l.suffix[0]);
    }
  }

  lemma LettersAreNoMarks(l: Literal, c: char)
    requires c in SuffixLetters(l)
    ensures c !in Markers(l) && c != '+'
  {
  }

  lemma SignHead(l: Literal)
    requires WellFormed(l)
    ensures var tail := SignedDigits(l.exponent) + l.suffix; tail == "" || tail[0] != '+'
    ensures l.exponent.NoExponent? ==> FromSign(l) == "" || FromSign(l)[0] !in Markers(l)
  {
    SuffixHead(l);
    if l.exponent.Exponent? {
      DigitsAreNoMarks(l.exponent.digits, 10);
      assert (SignedDigits(l.exponent) + l.suffix)[0] == SignedDigits(l.exponent)[0];
    } else {
      assert FromSign(l) == l.suffix;
    }
  }

  lemma MarkerHead(l: Literal)
    requires WellFormed(l)
    ensures FromMarker(l) == "" || FromMarker(l)[0] in NumberEnds(l)
    ensures FromDot(l) == "" || FromDot(l)[0] in "." + NumberEnds(l)
    ensures !l.hasDot ==> FromDot(l) == l.fraction + FromMarker(l) && l.fraction == "" && FromDot(l)[0] != '.'
  {
    if l.exponent.NoExponent? {
      assert FromMarker(l) == l.suffix;
    }
  }

  lemma SignedDigitsGoOn(e: Exponent, ends: string)
    requires e.Exponent? ==> AreDigits(e.digits, 10)
    requires ends == SUFFIXES || ends == SUFFIXES + IMAGINARY
    ensures forall k :: 0 <= k < |SignedDigits(e)| ==> SignedDigits(e)[k] != '\0' && SignedDigits(e)[k] !in ends
  {
    if e.Exponent? {
      DigitsAreNoMarks(e.digits, 10);
    }
  }

  // Up to the dot and over it; before is what has been read.
  lemma ReadsWhole(l: Literal) returns (before: string)
    requires WellFormed(l)
    ensures var s := Render(l); var i := StopAt(s, |l.hexPrefix|, "." + NumberEnds(l));
      && s[|l.hexPrefix|..i] == l.whole && SkipAt(s, i, ".") == |before|
      && s == before + (l.fraction + FromMarker(l))
  {
    hide StopAt, SkipAt, IsDigitOf, AreDigits;
    var whole := l.hexPrefix + l.whole;
    var after := l.fraction + FromMarker(l);
    DigitsAreNoMarks(l.whole, Base(l));
    MarkerHead(l);
    TakesPart(l.hexPrefix, l.whole, FromDot(l), "." + NumberEnds(l));
    MovesOn(l.hexPrefix, l.whole, FromDot(l));
    SkipsPart(whole, Dot(l), after, ".");
    MovesOn(whole, Dot(l), after);
    before := whole + Dot(l);
  }

  // Over the fraction.
  lemma ReadsFraction(l: Literal, before: string) returns (next: string)
    requires WellFormed(l) && Render(l) == before + (l.fraction + FromMarker(l))
    ensures var s := Render(l);
      && StopAt(s, |before|, NumberEnds(l)) == |next| && s[|before|..|next|] == l.fraction
      && s == next + FromMarker(l)
  {
    DigitsAreNoMarks(l.fraction, Base(l));
    MarkerHead(l);
    TakesPart(before, l.fraction, FromMarker(l), NumberEnds(l));
    MovesOn(before, l.fraction, FromMarker(l));
    next := before + l.fraction;
  }

  // Over the marker and a plus.
  lemma ReadsMarker(l: Literal, before: string) returns (next: string)
    requires WellFormed(l) && Render(l) == before + FromMarker(l)
    ensures var s := Render(l);
      && SkipAt(s, SkipAt(s, |before|, Markers(l)), "+") == |next|
      && s == next + (SignedDigits(l.exponent) + l.suffix)
  {
    hide StopAt, SkipAt, AreDigits, SignedDigits;
    var marker := before + MarkerText(l.exponent);
    var after := SignedDigits(l.exponent) + l.suffix;
    SignHead(l);
    SkipsPart(before, MarkerText(l.exponent), FromSign(l), Markers(l));
    MovesOn(before, MarkerText(l.exponent), FromSign(l));
    SkipsPart(marker, PlusText(l.exponent), after, "+");
    MovesOn(marker, PlusText(l.exponent), after);
    next := marker + PlusText(l.exponent);
  }

  lemma ExponentGoesOn(l: Literal)
    requires WellFormed(l)
    ensures forall k :: 0 <= k < |SignedDigits(l.exponent)| ==>
      SignedDigits(l.exponent)[k] != '\0' && SignedDigits(l.exponent)[k] !in Ends(l)
  {
    SignedDigitsGoOn(l.exponent, Ends(l));
  }

  lemma ReadsExponent(l: Literal, before: string)
    requires WellFormed(l) && Render(l) == before + (SignedDigits(l.exponent) + l.suffix)
    ensures var s := Render(l); var n := StopAt(s, |before|, Ends(l));
      n == |s| - |l.suffix| && s[|before|..n] == SignedDigits(l.exponent)
  {
    hide *;
    ExponentGoesOn(l);
    SuffixHead(l);
    TakesLast(before, SignedDigits(l.exponent), l.suffix, Ends(l));
  }

  lemma PartsAre(s: string, start: nat, marker: string, numberEnds: string, ends: string, j: nat, m: nat, parts: Parts)
    requires start <= |s| && j == SkipAt(s, StopAt(s, start, "." + numberEnds), ".")
    requires m == SkipAt(s, SkipAt(s, StopAt(s, j, numberEnds), marker), "+") && parts.rest == StopAt(s, m, ends)
    requires parts.whole == s[start..StopAt(s, start, "." + numberEnds)]
    requires parts.fraction == s[j..StopAt(s, j, numberEnds)] && parts.exponent == s[m..parts.rest]
    ensures PartsOf(s, start, marker, numberEnds, ends) == parts
  {
  }

  lemma PartsOfLiteral(l: Literal)
    requires WellFormed(l)
    ensures PartsOf(Render(l), |l.hexPrefix|, Markers(l), NumberEnds(l), Ends(l))
      == Parts(l.whole, l.fraction, SignedDigits(l.exponent), |Render(l)| - |l.suffix|)
  {
    var before := ReadsWhole(l);
    var fraction := ReadsFraction(l, before);
    var next := ReadsMarker(l, fraction);
    ReadsExponent(l, next);
    PartsAre(Render(l), |l.hexPrefix|, Markers(l), NumberEnds(l), Ends(l), |before|, |next|,
      Parts(l.whole, l.fraction, SignedDigits(l.exponent), |Render(l)| - |l.suffix|));
  }

  // ------------------------------------------------------------ what it denotes

  lemma {:induction false} FoldConcat(acc: int, s: string, t: string, b: nat)
    requires AreDigits(s, b) && AreDigits(t, b)
    ensures AreDigits(s + t, b) && Fold(acc, s + t, b) == Fold(Fold(acc, s, b), t, b)
  {
    if t == "" {
      assert s + t == s;
    } else {
      var u := t[..|t| - 1];
      FoldConcat(acc, s, u, b);
      assert (s + t)[..|s + t| - 1] == s + u;
    }
  }

  lemma Distribute(acc: int, p: int, f: int, b: int)
    ensures (acc * p + f) * b == acc * (b * p) + f * b
  {
    assert acc * p * b == acc * (b * p);
  }

  lemma {:induction false} FoldFrom(acc: int, t: string, b: nat)
    requires AreDigits(t, b)
    ensures Fold(acc, t, b) == acc * PowOf(b, |t|) + Fold(0, t, b)
  {
    if t != "" {
      var u := t[..|t| - 1];
      FoldFrom(acc, u, b);
      Distribute(acc, PowOf(b, |u|), Fold(0, u, b), b);
    }
  }

  lemma DigitsToInteger(s: string, b: nat)
    requires AreDigits(s, b) && (b == 10 || b == 16)
    ensures ToInteger(s, b) == Fold(0, s, b)
  {
    DigitsAreNoMarks(s, b);
    ScanTakesAll(s, 0, b);
    assert s[0..|s|] == s;
  }

  lemma SignedToInteger(e: Exponent)
    requires e.Exponent? ==> AreDigits(e.digits, 10)
    ensures ToInteger(SignedDigits(e), 10) == ExponentValue(e)
  {
    if e.Exponent? && e.sign == "-" {
      var s := "-" + e.digits;
      DigitsAreNoMarks(e.digits, 10);
      ScanTakesAll(s, 1, 10);
      assert s[1..|s|] == e.digits;
    } else if e.Exponent? {
      assert SignedDigits(e) == e.digits;
      DigitsToInteger(e.digits, 10);
    } else {
      DigitsToInteger("", 10);
    }
  }

  lemma HexIsSeen(l: Literal)
    requires WellFormed(l)
    ensures IsHex(Render(l)) <==> IsHexLiteral(l)
  {
    var s := Render(l);
    if IsHexLiteral(l) {
      assert s[0] == l.hexPrefix[0] && s[1] == l.hexPrefix[1];
    } else {
      MarkerHead(l);
      DigitsAreNoMarks(l.whole, 10);
      assert s == l.whole + FromDot(l);
      assert l.whole == "" ==> s[0] == '.';
      assert |l.whole| == 1 && |s| > 1 ==> s[1] == FromDot(l)[0];
      assert |l.whole| > 1 ==> s[1] == l.whole[1];
    }
  }

  lemma FlagAtEnd(before: string, suffix: string, flag: string)
    requires '\0' !in suffix
    ensures HasFlag(before + suffix, |before|, flag) <==> HasAny(suffix, flag)
  {
    var s := before + suffix;
    if HasAny(suffix, flag) {
      var k :| 0 <= k < |suffix| && suffix[k] in flag;
      assert s[|before| + k] == suffix[k] && s[|before|..|before| + k] == suffix[..k];
    }
    if HasFlag(s, |before|, flag) {
      var k :| |before| <= k < |s| && s[k] in flag && '\0' !in s[|before|..k];
      assert suffix[k - |before|] == s[k];
    }
  }

  lemma SuffixHasNoEnd(l: Literal)
    requires WellFormed(l)
    ensures '\0' !in l.suffix
  {
    forall k | 0 <= k < |l.suffix|
      ensures l.suffix[k] != '\0'
    {
      assert l.suffix[k] in SuffixLetters(l);
    }
  }

  lemma SuffixIsLast(l: Literal) returns (before: string)
    requires WellFormed(l)
    ensures Render(l) == before + l.suffix
  {
    var whole := ReadsWhole(l);
    var fraction := ReadsFraction(l, whole);
    var next := ReadsMarker(l, fraction);
    MovesOn(next, SignedDigits(l.exponent), l.suffix);
    before := next + SignedDigits(l.exponent);
  }

  lemma FlagsOfSuffix(l: Literal)
    requires WellFormed(l)
    ensures var s := Render(l); var i := |s| - |l.suffix|;
      && (HasFlag(s, i, "fF") <==> HasAny(l.suffix, "fF"))
      && (HasFlag(s, i, "lL") <==> HasAny(l.suffix, "lL"))
  {
    var before := SuffixIsLast(l);
    SuffixHasNoEnd(l);
    FlagAtEnd(before, l.suffix, "fF");
    FlagAtEnd(before, l.suffix, "lL");
  }

  lemma LiteralNumbers(l: Literal)
    requires WellFormed(l)
    ensures AreDigits(l.whole + l.fraction, Base(l))
    ensures ToInteger(l.whole + l.fraction, Base(l)) == Fold(0, l.whole + l.fraction, Base(l))
    ensures ToInteger(SignedDigits(l.exponent), 10) == ExponentValue(l.exponent)
  {
    DigitsToInteger(l.whole + l.fraction, Base(l));
    SignedToInteger(l.exponent);
  }

  // Powers of the base: the bits of a hexadecimal digit count four times.
  function ExponentBase(l: Literal): nat {
    if IsHexLiteral(l) then 2 else 10
  }

  function DigitWeight(l: Literal): nat {
    if IsHexLiteral(l) then 4 else 1
  }

  // What parsing makes of the parts.
  function Assembled(s: string, p: Parts, hex: bool): Float {
    Float(
      ToInteger(p.whole + p.fraction, if hex then 16 else 10),
      ToInteger(p.exponent, 10) - (if hex then 4 else 1) * |p.fraction|,
      if hex then 2 else 10,
      HasFlag(s, p.rest, "fF"), HasFlag(s, p.rest, "lL"))
  }

  lemma ParsedHex(s: string, p: Parts)
    requires IsHex(s) && p == PartsOf(s, 2, "pP", "pP", SUFFIXES)
    ensures Parsed(s) == Assembled(s, p, true)
  {
  }

  lemma ParsedDecimal(s: string, p: Parts)
    requires !IsHex(s) && p == PartsOf(s, 0, "eE", "eE" + SUFFIXES + IMAGINARY, SUFFIXES + IMAGINARY)
    ensures Parsed(s) == Assembled(s, p, false)
  {
  }

  lemma ParsedByParts(l: Literal)
    requires WellFormed(l)
    ensures var s := Render(l);
      Parsed(s)
      == Assembled(s, Parts(l.whole, l.fraction, SignedDigits(l.exponent), |s| - |l.suffix|), IsHexLiteral(l))
  {
    var s := Render(l);
    var p := Parts(l.whole, l.fraction, SignedDigits(l.exponent), |s| - |l.suffix|);
    PartsOfLiteral(l);
    HexIsSeen(l);
    if IsHexLiteral(l) {
      assert |l.hexPrefix| == 2;
      ParsedHex(s, p);
    } else {
      ParsedDecimal(s, p);
    }
  }

  lemma ParsedLiteral(l: Literal)
    requires WellFormed(l)
    ensures AreDigits(l.whole + l.fraction, Base(l))
    ensures Parsed(Render(l)) == Float(
      Fold(0, l.whole + l.fraction, Base(l)),
      ExponentValue(l.exponent) - DigitWeight(l) * |l.fraction|,
      ExponentBase(l),
      HasAny(l.suffix, "fF"), HasAny(l.suffix, "lL"))
  {
    hide WellFormed, HasAny, Render, Parsed, Fold, ToInteger, ExponentValue, SignedDigits, HasFlag;
    ParsedByParts(l);
    LiteralNumbers(l);
    FlagsOfSuffix(l);
  }

  // --------------------------------------------------------------- exactness

  lemma HexPower(n: nat)
    ensures PowOf(16, n) == PowOf(2, 4 * n)
  {
    PowOfProduct(2, 4, n);
    assert PowOf(2, 4) == 2 * PowOf(2, 3) == 4 * PowOf(2, 2) == 8 * PowOf(2, 1) == 16;
  }

  lemma PowerStep(b: nat, e: int)
    requires b > 0
    ensures Power(b, e) == b as real * Power(b, e - 1)
  {
    if e <= 0 {
      PowPositive(b, -e);
      PowPositive(b, 1 - e);
      assert PowOf(b, 1 - e) == b * PowOf(b, -e);
      Reciprocal(b as real, PowOf(b, -e) as real);
    }
  }

  lemma Reciprocal(b: real, p: real)
    requires b > 0.0 && p > 0.0
    ensures b * p > 0.0 && 1.0 / p == b * (1.0 / (b * p))
  {
  }

  lemma {:induction false} RealProduct(x: nat, y: nat)
    ensures (x * y) as real == x as real * y as real
  {
    if x > 0 {
      RealProduct(x - 1, y);
      assert x * y == (x - 1) * y + y;
    }
  }

  lemma PowOfStep(b: nat, k: nat)
    requires k > 0
    ensures PowOf(b, k) as real == b as real * PowOf(b, k - 1) as real
  {
    RealProduct(b, PowOf(b, k - 1));
  }

  lemma PowerDownStep(b: nat, e: int, k: nat)
    requires b > 0 && k > 0 && Power(b, e) == PowOf(b, k - 1) as real * Power(b, e - (k - 1))
    ensures Power(b, e) == PowOf(b, k) as real * Power(b, e - k)
  {
    hide PowOf, Power;
    var d := e - (k - 1);
    PowerStep(b, d);
    PowOfStep(b, k);
    assert d - 1 == e - k;
    ChainProducts(Power(b, e), PowOf(b, k - 1) as real, Power(b, d), b as real, Power(b, d - 1), PowOf(b, k) as real);
  }

  lemma PowOfZero(b: nat)
    ensures PowOf(b, 0) == 1
  {
  }

  // Dividing by a power lowers the exponent.
  lemma {:induction false} PowerDown(b: nat, e: int, k: nat)
    requires b > 0
    ensures Power(b, e) == PowOf(b, k) as real * Power(b, e - k)
  {
    hide PowOf, Power;
    if k == 0 {
      PowOfZero(b);
    } else {
      PowerDown(b, e, k - 1);
      PowerDownStep(b, e, k);
    }
  }

  lemma ChainProducts(z: real, p: real, y: real, b: real, x: real, q: real)
    requires z == p * y && y == b * x && q == b * p
    ensures z == q * x
  {
    Regroup(p, b, x);
  }

  lemma Regroup(p: real, b: real, x: real)
    ensures p * (b * x) == (b * p) * x
  {
  }

  lemma ScaledFraction(w: real, f: real, p: real, x: real)
    requires p > 0.0
    ensures (w * p + f) * x == (w + f / p) * (p * x)
  {
    assert (w + f / p) * p == w * p + f;
    Regroup((w + f / p), p, x);
  }

  lemma RealSum(z: nat, w: nat, p: nat, f: nat)
    requires z == w * p + f
    ensures z as real == w as real * p as real + f as real
  {
    RealProduct(w, p);
  }

  lemma NatProduct(x: nat, y: nat)
    ensures x * y >= 0
  {
  }

  lemma {:induction false} FoldIsNat(s: string, b: nat)
    requires AreDigits(s, b)
    ensures Fold(0, s, b) >= 0
  {
    if s != "" {
      FoldIsNat(s[..|s| - 1], b);
      NatProduct(Fold(0, s[..|s| - 1], b), b);
    }
  }

  lemma SignificandSplits(whole: string, fraction: string, b: nat)
    requires AreDigits(whole, b) && AreDigits(fraction, b)
    ensures AreDigits(whole + fraction, b)
    ensures Fold(0, whole + fraction, b) as real
      == Fold(0, whole, b) as real * PowOf(b, |fraction|) as real + Fold(0, fraction, b) as real
  {
    hide Fold, PowOf;
    FoldConcat(0, whole, fraction, b);
    FoldFrom(Fold(0, whole, b), fraction, b);
    FoldIsNat(whole, b);
    FoldIsNat(fraction, b);
    FoldIsNat(whole + fraction, b);
    RealSum(Fold(0, whole + fraction, b), Fold(0, whole, b), PowOf(b, |fraction|), Fold(0, fraction, b));
  }

  lemma BasesArePositive(l: Literal)
    ensures Base(l) > 0 && ExponentBase(l) > 0
  {
  }

  lemma DigitsAsPower(l: Literal, n: nat)
    ensures PowOf(ExponentBase(l), DigitWeight(l) * n) == PowOf(Base(l), n)
  {
    hide PowOf;
    if IsHexLiteral(l) {
      HexPower(n);
    }
  }

  // The weight of the fraction's digits as a power of the exponent's base.
  lemma FractionWeight(l: Literal)
    requires WellFormed(l)
    ensures var n := |l.fraction|; var e := ExponentValue(l.exponent);
      && PowOf(Base(l), n) > 0
      && Power(ExponentBase(l), e) == PowOf(Base(l), n) as real * Power(ExponentBase(l), e - DigitWeight(l) * n)
  {
    hide PowOf, Power, ExponentValue, DigitWeight, ExponentBase, Base;
    var n := |l.fraction|;
    BasesArePositive(l);
    DigitsAsPower(l, n);
    PowPositive(Base(l), n);
    PowerDown(ExponentBase(l), ExponentValue(l.exponent), DigitWeight(l) * n);
  }

  // Parsing is exact: the significand times the power is the number denoted.
  lemma ParsedIsDenoted(l: Literal)
    requires WellFormed(l)
    ensures var p := Parsed(Render(l));
      p.base > 0 && p.significand as real * Power(p.base, p.exponent) == Denoted(l)
  {
    hide Fold, PowOf, Power, Parsed, Render, ExponentValue;
    var b := Base(l);
    var x := Power(ExponentBase(l), ExponentValue(l.exponent) - DigitWeight(l) * |l.fraction|);
    ParsedLiteral(l);
    SignificandSplits(l.whole, l.fraction, b);
    FractionWeight(l);
    ScaledFraction(Fold(0, l.whole, b) as real, Fold(0, l.fraction, b) as real, PowOf(b, |l.fraction|) as real, x);
  }

  lemma SignificandIsNat(l: Literal)
    requires WellFormed(l)
    ensures Parsed(Render(l)).significand >= 0
  {
    ParsedLiteral(l);
    FoldIsNat(l.whole + l.fraction, Base(l));
  }
}

// Converting a floating literal to fixed point.
module FixedPoint {
  import opened Numerals
  import opened DivisionMath
  import opened BigIntText
  import opened FloatParsing
  import opened FloatLiterals

  lemma PowOfNext(b: nat, k: nat)
    ensures PowOf(b, k + 1) == PowOf(b, k) * b
  {
  }

  // power, for exponents that are not negative.
  method RaiseToPower(base: nat, exponent: nat) returns (result: nat)
    ensures result == PowOf(base, exponent)
  {
    if exponent == 0 {
      return 1;
    }
    result := base;
    var count := exponent - 1;
    PowOfNext(base, 0);
    while count != 0
      invariant 0 <= count < exponent && result == PowOf(base, exponent - count)
      decreases count
    {
      PowOfNext(base, exponent - count);
      result := result * base;
      count := count - 1;
    }
  }

  // The scaled number before saturation: factor is the power of two of the
  // fraction bits.
  function Scaled(significand: int, exponent: int, base: nat, factor: nat): int
    requires base > 0
  {
    if exponent < 0 then
      PowPositive(base, -exponent);
      TruncQuot(significand * factor, PowOf(base, -exponent))
    else significand * factor * PowOf(base, exponent)
  }

  function Saturated(v: int, width: nat): int
    requires width > 0
  {
    var limit: int := PowOf(2, width - 1);
    if v >= limit then limit - 1 else if v <= -limit - 1 then -limit else v
  }

  // What is stored: only a literal with an exponent that is not negative is
  // saturated.
  function Stored(float: Float, width: nat, fractionBits: nat): int
    requires width > 0 && float.base > 0
  {
    var v := Scaled(float.significand, float.exponent, float.base, PowOf(2, fractionBits));
    if float.exponent < 0 then v else Saturated(v, width)
  }

  method Saturate(v: int, width: nat) returns (value: int)
    requires width > 0
    ensures value == Saturated(v, width)
  {
    var bound := RaiseToPower(2, width - 1);
    var limit: int := bound;
    value := v;
    if value >= limit {
      value := limit - 1;
    } else if value <= -limit - 1 {
      value := -limit;
    }
  }

  // The fixed-point branch of convert_float_literal.
  method ToFixed(float: Float, width: nat, fractionBits: nat) returns (value: int)
    requires width > 0 && float.base > 0
    ensures value == Stored(float, width, fractionBits)
  {
    var factor := RaiseToPower(2, fractionBits);
    value := float.significand * factor;
    if value != 0 {
      if float.exponent < 0 {
        var divisor := RaiseToPower(float.base, -float.exponent);
        PowPositive(float.base, -float.exponent);
        value := TruncQuot(value, divisor);
      } else {
        var scale := RaiseToPower(float.base, float.exponent);
        value := value * scale;
        value := Saturate(value, width);
      }
    } else {
      ZeroStaysZero(float, width, fractionBits);
    }
  }

  lemma ZeroStaysZero(float: Float, width: nat, fractionBits: nat)
    requires width > 0 && float.base > 0 && float.significand * PowOf(2, fractionBits) == 0
    ensures Stored(float, width, fractionBits) == 0
  {
    hide PowOf;
    PowPositive(2, width - 1);
    if float.exponent < 0 {
      PowPositive(float.base, -float.exponent);
      ZeroQuotient(PowOf(float.base, -float.exponent));
    }
  }

  lemma ZeroQuotient(d: nat)
    requires d > 0
    ensures TruncQuot(0, d) == 0
  {
  }

  // ------------------------------------------------------------------ rounding

  lemma QuotientBounds(n: nat, d: nat)
    requires d > 0
    ensures var q := TruncQuot(n, d);
      q >= 0 && q as real * d as real <= n as real < (q as real + 1.0) * d as real
  {
    var q := n / d;
    IntegerBounds(n, d);
    RealProduct(q, d);
    RealProduct(q + 1, d);
  }

  lemma IntegerBounds(n: nat, d: nat)
    requires d > 0
    ensures n / d >= 0 && (n / d) * d <= n < (n / d + 1) * d
  {
    DivModFacts(n, d);
    Successor(n / d, d);
  }

  lemma Successor(q: int, d: int)
    ensures (q + 1) * d == q * d + d
  {
  }

  // v * d <= n < (v + 1) * d is v <= n / d < v + 1.
  lemma DivideThrough(v: real, n: real, d: real)
    requires d > 0.0 && v * d <= n < (v + 1.0) * d
    ensures v <= n * (1.0 / d) < v + 1.0
  {
    var x := n * (1.0 / d);
    assert x * d == n;
  }

  // The number scaled, for a significand that is not negative, is the exact
  // product rounded down.
  lemma ScaledRoundsDown(significand: nat, exponent: int, base: nat, factor: nat)
    requires base > 0
    ensures var v := Scaled(significand, exponent, base, factor);
      && v >= 0
      && v as real <= significand as real * Power(base, exponent) * factor as real < v as real + 1.0
  {
    hide PowOf;
    NatProduct(significand, factor);
    RealProduct(significand, factor);
    if exponent < 0 {
      var d := PowOf(base, -exponent);
      PowPositive(base, -exponent);
      QuotientBounds(significand * factor, d);
      DivideThrough(TruncQuot(significand * factor, d) as real, (significand * factor) as real, d as real);
      Commute(significand as real, factor as real, 1.0 / d as real);
    } else {
      var scale := PowOf(base, exponent);
      NatProduct(significand * factor, scale);
      RealProduct(significand * factor, scale);
      Commute(significand as real, factor as real, scale as real);
    }
  }

  lemma Commute(x: real, y: real, z: real)
    ensures x * y * z == x * z * y
  {
  }

  // For a negative significand it is the negated number: rounding is towards zero.
  lemma ScalingIsOdd(significand: int, exponent: int, base: nat, factor: nat)
    requires base > 0
    ensures Scaled(-significand, exponent, base, factor) == -Scaled(significand, exponent, base, factor)
  {
    assert -significand * factor == -(significand * factor);
    if exponent < 0 {
      PowPositive(base, -exponent);
      QuotientIsOdd(significand * factor, PowOf(base, -exponent));
    } else {
      assert -(significand * factor) * PowOf(base, exponent) == -(significand * factor * PowOf(base, exponent));
    }
  }

  lemma QuotientIsOdd(n: int, d: nat)
    requires d > 0
    ensures TruncQuot(-n, d) == -TruncQuot(n, d)
  {
    assert Abs(-n) == Abs(n);
    if n == 0 {
      ZeroQuotient(d);
    }
  }

  // A literal scaled is the number it denotes times the power of two of the
  // fraction bits, rounded down.
  lemma LiteralRoundsDown(l: Literal, fractionBits: nat)
    requires WellFormed(l)
    ensures var p := Parsed(Render(l));
      && p.base > 0
      && var v := Scaled(p.significand, p.exponent, p.base, PowOf(2, fractionBits));
         v >= 0 && v as real <= Denoted(l) * PowOf(2, fractionBits) as real < v as real + 1.0
  {
    hide *;
    var p := Parsed(Render(l));
    SignificandIsNat(l);
    ParsedIsDenoted(l);
    ScaledRoundsDown(p.significand, p.exponent, p.base, PowOf(2, fractionBits));
  }

  // What is stored fits the width except when the number is too large and its
  // exponent is negative, so that it is not saturated.
  lemma StoredFits(float: Float, width: nat, fractionBits: nat)
    requires width > 0 && float.base > 0 && float.significand >= 0
    ensures var v := Scaled(float.significand, float.exponent, float.base, PowOf(2, fractionBits));
      && (v < PowOf(2, width - 1) ==> Stored(float, width, fractionBits) == v)
      && (0 <= Stored(float, width, fractionBits) < PowOf(2, width - 1)
          <==> (float.exponent >= 0 || v < PowOf(2, width - 1)))
  {
    ScaledRoundsDown(float.significand, float.exponent, float.base, PowOf(2, fractionBits));
    PowPositive(2, width - 1);
  }

  function Distance(x: int, y: int): nat {
    Abs(x - y)
  }

  // r is the number of the range -limit .. limit - 1 that is closest to x.
  ghost predicate IsClosest(r: int, x: int, limit: int) {
    && -limit <= r < limit
    && (forall w :: -limit <= w < limit && w != r ==> Distance(x, r) < Distance(x, w))
  }

  // Saturation takes the closest number.
  lemma SaturatedIsClosest(v: int, width: nat)
    requires width > 0
    ensures IsClosest(Saturated(v, width), v, PowOf(2, width - 1))
  {
    PowPositive(2, width - 1);
  }

  // With an exponent that is not negative, what is stored is the number of the
  // width that is closest to the literal times the power of two of the fraction
  // bits.
  lemma StoredIsClosest(float: Float, width: nat, fractionBits: nat)
    requires width > 0 && float.base > 0 && float.exponent >= 0
    ensures var x := float.significand * PowOf(2, fractionBits) * PowOf(float.base, float.exponent);
      IsClosest(Stored(float, width, fractionBits), x, PowOf(2, width - 1))
  {
    SaturatedIsClosest(float.significand * PowOf(2, fractionBits) * PowOf(float.base, float.exponent), width);
  }

  lemma ReadDigit(acc: int, s: string, c: char)
    requires AreDigits(s, 10) && IsDigitOf(c, 10)
    ensures AreDigits(s + [c], 10) && Fold(acc, s + [c], 10) == Fold(acc, s, 10) * 10 + DigitValue(c)
  {
    hide Fold, IsDigitOf, DigitValue;
    FoldStep(acc, s, c, 10);
  }

  lemma ReadDigits()
    ensures AreDigits("400005", 10) && Fold(0, "400005", 10) == 400005
  {
    hide Fold;
    FoldOfNothing(0, "", 10);
    ReadDigit(0, "", '4');
    ReadDigit(0, "" + ['4'], '0');
    ReadDigit(0, "" + ['4'] + ['0'], '0');
    ReadDigit(0, "" + ['4'] + ['0'] + ['0'], '0');
    ReadDigit(0, "" + ['4'] + ['0'] + ['0'] + ['0'], '0');
    ReadDigit(0, "" + ['4'] + ['0'] + ['0'] + ['0'] + ['0'], '5');
    assert "" + ['4'] + ['0'] + ['0'] + ['0'] + ['0'] + ['5'] == "400005";
  }

  lemma ParsedTooLarge()
    ensures Parsed("40000.5") == Float(400005, -1, 10, false, false)
  {
    hide Parsed, Fold;
    var l := Literal("", "40000", true, "5", NoExponent, "");
    assert Render(l) == "40000.5";
    ParsedLiteral(l);
    assert l.whole + l.fraction == "400005";
    ReadDigits();
  }

  // 40000.5 with 16 integer and 16 fraction bits is not saturated although it
  // does not fit.
  lemma TooLargeWithFraction()
    ensures Stored(Parsed("40000.5"), 32, 16) >= PowOf(2, 31)
  {
    hide Parsed;
    ParsedTooLarge();
    Powers();
    assert PowOf(10, 1) == 10 * PowOf(10, 0) == 10;
  }

  lemma Powers()
    ensures PowOf(2, 16) == 65536 && PowOf(2, 31) == 2147483648
  {
    assert PowOf(2, 4) == 2 * PowOf(2, 3) == 4 * PowOf(2, 2) == 8 * PowOf(2, 1) == 16;
    PowOfSum(2, 4, 4);
    PowOfSum(2, 8, 8);
    PowOfSum(2, 16, 16);
    assert PowOf(2, 32) == 2 * PowOf(2, 31);
  }

  // ------------------------------------------------------ the whole conversion

  // A fixed-point type; without integer bits half of the width is fraction.
  datatype Format = Format(width: nat, integerBits: Option<nat>)

  datatype Formats = Formats(float: Format, double: Format, longDouble: Format)

  predicate IsFormat(f: Format) {
    f.width > 0 && (f.integerBits.Some? ==> f.integerBits.value <= f.width)
  }

  function FractionBits(f: Format): nat
    requires IsFormat(f)
  {
    if f.integerBits.None? then f.width / 2 else f.width - f.integerBits.value
  }

  // Integer and fraction bits make up the width; if they are not given, both
  // take half.
  lemma BitsMakeTheWidth(f: Format)
    requires IsFormat(f)
    ensures f.integerBits.Some? ==> f.integerBits.value + FractionBits(f) == f.width
    ensures f.integerBits.None? ==> 2 * FractionBits(f) <= f.width <= 2 * FractionBits(f) + 1
  {
  }

  // convert_float_literal with fixed-point types.
  method ConvertFloatLiteral(src: string, formats: Formats) returns (format: Format, value: int)
    requires IsFormat(formats.float) && IsFormat(formats.double) && IsFormat(formats.longDouble)
    ensures IsFormat(format) && value == Stored(Parsed(src), format.width, FractionBits(format))
    ensures var p := Parsed(src);
      format == if p.isFloat then formats.float else if p.isLong then formats.longDouble else formats.double
  {
    var float := ParseFloat(src);
    if float.isFloat {
      format := formats.float;
    } else if float.isLong {
      format := formats.longDouble;
    } else {
      format := formats.double;
    }
    value := ToFixed(float, format.width, FractionBits(format));
  }

  lemma FitsThenRounded(v: int, stored: int, x: real, limit: nat)
    requires v as real <= x < v as real + 1.0 && (v < limit ==> stored == v)
    ensures x < limit as real ==> stored as real <= x < stored as real + 1.0
  {
  }

  // The result of converting a literal to a format.
  function StoredLiteral(l: Literal, format: Format): int
    requires WellFormed(l) && IsFormat(format)
  {
    ParsedIsDenoted(l);
    Stored(Parsed(Render(l)), format.width, FractionBits(format))
  }

  // A literal that fits, or whose exponent is negative, is stored rounded down.
  lemma LiteralIsStored(l: Literal, format: Format)
    requires WellFormed(l) && IsFormat(format)
    ensures var x := Denoted(l) * PowOf(2, FractionBits(format)) as real; var v := StoredLiteral(l, format);
      x < PowOf(2, format.width - 1) as real || Parsed(Render(l)).exponent < 0
      ==> v as real <= x < v as real + 1.0
  {
    hide Denoted, PowOf, Saturated, Scaled, Parsed, Render, WellFormed, FractionBits;
    var p := Parsed(Render(l));
    SignificandIsNat(l);
    LiteralRoundsDown(l, FractionBits(format));
    StoredFits(p, format.width, FractionBits(format));
    FitsThenRounded(Scaled(p.significand, p.exponent, p.base, PowOf(2, FractionBits(format))),
      Stored(p, format.width, FractionBits(format)), Denoted(l) * PowOf(2, FractionBits(format)) as real,
      PowOf(2, format.width - 1));
  }

  // A literal with an exponent that is not negative is stored as the greatest
  // number of the format if it does not fit.
  lemma LiteralIsSaturated(l: Literal, format: Format)
    requires WellFormed(l) && IsFormat(format) && Parsed(Render(l)).exponent >= 0
    ensures var x := Denoted(l) * PowOf(2, FractionBits(format)) as real;
      x >= PowOf(2, format.width - 1) as real ==> StoredLiteral(l, format) == PowOf(2, format.width - 1) - 1
  {
    hide Denoted, PowOf, Scaled, Parsed, Render, WellFormed, FractionBits;
    LiteralRoundsDown(l, FractionBits(format));
    ParsedIsDenoted(l);
  }
}

// Numerals in bases up to 36 and what scanning them means.
module Numerals {

  // Text character of a digit below 36.
  function DigitChar(d: nat): char
    requires d < 36
  {
    if d < 10 then '0' + d as char else 'A' + (d - 10) as char
  }

  function ToUpper(c: char): char {
    if 'a' <= c <= 'z' then c - 'a' + 'A' else c
  }

  // Digit value of a character, ignoring case; -1 for any other character.
  function DigitValue(ch: char): (d: int)
    ensures -1 <= d < 36
  {
    var c := ToUpper(ch);
    if c < '0' then -1
    else if c <= '9' then c as int - '0' as int
    else if c < 'A' then -1
    else if c <= 'Z' then c as int - 'A' as int + 10
    else -1
  }

  predicate IsDigitOf(c: char, b: nat) {
    0 <= DigitValue(c) < b
  }

  // What each character is worth: digits and letters of either case in order,
  // and nothing else.
  lemma CharacterValues(c: char)
    ensures '0' <= c <= '9' ==> DigitValue(c) == c as int - '0' as int
    ensures 'a' <= c <= 'z' ==> DigitValue(c) == 10 + (c as int - 'a' as int)
    ensures 'A' <= c <= 'Z' ==> DigitValue(c) == 10 + (c as int - 'A' as int)
    ensures !('0' <= c <= '9') && !('a' <= c <= 'z') && !('A' <= c <= 'Z') ==> DigitValue(c) == -1
  {
  }

  // The characters of numerals are the digits and the upper-case letters.
  lemma DigitChars(d: nat)
    requires d < 36
    ensures DigitChar(d) == "0123456789ABCDEFGHIJKLMNOPQRSTUVWXYZ"[d]
  {
  }

  lemma DigitCharValue(d: nat)
    requires d < 36
    ensures DigitValue(DigitChar(d)) == d
    ensures DigitChar(d) != '-' && DigitChar(d) != '+' && DigitChar(d) != '\0'
  {
  }

  // The numeral of a positive number; empty for zero.
  ghost function Numeral(n: int, b: nat): string
    requires 2 <= b <= 36
    decreases if n <= 0 then 0 else n
  {
    if n <= 0 then "" else
      QuotientIsSmaller(n, b);
      Numeral(n / b, b) + [DigitChar(n % b)]
  }

  lemma QuotientIsSmaller(n: nat, b: nat)
    requires 0 < n && 2 <= b
    ensures 0 <= n / b < n && n == (n / b) * b + n % b && 0 <= n % b < b
  {
  }

  // The text of an integer.
  ghost function Text(v: int, b: nat): string
    requires 2 <= b <= 36
  {
    if v == 0 then "0" else if v < 0 then "-" + Numeral(-v, b) else Numeral(v, b)
  }

  // Reading digits from left to right after the number acc.
  function Fold(acc: int, s: string, b: nat): int
    requires forall i :: 0 <= i < |s| ==> IsDigitOf(s[i], b)
  {
    if |s| == 0 then acc
    else Fold(acc, s[..|s| - 1], b) * b + DigitValue(s[|s| - 1])
  }

  // Where a scan from position i stops: at the first character that is no
  // digit of the base.
  function ScanStop(s: string, i: nat, b: nat): (j: nat)
    requires i <= |s|
    ensures i <= j <= |s|
    ensures forall k :: i <= k < j ==> IsDigitOf(s[k], b)
    ensures j < |s| ==> !IsDigitOf(s[j], b)
    decreases |s| - i
  {
    if i < |s| && IsDigitOf(s[i], b) then ScanStop(s, i + 1, b) else i
  }

  // A text of digits is scanned to its end.
  lemma {:induction false} ScanTakesAll(s: string, i: nat, b: nat)
    requires i <= |s| && forall k :: i <= k < |s| ==> IsDigitOf(s[k], b)
    ensures ScanStop(s, i, b) == |s|
    decreases |s| - i
  {
    if i < |s| {
      ScanTakesAll(s, i + 1, b);
    }
  }

  // Reading back the digits of a number gives the number.
  lemma {:induction false} FoldDigits(n: nat, b: nat)
    requires 2 <= b <= 36
    ensures forall i :: 0 <= i < |Numeral(n, b)| ==>
      IsDigitOf(Numeral(n, b)[i], b) && Numeral(n, b)[i] !in "-+\0"
    ensures Fold(0, Numeral(n, b), b) == n
    ensures n > 0 ==> |Numeral(n, b)| > 0
    decreases n
  {
    if n > 0 {
      QuotientIsSmaller(n, b);
      FoldDigits(n / b, b);
      DigitCharValue(n % b);
      var s := Numeral(n, b);
      assert s[..|s| - 1] == Numeral(n / b, b);
    }
  }

  // The text of a number that is not negative has digits of the base only, the
  // first of them not zero unless it is the only one; a negative number's is a
  // minus sign and the text of its absolute value.
  lemma TextIsPlain(v: int, b: nat)
    requires 2 <= b <= 36
    ensures v < 0 ==> Text(v, b) == "-" + Text(-v, b)
    ensures v >= 0 ==> Text(v, b) != "" && (Text(v, b)[0] == '0' ==> v == 0 && Text(v, b) == "0")
    ensures v >= 0 ==> forall i :: 0 <= i < |Text(v, b)| ==> IsDigitOf(Text(v, b)[i], b)
  {
    if v > 0 {
      FoldDigits(v, b);
      FirstDigitCounts(v, b);
    }
  }

  lemma {:induction false} FirstDigitCounts(n: nat, b: nat)
    requires 2 <= b <= 36 && n > 0
    ensures Numeral(n, b) != "" && Numeral(n, b)[0] != '0'
    decreases n
  {
    QuotientIsSmaller(n, b);
    if n / b > 0 {
      FirstDigitCounts(n / b, b);
    } else {
      assert n % b == n;
    }
  }

  function PowOf(b: nat, k: nat): nat {
    if k == 0 then 1 else b * PowOf(b, k - 1)
  }

  lemma QuotientBelow(n: nat, b: nat, p: nat)
    requires b > 0 && n < b * p
    ensures n / b < p
  {
    LessByFactor(n / b, p, b);
  }

  lemma LessByFactor(q: nat, p: nat, b: nat)
    requires q * b < b * p
    ensures q < p
  {
    assert q >= p ==> (q - p) * b >= 0;
  }

  // A number below b^k has at most k digits.
  lemma {:induction false} DigitCount(n: nat, b: nat, k: nat)
    requires 2 <= b <= 36 && n < PowOf(b, k)
    ensures |Numeral(n, b)| <= k
    decreases n
  {
    if n > 0 {
      QuotientIsSmaller(n, b);
      QuotientBelow(n, b, PowOf(b, k - 1));
      DigitCount(n / b, b, k - 1);
    }
  }

  // --------------------------------------------------------------------- case

  function LowerChar(c: char): char {
    if 'A' <= c <= 'Z' then c - 'A' + 'a' else c
  }

  function Lower(s: string): (r: string)
    ensures |r| == |s| && forall i :: 0 <= i < |s| ==> r[i] == LowerChar(s[i])
  {
    seq(|s|, i requires 0 <= i < |s| => LowerChar(s[i]))
  }

  lemma LowerIsWorthTheSame(s: string)
    ensures forall i :: 0 <= i < |s| ==> DigitValue(Lower(s)[i]) == DigitValue(s[i])
  {
    forall i | 0 <= i < |s|
      ensures DigitValue(Lower(s)[i]) == DigitValue(s[i])
    {
      CharacterValues(s[i]);
      CharacterValues(Lower(s)[i]);
    }
  }

  // Scanning depends on the worth of the characters only.
  lemma {:induction false} ScanStopByValue(s: string, t: string, i: nat, b: nat)
    requires |s| == |t| && i <= |s| && forall k :: 0 <= k < |s| ==> DigitValue(t[k]) == DigitValue(s[k])
    ensures ScanStop(t, i, b) == ScanStop(s, i, b)
    decreases |s| - i
  {
    hide DigitValue;
    if i < |s| && IsDigitOf(s[i], b) {
      ScanStopByValue(s, t, i + 1, b);
    }
  }

  lemma {:induction false} FoldByValue(acc: int, s: string, t: string, b: nat)
    requires |s| == |t| && forall k :: 0 <= k < |s| ==> DigitValue(t[k]) == DigitValue(s[k]) && IsDigitOf(s[k], b)
    ensures (forall k :: 0 <= k < |t| ==> IsDigitOf(t[k], b)) && Fold(acc, t, b) == Fold(acc, s, b)
  {
    hide DigitValue;
    if s != "" {
      FoldByValue(acc, s[..|s| - 1], t[..|t| - 1], b);
    }
  }

  // Reading ignores case: it stops at the same place with the same number.
  lemma ReadingIgnoresCase(acc: int, s: string, i: nat, b: nat)
    requires i <= |s|
    ensures var j := ScanStop(s, i, b);
      && ScanStop(Lower(s), i, b) == j
      && Fold(acc, Lower(s)[i..j], b) == Fold(acc, s[i..j], b)
  {
    hide DigitValue, Lower;
    var j := ScanStop(s, i, b);
    LowerIsWorthTheSame(s);
    ScanStopByValue(s, Lower(s), i, b);
    FoldByValue(acc, s[i..j], Lower(s)[i..j], b);
  }
}

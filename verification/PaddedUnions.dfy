// add_padding for unions: sizes, and what the pad does to the alignment.
module PaddedUnions {
  import opened Layout
  import opened LayoutFacts
  import opened PaddedStructs

  function RoundUp(n: nat, d: nat): nat
    requires d > 0
  {
    if n % d == 0 then n else n + (d - n % d)
  }

  // add_padding for a union: a member as large as the rounded-up size.
  function PaddedUnion(cs: seq<Component>, given: nat, isPacked: bool): seq<Component> {
    assert Alignment(Union(cs)) >= 1;
    var unit := if isPacked then CHAR_WIDTH else CHAR_WIDTH * Alignment(Aligned(given, isPacked, Union(cs)));
    if Widest(cs) % unit == 0 then cs else cs + [BytePad(RoundUp(Widest(cs), unit) / CHAR_WIDTH)]
  }

  lemma {:induction false} WidestConcat(s: seq<Component>, t: seq<Component>)
    ensures Widest(s + t) == Max(Widest(s), Widest(t))
  {
    if s == [] {
      assert s + t == t;
    } else {
      assert (s + t)[1..] == s[1..] + t;
      WidestConcat(s[1..], t);
    }
  }

  // n rounded up to a multiple of 8 * a.
  lemma RoundUpFacts(n: nat, a: nat)
    requires a > 0
    ensures var r := RoundUp(n, CHAR_WIDTH * a);
      && n <= r < n + CHAR_WIDTH * a
      && r % (CHAR_WIDTH * a) == 0
      && r == CHAR_WIDTH * (r / CHAR_WIDTH) && (r / CHAR_WIDTH) % a == 0
  {
    var d := CHAR_WIDTH * a;
    var q := RoundedUp(n, d);
    assert RoundUp(n, d) == q * d;
    MultipleIsZero(q, d);
    assert q * d == CHAR_WIDTH * (q * a);
    MultipleIsZero(q, a);
  }

  lemma SingleWidest(c: Component)
    ensures Widest([c]) == BitsOf(c)
  {
    assert [c][1..] == [];
  }

  lemma SmallRemainder(n: nat, d: nat)
    requires n < d
    ensures n % d == n
  {
  }

  lemma RoundUpIsUnit(n: nat, a: nat)
    requires a > 0 && n % (CHAR_WIDTH * a) != 0
    ensures var bytes := RoundUp(n, CHAR_WIDTH * a) / CHAR_WIDTH;
      bytes >= a && (bytes == a <==> n < CHAR_WIDTH * a)
  {
    RoundUpFacts(n, a);
    var d := CHAR_WIDTH * a;
    if n < d {
      SmallRemainder(n, d);
      assert RoundUp(n, d) == d;
    } else if n == d {
      MultipleIsZero(1, d);
    }
  }

  lemma UnionPad(cs: seq<Component>, bytes: nat)
    ensures var u := Union(cs + [BytePad(bytes)]);
      Alignment(u) == Max(MaxAlignment(cs), bytes) && Bits(u) == Max(Widest(cs), CHAR_WIDTH * bytes)
  {
    WidestConcat(cs, [BytePad(bytes)]);
    SingleWidest(BytePad(bytes));
    AlignmentsConcat(cs, [BytePad(bytes)]);
    Single(BytePad(bytes));
  }

  // What the size of a union is a multiple of, in bytes.
  ghost function UnionUnit(cs: seq<Component>, given: nat, isPacked: bool): (a: nat)
    ensures a > 0
  {
    if isPacked then 1 else if given > 0 then given else MaxAlignment(cs)
  }

  // For every combination of attributes, a padded union is as large as its
  // widest member rounded up to that, and a pad is added exactly when the widest
  // member is no such multiple.
  lemma UnionSize(cs: seq<Component>, given: nat, isPacked: bool)
    ensures var unit := CHAR_WIDTH * UnionUnit(cs, given, isPacked);
      var comps := PaddedUnion(cs, given, isPacked);
      && Bits(Union(comps)) == RoundUp(Widest(cs), unit)
      && comps == (if Widest(cs) % unit == 0 then cs else cs + [BytePad(RoundUp(Widest(cs), unit) / CHAR_WIDTH)])
  {
    var a := UnionUnit(cs, given, isPacked);
    AttributedUnion(cs, given, isPacked);
    if Widest(cs) % (CHAR_WIDTH * a) != 0 {
      RoundUpFacts(Widest(cs), a);
      UnionPad(cs, RoundUp(Widest(cs), CHAR_WIDTH * a) / CHAR_WIDTH);
    }
  }

  lemma AttributedUnion(cs: seq<Component>, given: nat, isPacked: bool)
    ensures !isPacked ==> Alignment(Aligned(given, isPacked, Union(cs))) == UnionUnit(cs, given, isPacked)
  {
    assert Alignment(Union(cs)) == MaxAlignment(cs);
  }

  // Padding leaves the alignment of a union alone exactly when it has one of the
  // attributes only, needs no pad, or gets one no longer than the strictest
  // alignment of its members or, if it is packed and aligned, is given no more
  // than that.
  lemma PaddingKeepsUnionAlignment(cs: seq<Component>, given: nat, isPacked: bool)
    ensures var unit := CHAR_WIDTH * UnionUnit(cs, given, isPacked);
      Alignment(Aligned(given, isPacked, Union(PaddedUnion(cs, given, isPacked))))
      == Alignment(Aligned(given, isPacked, Union(cs)))
      <==>
        || isPacked == (given == 0)
        || Widest(cs) % unit == 0
        || RoundUp(Widest(cs), unit) / CHAR_WIDTH <= MaxAlignment(cs)
        || (isPacked && given <= MaxAlignment(cs))
  {
    var unit := CHAR_WIDTH * UnionUnit(cs, given, isPacked);
    UnionSize(cs, given, isPacked);
    assert Alignment(Union(cs)) == MaxAlignment(cs);
    if Widest(cs) % unit != 0 {
      UnionPad(cs, RoundUp(Widest(cs), unit) / CHAR_WIDTH);
    }
  }

  // A padded union is a multiple of its alignment; its pad is a member like the
  // others and raises the alignment unless the union was smaller than that.
  lemma UnionPadding(cs: seq<Component>)
    ensures var a := Alignment(Union(cs));
      var u := Union(PaddedUnion(cs, 0, false));
      && Bits(u) % (CHAR_WIDTH * Alignment(u)) == 0
      && Bits(u) == RoundUp(Widest(cs), CHAR_WIDTH * a)
      && (Alignment(u) == a <==> (Widest(cs) % (CHAR_WIDTH * a) == 0 || Widest(cs) < CHAR_WIDTH * a))
  {
    var a := MaxAlignment(cs);
    var n := Widest(cs);
    assert Alignment(Aligned(0, false, Union(cs))) == Alignment(Union(cs)) == a;
    if n % (CHAR_WIDTH * a) != 0 {
      var bytes := RoundUp(n, CHAR_WIDTH * a) / CHAR_WIDTH;
      RoundUpFacts(n, a);
      RoundUpIsUnit(n, a);
      UnionPad(cs, bytes);
      MultipleIsZero(1, CHAR_WIDTH * bytes);
    }
  }
}

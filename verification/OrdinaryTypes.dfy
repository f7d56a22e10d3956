// Types that always fit: those whose unions keep their alignment and whose
// arrays hold extended integers only if these fill their representation.
module OrdinaryTypes {
  import opened Layout
  import opened LayoutFacts
  import opened PaddedStructs
  import opened MemberPlaces
  import opened PaddedUnions
  import opened NestedLayout
  import opened ArrayAlignment

  // Every union inside needs no pad or is smaller than its alignment.
  ghost predicate UnionsFit(t: Type)
    decreases t, 1
  {
    match t
    case Array(_, elem) => UnionsFit(elem)
    case Struct(cs) => AllUnionsFit(cs)
    case Union(cs) =>
      && AllUnionsFit(cs)
      && var unit := CHAR_WIDTH * MaxAlignment(PadAll(cs));
         Widest(PadAll(cs)) % unit == 0 || Widest(PadAll(cs)) < unit
    case _ => true
  }

  ghost predicate ComponentUnionsFit(c: Component)
    decreases c, 0
  {
    UnionsFit(c.t)
  }

  ghost predicate AllUnionsFit(cs: seq<Component>)
    decreases cs, 0
  {
    cs == [] || (ComponentUnionsFit(cs[0]) && AllUnionsFit(cs[1..]))
  }

  // Then padding changes no alignment anywhere.
  lemma {:induction false} PadTypeKeepsAlignment(t: Type)
    requires Plain(t) && UnionsFit(t)
    ensures Alignment(PadType(t)) == Alignment(t)
    decreases t, 1
  {
    hide Padded, PaddedUnion;
    match t
    case Struct(cs) =>
      PadAllKeepsAlignment(cs);
      AllPlainParts(cs);
      PaddingNeverFails(PadAll(cs));
    case Union(cs) =>
      PadAllKeepsAlignment(cs);
      UnionPadding(PadAll(cs));
    case Array(_, elem) =>
      PadTypeKeepsAlignment(elem);
    case _ =>
  }

  lemma {:induction false} PadComponentKeepsAlignment(c: Component)
    requires PlainComponent(c) && ComponentUnionsFit(c)
    ensures AlignmentOf(PadComponent(c)) == AlignmentOf(c)
    decreases c, 0
  {
    PadTypeKeepsAlignment(c.t);
  }

  lemma {:induction false} PadAllKeepsAlignment(cs: seq<Component>)
    requires AllPlain(cs) && AllUnionsFit(cs)
    ensures MaxAlignment(PadAll(cs)) == MaxAlignment(cs)
    decreases cs, 0
  {
    if cs != [] {
      PadComponentKeepsAlignment(cs[0]);
      PadAllKeepsAlignment(cs[1..]);
    }
  }

  // ------------------------------------------------------------- ordinary types

  // Extended integers in arrays fill their representation.
  ghost predicate ArraysFilled(t: Type) {
    match t
    case Array(_, elem) => (elem.ExtInt? ==> Fits(elem)) && ArraysFilled(elem)
    case Struct(cs) => AllArraysFilled(cs)
    case Union(cs) => AllArraysFilled(cs)
    case _ => true
  }

  ghost predicate ComponentArraysFilled(c: Component) {
    ArraysFilled(c.t)
  }

  ghost predicate AllArraysFilled(cs: seq<Component>) {
    cs == [] || (ComponentArraysFilled(cs[0]) && AllArraysFilled(cs[1..]))
  }

  // A power-of-two alignment, as strict as that of every part, that divides the
  // size.
  ghost predicate Regular(t: Type) {
    && IsPow2(Alignment(t)) && Strictest(t) <= CHAR_WIDTH * Alignment(t)
    && (t.ExtInt? || t.BitField? || Bits(t) % (CHAR_WIDTH * Alignment(t)) == 0)
  }

  ghost predicate AllRegular(cs: seq<Component>) {
    forall c :: c in cs ==> Regular(c.t)
  }

  lemma {:induction false} RegularMax(cs: seq<Component>)
    requires AllRegular(cs) && PlainMembers(cs)
    ensures IsPow2(MaxAlignment(cs)) && StrictestOf(cs) <= CHAR_WIDTH * MaxAlignment(cs)
  {
    if cs != [] {
      assert cs == [cs[0]] + cs[1..];
      assert PlainMember(cs[0]);
      RegularMax(cs[1..]);
    }
  }

  lemma WholeBytes(x: nat, a: nat)
    requires a > 0 && x % (CHAR_WIDTH * a) == 0
    ensures x % CHAR_WIDTH == 0
  {
    var q := x / (CHAR_WIDTH * a);
    assert x == q * (CHAR_WIDTH * a);
    EightTimes(q, a);
  }

  lemma RegularIsWhole(c: Component)
    requires Regular(c.t)
    ensures IsBits(c) || IsExt(c) || BitsOf(c) % CHAR_WIDTH == 0
  {
    if c.t.BitField? || c.t.ExtInt? {
      assert Strip(c.t) == c.t;
    } else {
      WholeBytes(BitsOf(c), AlignmentOf(c));
    }
  }

  lemma RegularExcess(cs: seq<Component>)
    requires PlainMembers(cs) && AllRegular(cs)
    ensures NoExtPads(cs) && Excess(cs) == 0
  {
    hide Excess;
    forall c | c in cs && !IsBits(c) && !IsExt(c)
      ensures BitsOf(c) % CHAR_WIDTH == 0
    {
      RegularIsWhole(c);
    }
    PlainMembersFit(cs);
    ExcessIsZero(cs);
  }

  lemma RegularStruct(cs: seq<Component>)
    requires PlainMembers(cs) && AllPowerLeaves(cs) && AllRegular(cs)
    ensures Regular(Struct(Padded(cs, 0, false).comps))
    ensures KeepsPace(cs, 0, StrictestIn) && Divides(StrictestOf(cs), CHAR_WIDTH * MaxAlignment(cs)) && Excess(cs) == 0
  {
    hide Padded, KeepsPace, AllRegular, StrictestOf, MaxAlignment, Excess;
    var p := Padded(cs, 0, false);
    RegularMax(cs);
    RegularExcess(cs);
    NoExcessKeepsPace(cs, StrictestIn);
    PaddingNeverFails(cs);
    StructParts(cs);
    StrictestOfIsPow2(cs);
    EightTimesPow2(MaxAlignment(cs));
    Pow2Divides(StrictestOf(cs), CHAR_WIDTH * MaxAlignment(cs));
    ScaledMultiple(p.offset, MaxAlignment(cs));
    assert Bits(Struct(p.comps)) == Total(p.comps);
  }

  lemma RegularUnion(cs: seq<Component>)
    requires PlainMembers(cs) && AllPowerLeaves(cs) && AllRegular(cs)
    requires var unit := CHAR_WIDTH * MaxAlignment(cs); Widest(cs) % unit == 0 || Widest(cs) < unit
    ensures Regular(Union(PaddedUnion(cs, 0, false)))
    ensures Divides(StrictestOf(cs), CHAR_WIDTH * UnionAlignment(MaxAlignment(cs), Widest(cs)))
  {
    hide PaddedUnion, AllRegular, StrictestOf, MaxAlignment, UnionAlignment, PlainMembers;
    RegularMax(cs);
    UnionPadding(cs);
    UnionKeepsParts(cs);
    PaddedUnionAlignment(cs);
    StrictestOfIsPow2(cs);
    EightTimesPow2(MaxAlignment(cs));
    Pow2Divides(StrictestOf(cs), CHAR_WIDTH * MaxAlignment(cs));
    assert Alignment(Union(cs)) == MaxAlignment(cs);
  }

  lemma RegularArray(n: nat, elem: Type)
    requires Regular(elem) && (elem.ExtInt? ==> Fits(elem)) && !elem.BitField?
    ensures Regular(Array(n, elem))
  {
    ScaledBy(n, Bits(elem), CHAR_WIDTH * Alignment(elem));
  }

  // Ordinary types fit, so all types inside them are aligned in all arrays.
  lemma {:induction false} OrdinaryTypesFit(t: Type)
    requires Plain(t) && UnionsFit(t) && ArraysFilled(t)
    ensures Regular(PadType(t)) && (t.ExtInt? || Fits(t))
    decreases t, 1
  {
    hide Padded, PaddedUnion, KeepsPace, Divides, UnionAlignment, AllRegular, PlainMembers;
    match t
    case Basic(s) => MultipleIsZero(1, CHAR_WIDTH * s);
    case ExtInt(w) => ReprIsPow2(w, 1);
    case BitField(_, base) => assert Alignment(t) == base.size;
    case Array(n, elem) =>
      OrdinaryTypesFit(elem);
      PadTypeKeepsKind(elem);
      RegularArray(n, PadType(elem));
    case Struct(cs) =>
      OrdinaryMembersFit(cs);
      AllPlainParts(cs);
      RegularStruct(PadAll(cs));
      NothingDivides(StrictestOf(cs));
    case Union(cs) =>
      OrdinaryMembersFit(cs);
      AllPlainParts(cs);
      RegularUnion(PadAll(cs));
  }

  lemma NothingDivides(s: nat)
    requires s > 0
    ensures Divides(s, 0)
  {
  }

  lemma {:induction false} OrdinaryMemberFits(c: Component)
    requires PlainComponent(c) && ComponentUnionsFit(c) && ComponentArraysFilled(c)
    ensures Regular(PadComponent(c).t) && MemberFits(c)
    decreases c, 0
  {
    OrdinaryTypesFit(c.t);
  }

  lemma {:induction false} OrdinaryMembersFit(cs: seq<Component>)
    requires AllPlain(cs) && AllUnionsFit(cs) && AllArraysFilled(cs)
    ensures AllRegular(PadAll(cs)) && AllFit(cs)
    decreases cs, 0
  {
    if cs != [] {
      OrdinaryMemberFits(cs[0]);
      OrdinaryMembersFit(cs[1..]);
    }
  }

  lemma OrdinaryTypesAreAligned(t: Type)
    requires Plain(t) && UnionsFit(t) && ArraysFilled(t) && (t.ExtInt? ==> Fits(t))
    ensures AlignedInArrays(t)
  {
    hide *;
    OrdinaryTypesFit(t);
    AlignedExactlyWhenItFits(t);
  }

  // An extended integer that does not fill its representation: the second
  // element of an array of 63-bit integers lies at bit 63.
  lemma ExtIntArrayMisaligns()
    ensures var t := Array(2, ExtInt(63));
      Alignment(t) == 8 && Bits(t) == 126 && !AlignedAt(t, 0) && !AlignedInArrays(t)
  {
    assert ReprFrom(63, 4) == 8;
    ArrayOfTwo(ExtInt(63), 0);
    AlignedExactlyWhenItFits(Array(2, ExtInt(63)));
  }

  // -------------------------------------------------------- a union that does not

  // The pad of this union has the alignment 12, which 8 does not divide: in an
  // array of structs the double of the second element lies at byte 36.
  lemma UnionPadMisaligns()
    ensures var u := Union([Component(Array(9, Basic(1)), false), Component(Basic(4), false)]);
      var t := Struct([Component(Basic(8), false), Component(Array(2, u), false)]);
      && Alignment(u) == 4 && Alignment(PadType(u)) == 12
      && Size(PadType(t)) == 36 && !AlignedAt(PadType(t), CHAR_WIDTH * 36) && !AlignedAt(Array(2, PadType(t)), 0)
  {
    var bytes := Component(Array(9, Basic(1)), false);
    var word := Component(Basic(4), false);
    var u := Union([bytes, word]);
    TwelveByteUnion();
    var v := PadType(u);
    var a := Component(Array(2, u), false);
    var t := Struct([Component(Basic(8), false), a]);
    assert t.comps[1..] == [a] && [a][1..] == [];
    assert PadComponent(a) == Component(Array(2, v), false);
    assert PadAll(t.comps) == [Component(Basic(8), false), Component(Array(2, v), false)];
    MisalignedDouble(v);
  }

  lemma TwelveByteUnion()
    ensures var u := Union([Component(Array(9, Basic(1)), false), Component(Basic(4), false)]);
      Alignment(u) == 4 && Alignment(PadType(u)) == 12 && Bits(PadType(u)) == 96
  {
    var bytes := Component(Array(9, Basic(1)), false);
    var word := Component(Basic(4), false);
    var u := [bytes, word];
    Single(bytes);
    Single(word);
    AlignmentsConcat([bytes], [word]);
    SingleWidest(bytes);
    SingleWidest(word);
    WidestConcat([bytes], [word]);
    assert u == [bytes] + [word];
    assert u[1..] == [word] && [word][1..] == [];
    assert PadComponent(bytes) == bytes && PadComponent(word) == word;
    assert PadAll([word]) == [word];
    assert PadAll(u) == u;
    assert Alignment(Aligned(0, false, Union(u))) == Alignment(Union(u)) == 4;
    assert Widest(u) == 72 && RoundUp(72, 32) == 96;
    UnionPad(u, 12);
  }

  lemma MisalignedDouble(v: Type)
    requires Alignment(v) == 12 && Bits(v) == 96
    ensures var t := Struct(Padded([Component(Basic(8), false), Component(Array(2, v), false)], 0, false).comps);
      Size(t) == 36 && !AlignedAt(t, CHAR_WIDTH * 36) && !AlignedAt(Array(2, t), 0)
  {
    var d := Component(Basic(8), false);
    var a := Component(Array(2, v), false);
    var comps := [d, BytePad(4), a];
    PaddedDoubleAndUnions(v);
    var t := Struct(comps);
    assert comps[1..] == [BytePad(4), a] && [BytePad(4), a][1..] == [a] && [a][1..] == [];
    assert Total([a]) == BitsOf(a) == 192;
    assert Total([BytePad(4), a]) == BitsOf(BytePad(4)) + 192;
    assert Total(comps) == BitsOf(d) + 224;
    assert Bits(t) == 288;
    assert !ComponentAligned(comps[0], CHAR_WIDTH * 36);
    assert !MembersAligned(comps, CHAR_WIDTH * 36);
    assert !AlignedAt(t, CHAR_WIDTH * 36);
    ArrayOfTwo(t, 0);
  }

  lemma PaddedDoubleAndUnions(v: Type)
    requires Alignment(v) == 12 && Bits(v) == 96
    ensures var d := Component(Basic(8), false);
      var a := Component(Array(2, v), false);
      Padded([d, a], 0, false).comps == [d, BytePad(4), a]
  {
    var d := Component(Basic(8), false);
    var a := Component(Array(2, v), false);
    var cs := [d, a];
    assert FirstPass([a], 0) == [a];
    assert FirstPass(cs, 0) == cs;
    assert SecondStep(cs, 0, 0, 0) == Packing([d], 8, 0, 8, true);
    assert cs[1..] == [a];
    assert PadBytes(4) == [BytePad(4)];
    assert SecondStep([a], 8, 0, 8) == Packing([BytePad(4), a], 36, 0, 12, true);
    assert SecondPass([a], 8, 0, 8) == Packing([BytePad(4), a], 36, 0, 12, true);
  }
}

// Exactly when a padded type and all types inside it are aligned wherever they
// may stand in an array.
module ArrayAlignment {
  import opened Layout
  import opened LayoutFacts
  import opened PaddedStructs
  import opened MemberPlaces
  import opened PaddedAlignment
  import opened PaddedUnions
  import opened NestedLayout

  // ------------------------------------------------ pads are no parts of a type

  lemma {:induction false} PadsDoNotCount(cs: seq<Component>)
    ensures StrictestOf(cs) == StrictestOf(Members(cs))
    ensures AllPowerLeaves(cs) <==> AllPowerLeaves(Members(cs))
  {
    if cs != [] {
      PadsDoNotCount(cs[1..]);
      if cs[0].isPad {
        assert Members(cs) == Members(cs[1..]);
      } else {
        assert Members(cs) == [cs[0]] + Members(cs[1..]);
        assert Members(cs)[1..] == Members(cs[1..]);
      }
    }
  }

  lemma {:induction false} MembersIn(cs: seq<Component>)
    ensures forall c :: c in cs && !c.isPad ==> c in Members(cs)
  {
    if cs != [] {
      MembersIn(cs[1..]);
      assert cs == [cs[0]] + cs[1..];
    }
  }

  // Members that carry no attribute of their own.
  ghost predicate PlainMember(c: Component) {
    !c.isPad && AlignmentOf(c) > 0 && !c.t.Aligned?
  }

  ghost predicate PlainMembers(cs: seq<Component>) {
    forall c :: c in cs ==> PlainMember(c)
  }

  lemma PlainKind(c: Component)
    requires !c.t.Aligned?
    ensures (IsExt(c) <==> c.t.ExtInt?) && (IsBits(c) ==> c.t.BitField?)
  {
    assert Strip(c.t) == c.t;
  }

  lemma PlainMembersFit(cs: seq<Component>)
    requires PlainMembers(cs)
    ensures NoPads(cs) && NoExtPads(cs) && Aligns(cs) && ExtsFit(cs)
  {
    forall i | 0 <= i < |cs|
      ensures !cs[i].isPad
    {
      assert PlainMember(cs[i]);
    }
    forall c | c in cs
      ensures ExtFits(c)
    {
      PlainKind(c);
      if IsExt(c) {
        ExtIntFits(c);
      }
    }
  }

  lemma {:induction false} PlainExtPads(cs: seq<Component>)
    requires PlainMembers(cs)
    ensures ExtPadAlignment(cs) <= MaxAlignment(cs)
  {
    if cs != [] {
      assert cs == [cs[0]] + cs[1..];
      PlainExtPads(cs[1..]);
      assert PlainMember(cs[0]);
      PlainKind(cs[0]);
      if IsExt(cs[0]) {
        ExtIntFits(cs[0]);
      }
    }
  }

  // For members without attributes the assertions of add_padding hold and the
  // struct keeps its alignment.
  lemma PaddingNeverFails(cs: seq<Component>)
    requires PlainMembers(cs)
    ensures var p := Padded(cs, 0, false);
      && p.ok && Alignment(Struct(p.comps)) == MaxAlignment(cs)
      && CHAR_WIDTH * p.offset == Total(p.comps) + Excess(cs) && Divides(MaxAlignment(cs), p.offset)
  {
    hide Padded, MaxAlignment, Counted, Excess, ExtPadAlignment, KeepsPace, PlainMembers;
    PlainMembersFit(cs);
    AllCount(cs);
    PlainExtPads(cs);
    PaddingLaysOut(cs, 0, false);
    PaddingKeepsAlignment(cs, 0, false);
    WithoutAttributes(Struct(cs));
    WithoutAttributes(Struct(Padded(cs, 0, false).comps));
    AlignmentOfStruct(cs);
  }

  lemma WithoutAttributes(t: Type)
    ensures Alignment(Aligned(0, false, t)) == Alignment(t)
  {
  }

  lemma AlignmentOfStruct(cs: seq<Component>)
    ensures Alignment(Struct(cs)) == MaxAlignment(cs)
  {
  }

  // ------------------------------------------------------------------- structs

  // A member that is aligned at multiples of its alignment.
  ghost predicate Sound(c: Component) {
    PowerLeaves(c.t) && AlignedAt(c.t, 0) && Divides(Strictest(c.t), AlignmentBits(c))
  }

  ghost predicate AllSound(cs: seq<Component>) {
    forall c :: c in cs ==> Sound(c)
  }

  lemma SoundDemands(cs: seq<Component>)
    requires AllSound(cs)
    ensures Demands(cs, StrictestIn)
  {
  }

  // A sound member lies well wherever it starts at a multiple of what its parts
  // demand.
  lemma SoundMemberAligned(c: Component, at: nat)
    requires IsPlaced(c) ==> Sound(c)
    ensures ComponentAligned(c, at) <==> DemandMet(c, at, StrictestIn)
  {
    if IsPlaced(c) {
      StrictestIsPow2(c.t);
      Move(c.t, 0, at);
    }
  }

  lemma {:induction false} SoundMembersAligned(cs: seq<Component>, at: nat)
    requires forall c :: c in cs && IsPlaced(c) ==> Sound(c)
    ensures MembersAligned(cs, at) <==> StartsAt(cs, at, StrictestIn)
  {
    if cs != [] {
      SoundMemberAligned(cs[0], at);
      SoundMembersAligned(cs[1..], at + BitsOf(cs[0]));
    }
  }

  lemma PaddedMembers(cs: seq<Component>)
    requires PlainMembers(cs)
    ensures var comps := Padded(cs, 0, false).comps;
      Members(comps) == cs && forall c :: c in comps && !c.isPad ==> c in cs
  {
    PlainMembersFit(cs);
    PaddingKeepsMembers(cs, 0, false);
    MembersIn(Padded(cs, 0, false).comps);
  }

  lemma PaddedStructAligned(cs: seq<Component>)
    requires PlainMembers(cs) && AllSound(cs)
    ensures AlignedAt(Struct(Padded(cs, 0, false).comps), 0) <==> KeepsPace(cs, 0, StrictestIn)
  {
    hide Padded, KeepsPace, Sound, StartsAt;
    var comps := Padded(cs, 0, false).comps;
    PlainMembersFit(cs);
    PaddedMembers(cs);
    SoundMembersAligned(comps, 0);
    SoundDemands(cs);
    PaddingPlaces(cs, 0, false, StrictestIn);
    AlignedAtZero(comps);
  }

  lemma AlignedAtZero(comps: seq<Component>)
    ensures AlignedAt(Struct(comps), 0) <==> MembersAligned(comps, 0)
  {
  }

  lemma DividesLess(s: nat, a: nat, offset: nat, less: int)
    requires Divides(s, CHAR_WIDTH * a) && Divides(a, offset)
    ensures Divides(s, CHAR_WIDTH * offset - less) <==> Divides(s, less)
  {
    var k := MultipleOfMultiple(offset, a, s);
    BothOrNone(CHAR_WIDTH * offset - less, less, k, s);
  }

  lemma StructParts(cs: seq<Component>)
    requires PlainMembers(cs) && AllPowerLeaves(cs)
    ensures var u := Struct(Padded(cs, 0, false).comps);
      PowerLeaves(u) && Strictest(u) == StrictestOf(cs)
  {
    hide Padded, AlignedAt;
    PaddedMembers(cs);
    PadsDoNotCount(Padded(cs, 0, false).comps);
  }

  // A struct of sound members: aligned in arrays exactly when its members keep
  // pace and their strictest alignment divides the struct's and the excess.
  lemma StructInArrays(cs: seq<Component>)
    requires PlainMembers(cs) && AllSound(cs) && AllPowerLeaves(cs)
    ensures InArrays(Struct(Padded(cs, 0, false).comps))
      <==>
        && KeepsPace(cs, 0, StrictestIn)
        && Divides(StrictestOf(cs), CHAR_WIDTH * MaxAlignment(cs))
        && Divides(StrictestOf(cs), Excess(cs))
  {
    hide Padded, KeepsPace, Sound, AlignedAt, StrictestOf, MaxAlignment, Excess, InArrays, PowerLeaves, Strictest;
    hide PlainMembers, Alignment, Total;
    var p := Padded(cs, 0, false);
    PaddingNeverFails(cs);
    StructParts(cs);
    PaddedStructAligned(cs);
    InArraysExactly(Struct(p.comps));
    if Divides(StrictestOf(cs), CHAR_WIDTH * MaxAlignment(cs)) {
      DividesLess(StrictestOf(cs), MaxAlignment(cs), p.offset, Excess(cs));
    }
  }

  // -------------------------------------------------------------------- unions

  // The alignment of a padded union, from its members' alignment and width.
  function UnionAlignment(a: nat, width: nat): nat
    requires a > 0
  {
    if width % (CHAR_WIDTH * a) == 0 then a else RoundUp(width, CHAR_WIDTH * a) / CHAR_WIDTH
  }

  lemma PaddedUnionAlignment(cs: seq<Component>)
    ensures Alignment(Union(PaddedUnion(cs, 0, false))) == UnionAlignment(MaxAlignment(cs), Widest(cs))
    ensures Members(PaddedUnion(cs, 0, false)) == Members(cs)
  {
    var a, n := MaxAlignment(cs), Widest(cs);
    WithoutAttributes(Union(cs));
    assert Alignment(Union(cs)) == a;
    if n % (CHAR_WIDTH * a) != 0 {
      var bytes := RoundUp(n, CHAR_WIDTH * a) / CHAR_WIDTH;
      RoundUpIsUnit(n, a);
      UnionPad(cs, bytes);
      MembersConcat(cs, [BytePad(bytes)]);
      assert [BytePad(bytes)][1..] == [];
    }
  }

  lemma {:induction false} SoundAllAligned(cs: seq<Component>)
    requires forall c :: c in cs && IsPlaced(c) ==> Sound(c)
    ensures AllAligned(cs, 0)
  {
    if cs != [] {
      SoundAllAligned(cs[1..]);
    }
  }

  lemma UnionParts(cs: seq<Component>)
    requires PlainMembers(cs) && AllSound(cs) && AllPowerLeaves(cs)
    ensures var u := Union(PaddedUnion(cs, 0, false));
      PowerLeaves(u) && Strictest(u) == StrictestOf(cs) && AlignedAt(u, 0)
  {
    hide AlignedAt, Sound;
    var comps := PaddedUnion(cs, 0, false);
    PlainMembersFit(cs);
    PaddedUnionAlignment(cs);
    MembersOfNoPads(cs);
    PadsDoNotCount(comps);
    MembersIn(comps);
    SoundAllAligned(comps);
    UnionAlignedAtZero(comps);
  }

  lemma UnionAlignedAtZero(comps: seq<Component>)
    ensures AlignedAt(Union(comps), 0) <==> AllAligned(comps, 0)
  {
  }

  // A union of sound members: exactly when their strictest alignment divides
  // the union's.
  lemma UnionInArrays(cs: seq<Component>)
    requires PlainMembers(cs) && AllSound(cs) && AllPowerLeaves(cs)
    ensures InArrays(Union(PaddedUnion(cs, 0, false)))
      <==> Divides(StrictestOf(cs), CHAR_WIDTH * UnionAlignment(MaxAlignment(cs), Widest(cs)))
  {
    hide PaddedUnion, Sound, AlignedAt, StrictestOf, MaxAlignment, InArrays, PowerLeaves, Strictest, Alignment;
    hide Bits, UnionAlignment;
    var u := Union(PaddedUnion(cs, 0, false));
    UnionParts(cs);
    PaddedUnionAlignment(cs);
    UnionPadding(cs);
    UnionAlignmentPositive(u.comps);
    InArraysExactly(u);
    if Divides(Strictest(u), CHAR_WIDTH * Alignment(u)) {
      MultipleOfPart(Bits(u), CHAR_WIDTH * Alignment(u), Strictest(u));
    }
  }

  lemma UnionAlignmentPositive(cs: seq<Component>)
    ensures Alignment(Union(cs)) > 0
  {
  }

  // -------------------------------------------------------------- nested types

  // t, once padded, and every type inside it that can stand in an array is
  // aligned there.
  ghost predicate AlignedInArrays(t: Type)
    decreases t, 1
  {
    && InArrays(PadType(t))
    && match t
       case Array(_, elem) => AlignedInArrays(elem)
       case Struct(cs) => AllAlignedInArrays(cs)
       case Union(cs) => AllAlignedInArrays(cs)
       case _ => true
  }

  // Extended integers and bit-fields are placed by the struct around them.
  ghost predicate MemberAlignedInArrays(c: Component)
    decreases c, 0
  {
    c.t.ExtInt? || c.t.BitField? || AlignedInArrays(c.t)
  }

  ghost predicate AllAlignedInArrays(cs: seq<Component>)
    decreases cs, 0
  {
    cs == [] || (MemberAlignedInArrays(cs[0]) && AllAlignedInArrays(cs[1..]))
  }

  // The condition, level by level: the strictest alignment of the parts divides
  // what the level is aligned to and what it takes.
  ghost predicate Fits(t: Type)
    decreases t, 1
  {
    match t
    case ExtInt(w) => Divides(CHAR_WIDTH * ReprBytes(w), w)
    case Array(_, elem) => Fits(elem)
    case Struct(cs) =>
      && AllFit(cs) && KeepsPace(PadAll(cs), 0, StrictestIn)
      && Divides(StrictestOf(cs), CHAR_WIDTH * MaxAlignment(PadAll(cs)))
      && Divides(StrictestOf(cs), Excess(PadAll(cs)))
    case Union(cs) =>
      && AllFit(cs)
      && Divides(StrictestOf(cs), CHAR_WIDTH * UnionAlignment(MaxAlignment(PadAll(cs)), Widest(PadAll(cs))))
    case _ => true
  }

  ghost predicate MemberFits(c: Component)
    decreases c, 0
  {
    c.t.ExtInt? || c.t.BitField? || Fits(c.t)
  }

  ghost predicate AllFit(cs: seq<Component>)
    decreases cs, 0
  {
    cs == [] || (MemberFits(cs[0]) && AllFit(cs[1..]))
  }

  lemma PadTypeKeepsKind(t: Type)
    ensures (PadType(t).ExtInt? <==> t.ExtInt?) && (PadType(t).BitField? <==> t.BitField?)
    ensures PadType(t).Aligned? <==> t.Aligned?
  {
  }

  // Padding keeps parts and kinds of a plain type.
  lemma {:induction false} PlainParts(t: Type)
    requires Plain(t)
    ensures PowerLeaves(PadType(t)) && Strictest(PadType(t)) == Strictest(t) && Alignment(PadType(t)) > 0
    decreases t, 1
  {
    hide Padded, PaddedUnion;
    match t
    case Struct(cs) =>
      AllPlainParts(cs);
      StructKeepsParts(PadAll(cs));
    case Union(cs) =>
      AllPlainParts(cs);
      UnionKeepsParts(PadAll(cs));
    case Array(_, elem) => PlainParts(elem);
    case _ =>
  }

  lemma StructKeepsParts(cs: seq<Component>)
    requires PlainMembers(cs) && AllPowerLeaves(cs)
    ensures var u := Struct(Padded(cs, 0, false).comps);
      PowerLeaves(u) && Strictest(u) == StrictestOf(cs) && Alignment(u) > 0
  {
    hide Padded, PowerLeaves, Strictest;
    StructParts(cs);
    AlignmentOfStruct(Padded(cs, 0, false).comps);
  }

  lemma UnionKeepsParts(cs: seq<Component>)
    requires PlainMembers(cs) && AllPowerLeaves(cs)
    ensures var u := Union(PaddedUnion(cs, 0, false));
      PowerLeaves(u) && Strictest(u) == StrictestOf(cs) && Alignment(u) > 0
  {
    PlainMembersFit(cs);
    PaddedUnionAlignment(cs);
    MembersOfNoPads(cs);
    PadsDoNotCount(PaddedUnion(cs, 0, false));
    UnionAlignmentPositive(PaddedUnion(cs, 0, false));
  }

  lemma {:induction false} PlainComponentParts(c: Component)
    requires PlainComponent(c)
    ensures PlainMember(PadComponent(c)) && PowerLeavesIn(PadComponent(c))
    ensures StrictestIn(PadComponent(c)) == StrictestIn(c)
    decreases c, 0
  {
    PlainParts(c.t);
    PadTypeKeepsKind(c.t);
  }

  lemma {:induction false} AllPlainParts(cs: seq<Component>)
    requires AllPlain(cs)
    ensures PlainMembers(PadAll(cs)) && AllPowerLeaves(PadAll(cs)) && StrictestOf(PadAll(cs)) == StrictestOf(cs)
    decreases cs, 0
  {
    if cs != [] {
      PlainComponentParts(cs[0]);
      AllPlainParts(cs[1..]);
      assert PadAll(cs)[1..] == PadAll(cs[1..]);
    }
  }

  // A member type that is aligned in arrays is sound, and so are the kinds that
  // the struct places.
  lemma MemberIsSound(c: Component)
    requires PlainComponent(c) && MemberAlignedInArrays(c)
    ensures Sound(PadComponent(c))
  {
    PlainParts(c.t);
    if c.t.ExtInt? {
      MultipleIsZero(0, CHAR_WIDTH * ReprBytes(c.t.width));
      MultipleIsZero(1, CHAR_WIDTH * ReprBytes(c.t.width));
    } else if !c.t.BitField? {
      InArraysExactly(PadType(c.t));
    }
  }

  lemma {:induction false} MembersAreSound(cs: seq<Component>)
    requires AllPlain(cs) && AllAlignedInArrays(cs)
    ensures AllSound(PadAll(cs))
  {
    if cs != [] {
      MemberIsSound(cs[0]);
      MembersAreSound(cs[1..]);
    }
  }

  lemma ExtIntInArrays(w: nat)
    ensures InArrays(ExtInt(w)) <==> Divides(CHAR_WIDTH * ReprBytes(w), w)
  {
    MultipleIsZero(0, CHAR_WIDTH * ReprBytes(w));
    MultipleIsZero(1, CHAR_WIDTH * ReprBytes(w));
    InArraysExactly(ExtInt(w));
  }

  lemma BasicInArrays(s: nat)
    requires IsPow2(s)
    ensures InArrays(Basic(s))
  {
    MultipleIsZero(0, CHAR_WIDTH * s);
    MultipleIsZero(1, CHAR_WIDTH * s);
    InArraysExactly(Basic(s));
  }

  lemma BitFieldInArrays(w: nat, base: Type)
    requires Alignment(base) > 0
    ensures InArrays(BitField(w, base))
  {
    InArraysExactly(BitField(w, base));
  }

  // An array is aligned in arrays if its elements are.
  lemma ArrayInArrays(n: nat, elem: Type)
    requires PowerLeaves(elem) && Alignment(elem) > 0 && InArrays(elem)
    ensures InArrays(Array(n, elem))
  {
    var t := Array(n, elem);
    InArraysExactly(elem);
    InArraysExactly(t);
    MultipleIsZero(0, CHAR_WIDTH * Alignment(elem));
    assert Divides(CHAR_WIDTH * Alignment(elem), 0);
    assert AlignedAt(t, 0);
    if n > 0 {
      ScaledBy(n, Bits(elem), Strictest(elem));
    }
  }

  lemma ScaledBy(n: nat, x: nat, d: nat)
    requires d > 0 && x % d == 0
    ensures (n * x) % d == 0
  {
    assert x == (x / d) * d;
    assert n * x == (n * (x / d)) * d;
    MultipleIsZero(n * (x / d), d);
  }

  // Every type inside t is aligned in all arrays exactly when t fits.
  lemma {:induction false} AlignedExactlyWhenItFits(t: Type)
    requires Plain(t)
    ensures AlignedInArrays(t) <==> Fits(t)
    decreases t, 1
  {
    match t
    case Basic(s) => BasicInArrays(s);
    case ExtInt(w) => ExtIntInArrays(w);
    case BitField(w, base) => BitFieldInArrays(w, base);
    case Array(n, elem) => ArrayExactly(n, elem);
    case Struct(cs) => StructExactly(cs);
    case Union(cs) => UnionExactly(cs);
  }

  lemma {:induction false} ArrayExactly(n: nat, elem: Type)
    requires Plain(Array(n, elem))
    ensures AlignedInArrays(Array(n, elem)) <==> Fits(Array(n, elem))
    decreases elem, 2
  {
    hide InArrays, Plain, Strictest;
    PlainElement(n, elem);
    AlignedExactlyWhenItFits(elem);
    PlainParts(elem);
    PlainParts(Array(n, elem));
    if AlignedInArrays(elem) {
      ArrayInArrays(n, PadType(elem));
    }
  }

  lemma PlainElement(n: nat, elem: Type)
    requires Plain(Array(n, elem))
    ensures Plain(elem)
  {
  }

  lemma {:induction false} StructExactly(cs: seq<Component>)
    requires AllPlain(cs)
    ensures AlignedInArrays(Struct(cs)) <==> Fits(Struct(cs))
    decreases cs, 2
  {
    hide InArrays, AllSound, PlainMembers, KeepsPace, MaxAlignment, Excess, StrictestOf, Padded;
    AllExactly(cs);
    AllPlainParts(cs);
    if AllAlignedInArrays(cs) {
      MembersAreSound(cs);
      StructInArrays(PadAll(cs));
    }
  }

  lemma {:induction false} UnionExactly(cs: seq<Component>)
    requires AllPlain(cs)
    ensures AlignedInArrays(Union(cs)) <==> Fits(Union(cs))
    decreases cs, 2
  {
    hide InArrays, AllSound, PlainMembers, MaxAlignment, StrictestOf, PaddedUnion, UnionAlignment;
    AllExactly(cs);
    AllPlainParts(cs);
    if AllAlignedInArrays(cs) {
      MembersAreSound(cs);
      UnionInArrays(PadAll(cs));
    }
  }

  lemma {:induction false} MemberExactly(c: Component)
    requires PlainComponent(c)
    ensures MemberAlignedInArrays(c) <==> MemberFits(c)
    decreases c, 0
  {
    AlignedExactlyWhenItFits(c.t);
  }

  lemma {:induction false} AllExactly(cs: seq<Component>)
    requires AllPlain(cs)
    ensures AllAlignedInArrays(cs) <==> AllFit(cs)
    decreases cs, 0
  {
    if cs != [] {
      MemberExactly(cs[0]);
      AllExactly(cs[1..]);
    }
  }
}

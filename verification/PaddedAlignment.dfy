// What padding does to the alignment of a struct, which is looked up in all of
// its components, pads included.
module PaddedAlignment {
  import opened Layout
  import opened LayoutFacts
  import opened PaddedStructs
  import opened MemberReach

  // The type a member is declared with.
  ghost function DeclaredType(c: Component): Type {
    if c.t.BitField? then c.t.base else c.t
  }

  // A struct or union is aligned as its strictest member is declared.
  lemma {:induction false} StrictestMemberDecides(cs: seq<Component>)
    ensures Alignment(Struct(cs)) == Alignment(Union(cs)) == MaxAlignment(cs)
    ensures forall c :: c in cs ==> Alignment(DeclaredType(c)) <= MaxAlignment(cs)
    ensures MaxAlignment(cs) == 1 || exists c :: c in cs && Alignment(DeclaredType(c)) == MaxAlignment(cs)
  {
    if cs != [] {
      StrictestMemberDecides(cs[1..]);
      assert cs == [cs[0]] + cs[1..];
      assert Alignment(DeclaredType(cs[0])) == AlignmentOf(cs[0]);
      if MaxAlignment(cs) != AlignmentOf(cs[0]) && MaxAlignment(cs) != 1 {
        var c :| c in cs[1..] && Alignment(DeclaredType(c)) == MaxAlignment(cs[1..]);
        assert c in cs;
      }
    }
  }

  // An alignment that is given replaces that of the type, packing alone drops
  // it, and both together only lower it.
  lemma AttributesDecide(given: nat, isPacked: bool, t: Type)
    ensures var a := Alignment(Aligned(given, isPacked, t));
      && (given > 0 && !isPacked ==> a == given)
      && (given == 0 && isPacked ==> a == 1)
      && (given == 0 && !isPacked ==> a == Alignment(t))
      && (given > 0 && isPacked ==> a <= given && a <= Alignment(t) && (a == given || a == Alignment(t)))
  {
  }

  lemma StepKeepsAlignment(cs: seq<Component>, offset: nat, bits: nat, m: nat)
    requires cs != []
    ensures MaxAlignment(SecondStep(cs, offset, bits, m).comps) == Max(1, AlignmentOf(cs[0]))
  {
    var a := AlignmentOf(cs[0]);
    var gap := ByteGap(offset, a);
    Single(cs[0]);
    if gap > 0 {
      ByteGapAligns(offset, a);
      Single(BytePad(gap));
      AlignmentsConcat([BytePad(gap)], [cs[0]]);
    } else {
      assert PadBytes(gap) + [cs[0]] == [cs[0]];
    }
  }

  lemma {:induction false} SecondPassKeepsAlignment(cs: seq<Component>, offset: nat, bits: nat, m: nat)
    ensures MaxAlignment(SecondPass(cs, offset, bits, m).comps) == MaxAlignment(cs)
  {
    if cs != [] {
      var s := SecondStep(cs, offset, bits, m);
      StepKeepsAlignment(cs, offset, bits, m);
      if s.ok {
        var p := SecondPass(cs[1..], s.offset, s.bits, s.maxAlignment);
        SecondPassKeepsAlignment(cs[1..], s.offset, s.bits, s.maxAlignment);
        AlignmentsConcat(s.comps, p.comps);
      } else {
        AlignmentsConcat(s.comps, cs[1..]);
      }
    }
  }

  lemma GapIsSmaller(offset: nat, m: nat)
    ensures ByteGap(offset, m) == 0 || ByteGap(offset, m) < m
  {
    if m > 0 {
      ByteGapAligns(offset, m);
    }
  }

  // The components of the result are aligned as the members, the pads of their
  // extended integers and the end pad are.
  lemma PaddedMaxAlignment(cs: seq<Component>, given: nat, isPacked: bool)
    requires Aligns(cs) && (isPacked ==> given > 0)
    ensures MaxAlignment(Padded(cs, given, isPacked).comps)
      == Max(Max(MaxAlignment(cs), ExtPadAlignment(cs)), EndGap(cs, given))
  {
    hide MaxAlignment, FirstPass, SecondPass, ExtPadAlignment, ByteGap, EndGap;
    EndPadFills(cs, given);
    var first := FirstPass(cs, 0);
    var p := SecondPass(first, 0, 0, 0);
    FirstPassKeepsAlignment(cs, 0);
    SecondPassKeepsAlignment(first, 0, 0, 0);
    var gap := EndGap(cs, given);
    if p.ok {
      AlignmentsConcat(p.comps, PadBytes(gap));
      PadAlignment(gap);
    }
  }

  lemma PadAlignment(gap: nat)
    ensures MaxAlignment(PadBytes(gap)) == Max(1, gap)
  {
    if gap > 0 {
      Single(BytePad(gap));
    }
  }

  lemma EndGapBound(cs: seq<Component>, given: nat)
    requires Aligns(cs)
    ensures EndGap(cs, given) == 0 || EndGap(cs, given) < Max(MaxAlignment(cs), given)
  {
    AllCount(cs);
    GapIsSmaller(Reach(cs, 0, 0), Max(Max(1, Counted(cs)), given));
  }

  // Padding leaves the alignment of a struct alone exactly when
  // - it has one of the attributes only,
  // - it has none, and no pad of an extended integer is aligned more strictly
  //   than all members, or
  // - it has both, and the alignment it is given is no stricter than that of its
  //   members, or neither the end pad nor those pads are.
  lemma PaddingKeepsAlignment(cs: seq<Component>, given: nat, isPacked: bool)
    requires Aligns(cs)
    ensures var a := MaxAlignment(cs);
      Alignment(Aligned(given, isPacked, Struct(Padded(cs, given, isPacked).comps)))
      == Alignment(Aligned(given, isPacked, Struct(cs)))
      <==>
        || isPacked == (given == 0)
        || (given == 0 && ExtPadAlignment(cs) <= a)
        || (given > 0 && isPacked && (given <= a || (EndGap(cs, given) <= a && ExtPadAlignment(cs) <= a)))
  {
    hide Padded, MaxAlignment, EndGap, ExtPadAlignment;
    if isPacked != (given == 0) {
      PaddedMaxAlignment(cs, given, isPacked);
      EndGapBound(cs, given);
      assert Alignment(Struct(cs)) == MaxAlignment(cs);
      var comps := Padded(cs, given, isPacked).comps;
      assert Alignment(Struct(comps)) == MaxAlignment(comps);
    }
  }

  // A struct that is packed and has an alignment: its own end pad can raise it.
  lemma PackedAndAlignedChanges()
    ensures var cs := [Component(Basic(1), false)];
      && Alignment(Aligned(4, true, Struct(cs))) == 1
      && Alignment(Aligned(4, true, Struct(Padded(cs, 4, true).comps))) == 3
  {
    var c := Component(Basic(1), false);
    var cs := [c];
    assert FirstPass(cs, 0) == cs;
    var s := SecondStep(cs, 0, 0, 0);
    assert s == Packing(cs, 1, 0, 1, true);
    assert SecondPass(cs, 0, 0, 0).comps == cs;
    assert PadBytes(3) == [BytePad(3)];
    assert Padded(cs, 4, true).comps == [c] + [BytePad(3)];
    Single(c);
    Single(BytePad(3));
    AlignmentsConcat([c], [BytePad(3)]);
  }

  // The declared type of a bit-field counts although the bit-field does not fill
  // it: a struct of one bit-field is padded to that type's alignment.
  lemma OneBitField(w: nat, s: nat)
    requires w > 0 && s > 0
    ensures var p := Padded([Component(BitField(w, Basic(s)), false)], 0, false);
      p.ok && p.offset % s == 0 && w <= CHAR_WIDTH * p.offset < w + CHAR_WIDTH * s
  {
    var c := Component(BitField(w, Basic(s)), false);
    var p := Padded([c], 0, false);
    hide Padded, Reach, ByteGap, MaxAlignment;
    assert Strip(c.t) == c.t && AlignmentOf(c) == Alignment(Basic(s)) == s;
    assert Aligns([c]) && ExtsFit([c]);
    PaddingCounts([c], 0, false);
    PaddedReach([c], 0, false);
    OneBitFieldReaches(c, w);
    Single(c);
    assert EndGap([c], 0) == ByteGap(Reach([c], 0, 0), Max(Max(1, s), 0));
    ByteGapAligns(Reach([c], 0, 0), s);
    GapIsSmaller(Reach([c], 0, 0), s);
    BitsThenGap(w, s, Reach([c], 0, 0), ByteGap(Reach([c], 0, 0), s));
  }

  lemma OneBitFieldReaches(c: Component, w: nat)
    requires c.t.BitField? && c.t.width == w > 0
    ensures w <= CHAR_WIDTH * Reach([c], 0, 0) < w + CHAR_WIDTH
  {
    assert [c][1..] == [] && Strip(c.t) == c.t;
    assert Reach([c], 0, 0) == Reach([], w / CHAR_WIDTH, w % CHAR_WIDTH);
  }

  // The gap is less than what takes the started bytes to the next multiple.
  lemma BitsThenGap(w: nat, s: nat, reach: nat, gap: nat)
    requires w <= CHAR_WIDTH * reach < w + CHAR_WIDTH && s > 0 && (gap == 0 || gap < s)
    ensures w <= CHAR_WIDTH * (reach + gap) < w + CHAR_WIDTH * s
  {
  }
}

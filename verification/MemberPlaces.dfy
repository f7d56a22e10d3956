// Where the members of a padded struct start: exactly when each of them starts
// at a multiple of what is demanded of it.
module MemberPlaces {
  import opened Layout
  import opened LayoutFacts
  import opened PaddedStructs

  predicate Divides(a: nat, x: int) {
    a > 0 && x % a == 0
  }

  // What is demanded of placed members, in bits, divides their alignments.
  ghost predicate Demands(cs: seq<Component>, demand: Component -> nat) {
    forall c :: c in cs && IsPlaced(c) ==> Divides(demand(c), AlignmentBits(c))
  }

  ghost predicate DemandMet(c: Component, e: int, demand: Component -> nat) {
    IsPlaced(c) && demand(c) > 0 ==> e % demand(c) == 0
  }

  // With e bits of excess before them and excess of(c) at each component: at
  // each placed member the excess so far is a multiple of what the member
  // demands.
  ghost predicate PaceKept(cs: seq<Component>, e: int, demand: Component -> nat, of: Component -> int) {
    cs == [] || (DemandMet(cs[0], e, demand) && PaceKept(cs[1..], e + of(cs[0]), demand, of))
  }

  ghost predicate KeepsPace(cs: seq<Component>, e: int, demand: Component -> nat) {
    PaceKept(cs, e, demand, ExcessOf)
  }

  lemma {:induction false} StartsAtConcat(s: seq<Component>, t: seq<Component>, at: nat, demand: Component -> nat)
    ensures StartsAt(s + t, at, demand) <==> (StartsAt(s, at, demand) && StartsAt(t, at + Total(s), demand))
  {
    if s == [] {
      assert s + t == t;
    } else {
      assert (s + t)[1..] == s[1..] + t;
      StartsAtConcat(s[1..], t, at + BitsOf(s[0]), demand);
    }
  }

  lemma {:induction false} PaceConcat(
      s: seq<Component>, t: seq<Component>, e: int, demand: Component -> nat, of: Component -> int)
    ensures PaceKept(s + t, e, demand, of)
      <==> (PaceKept(s, e, demand, of) && PaceKept(t, e + SumOf(s, of), demand, of))
  {
    if s == [] {
      assert s + t == t;
    } else {
      assert (s + t)[1..] == s[1..] + t;
      PaceConcat(s[1..], t, e + of(s[0]), demand, of);
    }
  }

  lemma PadsStartAnywhere(n: nat, at: nat, demand: Component -> nat)
    ensures StartsAt(PadBytes(n), at, demand)
  {
  }

  lemma OneStartsAt(c: Component, at: nat, demand: Component -> nat)
    ensures StartsAt([c], at, demand) <==> DemandMet(c, at, demand)
  {
    assert [c][1..] == [];
  }

  // Of two numbers that add up to a multiple, both or none are multiples.
  lemma BothOrNone(x: int, y: int, q: int, d: nat)
    requires d > 0 && x + y == q * d
    ensures x % d == 0 <==> y % d == 0
  {
    if x % d == 0 {
      OtherToo(x, y, q, d);
    }
    if y % d == 0 {
      OtherToo(y, x, q, d);
    }
  }

  lemma OtherToo(x: int, y: int, q: int, d: nat)
    requires d > 0 && x + y == q * d && x % d == 0
    ensures y % d == 0
  {
    var k := x / d;
    assert x == k * d;
    assert y == (q - k) * d;
    MultipleIsZero(q - k, d);
  }

  lemma MultipleOfMultiple(x: nat, a: nat, d: nat) returns (q: nat)
    requires Divides(a, x) && Divides(d, CHAR_WIDTH * a)
    ensures CHAR_WIDTH * x == q * d
  {
    var b := CHAR_WIDTH * a;
    q := (x / a) * (b / d);
    assert x == (x / a) * a && b == (b / d) * d;
    assert CHAR_WIDTH * x == (x / a) * b;
  }

  // A component behind a gap that makes the offset a multiple of its alignment
  // meets a demand that divides the alignment as far as the excess does.
  lemma PlacedBehindGap(c: Component, offset: nat, at: nat, demand: Component -> nat)
    requires AlignmentOf(c) > 0
    requires IsPlaced(c) ==> Divides(demand(c), AlignmentBits(c))
    ensures var s := PadBytes(ByteGap(offset, AlignmentOf(c))) + [c];
      StartsAt(s, at, demand) <==> DemandMet(c, CHAR_WIDTH * offset - at, demand)
  {
    var gap := ByteGap(offset, AlignmentOf(c));
    PadsTakeWholeBytes(gap);
    PadsStartAnywhere(gap, at, demand);
    StartsAtConcat(PadBytes(gap), [c], at, demand);
    OneStartsAt(c, at + CHAR_WIDTH * gap, demand);
    if IsPlaced(c) {
      ByteGapAligns(offset, AlignmentOf(c));
      var q := MultipleOfMultiple(offset + gap, AlignmentOf(c), demand(c));
      BothOrNone(at + CHAR_WIDTH * gap, CHAR_WIDTH * offset - at, q, demand(c));
    }
  }

  // ------------------------------------------------------------ the second pass

  lemma DemandsRest(cs: seq<Component>, demand: Component -> nat)
    requires cs != [] && Demands(cs, demand) && Aligns(cs)
    ensures AlignmentOf(cs[0]) > 0 && (IsPlaced(cs[0]) ==> Divides(demand(cs[0]), AlignmentBits(cs[0])))
    ensures Demands(cs[1..], demand) && Aligns(cs[1..])
  {
  }

  lemma StepPlaces(cs: seq<Component>, offset: nat, bits: nat, m: nat, at: nat, demand: Component -> nat)
    requires cs != [] && Bytewise(cs, bits) && bits < CHAR_WIDTH && AlignmentOf(cs[0]) > 0
    requires IsPlaced(cs[0]) ==> Divides(demand(cs[0]), AlignmentBits(cs[0]))
    ensures StartsAt(SecondStep(cs, offset, bits, m).comps, at, demand)
      <==> DemandMet(cs[0], CHAR_WIDTH * offset + bits - at, demand)
  {
    hide SecondStep, InStep, Overshoot, CountedOf, AlignmentOf, StartsAt, ExtMissing;
    if IsBits(cs[0]) {
      StepOverBits(cs, offset, bits, m);
      OneStartsAt(cs[0], at, demand);
    } else if IsExtPad(cs[0]) {
      StepOverExtPad(cs, offset, m);
      OneStartsAt(cs[0], at, demand);
    } else {
      if IsExt(cs[0]) {
        StepOverExt(cs, offset, m);
      } else {
        StepOverMember(cs, offset, m);
      }
      PlacedBehindGap(cs[0], offset, at, demand);
    }
  }

  // The second pass places the members as the excess among them allows; at is
  // the position of the first component.
  lemma {:induction false} SecondPassPlaces(
      cs: seq<Component>, offset: nat, bits: nat, m: nat, at: nat, demand: Component -> nat)
    requires Bytewise(cs, bits) && bits < CHAR_WIDTH && Aligns(cs) && Demands(cs, demand)
    requires SecondPass(cs, offset, bits, m).ok
    ensures StartsAt(SecondPass(cs, offset, bits, m).comps, at, demand)
      <==> PaceKept(cs, CHAR_WIDTH * offset + bits - at, demand, Overshoot)
  {
    hide SecondStep, Bytewise, DemandMet, Demands, Aligns, AlignmentOf, Overshoot;
    if cs != [] {
      var s := SecondStep(cs, offset, bits, m);
      DemandsRest(cs, demand);
      StepOverOne(cs, offset, bits, m);
      if !s.ok {
        StepsStop(cs, offset, bits, m);
      }
      var p := SecondPass(cs[1..], s.offset, s.bits, s.maxAlignment);
      StepsGoOn(cs, offset, bits, m);
      StepPlaces(cs, offset, bits, m, at, demand);
      StartsAtConcat(s.comps, p.comps, at, demand);
      SecondPassPlaces(cs[1..], s.offset, s.bits, s.maxAlignment, at + Total(s.comps), demand);
    }
  }

  // ----------------------------------------------------------- the whole struct

  lemma PadToByteKeepsPace(bits: nat, e: int, demand: Component -> nat)
    ensures PaceKept(PadToByte(bits), e, demand, Overshoot) && SumOf(PadToByte(bits), Overshoot) == 0
    ensures Demands(PadToByte(bits), demand)
  {
    SmallPads(bits);
  }

  lemma OneKeepsPace(c: Component, e: int, demand: Component -> nat, of: Component -> int)
    ensures PaceKept([c], e, demand, of) <==> DemandMet(c, e, demand)
  {
    assert [c][1..] == [];
  }

  lemma OwnKeepsPace(c: Component, e: int, demand: Component -> nat)
    ensures PaceKept(Own(c), e, demand, Overshoot) <==> DemandMet(c, e, demand)
    ensures SumOf(Own(c), Overshoot) == ExcessOf(c)
  {
    hide Overshoot, ExcessOf, AlignmentOf;
    OwnAlignment(c);
    OneKeepsPace(c, e, demand, Overshoot);
    if IsExt(c) {
      var pad := ExtPad(ExtMissing(WidthOf(c)));
      assert Own(c) == [c] + [pad];
      PaceConcat([c], [pad], e, demand, Overshoot);
      OneKeepsPace(pad, e + SumOf([c], Overshoot), demand, Overshoot);
    }
  }

  lemma OwnDemands(c: Component, demand: Component -> nat)
    requires IsPlaced(c) ==> Divides(demand(c), AlignmentBits(c))
    ensures Demands(Own(c), demand)
  {
  }

  lemma DemandsConcat(s: seq<Component>, t: seq<Component>, demand: Component -> nat)
    requires Demands(s, demand) && Demands(t, demand)
    ensures Demands(s + t, demand)
  {
  }

  // The first pass moves no member relative to the excess.
  lemma {:induction false} FirstPassKeepsPace(cs: seq<Component>, bits: nat, e: int, demand: Component -> nat)
    requires Aligns(cs) && Demands(cs, demand)
    ensures PaceKept(FirstPass(cs, bits), e, demand, Overshoot) <==> KeepsPace(cs, e, demand)
    ensures Demands(FirstPass(cs, bits), demand)
  {
    hide Aligns, DemandMet, ExcessOf, Overshoot, AlignmentOf, Own, RunAfter, PadToByte;
    PadToByteKeepsPace(bits, e, demand);
    if cs != [] {
      var c, next := cs[0], RunAfter(cs[0], bits);
      var rest := FirstPass(cs[1..], next);
      DemandsRest(cs, demand);
      FirstPassKeepsPace(cs[1..], next, e + ExcessOf(c), demand);
      FirstPassSteps(cs, bits);
      JoinPaces(Before(c, bits), c, rest, e, demand);
    }
  }

  lemma JoinPaces(before: seq<Component>, c: Component, rest: seq<Component>, e: int, demand: Component -> nat)
    requires IsPlaced(c) ==> Divides(demand(c), AlignmentBits(c))
    requires PaceKept(before, e, demand, Overshoot) && SumOf(before, Overshoot) == 0
    requires Demands(before, demand) && Demands(rest, demand)
    ensures PaceKept(before + (Own(c) + rest), e, demand, Overshoot)
      <==> (DemandMet(c, e, demand) && PaceKept(rest, e + ExcessOf(c), demand, Overshoot))
    ensures Demands(before + (Own(c) + rest), demand)
  {
    hide PaceKept, Own, DemandMet, Demands, SumOf, Overshoot, ExcessOf, AlignmentOf;
    OwnKeepsPace(c, e, demand);
    OwnDemands(c, demand);
    PaceConcat(Own(c), rest, e, demand, Overshoot);
    PaceConcat(before, Own(c) + rest, e, demand, Overshoot);
    DemandsConcat(Own(c), rest, demand);
    DemandsConcat(before, Own(c) + rest, demand);
  }

  // In a padded struct every placed member starts at a multiple of what is
  // demanded of it exactly when the excess before it is one.
  lemma PaddingPlaces(cs: seq<Component>, given: nat, isPacked: bool, demand: Component -> nat)
    requires Aligns(cs) && ExtsFit(cs) && Demands(cs, demand) && (isPacked ==> given > 0)
    ensures StartsAt(Padded(cs, given, isPacked).comps, 0, demand) <==> KeepsPace(cs, 0, demand)
  {
    hide FirstPass, SecondPass, StartsAt, PaceKept, ExtsFit, Aligns, Demands, Bytewise, PadBytes;
    var first := FirstPass(cs, 0);
    var p := SecondPass(first, 0, 0, 0);
    PassesLayOut(cs);
    FirstPassIsBytewise(cs, 0);
    FirstPassKeepsFit(cs, 0);
    FirstPassKeepsPace(cs, 0, 0, demand);
    SecondPassPlaces(first, 0, 0, 0, 0, demand);
    var gap := ByteGap(p.offset, Max(p.maxAlignment, given));
    StartsAtConcat(p.comps, PadBytes(gap), 0, demand);
    PadsStartAnywhere(gap, Total(p.comps), demand);
  }

  lemma AlignmentsAreDemands(cs: seq<Component>)
    requires Aligns(cs)
    ensures Demands(cs, AlignmentBits)
  {
    forall c | c in cs && IsPlaced(c)
      ensures Divides(AlignmentBits(c), AlignmentBits(c))
    {
      MultipleIsZero(1, AlignmentBits(c));
    }
  }

  // What add_padding achieves: its assertions hold exactly when every extended
  // integer fits; then the offset is the size of the result plus the excess and
  // a multiple of the alignment, and every member starts at a multiple of its
  // alignment exactly when the excess before it is one.
  lemma PaddingLaysOut(cs: seq<Component>, given: nat, isPacked: bool)
    requires Aligns(cs) && (isPacked ==> given > 0)
    ensures var p := Padded(cs, given, isPacked);
      && (p.ok <==> ExtsFit(cs))
      && (p.ok ==>
            && CHAR_WIDTH * p.offset == Total(p.comps) + Excess(cs)
            && p.offset % Max(Max(1, Counted(cs)), given) == 0
            && (StartsAligned(p.comps, 0) <==> KeepsPace(cs, 0, AlignmentBits)))
  {
    hide Padded, ExtsFit, Counted, Excess, KeepsPace, StartsAt;
    PaddingCounts(cs, given, isPacked);
    AlignmentsAreDemands(cs);
    if ExtsFit(cs) {
      PaddingPlaces(cs, given, isPacked, AlignmentBits);
    }
  }

  // Without pads of extended integers and without excess, that is, with members
  // of whole bytes, it always is.
  lemma {:induction false} NoExcessKeepsPace(cs: seq<Component>, demand: Component -> nat)
    requires NoExtPads(cs) && Excess(cs) == 0
    ensures KeepsPace(cs, 0, demand)
  {
    if cs != [] {
      ExcessIsZero(cs[1..]);
      NoExcessKeepsPace(cs[1..], demand);
    }
  }

  // Aligned starts, member by member.
  lemma StartsAlignedAt(cs: seq<Component>, i: nat)
    requires StartsAligned(cs, 0) && i < |cs| && IsPlaced(cs[i]) && AlignmentOf(cs[i]) > 0
    ensures Total(cs[..i]) % (CHAR_WIDTH * AlignmentOf(cs[i])) == 0
  {
    StartsAtConcat(cs[..i], cs[i..], 0, AlignmentBits);
    assert cs[..i] + cs[i..] == cs;
  }

  // What follows a bit-field of width zero starts at a multiple of the alignment
  // of its declared type.
  lemma ZeroWidthAligns(cs: seq<Component>, given: nat, isPacked: bool, i: nat, s: nat)
    requires Aligns(cs) && ExtsFit(cs) && KeepsPace(cs, 0, AlignmentBits) && (isPacked ==> given > 0)
    requires i < |Padded(cs, given, isPacked).comps| && s > 0
    requires Padded(cs, given, isPacked).comps[i] == Component(BitField(0, Basic(s)), false)
    ensures Total(Padded(cs, given, isPacked).comps[..i + 1]) % (CHAR_WIDTH * s) == 0
  {
    hide Padded, ExtsFit, KeepsPace, StartsAt, Total;
    var comps := Padded(cs, given, isPacked).comps;
    var c := comps[i];
    assert Strip(c.t) == c.t && AlignmentOf(c) == Alignment(Basic(s)) == s;
    PaddingLaysOut(cs, given, isPacked);
    StartsAlignedAt(comps, i);
    assert comps[..i + 1] == comps[..i] + [c];
    TotalConcat(comps[..i], [c]);
    TotalOfOne(c);
  }

  // An array of one 33-bit integer takes 33 bits but counts as 5 bytes, so the
  // int after it starts at bit 57.
  lemma ExtIntArrayShifts()
    ensures var a, b := Component(Array(1, ExtInt(33)), false), Component(Basic(4), false);
      var comps := Padded([a, b], 0, false).comps;
      |comps| == 4 && comps[2] == b && Total(comps[..2]) == 57 && !StartsAligned(comps, 0)
  {
    hide Padded, StartsAt, Total;
    PaddedExtIntArray();
    ShiftedInt();
  }

  lemma PaddedExtIntArray()
    ensures var a, b := Component(Array(1, ExtInt(33)), false), Component(Basic(4), false);
      var p := Padded([a, b], 0, false);
      p.ok && p.comps == [a, BytePad(3), b, BytePad(4)]
  {
    var a, b := Component(Array(1, ExtInt(33)), false), Component(Basic(4), false);
    var cs := [a, b];
    assert FirstPass([b], 0) == [b];
    assert FirstPass(cs, 0) == cs;
    assert BitsOf(a) == 33 && AlignmentOf(a) == AlignmentOf(Component(ExtInt(33), false)) == ReprBytes(33);
    assert ReprFrom(33, 4) == 8;
    assert SecondStep(cs, 0, 0, 0) == Packing([a], 5, 0, 8, true);
    assert cs[1..] == [b] && PadBytes(3) == [BytePad(3)] && PadBytes(4) == [BytePad(4)];
    assert SecondPass([b], 5, 0, 8) == Packing([BytePad(3), b], 12, 0, 8, true);
  }

  lemma ShiftedInt()
    ensures var comps := [Component(Array(1, ExtInt(33)), false), BytePad(3), Component(Basic(4), false), BytePad(4)];
      Total(comps[..2]) == 57 && !StartsAligned(comps, 0)
  {
    var a, b := Component(Array(1, ExtInt(33)), false), Component(Basic(4), false);
    var tail := [b, BytePad(4)];
    var comps := [a, BytePad(3)] + tail;
    assert BitsOf(a) == 33;
    TotalOfOne(a);
    TotalOfOne(BytePad(3));
    TotalConcat([a], [BytePad(3)]);
    assert [a, BytePad(3)] == [a] + [BytePad(3)];
    StartsAtConcat([a, BytePad(3)], tail, 0, AlignmentBits);
    assert comps == [a, BytePad(3), b, BytePad(4)] && comps[..2] == [a, BytePad(3)];
  }

  // A 33-bit integer with its pad takes 8 bytes; with an alignment of 16 the
  // assertion that it is a whole number of alignments fails.
  lemma AlignedExtIntFails()
    ensures var cs := [Component(Aligned(16, false, ExtInt(33)), false)];
      Aligns(cs) && !Padded(cs, 0, false).ok
  {
    hide Padded;
    var c := Component(Aligned(16, false, ExtInt(33)), false);
    Representations();
    assert Strip(c.t) == ExtInt(33);
    assert !ExtFits(c);
    assert c in [c];
    PaddingLaysOut([c], 0, false);
  }

  // A class derived from one with a 33-bit integer: the pad that comes with it
  // is padded again, is skipped together with its own pad, and the 8-byte
  // member after them starts at bit 96.
  lemma InheritedPadShifts()
    ensures var a, b := Component(ExtInt(33), false), Component(Basic(8), false);
      var p := Padded([a, ExtPad(31), b], 0, false);
      && p.ok && p.comps == [a, ExtPad(31), ExtPad(31), ExtPad(1), b]
      && Total(p.comps[..4]) == 96 && !StartsAligned(p.comps, 0)
  {
    hide Padded, StartsAt, KeepsPace, Total;
    var a, b := Component(ExtInt(33), false), Component(Basic(8), false);
    var cs := [a, ExtPad(31), b];
    PaddedInherited();
    TotalInherited();
    PaddingLaysOut(cs, 0, false);
    InheritedLosesPace();
  }

  lemma InheritedLosesPace()
    ensures var cs := [Component(ExtInt(33), false), ExtPad(31), Component(Basic(8), false)];
      Aligns(cs) && !KeepsPace(cs, 0, AlignmentBits)
  {
    var a, pad, b := Component(ExtInt(33), false), ExtPad(31), Component(Basic(8), false);
    var cs := [a, pad, b];
    Representations();
    assert cs[1..] == [pad, b] && cs[1..][1..] == [b];
    assert ExcessOf(a) == 0 && ExcessOf(pad) == -32;
    assert !PaceKept([b], -32, AlignmentBits, ExcessOf);
    assert !PaceKept([pad, b], 0, AlignmentBits, ExcessOf);
  }

  lemma Representations()
    ensures ReprBytes(33) == 8 && ReprBytes(31) == 4 && ReprBytes(1) == 1
    ensures ExtMissing(33) == 31 && ExtMissing(31) == 1
  {
    assert ReprFrom(33, 4) == 8;
    assert ReprFrom(31, 4) == 4;
  }

  lemma InheritedFirstPass()
    ensures var a, b := Component(ExtInt(33), false), Component(Basic(8), false);
      FirstPass([a, ExtPad(31), b], 0) == [a, ExtPad(31), ExtPad(31), ExtPad(1), b]
  {
    hide ReprBytes;
    var a, pad, b := Component(ExtInt(33), false), ExtPad(31), Component(Basic(8), false);
    Representations();
    FirstPassSteps([b], 0);
    FirstPassSteps([pad, b], 0);
    FirstPassSteps([a, pad, b], 0);
    assert FirstPass([b], 0) == [b];
    assert [pad, b][1..] == [b] && [a, pad, b][1..] == [pad, b];
  }

  lemma InheritedSecondPass()
    ensures var a, b := Component(ExtInt(33), false), Component(Basic(8), false);
      var cs := [a, ExtPad(31), ExtPad(31), ExtPad(1), b];
      SecondPass(cs, 0, 0, 0) == Packing(cs, 16, 0, 8, true)
  {
    hide ReprBytes;
    var a, pad, last, b := Component(ExtInt(33), false), ExtPad(31), ExtPad(1), Component(Basic(8), false);
    Representations();
    var pads := [pad, last, b];
    assert SecondPass([b], 8, 0, 8) == Packing([b], 16, 0, 8, true);
    assert [last, b][1..] == [b] && pads[1..] == [last, b];
    StepsGoOn([last, b], 8, 0, 8);
    StepsGoOn(pads, 8, 0, 8);
    StepsGoOn([pad] + pads, 8, 0, 8);
    assert ([pad] + pads)[1..] == pads && ([a, pad] + pads)[1..] == [pad] + pads;
    assert SecondStep([a, pad] + pads, 0, 0, 0) == Packing([a], 8, 0, 8, true);
    StepsGoOn([a, pad] + pads, 0, 0, 0);
    assert [a, pad] + pads == [a, pad, pad, last, b];
  }

  lemma PaddedInherited()
    ensures var a, b := Component(ExtInt(33), false), Component(Basic(8), false);
      var p := Padded([a, ExtPad(31), b], 0, false);
      p.ok && p.comps == [a, ExtPad(31), ExtPad(31), ExtPad(1), b]
  {
    hide FirstPass, SecondPass;
    InheritedFirstPass();
    InheritedSecondPass();
  }

  lemma TotalInherited()
    ensures var comps := [Component(ExtInt(33), false), ExtPad(31), ExtPad(31), ExtPad(1), Component(Basic(8), false)];
      Total(comps[..4]) == 96
  {
    var a, pad, last := Component(ExtInt(33), false), ExtPad(31), ExtPad(1);
    TotalOfOne(a);
    TotalOfOne(pad);
    TotalOfOne(last);
    TotalConcat([a], [pad]);
    TotalConcat([a] + [pad], [pad]);
    TotalConcat([a] + [pad] + [pad], [last]);
    assert [a, pad, pad, last, Component(Basic(8), false)][..4] == [a] + [pad] + [pad] + [last];
  }
}

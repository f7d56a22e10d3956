// The second pass of add_padding and the padded struct: how the offset follows
// the position and when the assertions hold.
module PaddedStructs {
  import opened Layout
  import opened LayoutFacts

  lemma {:induction false} TotalConcat(s: seq<Component>, t: seq<Component>)
    ensures Total(s + t) == Total(s) + Total(t)
  {
    if s == [] {
      assert s + t == t;
    } else {
      assert (s + t)[1..] == s[1..] + t;
      TotalConcat(s[1..], t);
    }
  }

  // The greatest alignment the second pass counts: pads of extended integers
  // are skipped.
  ghost function Counted(cs: seq<Component>): nat {
    if cs == [] then 0 else Max(CountedOf(cs[0]), Counted(cs[1..]))
  }

  ghost function CountedOf(c: Component): nat {
    if IsExtPad(c) then 0 else AlignmentOf(c)
  }

  ghost function SumOf(cs: seq<Component>, of: Component -> int): int {
    if cs == [] then 0 else of(cs[0]) + SumOf(cs[1..], of)
  }

  // Bits the second pass counts for a component beyond those it takes: started
  // bytes count, an extended integer is counted together with its pad, and pads
  // of extended integers are skipped.
  ghost function Overshoot(c: Component): int {
    if IsExtPad(c) then 0 - WidthOf(c)
    else if IsExt(c) then ExtMissing(WidthOf(c))
    else if IsBits(c) then 0
    else CHAR_WIDTH * Size(c.t) - BitsOf(c)
  }

  // The same for a component of the list that is to be padded: what the first
  // pass puts after it is included, so a pad that comes with the list is
  // skipped along with a pad of its own.
  ghost function ExcessOf(c: Component): int {
    if IsExtPad(c) then 0 - WidthOf(c) - ExtMissing(WidthOf(c))
    else if IsBits(c) || IsExt(c) then 0
    else CHAR_WIDTH * Size(c.t) - BitsOf(c)
  }

  ghost function Excess(cs: seq<Component>): int {
    SumOf(cs, ExcessOf)
  }

  lemma {:induction false} StripKeepsBits(t: Type)
    ensures Bits(t) == Bits(Strip(t))
  {
    if t.Aligned? {
      StripKeepsBits(t.inner);
    }
  }

  lemma TotalOfOne(c: Component)
    ensures Total([c]) == BitsOf(c)
  {
    assert [c][1..] == [];
  }

  lemma PadsTakeWholeBytes(n: nat)
    ensures Total(PadBytes(n)) == CHAR_WIDTH * n
  {
    if n > 0 {
      TotalOfOne(BytePad(n));
    }
  }

  // What the second pass keeps: 8 * offset + bits is the position of the cursor
  // plus the excess so far.
  ghost predicate InStep(s: Packing, before: int, m: nat, counted: nat, excess: int) {
    && s.bits < CHAR_WIDTH
    && CHAR_WIDTH * s.offset + s.bits == before + Total(s.comps) + excess
    && s.maxAlignment == Max(m, counted)
  }

  lemma StepOverBits(cs: seq<Component>, offset: nat, bits: nat, m: nat)
    requires cs != [] && IsBits(cs[0]) && bits < CHAR_WIDTH
    ensures var s := SecondStep(cs, offset, bits, m);
      && s.ok && s.comps == [cs[0]] && s.bits == (bits + WidthOf(cs[0])) % CHAR_WIDTH
      && InStep(s, CHAR_WIDTH * offset + bits, m, CountedOf(cs[0]), Overshoot(cs[0]))
  {
    StripKeepsBits(cs[0].t);
    TotalOfOne(cs[0]);
  }

  lemma StepOverMember(cs: seq<Component>, offset: nat, m: nat)
    requires cs != [] && !IsBits(cs[0]) && !IsExt(cs[0]) && AlignmentOf(cs[0]) > 0
    ensures var s := SecondStep(cs, offset, 0, m);
      && s.ok && s.comps == PadBytes(ByteGap(offset, AlignmentOf(cs[0]))) + [cs[0]] && s.bits == 0
      && InStep(s, CHAR_WIDTH * offset, m, CountedOf(cs[0]), Overshoot(cs[0]))
  {
    var gap := ByteGap(offset, AlignmentOf(cs[0]));
    PadsTakeWholeBytes(gap);
    TotalConcat(PadBytes(gap), [cs[0]]);
    TotalOfOne(cs[0]);
  }

  lemma StepOverExtPad(cs: seq<Component>, offset: nat, m: nat)
    requires cs != [] && IsExtPad(cs[0])
    ensures var s := SecondStep(cs, offset, 0, m);
      && s.ok && s.comps == [cs[0]] && s.bits == 0
      && InStep(s, CHAR_WIDTH * offset, m, CountedOf(cs[0]), Overshoot(cs[0]))
  {
    StripKeepsBits(cs[0].t);
    TotalOfOne(cs[0]);
  }

  // An extended integer with its pad after it.
  lemma StepOverExt(cs: seq<Component>, offset: nat, m: nat)
    requires |cs| > 1 && IsExt(cs[0]) && !cs[0].isPad && cs[1] == ExtPad(ExtMissing(WidthOf(cs[0])))
    requires AlignmentOf(cs[0]) > 0
    ensures var s := SecondStep(cs, offset, 0, m);
      && (s.ok <==> ExtFits(cs[0]))
      && s.comps == PadBytes(ByteGap(offset, AlignmentOf(cs[0]))) + [cs[0]] && s.bits == 0
      && InStep(s, CHAR_WIDTH * offset, m, CountedOf(cs[0]), Overshoot(cs[0]))
  {
    var c := cs[0];
    var gap := ByteGap(offset, AlignmentOf(c));
    StripKeepsBits(c.t);
    ExtTotalIsWholeBytes(WidthOf(c));
    PadsTakeWholeBytes(gap);
    TotalConcat(PadBytes(gap), [c]);
    TotalOfOne(c);
  }

  lemma StepsGoOn(cs: seq<Component>, offset: nat, bits: nat, m: nat)
    requires cs != [] && SecondStep(cs, offset, bits, m).ok
    ensures var s := SecondStep(cs, offset, bits, m);
      var p := SecondPass(cs[1..], s.offset, s.bits, s.maxAlignment);
      SecondPass(cs, offset, bits, m) == p.(comps := s.comps + p.comps)
  {
  }

  lemma StepsStop(cs: seq<Component>, offset: nat, bits: nat, m: nat)
    requires cs != [] && !SecondStep(cs, offset, bits, m).ok
    ensures !SecondPass(cs, offset, bits, m).ok
  {
  }

  // One step, whatever the component.
  lemma StepOverOne(cs: seq<Component>, offset: nat, bits: nat, m: nat)
    requires cs != [] && Bytewise(cs, bits) && bits < CHAR_WIDTH && AlignmentOf(cs[0]) > 0
    ensures var s := SecondStep(cs, offset, bits, m);
      && (s.ok <==> ExtFits(cs[0]))
      && (s.ok ==> Bytewise(cs[1..], s.bits))
      && InStep(s, CHAR_WIDTH * offset + bits, m, CountedOf(cs[0]), Overshoot(cs[0]))
  {
    hide SecondStep, InStep, AlignmentOf, CountedOf, Overshoot, ExtMissing;
    if IsBits(cs[0]) {
      StepOverBits(cs, offset, bits, m);
      BytewiseModulo(cs[1..], bits + WidthOf(cs[0]), SecondStep(cs, offset, bits, m).bits);
    } else if IsExtPad(cs[0]) {
      StepOverExtPad(cs, offset, m);
    } else if IsExt(cs[0]) {
      StepOverExt(cs, offset, m);
    } else {
      StepOverMember(cs, offset, m);
    }
  }

  // What a run of the second pass comes to: it succeeds when fits holds and
  // then ends on a byte boundary.
  ghost predicate LaidOut(p: Packing, fits: bool, before: int, m: nat, counted: nat, excess: int) {
    && (p.ok <==> fits)
    && (p.ok ==> p.bits == 0 && InStep(p, before, m, counted, excess))
  }

  lemma StepThenRest(s: Packing, p: Packing, fits: bool, before: int, m: nat, x: nat, y: nat, e: int, f: int)
    requires InStep(s, before, m, x, e)
    requires LaidOut(p, fits, CHAR_WIDTH * s.offset + s.bits, s.maxAlignment, y, f)
    ensures LaidOut(p.(comps := s.comps + p.comps), fits, before, m, Max(x, y), e + f)
  {
    TotalConcat(s.comps, p.comps);
  }

  lemma ExtsFitSplit(cs: seq<Component>)
    requires cs != []
    ensures ExtsFit(cs) <==> (ExtFits(cs[0]) && ExtsFit(cs[1..]))
  {
    assert cs == [cs[0]] + cs[1..];
  }

  lemma FirstCounts(cs: seq<Component>, of: Component -> int)
    requires cs != []
    ensures Counted(cs) == Max(CountedOf(cs[0]), Counted(cs[1..]))
    ensures SumOf(cs, of) == of(cs[0]) + SumOf(cs[1..], of)
  {
  }

  // The whole second pass: its assertions hold exactly when every extended
  // integer fits its alignment, and then offset and bits track the position.
  lemma {:induction false} SecondPassLayout(cs: seq<Component>, offset: nat, bits: nat, m: nat)
    requires Bytewise(cs, bits) && bits < CHAR_WIDTH && Aligns(cs)
    ensures LaidOut(SecondPass(cs, offset, bits, m), ExtsFit(cs), CHAR_WIDTH * offset + bits, m,
      Counted(cs), SumOf(cs, Overshoot))
  {
    hide SecondStep, SecondPass, LaidOut, Bytewise, Counted, CountedOf, SumOf, Overshoot, ExtsFit, ExtFits, AlignmentOf;
    if cs == [] {
      NothingLayout(offset, bits, m);
    } else {
      var s := SecondStep(cs, offset, bits, m);
      StepOverOne(cs, offset, bits, m);
      ExtsFitSplit(cs);
      if s.ok {
        var p := SecondPass(cs[1..], s.offset, s.bits, s.maxAlignment);
        StepsGoOn(cs, offset, bits, m);
        SecondPassLayout(cs[1..], s.offset, s.bits, s.maxAlignment);
        FirstCounts(cs, Overshoot);
        StepThenRest(s, p, ExtsFit(cs[1..]), CHAR_WIDTH * offset + bits, m, CountedOf(cs[0]), Counted(cs[1..]),
          Overshoot(cs[0]), SumOf(cs[1..], Overshoot));
      } else {
        StepsStop(cs, offset, bits, m);
        StoppedLayout(cs, offset, bits, m);
      }
    }
  }

  lemma NothingLayout(offset: nat, bits: nat, m: nat)
    requires Bytewise([], bits) && bits < CHAR_WIDTH
    ensures LaidOut(SecondPass([], offset, bits, m), ExtsFit([]), CHAR_WIDTH * offset + bits, m,
      Counted([]), SumOf([], Overshoot))
  {
  }

  lemma StoppedLayout(cs: seq<Component>, offset: nat, bits: nat, m: nat)
    requires !SecondPass(cs, offset, bits, m).ok && !ExtsFit(cs)
    ensures LaidOut(SecondPass(cs, offset, bits, m), ExtsFit(cs), CHAR_WIDTH * offset + bits, m,
      Counted(cs), SumOf(cs, Overshoot))
  {
  }

  // ---------------------------------------------------------- the whole struct

  lemma {:induction false} AlignmentsConcat(s: seq<Component>, t: seq<Component>)
    ensures Counted(s + t) == Max(Counted(s), Counted(t))
    ensures MaxAlignment(s + t) == Max(MaxAlignment(s), MaxAlignment(t))
  {
    if s == [] {
      assert s + t == t;
    } else {
      assert (s + t)[1..] == s[1..] + t;
      AlignmentsConcat(s[1..], t);
    }
  }

  lemma {:induction false} SumConcat(s: seq<Component>, t: seq<Component>, of: Component -> int)
    ensures SumOf(s + t, of) == SumOf(s, of) + SumOf(t, of)
  {
    if s == [] {
      assert s + t == t;
    } else {
      assert (s + t)[1..] == s[1..] + t;
      SumConcat(s[1..], t, of);
    }
  }

  // What goes into the list for the first component: the component and, for an
  // extended integer, its pad.
  ghost function Own(c: Component): seq<Component> {
    if IsExt(c) then [c, ExtPad(ExtMissing(WidthOf(c)))] else [c]
  }

  ghost function RunAfter(c: Component, bits: nat): nat {
    if IsBits(c) then bits + WidthOf(c) else 0
  }

  // The pad before it.
  ghost function Before(c: Component, bits: nat): seq<Component> {
    if IsBits(c) then [] else PadToByte(bits)
  }

  lemma FirstPassSteps(cs: seq<Component>, bits: nat)
    requires cs != []
    ensures FirstPass(cs, bits)
      == Before(cs[0], bits) + (Own(cs[0]) + FirstPass(cs[1..], RunAfter(cs[0], bits)))
  {
  }

  // Alignment of the pads the first pass puts after extended integers.
  ghost function ExtPadAlignment(cs: seq<Component>): nat {
    if cs == [] then 1 else Max(ExtPadAlignmentOf(cs[0]), ExtPadAlignment(cs[1..]))
  }

  ghost function ExtPadAlignmentOf(c: Component): nat {
    if IsExt(c) then AlignmentOf(ExtPad(ExtMissing(WidthOf(c)))) else 1
  }

  lemma SmallPads(bits: nat)
    ensures Aligns(PadToByte(bits)) && ExtsFit(PadToByte(bits)) && SumOf(PadToByte(bits), Overshoot) == 0
    ensures Counted(PadToByte(bits)) <= 1 && MaxAlignment(PadToByte(bits)) == 1
  {
    var n := ToByte(bits);
    if n != 0 {
      assert [BitPad(n)][1..] == [];
      assert AlignmentOf(BitPad(n)) == Alignment(Nil) == 1;
    }
  }

  lemma OwnFits(c: Component)
    requires AlignmentOf(c) > 0
    ensures Aligns(Own(c)) && (ExtsFit(Own(c)) <==> ExtFits(c))
  {
    var own := Own(c);
    assert own[0] in own;
  }

  lemma Single(c: Component)
    ensures Counted([c]) == CountedOf(c) && MaxAlignment([c]) == Max(1, AlignmentOf(c))
    ensures SumOf([c], Overshoot) == Overshoot(c)
  {
    assert [c][1..] == [];
  }

  lemma OwnAlignment(c: Component)
    ensures SumOf(Own(c), Overshoot) == ExcessOf(c) && Counted(Own(c)) == CountedOf(c)
    ensures MaxAlignment(Own(c)) == Max(Max(1, AlignmentOf(c)), ExtPadAlignmentOf(c))
  {
    hide ExtMissing, AlignmentOf;
    Single(c);
    if IsExt(c) {
      var pad := ExtPad(ExtMissing(WidthOf(c)));
      Single(pad);
      assert Own(c) == [c] + [pad];
      SumConcat([c], [pad], Overshoot);
      AlignmentsConcat([c], [pad]);
    }
  }

  lemma {:induction false} FirstPassKeepsFit(cs: seq<Component>, bits: nat)
    requires Aligns(cs)
    ensures Aligns(FirstPass(cs, bits)) && (ExtsFit(FirstPass(cs, bits)) <==> ExtsFit(cs))
  {
    SmallPads(bits);
    if cs != [] {
      FirstPassKeepsFit(cs[1..], RunAfter(cs[0], bits));
      OwnFits(cs[0]);
      ExtsFitSplit(cs);
      FirstPassSteps(cs, bits);
    }
  }

  lemma {:induction false} FirstPassKeepsAlignment(cs: seq<Component>, bits: nat)
    ensures Max(1, Counted(FirstPass(cs, bits))) == Max(1, Counted(cs))
    ensures MaxAlignment(FirstPass(cs, bits)) == Max(MaxAlignment(cs), ExtPadAlignment(cs))
  {
    hide AlignmentOf, ExtPadAlignmentOf, CountedOf, Own;
    SmallPads(bits);
    if cs != [] {
      FirstPassKeepsAlignment(cs[1..], RunAfter(cs[0], bits));
      FirstPassSteps(cs, bits);
      JoinAlignments(Before(cs[0], bits), cs[0], FirstPass(cs[1..], RunAfter(cs[0], bits)));
    }
  }

  lemma JoinAlignments(before: seq<Component>, c: Component, rest: seq<Component>)
    requires Counted(before) <= 1 && MaxAlignment(before) == 1
    ensures var all := before + (Own(c) + rest);
      && Max(1, Counted(all)) == Max(1, Max(CountedOf(c), Counted(rest)))
      && MaxAlignment(all) == Max(Max(Max(1, AlignmentOf(c)), ExtPadAlignmentOf(c)), MaxAlignment(rest))
  {
    hide Own, Counted, MaxAlignment, AlignmentOf, ExtPadAlignmentOf;
    OwnAlignment(c);
    AlignmentsConcat(Own(c), rest);
    AlignmentsConcat(before, Own(c) + rest);
  }

  // Without pads of extended integers every component counts.
  lemma {:induction false} AllCount(cs: seq<Component>)
    ensures Counted(cs) <= MaxAlignment(cs)
    ensures NoExtPads(cs) ==> Max(1, Counted(cs)) == MaxAlignment(cs)
  {
    if cs != [] {
      AllCount(cs[1..]);
    }
  }

  lemma {:induction false} FirstPassKeepsExcess(cs: seq<Component>, bits: nat)
    ensures SumOf(FirstPass(cs, bits), Overshoot) == Excess(cs)
  {
    hide ExcessOf, Overshoot, Own;
    SmallPads(bits);
    if cs != [] {
      var rest := FirstPass(cs[1..], RunAfter(cs[0], bits));
      FirstPassKeepsExcess(cs[1..], RunAfter(cs[0], bits));
      OwnAlignment(cs[0]);
      FirstPassSteps(cs, bits);
      SumConcat(Own(cs[0]), rest, Overshoot);
      SumConcat(Before(cs[0], bits), Own(cs[0]) + rest, Overshoot);
    }
  }

  // The two passes together.
  lemma PassesLayOut(cs: seq<Component>)
    requires Aligns(cs)
    ensures var p := SecondPass(FirstPass(cs, 0), 0, 0, 0);
      && LaidOut(p, ExtsFit(cs), 0, 0, Counted(FirstPass(cs, 0)), Excess(cs))
      && (p.ok ==> Max(1, p.maxAlignment) == Max(1, Counted(cs)))
  {
    FirstPassIsBytewise(cs, 0);
    FirstPassKeepsFit(cs, 0);
    FirstPassKeepsExcess(cs, 0);
    FirstPassKeepsAlignment(cs, 0);
    SecondPassLayout(FirstPass(cs, 0), 0, 0, 0);
  }

  lemma EndPadding(p: Packing, given: nat, a: nat, excess: int)
    requires InStep(p, 0, 0, p.maxAlignment, excess) && p.bits == 0 && Max(1, p.maxAlignment) == a
    ensures var m := Max(p.maxAlignment, given);
      var gap := ByteGap(p.offset, m);
      && CHAR_WIDTH * (p.offset + gap) == Total(p.comps + PadBytes(gap)) + excess
      && (p.offset + gap) % Max(a, given) == 0
  {
    var m := Max(p.maxAlignment, given);
    var gap := ByteGap(p.offset, m);
    PadsTakeWholeBytes(gap);
    TotalConcat(p.comps, PadBytes(gap));
    if m > 0 {
      ByteGapAligns(p.offset, m);
    }
  }

  // The assertions of add_padding hold exactly when every extended integer fits
  // its alignment; then the offset is the size of the result plus the excess,
  // and a multiple of the alignment.
  lemma PaddingCounts(cs: seq<Component>, given: nat, isPacked: bool)
    requires Aligns(cs) && (isPacked ==> given > 0)
    ensures var p := Padded(cs, given, isPacked);
      && (p.ok <==> ExtsFit(cs))
      && (p.ok ==>
            && CHAR_WIDTH * p.offset == Total(p.comps) + Excess(cs)
            && p.offset % Max(Max(1, Counted(cs)), given) == 0)
  {
    hide FirstPass, SecondPass, ExtsFit, MaxAlignment, Excess, Total, Counted;
    var p := SecondPass(FirstPass(cs, 0), 0, 0, 0);
    PassesLayOut(cs);
    if p.ok {
      EndPadding(p, given, Max(1, Counted(cs)), Excess(cs));
    }
  }

  // A component that is to be placed but has no alignment fails an assertion.
  lemma UnalignedFails(cs: seq<Component>, given: nat, isPacked: bool, c: Component)
    requires c in cs && !IsBits(c) && !IsExtPad(c) && AlignmentOf(c) == 0 && (isPacked ==> given > 0)
    ensures !Padded(cs, given, isPacked).ok
  {
    hide AlignmentOf;
    FirstPassHolds(cs, 0, c);
    SecondPassFails(FirstPass(cs, 0), 0, 0, 0, c);
  }

  lemma {:induction false} FirstPassHolds(cs: seq<Component>, bits: nat, c: Component)
    requires c in cs
    ensures c in FirstPass(cs, bits)
  {
    FirstPassSteps(cs, bits);
    if c != cs[0] {
      FirstPassHolds(cs[1..], RunAfter(cs[0], bits), c);
    }
  }

  lemma {:induction false} SecondPassFails(cs: seq<Component>, offset: nat, bits: nat, m: nat, c: Component)
    requires c in cs && !IsBits(c) && !IsExtPad(c) && AlignmentOf(c) == 0
    ensures !SecondPass(cs, offset, bits, m).ok
  {
    var s := SecondStep(cs, offset, bits, m);
    if s.ok {
      assert c != cs[0];
      SecondPassFails(cs[1..], s.offset, s.bits, s.maxAlignment, c);
    }
  }

  // A packed struct only gets its bit-field runs and extended integers padded;
  // it takes whole bytes exactly when the excess is whole bytes.
  lemma PackedTakesWholeBytes(cs: seq<Component>)
    ensures Total(Padded(cs, 0, true).comps) % CHAR_WIDTH == 0 <==> Excess(cs) % CHAR_WIDTH == 0
  {
    hide FirstPass, SumOf, Total, Excess;
    FirstPassIsBytewise(cs, 0);
    FirstPassKeepsExcess(cs, 0);
    BytewiseTotal(FirstPass(cs, 0), 0);
  }

  lemma WholeBytesAdd(x: int, y: int)
    requires x % CHAR_WIDTH == 0 && y % CHAR_WIDTH == 0
    ensures (x + y) % CHAR_WIDTH == 0
  {
  }

  lemma CountsWholeBytes(c: Component)
    ensures if IsBits(c) then BitsOf(c) == WidthOf(c) && Overshoot(c) == 0
      else (BitsOf(c) + Overshoot(c)) % CHAR_WIDTH == 0
  {
    hide ExtMissing;
    StripKeepsBits(c.t);
    if IsExt(c) {
      ExtTotalIsWholeBytes(WidthOf(c));
    }
  }

  // Component by component, what the second pass counts is whole bytes.
  lemma {:induction false} BytewiseTotal(cs: seq<Component>, bits: nat)
    requires Bytewise(cs, bits)
    ensures (bits + Total(cs) + SumOf(cs, Overshoot)) % CHAR_WIDTH == 0
  {
    hide ExtMissing, Overshoot;
    if cs != [] {
      var c := cs[0];
      CountsWholeBytes(c);
      if IsBits(c) {
        BytewiseTotal(cs[1..], bits + WidthOf(c));
      } else {
        BytewiseTotal(cs[1..], 0);
        WholeBytesAdd(BitsOf(c) + Overshoot(c), Total(cs[1..]) + SumOf(cs[1..], Overshoot));
        WholeBytesAdd(bits, Total(cs) + SumOf(cs, Overshoot));
      }
    }
  }

  lemma NoneForWholeBytes(c: Component)
    requires !IsExtPad(c)
    ensures ExcessOf(c) >= 0
    ensures ExcessOf(c) == 0 <==> (IsBits(c) || IsExt(c) || BitsOf(c) % CHAR_WIDTH == 0)
  {
  }

  // Without pads of extended integers the excess is zero exactly when the
  // members the offset counts by the byte take whole bytes.
  lemma {:induction false} ExcessIsZero(cs: seq<Component>)
    requires NoExtPads(cs)
    ensures Excess(cs) >= 0
    ensures Excess(cs) == 0
      <==> (forall c :: c in cs && !IsBits(c) && !IsExt(c) ==> BitsOf(c) % CHAR_WIDTH == 0)
  {
    hide ExcessOf;
    if cs != [] {
      NoneForWholeBytes(cs[0]);
      ExcessIsZero(cs[1..]);
      assert cs == [cs[0]] + cs[1..];
    }
  }
}

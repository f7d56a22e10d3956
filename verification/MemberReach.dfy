// How far the members of a struct reach once they are placed, as a fold over
// them: the offset that add_padding computes and its end pad.
module MemberReach {
  import opened Layout
  import opened LayoutFacts
  import opened PaddedStructs

  // Bytes a component counts for once it is placed: started bytes, and those of
  // an extended integer with the pad that fills its representation.
  ghost function CountedBytes(c: Component): nat {
    if IsExt(c) then (WidthOf(c) + ExtMissing(WidthOf(c))) / CHAR_WIDTH else Size(c.t)
  }

  // Where a component that takes no bits of a run ends if it is put at the next
  // multiple of its alignment.
  ghost function EndOf(c: Component, start: nat): nat {
    if IsExtPad(c) then start else start + ByteGap(start, AlignmentOf(c)) + CountedBytes(c)
  }

  // The offset after all members, with a run of bits before the first: runs of
  // bit-fields are packed and end on a byte.
  ghost function Reach(cs: seq<Component>, offset: nat, bits: nat): nat {
    if cs == [] then offset + StartedByte(bits)
    else if IsBits(cs[0]) then
      Reach(cs[1..], offset + (bits + WidthOf(cs[0])) / CHAR_WIDTH, (bits + WidthOf(cs[0])) % CHAR_WIDTH)
    else Reach(cs[1..], EndOf(cs[0], offset + StartedByte(bits)), 0)
  }

  ghost function StartedByte(bits: nat): nat {
    if bits == 0 then 0 else 1
  }

  lemma StepOverFirst(c: Component, rest: seq<Component>, offset: nat, bits: nat, m: nat)
    ensures var s := SecondStep([c] + rest, offset, bits, m);
      var p := SecondPass([c] + rest, offset, bits, m);
      var q := SecondPass(rest, s.offset, s.bits, s.maxAlignment);
      p.ok ==> s.ok && q.ok && p.offset == q.offset
  {
    var cs := [c] + rest;
    assert cs[1..] == rest;
    if SecondStep(cs, offset, bits, m).ok {
      StepsGoOn(cs, offset, bits, m);
    } else {
      StepsStop(cs, offset, bits, m);
    }
  }

  lemma BitPadStep(run: nat, rest: seq<Component>, offset: nat, m: nat)
    requires run % CHAR_WIDTH != 0
    ensures var s := SecondStep([BitPad(ToByte(run))] + rest, offset, run % CHAR_WIDTH, m);
      s.offset == offset + 1 && s.bits == 0
  {
    assert Strip(BitPad(ToByte(run)).t).width == CHAR_WIDTH - run % CHAR_WIDTH;
  }

  // The pad to the next byte takes the rest of the byte that was started.
  lemma StepOverBitPad(run: nat, rest: seq<Component>, offset: nat, m: nat) returns (m': nat)
    ensures var p := SecondPass(PadToByte(run) + rest, offset, run % CHAR_WIDTH, m);
      var q := SecondPass(rest, offset + StartedByte(run % CHAR_WIDTH), 0, m');
      p.ok ==> q.ok && p.offset == q.offset
  {
    hide SecondPass, SecondStep;
    if run % CHAR_WIDTH == 0 {
      m' := m;
      assert PadToByte(run) + rest == rest;
    } else {
      var pad := BitPad(ToByte(run));
      m' := SecondStep([pad] + rest, offset, run % CHAR_WIDTH, m).maxAlignment;
      BitPadStep(run, rest, offset, m);
      StepOverFirst(pad, rest, offset, run % CHAR_WIDTH, m);
    }
  }

  lemma OwnStep(c: Component, tail: seq<Component>, start: nat, m: nat)
    requires !IsBits(c) && AlignmentOf(c) > 0
    requires IsExt(c) && !c.isPad ==> tail != [] && tail[0] == ExtPad(ExtMissing(WidthOf(c)))
    ensures var s := SecondStep([c] + tail, start, 0, m);
      s.bits == 0 && s.offset == EndOf(c, start)
  {
    hide ExtMissing, Alignment, ReprBytes, ByteGap, Size;
    var cs := [c] + tail;
    assert IsExt(c) && !c.isPad ==> cs[1] == tail[0];
  }

  // A component on a byte and the pad that the first pass gave it.
  lemma StepOverOwn(c: Component, rest: seq<Component>, start: nat, m: nat) returns (m': nat)
    requires !IsBits(c) && AlignmentOf(c) > 0
    ensures var p := SecondPass(Own(c) + rest, start, 0, m);
      var q := SecondPass(rest, EndOf(c, start), 0, m');
      p.ok ==> q.ok && p.offset == q.offset
  {
    hide SecondPass, SecondStep, EndOf, ExtMissing, AlignmentOf;
    if IsExt(c) {
      var pad := ExtPad(ExtMissing(WidthOf(c)));
      var tail := [pad] + rest;
      assert Own(c) + rest == [c] + tail;
      OwnStep(c, tail, start, m);
      StepOverFirst(c, tail, start, 0, m);
      m' := SecondStep([c] + tail, start, 0, m).maxAlignment;
      m' := StepOverSkipped(pad, rest, EndOf(c, start), m');
    } else {
      OwnStep(c, rest, start, m);
      StepOverFirst(c, rest, start, 0, m);
      m' := SecondStep([c] + rest, start, 0, m).maxAlignment;
    }
  }

  lemma StepOverSkipped(pad: Component, rest: seq<Component>, offset: nat, m: nat) returns (m': nat)
    requires IsExtPad(pad)
    ensures var p := SecondPass([pad] + rest, offset, 0, m);
      p.ok ==> SecondPass(rest, offset, 0, m').ok && p.offset == SecondPass(rest, offset, 0, m').offset
  {
    hide SecondPass;
    StepOverFirst(pad, rest, offset, 0, m);
    m' := SecondStep([pad] + rest, offset, 0, m).maxAlignment;
  }

  lemma {:induction false} PassesReach(cs: seq<Component>, run: nat, offset: nat, m: nat)
    requires Aligns(cs)
    ensures var p := SecondPass(FirstPass(cs, run), offset, run % CHAR_WIDTH, m);
      p.ok ==> p.offset == Reach(cs, offset, run % CHAR_WIDTH)
  {
    hide SecondPass, SecondStep, FirstPass, PadToByte, Own, EndOf, AlignmentOf;
    if cs == [] {
      NoMembersReach(run, offset, m);
    } else {
      var c, rest := cs[0], FirstPass(cs[1..], RunAfter(cs[0], run));
      FirstPassSteps(cs, run);
      if IsBits(c) {
        var m' := BitsReach(c, rest, run, offset, m);
        var b := run % CHAR_WIDTH + WidthOf(c);
        SameModulo(run, run % CHAR_WIDTH, WidthOf(c));
        PassesReach(cs[1..], run + WidthOf(c), offset + b / CHAR_WIDTH, m');
      } else {
        var start := offset + StartedByte(run % CHAR_WIDTH);
        var m1 := StepOverBitPad(run, Own(c) + rest, offset, m);
        var m2 := StepOverOwn(c, rest, start, m1);
        PassesReach(cs[1..], 0, EndOf(c, start), m2);
      }
    }
  }

  lemma NoMembersReach(run: nat, offset: nat, m: nat)
    ensures var p := SecondPass(FirstPass([], run), offset, run % CHAR_WIDTH, m);
      p.ok ==> p.offset == offset + StartedByte(run % CHAR_WIDTH)
  {
    var m' := StepOverBitPad(run, [], offset, m);
    assert PadToByte(run) + [] == PadToByte(run);
  }

  lemma BitsReach(c: Component, rest: seq<Component>, run: nat, offset: nat, m: nat) returns (m': nat)
    requires IsBits(c)
    ensures var b := run % CHAR_WIDTH + WidthOf(c);
      var p := SecondPass(Before(c, run) + (Own(c) + rest), offset, run % CHAR_WIDTH, m);
      var q := SecondPass(rest, offset + b / CHAR_WIDTH, b % CHAR_WIDTH, m');
      p.ok ==> q.ok && p.offset == q.offset
  {
    hide SecondPass, ToByte;
    assert Before(c, run) + (Own(c) + rest) == [c] + rest;
    m' := SecondStep([c] + rest, offset, run % CHAR_WIDTH, m).maxAlignment;
    StepOverFirst(c, rest, offset, run % CHAR_WIDTH, m);
  }

  // Bytes of the end pad: what the members reach, filled up to the greatest
  // alignment they count for or the one that is given.
  ghost function EndGap(cs: seq<Component>, given: nat): nat {
    if ExtsFit(cs) then ByteGap(Reach(cs, 0, 0), Max(Max(1, Counted(cs)), given)) else 0
  }

  lemma EndPadFills(cs: seq<Component>, given: nat)
    requires Aligns(cs)
    ensures var p := SecondPass(FirstPass(cs, 0), 0, 0, 0);
      EndGap(cs, given) == if p.ok then ByteGap(p.offset, Max(p.maxAlignment, given)) else 0
  {
    hide SecondPass, FirstPass, Reach, Counted, ExtsFit;
    PassesLayOut(cs);
    PassesReach(cs, 0, 0, 0);
  }

  // The size that add_padding counts: what the members reach and the end pad.
  lemma PaddedReach(cs: seq<Component>, given: nat, isPacked: bool)
    requires Aligns(cs) && ExtsFit(cs) && (isPacked ==> given > 0)
    ensures Padded(cs, given, isPacked).offset == Reach(cs, 0, 0) + EndGap(cs, given)
  {
    hide SecondPass, FirstPass, Reach, EndGap, ByteGap;
    PassesLayOut(cs);
    PassesReach(cs, 0, 0, 0);
    EndPadFills(cs, given);
  }

  // --------------------------------------------- packed structs without alignment

  // Bits up to the end of the byte.
  ghost function ToBytes(bits: nat): nat {
    (bits + CHAR_WIDTH - 1) / CHAR_WIDTH * CHAR_WIDTH
  }

  // Bits of a component that takes no bits of a run: an extended integer fills
  // its representation, anything else is left as it is.
  ghost function FilledBits(c: Component): nat {
    if IsExt(c) then WidthOf(c) + ExtMissing(WidthOf(c)) else BitsOf(c)
  }

  // Bits of the members with a run of bits before the first: runs of bit-fields
  // are rounded up to bytes and everything else follows without gaps.
  ghost function PackedBits(cs: seq<Component>, run: nat): nat {
    if cs == [] then ToBytes(run)
    else if IsBits(cs[0]) then PackedBits(cs[1..], run + WidthOf(cs[0]))
    else ToBytes(run) + FilledBits(cs[0]) + PackedBits(cs[1..], 0)
  }

  lemma PadToByteFills(run: nat)
    ensures run + Total(PadToByte(run)) == ToBytes(run)
  {
    if run % CHAR_WIDTH != 0 {
      TotalOfOne(BitPad(ToByte(run)));
    }
  }

  lemma OwnFills(c: Component)
    ensures Total(Own(c)) == if IsBits(c) then WidthOf(c) else FilledBits(c)
  {
    hide ExtMissing;
    StripKeepsBits(c.t);
    TotalOfOne(c);
    if IsExt(c) {
      var pad := ExtPad(ExtMissing(WidthOf(c)));
      TotalOfOne(pad);
      TotalConcat([c], [pad]);
      assert Own(c) == [c] + [pad];
    }
  }

  lemma {:induction false} FirstPassBits(cs: seq<Component>, run: nat)
    ensures run + Total(FirstPass(cs, run)) == PackedBits(cs, run)
  {
    hide ToBytes, FilledBits, Own, PadToByte, Total;
    PadToByteFills(run);
    if cs == [] {
      assert FirstPass(cs, run) == PadToByte(run);
    } else {
      var c, rest := cs[0], FirstPass(cs[1..], RunAfter(cs[0], run));
      FirstPassSteps(cs, run);
      OwnFills(c);
      TotalConcat(Own(c), rest);
      TotalConcat(Before(c, run), Own(c) + rest);
      NoComponents();
      FirstPassBits(cs[1..], RunAfter(c, run));
    }
  }

  lemma NoComponents()
    ensures Total([]) == 0
  {
  }

  // The size of a packed struct without alignment.
  lemma PackedSize(cs: seq<Component>)
    ensures Total(Padded(cs, 0, true).comps) == PackedBits(cs, 0)
  {
    FirstPassBits(cs, 0);
  }
}

// Padding adds no more than it must: whatever it inserts is shorter than what
// it aligns or fills.
module ShortPads {
  import opened Layout
  import opened LayoutFacts
  import opened PaddedStructs

  predicate IsBytePad(c: Component) {
    c.isPad && c.t.Basic?
  }

  predicate IsBitPad(c: Component) {
    c.isPad && c.t.BitField? && c.t.base.Nil?
  }

  // Bits of the representation that the pad after a component fills.
  ghost function Room(c: Component): nat {
    if IsExt(c) then CHAR_WIDTH * ReprBytes(WidthOf(c)) else 0
  }

  // The first component is a pad of bytes shorter than the alignment of the
  // component after it, or than last at the end; a pad of bits shorter than a
  // byte; or a pad shorter than the room in the representation before it.
  ghost predicate ShortPad(comps: seq<Component>, room: nat, last: nat, bytes: bool)
    requires comps != []
  {
    var c := comps[0];
    || (bytes && IsBytePad(c) && c.t.size < if |comps| == 1 then last else AlignmentOf(comps[1]))
    || (IsBitPad(c) && c.t.width < CHAR_WIDTH)
    || (c.isPad && c.t.ExtInt? && c.t.width < room)
  }

  // comps is the list cs with short pads inserted, pads of bytes only if bytes.
  ghost predicate Woven(cs: seq<Component>, comps: seq<Component>, room: nat, last: nat, bytes: bool)
    decreases |comps|
  {
    if comps == [] then cs == []
    else
      || (cs != [] && comps[0] == cs[0] && Woven(cs[1..], comps[1..], Room(cs[0]), last, bytes))
      || (ShortPad(comps, room, last, bytes) && Woven(cs, comps[1..], 0, last, bytes))
  }

  ghost predicate OnlyShortPads(cs: seq<Component>, comps: seq<Component>, last: nat) {
    Woven(cs, comps, 0, last, true)
  }

  lemma TakesComponent(c: Component, cs: seq<Component>, rest: seq<Component>, room: nat, last: nat, bytes: bool)
    requires Woven(cs, rest, Room(c), last, bytes)
    ensures Woven([c] + cs, [c] + rest, room, last, bytes)
  {
    assert ([c] + cs)[1..] == cs && ([c] + rest)[1..] == rest;
  }

  lemma InsertsPad(pad: Component, cs: seq<Component>, rest: seq<Component>, room: nat, last: nat, bytes: bool)
    requires Woven(cs, rest, 0, last, bytes) && ShortPad([pad] + rest, room, last, bytes)
    ensures Woven(cs, [pad] + rest, room, last, bytes)
  {
    assert ([pad] + rest)[1..] == rest;
  }

  // ------------------------------------------------------------ the first pass

  lemma InsertsBitPad(bits: nat, cs: seq<Component>, rest: seq<Component>)
    requires Woven(cs, rest, 0, 0, false)
    ensures Woven(cs, PadToByte(bits) + rest, 0, 0, false)
  {
    if ToByte(bits) == 0 {
      assert PadToByte(bits) + rest == rest;
    } else {
      InsertsPad(BitPad(ToByte(bits)), cs, rest, 0, 0, false);
    }
  }

  lemma TakesOwn(c: Component, cs: seq<Component>, rest: seq<Component>)
    requires Woven(cs, rest, 0, 0, false)
    ensures Woven([c] + cs, Own(c) + rest, 0, 0, false)
  {
    hide Woven, ReprBytes;
    if IsExt(c) {
      var pad := ExtPad(ExtMissing(WidthOf(c)));
      InsertsPad(pad, cs, rest, Room(c), 0, false);
      TakesComponent(c, cs, [pad] + rest, 0, 0, false);
      assert Own(c) + rest == [c] + ([pad] + rest);
    } else {
      TakesComponent(c, cs, rest, 0, 0, false);
    }
  }

  lemma {:induction false} FirstPassIsShort(cs: seq<Component>, bits: nat)
    ensures Woven(cs, FirstPass(cs, bits), 0, 0, false)
  {
    hide Woven, PadToByte, Own, RunAfter;
    if cs == [] {
      InsertsBitPad(bits, [], []);
      FirstPassOfNothing(bits);
    } else {
      var c, rest := cs[0], FirstPass(cs[1..], RunAfter(cs[0], bits));
      FirstPassIsShort(cs[1..], RunAfter(c, bits));
      TakesOwn(c, cs[1..], rest);
      assert [c] + cs[1..] == cs;
      FirstPassSteps(cs, bits);
      if IsBits(c) {
        assert [] + (Own(c) + rest) == Own(c) + rest;
      } else {
        InsertsBitPad(bits, cs, Own(c) + rest);
      }
    }
  }

  lemma FirstPassOfNothing(bits: nat)
    ensures FirstPass([], bits) == PadToByte(bits) + []
    ensures Woven([], [], 0, 0, false)
  {
  }

  // ----------------------------------------------------------- the second pass

  lemma {:induction false} BytesMayFollow(cs: seq<Component>, comps: seq<Component>, room: nat, last: nat)
    requires Woven(cs, comps, room, 0, false)
    ensures Woven(cs, comps, room, last, true)
    decreases |comps|
  {
    if comps != [] {
      if cs != [] && comps[0] == cs[0] && Woven(cs[1..], comps[1..], Room(cs[0]), 0, false) {
        BytesMayFollow(cs[1..], comps[1..], Room(cs[0]), last);
      } else {
        BytesMayFollow(cs, comps[1..], 0, last);
      }
    }
  }

  // What the second pass puts before a component.
  lemma StepInserts(comps: seq<Component>, offset: nat, bits: nat, m: nat) returns (gap: nat)
    requires comps != []
    ensures SecondStep(comps, offset, bits, m).comps == PadBytes(gap) + [comps[0]]
    ensures gap == 0 || gap < AlignmentOf(comps[0])
    ensures ShortPad(comps, 0, 0, false) || IsExtPad(comps[0]) ==> gap == 0
  {
    var c := comps[0];
    var s := SecondStep(comps, offset, bits, m);
    gap := if |s.comps| == 1 then 0 else ByteGap(offset, AlignmentOf(c));
    assert PadBytes(0) + [c] == [c];
    if AlignmentOf(c) > 0 {
      ByteGapAligns(offset, AlignmentOf(c));
    }
    if IsBitPad(c) {
      assert AlignmentOf(c) == Alignment(Nil) == 1;
    }
  }

  // A pad that aligns the component, the component and the rest.
  lemma TakesAligned(gap: nat, c: Component, cs: seq<Component>, rest: seq<Component>, room: nat)
    requires gap == 0 || gap < AlignmentOf(c)
    requires Woven(cs, rest, Room(c), 0, true)
    ensures Woven([c] + cs, PadBytes(gap) + [c] + rest, room, 0, true)
  {
    hide Woven;
    TakesComponent(c, cs, rest, if gap == 0 then room else 0, 0, true);
    if gap == 0 {
      assert PadBytes(gap) + [c] + rest == [c] + rest;
    } else {
      InsertsPad(BytePad(gap), [c] + cs, [c] + rest, room, 0, true);
      assert PadBytes(gap) + [c] + rest == [BytePad(gap)] + ([c] + rest);
    }
  }

  // What the second pass leaves after its first step.
  ghost function RestOf(comps: seq<Component>, offset: nat, bits: nat, m: nat): seq<Component>
    requires comps != []
  {
    var s := SecondStep(comps, offset, bits, m);
    if s.ok then SecondPass(comps[1..], s.offset, s.bits, s.maxAlignment).comps else comps[1..]
  }

  lemma {:induction false} SecondPassIsShort(
      cs: seq<Component>, comps: seq<Component>, room: nat, offset: nat, bits: nat, m: nat)
    requires Woven(cs, comps, room, 0, false)
    ensures Woven(cs, SecondPass(comps, offset, bits, m).comps, room, 0, true)
    decreases |comps|, 1
  {
    if comps != [] {
      hide SecondStep, ShortPad, PadBytes;
      var gap := StepInserts(comps, offset, bits, m);
      var rest := RestOf(comps, offset, bits, m);
      assert SecondPass(comps, offset, bits, m).comps == PadBytes(gap) + [comps[0]] + rest;
      if cs != [] && comps[0] == cs[0] && Woven(cs[1..], comps[1..], Room(cs[0]), 0, false) {
        RestIsShort(cs[1..], comps, Room(cs[0]), offset, bits, m);
        TakesAligned(gap, cs[0], cs[1..], rest, room);
        assert [cs[0]] + cs[1..] == cs;
      } else {
        RestIsShort(cs, comps, 0, offset, bits, m);
        KeptPad(comps, rest, room);
        assert gap == 0 && PadBytes(0) == [];
        assert PadBytes(gap) + [comps[0]] + rest == [comps[0]] + rest;
        InsertsPad(comps[0], cs, rest, room, 0, true);
      }
    }
  }

  lemma KeptPad(comps: seq<Component>, rest: seq<Component>, room: nat)
    requires comps != [] && ShortPad(comps, room, 0, false)
    ensures ShortPad([comps[0]] + rest, room, 0, true)
    ensures ShortPad(comps, 0, 0, false) || IsExtPad(comps[0])
  {
  }

  lemma {:induction false} RestIsShort(
      cs: seq<Component>, comps: seq<Component>, room: nat, offset: nat, bits: nat, m: nat)
    requires comps != [] && Woven(cs, comps[1..], room, 0, false)
    ensures Woven(cs, RestOf(comps, offset, bits, m), room, 0, true)
    decreases |comps|, 0
  {
    hide Woven, SecondStep;
    var s := SecondStep(comps, offset, bits, m);
    if s.ok {
      SecondPassIsShort(cs, comps[1..], room, s.offset, s.bits, s.maxAlignment);
    } else {
      BytesMayFollow(cs, comps[1..], room, 0);
    }
  }

  // ----------------------------------------------------------- the whole struct

  lemma {:induction false} EndIsShort(cs: seq<Component>, comps: seq<Component>, room: nat, gap: nat, last: nat)
    requires Woven(cs, comps, room, 0, true) && (gap == 0 || gap < last)
    ensures Woven(cs, comps + PadBytes(gap), room, last, true)
    decreases |comps|
  {
    var all := comps + PadBytes(gap);
    if comps == [] {
      assert all == PadBytes(gap);
    } else {
      assert all[1..] == comps[1..] + PadBytes(gap);
      if cs != [] && comps[0] == cs[0] && Woven(cs[1..], comps[1..], Room(cs[0]), 0, true) {
        EndIsShort(cs[1..], comps[1..], Room(cs[0]), gap, last);
      } else {
        EndIsShort(cs, comps[1..], 0, gap, last);
      }
    }
  }

  // A padded struct is its list with short pads inserted, whatever the
  // attributes and whatever pads the list comes with.
  lemma PadsAreShort(cs: seq<Component>, given: nat, isPacked: bool)
    ensures var p := Padded(cs, given, isPacked); OnlyShortPads(cs, p.comps, p.maxAlignment)
  {
    hide Woven, FirstPass, SecondPass;
    var first := FirstPass(cs, 0);
    FirstPassIsShort(cs, 0);
    if isPacked && given == 0 {
      BytesMayFollow(cs, first, 0, 0);
      return;
    }
    var p := SecondPass(first, 0, 0, 0);
    SecondPassIsShort(cs, first, 0, 0, 0, 0);
    var m := Max(p.maxAlignment, given);
    if p.ok {
      if m > 0 {
        ByteGapAligns(p.offset, m);
      }
      EndIsShort(cs, p.comps, 0, ByteGap(p.offset, m), m);
    } else {
      EndIsShort(cs, p.comps, 0, 0, p.maxAlignment);
      assert p.comps + PadBytes(0) == p.comps;
    }
  }

  // No pad of bytes goes into a struct that is packed and has no alignment.
  lemma PackedGetsNoBytes(cs: seq<Component>)
    ensures Padded(cs, 0, true).ok && Woven(cs, Padded(cs, 0, true).comps, 0, 0, false)
  {
    FirstPassIsShort(cs, 0);
  }

  // Bit-fields of positive widths share bytes: one pad at most, at their end.
  lemma BitFieldsShareBytes(cs: seq<Component>)
    requires forall c :: c in cs ==> c.t.BitField? && c.t.width > 0
    ensures Padded(cs, 0, true).comps == cs + PadToByte(Total(cs))
  {
    FirstPassShares(cs, 0);
  }

  lemma {:induction false} FirstPassShares(cs: seq<Component>, bits: nat)
    requires forall c :: c in cs ==> c.t.BitField? && c.t.width > 0
    ensures FirstPass(cs, bits) == cs + PadToByte(bits + Total(cs))
  {
    if cs == [] {
      assert [] + PadToByte(bits) == PadToByte(bits);
    } else {
      var c := cs[0];
      assert Strip(c.t) == c.t && BitsOf(c) == WidthOf(c);
      FirstPassShares(cs[1..], bits + WidthOf(c));
      assert cs == [c] + cs[1..];
    }
  }

  // Without bit-fields and extended integers it gets no pads at all.
  lemma PackedIsKept(cs: seq<Component>)
    requires forall c :: c in cs ==> !IsBits(c) && !IsExt(c)
    ensures Padded(cs, 0, true).comps == cs
  {
    FirstPassKeeps(cs);
  }

  lemma {:induction false} FirstPassKeeps(cs: seq<Component>)
    requires forall c :: c in cs ==> !IsBits(c) && !IsExt(c)
    ensures FirstPass(cs, 0) == cs
  {
    if cs != [] {
      FirstPassSteps(cs, 0);
      FirstPassKeeps(cs[1..]);
    }
  }
}

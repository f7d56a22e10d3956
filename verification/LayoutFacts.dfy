// What the two passes of add_padding leave alone and the shapes they go through:
// the members in their order, and lists whose bit-fields end on bytes.
module LayoutFacts {
  import opened Layout

  ghost predicate NoPads(cs: seq<Component>) {
    forall i :: 0 <= i < |cs| ==> !cs[i].isPad
  }

  // No pad of an extended integer comes with the list, as it would in a class
  // that derives from one with such a member.
  ghost predicate NoExtPads(cs: seq<Component>) {
    forall i :: 0 <= i < |cs| ==> !IsExtPad(cs[i])
  }

  // Every type has a positive alignment when basic types have a size.
  ghost predicate Aligns(cs: seq<Component>) {
    forall c :: c in cs ==> AlignmentOf(c) > 0
  }

  // The components without the pads.
  ghost function Members(cs: seq<Component>): seq<Component> {
    if cs == [] then []
    else (if cs[0].isPad then [] else [cs[0]]) + Members(cs[1..])
  }

  lemma {:induction false} MembersConcat(s: seq<Component>, t: seq<Component>)
    ensures Members(s + t) == Members(s) + Members(t)
  {
    if s == [] {
      assert s + t == t;
    } else {
      assert (s + t)[1..] == s[1..] + t;
      MembersConcat(s[1..], t);
    }
  }

  lemma {:induction false} MembersOfNoPads(cs: seq<Component>)
    requires NoPads(cs)
    ensures Members(cs) == cs && NoExtPads(cs)
  {
    if cs != [] {
      MembersOfNoPads(cs[1..]);
    }
  }

  lemma PadsAreNoMembers(bits: nat, n: nat)
    ensures Members(PadToByte(bits)) == [] && Members(PadBytes(n)) == []
  {
  }

  lemma {:induction false} FirstPassKeepsMembers(cs: seq<Component>, bits: nat)
    ensures Members(FirstPass(cs, bits)) == Members(cs)
  {
    PadsAreNoMembers(bits, 0);
    if cs != [] {
      var c := cs[0];
      if IsBits(c) {
        var rest := FirstPass(cs[1..], bits + WidthOf(c));
        FirstPassKeepsMembers(cs[1..], bits + WidthOf(c));
        MembersConcat([c], rest);
        assert Members([c]) == if c.isPad then [] else [c];
      } else {
        var rest := FirstPass(cs[1..], 0);
        FirstPassKeepsMembers(cs[1..], 0);
        var now := if IsExt(c) then [c, ExtPad(ExtMissing(WidthOf(c)))] else [c];
        MembersConcat(PadToByte(bits), now + rest);
        MembersConcat(now, rest);
        assert now[1..] == if IsExt(c) then [ExtPad(ExtMissing(WidthOf(c)))] else [];
        assert Members(now[1..]) == [];
      }
    }
  }

  lemma StepKeepsMember(cs: seq<Component>, offset: nat, bits: nat, m: nat)
    requires cs != []
    ensures Members(SecondStep(cs, offset, bits, m).comps) == Members([cs[0]])
  {
    var gap := ByteGap(offset, Alignment(cs[0].t));
    PadsAreNoMembers(0, gap);
    MembersConcat(PadBytes(gap), [cs[0]]);
  }

  lemma {:induction false} SecondPassKeepsMembers(cs: seq<Component>, offset: nat, bits: nat, m: nat)
    ensures Members(SecondPass(cs, offset, bits, m).comps) == Members(cs)
  {
    if cs != [] {
      var s := SecondStep(cs, offset, bits, m);
      StepKeepsMember(cs, offset, bits, m);
      MembersConcat([cs[0]], cs[1..]);
      assert [cs[0]] + cs[1..] == cs;
      MembersConcat(s.comps, cs[1..]);
      if s.ok {
        SecondPassKeepsMembers(cs[1..], s.offset, s.bits, s.maxAlignment);
        MembersConcat(s.comps, SecondPass(cs[1..], s.offset, s.bits, s.maxAlignment).comps);
      }
    }
  }

  // Deleting the pads leaves the members of the struct as they were.
  lemma PaddingKeepsMembers(cs: seq<Component>, given: nat, isPacked: bool)
    ensures Members(Padded(cs, given, isPacked).comps) == Members(cs)
    ensures NoPads(cs) ==> Members(Padded(cs, given, isPacked).comps) == cs
  {
    var first := FirstPass(cs, 0);
    FirstPassKeepsMembers(cs, 0);
    SecondPassKeepsMembers(first, 0, 0, 0);
    var p := SecondPass(first, 0, 0, 0);
    var gap := ByteGap(p.offset, Max(p.maxAlignment, given));
    MembersConcat(p.comps, PadBytes(gap));
    PadsAreNoMembers(0, gap);
    if NoPads(cs) {
      MembersOfNoPads(cs);
    }
  }

  // ----------------------------------------------------------- where they start

  // Shape after the first pass, for a run of bits before it: runs of bit-fields
  // fill whole bytes and each extended integer is followed by its pad.
  ghost predicate Bytewise(cs: seq<Component>, bits: nat) {
    if cs == [] then bits % CHAR_WIDTH == 0
    else
      var c := cs[0];
      if IsBits(c) then Bytewise(cs[1..], bits + WidthOf(c))
      else
        && bits % CHAR_WIDTH == 0
        && (IsExt(c) && !c.isPad ==> |cs| > 1 && cs[1] == ExtPad(ExtMissing(WidthOf(c))))
        && Bytewise(cs[1..], 0)
  }

  lemma SameModulo(x: nat, y: nat, w: nat)
    requires x % CHAR_WIDTH == y % CHAR_WIDTH
    ensures (x + w) % CHAR_WIDTH == (y + w) % CHAR_WIDTH
  {
  }

  lemma {:induction false} BytewiseModulo(cs: seq<Component>, x: nat, y: nat)
    requires x % CHAR_WIDTH == y % CHAR_WIDTH && Bytewise(cs, x)
    ensures Bytewise(cs, y)
  {
    if cs != [] && IsBits(cs[0]) {
      SameModulo(x, y, WidthOf(cs[0]));
      BytewiseModulo(cs[1..], x + WidthOf(cs[0]), y + WidthOf(cs[0]));
    }
  }

  lemma {:induction false} FirstPassIsBytewise(cs: seq<Component>, bits: nat)
    ensures Bytewise(FirstPass(cs, bits), bits)
  {
    if cs == [] {
      PadIsBytewise([], bits);
      assert PadToByte(bits) + [] == PadToByte(bits);
    } else {
      var c := cs[0];
      if IsBits(c) {
        FirstPassIsBytewise(cs[1..], bits + WidthOf(c));
      } else {
        var rest := FirstPass(cs[1..], 0);
        FirstPassIsBytewise(cs[1..], 0);
        OwnIsBytewise(c, rest);
        PadIsBytewise((if IsExt(c) then [c, ExtPad(ExtMissing(WidthOf(c)))] else [c]) + rest, bits);
      }
    }
  }

  lemma OwnIsBytewise(c: Component, rest: seq<Component>)
    requires !IsBits(c) && Bytewise(rest, 0)
    ensures Bytewise((if IsExt(c) then [c, ExtPad(ExtMissing(WidthOf(c)))] else [c]) + rest, 0)
  {
    if IsExt(c) {
      var pad := ExtPad(ExtMissing(WidthOf(c)));
      assert ([c, pad] + rest)[1..] == [pad] + rest;
      assert ([pad] + rest)[1..] == rest;
    } else {
      assert ([c] + rest)[1..] == rest;
    }
  }

  lemma PadIsBytewise(rest: seq<Component>, bits: nat)
    requires Bytewise(rest, 0)
    ensures Bytewise(PadToByte(bits) + rest, bits)
  {
    var pad := PadToByte(bits);
    if pad == [] {
      assert pad + rest == rest;
      BytewiseModulo(rest, 0, bits);
    } else {
      assert (pad + rest)[1..] == rest;
      BytewiseModulo(rest, 0, bits + ToByte(bits));
    }
  }

  // Members that are placed: all but bit-fields that take bits.
  predicate IsPlaced(c: Component) {
    !c.isPad && !IsBits(c)
  }

  // From bit position at on, every placed member starts at a multiple of the
  // bits that are demanded of it.
  ghost predicate StartsAt(cs: seq<Component>, at: nat, demand: Component -> nat) {
    cs == [] || (
      && (IsPlaced(cs[0]) && demand(cs[0]) > 0 ==> at % demand(cs[0]) == 0)
      && StartsAt(cs[1..], at + BitsOf(cs[0]), demand))
  }

  // Alignment in bits.
  function AlignmentBits(c: Component): nat {
    CHAR_WIDTH * AlignmentOf(c)
  }

  // Every placed member starts at a multiple of its alignment.
  ghost predicate StartsAligned(cs: seq<Component>, at: nat) {
    StartsAt(cs, at, AlignmentBits)
  }

  // An extended integer with its pad is a whole number of alignments.
  predicate ExtFits(c: Component) {
    !IsExt(c) || c.isPad || Alignment(c.t) == 0
    || (WidthOf(c) + ExtMissing(WidthOf(c))) % (CHAR_WIDTH * Alignment(c.t)) == 0
  }

  ghost predicate ExtsFit(cs: seq<Component>) {
    forall c :: c in cs ==> ExtFits(c)
  }

  lemma ByteGapAligns(offset: nat, a: nat)
    requires a > 0
    ensures (offset + ByteGap(offset, a)) % a == 0 && ByteGap(offset, a) < a
  {
    if a > 1 && offset % a != 0 {
      assert offset + (a - offset % a) == (offset / a + 1) * a;
      MultipleIsZero(offset / a + 1, a);
    }
  }

  lemma MultipleIsZero(q: int, a: nat)
    requires a > 0
    ensures (q * a) % a == 0
  {
    var d := q - (q * a) / a;
    assert (q * a) % a == d * a;
  }

  lemma ScaledMultiple(x: nat, a: nat)
    requires a > 0 && x % a == 0
    ensures (CHAR_WIDTH * x) % (CHAR_WIDTH * a) == 0
  {
    var q := x / a;
    assert x == q * a;
    assert CHAR_WIDTH * x == q * (CHAR_WIDTH * a);
    MultipleIsZero(q, CHAR_WIDTH * a);
  }

  lemma RoundedUp(w: nat, d: nat) returns (q: nat)
    requires d > 0
    ensures w + (if w % d == 0 then 0 else d - w % d) == q * d
  {
    q := if w % d == 0 then w / d else w / d + 1;
    assert w == (w / d) * d + w % d;
  }

  lemma EightTimes(q: nat, r: nat)
    ensures (q * (CHAR_WIDTH * r)) % CHAR_WIDTH == 0
  {
    assert q * (CHAR_WIDTH * r) == (q * r) * CHAR_WIDTH;
    MultipleIsZero(q * r, CHAR_WIDTH);
  }

  lemma ExtTotalIsWholeBytes(w: nat)
    ensures (w + ExtMissing(w)) % CHAR_WIDTH == 0
  {
    var q := RoundedUp(w, CHAR_WIDTH * ReprBytes(w));
    EightTimes(q, ReprBytes(w));
  }
}

// add_padding as it runs: pads are inserted into the component list while an
// index walks over it.
module StructPadding {
  import opened Layout
  import opened PaddedStructs
  import opened PaddedUnions

  // The loop of ext_int_representation_bytes.
  method RepresentationBytes(bits: nat) returns (result: nat)
    ensures result == ReprBytes(bits)
  {
    result := 1;
    while bits > result * CHAR_WIDTH
      invariant result > 0 && ReprFrom(bits, result) == ReprFrom(bits, 1)
      decreases if bits > result * CHAR_WIDTH then bits - result * CHAR_WIDTH else 0
    {
      result := result * 2;
    }
  }

  lemma FirstRoundGoesOn(done: seq<Component>, cs: seq<Component>, bits: nat)
    requires cs != []
    ensures done + FirstPass(cs, bits)
      == done + (Before(cs[0], bits) + Own(cs[0])) + FirstPass(cs[1..], RunAfter(cs[0], bits))
  {
    FirstPassSteps(cs, bits);
  }

  ghost function After(done: seq<Component>, p: Packing): Packing {
    p.(comps := done + p.comps)
  }

  lemma SecondPassUnfolds(cs: seq<Component>, offset: nat, bits: nat, m: nat)
    requires cs != []
    ensures var s := SecondStep(cs, offset, bits, m);
      SecondPass(cs, offset, bits, m)
      == if s.ok then After(s.comps, SecondPass(cs[1..], s.offset, s.bits, s.maxAlignment))
         else s.(comps := s.comps + cs[1..])
  {
  }

  lemma AfterAfter(done: seq<Component>, comps: seq<Component>, p: Packing)
    ensures After(done, After(comps, p)) == After(done + comps, p)
  {
    assert done + (comps + p.comps) == done + comps + p.comps;
  }

  lemma SecondRoundGoesOn(done: seq<Component>, cs: seq<Component>, offset: nat, bits: nat, m: nat)
    requires cs != []
    ensures var s := SecondStep(cs, offset, bits, m);
      After(done, SecondPass(cs, offset, bits, m))
      == if s.ok then After(done + s.comps, SecondPass(cs[1..], s.offset, s.bits, s.maxAlignment))
         else After(done + s.comps, s.(comps := cs[1..]))
  {
    var s := SecondStep(cs, offset, bits, m);
    var rest := if s.ok then SecondPass(cs[1..], s.offset, s.bits, s.maxAlignment) else s.(comps := cs[1..]);
    SecondPassUnfolds(cs, offset, bits, m);
    AfterAfter(done, s.comps, rest);
  }

  class StructType {
    var components: seq<Component>
    const alignment: nat
    const isPacked: bool

    constructor (components: seq<Component>, alignment: nat, isPacked: bool)
      ensures this.components == components && this.alignment == alignment && this.isPacked == isPacked
    {
      this.components := components;
      this.alignment := alignment;
      this.isPacked := isPacked;
    }

    method Insert(at: nat, c: Component)
      requires at <= |components|
      modifies this`components
      ensures components == old(components[..at]) + [c] + old(components[at..])
    {
      components := components[..at] + [c] + components[at..];
    }

    // The result is where the component that was at the place is now.
    method PadBitField(at: nat, bits: nat) returns (next: nat)
      requires at <= |components|
      modifies this`components
      ensures components == old(components[..at]) + [BitPad(bits)] + old(components[at..]) && next == at + 1
    {
      Insert(at, BitPad(bits));
      next := at + 1;
    }

    method Pad(at: nat, bytes: nat) returns (next: nat)
      requires at <= |components|
      modifies this`components
      ensures components == old(components[..at]) + [BytePad(bytes)] + old(components[at..]) && next == at + 1
    {
      Insert(at, BytePad(bytes));
      next := at + 1;
    }

    // The result is where the pad is.
    method PadExtIntAfter(at: nat, bits: nat) returns (where: nat)
      requires at < |components|
      modifies this`components
      ensures components == old(components[..at + 1]) + [ExtPad(bits)] + old(components[at + 1..]) && where == at + 1
    {
      where := at + 1;
      Insert(where, ExtPad(bits));
    }

    // End a run of bit-fields before the component at the place.
    method EndRun(at: nat, bits: nat) returns (next: nat)
      requires at <= |components|
      modifies this`components
      ensures components == old(components[..at]) + PadToByte(bits) + old(components[at..])
      ensures next == at + |PadToByte(bits)|
    {
      next := at;
      if bits % CHAR_WIDTH != 0 {
        next := PadBitField(at, CHAR_WIDTH - bits % CHAR_WIDTH);
      } else {
        assert components == components[..at] + [] + components[at..];
      }
    }

    // Fill up the representation of an extended integer; the result is where its
    // pad is.
    method PadExtInt(at: nat) returns (where: nat)
      requires at < |components| && IsExt(components[at])
      modifies this`components
      ensures components == old(components[..at]) + Own(old(components[at])) + old(components[at + 1..])
      ensures where == at + 1
    {
      var w := WidthOf(components[at]);
      var bytes := RepresentationBytes(w);
      var unaligned := w % (CHAR_WIDTH * bytes);
      where := PadExtIntAfter(at, if unaligned != 0 then CHAR_WIDTH * bytes - unaligned else 0);
    }

    // One round of the first loop: at is the component it looks at.
    method FirstRound(at: nat, bits: nat) returns (next: nat, run: nat)
      requires at < |components|
      modifies this`components
      ensures var c := old(components[at]);
        && next <= |components| && run == RunAfter(c, bits)
        && components[..next] == old(components[..at]) + (Before(c, bits) + Own(c))
        && components[next..] == old(components[at + 1..])
    {
      var c := components[at];
      next, run := at, bits;
      if IsBits(c) {
        run := run + WidthOf(c);
      } else if run != 0 {
        next := EndRun(at, run);
        run := 0;
      }
      assert components[next] == c && components[next + 1..] == old(components[at + 1..]);
      assert components[..next] == old(components[..at]) + Before(c, bits);
      if IsExt(c) {
        next := PadExtInt(next);
      }
      next := next + 1;
    }

    // The first loop and the pad at the end.
    method PadBitFields()
      modifies this`components
      ensures components == FirstPass(old(components), 0)
    {
      var it: nat, bits: nat := 0, 0;
      while it < |components|
        invariant it <= |components|
        invariant components[..it] + FirstPass(components[it..], bits) == FirstPass(old(components), 0)
        decreases |components| - it
      {
        FirstRoundGoesOn(components[..it], components[it..], bits);
        it, bits := FirstRound(it, bits);
      }
      assert components[..it] == components;
      it := EndRun(it, bits);
    }

    // Make the component at the place start at a multiple of a.
    method AlignTo(at: nat, a: nat, offset: nat) returns (it: nat, moved: nat)
      requires at < |components|
      modifies this`components
      ensures var gap := ByteGap(offset, a);
        && moved == offset + gap
        && components == old(components[..at]) + PadBytes(gap) + old(components[at..])
        && it == at + |PadBytes(gap)|
    {
      it, moved := at, offset;
      assert components == components[..at] + [] + components[at..];
      if a != 1 && a != 0 {
        var displacement := offset % a;
        if displacement != 0 {
          var bytes := a - displacement;
          it := Pad(it, bytes);
          moved := moved + bytes;
        }
      }
    }

    // One round of the second loop: ok is false when an assertion fails.
    method SecondRound(at: nat, offset: nat, bits: nat, maxAlignment: nat)
      returns (next: nat, o: nat, b: nat, m: nat, ok: bool)
      requires at < |components|
      modifies this`components
      ensures var s := SecondStep(old(components[at..]), offset, bits, maxAlignment);
        && next <= |components| && o == s.offset && b == s.bits && m == s.maxAlignment && ok == s.ok
        && components[..next] == old(components[..at]) + s.comps
        && components[next..] == old(components[at + 1..])
    {
      var c := components[at];
      var a := Alignment(c.t);
      next, o, b, m, ok := at + 1, offset, bits, maxAlignment, true;
      if IsBits(c) {
        m := Max(m, a);
        b := b + WidthOf(c);
        o, b := o + b / CHAR_WIDTH, b % CHAR_WIDTH;
      } else if IsExtPad(c) {
        ok := b == 0;
      } else if b != 0 || a == 0 {
        ok := false;
      } else {
        m := Max(m, a);
        next, o := AlignTo(at, a, o);
        if IsExt(c) {
          var w := WidthOf(c);
          if next + 1 < |components| && IsExtPad(components[next + 1]) {
            w := w + WidthOf(components[next + 1]);
          }
          ok := w % (CHAR_WIDTH * a) == 0;
          o := o + w / CHAR_WIDTH;
        } else {
          o := o + Size(c.t);
        }
        next := next + 1;
      }
    }

    // The second loop; it ends early when an assertion fails.
    method PadBytewise() returns (offset: nat, maxAlignment: nat, ok: bool)
      modifies this`components
      ensures var p := SecondPass(old(components), 0, 0, 0);
        ok == p.ok && components == p.comps && (ok ==> offset == p.offset && maxAlignment == p.maxAlignment)
    {
      var it: nat, bits: nat := 0, 0;
      offset, maxAlignment, ok := 0, 0, true;
      while it < |components|
        invariant it <= |components| && ok
        invariant After(components[..it], SecondPass(components[it..], offset, bits, maxAlignment))
          == SecondPass(old(components), 0, 0, 0)
        decreases |components| - it
      {
        SecondRoundGoesOn(components[..it], components[it..], offset, bits, maxAlignment);
        it, offset, bits, maxAlignment, ok := SecondRound(it, offset, bits, maxAlignment);
        if !ok {
          assert components == components[..it] + components[it..];
          return;
        }
      }
      assert components == components[..it];
    }

    method PadEnd(offset: nat, m: nat)
      modifies this`components
      ensures components == old(components) + PadBytes(ByteGap(offset, m))
    {
      if m > 1 {
        var displacement := offset % m;
        if displacement != 0 {
          var end := Pad(|components|, m - displacement);
        }
      }
    }

    // add_padding: ok is false when an assertion fails, which ends the program.
    method AddPadding() returns (ok: bool)
      modifies this`components
      ensures var p := Padded(old(components), alignment, isPacked);
        ok == p.ok && components == p.comps
    {
      PadBitFields();
      ok := true;
      if isPacked && alignment == 0 {
        return;
      }
      var offset, m;
      offset, m, ok := PadBytewise();
      if ok {
        if alignment > m {
          m := alignment;
        }
        PadEnd(offset, m);
      }
    }
  }

  lemma WidestSoFar(cs: seq<Component>, i: nat)
    requires i < |cs|
    ensures Widest(cs[..i + 1]) == Max(Widest(cs[..i]), BitsOf(cs[i]))
  {
    assert cs[..i + 1] == cs[..i] + [cs[i]];
    WidestConcat(cs[..i], [cs[i]]);
    SingleWidest(cs[i]);
  }

  class UnionType {
    var components: seq<Component>
    const alignment: nat
    const isPacked: bool

    constructor (components: seq<Component>, alignment: nat, isPacked: bool)
      ensures this.components == components && this.alignment == alignment && this.isPacked == isPacked
    {
      this.components := components;
      this.alignment := alignment;
      this.isPacked := isPacked;
    }

    method AddPadding()
      modifies this`components
      ensures components == PaddedUnion(old(components), alignment, isPacked)
    {
      assert Alignment(Union(components)) >= 1;
      var unit := CHAR_WIDTH * Alignment(Aligned(alignment, isPacked, Union(components)));
      var size: nat := 0;
      for i := 0 to |components|
        invariant components == old(components) && size == Widest(components[..i])
      {
        WidestSoFar(components, i);
        size := Max(size, BitsOf(components[i]));
      }
      assert components[..|components|] == components;
      if isPacked {
        unit := CHAR_WIDTH;
      }
      if size % unit != 0 {
        var missing := unit - size % unit;
        components := components + [BytePad((size + missing) / CHAR_WIDTH)];
      }
    }
  }
}
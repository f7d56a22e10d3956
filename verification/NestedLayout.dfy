// Padding applied to a whole type, inside out, and when its parts are aligned.
module NestedLayout {
  import opened Layout
  import opened LayoutFacts
  import opened PaddedStructs
  import opened MemberPlaces
  import opened PaddedUnions

  // ------------------------------------------------------------- powers of two

  ghost predicate IsPow2(n: nat) {
    n == 1 || (n > 0 && n % 2 == 0 && IsPow2(n / 2))
  }

  lemma {:induction false} Pow2Divides(a: nat, b: nat)
    requires IsPow2(a) && IsPow2(b) && a <= b
    ensures b % a == 0
  {
    if a == 1 {
    } else {
      Pow2Divides(a / 2, b / 2);
      var k := (b / 2) / (a / 2);
      assert b / 2 == k * (a / 2);
      assert b == k * a;
      MultipleIsZero(k, a);
    }
  }

  lemma {:induction false} ReprIsPow2(bits: nat, r: nat)
    requires IsPow2(r)
    ensures IsPow2(ReprFrom(bits, r))
    decreases if bits > r * CHAR_WIDTH then bits - r * CHAR_WIDTH else 0
  {
    if bits > r * CHAR_WIDTH {
      assert (2 * r) % 2 == 0 && (2 * r) / 2 == r;
      ReprIsPow2(bits, 2 * r);
    }
  }

  // Whatever fits the representation of w is represented in no more.
  lemma {:induction false} ReprIsLeast(bits: nat, w: nat, r: nat)
    requires r > 0 && bits <= CHAR_WIDTH * ReprFrom(w, r)
    ensures ReprFrom(bits, r) <= ReprFrom(w, r)
    decreases if bits > r * CHAR_WIDTH then bits - r * CHAR_WIDTH else 0
  {
    if bits > r * CHAR_WIDTH {
      ReprIsLeast(bits, w, 2 * r);
    }
  }

  lemma GapFits(w: nat, d: nat)
    requires d > 0
    ensures var gap := if w % d == 0 then 0 else d - w % d;
      gap < d && (w + gap) % d == 0
  {
    var q := RoundedUp(w, d);
    MultipleIsZero(q, d);
  }

  lemma MissingFits(w: nat)
    ensures (w + ExtMissing(w)) % (CHAR_WIDTH * ReprBytes(w)) == 0
    ensures ReprBytes(ExtMissing(w)) <= ReprBytes(w)
  {
    GapFits(w, CHAR_WIDTH * ReprBytes(w));
    ReprIsLeast(ExtMissing(w), w, 1);
  }

  // An extended integer without attributes fits, and so does its pad.
  lemma ExtIntFits(c: Component)
    requires c.t.ExtInt?
    ensures ExtFits(c) && ExtPadAlignmentOf(c) <= AlignmentOf(c)
  {
    var w := c.t.width;
    MissingFits(w);
    assert Strip(c.t) == c.t && WidthOf(c) == w;
    assert AlignmentOf(c) == ReprBytes(w);
    assert AlignmentOf(ExtPad(ExtMissing(w))) == ReprBytes(ExtMissing(w));
  }

  // -------------------------------------------------------------- nested types

  // Every struct and union inside t padded, innermost first.
  function PadType(t: Type): Type {
    match t
    case Struct(cs) => Struct(Padded(PadAll(cs), 0, false).comps)
    case Union(cs) => Union(PaddedUnion(PadAll(cs), 0, false))
    case Array(n, elem) => Array(n, PadType(elem))
    case _ => t
  }

  function PadComponent(c: Component): Component {
    Component(PadType(c.t), c.isPad)
  }

  function PadAll(cs: seq<Component>): seq<Component> {
    if cs == [] then [] else [PadComponent(cs[0])] + PadAll(cs[1..])
  }

  // Declared types without attributes: basic types with power-of-two sizes,
  // extended integers, bit-fields, arrays, structs and unions.
  ghost predicate Plain(t: Type) {
    match t
    case Basic(s) => IsPow2(s)
    case ExtInt(_) => true
    case BitField(_, base) => base.Basic? && IsPow2(base.size)
    case Array(_, elem) => Plain(elem) && !elem.BitField?
    case Struct(cs) => AllPlain(cs)
    case Union(cs) => AllPlain(cs)
    case Nil => false
    case Aligned(_, _, _) => false
  }

  ghost predicate PlainComponent(c: Component) {
    !c.isPad && Plain(c.t)
  }

  ghost predicate AllPlain(cs: seq<Component>) {
    cs == [] || (PlainComponent(cs[0]) && AllPlain(cs[1..]))
  }

  // Every part of t that is not a bit-field lies at a multiple of its alignment
  // when t is at bit position at.  Elements of an array follow one another
  // without gaps, also when they are no whole bytes.
  ghost predicate AlignedAt(t: Type, at: nat)
    decreases t, 1, 0
  {
    match t
    case Basic(s) => s > 0 ==> at % (CHAR_WIDTH * s) == 0
    case ExtInt(w) => at % (CHAR_WIDTH * ReprBytes(w)) == 0
    case BitField(_, _) => true
    case Nil => true
    case Aligned(_, _, u) => AlignedAt(u, at)
    case Array(n, elem) => ElementsAligned(elem, n, at)
    case Struct(cs) => MembersAligned(cs, at)
    case Union(cs) => AllAligned(cs, at)
  }

  ghost predicate ElementsAligned(elem: Type, n: nat, at: nat)
    decreases elem, 2, n
  {
    n == 0 || (AlignedAt(elem, at) && ElementsAligned(elem, n - 1, at + Bits(elem)))
  }

  ghost predicate ComponentAligned(c: Component, at: nat)
    decreases c, 1, 0
  {
    IsPlaced(c) ==> AlignedAt(c.t, at)
  }

  // Members of a struct follow one another.
  ghost predicate MembersAligned(cs: seq<Component>, at: nat)
    decreases cs, 1, 0
  {
    cs == [] || (ComponentAligned(cs[0], at) && MembersAligned(cs[1..], at + BitsOf(cs[0])))
  }

  ghost predicate AllAligned(cs: seq<Component>, at: nat)
    decreases cs, 1, 0
  {
    cs == [] || (ComponentAligned(cs[0], at) && AllAligned(cs[1..], at))
  }

  // ----------------------------------------------------- the strictest alignment

  // The strictest alignment of the parts of t that are placed, in bits.
  ghost function Strictest(t: Type): nat {
    match t
    case Basic(s) => CHAR_WIDTH * s
    case ExtInt(w) => CHAR_WIDTH * ReprBytes(w)
    case Array(n, elem) => if n == 0 then 1 else Strictest(elem)
    case Struct(cs) => StrictestOf(cs)
    case Union(cs) => StrictestOf(cs)
    case Aligned(_, _, u) => Strictest(u)
    case BitField(_, _) => 1
    case Nil => 1
  }

  ghost function StrictestIn(c: Component): nat {
    if c.isPad then 1 else Strictest(c.t)
  }

  ghost function StrictestOf(cs: seq<Component>): (s: nat)
    ensures s >= 1
  {
    if cs == [] then 1 else Max(StrictestIn(cs[0]), StrictestOf(cs[1..]))
  }

  ghost predicate PowerLeaves(t: Type) {
    match t
    case Basic(s) => IsPow2(s)
    case Array(_, elem) => PowerLeaves(elem)
    case Struct(cs) => AllPowerLeaves(cs)
    case Union(cs) => AllPowerLeaves(cs)
    case Aligned(_, _, u) => PowerLeaves(u)
    case _ => true
  }

  ghost predicate PowerLeavesIn(c: Component) {
    c.isPad || PowerLeaves(c.t)
  }

  ghost predicate AllPowerLeaves(cs: seq<Component>) {
    cs == [] || (PowerLeavesIn(cs[0]) && AllPowerLeaves(cs[1..]))
  }

  lemma EightTimesPow2(n: nat)
    requires IsPow2(n)
    ensures IsPow2(CHAR_WIDTH * n)
  {
    assert (2 * n) / 2 == n && (4 * n) / 2 == 2 * n && (8 * n) / 2 == 4 * n;
    assert IsPow2(2 * n) && IsPow2(4 * n);
  }

  lemma {:induction false} StrictestIsPow2(t: Type)
    requires PowerLeaves(t)
    ensures IsPow2(Strictest(t))
    decreases t, 1
  {
    match t
    case Basic(s) => EightTimesPow2(s);
    case ExtInt(w) =>
      ReprIsPow2(w, 1);
      EightTimesPow2(ReprBytes(w));
    case Array(_, elem) => StrictestIsPow2(elem);
    case Struct(cs) => StrictestOfIsPow2(cs);
    case Union(cs) => StrictestOfIsPow2(cs);
    case Aligned(_, _, u) => StrictestIsPow2(u);
    case _ =>
  }

  lemma {:induction false} StrictestInIsPow2(c: Component)
    requires PowerLeavesIn(c)
    ensures IsPow2(StrictestIn(c))
    decreases c, 0
  {
    if !c.isPad {
      StrictestIsPow2(c.t);
    }
  }

  lemma {:induction false} StrictestOfIsPow2(cs: seq<Component>)
    requires AllPowerLeaves(cs)
    ensures IsPow2(StrictestOf(cs))
    decreases cs, 0
  {
    if cs != [] {
      StrictestInIsPow2(cs[0]);
      StrictestOfIsPow2(cs[1..]);
    }
  }

  // The greater of two powers of two divides what both divide.
  lemma MaxDivides(a: nat, b: nat, y: nat)
    requires IsPow2(a) && IsPow2(b)
    ensures Divides(Max(a, b), y) <==> (Divides(a, y) && Divides(b, y))
  {
    var small, large := if a < b then a else b, Max(a, b);
    Pow2Divides(small, large);
    if Divides(large, y) {
      MultipleOfPart(y, large, small);
    }
  }

  lemma MultipleOfPart(n: nat, b: nat, a: nat)
    requires a > 0 && b > 0 && n % b == 0 && b % a == 0
    ensures n % a == 0
  {
    var k := (n / b) * (b / a);
    assert n == (n / b) * b && b == (b / a) * a;
    assert n == k * a;
    MultipleIsZero(k, a);
  }

  lemma SumOfMultiples(x: nat, y: nat, a: nat)
    requires a > 0 && x % a == 0 && y % a == 0
    ensures (x + y) % a == 0
  {
    assert x == (x / a) * a && y == (y / a) * a;
    assert x + y == (x / a + y / a) * a;
    MultipleIsZero(x / a + y / a, a);
  }

  lemma DifferenceOfMultiples(x: nat, y: nat, a: nat)
    requires a > 0 && x % a == 0
    ensures (x + y) % a == 0 <==> y % a == 0
  {
    if y % a == 0 {
      SumOfMultiples(x, y, a);
    }
    if (x + y) % a == 0 {
      var k := (x + y) / a - x / a;
      assert x == (x / a) * a && x + y == ((x + y) / a) * a;
      assert y == k * a;
      MultipleIsZero(k, a);
    }
  }

  lemma {:induction false} BitsHaveNoPlace(t: Type)
    requires Strip(t).BitField?
    ensures Strictest(t) == 1
  {
    if t.Aligned? {
      BitsHaveNoPlace(t.inner);
    }
  }

  // ------------------------------------------------------------- moving a type

  // A type aligned at one position is aligned further on exactly when it moves
  // by a multiple of its strictest alignment.
  lemma {:induction false} Move(t: Type, at: nat, step: nat)
    requires PowerLeaves(t) && AlignedAt(t, at)
    ensures AlignedAt(t, at + step) <==> Divides(Strictest(t), step)
    decreases t, 2, 0
  {
    match t
    case Basic(s) => DifferenceOfMultiples(at, step, CHAR_WIDTH * s);
    case ExtInt(w) => DifferenceOfMultiples(at, step, CHAR_WIDTH * ReprBytes(w));
    case Array(n, elem) => MoveElements(elem, n, at, step);
    case Struct(cs) => MoveMembers(cs, at, step);
    case Union(cs) => MoveAll(cs, at, step);
    case Aligned(_, _, u) => Move(u, at, step);
    case _ =>
  }

  lemma {:induction false} MoveElements(elem: Type, n: nat, at: nat, step: nat)
    requires PowerLeaves(elem) && ElementsAligned(elem, n, at)
    ensures ElementsAligned(elem, n, at + step) <==> (n == 0 || Divides(Strictest(elem), step))
    decreases elem, 3, n
  {
    if n > 0 {
      Move(elem, at, step);
      MoveElements(elem, n - 1, at + Bits(elem), step);
      assert at + step + Bits(elem) == at + Bits(elem) + step;
    }
  }

  lemma {:induction false} MoveComponent(c: Component, at: nat, step: nat)
    requires PowerLeavesIn(c) && ComponentAligned(c, at)
    ensures ComponentAligned(c, at + step) <==> Divides(StrictestIn(c), step)
    decreases c, 1, 0
  {
    if IsPlaced(c) {
      Move(c.t, at, step);
    } else if !c.isPad {
      BitsHaveNoPlace(c.t);
    }
  }

  lemma {:induction false} MoveMembers(cs: seq<Component>, at: nat, step: nat)
    requires AllPowerLeaves(cs) && MembersAligned(cs, at)
    ensures MembersAligned(cs, at + step) <==> Divides(StrictestOf(cs), step)
    decreases cs, 1, 0
  {
    if cs != [] {
      MoveComponent(cs[0], at, step);
      MoveMembers(cs[1..], at + BitsOf(cs[0]), step);
      StrictestInIsPow2(cs[0]);
      StrictestOfIsPow2(cs[1..]);
      MaxDivides(StrictestIn(cs[0]), StrictestOf(cs[1..]), step);
      assert at + step + BitsOf(cs[0]) == at + BitsOf(cs[0]) + step;
    }
  }

  lemma {:induction false} MoveAll(cs: seq<Component>, at: nat, step: nat)
    requires AllPowerLeaves(cs) && AllAligned(cs, at)
    ensures AllAligned(cs, at + step) <==> Divides(StrictestOf(cs), step)
    decreases cs, 1, 0
  {
    if cs != [] {
      MoveComponent(cs[0], at, step);
      MoveAll(cs[1..], at, step);
      StrictestInIsPow2(cs[0]);
      StrictestOfIsPow2(cs[1..]);
      MaxDivides(StrictestIn(cs[0]), StrictestOf(cs[1..]), step);
    }
  }

  // -------------------------------------------------------------------- arrays

  // t is aligned in every array of it at a multiple of its alignment.
  ghost predicate InArrays(t: Type) {
    forall n: nat, at: nat :: Divides(CHAR_WIDTH * Alignment(t), at) ==> AlignedAt(Array(n, t), at)
  }

  lemma {:induction false} ElementsInStep(elem: Type, n: nat, at: nat)
    requires PowerLeaves(elem) && AlignedAt(elem, 0) && Divides(Strictest(elem), Bits(elem))
    requires Divides(Strictest(elem), at)
    ensures ElementsAligned(elem, n, at)
  {
    if n > 0 {
      Move(elem, 0, at);
      SumOfMultiples(at, Bits(elem), Strictest(elem));
      ElementsInStep(elem, n - 1, at + Bits(elem));
    }
  }

  lemma ArrayOfOne(t: Type, at: nat)
    ensures AlignedAt(Array(1, t), at) <==> AlignedAt(t, at)
  {
    assert AlignedAt(Array(1, t), at) == ElementsAligned(t, 1, at);
    assert ElementsAligned(t, 0, at + Bits(t));
  }

  lemma ArrayOfTwo(t: Type, at: nat)
    ensures AlignedAt(Array(2, t), at) <==> (AlignedAt(t, at) && AlignedAt(t, at + Bits(t)))
  {
    assert AlignedAt(Array(2, t), at) == ElementsAligned(t, 2, at);
    assert ElementsAligned(t, 1, at + Bits(t)) == (AlignedAt(t, at + Bits(t))
      && ElementsAligned(t, 0, at + Bits(t) + Bits(t)));
  }

  // That is so exactly when it is aligned at zero and its strictest alignment
  // divides both its alignment and the bits it takes.
  lemma InArraysExactly(t: Type)
    requires PowerLeaves(t) && Alignment(t) > 0
    ensures InArrays(t)
      <==> (AlignedAt(t, 0) && Divides(Strictest(t), CHAR_WIDTH * Alignment(t)) && Divides(Strictest(t), Bits(t)))
  {
    var a := CHAR_WIDTH * Alignment(t);
    if InArrays(t) {
      MultipleIsZero(0, a);
      MultipleIsZero(1, a);
      assert Divides(a, 0) && Divides(a, a);
      ArrayOfOne(t, 0);
      ArrayOfOne(t, a);
      ArrayOfTwo(t, 0);
      Move(t, 0, a);
      Move(t, 0, Bits(t));
    }
    if AlignedAt(t, 0) && Divides(Strictest(t), a) && Divides(Strictest(t), Bits(t)) {
      forall n: nat, at: nat | Divides(a, at)
        ensures AlignedAt(Array(n, t), at)
      {
        MultipleOfPart(at, a, Strictest(t));
        ElementsInStep(t, n, at);
      }
    }
  }
}

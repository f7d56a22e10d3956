// Sizes and alignments of C types, and the two passes that pad a struct, as
// functions on component lists.
module Layout {

  const CHAR_WIDTH: nat := 8

  // Aligned carries the alignment attribute (0 when not given) and the packed
  // flag of the type inside it.
  datatype Type =
    | Basic(size: nat)
    | ExtInt(width: nat)
    | BitField(width: nat, base: Type)
    | Nil
    | Array(n: nat, elem: Type)
    | Struct(comps: seq<Component>)
    | Union(comps: seq<Component>)
    | Aligned(alignment: nat, isPacked: bool, inner: Type)

  datatype Component = Component(t: Type, isPad: bool)

  function Max(a: nat, b: nat): nat {
    if a < b then b else a
  }

  // The type without its attributes.
  function Strip(t: Type): Type {
    if t.Aligned? then Strip(t.inner) else t
  }

  // ext_int_representation_bytes: the least power of two of bytes that holds
  // the bits, looked for from r on.
  function ReprFrom(bits: nat, r: nat): (bytes: nat)
    requires r > 0
    ensures bytes >= r && bits <= bytes * CHAR_WIDTH
    ensures bytes == r || bytes * CHAR_WIDTH < 2 * bits
    decreases if bits > r * CHAR_WIDTH then bits - r * CHAR_WIDTH else 0
  {
    if bits > r * CHAR_WIDTH then ReprFrom(bits, 2 * r) else r
  }

  function ReprBytes(bits: nat): (bytes: nat)
    ensures bytes >= 1 && bits <= bytes * CHAR_WIDTH
  {
    ReprFrom(bits, 1)
  }

  // alignment.
  function Alignment(t: Type): nat {
    match t
    case Aligned(a, isPacked, u) =>
      if a > 0 && !isPacked then a
      else if a == 0 && isPacked then 1
      else
        var r := Alignment(u);
        if a > 0 && a < r then a else r
    case Array(_, elem) => Alignment(elem)
    case Struct(cs) => MaxAlignment(cs)
    case Union(cs) => MaxAlignment(cs)
    case BitField(_, base) => Alignment(base)
    case ExtInt(w) => ReprBytes(w)
    case Basic(s) => s
    case Nil => 1
  }

  function AlignmentOf(c: Component): nat {
    Alignment(c.t)
  }

  function MaxAlignment(cs: seq<Component>): (m: nat)
    ensures m >= 1
  {
    if cs == [] then 1 else Max(AlignmentOf(cs[0]), MaxAlignment(cs[1..]))
  }

  // type_byte_size_bits: a struct is as large as its components together.
  function Bits(t: Type): nat {
    match t
    case Aligned(_, _, u) => Bits(u)
    case Array(n, elem) => n * Bits(elem)
    case Struct(cs) => Total(cs)
    case Union(cs) => Widest(cs)
    case BitField(w, _) => w
    case ExtInt(w) => w
    case Basic(s) => CHAR_WIDTH * s
    case Nil => 0
  }

  function BitsOf(c: Component): nat {
    Bits(c.t)
  }

  function Total(cs: seq<Component>): nat {
    if cs == [] then 0 else BitsOf(cs[0]) + Total(cs[1..])
  }

  function Widest(cs: seq<Component>): nat {
    if cs == [] then 0 else Max(BitsOf(cs[0]), Widest(cs[1..]))
  }

  // type_byte_size: started bytes count.
  function Size(t: Type): nat {
    (Bits(t) + CHAR_WIDTH - 1) / CHAR_WIDTH
  }

  // A bit-field that takes bits, as opposed to one of width zero.
  predicate IsBits(c: Component) {
    Strip(c.t).BitField? && Strip(c.t).width != 0
  }

  predicate IsExt(c: Component) {
    Strip(c.t).ExtInt?
  }

  predicate IsExtPad(c: Component) {
    c.isPad && IsExt(c)
  }

  function WidthOf(c: Component): nat
    requires IsBits(c) || IsExt(c)
  {
    Strip(c.t).width
  }

  // ------------------------------------------------------------- pad fields

  // pad_bit_field, pad_ext_int_after and pad make these components.
  function BitPad(bits: nat): Component {
    Component(BitField(bits, Nil), true)
  }

  function ExtPad(bits: nat): Component {
    Component(ExtInt(bits), true)
  }

  function BytePad(bytes: nat): Component {
    Component(Basic(bytes), true)
  }

  // Bits missing up to the next byte.
  function ToByte(bits: nat): nat {
    if bits % CHAR_WIDTH == 0 then 0 else CHAR_WIDTH - bits % CHAR_WIDTH
  }

  function PadToByte(bits: nat): seq<Component> {
    if ToByte(bits) == 0 then [] else [BitPad(ToByte(bits))]
  }

  // Bits missing in the representation of an extended integer.
  function ExtMissing(w: nat): nat {
    var repr := CHAR_WIDTH * ReprBytes(w);
    if w % repr == 0 then 0 else repr - w % repr
  }

  // First pass: runs of bit-fields end on byte boundaries, extended integers
  // fill their representation.  bits counts the run so far.
  function FirstPass(cs: seq<Component>, bits: nat): seq<Component> {
    if cs == [] then PadToByte(bits)
    else
      var c := cs[0];
      if IsBits(c) then [c] + FirstPass(cs[1..], bits + WidthOf(c))
      else if IsExt(c) then PadToByte(bits) + ([c, ExtPad(ExtMissing(WidthOf(c)))] + FirstPass(cs[1..], 0))
      else PadToByte(bits) + ([c] + FirstPass(cs[1..], 0))
  }

  // State of the second pass; ok is false when an assertion of the source
  // fails, which ends the program.
  datatype Packing = Packing(comps: seq<Component>, offset: nat, bits: nat, maxAlignment: nat, ok: bool)

  function ByteGap(offset: nat, a: nat): nat {
    if a <= 1 || offset % a == 0 then 0 else a - offset % a
  }

  function PadBytes(n: nat): seq<Component> {
    if n == 0 then [] else [BytePad(n)]
  }

  // Bits of an extended integer together with its pad, if that comes next.
  function ExtBits(cs: seq<Component>): nat
    requires cs != [] && IsExt(cs[0])
  {
    WidthOf(cs[0]) + if |cs| > 1 && IsExtPad(cs[1]) then WidthOf(cs[1]) else 0
  }

  // One component of the second pass: what goes into the list for it and the
  // state after it.
  function SecondStep(cs: seq<Component>, offset: nat, bits: nat, m: nat): Packing
    requires cs != []
  {
    var c := cs[0];
    var a := Alignment(c.t);
    if IsBits(c) then
      var b := bits + WidthOf(c);
      Packing([c], offset + b / CHAR_WIDTH, b % CHAR_WIDTH, Max(m, a), true)
    else if bits != 0 || (a == 0 && !IsExtPad(c)) then Packing([c], offset, bits, m, false)
    else if IsExtPad(c) then Packing([c], offset, bits, m, true)
    else
      var gap := ByteGap(offset, a);
      if IsExt(c) then
        Packing(PadBytes(gap) + [c], offset + gap + ExtBits(cs) / CHAR_WIDTH, bits, Max(m, a),
          ExtBits(cs) % (CHAR_WIDTH * a) == 0)
      else
        Packing(PadBytes(gap) + [c], offset + gap + Size(c.t), bits, Max(m, a), true)
  }

  // Second pass: every other component starts at a multiple of its alignment.
  function SecondPass(cs: seq<Component>, offset: nat, bits: nat, m: nat): Packing {
    if cs == [] then Packing([], offset, bits, m, true)
    else
      var s := SecondStep(cs, offset, bits, m);
      if !s.ok then s.(comps := s.comps + cs[1..])
      else
        var p := SecondPass(cs[1..], s.offset, s.bits, s.maxAlignment);
        p.(comps := s.comps + p.comps)
  }

  // add_padding for a struct with the given attributes: both passes and the
  // end padding.
  function Padded(cs: seq<Component>, given: nat, isPacked: bool): Packing {
    var first := FirstPass(cs, 0);
    if isPacked && given == 0 then Packing(first, 0, 0, 0, true)
    else
      var p := SecondPass(first, 0, 0, 0);
      if !p.ok then p
      else
        var m := Max(p.maxAlignment, given);
        var gap := ByteGap(p.offset, m);
        p.(comps := p.comps + PadBytes(gap), offset := p.offset + gap, maxAlignment := m)
  }
}

// Names for types, by which equal anonymous types are merged: two types have
// the same name exactly when they differ at most in their tags.
module TypeNames {

  datatype Qualifiers = Qualifiers(isConst: bool, isRestricted: bool, isVolatile: bool)

  datatype Reference = NoReference | LvalueReference | RvalueReference

  // Widths and array sizes are digit strings.
  datatype Type = Type(quals: Qualifiers, shape: Shape)

  datatype Shape =
    | Empty
    | Bool
    | Signed(width: string)
    | Unsigned(width: string)
    | Floating(width: string)
    | Fixed(width: string)
    | BitField(width: string, base: Type)
    | Pointer(reference: Reference, target: Type)
    | Array(size: string, elem: Type)
    | IncompleteArray(elem: Type)
    | Struct(tag: string, comps: seq<Component>)
    | Union(tag: string, comps: seq<Component>)
    | IncompleteStruct(tag: string)
    | IncompleteUnion(tag: string)

  datatype Component = Component(name: string, t: Type)

  // ---------------------------------------------------------------- the names

  function Flag(on: bool, flag: char): string {
    if on then [flag] else []
  }

  function QualifierName(q: Qualifiers): string {
    Flag(q.isConst, 'c') + (Flag(q.isRestricted, 'r') + Flag(q.isVolatile, 'v'))
  }

  function ReferenceName(r: Reference): string {
    match r
    case NoReference => "*"
    case LvalueReference => "&"
    case RvalueReference => "&&"
  }

  function NameOf(t: Type): string
    decreases t, 1
  {
    QualifierName(t.quals) + ShapeName(t.shape)
  }

  function Braced(t: Type): string
    decreases t, 2
  {
    "{" + (NameOf(t) + "}")
  }

  function ShapeName(s: Shape): string
    decreases s, 1
  {
    match s
    case Empty => "V"
    case Bool => "B"
    case Signed(w) => "S" + w
    case Unsigned(w) => "U" + w
    case Floating(w) => "F" + w
    case Fixed(w) => "X" + w
    case BitField(w, base) => "BF" + (w + Braced(base))
    case Pointer(r, target) => ReferenceName(r) + Braced(target)
    case Array(n, elem) => "ARR" + (n + Braced(elem))
    case IncompleteArray(elem) => "ARR?" + Braced(elem)
    case Struct(_, cs) => "ST" + ComponentsName(cs)
    case Union(_, cs) => "UN" + ComponentsName(cs)
    case IncompleteStruct(_) => "ST?"
    case IncompleteUnion(_) => "UN?"
  }

  // Without components the opening bracket is what the source trims away.
  function ComponentsName(cs: seq<Component>): string
    decreases cs, 2
  {
    if cs == [] then "]" else "[" + (Body(cs) + "]")
  }

  function ComponentName(c: Component): string
    decreases c, 1
  {
    NameOf(c.t) + ("'" + (c.name + "'"))
  }

  function Body(cs: seq<Component>): string
    requires cs != []
    decreases cs, 1
  {
    if |cs| == 1 then ComponentName(cs[0]) else ComponentName(cs[0]) + ("|" + Body(cs[1..]))
  }

  // ------------------------------------------------- types that can be named

  predicate IsDigit(c: char) {
    '0' <= c <= '9'
  }

  predicate IsNumber(s: string) {
    forall i :: 0 <= i < |s| ==> IsDigit(s[i])
  }

  predicate IsPlain(name: string) {
    forall i :: 0 <= i < |name| ==> name[i] != '\''
  }

  predicate Proper(t: Type)
    decreases t, 1
  {
    ProperShape(t.shape)
  }

  predicate ProperShape(s: Shape)
    decreases s, 1
  {
    match s
    case Signed(w) => IsNumber(w)
    case Unsigned(w) => IsNumber(w)
    case Floating(w) => IsNumber(w)
    case Fixed(w) => IsNumber(w)
    case BitField(w, base) => IsNumber(w) && Proper(base)
    case Pointer(_, target) => Proper(target)
    case Array(n, elem) => IsNumber(n) && Proper(elem)
    case IncompleteArray(elem) => Proper(elem)
    case Struct(_, cs) => AllProper(cs)
    case Union(_, cs) => AllProper(cs)
    case _ => true
  }

  predicate ProperComponent(c: Component)
    decreases c, 0
  {
    IsPlain(c.name) && Proper(c.t)
  }

  predicate AllProper(cs: seq<Component>)
    decreases cs, 0
  {
    cs == [] || (ProperComponent(cs[0]) && AllProper(cs[1..]))
  }

  // The type without its tags.
  function Untagged(t: Type): Type
    decreases t, 1
  {
    Type(t.quals, UntaggedShape(t.shape))
  }

  function UntaggedShape(s: Shape): Shape
    decreases s, 1
  {
    match s
    case BitField(w, base) => BitField(w, Untagged(base))
    case Pointer(r, target) => Pointer(r, Untagged(target))
    case Array(n, elem) => Array(n, Untagged(elem))
    case IncompleteArray(elem) => IncompleteArray(Untagged(elem))
    case Struct(_, cs) => Struct("", AllUntagged(cs))
    case Union(_, cs) => Union("", AllUntagged(cs))
    case IncompleteStruct(_) => IncompleteStruct("")
    case IncompleteUnion(_) => IncompleteUnion("")
    case _ => s
  }

  function UntaggedComponent(c: Component): Component
    decreases c, 0
  {
    Component(c.name, Untagged(c.t))
  }

  function AllUntagged(cs: seq<Component>): seq<Component>
    decreases cs, 0
  {
    if cs == [] then [] else [UntaggedComponent(cs[0])] + AllUntagged(cs[1..])
  }

  // ------------------------------------------------------------ cutting names

  // What may follow a name inside a longer one.
  predicate Ends(r: string) {
    r == [] || r[0] == '\'' || r[0] == '}'
  }

  lemma Cancel(a: string, x: string, y: string)
    requires a + x == a + y
    ensures x == y
  {
    assert (a + x)[|a|..] == x;
    assert (a + y)[|a|..] == y;
  }

  lemma Assoc(a: string, b: string, c: string)
    ensures (a + b) + c == a + (b + c)
  {
  }

  lemma NumbersCut(v: string, w: string, x: string, y: string)
    requires v + x == w + y && IsNumber(v) && IsNumber(w)
    requires (x == [] || !IsDigit(x[0])) && (y == [] || !IsDigit(y[0]))
    ensures v == w && x == y
  {
    LongerNumber(v, w, x, y);
    LongerNumber(w, v, y, x);
    assert v == (v + x)[..|v|] && w == (w + y)[..|w|];
    Cancel(v, x, y);
  }

  function At(x: string, i: nat): char {
    if i < |x| then x[i] else ' '
  }

  lemma LongerNumber(v: string, w: string, x: string, y: string)
    requires v + x == w + y && IsNumber(w)
    requires x == [] || !IsDigit(x[0])
    ensures |w| <= |v|
  {
    assert At(v + x, |v|) == At(w + y, |v|);
  }

  lemma PlainCut(v: string, w: string, x: string, y: string)
    requires v + ("'" + x) == w + ("'" + y) && IsPlain(v) && IsPlain(w)
    ensures v == w && x == y
  {
    var left, right := v + ("'" + x), w + ("'" + y);
    assert left[|v|] == '\'' && right[|w|] == '\'';
    assert forall i :: 0 <= i < |v| ==> left[i] == v[i];
    assert forall i :: 0 <= i < |w| ==> right[i] == w[i];
    assert |v| == |w|;
    assert v == left[..|v|] && w == right[..|w|];
    Cancel(v, "'" + x, "'" + y);
    Cancel("'", x, y);
  }

  lemma FlagCut(a: bool, b: bool, flag: char, x: string, y: string)
    requires Flag(a, flag) + x == Flag(b, flag) + y
    requires x != [] && x[0] != flag && y != [] && y[0] != flag
    ensures a == b && x == y
  {
    assert (Flag(a, flag) + x)[0] == if a then flag else x[0];
    assert (Flag(b, flag) + y)[0] == if b then flag else y[0];
    Cancel(Flag(a, flag), x, y);
  }

  // No name of a shape starts like a qualifier.
  predicate StartsShape(x: string) {
    x != [] && x[0] != 'c' && x[0] != 'r' && x[0] != 'v'
  }

  lemma FlagThen(on: bool, flag: char, x: string)
    requires x != []
    ensures Flag(on, flag) + x != [] && (Flag(on, flag) + x)[0] in {flag, x[0]}
  {
  }

  lemma QualifierNameThen(q: Qualifiers, x: string)
    ensures QualifierName(q) + x
      == Flag(q.isConst, 'c') + (Flag(q.isRestricted, 'r') + (Flag(q.isVolatile, 'v') + x))
  {
    Assoc(Flag(q.isConst, 'c'), Flag(q.isRestricted, 'r') + Flag(q.isVolatile, 'v'), x);
    Assoc(Flag(q.isRestricted, 'r'), Flag(q.isVolatile, 'v'), x);
  }

  lemma QualifiersCut(p: Qualifiers, q: Qualifiers, x: string, y: string)
    requires QualifierName(p) + x == QualifierName(q) + y && StartsShape(x) && StartsShape(y)
    ensures p == q && x == y
  {
    var pv, qv := Flag(p.isVolatile, 'v') + x, Flag(q.isVolatile, 'v') + y;
    var pr, qr := Flag(p.isRestricted, 'r') + pv, Flag(q.isRestricted, 'r') + qv;
    QualifierNameThen(p, x);
    QualifierNameThen(q, y);
    FlagThen(p.isVolatile, 'v', x);
    FlagThen(q.isVolatile, 'v', y);
    FlagThen(p.isRestricted, 'r', pv);
    FlagThen(q.isRestricted, 'r', qv);
    FlagCut(p.isConst, q.isConst, 'c', pr, qr);
    FlagCut(p.isRestricted, q.isRestricted, 'r', pv, qv);
    FlagCut(p.isVolatile, q.isVolatile, 'v', x, y);
  }

  // ------------------------------------------------------ telling shapes apart

  function KindOf(s: Shape): nat {
    match s
    case Empty => 0
    case Bool => 1
    case Signed(_) => 2
    case Unsigned(_) => 3
    case Floating(_) => 4
    case Fixed(_) => 5
    case BitField(_, _) => 6
    case Pointer(NoReference, _) => 7
    case Pointer(LvalueReference, _) => 8
    case Pointer(RvalueReference, _) => 9
    case Array(_, _) => 10
    case IncompleteArray(_) => 11
    case Struct(_, _) => 12
    case Union(_, _) => 13
    case IncompleteStruct(_) => 14
    case IncompleteUnion(_) => 15
  }

  // The kind of shape, read off the first characters of a name.
  function HeadKind(x: string): nat {
    match At(x, 0)
    case 'V' => 0
    case 'B' => if At(x, 1) == 'F' then 6 else 1
    case 'S' => if At(x, 1) != 'T' then 2 else if At(x, 2) == '?' then 14 else 12
    case 'U' => if At(x, 1) != 'N' then 3 else if At(x, 2) == '?' then 15 else 13
    case 'F' => 4
    case 'X' => 5
    case '*' => 7
    case '&' => if At(x, 1) == '&' then 9 else 8
    case _ => if At(x, 3) == '?' then 11 else 10
  }

  lemma NumberThen(w: string, r: string)
    requires IsNumber(w) && (Ends(r) || r[0] == '{')
    ensures w + r == [] || IsDigit((w + r)[0]) || (w + r)[0] in {'\'', '}', '{'}
  {
  }

  lemma HeadOfInteger(s: Shape, r: string)
    requires ProperShape(s) && Ends(r) && (s.Signed? || s.Unsigned?)
    ensures StartsShape(ShapeName(s) + r) && HeadKind(ShapeName(s) + r) == KindOf(s)
  {
    NumberThen(s.width, r);
    Assoc(if s.Signed? then "S" else "U", s.width, r);
  }

  lemma HeadOfArray(s: Shape, r: string)
    requires ProperShape(s) && (s.Array? || s.IncompleteArray?)
    ensures StartsShape(ShapeName(s) + r) && HeadKind(ShapeName(s) + r) == KindOf(s)
  {
    if s.Array? {
      NumberThen(s.size, Braced(s.elem) + r);
      Assoc(s.size, Braced(s.elem), r);
      Assoc("ARR", s.size + Braced(s.elem), r);
    }
  }

  lemma HeadOfAggregate(s: Shape, r: string)
    requires s.Struct? || s.Union? || s.IncompleteStruct? || s.IncompleteUnion?
    ensures StartsShape(ShapeName(s) + r) && HeadKind(ShapeName(s) + r) == KindOf(s)
  {
  }

  lemma HeadOfPointer(s: Shape, r: string)
    requires s.Pointer?
    ensures StartsShape(ShapeName(s) + r) && HeadKind(ShapeName(s) + r) == KindOf(s)
  {
    Assoc(ReferenceName(s.reference), Braced(s.target), r);
  }

  lemma HeadTells(s: Shape, r: string)
    requires ProperShape(s) && Ends(r)
    ensures StartsShape(ShapeName(s) + r) && HeadKind(ShapeName(s) + r) == KindOf(s)
  {
    if s.Signed? || s.Unsigned? {
      HeadOfInteger(s, r);
    } else if s.Array? || s.IncompleteArray? {
      HeadOfArray(s, r);
    } else if s.Struct? || s.Union? || s.IncompleteStruct? || s.IncompleteUnion? {
      HeadOfAggregate(s, r);
    } else if s.Pointer? {
      HeadOfPointer(s, r);
    }
  }

  // ------------------------------------------------------- names are injective

  lemma {:induction false} NamesCut(t: Type, u: Type, x: string, y: string)
    requires Proper(t) && Proper(u) && Ends(x) && Ends(y) && NameOf(t) + x == NameOf(u) + y
    ensures Untagged(t) == Untagged(u) && x == y
    decreases t, 1
  {
    HeadTells(t.shape, x);
    HeadTells(u.shape, y);
    Assoc(QualifierName(t.quals), ShapeName(t.shape), x);
    Assoc(QualifierName(u.quals), ShapeName(u.shape), y);
    QualifiersCut(t.quals, u.quals, ShapeName(t.shape) + x, ShapeName(u.shape) + y);
    ShapesCut(t.shape, u.shape, x, y);
  }

  lemma {:induction false} BracedCut(t: Type, u: Type, x: string, y: string)
    requires Proper(t) && Proper(u) && Braced(t) + x == Braced(u) + y
    ensures Untagged(t) == Untagged(u) && x == y
    decreases t, 2
  {
    assert Braced(t) + x == "{" + (NameOf(t) + ("}" + x));
    assert Braced(u) + y == "{" + (NameOf(u) + ("}" + y));
    Cancel("{", NameOf(t) + ("}" + x), NameOf(u) + ("}" + y));
    NamesCut(t, u, "}" + x, "}" + y);
    Cancel("}", x, y);
  }

  lemma {:induction false} SizedCut(lead: string, v: string, w: string, t: Type, u: Type, x: string, y: string)
    requires IsNumber(v) && IsNumber(w) && Proper(t) && Proper(u)
    requires lead + (v + Braced(t)) + x == lead + (w + Braced(u)) + y
    ensures v == w && Untagged(t) == Untagged(u) && x == y
    decreases t, 3
  {
    assert lead + (v + Braced(t)) + x == lead + (v + (Braced(t) + x));
    assert lead + (w + Braced(u)) + y == lead + (w + (Braced(u) + y));
    Cancel(lead, v + (Braced(t) + x), w + (Braced(u) + y));
    NumbersCut(v, w, Braced(t) + x, Braced(u) + y);
    BracedCut(t, u, x, y);
  }

  lemma WidthsCut(lead: string, v: string, w: string, x: string, y: string)
    requires IsNumber(v) && IsNumber(w) && Ends(x) && Ends(y)
    requires lead + v + x == lead + w + y
    ensures v == w && x == y
  {
    Assoc(lead, v, x);
    Assoc(lead, w, y);
    Cancel(lead, v + x, w + y);
    NumbersCut(v, w, x, y);
  }

  lemma {:induction false} LedCut(lead: string, t: Type, u: Type, x: string, y: string)
    requires Proper(t) && Proper(u) && lead + Braced(t) + x == lead + Braced(u) + y
    ensures Untagged(t) == Untagged(u) && x == y
    decreases t, 3
  {
    Assoc(lead, Braced(t), x);
    Assoc(lead, Braced(u), y);
    Cancel(lead, Braced(t) + x, Braced(u) + y);
    BracedCut(t, u, x, y);
  }

  lemma {:induction false} ShapesCut(s: Shape, z: Shape, x: string, y: string)
    requires ProperShape(s) && ProperShape(z) && Ends(x) && Ends(y)
    requires KindOf(s) == KindOf(z) && ShapeName(s) + x == ShapeName(z) + y
    ensures UntaggedShape(s) == UntaggedShape(z) && x == y
    decreases s, 1
  {
    match s
    case Signed(w) => WidthsCut("S", w, z.width, x, y);
    case Unsigned(w) => WidthsCut("U", w, z.width, x, y);
    case Floating(w) => WidthsCut("F", w, z.width, x, y);
    case Fixed(w) => WidthsCut("X", w, z.width, x, y);
    case BitField(w, base) => SizedCut("BF", w, z.width, base, z.base, x, y);
    case Pointer(r, target) => LedCut(ReferenceName(r), target, z.target, x, y);
    case Array(n, elem) => SizedCut("ARR", n, z.size, elem, z.elem, x, y);
    case IncompleteArray(elem) => LedCut("ARR?", elem, z.elem, x, y);
    case Struct(_, cs) => AggregateCut("ST", cs, z.comps, x, y);
    case Union(_, cs) => AggregateCut("UN", cs, z.comps, x, y);
    case _ => Cancel(ShapeName(s), x, y);
  }

  lemma {:induction false} AggregateCut(lead: string, cs: seq<Component>, ds: seq<Component>, x: string, y: string)
    requires AllProper(cs) && AllProper(ds)
    requires lead + ComponentsName(cs) + x == lead + ComponentsName(ds) + y
    ensures AllUntagged(cs) == AllUntagged(ds) && x == y
    decreases cs, 2
  {
    Assoc(lead, ComponentsName(cs), x);
    Assoc(lead, ComponentsName(ds), y);
    Cancel(lead, ComponentsName(cs) + x, ComponentsName(ds) + y);
    assert (ComponentsName(cs) + x)[0] == ComponentsName(cs)[0];
    assert (ComponentsName(ds) + y)[0] == ComponentsName(ds)[0];
    if cs == [] {
      Cancel("]", x, y);
    } else {
      assert ComponentsName(cs) + x == "[" + (Body(cs) + ("]" + x));
      assert ComponentsName(ds) + y == "[" + (Body(ds) + ("]" + y));
      Cancel("[", Body(cs) + ("]" + x), Body(ds) + ("]" + y));
      BodiesCut(cs, ds, x, y);
    }
  }

  lemma ComponentThen(c: Component, x: string)
    ensures ComponentName(c) + x == NameOf(c.t) + ("'" + (c.name + ("'" + x)))
  {
    hide NameOf;
    Assoc(NameOf(c.t), "'" + (c.name + "'"), x);
    Assoc("'", c.name + "'", x);
    Assoc(c.name, "'", x);
  }

  lemma {:induction false} ComponentCut(c: Component, d: Component, x: string, y: string)
    requires ProperComponent(c) && ProperComponent(d) && ComponentName(c) + x == ComponentName(d) + y
    ensures UntaggedComponent(c) == UntaggedComponent(d) && x == y
    decreases c, 1
  {
    hide NameOf, ComponentName, UntaggedShape;
    ComponentThen(c, x);
    ComponentThen(d, y);
    NamesCut(c.t, d.t, "'" + (c.name + ("'" + x)), "'" + (d.name + ("'" + y)));
    Cancel("'", c.name + ("'" + x), d.name + ("'" + y));
    PlainCut(c.name, d.name, x, y);
  }

  // What follows the first component in a body and after it.
  function Rest(cs: seq<Component>, x: string): string
    requires cs != []
  {
    if |cs| == 1 then "]" + x else "|" + (Body(cs[1..]) + ("]" + x))
  }

  lemma BodyThen(cs: seq<Component>, x: string)
    requires cs != []
    ensures Body(cs) + ("]" + x) == ComponentName(cs[0]) + Rest(cs, x)
  {
  }

  lemma {:induction false} BodiesCut(cs: seq<Component>, ds: seq<Component>, x: string, y: string)
    requires cs != [] && ds != [] && AllProper(cs) && AllProper(ds)
    requires Body(cs) + ("]" + x) == Body(ds) + ("]" + y)
    ensures AllUntagged(cs) == AllUntagged(ds) && x == y
    decreases cs, 1
  {
    BodyThen(cs, x);
    BodyThen(ds, y);
    ComponentCut(cs[0], ds[0], Rest(cs, x), Rest(ds, y));
    assert Rest(cs, x)[0] == (if |cs| == 1 then ']' else '|') && Rest(ds, y)[0] == (if |ds| == 1 then ']' else '|');
    if |cs| == 1 {
      Cancel("]", x, y);
    } else {
      Cancel("|", Body(cs[1..]) + ("]" + x), Body(ds[1..]) + ("]" + y));
      BodiesCut(cs[1..], ds[1..], x, y);
    }
  }

  lemma {:induction false} NameIgnoresTags(t: Type)
    ensures NameOf(t) == NameOf(Untagged(t))
    decreases t, 1
  {
    match t.shape
    case BitField(_, base) => BracedIgnoresTags(base);
    case Pointer(_, target) => BracedIgnoresTags(target);
    case Array(_, elem) => BracedIgnoresTags(elem);
    case IncompleteArray(elem) => BracedIgnoresTags(elem);
    case Struct(_, cs) => ComponentsIgnoreTags(cs);
    case Union(_, cs) => ComponentsIgnoreTags(cs);
    case _ =>
  }

  lemma {:induction false} ComponentsIgnoreTags(cs: seq<Component>)
    ensures ComponentsName(cs) == ComponentsName(AllUntagged(cs))
    decreases cs, 1
  {
    BodyIgnoresTags(cs);
  }

  lemma {:induction false} BracedIgnoresTags(t: Type)
    ensures Braced(t) == Braced(Untagged(t))
    decreases t, 2
  {
    NameIgnoresTags(t);
  }

  lemma {:induction false} ComponentIgnoresTags(c: Component)
    ensures ComponentName(c) == ComponentName(UntaggedComponent(c))
    decreases c, 0
  {
    NameIgnoresTags(c.t);
  }

  lemma {:induction false} BodyIgnoresTags(cs: seq<Component>)
    ensures |AllUntagged(cs)| == |cs| && (cs != [] ==> Body(cs) == Body(AllUntagged(cs)))
    decreases cs, 0
  {
    if cs != [] {
      ComponentIgnoresTags(cs[0]);
      BodyIgnoresTags(cs[1..]);
      assert AllUntagged(cs)[1..] == AllUntagged(cs[1..]);
    }
  }

  // Two types have the same name exactly when they are the same up to tags.
  lemma SameNameIffSameType(t: Type, u: Type)
    requires Proper(t) && Proper(u)
    ensures NameOf(t) == NameOf(u) <==> Untagged(t) == Untagged(u)
  {
    NameIgnoresTags(t);
    NameIgnoresTags(u);
    if NameOf(t) == NameOf(u) {
      assert NameOf(t) + "" == NameOf(t) && NameOf(u) + "" == NameOf(u);
      NamesCut(t, u, "", "");
    }
  }

  lemma PlainStructName(cs: seq<Component>)
    requires cs != []
    ensures NameOf(Type(Qualifiers(false, false, false), Struct("", cs))) == "ST" + ("[" + (Body(cs) + "]"))
  {
    assert QualifierName(Qualifiers(false, false, false)) == "";
    assert ShapeName(Struct("", cs)) == "ST" + ("[" + (Body(cs) + "]"));
  }

  // A quote in a component name can make two structs look the same.
  lemma QuotedNamesClash()
    ensures var plain := Qualifiers(false, false, false);
      var c := Type(plain, Empty);
      var one := Type(plain, Struct("", [Component("a'|V'b", c)]));
      var two := Type(plain, Struct("", [Component("a", c), Component("b", c)]));
      NameOf(one) == NameOf(two) && Untagged(one) != Untagged(two)
  {
    var c := Type(Qualifiers(false, false, false), Empty);
    var ab, a, b := Component("a'|V'b", c), Component("a", c), Component("b", c);
    assert NameOf(c) == "V";
    assert [a, b][1..] == [b];
    assert ComponentName(ab) == "V'a'|V'b'";
    assert ComponentName(a) == "V'a'" && ComponentName(b) == "V'b'" && Body([b]) == ComponentName(b);
    assert Body([a, b]) == "V'a'|V'b'";
    BodyIgnoresTags([ab]);
    BodyIgnoresTags([a, b]);
    PlainStructName([ab]);
    PlainStructName([a, b]);
  }

  // ------------------------------------------------------------- as it runs

  // The names of the components, each with the bar that ends it.
  function AllNames(cs: seq<Component>): string {
    if cs == [] then "" else ComponentName(cs[0]) + ("|" + AllNames(cs[1..]))
  }

  lemma {:induction false} AllNamesAppend(cs: seq<Component>, c: Component)
    ensures AllNames(cs + [c]) == AllNames(cs) + (ComponentName(c) + "|")
  {
    if cs == [] {
      assert [c][1..] == [];
    } else {
      assert (cs + [c])[1..] == cs[1..] + [c];
      AllNamesAppend(cs[1..], c);
    }
  }

  lemma {:induction false} TrimmedIsBody(cs: seq<Component>)
    requires cs != []
    ensures AllNames(cs) == Body(cs) + "|"
  {
    if |cs| > 1 {
      TrimmedIsBody(cs[1..]);
    }
  }

  method TypeToName(t: Type) returns (result: string)
    ensures result == NameOf(t)
    decreases t, 1
  {
    result := "";
    if t.quals.isConst {
      result := result + "c";
    }
    if t.quals.isRestricted {
      result := result + "r";
    }
    if t.quals.isVolatile {
      result := result + "v";
    }
    var shape := ShapeToName(t.shape);
    assert result == QualifierName(t.quals);
    result := result + shape;
  }

  method BracedToName(lead: string, t: Type) returns (result: string)
    ensures result == lead + Braced(t)
    decreases t, 2
  {
    result := lead + "{";
    var name := TypeToName(t);
    result := result + name;
    result := result + "}";
  }

  method ShapeToName(s: Shape) returns (result: string)
    ensures result == ShapeName(s)
    decreases s, 1
  {
    match s
    case Empty => result := "V";
    case Bool => result := "B";
    case Signed(w) => result := "S" + w;
    case Unsigned(w) => result := "U" + w;
    case Floating(w) => result := "F" + w;
    case Fixed(w) => result := "X" + w;
    case BitField(w, base) =>
      result := BracedToName("BF" + w, base);
    case Pointer(r, target) =>
      result := BracedToName(ReferenceName(r), target);
    case Array(n, elem) =>
      result := BracedToName("ARR" + n, elem);
    case IncompleteArray(elem) =>
      result := BracedToName("ARR?", elem);
    case Struct(_, cs) =>
      result := ComponentsToName("ST", cs);
    case Union(_, cs) =>
      result := ComponentsToName("UN", cs);
    case IncompleteStruct(_) => result := "ST?";
    case IncompleteUnion(_) => result := "UN?";
  }

  lemma OneMoreName(lead: string, cs: seq<Component>, i: nat, name: string)
    requires i < |cs| && name + "'" == ComponentName(cs[i])
    ensures lead + ("[" + AllNames(cs[..i])) + (name + "'|") == lead + ("[" + AllNames(cs[..i + 1]))
  {
    hide AllNames, ComponentName;
    var done := AllNames(cs[..i]);
    AllNamesAppend(cs[..i], cs[i]);
    assert cs[..i + 1] == cs[..i] + [cs[i]];
    assert name + "'|" == name + "'" + "|";
    Assoc("[", done, name + "'|");
    Assoc(lead, "[" + done, name + "'|");
  }

  method ComponentsToName(lead: string, cs: seq<Component>) returns (result: string)
    ensures result == lead + ComponentsName(cs)
    decreases cs, 1
  {
    result := lead + "[";
    for i := 0 to |cs|
      invariant result == lead + ("[" + AllNames(cs[..i]))
    {
      var name := ComponentToName(cs[i]);
      OneMoreName(lead, cs, i, name);
      result := result + (name + "'|");
    }
    assert cs[..|cs|] == cs;
    if cs != [] {
      TrimmedIsBody(cs);
      assert result == lead + ("[" + Body(cs)) + "|";
    }
    result := result[..|result| - 1];
    assert result == lead + if cs == [] then "" else "[" + Body(cs);
    result := result + "]";
  }

  method ComponentToName(c: Component) returns (result: string)
    ensures result + "'" == ComponentName(c)
    decreases c, 2
  {
    result := TypeToName(c.t);
    result := result + "'" + c.name;
  }

  // ------------------------------------------------------ merging by name

  function Tagged(t: Type, tag: string): Type {
    match t.shape
    case Struct(_, cs) => Type(t.quals, Struct(tag, cs))
    case Union(_, cs) => Type(t.quals, Union(tag, cs))
    case IncompleteStruct(_) => Type(t.quals, IncompleteStruct(tag))
    case IncompleteUnion(_) => Type(t.quals, IncompleteUnion(tag))
    case _ => t
  }

  // The tag of a struct or union, complete or not.
  function TagOf(t: Type): string {
    match t.shape
    case Struct(tag, _) => tag
    case Union(tag, _) => tag
    case IncompleteStruct(tag) => tag
    case IncompleteUnion(tag) => tag
    case _ => ""
  }

  predicate HasTag(t: Type) {
    t.shape.Struct? || t.shape.Union? || t.shape.IncompleteStruct? || t.shape.IncompleteUnion?
  }

  // A new tag is there and nothing else has changed.
  lemma TaggedIsTagged(t: Type, tag: string)
    ensures HasTag(t) ==> TagOf(Tagged(t, tag)) == tag
    ensures Tagged(Tagged(t, tag), TagOf(t)) == t
  {
  }

  lemma TagsDoNotCount(t: Type, tag: string)
    ensures Untagged(Tagged(t, tag)) == Untagged(t) && (Proper(t) ==> Proper(Tagged(t, tag)))
  {
    if HasTag(t) {
      var u := Tagged(t, tag).shape;
      assert UntaggedShape(u) == UntaggedShape(t.shape);
      assert ProperShape(t.shape) ==> ProperShape(u);
    }
  }

  // Anonymous types that have been given a symbol.
  class AnonymousTypes {
    var symbols: map<string, Type>

    constructor ()
      ensures symbols == map[] && Valid()
    {
      symbols := map[];
    }

    ghost predicate Valid()
      reads this
    {
      forall name :: name in symbols ==> Proper(symbols[name]) && name == "tag-#anon#" + NameOf(symbols[name])
    }

    // The first part of typecheck_symbol: an anonymous type gets a name made
    // from it, and is dropped for the symbol that has this name already.  That
    // symbol has the same type up to tags, and no two symbols have.  A new
    // symbol has the type itself with a tag made from the name.
    method TypecheckAnonymous(t: Type) returns (name: string)
      requires Valid() && Proper(t)
      modifies this
      ensures Valid()
      ensures name in symbols && Untagged(symbols[name]) == Untagged(t)
      ensures name == "tag-#anon#" + NameOf(t)
      ensures symbols == if name in old(symbols) then old(symbols) else old(symbols)[name := symbols[name]]
      ensures name !in old(symbols) ==>
        var u := symbols[name]; Tagged(u, TagOf(t)) == t && (HasTag(t) ==> TagOf(u) == "#anon#" + NameOf(t))
      ensures forall other :: other in symbols && Untagged(symbols[other]) == Untagged(t) ==> other == name
    {
      var typestr := TypeToName(t);
      name := "tag-#anon#" + typestr;
      if name in symbols {
        Cancel("tag-#anon#", typestr, NameOf(symbols[name]));
        SameNameIffSameType(t, symbols[name]);
      } else {
        var u := Tagged(t, "#anon#" + typestr);
        TagsDoNotCount(t, "#anon#" + typestr);
        TaggedIsTagged(t, "#anon#" + typestr);
        SameNameIffSameType(t, u);
        symbols := symbols[name := u];
      }
      forall other | other in symbols && Untagged(symbols[other]) == Untagged(t)
        ensures other == name
      {
        SameNameIffSameType(symbols[other], t);
      }
    }
  }

  // The codes: with void for whatever is inside, and for a struct without
  // components, whose opening bracket is trimmed away.
  lemma CodesOfScalars()
    ensures var no := Qualifiers(false, false, false);
      && NameOf(Type(no, Empty)) == "V" && NameOf(Type(no, Bool)) == "B"
      && NameOf(Type(no, Signed("8"))) == "S8" && NameOf(Type(no, Unsigned("8"))) == "U8"
      && NameOf(Type(no, Floating("8"))) == "F8" && NameOf(Type(no, Fixed("8"))) == "X8"
      && NameOf(Type(Qualifiers(true, false, false), Empty)) == "cV"
      && NameOf(Type(Qualifiers(false, true, false), Empty)) == "rV"
      && NameOf(Type(Qualifiers(false, false, true), Empty)) == "vV"
      && NameOf(Type(Qualifiers(true, true, true), Empty)) == "crvV"
  {
  }

  const VOID: Type := Type(Qualifiers(false, false, false), Empty)

  lemma CodesOfSubtypes()
    ensures ShapeName(Pointer(NoReference, VOID)) == "*{V}" && ShapeName(Pointer(LvalueReference, VOID)) == "&{V}"
    ensures ShapeName(Pointer(RvalueReference, VOID)) == "&&{V}" && ShapeName(BitField("3", VOID)) == "BF3{V}"
    ensures ShapeName(Array("3", VOID)) == "ARR3{V}" && ShapeName(IncompleteArray(VOID)) == "ARR?{V}"
  {
    assert Braced(VOID) == "{V}";
    hide Braced;
  }

  lemma CodesOfComponents()
    ensures ComponentsName([]) == "]" && ComponentsName([Component("a", VOID)]) == "[V'a']"
  {
    var c := Component("a", VOID);
    assert ComponentName(c) == "V'a'";
    hide ComponentName, NameOf;
    assert Body([c]) == ComponentName(c);
  }

  lemma CodesOfAggregates()
    ensures var cs := [Component("a", VOID)];
      && ShapeName(Struct("", [])) == "ST]" && ShapeName(Struct("", cs)) == "ST[V'a']"
      && ShapeName(Union("", [])) == "UN]" && ShapeName(Union("", cs)) == "UN[V'a']"
      && ShapeName(IncompleteStruct("")) == "ST?" && ShapeName(IncompleteUnion("")) == "UN?"
  {
    hide ComponentsName, NameOf, Braced;
    CodesOfComponents();
  }
}

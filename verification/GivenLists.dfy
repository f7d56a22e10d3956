// What a braced list gives a type, part by part, and what elaborating it
// builds: the scalars in order, with zeros wherever a pair of braces or the
// list ends early (section 6.7.8 of ISO/IEC 9899:1999).
module GivenLists {
  import opened Initializers

  // Number of scalars a type holds; of a union, those of its first member.
  ghost function Count(t: Type): nat {
    match t
    case Scalar => 1
    case Array(n, elem) => if n < 0 then 0 else Times(n, Count(elem))
    case Struct(fields) => CountFields(fields)
    case Union(members) => if members == [] then 0 else Count(members[0])
  }

  ghost function Times(n: nat, k: nat): nat {
    if n == 0 then 0 else k + Times(n - 1, k)
  }

  ghost function CountFields(fields: seq<Type>): nat {
    if fields == [] then 0 else Count(fields[0]) + CountFields(fields[1..])
  }

  // Types without empty aggregates or sizes that are refused.
  ghost predicate Good(t: Type) {
    match t
    case Scalar => true
    case Array(n, elem) => 0 < n <= MAX_ARRAY_SIZE && Good(elem)
    case Struct(fields) => fields != [] && GoodFields(fields)
    case Union(members) => members != [] && Good(members[0])
  }

  ghost predicate GoodFields(fields: seq<Type>) {
    fields == [] || (Good(fields[0]) && GoodFields(fields[1..]))
  }

  ghost predicate AllScalar(flat: seq<Init>) {
    forall k :: 0 <= k < |flat| ==> flat[k].Expr?
  }

  ghost function Take<T>(s: seq<T>, k: nat): seq<T> {
    if k <= |s| then s[..k] else s
  }

  ghost function Drop<T>(s: seq<T>, k: nat): seq<T> {
    if k <= |s| then s[k..] else []
  }

  lemma {:induction false} GoodTypesHaveZeros(t: Type)
    requires Good(t)
    ensures Zero(t).Ok? && Count(t) >= 1
    decreases t, 0
  {
    match t
    case Scalar =>
    case Array(n, elem) =>
      GoodTypesHaveZeros(elem);
    case Struct(fields) =>
      GoodFieldsHaveZeros(fields);
    case Union(members) =>
      GoodTypesHaveZeros(members[0]);
  }

  lemma {:induction false} GoodFieldsHaveZeros(fields: seq<Type>)
    requires GoodFields(fields)
    ensures ZeroFields(fields).Ok? && CountFields(fields) >= |fields|
    decreases fields, 0
  {
    if fields != [] {
      GoodTypesHaveZeros(fields[0]);
      GoodFieldsHaveZeros(fields[1..]);
    }
  }

  // ------------------------------------------------------------- leaves of values

  // The leaves of a value in order, with array_of expanded.
  ghost function Leaves(v: Value): seq<Init> {
    match v
    case Leaf(i) => [i]
    case ArrayValue(elems) => LeavesOf(elems)
    case ArrayOf(n, z) => Repeat(n, Leaves(z))
    case StructValue(fields) => LeavesOf(fields)
    case UnionValue(m) => Leaves(m)
  }

  ghost function LeavesOf(vs: seq<Value>): seq<Init> {
    if vs == [] then [] else Leaves(vs[0]) + LeavesOf(vs[1..])
  }

  ghost function Repeat(n: nat, s: seq<Init>): seq<Init> {
    if n == 0 then [] else s + Repeat(n - 1, s)
  }

  ghost function Zeros(n: nat): seq<Init> {
    seq(n, i => Expr(0))
  }

  lemma {:induction false} RepeatZeros(n: nat, k: nat)
    ensures Repeat(n, Zeros(k)) == Zeros(Times(n, k))
  {
    if n > 0 {
      RepeatZeros(n - 1, k);
    }
  }

  lemma {:induction false} ZeroLeaves(t: Type)
    requires Zero(t).Ok?
    ensures Leaves(Zero(t).value) == Zeros(Count(t))
    decreases t, 0
  {
    match t
    case Scalar =>
    case Array(n, elem) =>
      ZeroLeaves(elem);
      RepeatZeros(n, Count(elem));
    case Struct(fields) =>
      ZeroFieldLeaves(fields);
    case Union(members) =>
      ZeroLeaves(members[0]);
  }

  lemma {:induction false} ZeroFieldLeaves(fields: seq<Type>)
    requires ZeroFields(fields).Ok?
    ensures LeavesOf(ZeroFields(fields).value) == Zeros(CountFields(fields))
    decreases fields, 0
  {
    if fields != [] {
      ZeroLeaves(fields[0]);
      ZeroFieldLeaves(fields[1..]);
      var zs := ZeroFields(fields).value;
      assert zs[1..] == ZeroFields(fields[1..]).value;
    }
  }

  // A list and zeros after it.
  ghost function Padded(flat: seq<Init>, k: nat): seq<Init> {
    if |flat| >= k then flat[..k] else flat + Zeros(k - |flat|)
  }

  lemma LeavesCons(v: Value, vs: seq<Value>)
    ensures LeavesOf([v] + vs) == Leaves(v) + LeavesOf(vs)
  {
    assert ([v] + vs)[1..] == vs;
  }

  // ------------------------------------------------------------ what is written

  // What a list gives for one subobject: a scalar, or something for its first
  // parts, that is, elements, fields or the first member.  Either may be in
  // braces of its own.
  datatype Given =
    | Item(braced: bool, v: int)
    | Group(braced: bool, parts: seq<Given>)

  ghost function Write(g: Given): seq<Init>
    decreases g, 1
  {
    if g.braced then [Braced(Inside(g))] else Inside(g)
  }

  ghost function Inside(g: Given): seq<Init>
    decreases g, 0
  {
    match g
    case Item(_, v) => [Expr(v)]
    case Group(_, parts) => WriteAll(parts)
  }

  ghost function WriteAll(parts: seq<Given>): seq<Init>
    decreases parts, 0
  {
    if parts == [] then [] else Write(parts[0]) + WriteAll(parts[1..])
  }

  // The scalars alone.
  ghost function Scalars(g: Given): seq<Init> {
    match g
    case Item(_, v) => [Expr(v)]
    case Group(_, parts) => ScalarsOf(parts)
  }

  ghost function ScalarsOf(parts: seq<Given>): seq<Init> {
    if parts == [] then [] else Scalars(parts[0]) + ScalarsOf(parts[1..])
  }

  // Nothing is missing; if early, braces may end early.
  ghost predicate Filled(t: Type, g: Given, early: bool)
    decreases g, 1
  {
    (early && g.braced) || FilledInside(t, g, early)
  }

  ghost predicate FilledInside(t: Type, g: Given, early: bool)
    decreases g, 0
  {
    match t
    case Scalar => g.Item?
    case Array(n, elem) => g.Group? && n > 0 && ElemsFilled(n, elem, g.parts, early)
    case Struct(fields) => g.Group? && FieldsFilled(fields, g.parts, early)
    case Union(members) => g.Group? && members != [] && g.parts != [] && Filled(members[0], g.parts[0], early)
  }

  ghost predicate ElemsFilled(n: nat, elem: Type, parts: seq<Given>, early: bool)
    decreases parts, 0
  {
    n == 0 || (parts != [] && Filled(elem, parts[0], early) && ElemsFilled(n - 1, elem, parts[1..], early))
  }

  ghost predicate FieldsFilled(fields: seq<Type>, parts: seq<Given>, early: bool)
    decreases parts, 0
  {
    fields == []
    || (parts != [] && Filled(fields[0], parts[0], early) && FieldsFilled(fields[1..], parts[1..], early))
  }

  // Only the last part may lack something, unless early and in braces; and
  // braces belong to the outermost open subobject, so one without braces cannot
  // start with a part in braces.
  ghost predicate Valid(t: Type, g: Given, early: bool)
    decreases g
  {
    match t
    case Scalar => g.Item?
    case Array(n, elem) => StartsWell(g) && n > 0 && ElemsValid(n, elem, g.parts, early)
    case Struct(fields) => StartsWell(g) && FieldsValid(fields, g.parts, early)
    case Union(members) =>
      StartsWell(g) && members != [] && |g.parts| == 1 && Valid(members[0], g.parts[0], early)
  }

  ghost predicate StartsWell(g: Given) {
    g.Group? && g.parts != [] && (g.parts[0].braced ==> g.braced)
  }

  ghost predicate ElemsValid(n: nat, elem: Type, parts: seq<Given>, early: bool)
    decreases parts
  {
    parts == [] || (
      && n > 0 && Valid(elem, parts[0], early) && (|parts| > 1 ==> Filled(elem, parts[0], early))
      && ElemsValid(n - 1, elem, parts[1..], early))
  }

  ghost predicate FieldsValid(fields: seq<Type>, parts: seq<Given>, early: bool)
    decreases parts
  {
    parts == [] || (
      && fields != [] && Valid(fields[0], parts[0], early) && (|parts| > 1 ==> Filled(fields[0], parts[0], early))
      && FieldsValid(fields[1..], parts[1..], early))
  }

  // ----------------------------------------------------- reference semantics

  // The leaves: those of the parts one after the other, then zeros.
  ghost function Spread(t: Type, g: Given): seq<Init>
    decreases g
  {
    match g
    case Item(_, v) => [Expr(v)]
    case Group(_, parts) =>
      match t
      case Array(_, elem) => Padded(SpreadElems(elem, parts), Count(t))
      case Struct(fields) => Padded(SpreadFields(fields, parts), Count(t))
      case Union(members) => if members == [] || parts == [] then [] else Spread(members[0], parts[0])
      case Scalar => []
  }

  ghost function SpreadElems(elem: Type, parts: seq<Given>): seq<Init>
    decreases parts
  {
    if parts == [] then [] else Spread(elem, parts[0]) + SpreadElems(elem, parts[1..])
  }

  ghost function SpreadFields(fields: seq<Type>, parts: seq<Given>): seq<Init>
    decreases parts
  {
    if parts == [] || fields == [] then [] else Spread(fields[0], parts[0]) + SpreadFields(fields[1..], parts[1..])
  }

  // The value: zero values for the parts that are not given.
  ghost function Built(t: Type, g: Given): Value
    requires Good(t) && Valid(t, g, true)
    decreases g, 0
  {
    match t
    case Scalar => Leaf(Expr(g.v))
    case Array(n, elem) => ArrayValue(BuiltElems(n, elem, g.parts))
    case Struct(fields) => StructValue(BuiltFields(fields, g.parts))
    case Union(members) => UnionValue(Built(members[0], g.parts[0]))
  }

  ghost function BuiltElems(n: nat, elem: Type, parts: seq<Given>): seq<Value>
    requires Good(elem) && ElemsValid(n, elem, parts, true)
    decreases parts, n
  {
    GoodTypesHaveZeros(elem);
    if n == 0 then []
    else if parts == [] then [Zero(elem).value] + BuiltElems(n - 1, elem, [])
    else [Built(elem, parts[0])] + BuiltElems(n - 1, elem, parts[1..])
  }

  ghost function BuiltFields(fields: seq<Type>, parts: seq<Given>): seq<Value>
    requires GoodFields(fields) && FieldsValid(fields, parts, true)
    decreases parts, |fields|
  {
    if fields == [] then []
    else if parts == [] then
      GoodTypesHaveZeros(fields[0]);
      [Zero(fields[0]).value] + BuiltFields(fields[1..], [])
    else [Built(fields[0], parts[0])] + BuiltFields(fields[1..], parts[1..])
  }

  // ------------------------------------------------------------ leaves of Built

  lemma PaddedSplit(first: seq<Init>, rest: seq<Init>, k: nat)
    ensures Padded(first + rest, |first| + k) == first + Padded(rest, k)
  {
  }

  lemma {:induction false} BuiltLeaves(t: Type, g: Given)
    requires Good(t) && Valid(t, g, true)
    ensures Leaves(Built(t, g)) == Spread(t, g) && |Spread(t, g)| == Count(t)
    decreases g, 0
  {
    match t
    case Scalar =>
    case Array(n, elem) => BuiltElemsLeaves(n, elem, g.parts);
    case Struct(fields) => BuiltFieldsLeaves(fields, g.parts);
    case Union(members) => BuiltLeaves(members[0], g.parts[0]);
  }

  lemma {:induction false} ZeroElemsLeaves(n: nat, elem: Type)
    requires Good(elem)
    ensures LeavesOf(BuiltElems(n, elem, [])) == Zeros(Times(n, Count(elem)))
  {
    hide Leaves, Good, Count;
    GoodTypesHaveZeros(elem);
    if n > 0 {
      ZeroLeaves(elem);
      ZeroElemsLeaves(n - 1, elem);
      LeavesCons(Zero(elem).value, BuiltElems(n - 1, elem, []));
    }
  }

  lemma {:induction false} BuiltElemsLeaves(n: nat, elem: Type, parts: seq<Given>)
    requires Good(elem) && ElemsValid(n, elem, parts, true)
    ensures LeavesOf(BuiltElems(n, elem, parts)) == Padded(SpreadElems(elem, parts), Times(n, Count(elem)))
    ensures |SpreadElems(elem, parts)| <= Times(n, Count(elem))
    decreases parts, n
  {
    hide Leaves, Spread, Built, Good, Valid, Filled, Count, Zero;
    if n > 0 {
      if parts == [] {
        ZeroElemsLeaves(n, elem);
        assert SpreadElems(elem, []) == [];
      } else {
        var rest := BuiltElems(n - 1, elem, parts[1..]);
        BuiltLeaves(elem, parts[0]);
        BuiltElemsLeaves(n - 1, elem, parts[1..]);
        LeavesCons(Built(elem, parts[0]), rest);
        PaddedSplit(Spread(elem, parts[0]), SpreadElems(elem, parts[1..]), Times(n - 1, Count(elem)));
      }
    }
  }

  lemma {:induction false} BuiltFieldsLeaves(fields: seq<Type>, parts: seq<Given>)
    requires GoodFields(fields) && FieldsValid(fields, parts, true)
    ensures LeavesOf(BuiltFields(fields, parts)) == Padded(SpreadFields(fields, parts), CountFields(fields))
    ensures |SpreadFields(fields, parts)| <= CountFields(fields)
    decreases parts, |fields|
  {
    hide Leaves, Spread, Built, Good, Valid, Count;
    if fields != [] {
      GoodTypesHaveZeros(fields[0]);
      if parts == [] {
        ZeroLeaves(fields[0]);
        BuiltFieldsLeaves(fields[1..], []);
        LeavesCons(Zero(fields[0]).value, BuiltFields(fields[1..], []));
        assert SpreadFields(fields, []) == [] && SpreadFields(fields[1..], []) == [];
      } else {
        var rest := BuiltFields(fields[1..], parts[1..]);
        BuiltLeaves(fields[0], parts[0]);
        BuiltFieldsLeaves(fields[1..], parts[1..]);
        LeavesCons(Built(fields[0], parts[0]), rest);
        PaddedSplit(Spread(fields[0], parts[0]), SpreadFields(fields[1..], parts[1..]), CountFields(fields[1..]));
      }
    }
  }

  // --------------------------------------------------------- the written list

  // A subobject without braces starts with a plain scalar.
  lemma {:induction false} StartsPlain(t: Type, g: Given)
    requires Good(t) && Valid(t, g, true)
    ensures Inside(g) != [] && (!g.braced ==> Inside(g)[0].Expr?)
    decreases g
  {
    match t
    case Scalar =>
    case Array(n, elem) =>
      StartsPlain(elem, g.parts[0]);
      assert Write(g.parts[0]) != [];
    case Struct(fields) =>
      StartsPlain(fields[0], g.parts[0]);
      assert Write(g.parts[0]) != [];
    case Union(members) =>
      StartsPlain(members[0], g.parts[0]);
      assert Write(g.parts[0]) != [];
  }

  lemma OnlyPart(parts: seq<Given>)
    requires |parts| == 1
    ensures WriteAll(parts) == Write(parts[0])
  {
    assert WriteAll(parts[1..]) == [];
  }

  // The written list is one that the elaboration accepts.
  lemma {:induction false} WriteIsWellformed(t: Type, g: Given)
    requires Good(t) && Valid(t, g, true)
    ensures Wellformed(Write(g)) && Wellformed(Inside(g))
    decreases g, 0
  {
    StartsPlain(t, g);
    match t
    case Scalar =>
    case Array(n, elem) =>
      ElemsAreWellformed(n, elem, g.parts);
    case Struct(fields) =>
      FieldsAreWellformed(fields, g.parts);
    case Union(members) =>
      OnlyPart(g.parts);
      WriteIsWellformed(members[0], g.parts[0]);
  }

  lemma {:induction false} ElemsAreWellformed(n: nat, elem: Type, parts: seq<Given>)
    requires Good(elem) && ElemsValid(n, elem, parts, true)
    ensures Wellformed(WriteAll(parts))
    decreases parts, 0
  {
    if parts != [] {
      WriteIsWellformed(elem, parts[0]);
      ElemsAreWellformed(n - 1, elem, parts[1..]);
    }
  }

  lemma {:induction false} FieldsAreWellformed(fields: seq<Type>, parts: seq<Given>)
    requires GoodFields(fields) && FieldsValid(fields, parts, true)
    ensures Wellformed(WriteAll(parts))
    decreases parts, 0
  {
    if parts != [] {
      WriteIsWellformed(fields[0], parts[0]);
      FieldsAreWellformed(fields[1..], parts[1..]);
    }
  }

  // p is what the list items has from position pos on.
  ghost predicate At(items: seq<Init>, pos: nat, p: seq<Init>) {
    pos + |p| <= |items| && items[pos..pos + |p|] == p
  }

  lemma AtSplit(items: seq<Init>, pos: nat, p: seq<Init>, q: seq<Init>)
    requires At(items, pos, p + q)
    ensures At(items, pos, p) && At(items, pos + |p|, q)
  {
    assert items[pos..pos + |p|] == (p + q)[..|p|];
    assert items[pos + |p|..pos + |p| + |q|] == (p + q)[|p|..];
  }

  // ---------------------------------------------------------- the elaboration

  // Elaborating what was written for a subobject builds it, if nothing is
  // missing or the list ends there.
  lemma {:induction false} ElaborateWritten(items: seq<Init>, pos: nat, t: Type, g: Given)
    requires Good(t) && Valid(t, g, true) && Wellformed(items) && At(items, pos, Write(g))
    requires Filled(t, g, true) || pos + |Write(g)| == |items|
    ensures pos < |items| && Elaborate(items, pos, t, true) == Ok(Elab(Built(t, g), pos + |Write(g)|))
    decreases g, 1
  {
    hide Built, Good, Valid, FilledInside, Inside;
    StartsPlain(t, g);
    var inside := Inside(g);
    if g.braced {
      assert items[pos] == items[pos..pos + 1][0] == Braced(inside);
      assert NoEmptyBraces(items[pos]);
      assert inside[0..|inside|] == inside;
      ElaborateInside(inside, 0, t, g, false);
    } else {
      assert items[pos] == items[pos..pos + |inside|][0];
      ElaborateInside(items, pos, t, g, true);
    }
  }

  lemma {:induction false} ElaborateInside(items: seq<Init>, pos: nat, t: Type, g: Given, goDown: bool)
    requires Good(t) && Valid(t, g, true) && Wellformed(items) && At(items, pos, Inside(g)) && pos < |items|
    requires FilledInside(t, g, true) || pos + |Inside(g)| == |items|
    requires goDown ==> items[pos].Expr?
    ensures Elaborate(items, pos, t, goDown) == Ok(Elab(Built(t, g), pos + |Inside(g)|))
    decreases g, 0
  {
    match t
    case Scalar =>
      assert items[pos] == items[pos..pos + 1][0];
    case Array(n, elem) =>
      ElaborateElemsWritten(items, pos, n, elem, g.parts);
    case Struct(fields) =>
      ElaborateFieldsWritten(items, pos, fields, g.parts);
    case Union(members) =>
      OnlyPart(g.parts);
      ElaborateWritten(items, pos, members[0], g.parts[0]);
  }

  lemma ElemsStep(items: seq<Init>, pos: nat, n: nat, elem: Type, parts: seq<Given>, p: nat, q: nat)
    requires Good(elem) && Wellformed(items) && n > 0 && parts != [] && pos < |items| && p <= |items|
    requires ElemsValid(n, elem, parts, true)
    requires Elaborate(items, pos, elem, true) == Ok(Elab(Built(elem, parts[0]), p))
    requires ElaborateElems(items, p, n - 1, elem) == Ok(Elab(BuiltElems(n - 1, elem, parts[1..]), q))
    ensures ElaborateElems(items, pos, n, elem) == Ok(Elab(BuiltElems(n, elem, parts), q))
  {
    hide Elaborate, Built, Good, Filled, Zero;
  }

  lemma FieldsStep(items: seq<Init>, pos: nat, fields: seq<Type>, parts: seq<Given>, p: nat, q: nat)
    requires GoodFields(fields) && Wellformed(items) && fields != [] && parts != [] && pos < |items| && p <= |items|
    requires FieldsValid(fields, parts, true)
    requires Elaborate(items, pos, fields[0], true) == Ok(Elab(Built(fields[0], parts[0]), p))
    requires ElaborateFields(items, p, fields[1..]) == Ok(Elab(BuiltFields(fields[1..], parts[1..]), q))
    ensures ElaborateFields(items, pos, fields) == Ok(Elab(BuiltFields(fields, parts), q))
  {
    hide Elaborate, Built, Good, Filled, Zero;
  }

  lemma WriteAllParts(parts: seq<Given>)
    requires parts != []
    ensures WriteAll(parts) == Write(parts[0]) + WriteAll(parts[1..])
    ensures |parts| == 1 ==> WriteAll(parts[1..]) == []
  {
  }

  lemma {:induction false} ElaborateElemsWritten(items: seq<Init>, pos: nat, n: nat, elem: Type, parts: seq<Given>)
    requires Good(elem) && ElemsValid(n, elem, parts, true) && Wellformed(items) && At(items, pos, WriteAll(parts))
    requires ElemsFilled(n, elem, parts, true) || pos + |WriteAll(parts)| == |items|
    ensures ElaborateElems(items, pos, n, elem) == Ok(Elab(BuiltElems(n, elem, parts), pos + |WriteAll(parts)|))
    decreases parts, 0
  {
    hide Elaborate, ElaborateElems, Built, BuiltElems, Good, Valid, Filled, Write, WriteAll;
    if n == 0 || parts == [] {
      NoElemsWritten(items, pos, n, elem, parts);
    } else {
      var p := pos + |Write(parts[0])|;
      WriteAllParts(parts);
      AtSplit(items, pos, Write(parts[0]), WriteAll(parts[1..]));
      ElaborateWritten(items, pos, elem, parts[0]);
      ElaborateElemsWritten(items, p, n - 1, elem, parts[1..]);
      ElemsStep(items, pos, n, elem, parts, p, p + |WriteAll(parts[1..])|);
    }
  }

  lemma {:induction false} NoElemsWritten(items: seq<Init>, pos: nat, n: nat, elem: Type, parts: seq<Given>)
    requires Good(elem) && Wellformed(items) && pos <= |items| && (n == 0 || parts == [])
    requires ElemsValid(n, elem, parts, true)
    requires ElemsFilled(n, elem, parts, true) || pos + |WriteAll(parts)| == |items|
    ensures ElaborateElems(items, pos, n, elem) == Ok(Elab(BuiltElems(n, elem, parts), pos + |WriteAll(parts)|))
  {
    GoodTypesHaveZeros(elem);
    NothingBuilt(n, elem);
  }

  lemma {:induction false} NothingBuilt(n: nat, elem: Type)
    requires Good(elem)
    ensures Zero(elem).Ok? && BuiltElems(n, elem, []) == seq(n, i => Zero(elem).value)
  {
    GoodTypesHaveZeros(elem);
    if n > 0 {
      NothingBuilt(n - 1, elem);
    }
  }

  lemma {:induction false} ElaborateFieldsWritten(items: seq<Init>, pos: nat, fields: seq<Type>, parts: seq<Given>)
    requires GoodFields(fields) && FieldsValid(fields, parts, true) && Wellformed(items)
    requires At(items, pos, WriteAll(parts))
    requires FieldsFilled(fields, parts, true) || pos + |WriteAll(parts)| == |items|
    ensures ElaborateFields(items, pos, fields) == Ok(Elab(BuiltFields(fields, parts), pos + |WriteAll(parts)|))
    decreases parts, 0
  {
    hide Elaborate, ElaborateFields, Built, BuiltFields, Good, Valid, Filled, Write, WriteAll;
    if fields == [] || parts == [] {
      NoFieldsWritten(items, pos, fields, parts);
    } else {
      var p := pos + |Write(parts[0])|;
      WriteAllParts(parts);
      AtSplit(items, pos, Write(parts[0]), WriteAll(parts[1..]));
      ElaborateWritten(items, pos, fields[0], parts[0]);
      ElaborateFieldsWritten(items, p, fields[1..], parts[1..]);
      FieldsStep(items, pos, fields, parts, p, p + |WriteAll(parts[1..])|);
    }
  }

  lemma {:induction false} NoFieldsWritten(items: seq<Init>, pos: nat, fields: seq<Type>, parts: seq<Given>)
    requires GoodFields(fields) && Wellformed(items) && pos <= |items| && (fields == [] || parts == [])
    requires FieldsValid(fields, parts, true)
    requires FieldsFilled(fields, parts, true) || pos + |WriteAll(parts)| == |items|
    ensures ElaborateFields(items, pos, fields) == Ok(Elab(BuiltFields(fields, parts), pos + |WriteAll(parts)|))
    decreases |fields|
  {
    if fields != [] {
      GoodTypesHaveZeros(fields[0]);
      NoFieldsWritten(items, pos, fields[1..], parts);
    }
  }

  // Whatever inner braces are written, elaborating the list gives the leaves of
  // its parts in order, with zeros wherever a pair of braces or the list ends
  // early.
  lemma ElaborationSpreads(t: Type, g: Given)
    requires Good(t) && Valid(t, g, true)
    ensures var list := Inside(g);
      && list != [] && Wellformed(list)
      && Elaborate(list, 0, t, false) == Ok(Elab(Built(t, g), |list|))
      && Leaves(Built(t, g)) == Spread(t, g)
  {
    hide Elaborate, Built, Inside, Good, Valid, FilledInside, Spread;
    var list := Inside(g);
    StartsPlain(t, g);
    WriteIsWellformed(t, g);
    assert list[0..|list|] == list;
    ElaborateInside(list, 0, t, g, false);
    BuiltLeaves(t, g);
  }

  // What a list in braces holds after everything that is needed is ignored.
  lemma ExcessIsIgnored(items: seq<Init>, pos: nat, t: Type, g: Given, excess: seq<Init>)
    requires Good(t) && Valid(t, g, true) && FilledInside(t, g, true)
    requires pos < |items| && Wellformed(items) && items[pos] == Braced(Inside(g) + excess)
    ensures Elaborate(items, pos, t, true) == Ok(Elab(Built(t, g), pos + 1))
  {
    hide Built, Inside, Good, Valid, FilledInside;
    var list := Inside(g) + excess;
    assert NoEmptyBraces(items[pos]);
    assert list[0..|Inside(g)|] == Inside(g);
    ElaborateInside(list, 0, t, g, false);
  }

  // A scalar loses one pair of braces and is converted from the first of what is
  // inside, with any braces that has.
  lemma BracedScalar(items: seq<Init>, pos: nat, inner: Init, excess: seq<Init>)
    requires pos < |items| && Wellformed(items) && items[pos] == Braced([inner] + excess)
    ensures Elaborate(items, pos, Scalar, true) == Ok(Elab(Leaf(inner), pos + 1))
  {
    assert NoEmptyBraces(items[pos]);
  }

  // Arrays may have up to a million elements.
  lemma SizeLimit(items: seq<Init>, pos: nat, n: int, elem: Type, goDown: bool)
    requires pos < |items| && Wellformed(items) && (goDown ==> items[pos].Expr?)
    ensures n < 0 || n > 1_000_000 ==> Elaborate(items, pos, Array(n, elem), goDown).Thrown?
    ensures 0 <= n <= 1_000_000 ==>
      (Elaborate(items, pos, Array(n, elem), goDown).Thrown? <==> ElaborateElems(items, pos, n, elem).Thrown?)
  {
  }
}

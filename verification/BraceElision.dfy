// Braces that do not end early may be left out: the list of the scalars alone
// means the same (section 6.7.8 of ISO/IEC 9899:1999).
module BraceElision {
  import opened Initializers
  import opened GivenLists

  // Whether something is valid and whole is a matter of its parts.
  lemma PartsDecide(t: Type, g: Given, early: bool)
    ensures t.Scalar? ==> Valid(t, g, early) == FilledInside(t, g, early) == g.Item?
    ensures t.Array? ==>
      && Valid(t, g, early) == (StartsWell(g) && t.size > 0 && ElemsValid(t.size, t.elem, g.parts, early))
      && FilledInside(t, g, early) == (g.Group? && t.size > 0 && ElemsFilled(t.size, t.elem, g.parts, early))
    ensures t.Struct? ==>
      && Valid(t, g, early) == (StartsWell(g) && FieldsValid(t.fields, g.parts, early))
      && FilledInside(t, g, early) == (g.Group? && FieldsFilled(t.fields, g.parts, early))
    ensures t.Union? ==>
      && Valid(t, g, early)
         == (StartsWell(g) && t.members != [] && |g.parts| == 1 && Valid(t.members[0], g.parts[0], early))
      && FilledInside(t, g, early)
         == (g.Group? && t.members != [] && g.parts != [] && Filled(t.members[0], g.parts[0], early))
  {
  }

  // ------------------------------------------------------------ no short braces

  // Without pairs of braces that end early the leaves are the scalars in order
  // and zeros after them.
  lemma {:induction false} DenseSpread(t: Type, g: Given)
    requires Good(t) && Valid(t, g, false)
    ensures |Scalars(g)| <= Count(t) && Spread(t, g) == Padded(Scalars(g), Count(t))
    ensures Filled(t, g, false) ==> |Scalars(g)| == Count(t)
    decreases g, 0
  {
    PartsDecide(t, g, false);
    match t
    case Scalar =>
    case Array(n, elem) =>
      DenseElems(n, elem, g.parts);
    case Struct(fields) =>
      DenseFields(fields, g.parts);
    case Union(members) =>
      DenseSpread(members[0], g.parts[0]);
      OnlyScalars(g.parts);
  }

  lemma OnlyScalars(parts: seq<Given>)
    requires |parts| == 1
    ensures ScalarsOf(parts) == Scalars(parts[0])
  {
    assert ScalarsOf(parts[1..]) == [];
  }

  // Zeros may be added part by part if only the last one lacks some.
  lemma JoinDense(first: seq<Init>, rest: seq<Init>, k: nat, more: nat)
    requires |first| <= k && |rest| <= more && (rest != [] ==> |first| == k)
    ensures Padded(first, k) + Padded(rest, more) == Padded(first + rest, k + more)
  {
  }

  lemma {:induction false} DenseElems(n: nat, elem: Type, parts: seq<Given>)
    requires Good(elem) && ElemsValid(n, elem, parts, false)
    ensures var all := Times(n, Count(elem));
      && |ScalarsOf(parts)| <= all && Padded(SpreadElems(elem, parts), all) == Padded(ScalarsOf(parts), all)
      && (ElemsFilled(n, elem, parts, false) ==> |ScalarsOf(parts)| == all)
    decreases parts, 0
  {
    hide Spread, Scalars, Good, Valid, Filled, Count, Padded;
    GoodTypesHaveZeros(elem);
    if parts != [] {
      var k, more := Count(elem), Times(n - 1, Count(elem));
      DenseSpread(elem, parts[0]);
      DenseElems(n - 1, elem, parts[1..]);
      SpreadIsWhole(elem, parts[0]);
      PaddedSplit(Spread(elem, parts[0]), SpreadElems(elem, parts[1..]), more);
      JoinDense(Scalars(parts[0]), ScalarsOf(parts[1..]), k, more);
    } else if n > 0 {
      TimesPositive(n, Count(elem));
    }
  }

  lemma {:induction false} TimesPositive(n: nat, k: nat)
    ensures n > 0 ==> Times(n, k) >= k
  {
  }

  lemma {:induction false} DenseFields(fields: seq<Type>, parts: seq<Given>)
    requires GoodFields(fields) && FieldsValid(fields, parts, false)
    ensures var all := CountFields(fields);
      && |ScalarsOf(parts)| <= all && Padded(SpreadFields(fields, parts), all) == Padded(ScalarsOf(parts), all)
      && (FieldsFilled(fields, parts, false) ==> |ScalarsOf(parts)| == all)
    decreases parts, 0
  {
    hide Spread, Scalars, Good, Valid, Filled, Count, Padded;
    if parts != [] {
      var k, more := Count(fields[0]), CountFields(fields[1..]);
      DenseSpread(fields[0], parts[0]);
      DenseFields(fields[1..], parts[1..]);
      SpreadIsWhole(fields[0], parts[0]);
      PaddedSplit(Spread(fields[0], parts[0]), SpreadFields(fields[1..], parts[1..]), more);
      JoinDense(Scalars(parts[0]), ScalarsOf(parts[1..]), k, more);
    }
  }

  // Braces that may end early are allowed where none does.
  lemma {:induction false} EarlyIsWeaker(t: Type, g: Given)
    ensures (Valid(t, g, false) ==> Valid(t, g, true)) && (Filled(t, g, false) ==> Filled(t, g, true))
    decreases g, 0
  {
    hide Valid, FilledInside;
    PartsDecide(t, g, false);
    PartsDecide(t, g, true);
    match t
    case Scalar =>
    case Array(n, elem) =>
      if g.Group? && n > 0 {
        EarlyElems(n, elem, g.parts);
      }
    case Struct(fields) =>
      if g.Group? {
        EarlyFields(fields, g.parts);
      }
    case Union(members) =>
      if g.Group? && members != [] && g.parts != [] {
        EarlyIsWeaker(members[0], g.parts[0]);
      }
  }

  lemma {:induction false} EarlyElems(n: nat, elem: Type, parts: seq<Given>)
    ensures ElemsValid(n, elem, parts, false) ==> ElemsValid(n, elem, parts, true)
    ensures ElemsFilled(n, elem, parts, false) ==> ElemsFilled(n, elem, parts, true)
    decreases parts, 0
  {
    hide Valid, Filled;
    if parts != [] && n > 0 {
      EarlyIsWeaker(elem, parts[0]);
      EarlyElems(n - 1, elem, parts[1..]);
    }
  }

  lemma {:induction false} EarlyFields(fields: seq<Type>, parts: seq<Given>)
    ensures FieldsValid(fields, parts, false) ==> FieldsValid(fields, parts, true)
    ensures FieldsFilled(fields, parts, false) ==> FieldsFilled(fields, parts, true)
    decreases parts, 0
  {
    hide Valid, Filled;
    if parts != [] && fields != [] {
      EarlyIsWeaker(fields[0], parts[0]);
      EarlyFields(fields[1..], parts[1..]);
    }
  }

  lemma SpreadIsWhole(t: Type, g: Given)
    requires Good(t) && Valid(t, g, false)
    ensures Valid(t, g, true) && |Spread(t, g)| == Count(t)
  {
    EarlyIsWeaker(t, g);
    BuiltLeaves(t, g);
  }

  // -------------------------------------------------------------- plain scalars

  // What a list of plain scalars gives.
  ghost function InOrder(t: Type, flat: seq<Init>): Given
    requires Good(t) && AllScalar(flat) && flat != []
    decreases t, 1, 0
  {
    match t
    case Scalar => Item(false, flat[0].v)
    case Array(n, elem) => Group(false, InOrderElems(n, elem, flat))
    case Struct(fields) => Group(false, InOrderFields(fields, flat))
    case Union(members) => Group(false, [InOrder(members[0], flat)])
  }

  ghost function InOrderElems(n: nat, elem: Type, flat: seq<Init>): seq<Given>
    requires Good(elem) && AllScalar(flat)
    decreases elem, 2, n
  {
    if n == 0 || flat == [] then []
    else
      GoodTypesHaveZeros(elem);
      [InOrder(elem, Take(flat, Count(elem)))] + InOrderElems(n - 1, elem, Drop(flat, Count(elem)))
  }

  ghost function InOrderFields(fields: seq<Type>, flat: seq<Init>): seq<Given>
    requires GoodFields(fields) && AllScalar(flat)
    decreases fields, 0, 0
  {
    if fields == [] || flat == [] then []
    else
      GoodTypesHaveZeros(fields[0]);
      var k := Count(fields[0]);
      [InOrder(fields[0], Take(flat, k))] + InOrderFields(fields[1..], Drop(flat, k))
  }

  // The scalars go in without braces, as many as the type has leaves.
  ghost predicate TakesThem(g: Given, flat: seq<Init>, k: nat) {
    !g.braced && Scalars(g) == Inside(g) == Take(flat, k)
  }

  ghost predicate PartsTakeThem(parts: seq<Given>, flat: seq<Init>, k: nat) {
    && (parts != [] ==> !parts[0].braced)
    && ScalarsOf(parts) == WriteAll(parts) == Take(flat, k)
  }

  lemma {:induction false} InOrderIsValid(t: Type, flat: seq<Init>)
    requires Good(t) && AllScalar(flat) && flat != []
    ensures var g := InOrder(t, flat);
      && Valid(t, g, false) && (|flat| >= Count(t) ==> Filled(t, g, false)) && TakesThem(g, flat, Count(t))
    decreases t, 1, 0
  {
    PartsDecide(t, InOrder(t, flat), false);
    match t
    case Scalar =>
    case Array(n, elem) =>
      InOrderElemsAreValid(n, elem, flat);
    case Struct(fields) =>
      InOrderFieldsAreValid(fields, flat);
    case Union(members) =>
      var part := InOrder(members[0], flat);
      InOrderIsValid(members[0], flat);
      OnlyPart([part]);
      OnlyScalars([part]);
  }

  lemma TakeSplit(flat: seq<Init>, k: nat, more: nat)
    ensures Take(Take(flat, k), k) == Take(flat, k)
    ensures Take(flat, k) + Take(Drop(flat, k), more) == Take(flat, k + more)
  {
  }

  // A part in front of others, which are there only if it is filled.
  lemma JoinInOrder(first: Given, rest: seq<Given>, flat: seq<Init>, k: nat, more: nat)
    requires TakesThem(first, Take(flat, k), k) && PartsTakeThem(rest, Drop(flat, k), more)
    ensures PartsTakeThem([first] + rest, flat, k + more)
  {
    var parts := [first] + rest;
    assert parts[1..] == rest;
    TakeSplit(flat, k, more);
    assert WriteAll(parts) == Write(first) + WriteAll(rest);
  }

  lemma {:induction false} InOrderElemsAreValid(n: nat, elem: Type, flat: seq<Init>)
    requires Good(elem) && AllScalar(flat)
    ensures var parts := InOrderElems(n, elem, flat);
      && (parts != [] <==> n > 0 && flat != []) && ElemsValid(n, elem, parts, false)
      && (|flat| >= Times(n, Count(elem)) ==> ElemsFilled(n, elem, parts, false))
      && PartsTakeThem(parts, flat, Times(n, Count(elem)))
    decreases elem, 2, n
  {
    hide InOrder, Valid, Filled, Good, Count, TakesThem, PartsTakeThem;
    GoodTypesHaveZeros(elem);
    if n == 0 || flat == [] {
      NoPartsTakeNone(flat, Times(n, Count(elem)));
      TimesPositive(n, Count(elem));
    } else {
      var k, rest := Count(elem), InOrderElems(n - 1, elem, Drop(flat, Count(elem)));
      var first := InOrder(elem, Take(flat, k));
      InOrderIsValid(elem, Take(flat, k));
      InOrderElemsAreValid(n - 1, elem, Drop(flat, k));
      JoinInOrder(first, rest, flat, k, Times(n - 1, k));
      assert ([first] + rest)[1..] == rest;
    }
  }

  lemma NoPartsTakeNone(flat: seq<Init>, k: nat)
    requires flat == [] || k == 0
    ensures PartsTakeThem([], flat, k)
  {
  }

  lemma {:induction false} InOrderFieldsAreValid(fields: seq<Type>, flat: seq<Init>)
    requires GoodFields(fields) && AllScalar(flat)
    ensures var parts := InOrderFields(fields, flat);
      && (parts != [] <==> fields != [] && flat != []) && FieldsValid(fields, parts, false)
      && (|flat| >= CountFields(fields) ==> FieldsFilled(fields, parts, false))
      && PartsTakeThem(parts, flat, CountFields(fields))
    decreases fields, 0, 0
  {
    hide InOrder, Valid, Filled, Good, Count, TakesThem, PartsTakeThem;
    GoodFieldsHaveZeros(fields);
    if fields == [] || flat == [] {
      NoPartsTakeNone(flat, CountFields(fields));
    } else {
      GoodTypesHaveZeros(fields[0]);
      var k := Count(fields[0]);
      var first, rest := InOrder(fields[0], Take(flat, k)), InOrderFields(fields[1..], Drop(flat, k));
      InOrderIsValid(fields[0], Take(flat, k));
      InOrderFieldsAreValid(fields[1..], Drop(flat, k));
      JoinInOrder(first, rest, flat, k, CountFields(fields[1..]));
      assert ([first] + rest)[1..] == rest;
    }
  }

  // The value whose leaves are flat and zeros after it.
  ghost function Fill(t: Type, flat: seq<Init>): Value
    requires Good(t) && AllScalar(flat) && flat != []
  {
    InOrderIsValid(t, flat);
    EarlyIsWeaker(t, InOrder(t, flat));
    Built(t, InOrder(t, flat))
  }

  lemma FilledLeaves(t: Type, flat: seq<Init>)
    requires Good(t) && AllScalar(flat) && flat != []
    ensures Leaves(Fill(t, flat)) == Padded(flat, Count(t))
  {
    var g := InOrder(t, flat);
    InOrderIsValid(t, flat);
    EarlyIsWeaker(t, g);
    BuiltLeaves(t, g);
    DenseSpread(t, g);
    assert Padded(Take(flat, Count(t)), Count(t)) == Padded(flat, Count(t));
  }

  // ------------------------------------------------------------- without braces

  ghost function Elided(g: Given): Given {
    match g
    case Item(_, v) => Item(false, v)
    case Group(_, parts) => Group(false, AllElided(parts))
  }

  ghost function AllElided(parts: seq<Given>): (r: seq<Given>)
    ensures |r| == |parts|
  {
    if parts == [] then [] else [Elided(parts[0])] + AllElided(parts[1..])
  }

  // Leaving out braces that do not end early changes nothing.
  lemma {:induction false} ElidedIsSame(t: Type, g: Given)
    requires Good(t) && Valid(t, g, false)
    ensures Valid(t, g, true) && Valid(t, Elided(g), false) && Valid(t, Elided(g), true)
    ensures Built(t, Elided(g)) == Built(t, g) && Inside(Elided(g)) == Scalars(g)
    ensures Filled(t, g, false) ==> Filled(t, Elided(g), false)
    decreases g, 0
  {
    PartsDecide(t, g, false);
    PartsDecide(t, Elided(g), false);
    match t
    case Scalar =>
    case Array(n, elem) =>
      ElemsElided(n, elem, g.parts);
    case Struct(fields) =>
      FieldsElided(fields, g.parts);
    case Union(members) =>
      ElidedIsSame(members[0], g.parts[0]);
      OnlyPart(AllElided(g.parts));
      OnlyScalars(g.parts);
    EarlyIsWeaker(t, g);
    EarlyIsWeaker(t, Elided(g));
  }

  lemma {:induction false} ElemsElided(n: nat, elem: Type, parts: seq<Given>)
    requires Good(elem) && ElemsValid(n, elem, parts, false)
    ensures ElemsValid(n, elem, parts, true)
    ensures ElemsValid(n, elem, AllElided(parts), false) && ElemsValid(n, elem, AllElided(parts), true)
    ensures BuiltElems(n, elem, AllElided(parts)) == BuiltElems(n, elem, parts)
    ensures WriteAll(AllElided(parts)) == ScalarsOf(parts)
    ensures ElemsFilled(n, elem, parts, false) ==> ElemsFilled(n, elem, AllElided(parts), false)
    ensures parts != [] ==> !AllElided(parts)[0].braced
    decreases parts, 0
  {
    hide Valid, Filled, Built, Good, Inside, Scalars;
    EarlyElems(n, elem, parts);
    EarlyElems(n, elem, AllElided(parts));
    if parts != [] {
      ElidedIsSame(elem, parts[0]);
      ElemsElided(n - 1, elem, parts[1..]);
      assert AllElided(parts)[1..] == AllElided(parts[1..]);
      EarlyElems(n, elem, AllElided(parts));
    }
  }

  lemma {:induction false} FieldsElided(fields: seq<Type>, parts: seq<Given>)
    requires GoodFields(fields) && FieldsValid(fields, parts, false)
    ensures FieldsValid(fields, parts, true)
    ensures FieldsValid(fields, AllElided(parts), false) && FieldsValid(fields, AllElided(parts), true)
    ensures BuiltFields(fields, AllElided(parts)) == BuiltFields(fields, parts)
    ensures WriteAll(AllElided(parts)) == ScalarsOf(parts)
    ensures FieldsFilled(fields, parts, false) ==> FieldsFilled(fields, AllElided(parts), false)
    ensures parts != [] ==> !AllElided(parts)[0].braced
    decreases parts, 0
  {
    hide Valid, Filled, Built, Good, Inside, Scalars;
    EarlyFields(fields, parts);
    EarlyFields(fields, AllElided(parts));
    if parts != [] {
      ElidedIsSame(fields[0], parts[0]);
      FieldsElided(fields[1..], parts[1..]);
      assert AllElided(parts)[1..] == AllElided(parts[1..]);
      EarlyFields(fields, AllElided(parts));
    }
  }

  // ----------------------------------------------------------- main results

  // If no inner braces end early, the list of the scalars alone elaborates to
  // the same value, whose leaves are the scalars in order and zeros after them.
  lemma ElidedEqualsBraced(t: Type, g: Given) returns (v: Value)
    requires Good(t) && Valid(t, g, false)
    ensures var list, flat := Inside(g), Scalars(g);
      && list != [] && flat != [] && Wellformed(list) && Wellformed(flat)
      && Elaborate(list, 0, t, false) == Ok(Elab(v, |list|))
      && Elaborate(flat, 0, t, false) == Ok(Elab(v, |flat|))
      && |flat| <= Count(t) && Leaves(v) == Padded(flat, Count(t))
  {
    hide Elaborate, Built, Inside, Good, Valid, Spread, Scalars;
    ElidedIsSame(t, g);
    v := Built(t, g);
    ElaborationSpreads(t, g);
    ElaborationSpreads(t, Elided(g));
    DenseSpread(t, g);
  }

  function Min(a: int, b: int): int {
    if a < b then a else b
  }

  // Of the plain scalars from pos on, a type takes as many as it has leaves,
  // or all that are left.
  lemma TakesItsLeaves(items: seq<Init>, pos: nat, t: Type, goDown: bool)
    requires Good(t) && pos < |items| && AllScalar(items)
    ensures Wellformed(items) && Count(t) >= 1 && Elaborate(items, pos, t, goDown)
      == Ok(Elab(Fill(t, Take(items[pos..], Count(t))), pos + Min(Count(t), |items| - pos)))
  {
    hide Elaborate, Built, Good, Valid, Count, FilledInside, InOrder, Inside, Scalars;
    GoodTypesHaveZeros(t);
    var flat := Take(items[pos..], Count(t));
    var g := InOrder(t, flat);
    InOrderIsValid(t, flat);
    EarlyIsWeaker(t, g);
    assert Take(flat, Count(t)) == flat;
    assert At(items, pos, flat);
    ElaborateInside(items, pos, t, g, goDown);
  }

  // ------------------------------------------------------------------- examples

  // Braces may be written for some subobjects and left out for others of the
  // same type.
  lemma PartlyBraced(a: int, b: int, c: int, d: int)
    ensures var g := Group(true, [Group(true, [Item(false, a), Item(false, b)]),
                                  Group(false, [Item(false, c), Item(false, d)])]);
      && Good(Array(2, Array(2, Scalar))) && Valid(Array(2, Array(2, Scalar)), g, false)
      && Inside(g) == [Braced([Expr(a), Expr(b)]), Expr(c), Expr(d)]
  {
    TwoItems(true, a, b);
    TwoItems(false, c, d);
    var first, second := Group(true, [Item(false, a), Item(false, b)]), Group(false, [Item(false, c), Item(false, d)]);
    TwoParts(Array(2, Scalar), first, second, false);
  }

  lemma TwoItems(braced: bool, a: int, b: int)
    ensures var g := Group(braced, [Item(false, a), Item(false, b)]);
      && Valid(Array(2, Scalar), g, false) && Filled(Array(2, Scalar), g, false)
      && Inside(g) == [Expr(a), Expr(b)]
  {
    var first, second := Item(false, a), Item(false, b);
    var g := Group(braced, [first, second]);
    TwoParts(Scalar, first, second, false);
    PartsDecide(Array(2, Scalar), g, false);
    assert Filled(Scalar, second, false) && StartsWell(g);
    assert Write(first) + Write(second) == [Expr(a), Expr(b)];
  }

  lemma TwoParts(elem: Type, first: Given, second: Given, early: bool)
    requires Valid(elem, first, early) && Valid(elem, second, early) && Filled(elem, first, early)
    ensures WriteAll([first, second]) == Write(first) + Write(second)
    ensures ElemsValid(2, elem, [first, second], early)
    ensures Filled(elem, second, early) ==> ElemsFilled(2, elem, [first, second], early)
    ensures SpreadElems(elem, [first, second]) == Spread(elem, first) + Spread(elem, second)
  {
    var parts := [first, second];
    assert parts[1..] == [second] && [second][1..] == [];
    assert ElemsValid(0, elem, [], early) && ElemsFilled(0, elem, [], early);
    assert ElemsValid(1, elem, [second], early);
    assert WriteAll([second]) == Write(second) + WriteAll([]);
    assert SpreadElems(elem, [second]) == Spread(elem, second) + SpreadElems(elem, []);
  }

  // Rows in braces that end early are filled with zeros.
  lemma ShortRows(a: int, c: int)
    ensures var t := Array(2, Array(2, Scalar));
      var g := Group(true, [Group(true, [Item(false, a)]), Group(true, [Item(false, c)])]);
      && Good(t) && Valid(t, g, true) && Inside(g) == [Braced([Expr(a)]), Braced([Expr(c)])]
      && Spread(t, g) == [Expr(a), Expr(0), Expr(c), Expr(0)]
  {
    ShortRow(a);
    ShortRow(c);
    var row := Array(2, Scalar);
    TwoParts(row, Group(true, [Item(false, a)]), Group(true, [Item(false, c)]), true);
    assert Count(row) == Times(2, 1) == 2 && Times(2, 2) == 4;
  }

  lemma ShortRow(a: int)
    ensures var row, g := Array(2, Scalar), Group(true, [Item(false, a)]);
      && Valid(row, g, true) && Filled(row, g, true)
      && Inside(g) == [Expr(a)] && Spread(row, g) == [Expr(a), Expr(0)]
  {
    var parts := [Item(false, a)];
    assert parts[1..] == [];
    assert ElemsValid(1, Scalar, [], true) && ElemsValid(2, Scalar, parts, true);
    assert WriteAll(parts) == Write(parts[0]) + WriteAll([]);
    assert SpreadElems(Scalar, parts) == Spread(Scalar, parts[0]) + SpreadElems(Scalar, []);
    assert Count(Array(2, Scalar)) == Times(2, 1) == 2;
  }
}

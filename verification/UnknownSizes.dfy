// Arrays whose size is that of their initialiser: when the loop over the
// elements ends, and how many there are.
module UnknownSizes {
  import opened Initializers
  import opened BraceElision
  import opened GivenLists

  // A type with a leaf moves the cursor, whatever the list holds ...
  lemma {:induction false} Advances(items: seq<Init>, pos: nat, t: Type, goDown: bool)
    requires pos < |items| && Wellformed(items) && Count(t) >= 1
    ensures Elaborate(items, pos, t, goDown).Ok? ==> pos < Elaborate(items, pos, t, goDown).value.pos
    decreases t, 1, 0
  {
    if !(goDown && items[pos].Braced?) {
      match t
      case Scalar =>
      case Array(n, elem) =>
        if 0 < n <= MAX_ARRAY_SIZE {
          TimesZero(n);
          Advances(items, pos, elem, true);
        }
      case Struct(fields) =>
        FieldsAdvance(items, pos, fields);
      case Union(members) =>
        Advances(items, pos, members[0], true);
    }
  }

  lemma {:induction false} TimesZero(n: nat)
    ensures Times(n, 0) == 0
  {
    if n > 0 {
      TimesZero(n - 1);
    }
  }

  lemma {:induction false} FieldsAdvance(items: seq<Init>, pos: nat, fields: seq<Type>)
    requires pos < |items| && Wellformed(items) && CountFields(fields) >= 1
    ensures ElaborateFields(items, pos, fields).Ok? ==> pos < ElaborateFields(items, pos, fields).value.pos
    decreases fields, 0, 0
  {
    if Count(fields[0]) >= 1 {
      Advances(items, pos, fields[0], true);
    } else {
      var e := Elaborate(items, pos, fields[0], true);
      if e.Ok? && e.value.pos == pos {
        FieldsAdvance(items, pos, fields[1..]);
      }
    }
  }

  // ... and one without leaves does not move it past a plain scalar, so an
  // array of unknown size with such elements would take scalars for ever.
  lemma {:induction false} StuckWithoutLeaves(items: seq<Init>, pos: nat, t: Type, goDown: bool)
    requires pos < |items| && Wellformed(items) && Count(t) == 0 && (goDown ==> items[pos].Expr?)
    requires items[pos].Expr?
    ensures Elaborate(items, pos, t, goDown).Ok? ==> Elaborate(items, pos, t, goDown).value.pos == pos
    decreases t, 1, 0
  {
    match t
    case Scalar =>
    case Array(n, elem) =>
      if 0 <= n <= MAX_ARRAY_SIZE {
        StuckElems(items, pos, n, elem);
      }
    case Struct(fields) =>
      StuckFields(items, pos, fields);
    case Union(members) =>
      if members != [] {
        StuckWithoutLeaves(items, pos, members[0], true);
      }
  }

  lemma {:induction false} StuckElems(items: seq<Init>, pos: nat, n: nat, elem: Type)
    requires pos < |items| && Wellformed(items) && Times(n, Count(elem)) == 0 && items[pos].Expr?
    ensures ElaborateElems(items, pos, n, elem).Ok? ==> ElaborateElems(items, pos, n, elem).value.pos == pos
    decreases elem, 2, n
  {
    if n > 0 {
      StuckWithoutLeaves(items, pos, elem, true);
      StuckElems(items, pos, n - 1, elem);
    }
  }

  lemma {:induction false} StuckFields(items: seq<Init>, pos: nat, fields: seq<Type>)
    requires pos < |items| && Wellformed(items) && CountFields(fields) == 0 && items[pos].Expr?
    ensures ElaborateFields(items, pos, fields).Ok? ==> ElaborateFields(items, pos, fields).value.pos == pos
    decreases fields, 0, 0
  {
    if fields != [] {
      StuckWithoutLeaves(items, pos, fields[0], true);
      StuckFields(items, pos, fields[1..]);
    }
  }

  // ----------------------------------------------------- arrays of unknown size

  // The loop over the elements ends: each one moves the cursor or throws.
  ghost predicate Ends(items: seq<Init>, pos: nat, elem: Type)
    requires pos <= |items| && Wellformed(items)
    decreases |items| - pos
  {
    pos == |items|
    || var e := Elaborate(items, pos, elem, true);
       e.Thrown? || (e.value.pos > pos && Ends(items, e.value.pos, elem))
  }

  // do_initializer_incomplete_array: elements until the list is used up.
  ghost function ElaborateAll(items: seq<Init>, pos: nat, elem: Type): Result<seq<Value>>
    requires pos <= |items| && Wellformed(items) && Ends(items, pos, elem)
    decreases |items| - pos
  {
    if pos == |items| then Ok([])
    else
      var e :- Elaborate(items, pos, elem, true);
      var rest :- ElaborateAll(items, e.pos, elem);
      Ok([e.part] + rest)
  }

  // Types without leaves that throw at a plain scalar.
  ghost predicate Refused(t: Type) {
    match t
    case Scalar => false
    case Array(n, elem) => n < 0 || n > MAX_ARRAY_SIZE || (n > 0 && Refused(elem))
    case Struct(fields) => AnyRefused(fields)
    case Union(members) => members == [] || Refused(members[0])
  }

  ghost predicate AnyRefused(fields: seq<Type>) {
    fields != [] && (Refused(fields[0]) || AnyRefused(fields[1..]))
  }

  lemma {:induction false} RefusedThrows(items: seq<Init>, pos: nat, t: Type, goDown: bool)
    requires pos < |items| && Wellformed(items) && Count(t) == 0 && items[pos].Expr?
    ensures Elaborate(items, pos, t, goDown).Thrown? <==> Refused(t)
    decreases t, 1, 0
  {
    match t
    case Array(n, elem) =>
      if 0 <= n <= MAX_ARRAY_SIZE {
        RefusedElemsThrow(items, pos, n, elem);
      }
    case Struct(fields) =>
      RefusedFieldsThrow(items, pos, fields);
    case Union(members) =>
      if members != [] {
        RefusedThrows(items, pos, members[0], true);
      }
    case Scalar =>
  }

  lemma {:induction false} RefusedElemsThrow(items: seq<Init>, pos: nat, n: nat, elem: Type)
    requires pos < |items| && Wellformed(items) && Times(n, Count(elem)) == 0 && items[pos].Expr?
    ensures ElaborateElems(items, pos, n, elem).Thrown? <==> (n > 0 && Refused(elem))
    decreases elem, 2, n
  {
    if n > 0 {
      StuckWithoutLeaves(items, pos, elem, true);
      RefusedThrows(items, pos, elem, true);
      RefusedElemsThrow(items, pos, n - 1, elem);
    }
  }

  lemma {:induction false} RefusedFieldsThrow(items: seq<Init>, pos: nat, fields: seq<Type>)
    requires pos < |items| && Wellformed(items) && CountFields(fields) == 0 && items[pos].Expr?
    ensures ElaborateFields(items, pos, fields).Thrown? <==> AnyRefused(fields)
    decreases fields, 0, 0
  {
    if fields != [] {
      StuckWithoutLeaves(items, pos, fields[0], true);
      RefusedThrows(items, pos, fields[0], true);
      RefusedFieldsThrow(items, pos, fields[1..]);
    }
  }

  // Types that have no zero value.
  ghost predicate Unzeroable(t: Type) {
    match t
    case Scalar => false
    case Array(n, elem) => n < 0 || Unzeroable(elem)
    case Struct(fields) => AnyUnzeroable(fields)
    case Union(members) => members == [] || Unzeroable(members[0])
  }

  ghost predicate AnyUnzeroable(fields: seq<Type>) {
    fields != [] && (Unzeroable(fields[0]) || AnyUnzeroable(fields[1..]))
  }

  lemma {:induction false} UnzeroableThrows(t: Type)
    ensures Zero(t).Thrown? <==> Unzeroable(t)
    decreases t, 0
  {
    match t
    case Scalar =>
    case Array(n, elem) =>
      UnzeroableThrows(elem);
    case Struct(fields) =>
      AnyUnzeroableThrows(fields);
    case Union(members) =>
      if members != [] {
        UnzeroableThrows(members[0]);
      }
  }

  lemma {:induction false} AnyUnzeroableThrows(fields: seq<Type>)
    ensures ZeroFields(fields).Thrown? <==> AnyUnzeroable(fields)
    decreases fields, 0
  {
    if fields != [] {
      UnzeroableThrows(fields[0]);
      AnyUnzeroableThrows(fields[1..]);
    }
  }

  // Lists in braces that a type without leaves refuses.  Its parts take the
  // braced items one by one; those for which nothing is left must have a zero
  // value, and a plain scalar is where the others get stuck.
  ghost predicate Denied(items: seq<Init>, t: Type)
    decreases t, 1, 0
  {
    match t
    case Scalar => false
    case Array(n, elem) => n < 0 || n > MAX_ARRAY_SIZE || ElemsDenied(items, n, elem)
    case Struct(fields) => FieldsDenied(items, fields)
    case Union(members) =>
      members == [] || (items != [] &&
        if items[0].Expr? then Refused(members[0]) else Denied(items[0].items, members[0]))
  }

  ghost predicate ElemsDenied(items: seq<Init>, n: nat, elem: Type)
    decreases elem, 2, n
  {
    n > 0 &&
      if items == [] then Unzeroable(elem)
      else if items[0].Expr? then Refused(elem)
      else Denied(items[0].items, elem) || ElemsDenied(items[1..], n - 1, elem)
  }

  ghost predicate FieldsDenied(items: seq<Init>, fields: seq<Type>)
    decreases fields, 0, 0
  {
    fields != [] &&
      if items == [] then AnyUnzeroable(fields)
      else if items[0].Expr? then AnyRefused(fields)
      else Denied(items[0].items, fields[0]) || FieldsDenied(items[1..], fields[1..])
  }

  lemma BracedStep(items: seq<Init>, pos: nat, t: Type)
    requires pos < |items| && Wellformed(items) && items[pos].Braced?
    ensures items[pos].items != [] && Wellformed(items[pos].items)
    ensures var e, inner := Elaborate(items, pos, t, true), Elaborate(items[pos].items, 0, t, false);
      (e.Thrown? <==> inner.Thrown?) && (e.Ok? ==> e.value.pos == pos + 1)
  {
    assert NoEmptyBraces(items[pos]);
  }

  lemma {:induction false} DeniedThrows(items: seq<Init>, t: Type)
    requires items != [] && Wellformed(items) && Count(t) == 0
    ensures Elaborate(items, 0, t, false).Thrown? <==> Denied(items, t)
    decreases t, 1, 0
  {
    assert items[0..] == items;
    match t
    case Array(n, elem) =>
      if 0 <= n <= MAX_ARRAY_SIZE {
        ElemsDeniedThrow(items, 0, n, elem);
      }
    case Struct(fields) =>
      FieldsDeniedThrow(items, 0, fields);
    case Union(members) =>
      if members != [] {
        MemberDeniedThrows(items, members[0]);
      }
    case Scalar =>
  }

  lemma {:induction false} MemberDeniedThrows(items: seq<Init>, t: Type)
    requires items != [] && Wellformed(items) && Count(t) == 0
    ensures Elaborate(items, 0, t, true).Thrown?
      <==> if items[0].Expr? then Refused(t) else Denied(items[0].items, t)
    decreases t, 1, 1
  {
    if items[0].Expr? {
      RefusedThrows(items, 0, t, true);
    } else {
      BracedStep(items, 0, t);
      DeniedThrows(items[0].items, t);
    }
  }

  lemma {:induction false} ElemsDeniedThrow(items: seq<Init>, pos: nat, n: nat, elem: Type)
    requires pos <= |items| && Wellformed(items) && Times(n, Count(elem)) == 0
    ensures ElaborateElems(items, pos, n, elem).Thrown? <==> ElemsDenied(items[pos..], n, elem)
    decreases elem, 2, n
  {
    hide Elaborate;
    if n > 0 {
      if pos == |items| {
        UnzeroableThrows(elem);
      } else if items[pos].Expr? {
        RefusedElemsThrow(items, pos, n, elem);
      } else {
        BracedStep(items, pos, elem);
        DeniedThrows(items[pos].items, elem);
        ElemsDeniedThrow(items, pos + 1, n - 1, elem);
        assert items[pos..][1..] == items[pos + 1..];
      }
    }
  }

  lemma {:induction false} FieldsDeniedThrow(items: seq<Init>, pos: nat, fields: seq<Type>)
    requires pos <= |items| && Wellformed(items) && CountFields(fields) == 0
    ensures ElaborateFields(items, pos, fields).Thrown? <==> FieldsDenied(items[pos..], fields)
    decreases fields, 0, 0
  {
    hide Elaborate;
    if fields != [] {
      if pos == |items| {
        UnzeroableThrows(fields[0]);
        FieldsDeniedThrow(items, pos, fields[1..]);
        assert items[pos..] == [];
        assert FieldsDenied([], fields[1..]) <==> AnyUnzeroable(fields[1..]);
      } else if items[pos].Expr? {
        RefusedFieldsThrow(items, pos, fields);
      } else {
        BracedStep(items, pos, fields[0]);
        DeniedThrows(items[pos].items, fields[0]);
        FieldsDeniedThrow(items, pos + 1, fields[1..]);
        assert items[pos..][1..] == items[pos + 1..];
      }
    }
  }

  // Every plain scalar comes after a list in braces that the type refuses.
  ghost predicate DeniedFirst(items: seq<Init>, pos: nat, elem: Type) {
    forall j :: pos <= j < |items| && items[j].Expr? ==>
      exists i :: pos <= i < j && items[i].Braced? && Denied(items[i].items, elem)
  }

  lemma {:induction false} EndsWithLeaves(items: seq<Init>, pos: nat, elem: Type)
    requires pos <= |items| && Wellformed(items) && Count(elem) >= 1
    ensures Ends(items, pos, elem)
    decreases |items| - pos
  {
    hide Elaborate;
    if pos < |items| {
      Advances(items, pos, elem, true);
      var e := Elaborate(items, pos, elem, true);
      if e.Ok? {
        EndsWithLeaves(items, e.value.pos, elem);
      }
    }
  }

  lemma {:induction false} EndsWithoutLeaves(items: seq<Init>, pos: nat, elem: Type)
    requires pos <= |items| && Wellformed(items) && Count(elem) == 0
    ensures Ends(items, pos, elem) <==> (Refused(elem) || DeniedFirst(items, pos, elem))
    decreases |items| - pos
  {
    hide Elaborate, Denied;
    if pos < |items| {
      if items[pos].Expr? {
        RefusedThrows(items, pos, elem, true);
        StuckWithoutLeaves(items, pos, elem, true);
      } else {
        BracedStep(items, pos, elem);
        DeniedThrows(items[pos].items, elem);
        EndsWithoutLeaves(items, pos + 1, elem);
        DeniedLater(items, pos, elem);
      }
    }
  }

  lemma DeniedLater(items: seq<Init>, pos: nat, elem: Type)
    requires pos < |items| && items[pos].Braced?
    ensures DeniedFirst(items, pos, elem)
      <==> (Denied(items[pos].items, elem) || DeniedFirst(items, pos + 1, elem))
  {
    hide Denied;
    if DeniedFirst(items, pos, elem) && !Denied(items[pos].items, elem) {
      forall j | pos + 1 <= j < |items| && items[j].Expr?
        ensures exists i :: pos + 1 <= i < j && items[i].Braced? && Denied(items[i].items, elem)
      {
        var i :| pos <= i < j && items[i].Braced? && Denied(items[i].items, elem);
        assert i != pos;
      }
    }
    if DeniedFirst(items, pos + 1, elem) {
      forall j | pos <= j < |items| && items[j].Expr?
        ensures exists i :: pos <= i < j && items[i].Braced? && Denied(items[i].items, elem)
      {
        assert j != pos;
        var i :| pos + 1 <= i < j && items[i].Braced? && Denied(items[i].items, elem);
      }
    }
  }

  // The loop ends exactly when the element type has a leaf or is refused, or no
  // plain scalar is reached.
  lemma EndsExactly(items: seq<Init>, pos: nat, elem: Type)
    requires pos <= |items| && Wellformed(items)
    ensures Ends(items, pos, elem) <==> (Count(elem) >= 1 || Refused(elem) || DeniedFirst(items, pos, elem))
  {
    if Count(elem) >= 1 {
      EndsWithLeaves(items, pos, elem);
    } else {
      EndsWithoutLeaves(items, pos, elem);
    }
  }

  // n scalars make the ceiling of n / k elements, the last one padded.
  lemma {:induction false} UnknownSize(items: seq<Init>, pos: nat, elem: Type)
    requires pos <= |items| && AllScalar(items) && Good(elem)
    ensures Wellformed(items) && Count(elem) >= 1 && Ends(items, pos, elem) && ElaborateAll(items, pos, elem).Ok?
    ensures var n, k, vs := |items| - pos, Count(elem), ElaborateAll(items, pos, elem).value;
      && n <= Times(|vs|, k) < n + k
      && LeavesOf(vs) == items[pos..] + Zeros(Times(|vs|, k) - n)
    decreases |items| - pos
  {
    hide Elaborate, ElaborateAll, Ends, Fill, Count, Good, Leaves, LeavesOf, Padded, Zeros, Times;
    GoodTypesHaveZeros(elem);
    if pos == |items| {
      NoElements(items, elem);
    } else {
      var next := OneElement(items, pos, elem);
      UnknownSize(items, next, elem);
      var k, rest := Count(elem), ElaborateAll(items, next, elem).value;
      LeavesCons(Fill(elem, Take(items[pos..], k)), rest);
      TimesNext(|rest|, k);
      TimesPositive(|rest|, k);
      LastElementPadded(items, pos, next, k, Times(|rest|, k));
    }
  }

  lemma NoElements(items: seq<Init>, elem: Type)
    requires AllScalar(items)
    ensures Wellformed(items) && Ends(items, |items|, elem) && ElaborateAll(items, |items|, elem) == Ok([])
    ensures LeavesOf([]) == items[|items|..] + Zeros(0) && Times(0, Count(elem)) == 0
  {
  }

  lemma TimesNext(n: nat, k: nat)
    ensures Times(n + 1, k) == k + Times(n, k) && (n == 0 ==> Times(n, k) == 0)
  {
  }

  lemma OneElement(items: seq<Init>, pos: nat, elem: Type) returns (next: nat)
    requires pos < |items| && AllScalar(items) && Good(elem)
    ensures Wellformed(items) && Count(elem) >= 1 && next == pos + Min(Count(elem), |items| - pos)
    ensures Ends(items, pos, elem) && Ends(items, next, elem)
    ensures ElaborateAll(items, next, elem).Ok? ==>
      (ElaborateAll(items, pos, elem)
       == Ok([Fill(elem, Take(items[pos..], Count(elem)))] + ElaborateAll(items, next, elem).value))
    ensures Leaves(Fill(elem, Take(items[pos..], Count(elem))))
         == Padded(Take(items[pos..], Count(elem)), Count(elem))
  {
    GoodTypesHaveZeros(elem);
    TakesItsLeaves(items, pos, elem, true);
    FilledLeaves(elem, Take(items[pos..], Count(elem)));
    next := pos + Min(Count(elem), |items| - pos);
    EndsWithLeaves(items, pos, elem);
    EndsWithLeaves(items, next, elem);
  }

  lemma LastElementPadded(items: seq<Init>, pos: nat, next: nat, k: nat, more: nat)
    requires pos < |items| && next == pos + Min(k, |items| - pos) && |items| - next <= more
    requires next == |items| ==> more == 0
    ensures Padded(Take(items[pos..], k), k) + (items[next..] + Zeros(more - (|items| - next)))
         == items[pos..] + Zeros(k + more - (|items| - pos))
  {
  }

  // A list of elements in braces or without, each filled unless it is in braces
  // or the last: one element for each, built from it.
  lemma {:induction false} UnknownSizeGiven(items: seq<Init>, pos: nat, elem: Type, parts: seq<Given>)
    requires Good(elem) && ElemsValid(|parts|, elem, parts, true) && Wellformed(items)
    requires At(items, pos, WriteAll(parts)) && pos + |WriteAll(parts)| == |items|
    ensures Ends(items, pos, elem)
    ensures ElaborateAll(items, pos, elem) == Ok(BuiltElems(|parts|, elem, parts))
    decreases |parts|
  {
    hide Elaborate, Built, Good, Valid, Filled, Write, Count;
    GoodTypesHaveZeros(elem);
    EndsWithLeaves(items, pos, elem);
    if parts != [] {
      var p := pos + |Write(parts[0])|;
      WriteAllParts(parts);
      AtSplit(items, pos, Write(parts[0]), WriteAll(parts[1..]));
      ElaborateWritten(items, pos, elem, parts[0]);
      UnknownSizeGiven(items, p, elem, parts[1..]);
    }
  }
}

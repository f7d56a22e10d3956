// Elaboration of brace-enclosed initialisers: a cursor runs over a list and
// the type decides how much of it each part takes.
module Initializers {

  datatype Type =
    | Scalar
    | Array(size: int, elem: Type)
    | Struct(fields: seq<Type>)
    | Union(members: seq<Type>)

  // An initialiser: a scalar expression or a list in braces.
  datatype Init = Expr(v: int) | Braced(items: seq<Init>)

  // The elaborated constant.  A leaf is the initialiser converted to the type
  // of the scalar; ArrayOf is an array whose elements are all the same.
  datatype Value =
    | Leaf(init: Init)
    | ArrayValue(elems: seq<Value>)
    | ArrayOf(size: nat, elem: Value)
    | StructValue(fields: seq<Value>)
    | UnionValue(member: Value)

  // An operation that may throw.
  datatype Result<+T> = Ok(value: T) | Thrown {
    predicate IsFailure() {
      Thrown?
    }

    function PropagateFailure<U>(): Result<U>
      requires Thrown?
    {
      Thrown
    }

    function Extract(): T
      requires Ok?
    {
      value
    }
  }

  const ZERO := Leaf(Expr(0))

  const MAX_ARRAY_SIZE := 1000000

  // An empty pair of braces is parsed as a designated list, not as this.
  ghost predicate NoEmptyBraces(i: Init) {
    i.Braced? ==> i.items != [] && forall k :: 0 <= k < |i.items| ==> NoEmptyBraces(i.items[k])
  }

  ghost predicate Wellformed(items: seq<Init>) {
    forall k :: 0 <= k < |items| ==> NoEmptyBraces(items[k])
  }

  // ------------------------------------------------ specification functions

  // zero_initializer.
  function Zero(t: Type): Result<Value> {
    match t
    case Scalar => Ok(ZERO)
    case Array(n, elem) =>
      var z :- Zero(elem);
      if n < 0 then Thrown else Ok(ArrayOf(n, z))
    case Struct(fields) =>
      var zs :- ZeroFields(fields);
      Ok(StructValue(zs))
    case Union(members) =>
      if members == [] then Thrown
      else
        var z :- Zero(members[0]);
        Ok(UnionValue(z))
  }

  function ZeroFields(fields: seq<Type>): (r: Result<seq<Value>>)
    ensures r.Ok? ==> |r.value| == |fields|
  {
    if fields == [] then Ok([])
    else
      var z :- Zero(fields[0]);
      var zs :- ZeroFields(fields[1..]);
      Ok([z] + zs)
  }

  // A part of the result and the cursor position after it.
  datatype Elab<T> = Elab(part: T, pos: nat)

  // do_initializer_rec on the list from position pos.
  function Elaborate(items: seq<Init>, pos: nat, t: Type, goDown: bool): (r: Result<Elab<Value>>)
    requires pos < |items| && Wellformed(items)
    ensures r.Ok? ==> pos <= r.value.pos <= |items|
    decreases t, if goDown then 1 else 0, 0
  {
    if goDown && items[pos].Braced? then
      assert NoEmptyBraces(items[pos]);
      var e :- Elaborate(items[pos].items, 0, t, false);
      Ok(Elab(e.part, pos + 1))
    else
      match t
      case Scalar => Ok(Elab(Leaf(items[pos]), pos + 1))
      case Array(n, elem) =>
        if n < 0 || n > MAX_ARRAY_SIZE then Thrown
        else
          var e :- ElaborateElems(items, pos, n, elem);
          Ok(Elab(ArrayValue(e.part), e.pos))
      case Struct(fields) =>
        var e :- ElaborateFields(items, pos, fields);
        Ok(Elab(StructValue(e.part), e.pos))
      case Union(members) =>
        if members == [] then Thrown
        else
          var e :- Elaborate(items, pos, members[0], true);
          Ok(Elab(UnionValue(e.part), e.pos))
  }

  // The next n elements of an array.
  function ElaborateElems(items: seq<Init>, pos: nat, n: nat, elem: Type): (r: Result<Elab<seq<Value>>>)
    requires pos <= |items| && Wellformed(items)
    ensures r.Ok? ==> pos <= r.value.pos <= |items| && |r.value.part| == n
    decreases elem, 2, n
  {
    if n == 0 then Ok(Elab([], pos))
    else if pos == |items| then
      var z :- Zero(elem);
      Ok(Elab(seq(n, i => z), pos))
    else
      var e :- Elaborate(items, pos, elem, true);
      var rest :- ElaborateElems(items, e.pos, n - 1, elem);
      Ok(Elab([e.part] + rest.part, rest.pos))
  }

  // The remaining fields of a struct.
  function ElaborateFields(items: seq<Init>, pos: nat, fields: seq<Type>): (r: Result<Elab<seq<Value>>>)
    requires pos <= |items| && Wellformed(items)
    ensures r.Ok? ==> pos <= r.value.pos <= |items| && |r.value.part| == |fields|
    decreases fields, 0, 0
  {
    if fields == [] then Ok(Elab([], pos))
    else if pos == |items| then
      var z :- Zero(fields[0]);
      var rest :- ElaborateFields(items, pos, fields[1..]);
      Ok(Elab([z] + rest.part, rest.pos))
    else
      var e :- Elaborate(items, pos, fields[0], true);
      var rest :- ElaborateFields(items, e.pos, fields[1..]);
      Ok(Elab([e.part] + rest.part, rest.pos))
  }
}

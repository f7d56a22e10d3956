// The elaboration as the converter performs it: a shared cursor that every
// part of the type advances.
module InitializerMethods {
  import opened Initializers
  import opened UnknownSizes

  // init_statet.
  class InitState {
    const list: seq<Init>
    var pos: nat

    constructor (list: seq<Init>)
      ensures this.list == list && pos == 0
    {
      this.list := list;
      pos := 0;
    }

    predicate HasNext()
      reads this
    {
      pos < |list|
    }

    function Current(): Init
      requires HasNext()
      reads this
    {
      list[pos]
    }

    method Next()
      modifies this
      ensures pos == old(pos) + 1
    {
      pos := pos + 1;
    }
  }

  // What a call returned and where it left the cursor, against the function
  // that specifies it.
  ghost predicate Agrees<T>(r: Result<T>, pos: nat, e: Result<Elab<T>>) {
    match e
    case Thrown => r.Thrown?
    case Ok(x) => r == Ok(x.part) && pos == x.pos
  }

  // zero_initializer.
  method ZeroInitializer(t: Type) returns (r: Result<Value>)
    ensures r == Zero(t)
    decreases t, 0
  {
    match t
    case Scalar =>
      r := Ok(ZERO);
    case Array(n, elem) =>
      var z :- ZeroInitializer(elem);
      if n < 0 {
        return Thrown;
      }
      r := Ok(ArrayOf(n, z));
    case Struct(fields) =>
      var zs := [];
      assert fields[0..] == fields;
      PrependZerosFacts([], [], ZeroFields(fields));
      for i := 0 to |fields|
        invariant |zs| == i && ZeroFields(fields) == PrependZeros(zs, ZeroFields(fields[i..]))
      {
        var z := ZeroInitializer(fields[i]);
        assert fields[i..][0] == fields[i] && fields[i..][1..] == fields[i + 1..];
        if z.Thrown? {
          return Thrown;
        }
        PrependZerosFacts(zs, [z.value], ZeroFields(fields[i + 1..]));
        zs := zs + [z.value];
      }
      assert fields[|fields|..] == [] && zs + [] == zs;
      r := Ok(StructValue(zs));
    case Union(members) =>
      if members == [] {
        return Thrown;
      }
      var z :- ZeroInitializer(members[0]);
      r := Ok(UnionValue(z));
  }

  ghost function PrependZeros(zs: seq<Value>, r: Result<seq<Value>>): Result<seq<Value>> {
    if r.Thrown? then Thrown else Ok(zs + r.value)
  }

  ghost function Prepend(vs: seq<Value>, r: Result<Elab<seq<Value>>>): Result<Elab<seq<Value>>> {
    if r.Thrown? then Thrown else Ok(Elab(vs + r.value.part, r.value.pos))
  }

  lemma PrependFacts(vs: seq<Value>, ws: seq<Value>, r: Result<Elab<seq<Value>>>)
    ensures Prepend([], r) == r
    ensures Prepend(vs, Prepend(ws, r)) == Prepend(vs + ws, r)
  {
    if r.Ok? {
      assert [] + r.value.part == r.value.part;
      assert vs + (ws + r.value.part) == (vs + ws) + r.value.part;
    }
  }

  lemma PrependZerosFacts(vs: seq<Value>, ws: seq<Value>, r: Result<seq<Value>>)
    ensures PrependZeros([], r) == r
    ensures PrependZeros(vs, PrependZeros(ws, r)) == PrependZeros(vs + ws, r)
  {
    if r.Ok? {
      assert [] + r.value == r.value;
      assert vs + (ws + r.value) == (vs + ws) + r.value;
    }
  }

  // do_initializer_rec.
  method DoInitializer(state: InitState, t: Type, goDown: bool) returns (r: Result<Value>)
    requires state.HasNext() && Wellformed(state.list)
    modifies state
    ensures Agrees(r, state.pos, Elaborate(state.list, old(state.pos), t, goDown))
    decreases t, if goDown then 1 else 0, 0
  {
    if goDown && state.Current().Braced? {
      assert NoEmptyBraces(state.Current());
      var inner := new InitState(state.Current().items);
      state.Next();
      r := DoInitializer(inner, t, false);
      return;
    }
    match t
    case Scalar =>
      r := Ok(Leaf(state.Current()));
      state.Next();
    case Array(n, elem) =>
      if n < 0 || n > MAX_ARRAY_SIZE {
        return Thrown;
      }
      var vs :- DoArray(state, n, elem);
      r := Ok(ArrayValue(vs));
    case Struct(fields) =>
      var vs :- DoStruct(state, fields);
      r := Ok(StructValue(vs));
    case Union(members) =>
      if members == [] {
        return Thrown;
      }
      var v :- DoInitializer(state, members[0], true);
      r := Ok(UnionValue(v));
  }

  // do_initializer_array.
  method DoArray(state: InitState, n: nat, elem: Type) returns (r: Result<seq<Value>>)
    requires state.pos <= |state.list| && Wellformed(state.list)
    modifies state
    ensures Agrees(r, state.pos, ElaborateElems(state.list, old(state.pos), n, elem))
    decreases elem, 3, n
  {
    var vs := [];
    var i := 0;
    PrependFacts([], [], ElaborateElems(state.list, state.pos, n, elem));
    while i < n
      invariant 0 <= i <= n && |vs| == i && state.pos <= |state.list|
      invariant ElaborateElems(state.list, old(state.pos), n, elem)
             == Prepend(vs, ElaborateElems(state.list, state.pos, n - i, elem))
    {
      if !state.HasNext() {
        var z :- ZeroInitializer(elem);
        vs := vs + seq(n - i, k => z);
        return Ok(vs);
      }
      var e := DoInitializer(state, elem, true);
      if e.Thrown? {
        return Thrown;
      }
      PrependFacts(vs, [e.value], ElaborateElems(state.list, state.pos, n - i - 1, elem));
      vs := vs + [e.value];
      i := i + 1;
    }
    assert vs + [] == vs;
    return Ok(vs);
  }

  // do_initializer_struct.
  method DoStruct(state: InitState, fields: seq<Type>) returns (r: Result<seq<Value>>)
    requires state.pos <= |state.list| && Wellformed(state.list)
    modifies state
    ensures Agrees(r, state.pos, ElaborateFields(state.list, old(state.pos), fields))
    decreases fields, 0, 0
  {
    var vs := [];
    assert fields[0..] == fields;
    PrependFacts([], [], ElaborateFields(state.list, state.pos, fields));
    for i := 0 to |fields|
      invariant |vs| == i && state.pos <= |state.list|
      invariant ElaborateFields(state.list, old(state.pos), fields)
             == Prepend(vs, ElaborateFields(state.list, state.pos, fields[i..]))
    {
      assert fields[i..][0] == fields[i] && fields[i..][1..] == fields[i + 1..];
      var e;
      if state.HasNext() {
        e := DoInitializer(state, fields[i], true);
      } else {
        e := ZeroInitializer(fields[i]);
      }
      if e.Thrown? {
        return Thrown;
      }
      PrependFacts(vs, [e.value], ElaborateFields(state.list, state.pos, fields[i + 1..]));
      vs := vs + [e.value];
    }
    assert fields[|fields|..] == [] && vs + [] == vs;
    return Ok(vs);
  }

  // do_initializer_incomplete_array, where its loop ends at all.
  method DoIncompleteArray(state: InitState, elem: Type) returns (r: Result<seq<Value>>)
    requires state.pos <= |state.list| && Wellformed(state.list) && Ends(state.list, state.pos, elem)
    modifies state
    ensures r == ElaborateAll(state.list, old(state.pos), elem)
    ensures r.Ok? ==> state.pos == |state.list|
  {
    var vs := [];
    PrependZerosFacts([], [], ElaborateAll(state.list, state.pos, elem));
    while state.HasNext()
      invariant state.pos <= |state.list| && Ends(state.list, state.pos, elem)
      invariant ElaborateAll(state.list, old(state.pos), elem)
             == PrependZeros(vs, ElaborateAll(state.list, state.pos, elem))
      decreases |state.list| - state.pos
    {
      var e := DoInitializer(state, elem, true);
      if e.Thrown? {
        return Thrown;
      }
      PrependZerosFacts(vs, [e.value], ElaborateAll(state.list, state.pos, elem));
      vs := vs + [e.value];
    }
    assert vs + [] == vs;
    return Ok(vs);
  }
}

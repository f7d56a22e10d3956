// Conversion of classes one after the other: the method list of each class
// type and its virtual tables.
module ClassConversion {
  import opened Hierarchy
  import opened VirtualTables

  // The complete method list of class k: its own methods and those of all its
  // bases, bases first.
  ghost predicate CompleteMethods(h: seq<ClassDecl>, k: nat, ms: seq<Method>) {
    && WellBuilt(h, ms)
    && (forall e :: e in ms <==> InBlock(h, e) && IsBaseOrSelf(h, e.name.cls, k))
  }

  ghost predicate BaseMethods(h: seq<ClassDecl>, k: nat, ms: seq<Method>) {
    && WellBuilt(h, ms)
    && (forall e :: e in ms <==> InBlock(h, e) && IsBase(h, e.name.cls, k))
  }

  // What a call of f through a pointer to x must reach in an object whose
  // final overrider is z's: the method itself, or the thunk from x to it, or
  // nothing when it is pure.
  ghost predicate Dispatches(h: seq<ClassDecl>, x: nat, z: nat, f: string, t: Target) {
    exists j :: DeclaresAt(h, z, f, j)
      && t == (if h[z].virtuals[j].isPure then Null
               else Address(if x == z then Direct(x, f) else ThunkTo(x, z, f)))
  }

  // Table x@y holds the final overriders in y of the methods x declares.
  ghost predicate CorrectTable(h: seq<ClassDecl>, x: nat, y: nat, table: seq<Target>) {
    && x < |h| && |table| == |h[x].virtuals|
    && (forall i, z: nat :: 0 <= i < |table| && FinalOverrider(h, x, y, h[x].virtuals[i].name, z) ==>
        Dispatches(h, x, z, h[x].virtuals[i].name, table[i]))
  }

  // Every class y < n has a table for itself and for each base that declares
  // virtual methods, and no others.
  ghost predicate CorrectTables(h: seq<ClassDecl>, n: nat, tables: map<(nat, nat), seq<Target>>) {
    && (forall x: nat, y: nat :: (x, y) in tables <==> y < n && HasTable(h, x, y))
    && (forall x: nat, y: nat :: (x, y) in tables ==> CorrectTable(h, x, y, tables[(x, y)]))
  }

  class Converter {
    const h: seq<ClassDecl>
    var types: seq<seq<Method>>              // method lists of the finished classes
    var methods: seq<Method>                 // of the class being converted
    var tables: map<(nat, nat), seq<Target>> // virtual_table::x@y

    ghost predicate Valid()
      reads this
    {
      && WellFormed(h) && |types| <= |h|
      && (forall k :: 0 <= k < |types| ==> CompleteMethods(h, k, types[k]))
      && CorrectTables(h, |types|, tables)
    }

    constructor (h: seq<ClassDecl>)
      requires WellFormed(h)
      ensures Valid() && this.h == h && types == []
    {
      this.h := h;
      types, methods, tables := [], [], map[];
    }

    // The method loop of get_base_components_methods for one base type.
    method PullMethods(from: seq<Method>)
      requires WellBuilt(h, methods) && WellBuilt(h, from) && WellFormed(h)
      modifies this`methods
      ensures WellBuilt(h, methods)
      ensures forall e :: e in methods <==> e in old(methods) || e in from
    {
      for i := 0 to |from|
        invariant WellBuilt(h, methods)
        invariant forall e :: e in methods <==> e in old(methods) || e in from[..i]
      {
        var m := from[i];
        assert m in from && from[..i + 1] == from[..i] + [m];
        DuplicateIsMember(h, m, methods);
        if !IsDuplicate(m, methods) {
          forall d | InBlock(h, d) && IsBase(h, d.name.cls, m.name.cls) ensures d in methods {
            var j :| 0 <= j < |from| && from[j] == d;
            assert j < i;
            assert from[j] == from[..i][j];
          }
          AppendKeeps(h, methods, m);
          methods := methods + [m];
        }
      }
      assert from[..|from|] == from;
    }

    // get_base_components_methods over the base map.
    method PullBases(k: nat, bases: seq<nat>)
      requires Valid() && k == |types| < |h| && methods == []
      requires forall x: nat :: x in bases <==> IsBase(h, x, k)
      modifies this`methods
      ensures BaseMethods(h, k, methods)
    {
      forall x: nat | x in bases ensures x < k {
        BasesComeFirst(h, x, k);
      }
      for i := 0 to |bases|
        invariant WellBuilt(h, methods)
        invariant forall e :: e in methods <==> InBlock(h, e) && Covered(h, e.name.cls, bases, i)
      {
        assert bases[i] in bases;
        forall x: nat ensures Covered(h, x, bases, i + 1) <==> Covered(h, x, bases, i) || IsBaseOrSelf(h, x, bases[i]) {
        }
        PullMethods(types[bases[i]]);
      }
      forall x: nat ensures Covered(h, x, bases, |bases|) <==> IsBase(h, x, k) {
        BasesOfBases(h, x, bases, k);
      }
    }

    // A method of the class itself can go at the end of the list.
    lemma OwnMethodKeeps(k: nat, m: Method)
      requires k < |h| && WellBuilt(h, methods) && InBlock(h, m) && m.name.cls == k && m !in methods
      requires forall e :: e in methods ==> IsBaseOrSelf(h, e.name.cls, k)
      requires forall e :: InBlock(h, e) && IsBase(h, e.name.cls, k) ==> e in methods
      ensures WellBuilt(h, methods + [m])
    {
      forall d | d in methods ensures !IsBase(h, k, d.name.cls) {
        if IsBase(h, k, d.name.cls) {
          BasesComeFirst(h, k, d.name.cls);
          if d.name.cls != k {
            BasesComeFirst(h, d.name.cls, k);
          }
        }
      }
      AppendKeeps(h, methods, m);
    }

    // Thunks for all methods that method f of class k overrides.
    method AddThunks(k: nat, i: nat)
      requires WellFormed(h) && k < |h| && i < |h[k].virtuals| && WellBuilt(h, methods)
      requires forall e :: e in methods ==> IsBaseOrSelf(h, e.name.cls, k)
      requires forall e :: InBlock(h, e) && IsBase(h, e.name.cls, k) ==> e in methods
      requires forall e :: e in methods ==> !IsThunkOf(e, k, h[k].virtuals[i].name)
      modifies this`methods
      ensures WellBuilt(h, methods)
      ensures forall e ::
        e in methods <==> e in old(methods) || (InBlock(h, e) && IsThunkOf(e, k, h[k].virtuals[i].name))
    {
      var f := h[k].virtuals[i].name;
      assert DeclaresAt(h, k, f, i);
      var os := GetOverridden(h, k, f, []);
      for j := 0 to |os|
        invariant WellBuilt(h, methods)
        invariant forall e :: e in methods <==> e in old(methods) || (InBlock(h, e) && IsThunkTo(e, k, f, os[..j]))
      {
        var thunk := Method(ThunkTo(os[j], k, f), true, h[k].virtuals[i].isPure);
        assert os[j] in os && os[..j + 1] == os[..j] + [os[j]];
        assert InBlock(h, thunk);
        OwnMethodKeeps(k, thunk);
        methods := methods + [thunk];
        forall e | InBlock(h, e) && IsThunkTo(e, k, f, [os[j]]) ensures e == thunk {
          NameDeterminesMethod(h, e, thunk);
        }
      }
      assert os[..|os|] == os;
    }

    // The method loop of get_struct_class_virtual_methods.
    method AddVirtualMethods(k: nat)
      requires WellFormed(h) && k < |h| && BaseMethods(h, k, methods)
      modifies this`methods
      ensures WellBuilt(h, methods)
      ensures forall e ::
        e in methods <==> InBlock(h, e) && (IsBase(h, e.name.cls, k) || (e.name.cls == k && e.isVirtual))
    {
      var vs := h[k].virtuals;
      for i := 0 to |vs|
        invariant WellBuilt(h, methods)
        invariant forall e :: e in methods <==> e in old(methods) || (InBlock(h, e) && IsOwnVirtual(e, k, vs[..i]))
      {
        var m := Method(Direct(k, vs[i].name), true, vs[i].isPure);
        assert DeclaresAt(h, k, vs[i].name, i) && InBlock(h, m);
        OwnMethodKeeps(k, m);
        methods := methods + [m];
        AddThunks(k, i);
        OneMoreVirtual(h, k, i);
      }
      assert vs[..|vs|] == vs;
      forall e | InBlock(h, e) && e.name.cls == k && e.isVirtual ensures IsOwnVirtual(e, k, vs) {
        var j :| DeclaresAt(h, k, e.name.f, j);
        assert vs[j] in vs;
      }
      forall e | e in methods && !(e in old(methods)) ensures e.name.cls == k && e.isVirtual {
      }
    }

    // add_vtable_variable_symbols: one table per class in the map.
    method AddTables(k: nat, m: map<nat, map<string, Target>>)
      requires k < |h| && CorrectTables(h, k, tables) && CorrectMap(h, k, m)
      modifies this`tables
      ensures CorrectTables(h, k + 1, tables)
    {
      var todo := m.Keys;
      var done: set<nat> := {};
      while todo != {}
        invariant todo + done == m.Keys && todo !! done
        invariant forall x: nat, y: nat :: (x, y) in tables <==> (x, y) in old(tables) || (y == k && x in done)
        invariant forall x: nat, y: nat :: (x, y) in tables ==> CorrectTable(h, x, y, tables[(x, y)])
        decreases todo
      {
        var x: nat :| x in todo;
        var values := FillTable(k, x, m[x]);
        tables := tables[(x, k) := values];
        todo, done := todo - {x}, done + {x};
      }
    }

    // The component loop for one table: each virtual method of class x is
    // looked up.  The missing entry that the source asserts away never occurs.
    method FillTable(k: nat, x: nat, row: map<string, Target>) returns (values: seq<Target>)
      requires x < |h| && CorrectRow(h, x, k, row)
      ensures CorrectTable(h, x, k, values)
    {
      values := [];
      for i := 0 to |h[x].virtuals|
        invariant |values| == i
        invariant forall j, z: nat :: 0 <= j < i && FinalOverrider(h, x, k, h[x].virtuals[j].name, z) ==>
          Dispatches(h, x, z, h[x].virtuals[j].name, values[j])
      {
        var f := h[x].virtuals[i].name;
        assert DeclaresAt(h, x, f, i);
        values := values + [row[f]];
      }
    }

    // Converts the next class: bases, virtual methods, tables, other methods.
    method ConvertClass()
      requires Valid() && |types| < |h|
      modifies this
      ensures Valid() && |types| == |old(types)| + 1 && old(types) <= types
    {
      hide OwnAndBaseMethods, LastWritesWin, CorrectMap, WellFormed, CorrectTables;
      var k := |types|;
      methods := [];
      if h[k].bases != [] {
        var bases := GetBaseMap(h, k, []);
        PullBases(k, bases);
      }
      AddVirtualMethods(k);
      var m := BuildVtableMap(methods);
      MapIsCorrect(h, k, methods, m);
      AddTables(k, m);
      AddOtherMethods(k);
      types := types + [methods];
    }

    // The methods that are not virtual come last.
    method AddOtherMethods(k: nat)
      requires WellFormed(h) && k < |h| && OwnAndBaseMethods(h, k, methods)
      modifies this`methods
      ensures CompleteMethods(h, k, methods)
    {
      var os := h[k].others;
      for i := 0 to |os|
        invariant WellBuilt(h, methods)
        invariant forall e :: e in methods <==> e in old(methods) || IsOther(e, k, os[..i])
      {
        var m := Method(Direct(k, os[i]), false, false);
        assert os[..i + 1] == os[..i] + [os[i]];
        OwnMethodKeeps(k, m);
        methods := methods + [m];
      }
      assert os[..|os|] == os;
    }
  }

  // The methods known when the tables of class k are built.
  ghost predicate OwnAndBaseMethods(h: seq<ClassDecl>, k: nat, ms: seq<Method>) {
    && WellBuilt(h, ms)
    && (forall e :: e in ms <==> InBlock(h, e) && (IsBase(h, e.name.cls, k) || (e.name.cls == k && e.isVirtual)))
  }

  ghost predicate IsOther(e: Method, k: nat, os: seq<string>) {
    e.name.Direct? && e.name.cls == k && e.name.f in os && !e.isVirtual && !e.isPure
  }

  // Method i is the last of ms to write entry f of table x.
  ghost predicate LastWriter(ms: seq<Method>, x: nat, f: string, i: nat) {
    && i < |ms| && ms[i].WritesTo(x, f)
    && (forall j :: i < j < |ms| ==> !ms[j].WritesTo(x, f))
  }

  // The map holds what the last writer of each entry wrote, and nothing else.
  ghost predicate LastWritesWin(ms: seq<Method>, m: map<nat, map<string, Target>>) {
    && (forall x: nat, f, i: nat :: LastWriter(ms, x, f, i) ==> x in m && f in m[x] && m[x][f] == TargetOf(ms[i]))
    && (forall x: nat :: x in m ==> exists j :: 0 <= j < |ms| && ms[j].isVirtual && ms[j].ThisClass() == x)
  }

  // build_vtable_map.
  method BuildVtableMap(ms: seq<Method>) returns (m: map<nat, map<string, Target>>)
    ensures LastWritesWin(ms, m)
  {
    m := map[];
    for n := 0 to |ms|
      invariant LastWritesWin(ms[..n], m)
    {
      var e := ms[n];
      ghost var before := m;
      if e.isVirtual {
        var x := e.ThisClass();
        var row := if x in m then m[x] else map[];
        m := m[x := row[e.name.f := TargetOf(e)]];
      }
      OneMoreWrite(ms, n, before, m);
    }
    assert ms[..|ms|] == ms;
  }

  lemma OneMoreWrite(ms: seq<Method>, n: nat, before: map<nat, map<string, Target>>, m: map<nat, map<string, Target>>)
    requires n < |ms| && LastWritesWin(ms[..n], before)
    requires var e := ms[n]; var x := e.ThisClass();
      m == if e.isVirtual
        then before[x := (if x in before then before[x] else map[])[e.name.f := TargetOf(e)]]
        else before
    ensures LastWritesWin(ms[..n + 1], m)
  {
    var s, t := ms[..n], ms[..n + 1];
    forall x: nat, f, i: nat | LastWriter(t, x, f, i)
      ensures x in m && f in m[x] && m[x][f] == TargetOf(t[i])
    {
      if i < n {
        assert !t[n].WritesTo(x, f);
        assert LastWriter(s, x, f, i);
      }
    }
    forall x: nat | x in m ensures exists j :: 0 <= j < |t| && t[j].isVirtual && t[j].ThisClass() == x {
      if x in before {
        var j :| 0 <= j < |s| && s[j].isVirtual && s[j].ThisClass() == x;
        assert t[j] == s[j];
      } else {
        assert t[n].isVirtual && t[n].ThisClass() == x;
      }
    }
  }

  ghost predicate IsThunkOf(e: Method, k: nat, f: string) {
    e.isVirtual && e.name.ThunkTo? && e.name.cls == k && e.name.f == f
  }

  ghost predicate IsThunkTo(e: Method, k: nat, f: string, os: seq<nat>) {
    IsThunkOf(e, k, f) && e.name.base in os
  }

  // e is a method or a thunk of class k for one of vs.
  ghost predicate IsOwnVirtual(e: Method, k: nat, vs: seq<VirtualDecl>) {
    e.isVirtual && e.name.cls == k && exists v :: v in vs && v.name == e.name.f
  }

  lemma OneMoreVirtual(h: seq<ClassDecl>, k: nat, i: nat)
    requires WellFormed(h) && k < |h| && i < |h[k].virtuals|
    ensures var vs := h[k].virtuals;
      forall e :: InBlock(h, e) ==>
        (IsOwnVirtual(e, k, vs[..i + 1]) <==>
          || IsOwnVirtual(e, k, vs[..i])
          || e == Method(Direct(k, vs[i].name), true, vs[i].isPure)
          || IsThunkOf(e, k, vs[i].name))
  {
    var vs := h[k].virtuals;
    assert vs[..i + 1] == vs[..i] + [vs[i]];
    assert DeclaresAt(h, k, vs[i].name, i);
    var m := Method(Direct(k, vs[i].name), true, vs[i].isPure);
    assert InBlock(h, m);
    forall e | InBlock(h, e)
      ensures IsOwnVirtual(e, k, vs[..i + 1]) <==>
        IsOwnVirtual(e, k, vs[..i]) || e == m || IsThunkOf(e, k, vs[i].name)
    {
      if e.isVirtual && e.name == m.name {
        NameDeterminesMethod(h, e, m);
      }
      if e.isVirtual && e.name.cls == k && e.name.f == vs[i].name {
        assert vs[i] in vs[..i + 1];
      }
    }
  }

  lemma BasesOfBases(h: seq<ClassDecl>, x: nat, bases: seq<nat>, k: nat)
    requires forall b: nat :: b in bases <==> IsBase(h, b, k)
    ensures Covered(h, x, bases, |bases|) <==> IsBase(h, x, k)
  {
    if Covered(h, x, bases, |bases|) {
      var j :| 0 <= j < |bases| && IsBaseOrSelf(h, x, bases[j]);
      assert bases[j] in bases;
      if x != bases[j] {
        BaseTransitive(h, x, bases[j], k);
      }
    }
    if IsBase(h, x, k) {
      var j :| 0 <= j < |bases| && bases[j] == x;
      assert IsBaseOrSelf(h, x, bases[j]);
    }
  }

  // The last writer of an entry exists as soon as there is a writer.
  lemma {:induction false} LastWriterFrom(ms: seq<Method>, x: nat, f: string, i: nat) returns (j: nat)
    requires i < |ms| && ms[i].WritesTo(x, f)
    ensures i <= j && LastWriter(ms, x, f, j)
    decreases |ms| - i
  {
    if k :| i < k < |ms| && ms[k].WritesTo(x, f) {
      j := LastWriterFrom(ms, x, f, k);
    } else {
      j := i;
    }
  }

  ghost predicate HasTable(h: seq<ClassDecl>, x: nat, y: nat) {
    IsBaseOrSelf(h, x, y) && x < |h| && h[x].virtuals != []
  }

  // The entries of table x in class y are all there and final overriders.
  ghost predicate CorrectRow(h: seq<ClassDecl>, x: nat, y: nat, row: map<string, Target>) {
    && (forall f :: Declares(h, x, f) ==> f in row)
    && (forall f, z: nat :: Declares(h, x, f) && FinalOverrider(h, x, y, f, z) ==> Dispatches(h, x, z, f, row[f]))
  }

  ghost predicate CorrectMap(h: seq<ClassDecl>, y: nat, m: map<nat, map<string, Target>>) {
    && (forall x: nat :: x in m <==> HasTable(h, x, y))
    && (forall x: nat :: x in m ==> CorrectRow(h, x, y, m[x]))
  }

  // The virtual method that class w contributes to entry f of table x.
  lemma Writer(h: seq<ClassDecl>, x: nat, y: nat, f: string, w: nat, ms: seq<Method>) returns (i: nat)
    requires OwnAndBaseMethods(h, y, ms)
    requires IsBaseOrSelf(h, w, y) && IsBaseOrSelf(h, x, w) && Declares(h, w, f) && Declares(h, x, f)
    ensures i < |ms| && ms[i].WritesTo(x, f) && ms[i].name.cls == w
  {
    var n :| 0 <= n < |h[w].virtuals| && DeclaresAt(h, w, f, n);
    var e := Method(if x == w then Direct(x, f) else ThunkTo(x, w, f), true, h[w].virtuals[n].isPure);
    assert InBlock(h, e);
    assert e in ms;
    i :| 0 <= i < |ms| && ms[i] == e;
  }

  // Who writes to entry f of table x declares f and lies between x and y.
  lemma WritersDeclare(h: seq<ClassDecl>, y: nat, ms: seq<Method>, i: nat)
    requires OwnAndBaseMethods(h, y, ms) && i < |ms| && ms[i].isVirtual
    ensures var e := ms[i];
      && Declares(h, e.name.cls, e.name.f) && Declares(h, e.ThisClass(), e.name.f)
      && IsBaseOrSelf(h, e.name.cls, y) && IsBaseOrSelf(h, e.ThisClass(), e.name.cls)
      && IsBaseOrSelf(h, e.ThisClass(), y)
      && Dispatches(h, e.ThisClass(), e.name.cls, e.name.f, TargetOf(e))
  {
    var e := ms[i];
    assert e in ms;
    var n :| DeclaresAt(h, e.name.cls, e.name.f, n) && e.isPure == h[e.name.cls].virtuals[n].isPure;
    if e.name.ThunkTo? {
      BasesComeFirst(h, e.name.base, e.name.cls);
      if e.name.cls != y {
        BaseTransitive(h, e.name.base, e.name.cls, y);
      }
    }
  }

  // Every writer of an entry is a declaring class between x and y, so none
  // comes after the one that all others are bases of.
  lemma LastWriteIsFinalOverrider(h: seq<ClassDecl>, x: nat, y: nat, f: string, z: nat, ms: seq<Method>, i: nat)
    requires OwnAndBaseMethods(h, y, ms) && LastWriter(ms, x, f, i)
    requires FinalOverrider(h, x, y, f, z) && Declares(h, x, f)
    ensures ms[i].name.cls == z
  {
    var j := Writer(h, x, y, f, z, ms);
    WritersDeclare(h, y, ms, i);
    assert IsBaseOrSelf(h, ms[i].name.cls, z);
  }

  lemma RowIsCorrect(h: seq<ClassDecl>, x: nat, y: nat, ms: seq<Method>, m: map<nat, map<string, Target>>)
    requires OwnAndBaseMethods(h, y, ms) && LastWritesWin(ms, m) && HasTable(h, x, y)
    ensures x in m && CorrectRow(h, x, y, m[x])
  {
    forall f | Declares(h, x, f)
      ensures x in m && f in m[x]
      ensures forall z: nat :: FinalOverrider(h, x, y, f, z) ==> Dispatches(h, x, z, f, m[x][f])
    {
      var j := Writer(h, x, y, f, x, ms);
      var i := LastWriterFrom(ms, x, f, j);
      WritersDeclare(h, y, ms, i);
      forall z: nat | FinalOverrider(h, x, y, f, z) ensures Dispatches(h, x, z, f, m[x][f]) {
        LastWriteIsFinalOverrider(h, x, y, f, z, ms, i);
      }
    }
    var f0 := h[x].virtuals[0].name;
    assert DeclaresAt(h, x, f0, 0);
    assert Declares(h, x, f0);
  }

  lemma MapIsCorrect(h: seq<ClassDecl>, y: nat, ms: seq<Method>, m: map<nat, map<string, Target>>)
    requires OwnAndBaseMethods(h, y, ms) && LastWritesWin(ms, m)
    ensures CorrectMap(h, y, m)
  {
    forall x: nat | x in m ensures HasTable(h, x, y) {
      var j :| 0 <= j < |ms| && ms[j].isVirtual && ms[j].ThisClass() == x;
      WritersDeclare(h, y, ms, j);
    }
    forall x: nat | HasTable(h, x, y) ensures x in m && CorrectRow(h, x, y, m[x]) {
      RowIsCorrect(h, x, y, ms, m);
    }
  }

  // A whole program: the tables of all classes, in the order of completion.
  method ConvertAll(h: seq<ClassDecl>) returns (tables: map<(nat, nat), seq<Target>>)
    requires WellFormed(h)
    ensures CorrectTables(h, |h|, tables)
  {
    var converter := new Converter(h);
    for k := 0 to |h|
      invariant converter.h == h && converter.Valid() && |converter.types| == k
    {
      converter.ConvertClass();
    }
    tables := converter.tables;
  }

  // With single inheritance every virtual call is dispatched: whatever base
  // the pointer has, the table of the object's class leads to the one final
  // overrider.
  lemma EveryCallIsDispatched(h: seq<ClassDecl>, tables: map<(nat, nat), seq<Target>>, x: nat, y: nat, i: nat)
    returns (z: nat)
    requires WellFormed(h) && SingleInheritance(h) && CorrectTables(h, |h|, tables)
    requires x < |h| && y < |h| && IsBaseOrSelf(h, x, y) && i < |h[x].virtuals|
    ensures (x, y) in tables && |tables[(x, y)]| == |h[x].virtuals|
    ensures var f := h[x].virtuals[i].name;
      && FinalOverrider(h, x, y, f, z) && Dispatches(h, x, z, f, tables[(x, y)][i])
      && (forall other: nat :: FinalOverrider(h, x, y, f, other) ==> other == z)
  {
    var f := h[x].virtuals[i].name;
    assert DeclaresAt(h, x, f, i);
    z := SingleInheritanceHasFinalOverrider(h, x, y, f);
    forall other: nat | FinalOverrider(h, x, y, f, other)
      ensures other == z
    {
      OneFinalOverrider(h, x, y, f, z, other);
    }
  }

  // There is at most one, in any hierarchy.
  lemma OneFinalOverrider(h: seq<ClassDecl>, x: nat, y: nat, f: string, z: nat, other: nat)
    requires WellFormed(h) && FinalOverrider(h, x, y, f, z) && FinalOverrider(h, x, y, f, other)
    ensures z == other
  {
    assert IsBaseOrSelf(h, z, other) && IsBaseOrSelf(h, other, z);
    if z != other {
      BasesComeFirst(h, z, other);
      BasesComeFirst(h, other, z);
    }
  }
}

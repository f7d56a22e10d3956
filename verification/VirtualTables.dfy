// Construction of virtual function tables: method lists merged from the bases
// without duplicates, a map in which the last write wins, and one table per
// base that declares virtual methods.
module VirtualTables {
  import opened Hierarchy

  // The symbol of a method: declared in a class, or the thunk that takes a
  // pointer to base and calls the method of cls that overrides it.
  datatype MethodName =
    | Direct(cls: nat, f: string)
    | ThunkTo(base: nat, cls: nat, f: string)

  datatype Method = Method(name: MethodName, isVirtual: bool, isPure: bool) {
    // Class of the this argument.
    function ThisClass(): nat {
      if name.Direct? then name.cls else name.base
    }

    predicate WritesTo(x: nat, f: string) {
      isVirtual && ThisClass() == x && name.f == f
    }
  }

  // Entry of a table: a function address or, for a pure method, null.
  datatype Target = Null | Address(name: MethodName)

  function TargetOf(m: Method): Target {
    if m.isPure then Null else Address(m.name)
  }

  // The methods that class k contributes itself: its virtual methods, one
  // thunk for each method they override, and its other methods.
  ghost predicate InBlock(h: seq<ClassDecl>, m: Method) {
    var k := m.name.cls;
    && k < |h|
    && (if m.isVirtual then
        && (exists i :: DeclaresAt(h, k, m.name.f, i) && m.isPure == h[k].virtuals[i].isPure)
        && (m.name.ThunkTo? ==> IsBase(h, m.name.base, k) && Declares(h, m.name.base, m.name.f))
      else
        m.name.Direct? && m.name.f in h[k].others && !m.isPure)
  }

  lemma NameDeterminesMethod(h: seq<ClassDecl>, m: Method, m': Method)
    requires WellFormed(h) && InBlock(h, m) && InBlock(h, m') && m.name == m'.name
    ensures m == m'
  {
    var k := m.name.cls;
    assert DistinctNames(h[k].virtuals);
  }

  // Every method belongs to the block of its class.
  ghost predicate Sound(h: seq<ClassDecl>, ms: seq<Method>)
  {
    forall m :: m in ms ==> InBlock(h, m)
  }

  // With a method come all methods of the bases of its class.
  ghost predicate Closed(h: seq<ClassDecl>, ms: seq<Method>)
  {
    forall m, e :: m in ms && InBlock(h, e) && IsBase(h, e.name.cls, m.name.cls) ==> e in ms
  }

  // Methods of a base come before methods of classes derived from it.
  ghost predicate BasesBefore(h: seq<ClassDecl>, ms: seq<Method>)
  {
    forall i, j :: 0 <= i < |ms| && 0 <= j < |ms| && IsBase(h, ms[i].name.cls, ms[j].name.cls) ==> i < j
  }

  ghost predicate WellBuilt(h: seq<ClassDecl>, ms: seq<Method>)
  {
    Sound(h, ms) && Closed(h, ms) && BasesBefore(h, ms) && NoRepetition(ms)
  }

  lemma NotItsOwnBase(h: seq<ClassDecl>, k: nat)
    ensures !IsBase(h, k, k)
  {
    if IsBase(h, k, k) {
      BasesComeFirst(h, k, k);
    }
  }

  // Appending a new method whose bases' methods are all there, with nothing of a
  // derived class before it, keeps the order.
  lemma AppendKeeps(h: seq<ClassDecl>, ms: seq<Method>, e: Method)
    requires WellBuilt(h, ms) && InBlock(h, e) && e !in ms
    requires forall d :: InBlock(h, d) && IsBase(h, d.name.cls, e.name.cls) ==> d in ms
    requires forall d :: d in ms ==> !IsBase(h, e.name.cls, d.name.cls)
    ensures WellBuilt(h, ms + [e])
  {
    var r := ms + [e];
    assert forall m :: m in r ==> m in ms || m == e;
    NotItsOwnBase(h, e.name.cls);
    forall i, j | 0 <= i < |r| && 0 <= j < |r| && IsBase(h, r[i].name.cls, r[j].name.cls)
      ensures i < j
    {
      if j < |ms| {
        assert r[j] in ms;
      }
    }
  }

  // is_duplicate_method.
  predicate IsDuplicate(m: Method, ms: seq<Method>) {
    exists k :: 0 <= k < |ms| && ms[k].name == m.name
  }

  lemma DuplicateIsMember(h: seq<ClassDecl>, m: Method, ms: seq<Method>)
    requires WellFormed(h) && Sound(h, ms) && InBlock(h, m)
    ensures IsDuplicate(m, ms) <==> m in ms
  {
    if IsDuplicate(m, ms) {
      var k :| 0 <= k < |ms| && ms[k].name == m.name;
      NameDeterminesMethod(h, m, ms[k]);
    }
  }

  // Entries of a std::map, in strictly increasing order of their keys.
  ghost predicate InOrder(m: seq<nat>, keys: map<nat, int>) {
    && (forall y :: y in m ==> y in keys)
    && (forall i, j :: 0 <= i < j < |m| ==> keys[m[i]] < keys[m[j]])
  }

  // Insertion of a new entry.
  function InsertSorted(m: seq<nat>, x: nat, keys: map<nat, int>): (r: seq<nat>)
    requires x in keys && InOrder(m, keys) && forall y :: y in m ==> keys[y] != keys[x]
    ensures InOrder(r, keys) && forall y :: y in r <==> y in m || y == x
  {
    if m == [] then [x]
    else if keys[x] < keys[m[0]] then
      ConsInOrder(x, m, keys);
      [x] + m
    else
      TailInOrder(m, keys);
      var rest := InsertSorted(m[1..], x, keys);
      ConsInOrder(m[0], rest, keys);
      assert m == [m[0]] + m[1..];
      [m[0]] + rest
  }

  lemma ConsInOrder(a: nat, m: seq<nat>, keys: map<nat, int>)
    requires InOrder(m, keys) && a in keys
    requires m == [] || keys[a] < keys[m[0]] || forall y :: y in m ==> keys[a] < keys[y]
    ensures InOrder([a] + m, keys)
  {
    assert forall j :: 0 <= j < |m| ==> m[j] in m;
  }

  lemma TailInOrder(m: seq<nat>, keys: map<nat, int>)
    requires InOrder(m, keys) && m != []
    ensures m[0] in m && InOrder(m[1..], keys)
    ensures forall y :: y in m[1..] ==> y in m && keys[m[0]] < keys[y]
  {
  }

  function Ids(h: seq<ClassDecl>): map<nat, int> {
    map k: nat | k < |h| :: h[k].id
  }

  function Keys(h: seq<ClassDecl>): map<nat, int> {
    map k: nat | k < |h| :: h[k].key
  }

  ghost predicate Injective(keys: map<nat, int>) {
    forall a, b :: a in keys && b in keys && a != b ==> keys[a] != keys[b]
  }

  lemma KeysAreInjective(h: seq<ClassDecl>)
    requires WellFormed(h)
    ensures Injective(Ids(h)) && Injective(Keys(h))
  {
  }

  // Insertion unless the entry is there already.
  function AddTo(m: seq<nat>, x: nat, keys: map<nat, int>): (r: seq<nat>)
    requires x in keys && InOrder(m, keys) && Injective(keys)
    ensures InOrder(r, keys) && forall y :: y in r <==> y in m || y == x
  {
    if x in m then m else InsertSorted(m, x, keys)
  }

  // x is one of the first n classes of cs or a base of one.
  ghost predicate Covered(h: seq<ClassDecl>, x: nat, cs: seq<nat>, n: nat)
    requires n <= |cs|
  {
    exists j :: 0 <= j < n && IsBaseOrSelf(h, x, cs[j])
  }

  lemma BasesAreCovered(h: seq<ClassDecl>, x: nat, k: nat)
    requires WellFormed(h) && k < |h|
    ensures IsBase(h, x, k) <==> Covered(h, x, h[k].bases, |h[k].bases|)
  {
    var bases := h[k].bases;
    if IsBase(h, x, k) {
      var b := DirectBase(h, x, k);
      var j :| 0 <= j < |bases| && bases[j] == b;
    }
    if Covered(h, x, bases, |bases|) {
      var j :| 0 <= j < |bases| && IsBaseOrSelf(h, x, bases[j]);
      assert bases[j] in bases;
    }
  }

  // get_base_map: all bases, in the order of class identifiers.
  method GetBaseMap(h: seq<ClassDecl>, k: nat, m: seq<nat>) returns (r: seq<nat>)
    requires WellFormed(h) && k < |h| && InOrder(m, Ids(h))
    ensures InOrder(r, Ids(h)) && forall x: nat :: x in r <==> x in m || IsBase(h, x, k)
    decreases k
  {
    KeysAreInjective(h);
    r := m;
    var bases := h[k].bases;
    for i := 0 to |bases|
      invariant InOrder(r, Ids(h))
      invariant forall x: nat :: x in r <==> x in m || Covered(h, x, bases, i)
    {
      var b := bases[i];
      ghost var before := r;
      assert b in h[k].bases;
      if h[b].bases != [] {
        r := GetBaseMap(h, b, r);
      }
      assert forall x: nat :: x in r <==> x in before || IsBase(h, x, b);
      r := AddTo(r, b, Ids(h));
      forall x: nat ensures Covered(h, x, bases, i + 1) <==> Covered(h, x, bases, i) || IsBaseOrSelf(h, x, b) {
      }
    }
    forall x: nat ensures IsBase(h, x, k) <==> Covered(h, x, bases, |bases|) {
      BasesAreCovered(h, x, k);
    }
  }

  // ---------------------------------------------------- overridden methods

  lemma BasesStayBelow(h: seq<ClassDecl>, bs: seq<nat>, bound: nat)
    requires WellFormed(h) && bound <= |h| && AllBelow(bs, bound) && bs != []
    ensures bs[0] < bound && AllBelow(bs[1..], bound) && AllBelow(h[bs[0]].bases, bs[0])
  {
    assert bs[1..] == bs[1..|bs|];
  }

  // The nearest declarations of f in the classes bs and above them: what the
  // parser's overridden_methods() lists for a method f of a class with bases bs.
  function Nearest(h: seq<ClassDecl>, bs: seq<nat>, bound: nat, f: string): (r: seq<nat>)
    requires WellFormed(h) && bound <= |h| && AllBelow(bs, bound)
    ensures forall j :: 0 <= j < |r| ==> r[j] < bound && Declares(h, r[j], f)
    decreases bound, |bs|
  {
    if bs == [] then []
    else
      var b := bs[0];
      BasesStayBelow(h, bs, bound);
      (if Declares(h, b, f) then [b] else Nearest(h, h[b].bases, b, f)) + Nearest(h, bs[1..], bound, f)
  }

  lemma {:induction false} NearestFindsAll(h: seq<ClassDecl>, bs: seq<nat>, bound: nat, f: string, x: nat)
    requires WellFormed(h) && bound <= |h| && AllBelow(bs, bound)
    ensures (Declares(h, x, f) && Covered(h, x, bs, |bs|))
       <==> (Declares(h, x, f) && Covered(h, x, Nearest(h, bs, bound, f), |Nearest(h, bs, bound, f)|))
    decreases bound, |bs|
  {
    if bs != [] {
      var b, rest: seq<nat> := bs[0], bs[1..];
      var first := if Declares(h, b, f) then [b] else Nearest(h, h[b].bases, b, f);
      var others := Nearest(h, rest, bound, f);
      NearestFindsAll(h, rest, bound, f, x);
      assert bs == [b] + rest;
      CoveredConcat(h, x, [b], rest);
      CoveredConcat(h, x, first, others);
      CoveredOne(h, x, b);
      if !Declares(h, b, f) {
        NearestFindsAll(h, h[b].bases, b, f, x);
        BasesAreCovered(h, x, b);
      }
    }
  }

  lemma CoveredOne(h: seq<ClassDecl>, x: nat, b: nat)
    ensures Covered(h, x, [b], 1) <==> IsBaseOrSelf(h, x, b)
  {
    if IsBaseOrSelf(h, x, b) {
      assert IsBaseOrSelf(h, x, [b][0]);
    }
  }

  lemma CoveredConcat(h: seq<ClassDecl>, x: nat, s: seq<nat>, t: seq<nat>)
    ensures Covered(h, x, s + t, |s + t|) <==> Covered(h, x, s, |s|) || Covered(h, x, t, |t|)
  {
    if Covered(h, x, s, |s|) {
      var j :| 0 <= j < |s| && IsBaseOrSelf(h, x, s[j]);
      assert (s + t)[j] == s[j];
    }
    if Covered(h, x, t, |t|) {
      var j :| 0 <= j < |t| && IsBaseOrSelf(h, x, t[j]);
      assert (s + t)[|s| + j] == t[j];
    }
  }

  // The method f of class k overrides that of class x.
  ghost predicate Overrides(h: seq<ClassDecl>, k: nat, x: nat, f: string) {
    IsBase(h, x, k) && Declares(h, x, f)
  }

  // get_overriden_methods: the classes whose f is overridden by f of class k,
  // in the order of method identifiers.
  method GetOverridden(h: seq<ClassDecl>, k: nat, f: string, m: seq<nat>) returns (r: seq<nat>)
    requires WellFormed(h) && k < |h| && InOrder(m, Keys(h))
    ensures InOrder(r, Keys(h)) && forall x: nat :: x in r <==> x in m || Overrides(h, k, x, f)
    decreases k, 1
  {
    r := m;
    var os := Nearest(h, h[k].bases, k, f);
    for i := 0 to |os|
      invariant InOrder(r, Keys(h))
      invariant forall x: nat :: x in r <==> x in m || (Declares(h, x, f) && Covered(h, x, os, i))
    {
      ghost var before := r;
      r := AddOverridden(h, os[i], f, r);
      forall x: nat ensures Covered(h, x, os, i + 1) <==> Covered(h, x, os, i) || IsBaseOrSelf(h, x, os[i]) {
      }
    }
    forall x: nat ensures Overrides(h, k, x, f) <==> Declares(h, x, f) && Covered(h, x, os, |os|) {
      BasesAreCovered(h, x, k);
      NearestFindsAll(h, h[k].bases, k, f, x);
    }
  }

  // One round of get_overriden_methods.
  method AddOverridden(h: seq<ClassDecl>, o: nat, f: string, m: seq<nat>) returns (r: seq<nat>)
    requires WellFormed(h) && o < |h| && Declares(h, o, f) && InOrder(m, Keys(h))
    ensures InOrder(r, Keys(h))
    ensures forall x: nat :: x in r <==> x in m || (Declares(h, x, f) && IsBaseOrSelf(h, x, o))
    decreases o, 2
  {
    r := m;
    if Nearest(h, h[o].bases, o, f) != [] {
      r := GetOverridden(h, o, f, r);
    } else {
      NothingOverridden(h, o, f);
    }
    assert forall x: nat :: x in r <==> x in m || Overrides(h, o, x, f);
    KeysAreInjective(h);
    r := AddTo(r, o, Keys(h));
  }

  lemma NothingOverridden(h: seq<ClassDecl>, k: nat, f: string)
    requires WellFormed(h) && k < |h| && Nearest(h, h[k].bases, k, f) == []
    ensures forall x: nat :: !Overrides(h, k, x, f)
  {
    forall x: nat ensures !Overrides(h, k, x, f) {
      BasesAreCovered(h, x, k);
      NearestFindsAll(h, h[k].bases, k, f, x);
    }
  }
}

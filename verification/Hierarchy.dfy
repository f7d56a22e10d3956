// C++ class hierarchies as the converter sees them: classes in the order in
// which they are completed, named by their position in that order.
module Hierarchy {

  // id stands for the class identifier and key for the identifiers of its
  // methods; only their order matters, it is that of the std::maps below.
  datatype ClassDecl = ClassDecl(id: int, key: int, bases: seq<nat>, virtuals: seq<VirtualDecl>, others: seq<string>)

  // A virtual method: its name and whether it is pure.
  datatype VirtualDecl = VirtualDecl(name: string, isPure: bool)

  // Bases are complete before their derived classes, identifiers are unique,
  // and no class overloads a method name.
  ghost predicate WellFormed(h: seq<ClassDecl>) {
    && (forall k :: 0 <= k < |h| ==> AllBelow(h[k].bases, k))
    && (forall i, j :: 0 <= i < j < |h| ==> h[i].id != h[j].id && h[i].key != h[j].key)
    && (forall k :: 0 <= k < |h| ==> DistinctNames(h[k].virtuals))
    && (forall k, v :: 0 <= k < |h| && v in h[k].virtuals ==> v.name !in h[k].others)
    && (forall k :: 0 <= k < |h| ==> NoRepetition(h[k].others))
  }

  ghost predicate NoRepetition<T>(s: seq<T>) {
    forall i, j :: 0 <= i < j < |s| ==> s[i] != s[j]
  }

  ghost predicate AllBelow(bs: seq<nat>, bound: nat) {
    forall j :: 0 <= j < |bs| ==> bs[j] < bound
  }

  ghost predicate DistinctNames(vs: seq<VirtualDecl>) {
    forall i, j :: 0 <= i < j < |vs| ==> vs[i].name != vs[j].name
  }

  // x is a proper base class of y, direct or indirect.
  ghost predicate IsBase(h: seq<ClassDecl>, x: nat, y: nat)
    decreases y, 0
  {
    y < |h| && exists b :: b in h[y].bases && b < y && IsBaseOrSelf(h, x, b)
  }

  ghost predicate IsBaseOrSelf(h: seq<ClassDecl>, x: nat, y: nat)
    decreases y, 1
  {
    x == y || IsBase(h, x, y)
  }

  lemma DirectBase(h: seq<ClassDecl>, x: nat, y: nat) returns (b: nat)
    requires IsBase(h, x, y)
    ensures y < |h| && b in h[y].bases && b < y && IsBaseOrSelf(h, x, b)
  {
    b :| b in h[y].bases && b < y && IsBaseOrSelf(h, x, b);
  }

  lemma {:induction false} BasesComeFirst(h: seq<ClassDecl>, x: nat, y: nat)
    requires IsBase(h, x, y)
    ensures x < y < |h|
    decreases y
  {
    var b := DirectBase(h, x, y);
    if x != b {
      BasesComeFirst(h, x, b);
    }
  }

  lemma {:induction false} BaseTransitive(h: seq<ClassDecl>, x: nat, y: nat, z: nat)
    requires IsBase(h, x, y) && IsBase(h, y, z)
    ensures IsBase(h, x, z)
    decreases z
  {
    var b := DirectBase(h, y, z);
    if y != b {
      BaseTransitive(h, x, y, b);
    }
    assert IsBaseOrSelf(h, x, b);
  }

  // Class k declares f, at position i of its virtual methods.
  predicate DeclaresAt(h: seq<ClassDecl>, k: nat, f: string, i: int) {
    k < |h| && 0 <= i < |h[k].virtuals| && h[k].virtuals[i].name == f
  }

  predicate Declares(h: seq<ClassDecl>, k: nat, f: string) {
    k < |h| && exists i :: 0 <= i < |h[k].virtuals| && DeclaresAt(h, k, f, i)
  }

  // z has the final overrider in y of the method f that x declares: it
  // declares f between x and y, and every other class that does is a base of
  // z.  (Section 10.3 of ISO/IEC 14882:2003.)
  ghost predicate FinalOverrider(h: seq<ClassDecl>, x: nat, y: nat, f: string, z: nat) {
    && IsBaseOrSelf(h, z, y) && IsBaseOrSelf(h, x, z) && Declares(h, z, f)
    && (forall w: nat :: Declares(h, w, f) && IsBaseOrSelf(h, w, y) && IsBaseOrSelf(h, x, w) ==>
        IsBaseOrSelf(h, w, z))
  }

  ghost predicate SingleInheritance(h: seq<ClassDecl>) {
    forall k :: 0 <= k < |h| ==> |h[k].bases| <= 1
  }

  // With single inheritance the final overrider always exists.
  lemma {:induction false} SingleInheritanceHasFinalOverrider(h: seq<ClassDecl>, x: nat, y: nat, f: string)
    returns (z: nat)
    requires WellFormed(h) && SingleInheritance(h) && y < |h|
    requires IsBaseOrSelf(h, x, y) && Declares(h, x, f)
    ensures FinalOverrider(h, x, y, f, z)
    decreases y
  {
    if Declares(h, y, f) || x == y {
      z := y;
    } else {
      var b := DirectBase(h, x, y);
      z := SingleInheritanceHasFinalOverrider(h, x, b, f);
      assert IsBase(h, b, y);
      if z != b {
        BaseTransitive(h, z, b, y);
      }
      forall w: nat | Declares(h, w, f) && IsBaseOrSelf(h, w, y) && IsBaseOrSelf(h, x, w)
        ensures IsBaseOrSelf(h, w, z)
      {
        assert w != y;
        var c := DirectBase(h, w, y);
        assert c == b;
      }
    }
  }
}

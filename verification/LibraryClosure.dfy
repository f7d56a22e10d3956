// Pulling library symbols into a program: a list of names that grows while it
// is walked over, and dependency edges that are erased once used.
module LibraryClosure {
  type Id = string
  type Edges = map<Id, seq<Id>>

  function Targets(edges: Edges, x: Id): seq<Id> {
    if x in edges then edges[x] else []
  }

  // symbol_deps.insert.
  function AddEdge(edges: Edges, x: Id, y: Id): Edges {
    edges[x := Targets(edges, x) + [y]]
  }

  // The edges for the locking functions with a checked variant.
  function WithVariants(edges: Edges): Edges {
    var e1 := AddEdge(edges, "pthread_mutex_lock", "pthread_mutex_lock_check");
    var e2 := AddEdge(e1, "pthread_cond_wait", "pthread_cond_wait_check");
    AddEdge(e2, "pthread_join", "pthread_join_noswitch")
  }

  // ------------------------------------------------------------ the closure

  ghost predicate Closed(s: set<Id>, edges: Edges, library: set<Id>) {
    forall x, y :: x in s && y in Targets(edges, x) && y in library ==> y in s
  }

  ghost predicate Contains(t: set<Id>, seeds: set<Id>, edges: Edges, library: set<Id>) {
    seeds <= t && Closed(t, edges, library)
  }

  // The least set of library symbols that contains the seeds and what its
  // members depend on.
  ghost predicate IsLeastClosure(s: set<Id>, seeds: set<Id>, edges: Edges, library: set<Id>) {
    && s <= library
    && Contains(s, seeds, edges, library)
    && (forall t :: Contains(t, seeds, edges, library) ==> s <= t)
  }

  // A chain of dependencies through the library.
  ghost predicate IsChain(p: seq<Id>, seeds: set<Id>, edges: Edges, library: set<Id>) {
    && p != [] && p[0] in seeds
    && (forall i :: 0 < i < |p| ==> p[i] in library && p[i] in Targets(edges, p[i - 1]))
  }

  ghost predicate IsReached(x: Id, seeds: set<Id>, edges: Edges, library: set<Id>) {
    exists p :: IsChain(p, seeds, edges, library) && p[|p| - 1] == x
  }

  lemma {:induction false} ChainStaysInside(p: seq<Id>, t: set<Id>, seeds: set<Id>, edges: Edges, library: set<Id>)
    requires IsChain(p, seeds, edges, library) && Contains(t, seeds, edges, library)
    ensures p[|p| - 1] in t
  {
    if |p| > 1 {
      var q := p[..|p| - 1];
      assert IsChain(q, seeds, edges, library);
      ChainStaysInside(q, t, seeds, edges, library);
      assert p[|p| - 1] in Targets(edges, p[|p| - 2]);
    }
  }

  lemma ChainGrows(x: Id, y: Id, seeds: set<Id>, edges: Edges, library: set<Id>)
    requires IsReached(x, seeds, edges, library) && y in Targets(edges, x) && y in library
    ensures IsReached(y, seeds, edges, library)
  {
    var p :| IsChain(p, seeds, edges, library) && p[|p| - 1] == x;
    var q := p + [y];
    assert IsChain(q, seeds, edges, library) && q[|q| - 1] == y;
  }

  // The least closure is what chains of dependencies reach.
  lemma LeastClosureIsReached(s: set<Id>, seeds: set<Id>, edges: Edges, library: set<Id>)
    requires seeds <= library
    ensures IsLeastClosure(s, seeds, edges, library)
      <==> (forall x :: x in s <==> IsReached(x, seeds, edges, library))
  {
    if IsLeastClosure(s, seeds, edges, library) {
      LeastIsReached(s, seeds, edges, library);
    }
    if forall x :: x in s <==> IsReached(x, seeds, edges, library) {
      ReachedIsLeast(s, seeds, edges, library);
    }
  }

  lemma LeastIsReached(s: set<Id>, seeds: set<Id>, edges: Edges, library: set<Id>)
    requires seeds <= library && IsLeastClosure(s, seeds, edges, library)
    ensures forall x :: x in s <==> IsReached(x, seeds, edges, library)
  {
    var t := set x | x in s && IsReached(x, seeds, edges, library);
    forall x | x in seeds
      ensures x in t
    {
      assert IsChain([x], seeds, edges, library);
    }
    forall x, y | x in t && y in Targets(edges, x) && y in library
      ensures y in t
    {
      ChainGrows(x, y, seeds, edges, library);
    }
    assert Contains(t, seeds, edges, library);
    forall x | IsReached(x, seeds, edges, library)
      ensures x in s
    {
      var p :| IsChain(p, seeds, edges, library) && p[|p| - 1] == x;
      ChainStaysInside(p, s, seeds, edges, library);
    }
  }

  lemma ReachedIsLeast(s: set<Id>, seeds: set<Id>, edges: Edges, library: set<Id>)
    requires seeds <= library && forall x :: x in s <==> IsReached(x, seeds, edges, library)
    ensures IsLeastClosure(s, seeds, edges, library)
  {
    forall x | x in s
      ensures x in library
    {
      var p :| IsChain(p, seeds, edges, library) && p[|p| - 1] == x;
    }
    forall x | x in seeds
      ensures x in s
    {
      assert IsChain([x], seeds, edges, library);
    }
    forall x, y | x in s && y in Targets(edges, x) && y in library
      ensures y in s
    {
      ChainGrows(x, y, seeds, edges, library);
    }
    forall t | Contains(t, seeds, edges, library)
      ensures s <= t
    {
      forall x | x in s
        ensures x in t
      {
        var p :| IsChain(p, seeds, edges, library) && p[|p| - 1] == x;
        ChainStaysInside(p, t, seeds, edges, library);
      }
    }
  }

  // ------------------------------------------------------------- the worklist

  // All that symbols in the store depend on is in the list.
  ghost predicate AreListed(store: set<Id>, names: seq<Id>, edges: Edges) {
    forall x, y :: x in store && y in Targets(edges, x) ==> y in names
  }

  // Nothing is taken, or about to be, that every closure does not contain.
  ghost predicate IsJustified(store: set<Id>, names: seq<Id>, seeds: set<Id>, edges: Edges, library: set<Id>) {
    forall t :: Contains(t, seeds, edges, library) ==>
      store <= t && forall y :: y in names && y in library ==> y in t
  }

  lemma TakingIsJustified(store: set<Id>, names: seq<Id>, x: Id, seeds: set<Id>, edges: Edges, library: set<Id>)
    requires IsJustified(store, names, seeds, edges, library)
    requires x in seeds || (x in names && x in library)
    ensures IsJustified(store + {x}, names + Targets(edges, x), seeds, edges, library)
    ensures AreListed(store, names, edges) ==> AreListed(store + {x}, names + Targets(edges, x), edges)
  {
  }

  lemma AllTaken(store: set<Id>, names: seq<Id>, seeds: set<Id>, edges: Edges, library: set<Id>)
    requires AreListed(store, names, edges) && IsJustified(store, names, seeds, edges, library)
    requires seeds <= store <= library && forall j :: 0 <= j < |names| && names[j] in library ==> names[j] in store
    ensures IsLeastClosure(store, seeds, edges, library)
  {
    forall x, y | x in store && y in Targets(edges, x) && y in library
      ensures y in store
    {
      assert y in names;
    }
  }

  class Linker {
    var deps: Edges
    var toInclude: seq<Id>
    var store: set<Id>

    constructor (deps: Edges)
      ensures this.deps == deps && toInclude == [] && store == {}
    {
      this.deps := deps;
      toInclude := [];
      store := {};
    }

    method IngestSymbol(name: Id)
      modifies this`deps, this`toInclude
      ensures toInclude == old(toInclude) + Targets(old(deps), name)
      ensures deps == old(deps) - {name}
    {
      if name !in deps {
        assert deps == deps - {name};
        return;
      }
      toInclude := toInclude + deps[name];
      deps := deps - {name};
    }

    // Between rounds: edges are left exactly for names not taken, and what
    // taken symbols depend on is in the list.
    ghost predicate InProgress(seeds: set<Id>, edges: Edges, library: set<Id>)
      reads this
    {
      && store <= library
      && deps == edges - store
      && AreListed(store, toInclude, edges)
      && IsJustified(store, toInclude, seeds, edges, library)
    }

    // store_ctx.add and ingest_symbol.
    method Take(name: Id, ghost seeds: set<Id>, ghost edges: Edges, ghost library: set<Id>)
      requires InProgress(seeds, edges, library) && name in library && (name in seeds || name in toInclude)
      modifies this
      ensures InProgress(seeds, edges, library) && store == old(store) + {name}
      ensures old(toInclude) <= toInclude
      ensures name !in old(deps) ==> deps == old(deps) && toInclude == old(toInclude)
      ensures name in old(deps) ==> deps == old(deps) - {name}
    {
      store := store + {name};
      TakingIsJustified(old(store), toInclude, name, seeds, edges, library);
      IngestSymbol(name);
      assert edges - store == (edges - old(store)) - {name};
    }

    // Take every library symbol the program refers to without defining it.
    method TakeSeeds(symbols: seq<Id>, wanted: set<Id>, ghost edges: Edges)
      requires deps == edges && toInclude == [] && store == {}
      modifies this
      ensures var library := set x | x in symbols;
        store == library * wanted && InProgress(store, edges, library)
    {
      ghost var library := set x | x in symbols;
      ghost var seeds := library * wanted;
      for k := 0 to |symbols|
        invariant InProgress(seeds, edges, library)
        invariant store == (set x | x in symbols[..k]) * wanted
      {
        assert symbols[..k + 1] == symbols[..k] + [symbols[k]];
        if symbols[k] in wanted {
          Take(symbols[k], seeds, edges, library);
        }
      }
      assert symbols[..|symbols|] == symbols;
    }

    // Walk over the list until it stops growing.
    method TakeDependencies(library: set<Id>, ghost edges: Edges)
      requires InProgress(store, edges, library)
      modifies this
      ensures IsLeastClosure(store, old(store), edges, library)
    {
      ghost var seeds := store;
      var i := 0;
      while i < |toInclude|
        invariant 0 <= i <= |toInclude| && seeds <= store
        invariant InProgress(seeds, edges, library)
        invariant forall j :: 0 <= j < i && toInclude[j] in library ==> toInclude[j] in store
        decreases |deps|, |toInclude| - i
      {
        if toInclude[i] in library {
          ghost var had := deps;
          Take(toInclude[i], seeds, edges, library);
          if toInclude[i] in had {
            assert |deps| == |had| - 1;
          }
        }
        i := i + 1;
      }
      AllTaken(store, toInclude, seeds, edges, library);
    }
  }

  // ------------------------------------------------------------ what is linked

  // With a symbol comes everything in the library that it depends on.
  ghost predicate HoldsDependencies(s: set<Id>, deps: Edges, library: set<Id>) {
    forall x, y :: x in s && x in deps && y in deps[x] && y in library ==> y in s
  }

  // With a plain function comes its checked variant, if there is one.
  ghost predicate HoldsVariant(s: set<Id>, plain: Id, checked: Id, library: set<Id>) {
    plain in s && checked in library ==> checked in s
  }

  ghost predicate HoldsVariants(s: set<Id>, library: set<Id>) {
    && HoldsVariant(s, "pthread_mutex_lock", "pthread_mutex_lock_check", library)
    && HoldsVariant(s, "pthread_cond_wait", "pthread_cond_wait_check", library)
    && HoldsVariant(s, "pthread_join", "pthread_join_noswitch", library)
  }

  ghost predicate IsComplete(s: set<Id>, seeds: set<Id>, deps: Edges, library: set<Id>) {
    seeds <= s && HoldsDependencies(s, deps, library) && HoldsVariants(s, library)
  }

  lemma OneMoreEdge(s: set<Id>, edges: Edges, plain: Id, checked: Id, library: set<Id>)
    ensures HoldsDependencies(s, AddEdge(edges, plain, checked), library)
      <==> (HoldsDependencies(s, edges, library) && HoldsVariant(s, plain, checked, library))
  {
    var more := AddEdge(edges, plain, checked);
    assert checked in more[plain];
    assert forall x :: x in edges ==> x in more;
    assert forall x, y :: x in edges && y in edges[x] ==> y in more[x];
    if HoldsDependencies(s, edges, library) && HoldsVariant(s, plain, checked, library) {
      forall x, y | x in s && x in more && y in more[x] && y in library
        ensures y in s
      {
        assert x != plain ==> x in edges && more[x] == edges[x];
      }
    }
  }

  lemma ClosedIsComplete(s: set<Id>, seeds: set<Id>, deps: Edges, library: set<Id>)
    ensures Contains(s, seeds, WithVariants(deps), library) <==> IsComplete(s, seeds, deps, library)
  {
    var e1 := AddEdge(deps, "pthread_mutex_lock", "pthread_mutex_lock_check");
    var e2 := AddEdge(e1, "pthread_cond_wait", "pthread_cond_wait_check");
    var e3 := AddEdge(e2, "pthread_join", "pthread_join_noswitch");
    OneMoreEdge(s, deps, "pthread_mutex_lock", "pthread_mutex_lock_check", library);
    OneMoreEdge(s, e1, "pthread_cond_wait", "pthread_cond_wait_check", library);
    OneMoreEdge(s, e2, "pthread_join", "pthread_join_noswitch", library);
    assert WithVariants(deps) == e3;
    ClosedHolds(s, e3, library);
  }

  lemma ClosedHolds(s: set<Id>, edges: Edges, library: set<Id>)
    ensures Closed(s, edges, library) <==> HoldsDependencies(s, edges, library)
  {
    if HoldsDependencies(s, edges, library) {
      forall x, y | x in s && y in Targets(edges, x) && y in library
        ensures y in s
      {
        assert x in edges;
      }
    }
    if Closed(s, edges, library) {
      forall x, y | x in s && x in edges && y in edges[x] && y in library
        ensures y in s
      {
        assert y in Targets(edges, x);
      }
    }
  }

  // The store after add_cprover_library has run its two loops: the least set of
  // library symbols that holds those wanted, what its members depend on, and the
  // checked variants.
  method LinkedSymbols(symbols: seq<Id>, deps: Edges, wanted: set<Id>) returns (store: set<Id>)
    ensures var library := set x | x in symbols;
      && store <= library && IsComplete(store, library * wanted, deps, library)
      && (forall t :: IsComplete(t, library * wanted, deps, library) ==> store <= t)
  {
    var library := set x | x in symbols;
    forall t {
      ClosedIsComplete(t, library * wanted, deps, library);
    }
    var linker := new Linker(WithVariants(deps));
    linker.TakeSeeds(symbols, wanted, linker.deps);
    linker.TakeDependencies(library, WithVariants(deps));
    store := linker.store;
  }
}

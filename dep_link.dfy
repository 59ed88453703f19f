/** Pass 2 of `DepResolver.build` in src/DepResolver.ts, one node at a time:
    linking a node under its required parents and queuing it. */
module DepLinking {
  import opened Wrappers
  import opened Activation
  import opened Buckets
  import opened DepGraph

  /** The exception `build` throws at line 159 when a node being linked
      declares a required parent that is not a node. */
  datatype BuildError = MissingParent(node: string, parent: string)

  /** Required parent names of every node in the arena. */
  function RequiredOf(g: Arena): (P: Requires)
    ensures P.Keys == g.Keys
  {
    map x | x in g :: g[x].decl.parentNames
  }

  /** The names of the nodes that declare no required parent. */
  function RootsOf(g: Arena): set<string>
  {
    set x | x in g && g[x].decl.parentNames == []
  }

  /** `g'` is `g` after linking `x` under every one of its required parents,
      each of which is a node. */
  ghost predicate RequiredLinked(g: Arena, g': Arena, x: string)
    requires x in g
  {
    && SameDecls(g, g') && RefsClosed(g') && (WellLinked(g) ==> WellLinked(g'))
    && Elems(g[x].decl.parentNames) <= g.Keys
    && (forall k :: k in g ==> g'[k].parents == g[k].parents + (if k == x then Elems(g[x].decl.parentNames) else {}))
    && (forall k :: k in g && (k != x || g[x].decl.parentNames == []) ==> g'[k].allAncestors == g[k].allAncestors)
  }

  /** `h` is `g` once `x` has been linked under its first `j` required
      parents, each of which is a node. */
  ghost predicate PartlyLinked(g: Arena, h: Arena, x: string, j: nat)
    requires x in g && j <= |g[x].decl.parentNames|
  {
    var names := g[x].decl.parentNames;
    && SameDecls(g, h) && RefsClosed(h)
    && Elems(names[..j]) <= g.Keys
    && (forall k :: k in g ==> h[k].parents == g[k].parents + (if k == x then Elems(names[..j]) else {}))
    && (forall k :: k in g && (k != x || j == 0) ==> h[k].allAncestors == g[k].allAncestors)
  }

  /** One more parent linked: `h'` gives `x` the parent `names[j]` and
      changes no other node's parents or ancestors. */
  lemma PartlyLinkedStep(g: Arena, h: Arena, h': Arena, x: string, j: nat)
    requires x in g && j < |g[x].decl.parentNames| && PartlyLinked(g, h, x, j)
    requires g[x].decl.parentNames[j] in h && SameDecls(h, h') && RefsClosed(h')
    requires forall k :: k in h ==> h'[k].parents == h[k].parents + (if k == x then {g[x].decl.parentNames[j]} else {})
    requires forall k :: k in h && k != x ==> h'[k].allAncestors == h[k].allAncestors
    ensures PartlyLinked(g, h', x, j + 1)
  {
    var names := g[x].decl.parentNames;
    assert names[..j + 1] == names[..j] + [names[j]];
    var E, E' := Elems(names[..j]), Elems(names[..j + 1]);
    assert E' == E + {names[j]};
    forall k | k in g
      ensures h'[k].parents == g[k].parents + (if k == x then E' else {})
    {
      assert h'[k].parents == h[k].parents + (if k == x then {names[j]} else {});
      assert h[k].parents == g[k].parents + (if k == x then E else {});
    }
    forall k | k in g && k != x
      ensures h'[k].allAncestors == g[k].allAncestors
    {
      assert h'[k].allAncestors == h[k].allAncestors;
    }
  }

  /** Lines 156-169: link node `x` under each of its required parents in
      turn.  Looking a parent up that is not a node yields `undefined`, and
      line 159 then throws. */
  method LinkRequired(g: Arena, x: string) returns (r: Result<Arena, BuildError>)
    requires x in g && RefsClosed(g)
    ensures r.Failure? <==> !(Elems(g[x].decl.parentNames) <= g.Keys)
    ensures r.Failure? ==> r.error.node == x && r.error.parent in g[x].decl.parentNames && r.error.parent !in g
    ensures r.Success? ==> RequiredLinked(g, r.value, x)
  {
    var names := g[x].decl.parentNames;
    var h := g;
    for j := 0 to |names|
      invariant PartlyLinked(g, h, x, j)
      invariant WellLinked(g) ==> WellLinked(h)
    {
      var parentName := names[j];
      if parentName !in h {
        assert parentName in names;
        return Failure(MissingParent(x, parentName));
      }
      var h' := LinkEdge(h, x, parentName);
      LinkStepFrame(h, h', x, parentName);
      LinkStepRefsClosed(h, h', x, parentName);
      if WellLinked(g) {
        LinkStepWellLinked(h, h', x, parentName);
      }
      PartlyLinkedStep(g, h, h', x, j);
      h := h';
    }
    assert names[..|names|] == names;
    return Success(h);
  }

  /** The state of the arena during pass 2, once the names in `A` have been
      queued: the arena is well linked, a queued node is linked to every
      required parent, and a node not yet queued, or a root, has neither
      parents nor ancestors. */
  ghost predicate Pass2Inv(g: Arena, A: set<string>)
  {
    && WellLinked(g) && A <= g.Keys
    && (forall x :: x in g ==> g[x].parents == (if x in A then Elems(g[x].decl.parentNames) else {}))
    && (forall x :: x in g && (x !in A || g[x].decl.parentNames == []) ==> g[x].allAncestors == {})
  }

  /** Linking a node's required parents, then queuing it, keeps `Pass2Inv`. */
  lemma Pass2Step(g: Arena, g': Arena, A: set<string>, x: string)
    requires x in g && Pass2Inv(g, A) && RequiredLinked(g, g', x)
    ensures Pass2Inv(g', A + {x})
  {
    Pass2Parents(g, g', A, x);
    Pass2Ancestors(g, g', A, x);
  }

  /** The parents half of `Pass2Step`. */
  lemma Pass2Parents(g: Arena, g': Arena, A: set<string>, x: string)
    requires x in g && SameDecls(g, g')
    requires forall k :: k in g ==> g[k].parents == (if k in A then Elems(g[k].decl.parentNames) else {})
    requires forall k :: k in g ==> g'[k].parents == g[k].parents + (if k == x then Elems(g[x].decl.parentNames) else {})
    ensures forall k :: k in g' ==> g'[k].parents == (if k in A + {x} then Elems(g'[k].decl.parentNames) else {})
  {
    forall k | k in g'
      ensures g'[k].parents == (if k in A + {x} then Elems(g'[k].decl.parentNames) else {})
    {
      assert g'[k].decl == g[k].decl;
      if k == x {
        assert g'[k].parents == g[k].parents + Elems(g[x].decl.parentNames);
      } else {
        assert g'[k].parents == g[k].parents;
      }
    }
  }

  /** The ancestors half of `Pass2Step`. */
  lemma Pass2Ancestors(g: Arena, g': Arena, A: set<string>, x: string)
    requires x in g && SameDecls(g, g')
    requires forall k :: k in g && (k !in A || g[k].decl.parentNames == []) ==> g[k].allAncestors == {}
    requires forall k :: k in g && (k != x || g[x].decl.parentNames == []) ==> g'[k].allAncestors == g[k].allAncestors
    ensures forall k :: k in g' && (k !in A + {x} || g'[k].decl.parentNames == []) ==> g'[k].allAncestors == {}
  {
    forall k | k in g' && (k !in A + {x} || g'[k].decl.parentNames == [])
      ensures g'[k].allAncestors == {}
    {
      assert g'[k].decl == g[k].decl;
    }
  }

  /** During pass 2, with `A` the names queued so far: the arena keeps the
      declarations of `g0` and `Pass2Inv`, every root is queued, and every
      queued name was reached from a root. */
  ghost predicate Queued(g0: Arena, g: Arena, A: set<string>, via: map<string, string>, rank: map<string, nat>)
  {
    SameDecls(g0, g) && Pass2Inv(g, A) && Grounded(RequiredOf(g0), A, via, rank) && RootsOf(g0) <= A
  }

  /** Linking and queuing a node `x` that waited in the bucket of the queued
      name `key` keeps `Queued`, with `x` reached through `key`. */
  lemma QueuedStep(g0: Arena, g: Arena, g': Arena, A: set<string>, via: map<string, string>, rank: map<string, nat>,
                   key: string, x: string)
    requires Queued(g0, g, A, via, rank) && key in A && x in g0 && key in g0[x].decl.parentNames
    requires RequiredLinked(g, g', x)
    ensures Queued(g0, g', A + {x}, if x in A then via else via[x := key],
                   if x in A then rank else rank[x := rank[key] + 1])
  {
    Pass2Step(g, g', A, x);
    GroundedStep(RequiredOf(g0), A, via, rank, key, x);
    assert SameDecls(g0, g') by {
      assert SameDecls(g, g');
    }
  }

  /** The body of the loop at lines 153-172, for node `x` waiting in the
      bucket of the queued name `key`: link `x` under its required parents
      and queue it.  Fails, as line 159 throws, when `x` declares a required
      parent that is not a node; `x` is then an activated node. */
  method LinkAndQueue(g0: Arena, g: Arena, key: string, x: string,
                      ghost A: set<string>, ghost via: map<string, string>, ghost rank: map<string, nat>)
    returns (r: Result<Arena, BuildError>,
             ghost A': set<string>, ghost via': map<string, string>, ghost rank': map<string, nat>)
    requires Queued(g0, g, A, via, rank) && key in A
    requires x in g0 && key in g0[x].decl.parentNames
    ensures r.Failure? ==>
      && Activated(RequiredOf(g0), r.error.node) && r.error.node in g0
      && r.error.parent in g0[r.error.node].decl.parentNames && r.error.parent !in g0
    ensures r.Success? ==> A' == A + {x} && Queued(g0, r.value, A', via', rank')
  {
    var linked := LinkRequired(g, x);
    if linked.Failure? {
      ghost var P := RequiredOf(g0);
      GroundedActivated(P, A, via, rank, key);
      ghost var j :| 0 <= j < |P[x]| && P[x][j] == key;
      ActivatedStep(P, x, j);
      return Failure(linked.error), A, via, rank;
    }
    QueuedStep(g0, g, linked.value, A, via, rank, key, x);
    A' := A + {x};
    via' := if x in A then via else via[x := key];
    rank' := if x in A then rank else rank[x := rank[key] + 1];
    return Success(linked.value), A', via', rank';
  }
}

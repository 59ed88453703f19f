/** The nodes of the multi-parent resolver and the one linking step it uses
    for required parents (lines 157-168 of src/DepResolver.ts) and for
    optional parents (lines 189-199).

    Nodes live in an arena, `nodeList`, keyed by name.  Each of a node's four
    maps (`parents`, `children`, `allAncestors`, `allDescendants`) stores,
    under a name `k`, the node `nodeList[k]`, so a map is modelled by its set
    of keys. */
module DepGraph {
  import opened Buckets

  /** What `addInstance` records: the name and the declared parent names. */
  datatype DepDecl = DepDecl(name: string, parentNames: seq<string>, optParentNames: seq<string>)

  /** A `DepNode`: its declaration and the names in each of its four maps. */
  datatype DepNode = DepNode(
    decl: DepDecl,
    parents: set<string>,
    children: set<string>,
    allDescendants: set<string>,
    allAncestors: set<string>)

  /** `nodeList`: every node by name. */
  type Arena = map<string, DepNode>

  /** A node as `addInstance` creates it, with all four maps empty. */
  function FreshNode(d: DepDecl): DepNode
  {
    DepNode(d, {}, {}, {}, {})
  }

  /** Every name in any node's maps is a node of the arena. */
  ghost predicate RefsClosed(g: Arena)
  {
    forall x :: x in g ==>
      && g[x].parents <= g.Keys && g[x].children <= g.Keys
      && g[x].allAncestors <= g.Keys && g[x].allDescendants <= g.Keys
  }

  /** Edges are recorded at both ends: `p` is a parent of `x` iff `x` is a
      child of `p`, and `a` is an ancestor of `x` iff `x` is a descendant of `a`. */
  ghost predicate Symmetric(g: Arena)
  {
    && (forall a, x {:trigger a in g[x].parents} {:trigger x in g[a].children} :: a in g && x in g ==>
          (a in g[x].parents <==> x in g[a].children))
    && (forall a, x {:trigger a in g[x].allAncestors} {:trigger x in g[a].allDescendants} :: a in g && x in g ==>
          (a in g[x].allAncestors <==> x in g[a].allDescendants))
  }

  /** Every parent is an ancestor, and every other ancestor is an ancestor of
      some parent: ancestors are only ever learnt through a parent. */
  ghost predicate Justified(g: Arena)
  {
    && (forall x :: x in g ==> g[x].parents <= g[x].allAncestors)
    && (forall x, a {:trigger a in g[x].allAncestors, a in g[x].parents} :: x in g && a in g[x].allAncestors ==>
          a in g[x].parents || exists p :: p in g[x].parents && p in g && a in g[p].allAncestors)
  }

  /** The arena invariant every pass keeps. */
  ghost predicate WellLinked(g: Arena)
  {
    RefsClosed(g) && Symmetric(g) && Justified(g)
  }

  /** The declarations are those of `g0` and no node has gone or appeared. */
  ghost predicate SameDecls(g0: Arena, g: Arena)
  {
    g.Keys == g0.Keys && forall k :: k in g ==> g[k].decl == g0[k].decl
  }

  /** Node `k` of `g` once `child` has been linked under `parent` and the
      ancestors in `done` have been propagated to `child`. */
  function LinkedNode(g: Arena, k: string, child: string, parent: string, done: set<string>): DepNode
    requires k in g
  {
    var n := g[k];
    n.(parents := n.parents + (if k == child then {parent} else {}),
       children := n.children + (if k == parent then {child} else {}),
       allAncestors := n.allAncestors + (if k == child then {parent} + done else {}),
       allDescendants := n.allDescendants + (if k == parent || k in done then {child} else {}))
  }

  /** `g` with `child` linked under `parent` and `done` propagated. */
  function LinkedWith(g: Arena, child: string, parent: string, done: set<string>): Arena
  {
    map k | k in g :: LinkedNode(g, k, child, parent, done)
  }

  /** `g'` is `g` after linking `child` under `parent`:
      `parent.children[child]`, `parent.allDescendants[child]`,
      `child.parents[parent]` and `child.allAncestors[parent]` are set, and
      every ancestor `a` of `parent` gets `a.allDescendants[child]` and
      `child.allAncestors[a]`.  Nothing else changes. */
  ghost predicate LinkStep(g: Arena, g': Arena, child: string, parent: string)
    requires parent in g
  {
    g' == LinkedWith(g, child, parent, g[parent].allAncestors)
  }

  /** Lines 159-160 (191-192) take `g` to `LinkedWith(g, child, parent, {})`. */
  lemma DirectEdgeSet(g: Arena, child: string, parent: string)
    requires child in g && parent in g
    ensures var p := g[parent];
            var g1 := g[parent := p.(children := p.children + {child}, allDescendants := p.allDescendants + {child})];
            var n := g1[child];
            g1[child := n.(parents := n.parents + {parent}, allAncestors := n.allAncestors + {parent})]
              == LinkedWith(g, child, parent, {})
  {
    var p := g[parent];
    var g1 := g[parent := p.(children := p.children + {child}, allDescendants := p.allDescendants + {child})];
    var n := g1[child];
    var g2 := g1[child := n.(parents := n.parents + {parent}, allAncestors := n.allAncestors + {parent})];
    var h := LinkedWith(g, child, parent, {});
    assert g2.Keys == h.Keys;
    forall k | k in g2
      ensures g2[k] == h[k]
    {
      var m := LinkedNode(g, k, child, parent, {});
      assert h[k] == m;
      if k == child {
        assert g2[k] == n.(parents := n.parents + {parent}, allAncestors := n.allAncestors + {parent});
        assert n == if k == parent then g1[parent] else g[k];
      } else if k == parent {
        assert g2[k] == g1[k];
      } else {
        assert g2[k] == g[k];
      }
    }
  }

  /** One round of lines 163-168 (194-199) propagates ancestor `a`. */
  lemma AncestorPropagated(g: Arena, child: string, parent: string, done: set<string>, a: string)
    requires child in g && parent in g && a in g
    ensures var g1 := LinkedWith(g, child, parent, done);
            var an := g1[a];
            var g2 := g1[a := an.(allDescendants := an.allDescendants + {child})];
            var cn := g2[child];
            g2[child := cn.(allAncestors := cn.allAncestors + {a})] == LinkedWith(g, child, parent, done + {a})
  {
    var g1 := LinkedWith(g, child, parent, done);
    var an := g1[a];
    var g2 := g1[a := an.(allDescendants := an.allDescendants + {child})];
    var cn := g2[child];
    var g3 := g2[child := cn.(allAncestors := cn.allAncestors + {a})];
    var h := LinkedWith(g, child, parent, done + {a});
    assert g3.Keys == h.Keys;
    forall k | k in g3
      ensures g3[k] == h[k]
    {
      PropagatedNode(g, child, parent, done, a, k);
    }
  }

  /** `AncestorPropagated`, node by node. */
  lemma PropagatedNode(g: Arena, child: string, parent: string, done: set<string>, a: string, k: string)
    requires k in g
    ensures var n := LinkedNode(g, k, child, parent, done);
            var n1 := if k == a then n.(allDescendants := n.allDescendants + {child}) else n;
            (if k == child then n1.(allAncestors := n1.allAncestors + {a}) else n1)
              == LinkedNode(g, k, child, parent, done + {a})
  {
  }

  /** Propagating `parent` itself as well changes nothing. */
  lemma ParentPropagated(g: Arena, child: string, parent: string, done: set<string>)
    requires parent in g
    ensures LinkedWith(g, child, parent, done + {parent}) == LinkedWith(g, child, parent, done)
  {
    var g1, g2 := LinkedWith(g, child, parent, done + {parent}), LinkedWith(g, child, parent, done);
    forall k | k in g1
      ensures g1[k] == g2[k]
    {
      if k == child {
        assert {parent} + (done + {parent}) == {parent} + done;
      }
    }
  }

  /** Link `child` under `parent`, as lines 159-168 (and 191-199) do.  The
      ancestors of `parent` are read once, after `child.allAncestors[parent]`
      is set, as `Object.keys` takes them; each must be a node, for line 164
      (196) dereferences it. */
  method LinkEdge(g: Arena, child: string, parent: string) returns (g': Arena)
    requires child in g && parent in g
    requires g[parent].allAncestors <= g.Keys
    ensures LinkStep(g, g', child, parent)
  {
    var p := g[parent];
    g' := g[parent := p.(children := p.children + {child}, allDescendants := p.allDescendants + {child})];
    var n := g'[child];
    g' := g'[child := n.(parents := n.parents + {parent}, allAncestors := n.allAncestors + {parent})];
    DirectEdgeSet(g, child, parent);
    var todo := g'[parent].allAncestors;
    ghost var snapshot := todo;
    assert snapshot - todo == {};
    assert snapshot == g[parent].allAncestors + (if parent == child then {parent} else {});
    while todo != {}
      invariant todo <= snapshot
      invariant g' == LinkedWith(g, child, parent, snapshot - todo)
      decreases todo
    {
      var a :| a in todo;
      ghost var done := snapshot - todo;
      AncestorPropagated(g, child, parent, done, a);
      var an := g'[a];
      g' := g'[a := an.(allDescendants := an.allDescendants + {child})];
      var cn := g'[child];
      g' := g'[child := cn.(allAncestors := cn.allAncestors + {a})];
      todo := todo - {a};
      assert snapshot - todo == done + {a};
    }
    assert snapshot - todo == snapshot;
    if parent == child {
      ParentPropagated(g, child, parent, g[parent].allAncestors);
    } else {
      assert snapshot == g[parent].allAncestors;
    }
  }

  /** Linking changes no declaration, gives `child` the parent `parent`,
      and gives no node but `child` an ancestor. */
  lemma LinkStepFrame(g: Arena, g': Arena, child: string, parent: string)
    requires child in g && parent in g && LinkStep(g, g', child, parent)
    ensures SameDecls(g, g')
    ensures forall k :: k in g ==> g'[k].parents == g[k].parents + (if k == child then {parent} else {})
    ensures forall k :: k in g && k != child ==> g'[k].allAncestors == g[k].allAncestors
    ensures g'[child].allAncestors == g[child].allAncestors + {parent} + g[parent].allAncestors
    ensures forall k :: k in g ==> g[k].allAncestors <= g'[k].allAncestors
  {
    forall k | k in g
      ensures k in g' && g'[k] == LinkedNode(g, k, child, parent, g[parent].allAncestors)
    {
    }
  }

  /** Linking keeps every name in the arena. */
  lemma LinkStepRefsClosed(g: Arena, g': Arena, child: string, parent: string)
    requires child in g && parent in g && LinkStep(g, g', child, parent)
    requires RefsClosed(g)
    ensures RefsClosed(g')
  {
  }

  /** Linking records every edge it adds at both ends. */
  lemma LinkStepSymmetric(g: Arena, g': Arena, child: string, parent: string)
    requires child in g && parent in g && LinkStep(g, g', child, parent)
    requires Symmetric(g)
    ensures Symmetric(g')
  {
    var done := g[parent].allAncestors;
    forall a, x | a in g' && x in g'
      ensures a in g'[x].parents <==> x in g'[a].children
    {
      assert g'[x] == LinkedNode(g, x, child, parent, done);
      assert g'[a] == LinkedNode(g, a, child, parent, done);
    }
    forall a, x | a in g' && x in g'
      ensures a in g'[x].allAncestors <==> x in g'[a].allDescendants
    {
      assert g'[x] == LinkedNode(g, x, child, parent, done);
      assert g'[a] == LinkedNode(g, a, child, parent, done);
    }
  }

  /** Linking adds as ancestors only `parent` and the ancestors of `parent`. */
  lemma LinkStepJustified(g: Arena, g': Arena, child: string, parent: string)
    requires child in g && parent in g && LinkStep(g, g', child, parent)
    requires Justified(g)
    ensures Justified(g')
  {
    forall x, a | x in g' && a in g'[x].allAncestors && a !in g'[x].parents
      ensures exists p :: p in g'[x].parents && p in g' && a in g'[p].allAncestors
    {
      if a in g[x].allAncestors {
        assert a !in g[x].parents;
        var p :| p in g[x].parents && p in g && a in g[p].allAncestors;
        assert p in g'[x].parents && a in g'[p].allAncestors;
      } else {
        assert x == child && a in g[parent].allAncestors;
        assert parent in g'[x].parents && a in g'[parent].allAncestors;
      }
    }
  }

  /** Linking keeps the arena well linked. */
  lemma LinkStepWellLinked(g: Arena, g': Arena, child: string, parent: string)
    requires child in g && parent in g && LinkStep(g, g', child, parent)
    requires WellLinked(g)
    ensures WellLinked(g')
  {
    LinkStepRefsClosed(g, g', child, parent);
    LinkStepSymmetric(g, g', child, parent);
    LinkStepJustified(g, g', child, parent);
  }
}

/** The nodes of the single-parent resolver, `TreeResolver` in
    src/TreeResolver.ts, and the linking of one node under its parent
    (lines 108-136).

    As for the multi-parent resolver, nodes live in an arena keyed by name,
    every map of a node (`children`, `allDescendants`, `allAncestors`) is
    modelled by its set of keys, and `parentNode` and `rootNode` by the name
    of the node they refer to. */
module TreeGraph {
  import opened Wrappers

  /** What `addInstance` records: the name and the parent name (`null` is `None`). */
  datatype TreeDecl = TreeDecl(name: string, parent: Option<string>)

  /** `!node.parent` (line 86): no parent name, or the empty one. */
  predicate IsRoot(d: TreeDecl)
  {
    d.parent.None? || d.parent.value == ""
  }

  /** A `TreeNode`. */
  datatype TreeNode = TreeNode(
    decl: TreeDecl,
    parentNode: Option<string>,
    rootNode: Option<string>,
    children: set<string>,
    allDescendants: set<string>,
    allAncestors: set<string>)

  /** `nodeList`: every node by name. */
  type TreeArena = map<string, TreeNode>

  /** A node as `addInstance` creates it (lines 41-49). */
  function FreshTree(d: TreeDecl): TreeNode
  {
    TreeNode(d, None, None, {}, {}, {})
  }

  /** `x` hangs below the node named by its declared parent `p`, which is
      queued and one level higher; its ancestors are `p` and those of `p`, and
      its `rootNode` is that of `p`, or `p` itself when `p` has none. */
  ghost predicate LinkedBelow(g: TreeArena, A: set<string>, depth: map<string, nat>, x: string)
  {
    && x in g && g[x].parentNode.Some? && g[x].decl.parent == g[x].parentNode
    && var p := g[x].parentNode.value;
    && p in g && p in A && x in depth && p in depth
    && depth[x] == depth[p] + 1
    && g[x].allAncestors == {p} + g[p].allAncestors
    && g[x].rootNode == (if g[p].rootNode.Some? then g[p].rootNode else Some(p))
  }

  /** The arena invariant of pass 2, with `A` the names queued so far and
      `depth` the distance of each from its root: exactly the queued non-roots
      are linked, each below its parent; the others have no `rootNode` and no
      ancestor; every name in a node's maps is a node, and every ancestor is
      queued; `children` records exactly the `parentNode` links; and ancestors
      and descendants are recorded at both ends. */
  ghost predicate Forest(g: TreeArena, A: set<string>, depth: map<string, nat>)
  {
    && A <= g.Keys && A <= depth.Keys
    && (forall x :: x in g ==> (g[x].parentNode.Some? <==> x in A && !IsRoot(g[x].decl)))
    && (forall x {:trigger LinkedBelow(g, A, depth, x)} :: x in g && g[x].parentNode.Some? ==> LinkedBelow(g, A, depth, x))
    && (forall x :: x in g && g[x].parentNode.None? ==> g[x].rootNode.None? && g[x].allAncestors == {})
    && (forall x :: x in g ==> g[x].children <= g.Keys && g[x].allDescendants <= g.Keys && g[x].allAncestors <= A)
    && (forall q, c {:trigger c in g[q].children} :: q in g && c in g ==>
          (c in g[q].children <==> g[c].parentNode == Some(q)))
    && (forall a, x {:trigger a in g[x].allAncestors} {:trigger x in g[a].allDescendants} :: a in g && x in g ==>
          (a in g[x].allAncestors <==> x in g[a].allDescendants))
  }

  /** Every ancestor of `x` is queued and lies strictly above `x`. */
  lemma {:induction false} AncestorAbove(g: TreeArena, A: set<string>, depth: map<string, nat>, x: string, a: string)
    requires Forest(g, A, depth) && x in g && a in g[x].allAncestors
    ensures a in A && x in A && depth[a] < depth[x]
    decreases if x in depth then depth[x] else 0
  {
    assert LinkedBelow(g, A, depth, x);
    var p := g[x].parentNode.value;
    if a != p {
      AncestorAbove(g, A, depth, p, a);
    }
  }

  /** An ancestor of an ancestor of `x` is an ancestor of `x`. */
  lemma {:induction false} AncestorsTransitive(g: TreeArena, A: set<string>, depth: map<string, nat>,
                                               x: string, b: string, a: string)
    requires Forest(g, A, depth) && x in g && b in g
    requires b in g[x].allAncestors && a in g[b].allAncestors
    ensures a in g[x].allAncestors
    decreases if x in depth then depth[x] else 0
  {
    assert LinkedBelow(g, A, depth, x);
    var p := g[x].parentNode.value;
    if b != p {
      AncestorsTransitive(g, A, depth, p, b, a);
    }
  }

  /** No node is its own ancestor or its own descendant. */
  lemma NoSelfAncestor(g: TreeArena, A: set<string>, depth: map<string, nat>, x: string)
    requires Forest(g, A, depth) && x in g
    ensures x !in g[x].allAncestors && x !in g[x].allDescendants
  {
    if x in g[x].allAncestors {
      AncestorAbove(g, A, depth, x, x);
    }
  }

  /** A linked node's `rootNode` is one of its ancestors, a root that is
      queued and linked below nothing. */
  lemma {:induction false} RootNodeIsRoot(g: TreeArena, A: set<string>, depth: map<string, nat>, x: string)
    requires Forest(g, A, depth) && x in g && g[x].parentNode.Some?
    ensures g[x].rootNode.Some? && g[x].rootNode.value in g[x].allAncestors
    ensures g[x].rootNode.value in g && IsRoot(g[g[x].rootNode.value].decl)
    ensures g[x].rootNode.value in A && g[g[x].rootNode.value].parentNode.None?
    decreases depth[x]
  {
    assert LinkedBelow(g, A, depth, x);
    var p := g[x].parentNode.value;
    if g[p].parentNode.Some? {
      RootNodeIsRoot(g, A, depth, p);
    }
  }

  /** `g'` has the nodes of `g`, with the same declarations. */
  ghost predicate SameDecls(g: TreeArena, g': TreeArena)
  {
    g'.Keys == g.Keys && forall x :: x in g ==> g'[x].decl == g[x].decl
  }

  /** `x` hangs below the node named by its declared parent `p`, which is
      queued; its ancestors are `p` and those of `p`; and its `rootNode` is
      that of `p`, or `p` itself when `p` has none. */
  ghost predicate HangsBelow(g: TreeArena, A: set<string>, x: string)
  {
    && x in g && g[x].parentNode.Some? && g[x].decl.parent == g[x].parentNode
    && var p := g[x].parentNode.value;
    && p in g && p in A
    && g[x].allAncestors == {p} + g[p].allAncestors
    && g[x].rootNode == (if g[p].rootNode.Some? then g[p].rootNode else Some(p))
  }

  /** The `rootNode` of `x` is one of its ancestors, a root linked below nothing. */
  ghost predicate RootedIn(g: TreeArena, x: string)
  {
    && x in g && g[x].rootNode.Some?
    && var r := g[x].rootNode.value;
    && r in g && r in g[x].allAncestors && IsRoot(g[r].decl) && g[r].parentNode.None?
  }

  /** What the links of a finished arena look like, with `A` the names that
      were queued: exactly the queued non-roots are linked, each below its
      declared parent and rooted in a root; the others have no `rootNode` and
      no ancestor; every name in a node's maps is a node, and every ancestor
      was queued; `children` records exactly the `parentNode` links;
      ancestors and descendants are recorded at both ends; no node is its own
      ancestor or descendant; and an ancestor of an ancestor is an ancestor. */
  ghost predicate Hierarchy(g: TreeArena, A: set<string>)
  {
    && A <= g.Keys
    && (forall x :: x in g ==> (g[x].parentNode.Some? <==> x in A && !IsRoot(g[x].decl)))
    && (forall x {:trigger HangsBelow(g, A, x)} :: x in g && g[x].parentNode.Some? ==> HangsBelow(g, A, x) && RootedIn(g, x))
    && (forall x :: x in g && g[x].parentNode.None? ==> g[x].rootNode.None? && g[x].allAncestors == {})
    && (forall x :: x in g ==> g[x].children <= g.Keys && g[x].allDescendants <= g.Keys && g[x].allAncestors <= A)
    && (forall q, c {:trigger c in g[q].children} :: q in g && c in g ==>
          (c in g[q].children <==> g[c].parentNode == Some(q)))
    && (forall a, x {:trigger a in g[x].allAncestors} {:trigger x in g[a].allDescendants} :: a in g && x in g ==>
          (a in g[x].allAncestors <==> x in g[a].allDescendants))
    && (forall x :: x in g ==> x !in g[x].allAncestors && x !in g[x].allDescendants)
    && (forall x, b, a :: x in g && b in g && b in g[x].allAncestors && a in g[b].allAncestors ==> a in g[x].allAncestors)
  }

  /** Only a queued node has children or descendants. */
  lemma OnlyQueuedAbove(g: TreeArena, A: set<string>, q: string)
    requires Hierarchy(g, A) && q in g
    ensures forall c :: c in g[q].children ==> q in A
    ensures forall y :: y in g[q].allDescendants ==> q in A
  {
    forall c | c in g[q].children
      ensures q in A
    {
      assert HangsBelow(g, A, c);
    }
    forall y | y in g[q].allDescendants
      ensures q in A
    {
      assert q in g[y].allAncestors;
    }
  }

  /** A forest, whatever the levels of its nodes, has that shape. */
  lemma ForestHierarchy(g: TreeArena, A: set<string>, depth: map<string, nat>)
    requires Forest(g, A, depth)
    ensures Hierarchy(g, A)
  {
    forall x | x in g && g[x].parentNode.Some?
      ensures HangsBelow(g, A, x) && RootedIn(g, x)
    {
      assert LinkedBelow(g, A, depth, x);
      RootNodeIsRoot(g, A, depth, x);
    }
    forall x | x in g
      ensures x !in g[x].allAncestors && x !in g[x].allDescendants
    {
      NoSelfAncestor(g, A, depth, x);
    }
    forall x, b, a | x in g && b in g && b in g[x].allAncestors && a in g[b].allAncestors
      ensures a in g[x].allAncestors
    {
      AncestorsTransitive(g, A, depth, x, b, a);
    }
  }

  /** Node `k` once `x` has been linked below `p` (lines 113-124) and the
      walk up has reached the ancestors in `done` (lines 127-134). */
  function TreeLinkedNode(g: TreeArena, k: string, x: string, p: string, done: set<string>): TreeNode
    requires k in g && p in g
  {
    var n := g[k];
    n.(parentNode := if k == x then Some(p) else n.parentNode,
       rootNode := if k == x then (if g[p].rootNode.Some? then g[p].rootNode else Some(p)) else n.rootNode,
       children := n.children + (if k == p then {x} else {}),
       allDescendants := n.allDescendants + (if k in done then {x} else {}),
       allAncestors := n.allAncestors + (if k == x then {p} + done else {}))
  }

  /** The arena once `x` has been linked below `p` and the walk has reached `done`. */
  function TreeLinked(g: TreeArena, x: string, p: string, done: set<string>): TreeArena
    requires p in g
  {
    map k | k in g :: TreeLinkedNode(g, k, x, p, done)
  }

  /** Linking changes no declaration. */
  lemma LinkKeepsDecls(g: TreeArena, x: string, p: string, up: set<string>)
    requires p in g
    ensures SameDecls(g, TreeLinked(g, x, p, up))
  {
  }

  /** The node `x` being linked is not its parent and not above it. */
  lemma NotAboveItself(g: TreeArena, A: set<string>, depth: map<string, nat>, x: string)
    requires Forest(g, A, depth) && x in g && !IsRoot(g[x].decl) && g[x].decl.parent.value in A
    ensures x != g[x].decl.parent.value && x !in g[g[x].decl.parent.value].allAncestors
  {
    var p := g[x].decl.parent.value;
    if x in A {
      assert LinkedBelow(g, A, depth, x);
      if x in g[p].allAncestors {
        AncestorAbove(g, A, depth, p, x);
      }
    } else if x in g[p].allAncestors {
      AncestorAbove(g, A, depth, p, x);
    }
  }

  /** Lines 113-124 take `g` to `TreeLinked(g, x, p, {})`. */
  lemma TreeLinkStarted(g: TreeArena, x: string, p: string)
    requires x in g && p in g && x != p
    ensures var pn := g[p];
            var g1 := g[p := pn.(children := pn.children + {x})];
            var xn := g1[x];
            var root := if g1[p].rootNode.Some? then g1[p].rootNode else Some(p);
            g1[x := xn.(parentNode := Some(p), allAncestors := xn.allAncestors + {p}, rootNode := root)]
              == TreeLinked(g, x, p, {})
  {
    var pn := g[p];
    var g1 := g[p := pn.(children := pn.children + {x})];
    var xn := g1[x];
    var root := if g1[p].rootNode.Some? then g1[p].rootNode else Some(p);
    var g2 := g1[x := xn.(parentNode := Some(p), allAncestors := xn.allAncestors + {p}, rootNode := root)];
    var t := TreeLinked(g, x, p, {});
    assert g2.Keys == t.Keys;
    forall k | k in g2
      ensures g2[k] == t[k]
    {
      StartedNode(g, x, p, k);
    }
  }

  /** `TreeLinkStarted`, node by node. */
  lemma StartedNode(g: TreeArena, x: string, p: string, k: string)
    requires k in g && p in g && x != p
    ensures var n := g[k];
            var n1 := if k == p then n.(children := n.children + {x}) else n;
            var root := if g[p].rootNode.Some? then g[p].rootNode else Some(p);
            (if k == x then n1.(parentNode := Some(p), allAncestors := n1.allAncestors + {p}, rootNode := root) else n1)
              == TreeLinkedNode(g, k, x, p, {})
  {
  }

  /** One turn of the walk (lines 131-133) adds the ancestor `q`. */
  lemma TreeWalkStep(g: TreeArena, x: string, p: string, done: set<string>, q: string)
    requires x in g && p in g && q in g && q != x
    ensures var g1 := TreeLinked(g, x, p, done);
            var qn := g1[q];
            var g2 := g1[q := qn.(allDescendants := qn.allDescendants + {x})];
            var xn := g2[x];
            g2[x := xn.(allAncestors := xn.allAncestors + {q})] == TreeLinked(g, x, p, done + {q})
  {
    var g1 := TreeLinked(g, x, p, done);
    var qn := g1[q];
    var g2 := g1[q := qn.(allDescendants := qn.allDescendants + {x})];
    var xn := g2[x];
    var g3 := g2[x := xn.(allAncestors := xn.allAncestors + {q})];
    var t := TreeLinked(g, x, p, done + {q});
    assert g3.Keys == t.Keys;
    forall k | k in g3
      ensures g3[k] == t[k]
    {
      assert g1[k] == TreeLinkedNode(g, k, x, p, done);
      assert t[k] == TreeLinkedNode(g, k, x, p, done + {q});
      WalkedNode(g, x, p, done, q, k);
      if k == x {
        assert g3[k] == g1[k].(allAncestors := g1[k].allAncestors + {q});
      } else if k == q {
        assert g3[k] == g1[k].(allDescendants := g1[k].allDescendants + {x});
      } else {
        assert g3[k] == g1[k];
      }
    }
  }

  /** `TreeWalkStep`, node by node. */
  lemma WalkedNode(g: TreeArena, x: string, p: string, done: set<string>, q: string, k: string)
    requires k in g && p in g && q != x
    ensures var n := TreeLinkedNode(g, k, x, p, done);
            var n1 := if k == q then n.(allDescendants := n.allDescendants + {x}) else n;
            (if k == x then n1.(allAncestors := n1.allAncestors + {q}) else n1)
              == TreeLinkedNode(g, k, x, p, done + {q})
  {
  }

  /** Going up from `cur` to its `parentNode` `next` during the walk: `next`
      is one of the ancestors to visit, and the set of those visited grows by
      `next`. */
  lemma WalkUp(g: TreeArena, A: set<string>, depth: map<string, nat>, x: string, cur: string, next: string)
    requires Forest(g, A, depth) && x in g && !IsRoot(g[x].decl) && g[x].decl.parent.value in A
    requires cur in g && (cur == x || cur in {g[x].decl.parent.value} + g[g[x].decl.parent.value].allAncestors)
    requires (if cur == x then Some(g[x].decl.parent.value) else g[cur].parentNode) == Some(next)
    ensures next in g && next != x && next in {g[x].decl.parent.value} + g[g[x].decl.parent.value].allAncestors
    ensures next in depth && (cur == x || (cur in depth && depth[next] < depth[cur]))
    ensures next !in g[next].allAncestors
    ensures ({g[x].decl.parent.value} + g[g[x].decl.parent.value].allAncestors) - g[next].allAncestors
      == (if cur == x then {} else ({g[x].decl.parent.value} + g[g[x].decl.parent.value].allAncestors) - g[cur].allAncestors) + {next}
  {
    var p := g[x].decl.parent.value;
    var up := {p} + g[p].allAncestors;
    NotAboveItself(g, A, depth, x);
    if cur != x {
      assert LinkedBelow(g, A, depth, cur);
    }
    NoSelfAncestor(g, A, depth, next);
    if cur != x {
      if cur != p {
        forall a | a in g[cur].allAncestors
          ensures a in g[p].allAncestors
        {
          AncestorsTransitive(g, A, depth, p, cur, a);
        }
      }
    }
  }

  /** Lines 108-136 for the node `x`, whose parent `p` is queued: record `x`
      as a child of `p`, set its `parentNode` and `rootNode`, then walk up the
      `parentNode` links from `x`, making `x` a descendant of, and giving it
      as ancestor, every node on the way.  The walk visits exactly `p` and
      the ancestors of `p`. */
  method LinkTreeNode(g: TreeArena, x: string, ghost A: set<string>, ghost depth: map<string, nat>) returns (g': TreeArena)
    requires Forest(g, A, depth) && x in g && !IsRoot(g[x].decl) && g[x].decl.parent.value in A
    ensures g' == TreeLinked(g, x, g[x].decl.parent.value, {g[x].decl.parent.value} + g[g[x].decl.parent.value].allAncestors)
  {
    var p := g[x].decl.parent.value;
    ghost var up := {p} + g[p].allAncestors;
    NotAboveItself(g, A, depth, x);
    TreeLinkStarted(g, x, p);
    var pn := g[p];
    g' := g[p := pn.(children := pn.children + {x})];
    var xn := g'[x];
    var root := if g'[p].rootNode.Some? then g'[p].rootNode else Some(p);
    g' := g'[x := xn.(parentNode := Some(p), allAncestors := xn.allAncestors + {p}, rootNode := root)];
    var cur := x;
    ghost var done: set<string> := {};
    while g'[cur].decl.parent.Some?
      invariant cur in g && (cur == x || cur in up)
      invariant done == if cur == x then {} else up - g[cur].allAncestors
      invariant g' == TreeLinked(g, x, p, done)
      decreases if cur == x then depth[p] + 1 else depth[cur]
    {
      if g'[cur].parentNode.None? {
        break;
      }
      var next := g'[cur].parentNode.value;
      WalkUp(g, A, depth, x, cur, next);
      TreeWalkStep(g, x, p, done, next);
      var an := g'[next];
      g' := g'[next := an.(allDescendants := an.allDescendants + {x})];
      var cn := g'[x];
      g' := g'[x := cn.(allAncestors := cn.allAncestors + {next})];
      cur, done := next, done + {next};
    }
    assert cur != x && g[cur].parentNode.None? && g[cur].allAncestors == {};
    assert done == up;
  }

  /** What linking `x` below `p` changes in `g`, field by field, giving `h`,
      once the walk has visited `up`. */
  ghost predicate LinkFrame(g: TreeArena, h: TreeArena, x: string, p: string, up: set<string>)
  {
    && x in g && p in g && h.Keys == g.Keys
    && (forall k :: k in g ==> h[k].decl == g[k].decl)
    && (forall k :: k in g ==> h[k].parentNode == if k == x then Some(p) else g[k].parentNode)
    && (forall k :: k in g && k != x ==> h[k].rootNode == g[k].rootNode)
    && h[x].rootNode == (if g[p].rootNode.Some? then g[p].rootNode else Some(p))
    && (forall k :: k in g ==> h[k].children == g[k].children + (if k == p then {x} else {}))
    && (forall k :: k in g ==> h[k].allDescendants == g[k].allDescendants + (if k in up then {x} else {}))
    && (forall k :: k in g ==> h[k].allAncestors == g[k].allAncestors + (if k == x then up else {}))
  }

  lemma TreeLinkedFrame(g: TreeArena, x: string, p: string, up: set<string>)
    requires x in g && p in g && p in up
    ensures LinkFrame(g, TreeLinked(g, x, p, up), x, p, up)
  {
    forall k | k in g
      ensures TreeLinked(g, x, p, up)[k] == TreeLinkedNode(g, k, x, p, up)
    {
    }
    assert {p} + up == up;
  }

  /** Linking `x`, whose parent `p` is queued, below `p` keeps the arena a
      forest, with `x` queued one level below `p`. */
  lemma TreeLinkedForest(g: TreeArena, A: set<string>, depth: map<string, nat>, x: string, p: string)
    requires Forest(g, A, depth) && x in g && !IsRoot(g[x].decl) && g[x].decl.parent.value == p && p in A
    ensures Forest(TreeLinked(g, x, p, {p} + g[p].allAncestors), A + {x}, depth[x := depth[p] + 1])
  {
    StatusAfterLink(g, A, depth, x, p);
    BelowAfterLink(g, A, depth, x, p);
    RefsAfterLink(g, A, depth, x, p);
    ChildrenAfterLink(g, A, depth, x, p);
    SymmetricAfterLink(g, A, depth, x, p);
  }

  lemma StatusAfterLink(g: TreeArena, A: set<string>, depth: map<string, nat>, x: string, p: string)
    requires Forest(g, A, depth) && x in g && !IsRoot(g[x].decl) && g[x].decl.parent.value == p && p in A
    ensures var h := TreeLinked(g, x, p, {p} + g[p].allAncestors);
            && (forall y :: y in h ==> (h[y].parentNode.Some? <==> y in A + {x} && !IsRoot(h[y].decl)))
            && (forall y :: y in h && h[y].parentNode.None? ==> h[y].rootNode.None? && h[y].allAncestors == {})
  {
    var up := {p} + g[p].allAncestors;
    UpQueued(g, A, depth, x, p);
    LinkedStatus(g, TreeLinked(g, x, p, up), A, x, p, up);
  }

  lemma BelowAfterLink(g: TreeArena, A: set<string>, depth: map<string, nat>, x: string, p: string)
    requires Forest(g, A, depth) && x in g && !IsRoot(g[x].decl) && g[x].decl.parent.value == p && p in A
    ensures var h := TreeLinked(g, x, p, {p} + g[p].allAncestors);
            forall y {:trigger LinkedBelow(h, A + {x}, depth[x := depth[p] + 1], y)} :: y in h && h[y].parentNode.Some? ==>
              LinkedBelow(h, A + {x}, depth[x := depth[p] + 1], y)
  {
    var up := {p} + g[p].allAncestors;
    UpQueued(g, A, depth, x, p);
    LinkedBelowKept(g, TreeLinked(g, x, p, up), A, depth, x, p, up);
  }

  lemma RefsAfterLink(g: TreeArena, A: set<string>, depth: map<string, nat>, x: string, p: string)
    requires Forest(g, A, depth) && x in g && !IsRoot(g[x].decl) && g[x].decl.parent.value == p && p in A
    ensures var h := TreeLinked(g, x, p, {p} + g[p].allAncestors);
            forall y :: y in h ==> h[y].children <= h.Keys && h[y].allDescendants <= h.Keys && h[y].allAncestors <= A + {x}
  {
    var up := {p} + g[p].allAncestors;
    UpQueued(g, A, depth, x, p);
    LinkedRefs(g, TreeLinked(g, x, p, up), A, x, p, up);
  }

  lemma ChildrenAfterLink(g: TreeArena, A: set<string>, depth: map<string, nat>, x: string, p: string)
    requires Forest(g, A, depth) && x in g && !IsRoot(g[x].decl) && g[x].decl.parent.value == p && p in A
    ensures var h := TreeLinked(g, x, p, {p} + g[p].allAncestors);
            forall q, c {:trigger c in h[q].children} :: q in h && c in h ==>
              (c in h[q].children <==> h[c].parentNode == Some(q))
  {
    var up := {p} + g[p].allAncestors;
    UpQueued(g, A, depth, x, p);
    LinkedChildren(g, TreeLinked(g, x, p, up), A, depth, x, p, up);
  }

  lemma SymmetricAfterLink(g: TreeArena, A: set<string>, depth: map<string, nat>, x: string, p: string)
    requires Forest(g, A, depth) && x in g && !IsRoot(g[x].decl) && g[x].decl.parent.value == p && p in A
    ensures var h := TreeLinked(g, x, p, {p} + g[p].allAncestors);
            forall a, y {:trigger a in h[y].allAncestors} {:trigger y in h[a].allDescendants} :: a in h && y in h ==>
              (a in h[y].allAncestors <==> y in h[a].allDescendants)
  {
    var up := {p} + g[p].allAncestors;
    UpQueued(g, A, depth, x, p);
    LinkedSymmetric(g, TreeLinked(g, x, p, up), x, p, up);
  }

  /** The walk stays among queued nodes. */
  lemma UpQueued(g: TreeArena, A: set<string>, depth: map<string, nat>, x: string, p: string)
    requires Forest(g, A, depth) && x in g && !IsRoot(g[x].decl) && g[x].decl.parent.value == p && p in A
    ensures p in g && x != p && {p} + g[p].allAncestors <= A
  {
    NotAboveItself(g, A, depth, x);
    forall a | a in g[p].allAncestors
      ensures a in A
    {
      AncestorAbove(g, A, depth, p, a);
    }
  }

  /** Which nodes are linked, and the unlinked ones' `rootNode` and ancestors. */
  lemma LinkedStatus(g: TreeArena, h: TreeArena, A: set<string>, x: string, p: string, up: set<string>)
    requires x in g && p in g && p in up && h == TreeLinked(g, x, p, up) && !IsRoot(g[x].decl)
    requires forall y :: y in g ==> (g[y].parentNode.Some? <==> y in A && !IsRoot(g[y].decl))
    requires forall y :: y in g && g[y].parentNode.None? ==> g[y].rootNode.None? && g[y].allAncestors == {}
    ensures forall y :: y in h ==> (h[y].parentNode.Some? <==> y in A + {x} && !IsRoot(h[y].decl))
    ensures forall y :: y in h && h[y].parentNode.None? ==> h[y].rootNode.None? && h[y].allAncestors == {}
  {
    TreeLinkedFrame(g, x, p, up);
  }

  /** Every linked node stays linked below its parent. */
  lemma LinkedBelowKept(g: TreeArena, h: TreeArena, A: set<string>, depth: map<string, nat>,
                        x: string, p: string, up: set<string>)
    requires x in g && p in g && p in up && h == TreeLinked(g, x, p, up) && x != p && p in A && A <= depth.Keys
    requires g[x].decl.parent == Some(p) && up == {p} + g[p].allAncestors
    requires x in A ==> g[x].parentNode.Some?
    requires g[x].parentNode.None? ==> g[x].allAncestors == {}
    requires forall y {:trigger LinkedBelow(g, A, depth, y)} :: y in g && g[y].parentNode.Some? ==> LinkedBelow(g, A, depth, y)
    ensures forall y {:trigger LinkedBelow(h, A + {x}, depth[x := depth[p] + 1], y)} :: y in h && h[y].parentNode.Some? ==>
      LinkedBelow(h, A + {x}, depth[x := depth[p] + 1], y)
  {
    if g[x].parentNode.Some? {
      assert LinkedBelow(g, A, depth, x);
    }
    forall y | y in h && h[y].parentNode.Some?
      ensures LinkedBelow(h, A + {x}, depth[x := depth[p] + 1], y)
    {
      if y != x {
        assert LinkedBelow(g, A, depth, y);
      }
      BelowKeptAt(g, A, depth, x, p, up, y);
    }
  }

  /** The node `y` is linked below its parent once `x` is linked below `p`. */
  lemma BelowKeptAt(g: TreeArena, A: set<string>, depth: map<string, nat>, x: string, p: string, up: set<string>, y: string)
    requires x in g && p in g && x != p && p in A && A <= depth.Keys && up == {p} + g[p].allAncestors
    requires g[x].decl.parent == Some(p) && y in g && (x in A ==> g[x].parentNode.Some?)
    requires y != x ==> LinkedBelow(g, A, depth, y)
    requires g[x].parentNode.Some? ==> LinkedBelow(g, A, depth, x)
    requires g[x].parentNode.None? ==> g[x].allAncestors == {}
    ensures LinkedBelow(TreeLinked(g, x, p, up), A + {x}, depth[x := depth[p] + 1], y)
  {
    var h := TreeLinked(g, x, p, up);
    if y == x {
      assert h[x].allAncestors == up;
      assert h[p].allAncestors == g[p].allAncestors;
    } else {
      var q := g[y].parentNode.value;
      if q == x {
        assert LinkedBelow(g, A, depth, x);
        assert h[x].allAncestors == g[x].allAncestors;
      } else {
        assert h[q].allAncestors == g[q].allAncestors;
      }
    }
  }

  /** Every name in a node's maps is still a node, and every ancestor queued. */
  lemma LinkedRefs(g: TreeArena, h: TreeArena, A: set<string>, x: string, p: string, up: set<string>)
    requires x in g && p in g && p in up && h == TreeLinked(g, x, p, up) && up <= A
    requires forall y :: y in g ==> g[y].children <= g.Keys && g[y].allDescendants <= g.Keys && g[y].allAncestors <= A
    ensures forall y :: y in h ==> h[y].children <= h.Keys && h[y].allDescendants <= h.Keys && h[y].allAncestors <= A + {x}
  {
    TreeLinkedFrame(g, x, p, up);
  }

  /** `children` still records exactly the `parentNode` links. */
  lemma LinkedChildren(g: TreeArena, h: TreeArena, A: set<string>, depth: map<string, nat>,
                       x: string, p: string, up: set<string>)
    requires x in g && p in g && p in up && h == TreeLinked(g, x, p, up)
    requires g[x].decl.parent == Some(p)
    requires g[x].parentNode.Some? ==> LinkedBelow(g, A, depth, x)
    requires forall q, c {:trigger c in g[q].children} :: q in g && c in g ==>
      (c in g[q].children <==> g[c].parentNode == Some(q))
    ensures forall q, c {:trigger c in h[q].children} :: q in h && c in h ==>
      (c in h[q].children <==> h[c].parentNode == Some(q))
  {
    TreeLinkedFrame(g, x, p, up);
    forall q, c | q in h && c in h
      ensures c in h[q].children <==> h[c].parentNode == Some(q)
    {
      assert c in g[q].children <==> g[c].parentNode == Some(q);
    }
  }

  /** Ancestors and descendants are still recorded at both ends. */
  lemma LinkedSymmetric(g: TreeArena, h: TreeArena, x: string, p: string, up: set<string>)
    requires x in g && p in g && p in up && h == TreeLinked(g, x, p, up)
    requires forall a, y {:trigger a in g[y].allAncestors} {:trigger y in g[a].allDescendants} :: a in g && y in g ==>
      (a in g[y].allAncestors <==> y in g[a].allDescendants)
    ensures forall a, y {:trigger a in h[y].allAncestors} {:trigger y in h[a].allDescendants} :: a in h && y in h ==>
      (a in h[y].allAncestors <==> y in h[a].allDescendants)
  {
    TreeLinkedFrame(g, x, p, up);
    forall a, y | a in h && y in h
      ensures a in h[y].allAncestors <==> y in h[a].allDescendants
    {
      assert a in g[y].allAncestors <==> y in g[a].allDescendants;
    }
  }
}

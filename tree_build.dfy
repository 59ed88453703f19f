/** The `TreeResolver` class of src/TreeResolver.ts: the node list it keeps,
    and `build`, which runs the two passes over it. */
module TreeBuild {
  import opened Wrappers
  import opened Activation
  import opened Buckets
  import opened TreeGraph
  import opened TreeResolving

  /** What a `build` returns, in terms of the declarations alone.  The roots
      are the nodes whose parent is falsy; `nodeList` holds every declared
      node; the links form a `Hierarchy` whose linked nodes are exactly the
      non-roots that every run activates, that is, whose chain of parent
      names reaches a root; a node is unlinked exactly when it is a
      non-root never activated; and the unlinked list is the buckets of the
      names never activated, concatenated in the order pass 1 created them. */
  ghost predicate Resolved(decls: seq<TreeDecl>, res: TreeResult)
  {
    var g0 := Index(decls);
    var P := RequiredOf(g0);
    && res.roots == RootsOf(g0)
    && SameDecls(g0, res.nodeList)
    && Hierarchy(res.nodeList, ActiveSet(P))
    && (forall x :: x in res.unlinked <==> x in g0 && !IsRoot(g0[x].decl) && !Activated(P, x))
    && res.unlinked == Flatten(KeyOrder(decls), Leftover(decls))
  }

  /** `TreeResolver`: the declarations added since it was made or cleared. */
  class TreeResolver {
    var nodes: seq<TreeDecl>

    /** A resolver with nothing added (line 31). */
    constructor()
      ensures nodes == []
    {
      nodes := [];
    }

    /** Lines 40-56: record a declaration; a `null` parent is `None`. */
    method AddInstance(instanceName: string, instanceParent: Option<string>)
      modifies this
      ensures nodes == old(nodes) + [TreeDecl(instanceName, instanceParent)]
    {
      nodes := nodes + [TreeDecl(instanceName, instanceParent)];
    }

    /** Lines 62-64: forget every declaration. */
    method Clear()
      modifies this
      ensures nodes == []
    {
      nodes := [];
    }

    /** Lines 70-152: pass 1 (`Classify`), pass 2 (`Pump`) and the flattening
        of the buckets left.  It never fails. */
    method Build() returns (r: TreeResult)
      requires WellNamed(nodes)
      ensures Resolved(nodes, r)
    {
      var decls := nodes;
      var g0, roots, rq0, order, kq := Classify(decls);
      NoEmptyName(decls);
      var pumped, depth := Pump(g0, rq0, kq);
      var unlinked := FlattenBuckets(order, pumped.resolveQueue);
      r := TreeResult(roots, pumped.nodeList, unlinked);
      ForestHierarchy(pumped.nodeList, ActiveSet(RequiredOf(g0)), depth);
      UnlinkedExactly(g0, rq0, pumped.resolveQueue, unlinked);
      LeftoverIs(decls, rq0, order, pumped.resolveQueue);
    }
  }

  /** No declared name is empty, so no node is named "". */
  lemma NoEmptyName(decls: seq<TreeDecl>)
    requires WellNamed(decls)
    ensures "" !in Index(decls)
  {
  }

  /** A node is activated exactly when it is a root, or its parent is a node
      that is activated: activation climbs the chain of parent names. */
  lemma ActivatedUnfolds(g0: TreeArena, x: string)
    ensures Activated(RequiredOf(g0), x) <==>
      x in g0 && (IsRoot(g0[x].decl) || Activated(RequiredOf(g0), g0[x].decl.parent.value))
  {
    var P := RequiredOf(g0);
    if Activated(P, x) {
      var S := set y | y in g0 && (IsRoot(g0[y].decl) || Activated(P, g0[y].decl.parent.value));
      assert Closed(P, S) by {
        forall y, i | y in P && 0 <= i < |P[y]| && P[y][i] in S
          ensures y in S
        {
          var k := P[y][i];
          if !IsRoot(g0[k].decl) {
            ActivatedStep(P, k, 0);
          } else {
            ActivatedRoot(P, k);
          }
        }
      }
    } else if x in g0 {
      if IsRoot(g0[x].decl) {
        ActivatedRoot(P, x);
      } else if Activated(P, g0[x].decl.parent.value) {
        ActivatedStep(P, x, 0);
      }
    }
  }

  /** The names left in the buckets are exactly the non-roots never activated. */
  lemma UnlinkedExactly(g0: TreeArena, rq0: Buckets, rq: Buckets, unlinked: seq<string>)
    requires BucketsSound(g0, rq0) && BucketsComplete(g0, rq0)
    requires rq.Keys == (set k | k in rq0 && !Activated(RequiredOf(g0), k))
    requires forall k :: k in rq ==> rq[k] == rq0[k]
    requires forall x :: x in unlinked <==> exists k :: k in rq && x in rq[k]
    ensures forall x :: x in unlinked <==> x in g0 && !IsRoot(g0[x].decl) && !Activated(RequiredOf(g0), x)
  {
    var P := RequiredOf(g0);
    forall x
      ensures x in unlinked <==> x in g0 && !IsRoot(g0[x].decl) && !Activated(P, x)
    {
      if x in unlinked {
        var k :| k in rq && x in rq[k];
        assert x in rq0[k];
        ActivatedUnfolds(g0, x);
      }
      if x in g0 && !IsRoot(g0[x].decl) && !Activated(P, x) {
        var k := g0[x].decl.parent.value;
        ActivatedUnfolds(g0, x);
        assert k in rq0 && x in rq0[k];
        assert k in rq;
      }
    }
  }

  /** The buckets pass 2 leaves are `Leftover`. */
  lemma LeftoverIs(decls: seq<TreeDecl>, rq0: Buckets, order: seq<string>, rq: Buckets)
    requires rq0.Keys == Elems(order) && BucketsAfter(decls, rq0, order)
    requires rq.Keys == (set k | k in rq0 && !Activated(RequiredOf(Index(decls)), k))
    requires forall k :: k in rq ==> rq[k] == rq0[k]
    ensures rq == Leftover(decls)
  {
    forall k | k in rq
      ensures rq[k] == Waiters(decls, k)
    {
      assert Bucket(rq0, k) == Waiters(decls, k);
    }
  }

  /** Each non-root node never activated is unlinked exactly once, and
      nothing else is unlinked: pass 1 puts a node into one bucket only, that
      of its parent. */
  lemma UnlinkedOnce(decls: seq<TreeDecl>, res: TreeResult, x: string)
    requires WellNamed(decls) && Resolved(decls, res)
    ensures var g0 := Index(decls);
            multiset(res.unlinked)[x] ==
              if x in g0 && !IsRoot(g0[x].decl) && !Activated(RequiredOf(g0), x) then 1 else 0
  {
    var g0 := Index(decls);
    var P := RequiredOf(g0);
    var rq := Leftover(decls);
    forall k, y | k in rq
      ensures multiset(rq[k])[y] == if y in P then multiset(P[y])[k] else 0
    {
      WaitersCounted(decls, k, y);
    }
    KeysCover(decls);
    LeftoverCount(P, KeyOrder(decls), rq, x);
    if x in g0 && !IsRoot(g0[x].decl) {
      var p := g0[x].decl.parent.value;
      assert P[x] == [p] && P[x][..0] == [];
      ActivatedUnfolds(g0, x);
    }
  }

  /** No tree node is listed twice among the unlinked nodes. */
  lemma UnlinkedDistinct(decls: seq<TreeDecl>, res: TreeResult)
    requires WellNamed(decls) && Resolved(decls, res)
    ensures Distinct(res.unlinked)
  {
    forall x | x in res.unlinked
      ensures multiset(res.unlinked)[x] == 1
    {
      UnlinkedOnce(decls, res, x);
    }
    OnceDistinct(res.unlinked);
  }

  /** The bucket `Waiters(decls, k)` holds each node whose parent is `k`
      once, and nothing else. */
  lemma {:induction false} WaitersCounted(decls: seq<TreeDecl>, k: string, x: string)
    requires WellNamed(decls)
    ensures multiset(Waiters(decls, k))[x] ==
      if x in Index(decls) then multiset(RequiredOf(Index(decls))[x])[k] else 0
  {
    if decls != [] {
      var front, d := decls[..|decls| - 1], decls[|decls| - 1];
      assert WellNamed(front);
      WaitersCounted(front, k, x);
      RepeatCount(d.name, multiset(Needs(d))[k], x);
    }
  }

  /** The parent of every non-root node is a key pass 1 creates. */
  lemma {:induction false} KeysCover(decls: seq<TreeDecl>)
    ensures forall x :: x in Index(decls) ==> Elems(RequiredOf(Index(decls))[x]) <= Elems(KeyOrder(decls))
  {
    if decls != [] {
      var front, d := decls[..|decls| - 1], decls[|decls| - 1];
      KeysCover(front);
      var before := KeyOrder(front);
      assert Elems(KeyOrder(decls)) == Elems(before) + Elems(NewKeys(Touches(d), Elems(before)));
      assert Elems(Needs(d)) <= Elems(KeyOrder(decls));
    }
  }

  /** An unlinked node is left as `addInstance` made it: no `parentNode`, no
      `rootNode`, and no child, descendant or ancestor. */
  lemma UnlinkedUntouched(decls: seq<TreeDecl>, res: TreeResult, x: string)
    requires Resolved(decls, res) && x in res.unlinked
    ensures x in res.nodeList && res.nodeList[x] == FreshTree(Index(decls)[x].decl)
  {
    var g, A := res.nodeList, ActiveSet(RequiredOf(Index(decls)));
    OnlyQueuedAbove(g, A, x);
    assert g[x].children == {} && g[x].allDescendants == {};
  }

  /** A linked node hangs below its declared parent `p`: its `parentNode`
      is `p`, its ancestors are `p` and the ancestors of `p`, and its
      `rootNode` is that of `p`, or `p` when `p` has none. */
  lemma LinkedBelowParent(decls: seq<TreeDecl>, res: TreeResult, x: string)
    requires Resolved(decls, res)
    requires x in Index(decls) && !IsRoot(Index(decls)[x].decl) && Activated(RequiredOf(Index(decls)), x)
    ensures var p := Index(decls)[x].decl.parent.value;
            && x in res.nodeList && p in res.nodeList && res.nodeList[x].parentNode == Some(p)
            && res.nodeList[x].allAncestors == {p} + res.nodeList[p].allAncestors
            && res.nodeList[x].rootNode == (if res.nodeList[p].rootNode.Some? then res.nodeList[p].rootNode else Some(p))
  {
    assert HangsBelow(res.nodeList, ActiveSet(RequiredOf(Index(decls))), x);
  }

  /** A root is never placed in a bucket, so it has no `parentNode`, no
      `rootNode` and no ancestor. */
  lemma RootsUntouchedAbove(decls: seq<TreeDecl>, res: TreeResult, x: string)
    requires Resolved(decls, res) && x in res.roots
    ensures x in res.nodeList && res.nodeList[x].parentNode.None?
    ensures res.nodeList[x].rootNode.None? && res.nodeList[x].allAncestors == {}
  {
  }

  /** An unlinked node is nobody's child and nobody's ancestor. */
  lemma UnlinkedNeverAncestor(decls: seq<TreeDecl>, res: TreeResult, x: string)
    requires Resolved(decls, res) && x in res.unlinked
    ensures forall y :: y in res.nodeList ==> x !in res.nodeList[y].allAncestors && x !in res.nodeList[y].children
  {
    UnlinkedUntouched(decls, res, x);
  }

  /** A node whose parent is not a node is unlinked. */
  lemma MissingParentUnlinked(decls: seq<TreeDecl>, res: TreeResult, x: string)
    requires Resolved(decls, res)
    requires x in Index(decls) && !IsRoot(Index(decls)[x].decl)
    requires Index(decls)[x].decl.parent.value !in Index(decls)
    ensures x in res.unlinked
  {
    var g0 := Index(decls);
    ActivatedUnfolds(g0, x);
    if Activated(RequiredOf(g0), g0[x].decl.parent.value) {
      ActivatedDeclared(RequiredOf(g0), g0[x].decl.parent.value);
    }
  }

  /** The members of a group of non-root nodes whose parents are in the group
      or are not nodes (a parent cycle, such as two nodes naming each other)
      are all unlinked. */
  lemma CycleUnlinked(decls: seq<TreeDecl>, res: TreeResult, C: set<string>)
    requires Resolved(decls, res)
    requires forall x :: x in C ==> x in Index(decls) && !IsRoot(Index(decls)[x].decl)
    requires forall x :: x in C ==> Index(decls)[x].decl.parent.value !in Index(decls) || Index(decls)[x].decl.parent.value in C
    ensures forall x :: x in C ==> x in res.unlinked
  {
    var g0 := Index(decls);
    var P := RequiredOf(g0);
    forall x, i | x in C && 0 <= i < |P[x]|
      ensures P[x][i] in C || P[x][i] !in P
    {
      assert P[x] == [g0[x].decl.parent.value];
    }
    SelfContainedNeverActivated(P, C);
  }

  /** The forest the tests build (tests/TreeResolver.spec.ts:44-54): `a` with
      children `b` and `c`, `d` below `b`, `f` below `e`; `g` names the missing
      parent `z`, and `h` and `i` name each other. */
  function SampleForest(): seq<TreeDecl>
  {
    [TreeDecl("a", None), TreeDecl("b", Some("a")), TreeDecl("c", Some("a")), TreeDecl("d", Some("b")),
     TreeDecl("e", None), TreeDecl("f", Some("e")), TreeDecl("g", Some("z")), TreeDecl("h", Some("i")),
     TreeDecl("i", Some("h"))]
  }

  /** What the tests expect of that forest (tests/TreeResolver.spec.ts:65-113):
      the roots are `a` and `e`; the unlinked nodes are `g`, `h` and `i`; and
      `d` hangs below `b`, with ancestors `b` and `a` and root `a`. */
  lemma SampleForestResolved(decls: seq<TreeDecl>, res: TreeResult)
    requires decls == SampleForest() && Resolved(decls, res)
    ensures res.roots == {"a", "e"}
    ensures forall x :: x in res.unlinked <==> x in {"g", "h", "i"}
    ensures |res.unlinked| == 3
    ensures "d" in res.nodeList && res.nodeList["d"].parentNode == Some("b")
    ensures res.nodeList["d"].rootNode == Some("a") && res.nodeList["d"].allAncestors == {"a", "b"}
  {
    SampleShape();
    SampleRoots(Index(decls));
    SampleUnlinked(decls, res);
    SampleWellNamed(decls);
    SampleUnlinkedOnce(decls, res);
    SampleBelow(decls, res);
  }

  /** The tests' forest names every node once. */
  lemma SampleWellNamed(decls: seq<TreeDecl>)
    requires decls == SampleForest()
    ensures WellNamed(decls)
  {
  }

  /** Each of `g`, `h` and `i` is listed once: three unlinked nodes. */
  lemma SampleUnlinkedOnce(decls: seq<TreeDecl>, res: TreeResult)
    requires WellNamed(decls) && SampleShaped(Index(decls)) && Resolved(decls, res)
    ensures |res.unlinked| == 3
  {
    SampleUnlinked(decls, res);
    UnlinkedDistinct(decls, res);
    DistinctSize(res.unlinked);
    ThreeNames(Elems(res.unlinked), "g", "h", "i");
  }

  /** The names in that forest and the parent each one declares. */
  ghost predicate SampleShaped(g0: TreeArena)
  {
    && g0.Keys == {"a", "b", "c", "d", "e", "f", "g", "h", "i"}
    && SampleParents(g0)
  }

  /** The parent each name of that forest declares. */
  ghost predicate SampleParents(g0: TreeArena)
    requires g0.Keys == {"a", "b", "c", "d", "e", "f", "g", "h", "i"}
  {
    && g0["a"].decl.parent == None && g0["b"].decl.parent == Some("a")
    && g0["c"].decl.parent == Some("a") && g0["d"].decl.parent == Some("b")
    && g0["e"].decl.parent == None && g0["f"].decl.parent == Some("e")
    && g0["g"].decl.parent == Some("z") && g0["h"].decl.parent == Some("i")
    && g0["i"].decl.parent == Some("h")
  }

  /** Its roots are `a` and `e`. */
  lemma SampleRoots(g0: TreeArena)
    requires SampleShaped(g0)
    ensures RootsOf(g0) == {"a", "e"}
  {
  }

  /** The unlinked nodes of that forest. */
  lemma SampleUnlinked(decls: seq<TreeDecl>, res: TreeResult)
    requires SampleShaped(Index(decls)) && Resolved(decls, res)
    ensures forall x :: x in res.unlinked <==> x in {"g", "h", "i"}
  {
    SampleStraysUnlinked(decls, res);
    SampleOnlyStrays(Index(decls));
  }

  /** `g`, `h` and `i` are unlinked. */
  lemma SampleStraysUnlinked(decls: seq<TreeDecl>, res: TreeResult)
    requires SampleShaped(Index(decls)) && Resolved(decls, res)
    ensures "g" in res.unlinked && "h" in res.unlinked && "i" in res.unlinked
  {
    SampleMissing(Index(decls));
    MissingParentUnlinked(decls, res, "g");
    SampleCycleUnlinked(decls, res);
  }

  /** `h` and `i`, naming each other, are unlinked. */
  lemma SampleCycleUnlinked(decls: seq<TreeDecl>, res: TreeResult)
    requires SampleShaped(Index(decls)) && Resolved(decls, res)
    ensures "h" in res.unlinked && "i" in res.unlinked
  {
    var C := {"h", "i"};
    SampleCycle(Index(decls), C);
    CycleUnlinked(decls, res, C);
  }

  /** `g` names a missing parent. */
  lemma SampleMissing(g0: TreeArena)
    requires SampleShaped(g0)
    ensures "g" in g0 && !IsRoot(g0["g"].decl) && g0["g"].decl.parent.value !in g0
  {
  }

  /** `h` and `i` name each other. */
  lemma SampleCycle(g0: TreeArena, C: set<string>)
    requires SampleShaped(g0) && C == {"h", "i"}
    ensures forall x :: x in C ==> x in g0 && !IsRoot(g0[x].decl)
    ensures forall x :: x in C ==> g0[x].decl.parent.value !in g0 || g0[x].decl.parent.value in C
  {
  }

  /** Every other non-root node of that forest reaches a root. */
  lemma SampleOnlyStrays(g0: TreeArena)
    requires SampleShaped(g0)
    ensures forall x :: x in g0 && !IsRoot(g0[x].decl) && !Activated(RequiredOf(g0), x) ==> x in {"g", "h", "i"}
  {
    ActivatedUnfolds(g0, "a");
    ActivatedUnfolds(g0, "b");
    ActivatedUnfolds(g0, "c");
    ActivatedUnfolds(g0, "d");
    ActivatedUnfolds(g0, "e");
    ActivatedUnfolds(g0, "f");
  }

  /** Where `d` hangs in that forest. */
  lemma SampleBelow(decls: seq<TreeDecl>, res: TreeResult)
    requires SampleShaped(Index(decls)) && Resolved(decls, res)
    ensures "d" in res.nodeList && res.nodeList["d"].parentNode == Some("b")
    ensures res.nodeList["d"].rootNode == Some("a") && res.nodeList["d"].allAncestors == {"a", "b"}
  {
    SampleBelowB(decls, res);
    var g := res.nodeList;
    assert g["d"].allAncestors == {"b"} + {"a"};
  }

  /** `d` hangs below `b`. */
  lemma SampleBelowB(decls: seq<TreeDecl>, res: TreeResult)
    requires SampleShaped(Index(decls)) && Resolved(decls, res)
    ensures "d" in res.nodeList && "b" in res.nodeList && res.nodeList["d"].parentNode == Some("b")
    ensures res.nodeList["d"].allAncestors == {"b"} + res.nodeList["b"].allAncestors
    ensures res.nodeList["d"].rootNode == res.nodeList["b"].rootNode
    ensures res.nodeList["b"].allAncestors == {"a"} && res.nodeList["b"].rootNode == Some("a")
  {
    SampleChain(Index(decls));
    LinkedBelowParent(decls, res, "d");
    SampleBelowA(decls, res);
  }

  /** `b` hangs below the root `a`. */
  lemma SampleBelowA(decls: seq<TreeDecl>, res: TreeResult)
    requires SampleShaped(Index(decls)) && Resolved(decls, res)
    ensures "b" in res.nodeList && res.nodeList["b"].allAncestors == {"a"} && res.nodeList["b"].rootNode == Some("a")
  {
    SampleChain(Index(decls));
    LinkedBelowParent(decls, res, "b");
    RootsUntouchedAbove(decls, res, "a");
    BelowRoot(res.nodeList, "b", "a");
  }

  /** A node hanging below an untouched root has that root as its only ancestor and as its root. */
  lemma BelowRoot(g: TreeArena, x: string, r: string)
    requires x in g && r in g
    requires g[x].allAncestors == {r} + g[r].allAncestors
    requires g[x].rootNode == (if g[r].rootNode.Some? then g[r].rootNode else Some(r))
    requires g[r].rootNode.None? && g[r].allAncestors == {}
    ensures g[x].allAncestors == {r} && g[x].rootNode == Some(r)
  {
  }

  /** `d` lies below `b`, which lies below the root `a`, and both reach it. */
  lemma SampleChain(g0: TreeArena)
    requires SampleShaped(g0)
    ensures "d" in g0 && !IsRoot(g0["d"].decl) && Activated(RequiredOf(g0), "d") && g0["d"].decl.parent.value == "b"
    ensures "b" in g0 && !IsRoot(g0["b"].decl) && Activated(RequiredOf(g0), "b") && g0["b"].decl.parent.value == "a"
    ensures "a" in RootsOf(g0)
  {
    ActivatedUnfolds(g0, "a");
    ActivatedUnfolds(g0, "b");
    ActivatedUnfolds(g0, "d");
  }

  /** The declarations of the tests' forest, indexed by name, have that shape. */
  lemma SampleShape()
    ensures SampleShaped(Index(SampleForest()))
  {
    SampleIndexed();
    SampleNamed(Index(SampleForest()));
  }

  /** The arena built from the tests' forest declares those parents. */
  lemma SampleNamed(g0: TreeArena)
    requires g0 == SampleArena()
    ensures g0.Keys == {"a", "b", "c", "d", "e", "f", "g", "h", "i"} && SampleParents(g0)
  {
  }

  /** The arena of the tests' forest, written out. */
  function SampleArena(): TreeArena
  {
    map[
      "a" := FreshTree(TreeDecl("a", None)), "b" := FreshTree(TreeDecl("b", Some("a"))),
      "c" := FreshTree(TreeDecl("c", Some("a"))), "d" := FreshTree(TreeDecl("d", Some("b"))),
      "e" := FreshTree(TreeDecl("e", None)), "f" := FreshTree(TreeDecl("f", Some("e"))),
      "g" := FreshTree(TreeDecl("g", Some("z"))), "h" := FreshTree(TreeDecl("h", Some("i"))),
      "i" := FreshTree(TreeDecl("i", Some("h")))]
  }

  /** The nodes of that forest, by name. */
  lemma SampleIndexed()
    ensures Index(SampleForest()) == SampleArena()
  {
    var s := SampleForest();
    assert s[..0] == [];
    IndexSnoc(s[..0], s[0]);
    assert s[..0] + [s[0]] == s[..1];
    IndexSnoc(s[..1], s[1]);
    assert s[..1] + [s[1]] == s[..2];
    IndexSnoc(s[..2], s[2]);
    assert s[..2] + [s[2]] == s[..3];
    IndexSnoc(s[..3], s[3]);
    assert s[..3] + [s[3]] == s[..4];
    IndexSnoc(s[..4], s[4]);
    assert s[..4] + [s[4]] == s[..5];
    IndexSnoc(s[..5], s[5]);
    assert s[..5] + [s[5]] == s[..6];
    IndexSnoc(s[..6], s[6]);
    assert s[..6] + [s[6]] == s[..7];
    IndexSnoc(s[..7], s[7]);
    assert s[..7] + [s[7]] == s[..8];
    IndexSnoc(s[..8], s[8]);
    assert s[..8] + [s[8]] == s[..9];
    assert s[..9] == s;
  }

  /** Indexing one more declaration. */
  lemma IndexSnoc(front: seq<TreeDecl>, d: TreeDecl)
    ensures Index(front + [d]) == Index(front)[d.name := FreshTree(d)]
  {
    assert (front + [d])[..|front|] == front;
  }

}

/** The `DepResolver` class of src/DepResolver.ts: the ingest list it keeps,
    and `build`, which runs the three passes over it. */
module DepBuild {
  import opened Wrappers
  import opened Activation
  import opened Buckets
  import opened DepGraph
  import opened DepLinking
  import opened DepOptional
  import opened DepResolving

  /** A parent-name argument of `addInstance`: left out, one name, or a list. */
  datatype NameArg = Omitted | One(name: string) | Many(names: seq<string>)

  /** The list an argument is coerced into (lines 44-50). */
  function AsList(arg: NameArg): seq<string>
  {
    match arg
    case Omitted => []
    case One(name) => [name]
    case Many(names) => names
  }

  /** The names in declaration order, which is the order `Object.keys`
      lists the keys of `nodeList` when every name is declared once. */
  function NameOrder(decls: seq<DepDecl>): (names: seq<string>)
    ensures |names| == |decls| && forall i :: 0 <= i < |decls| ==> names[i] == decls[i].name
  {
    seq(|decls|, i requires 0 <= i < |decls| => decls[i].name)
  }

  /** Some node that every run activates requires a name that is not a node:
      `build` throws. */
  ghost predicate Unresolvable(decls: seq<DepDecl>)
  {
    var g0 := Index(decls);
    exists x, p :: x in g0 && Activated(RequiredOf(g0), x) && p in g0[x].decl.parentNames && p !in g0
  }

  /** `e` names an activated node and a required parent of it that is not a node. */
  ghost predicate FailsAt(decls: seq<DepDecl>, e: BuildError)
  {
    var g0 := Index(decls);
    && e.node in g0 && Activated(RequiredOf(g0), e.node)
    && e.parent in g0[e.node].decl.parentNames && e.parent !in g0
  }

  /** What a successful `build` returns, in terms of the declarations alone.
      The roots are the nodes without required parents; `nodeList` holds every
      declared node; an activated node has
      all its required parents as parents, a node never activated none, and
      either has its optional parents that are nodes; a node that is a root,
      or never activated, and has no optional parent that is a node has no
      ancestor; a node is unlinked exactly when one of its required
      parents is never activated (a missing name never is); and the unlinked
      list is the buckets of the names never activated, concatenated in the
      order pass 1 created them. */
  ghost predicate Resolved(decls: seq<DepDecl>, res: DepResult)
  {
    var g0 := Index(decls);
    var P := RequiredOf(g0);
    && res.roots == RootsOf(g0)
    && SameDecls(g0, res.nodeList)
    && (forall x :: x in g0 ==>
          res.nodeList[x].parents == (if Activated(P, x) then Elems(P[x]) else {}) + PresentOptionals(g0, x))
    && (forall x :: x in g0 && (!Activated(P, x) || P[x] == []) && PresentOptionals(g0, x) == {} ==>
          res.nodeList[x].allAncestors == {})
    && (forall x :: x in res.unlinked <==> x in g0 && exists i :: 0 <= i < |P[x]| && !Activated(P, P[x][i]))
    && res.unlinked == Flatten(KeyOrder(decls), Leftover(decls))
  }

  /** `DepResolver`: the declarations added since it was made or cleared. */
  class DepResolver {
    var ingestNodes: seq<DepDecl>

    /** A resolver with nothing added (line 17). */
    constructor()
      ensures ingestNodes == []
    {
      ingestNodes := [];
    }

    /** Lines 40-66: record a declaration, coercing a single parent name into
        a list and a missing argument into the empty list. */
    method AddInstance(instanceName: string, instanceParents: NameArg, instanceOptParents: NameArg)
      modifies this
      ensures ingestNodes == old(ingestNodes) + [DepDecl(instanceName, AsList(instanceParents), AsList(instanceOptParents))]
    {
      var parentNames: seq<string> := [];
      var optParentNames: seq<string> := [];
      if !instanceParents.Omitted? {
        parentNames := if instanceParents.One? then [instanceParents.name] else instanceParents.names;
      }
      if !instanceOptParents.Omitted? {
        optParentNames := if instanceOptParents.One? then [instanceOptParents.name] else instanceOptParents.names;
      }
      ingestNodes := ingestNodes + [DepDecl(instanceName, parentNames, optParentNames)];
    }

    /** Lines 86-88: forget every declaration. */
    method Clear()
      modifies this
      ensures ingestNodes == []
    {
      ingestNodes := [];
    }

    /** Lines 110-211: pass 1 (`Classify`), pass 2 (`Pump`), pass 3
        (`LinkOptionals`, over the names in declaration order) and the
        flattening of the buckets left.  It fails exactly when some node that
        every run activates requires a name that is not a node. */
    method Build() returns (r: Result<DepResult, BuildError>)
      requires WellNamed(ingestNodes)
      ensures r.Failure? <==> Unresolvable(ingestNodes)
      ensures r.Failure? ==> FailsAt(ingestNodes, r.error)
      ensures r.Success? ==> Resolved(ingestNodes, r.value) && WellLinked(r.value.nodeList)
    {
      var decls := ingestNodes;
      var g0, roots, rq0, order, kq := Classify(decls);
      NoEmptyName(decls);
      var pumped := Pump(g0, rq0, kq);
      if pumped.Failure? {
        return Failure(pumped.error);
      }
      var names := NameOrder(decls);
      NamesIndexed(decls, names);
      var g := LinkOptionals(pumped.value.nodeList, names);
      var unlinked := FlattenBuckets(order, pumped.value.resolveQueue);
      r := Success(DepResult(roots, g, unlinked));
      BuildSettled(decls, rq0, order, pumped.value.nodeList, pumped.value.resolveQueue, names, r.value);
    }
  }

  /** No declared name is empty, so no node is named "". */
  lemma NoEmptyName(decls: seq<DepDecl>)
    requires WellNamed(decls)
    ensures "" !in Index(decls)
  {
  }

  /** The names in declaration order are exactly the nodes. */
  lemma NamesIndexed(decls: seq<DepDecl>, names: seq<string>)
    requires |names| == |decls| && forall i :: 0 <= i < |decls| ==> names[i] == decls[i].name
    ensures Elems(names) == Index(decls).Keys
    ensures forall i :: 0 <= i < |names| ==> names[i] in Index(decls)
  {
    forall x | x in Index(decls)
      ensures x in Elems(names)
    {
      var i :| 0 <= i < |decls| && decls[i].name == x;
      assert names[i] == x;
    }
  }

  /** The three passes, once pass 2 has not failed, give `Resolved`. */
  lemma BuildSettled(decls: seq<DepDecl>, rq0: Buckets, order: seq<string>, g: Arena, rq: Buckets,
                     names: seq<string>, res: DepResult)
    requires res.roots == RootsOf(Index(decls))
    requires rq0.Keys == Elems(order) && BucketsAfter(decls, rq0, order)
    requires BucketsSound(Index(decls), rq0) && BucketsComplete(Index(decls), rq0)
    requires SameDecls(Index(decls), g)
    requires forall x :: x in g ==> g[x].parents == (if x in ActiveSet(RequiredOf(Index(decls))) then Elems(g[x].decl.parentNames) else {})
    requires forall x :: x in g && (x !in ActiveSet(RequiredOf(Index(decls))) || g[x].decl.parentNames == []) ==> g[x].allAncestors == {}
    requires rq.Keys == (set k | k in rq0 && !Activated(RequiredOf(Index(decls)), k))
    requires forall k :: k in rq ==> rq[k] == rq0[k]
    requires Elems(names) == g.Keys && OptionalsLinked(g, res.nodeList, Elems(names))
    requires forall x :: x in res.unlinked <==> exists k :: k in rq && x in rq[k]
    requires res.unlinked == Flatten(order, rq)
    ensures Resolved(decls, res)
  {
    var g0 := Index(decls);
    SettledNodes(g0, g, res.nodeList);
    UnlinkedExactly(g0, rq0, rq, res.unlinked);
    LeftoverIs(decls, rq0, order, rq);
  }

  /** The buckets pass 2 leaves are `Leftover`. */
  lemma LeftoverIs(decls: seq<DepDecl>, rq0: Buckets, order: seq<string>, rq: Buckets)
    requires rq0.Keys == Elems(order) && BucketsAfter(decls, rq0, order)
    requires rq.Keys == (set k | k in rq0 && !Activated(RequiredOf(Index(decls)), k))
    requires forall k :: k in rq ==> rq[k] == rq0[k]
    ensures rq == Leftover(decls)
  {
    forall k | k in rq
      ensures rq[k] == Waiters(decls, k)
    {
      assert Bucket(rq0, k) == Waiters(decls, k);
    }
  }

  /** Each node is unlinked once for every required parent it lists that is
      never activated, and nothing else is unlinked: pass 1 pushes a node
      into a bucket once per listing, and only the buckets of names never
      activated are left. */
  lemma UnlinkedCount(decls: seq<DepDecl>, res: DepResult, x: string)
    requires WellNamed(decls) && Resolved(decls, res)
    ensures multiset(res.unlinked)[x] ==
      if x in Index(decls) then |Waiting(RequiredOf(Index(decls)), RequiredOf(Index(decls))[x])| else 0
  {
    var P := RequiredOf(Index(decls));
    var rq := Leftover(decls);
    forall k, y | k in rq
      ensures multiset(rq[k])[y] == if y in P then multiset(P[y])[k] else 0
    {
      WaitersCounted(decls, k, y);
    }
    KeysCover(decls);
    LeftoverCount(P, KeyOrder(decls), rq, x);
  }

  /** The bucket `Waiters(decls, k)` holds each node once for every time it
      lists `k` as a required parent. */
  lemma {:induction false} WaitersCounted(decls: seq<DepDecl>, k: string, x: string)
    requires WellNamed(decls)
    ensures multiset(Waiters(decls, k))[x] ==
      if x in Index(decls) then multiset(Index(decls)[x].decl.parentNames)[k] else 0
  {
    if decls != [] {
      var front, d := decls[..|decls| - 1], decls[|decls| - 1];
      assert WellNamed(front);
      WaitersCounted(front, k, x);
      RepeatCount(d.name, multiset(d.parentNames)[k], x);
    }
  }

  /** Every required parent of every node is a key pass 1 creates. */
  lemma {:induction false} KeysCover(decls: seq<DepDecl>)
    ensures forall x :: x in Index(decls) ==> Elems(RequiredOf(Index(decls))[x]) <= Elems(KeyOrder(decls))
  {
    if decls != [] {
      var front, d := decls[..|decls| - 1], decls[|decls| - 1];
      KeysCover(front);
      var before := KeyOrder(front);
      assert Elems(KeyOrder(decls)) == Elems(before) + Elems(NewKeys(Touches(d), Elems(before)));
      assert Elems(d.parentNames) <= Elems(KeyOrder(decls));
    }
  }

  /** The parents and ancestors of every node once pass 3 is done. */
  lemma SettledNodes(g0: Arena, g: Arena, h: Arena)
    requires SameDecls(g0, g) && g.Keys == h.Keys
    requires forall x :: x in g ==> g[x].parents == (if x in ActiveSet(RequiredOf(g0)) then Elems(g[x].decl.parentNames) else {})
    requires forall x :: x in g && (x !in ActiveSet(RequiredOf(g0)) || g[x].decl.parentNames == []) ==> g[x].allAncestors == {}
    requires forall k :: k in g ==> h[k].parents == g[k].parents + (if k in g.Keys then PresentOptionals(g, k) else {})
    requires forall k :: k in g && (k !in g.Keys || PresentOptionals(g, k) == {}) ==> h[k].allAncestors == g[k].allAncestors
    ensures forall x :: x in g0 ==>
      h[x].parents == (if Activated(RequiredOf(g0), x) then Elems(RequiredOf(g0)[x]) else {}) + PresentOptionals(g0, x)
    ensures forall x :: x in g0 && (!Activated(RequiredOf(g0), x) || RequiredOf(g0)[x] == []) && PresentOptionals(g0, x) == {} ==>
      h[x].allAncestors == {}
  {
    var P := RequiredOf(g0);
    forall x | x in g0
      ensures h[x].parents == (if Activated(P, x) then Elems(P[x]) else {}) + PresentOptionals(g0, x)
      ensures (!Activated(P, x) || P[x] == []) && PresentOptionals(g0, x) == {} ==> h[x].allAncestors == {}
    {
      assert g[x].decl == g0[x].decl;
      assert PresentOptionals(g, x) == PresentOptionals(g0, x);
      assert x in ActiveSet(P) <==> Activated(P, x);
    }
  }

  /** The names left in the buckets are exactly the nodes one of whose
      required parents is never activated. */
  lemma UnlinkedExactly(g0: Arena, rq0: Buckets, rq: Buckets, unlinked: seq<string>)
    requires BucketsSound(g0, rq0) && BucketsComplete(g0, rq0)
    requires rq.Keys == (set k | k in rq0 && !Activated(RequiredOf(g0), k))
    requires forall k :: k in rq ==> rq[k] == rq0[k]
    requires forall x :: x in unlinked <==> exists k :: k in rq && x in rq[k]
    ensures forall x :: x in unlinked <==>
      x in g0 && exists i :: 0 <= i < |RequiredOf(g0)[x]| && !Activated(RequiredOf(g0), RequiredOf(g0)[x][i])
  {
    var P := RequiredOf(g0);
    forall x
      ensures x in unlinked <==> x in g0 && exists i :: 0 <= i < |P[x]| && !Activated(P, P[x][i])
    {
      if x in unlinked {
        var k :| k in rq && x in rq[k];
        assert x in rq0[k];
        var i :| 0 <= i < |P[x]| && P[x][i] == k;
      }
      if x in g0 && exists i :: 0 <= i < |P[x]| && !Activated(P, P[x][i]) {
        var i :| 0 <= i < |P[x]| && !Activated(P, P[x][i]);
        var k := P[x][i];
        assert k in rq0 && x in rq0[k];
        assert k in rq;
      }
    }
  }

  /** A node requiring a name that is not a node is unlinked. */
  lemma MissingParentUnlinked(decls: seq<DepDecl>, res: DepResult, x: string, i: int)
    requires Resolved(decls, res)
    requires x in Index(decls) && 0 <= i < |Index(decls)[x].decl.parentNames|
    requires Index(decls)[x].decl.parentNames[i] !in Index(decls)
    ensures x in res.unlinked
  {
    var P := RequiredOf(Index(decls));
    if Activated(P, P[x][i]) {
      ActivatedDeclared(P, P[x][i]);
    }
  }

  /** The members of a group of nodes that require only each other or names
      that are not nodes (a required-parent cycle no root leads into) are all
      unlinked, and have none but their optional parents. */
  lemma CycleUnlinked(decls: seq<DepDecl>, res: DepResult, C: set<string>)
    requires Resolved(decls, res)
    requires forall x :: x in C ==> x in Index(decls) && Index(decls)[x].decl.parentNames != []
    requires forall x, i :: x in C && 0 <= i < |Index(decls)[x].decl.parentNames| ==>
      Index(decls)[x].decl.parentNames[i] in C || Index(decls)[x].decl.parentNames[i] !in Index(decls)
    ensures forall x :: x in C ==> x in res.unlinked && res.nodeList[x].parents == PresentOptionals(Index(decls), x)
  {
    var g0 := Index(decls);
    var P := RequiredOf(g0);
    SelfContainedNeverActivated(P, C);
    forall x | x in C
      ensures x in res.unlinked
    {
      assert !Activated(P, P[x][0]) by {
        if P[x][0] !in C && Activated(P, P[x][0]) {
          ActivatedDeclared(P, P[x][0]);
        }
      }
    }
  }

  /** Two ingest lists that differ only in optional parents. */
  predicate SameRequired(d1: seq<DepDecl>, d2: seq<DepDecl>)
  {
    |d1| == |d2| && forall i :: 0 <= i < |d1| ==> d1[i].name == d2[i].name && d1[i].parentNames == d2[i].parentNames
  }

  /** Optional parents do not change the required parents of any node. */
  lemma {:induction false} RequiredUnchanged(d1: seq<DepDecl>, d2: seq<DepDecl>)
    requires SameRequired(d1, d2)
    ensures RequiredOf(Index(d1)) == RequiredOf(Index(d2))
    decreases |d1|
  {
    if d1 != [] {
      var n := |d1| - 1;
      assert SameRequired(d1[..n], d2[..n]);
      RequiredUnchanged(d1[..n], d2[..n]);
    }
  }

  /** Optional parents decide neither the roots, nor whether `build` fails,
      nor which nodes are unlinked: those depend on required parents only. */
  lemma OptionalsNeverUnlink(d1: seq<DepDecl>, d2: seq<DepDecl>, r1: DepResult, r2: DepResult)
    requires SameRequired(d1, d2)
    ensures Unresolvable(d1) <==> Unresolvable(d2)
    ensures Resolved(d1, r1) && Resolved(d2, r2) ==>
      r1.roots == r2.roots && forall x :: x in r1.unlinked <==> x in r2.unlinked
  {
    RequiredUnchanged(d1, d2);
    var g1, g2 := Index(d1), Index(d2);
    assert g1.Keys == g2.Keys by {
      assert RequiredOf(g1).Keys == RequiredOf(g2).Keys;
    }
    assert RootsOf(g1) == RootsOf(g2) by {
      forall x | x in g1
        ensures g1[x].decl.parentNames == g2[x].decl.parentNames
      {
        assert RequiredOf(g1)[x] == RequiredOf(g2)[x];
      }
    }
    if Unresolvable(d1) {
      var x, p :| x in g1 && Activated(RequiredOf(g1), x) && p in g1[x].decl.parentNames && p !in g1;
      assert RequiredOf(g1)[x] == RequiredOf(g2)[x];
    }
    if Unresolvable(d2) {
      var x, p :| x in g2 && Activated(RequiredOf(g2), x) && p in g2[x].decl.parentNames && p !in g2;
      assert RequiredOf(g1)[x] == RequiredOf(g2)[x];
    }
  }

  /** The line 159 throw, on the smallest input: a root `a` and a node `x`
      requiring `a` and the undeclared name `z`.  `x` is activated through
      `a`, so `build` fails rather than report `x` unlinked. */
  lemma RootBesideMissingFails()
    ensures Unresolvable([DepDecl("a", [], []), DepDecl("x", ["a", "z"], [])])
  {
    var decls := [DepDecl("a", [], []), DepDecl("x", ["a", "z"], [])];
    var g0 := Index(decls);
    assert decls[..1][..0] == [];
    assert g0 == map["a" := FreshNode(decls[0]), "x" := FreshNode(decls[1])];
    var P := RequiredOf(g0);
    assert Activated(P, "a") by {
      forall S | Closed(P, S)
        ensures "a" in S
      {
        assert P["a"] == [];
      }
    }
    ActivatedStep(P, "x", 0);
    assert "z" in g0["x"].decl.parentNames && "z" !in g0;
  }

  /** The graph the tests build (tests/DepResolver.spec.ts:51-66): roots `a`,
      `b`, `c`, `f`, `i` and `j`; `l` requires the missing `z`, and `m` and
      `n` require each other. */
  function SampleGraph(): seq<DepDecl>
  {
    [DepDecl("a", [], []), DepDecl("b", [], []), DepDecl("c", [], []), DepDecl("d", ["b", "c"], []),
     DepDecl("e", ["a", "b", "d"], []), DepDecl("f", [], []), DepDecl("g", ["c", "f"], []),
     DepDecl("h", ["e", "g"], []), DepDecl("i", [], []), DepDecl("j", [], []), DepDecl("k", ["j"], []),
     DepDecl("l", ["z"], []), DepDecl("m", ["n"], []), DepDecl("n", ["m"], [])]
  }

  /** What the tests expect of that graph (tests/DepResolver.spec.ts:79-103):
      `build` does not throw; the roots are `a`, `b`, `c`, `f`, `i` and `j`;
      the unlinked nodes are `l`, `m` and `n`, three entries in all; and `d`
      and `e` have the parents they declare. */
  lemma SampleGraphResolved(decls: seq<DepDecl>, res: DepResult)
    requires decls == SampleGraph() && Resolved(decls, res)
    ensures !Unresolvable(decls)
    ensures res.roots == {"a", "b", "c", "f", "i", "j"}
    ensures forall x :: x in res.unlinked <==> x in {"l", "m", "n"}
    ensures |res.unlinked| == 3
    ensures "d" in res.nodeList && res.nodeList["d"].parents == {"b", "c"}
    ensures "e" in res.nodeList && res.nodeList["e"].parents == {"a", "b", "d"}
  {
    SampleGraphWellNamed(decls);
    SampleGraphIndexed();
    SampleGraphShape(Index(decls));
    SampleResolves(Index(decls));
    SampleGraphRoots(Index(decls));
    SampleGraphUnlinked(decls, res);
    SampleGraphOnce(decls, res);
    SampleGraphParents(decls, res);
  }

  /** The tests' graph names every node once. */
  lemma SampleGraphWellNamed(decls: seq<DepDecl>)
    requires decls == SampleGraph()
    ensures WellNamed(decls)
  {
  }

  /** The names of that graph and the required parents each one declares. */
  ghost predicate SampleGraphShaped(P: Requires)
  {
    && P.Keys == {"a", "b", "c", "d", "e", "f", "g", "h", "i", "j", "k", "l", "m", "n"}
    && P["a"] == [] && P["b"] == [] && P["c"] == [] && P["d"] == ["b", "c"]
    && P["e"] == ["a", "b", "d"] && P["f"] == [] && P["g"] == ["c", "f"] && P["h"] == ["e", "g"]
    && P["i"] == [] && P["j"] == [] && P["k"] == ["j"] && P["l"] == ["z"]
    && P["m"] == ["n"] && P["n"] == ["m"]
  }

  /** The arena of that graph has that shape and no optional parent. */
  lemma SampleGraphShape(g0: Arena)
    requires g0 == SampleGraphArena()
    ensures SampleGraphShaped(RequiredOf(g0))
    ensures forall x :: x in g0 ==> g0[x].decl.optParentNames == []
  {
    SampleGraphRequired(g0);
    SampleRequiresShaped(RequiredOf(g0));
  }

  /** The required parents of that graph, written out. */
  function SampleRequires(): Requires
  {
    map["a" := [], "b" := [], "c" := [], "d" := ["b", "c"], "e" := ["a", "b", "d"], "f" := [],
        "g" := ["c", "f"], "h" := ["e", "g"], "i" := [], "j" := [], "k" := ["j"], "l" := ["z"],
        "m" := ["n"], "n" := ["m"]]
  }

  /** Written out, they have that shape. */
  lemma SampleRequiresShaped(P: Requires)
    requires P == SampleRequires()
    ensures SampleGraphShaped(P)
  {
  }

  /** The arena's required parents are those written out. */
  lemma SampleGraphRequired(g0: Arena)
    requires g0 == SampleGraphArena()
    ensures RequiredOf(g0) == SampleRequires()
  {
  }

  /** The roots of that graph are activated. */
  lemma SampleRootsActive(P: Requires)
    requires SampleGraphShaped(P)
    ensures Activated(P, "a") && Activated(P, "b") && Activated(P, "c")
    ensures Activated(P, "f") && Activated(P, "i") && Activated(P, "j")
  {
    ActivatedRoot(P, "a");
    ActivatedRoot(P, "b");
    ActivatedRoot(P, "c");
    ActivatedRoot(P, "f");
    ActivatedRoot(P, "i");
    ActivatedRoot(P, "j");
  }

  /** `d`, `e`, `g`, `h` and `k` hang below activated nodes. */
  lemma SampleLinkedActive(P: Requires)
    requires SampleGraphShaped(P)
    ensures Activated(P, "d") && Activated(P, "e") && Activated(P, "g") && Activated(P, "h") && Activated(P, "k")
  {
    SampleRootsActive(P);
    ActivatedStep(P, "d", 0);
    ActivatedStep(P, "e", 0);
    ActivatedStep(P, "g", 0);
    ActivatedStep(P, "h", 0);
    ActivatedStep(P, "k", 0);
  }

  /** `l`, `m` and `n` are never activated, and neither is the missing `z`. */
  lemma SampleNeverActive(P: Requires)
    requires SampleGraphShaped(P)
    ensures !Activated(P, "l") && !Activated(P, "m") && !Activated(P, "n") && !Activated(P, "z")
  {
    var C := {"l", "m", "n"};
    assert "z" !in P;
    SelfContainedNeverActivated(P, C);
    if Activated(P, "z") {
      ActivatedDeclared(P, "z");
    }
  }

  /** No activated node of that graph requires a missing name. */
  lemma SampleResolves(g0: Arena)
    requires SampleGraphShaped(RequiredOf(g0))
    ensures !(exists x, p :: x in g0 && Activated(RequiredOf(g0), x) && p in g0[x].decl.parentNames && p !in g0)
  {
    var P := RequiredOf(g0);
    SampleNeverActive(P);
    forall x, p | x in g0 && Activated(P, x) && p in g0[x].decl.parentNames
      ensures p in g0
    {
      assert P[x] == g0[x].decl.parentNames;
    }
  }

  /** Its roots. */
  lemma SampleGraphRoots(g0: Arena)
    requires SampleGraphShaped(RequiredOf(g0))
    ensures RootsOf(g0) == {"a", "b", "c", "f", "i", "j"}
  {
    var P := RequiredOf(g0);
    forall x | x in g0
      ensures g0[x].decl.parentNames == P[x]
    {
    }
  }

  /** The unlinked nodes of that graph. */
  lemma SampleGraphUnlinked(decls: seq<DepDecl>, res: DepResult)
    requires SampleGraphShaped(RequiredOf(Index(decls))) && Resolved(decls, res)
    ensures forall x :: x in res.unlinked <==> x in {"l", "m", "n"}
  {
    SampleWaits(RequiredOf(Index(decls)));
  }

  /** `l`, `m` and `n` are exactly the nodes of that graph with a required
      parent that is never activated. */
  lemma SampleWaits(P: Requires)
    requires SampleGraphShaped(P)
    ensures forall x :: x in P ==> ((exists i :: 0 <= i < |P[x]| && !Activated(P, P[x][i])) <==> x in {"l", "m", "n"})
  {
    SampleRootsActive(P);
    SampleLinkedActive(P);
    SampleNeverActive(P);
    forall x | x in P
      ensures (exists i :: 0 <= i < |P[x]| && !Activated(P, P[x][i])) <==> x in {"l", "m", "n"}
    {
      if x in {"l", "m", "n"} {
        assert !Activated(P, P[x][0]);
      } else {
        forall i | 0 <= i < |P[x]|
          ensures Activated(P, P[x][i])
        {
        }
      }
    }
  }

  /** Each of `l`, `m` and `n` is unlinked once: three entries. */
  lemma SampleGraphOnce(decls: seq<DepDecl>, res: DepResult)
    requires WellNamed(decls) && Resolved(decls, res)
    requires SampleGraphShaped(RequiredOf(Index(decls)))
    requires forall x :: x in res.unlinked <==> x in {"l", "m", "n"}
    ensures |res.unlinked| == 3
  {
    forall x | x in res.unlinked
      ensures multiset(res.unlinked)[x] == 1
    {
      UnlinkedCount(decls, res, x);
      SampleWaitingOnce(RequiredOf(Index(decls)), x);
    }
    OnceDistinct(res.unlinked);
    DistinctSize(res.unlinked);
    ThreeNames(Elems(res.unlinked), "l", "m", "n");
  }

  /** Each of `l`, `m` and `n` waits on one name only. */
  lemma SampleWaitingOnce(P: Requires, x: string)
    requires SampleGraphShaped(P) && x in {"l", "m", "n"}
    ensures x in P && |Waiting(P, P[x])| == 1
  {
    SampleNeverActive(P);
    assert P[x][..0] == [];
  }

  /** `d` and `e` have their declared parents. */
  lemma SampleGraphParents(decls: seq<DepDecl>, res: DepResult)
    requires SampleGraphShaped(RequiredOf(Index(decls))) && Resolved(decls, res)
    requires forall x :: x in Index(decls) ==> Index(decls)[x].decl.optParentNames == []
    ensures "d" in res.nodeList && res.nodeList["d"].parents == {"b", "c"}
    ensures "e" in res.nodeList && res.nodeList["e"].parents == {"a", "b", "d"}
  {
    var P := RequiredOf(Index(decls));
    SampleLinkedActive(P);
    ActivatedParents(decls, res, "d");
    ActivatedParents(decls, res, "e");
    SampleParentSets(P);
  }

  /** The required parents of `d` and `e`, as sets. */
  lemma SampleParentSets(P: Requires)
    requires SampleGraphShaped(P)
    ensures Elems(P["d"]) == {"b", "c"} && Elems(P["e"]) == {"a", "b", "d"}
  {
  }

  /** An activated node with no optional parent has exactly its required
      parents as parents. */
  lemma ActivatedParents(decls: seq<DepDecl>, res: DepResult, x: string)
    requires Resolved(decls, res)
    requires x in Index(decls) && Index(decls)[x].decl.optParentNames == []
    requires Activated(RequiredOf(Index(decls)), x)
    ensures x in res.nodeList && res.nodeList[x].parents == Elems(RequiredOf(Index(decls))[x])
  {
    assert PresentOptionals(Index(decls), x) == {};
  }

  /** The arena of the tests' graph, written out. */
  function SampleGraphArena(): Arena
  {
    map[
      "a" := FreshNode(DepDecl("a", [], [])), "b" := FreshNode(DepDecl("b", [], [])),
      "c" := FreshNode(DepDecl("c", [], [])), "d" := FreshNode(DepDecl("d", ["b", "c"], [])),
      "e" := FreshNode(DepDecl("e", ["a", "b", "d"], [])), "f" := FreshNode(DepDecl("f", [], [])),
      "g" := FreshNode(DepDecl("g", ["c", "f"], [])), "h" := FreshNode(DepDecl("h", ["e", "g"], [])),
      "i" := FreshNode(DepDecl("i", [], [])), "j" := FreshNode(DepDecl("j", [], [])),
      "k" := FreshNode(DepDecl("k", ["j"], [])), "l" := FreshNode(DepDecl("l", ["z"], [])),
      "m" := FreshNode(DepDecl("m", ["n"], [])), "n" := FreshNode(DepDecl("n", ["m"], []))]
  }

  /** The nodes of that graph, by name. */
  lemma SampleGraphIndexed()
    ensures Index(SampleGraph()) == SampleGraphArena()
  {
    var s := SampleGraph();
    assert s[..0] == [];
    IndexSnoc(s[..0], s[0]);
    assert s[..0] + [s[0]] == s[..1];
    IndexSnoc(s[..1], s[1]);
    assert s[..1] + [s[1]] == s[..2];
    IndexSnoc(s[..2], s[2]);
    assert s[..2] + [s[2]] == s[..3];
    IndexSnoc(s[..3], s[3]);
    assert s[..3] + [s[3]] == s[..4];
    IndexSnoc(s[..4], s[4]);
    assert s[..4] + [s[4]] == s[..5];
    IndexSnoc(s[..5], s[5]);
    assert s[..5] + [s[5]] == s[..6];
    IndexSnoc(s[..6], s[6]);
    assert s[..6] + [s[6]] == s[..7];
    IndexSnoc(s[..7], s[7]);
    assert s[..7] + [s[7]] == s[..8];
    IndexSnoc(s[..8], s[8]);
    assert s[..8] + [s[8]] == s[..9];
    IndexSnoc(s[..9], s[9]);
    assert s[..9] + [s[9]] == s[..10];
    IndexSnoc(s[..10], s[10]);
    assert s[..10] + [s[10]] == s[..11];
    IndexSnoc(s[..11], s[11]);
    assert s[..11] + [s[11]] == s[..12];
    IndexSnoc(s[..12], s[12]);
    assert s[..12] + [s[12]] == s[..13];
    IndexSnoc(s[..13], s[13]);
    assert s[..13] + [s[13]] == s[..14];
    assert s[..14] == s;
  }

  /** Indexing one more declaration. */
  lemma IndexSnoc(front: seq<DepDecl>, d: DepDecl)
    ensures Index(front + [d]) == Index(front)[d.name := FreshNode(d)]
  {
    assert (front + [d])[..|front|] == front;
  }
}

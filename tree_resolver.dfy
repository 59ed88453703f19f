/** The two passes of the single-parent resolver, `build` in
    src/TreeResolver.ts: bucketing every node under its parent's name, and
    the pump that links the waiting nodes below their parent.  The source
    repeats `DepResolver`'s pass 1 and pump for this node type, and so does
    this module: `KeyOrder`, `Classify` and the pump mirror their
    counterparts in `DepResolving` over `TreeDecl`. */
module TreeResolving {
  import opened Wrappers
  import opened Activation
  import opened Buckets
  import opened TreeGraph

  /** What `build` resolves to: the roots (`nodes`; `nodes[k]` is always
      `nodeList[k]`), every node by name, and the names of the unlinked nodes
      (`unlinkedNodes[i]` is `nodeList` at that name). */
  datatype TreeResult = TreeResult(roots: set<string>, nodeList: TreeArena, unlinked: seq<string>)

  /** The node list declares every name once and no name is empty. */
  predicate WellNamed(decls: seq<TreeDecl>)
  {
    && (forall i, j :: 0 <= i < j < |decls| ==> decls[i].name != decls[j].name)
    && (forall i :: 0 <= i < |decls| ==> decls[i].name != "")
  }

  /** The names declared in `decls`. */
  function NamesOf(decls: seq<TreeDecl>): set<string>
  {
    set i | 0 <= i < |decls| :: decls[i].name
  }

  /** `nodeList` as line 98 fills it: each declaration in a fresh node under
      its name, a later declaration of a name replacing an earlier one. */
  function Index(decls: seq<TreeDecl>): (g: TreeArena)
    ensures g.Keys == NamesOf(decls)
    ensures forall x :: x in g ==> g[x] == FreshTree(g[x].decl) && g[x].decl.name == x
  {
    if decls == [] then map[]
    else
      var front := decls[..|decls| - 1];
      var d := decls[|decls| - 1];
      assert decls == front + [d];
      assert NamesOf(decls) == NamesOf(front) + {d.name};
      Index(front)[d.name := FreshTree(d)]
  }

  /** The one name a declaration waits for: none for a root, its parent's
      name otherwise. */
  function Needs(d: TreeDecl): seq<string>
  {
    if IsRoot(d) then [] else [d.parent.value]
  }

  /** For each node, the one name it must wait for. */
  function RequiredOf(g: TreeArena): (P: Requires)
    ensures P.Keys == g.Keys
    ensures forall x :: x in g ==> (P[x] == [] <==> IsRoot(g[x].decl))
  {
    map x | x in g :: Needs(g[x].decl)
  }

  /** The bucket key lines 86-96 use for `d`: its own name when it is a
      root, its parent's name otherwise. */
  function Touches(d: TreeDecl): seq<string>
  {
    if IsRoot(d) then [d.name] else [d.parent.value]
  }

  /** The keys of `resolveQueue` after pass 1, in the order pass 1 creates
      them, which is the order `Object.values` lists their buckets in. */
  function KeyOrder(decls: seq<TreeDecl>): (order: seq<string>)
    ensures Distinct(order)
  {
    if decls == [] then []
    else
      var front := KeyOrder(decls[..|decls| - 1]);
      DistinctGrows(front, Touches(decls[|decls| - 1]));
      front + NewKeys(Touches(decls[|decls| - 1]), Elems(front))
  }

  /** The bucket of `k` after pass 1: the name of each non-root declaration
      whose parent is `k`, in declaration order. */
  function Waiters(decls: seq<TreeDecl>, k: string): seq<string>
  {
    if decls == [] then []
    else
      var d := decls[|decls| - 1];
      Waiters(decls[..|decls| - 1], k) + Repeat(d.name, multiset(Needs(d))[k])
  }

  /** The buckets pass 2 leaves: those whose key is never activated. */
  ghost function Leftover(decls: seq<TreeDecl>): Buckets
  {
    var P := RequiredOf(Index(decls));
    map k | k in KeyOrder(decls) && !Activated(P, k) :: Waiters(decls, k)
  }

  /** Pass 1 has been run over `decls`: the buckets were created in the
      order `KeyOrder` gives, and the bucket of each name holds its `Waiters`. */
  ghost predicate BucketsAfter(decls: seq<TreeDecl>, rq: Buckets, order: seq<string>)
  {
    order == KeyOrder(decls) && forall k :: Bucket(rq, k) == Waiters(decls, k)
  }

  /** Running pass 1's step for `decls[i]` extends `BucketsAfter` to one
      more declaration. */
  lemma BucketsAfterStep(decls: seq<TreeDecl>, i: int, rq: Buckets, order: seq<string>, rq': Buckets, order': seq<string>)
    requires 0 <= i < |decls| && rq.Keys == Elems(order) && BucketsAfter(decls[..i], rq, order)
    requires Filed(rq, order, rq', order', Touches(decls[i]), decls[i].name, Needs(decls[i]))
    ensures BucketsAfter(decls[..i + 1], rq', order')
  {
    var ds := decls[..i + 1];
    assert ds[..|ds| - 1] == decls[..i] && ds[|ds| - 1] == decls[i];
    assert KeyOrder(ds) == order + NewKeys(Touches(decls[i]), Elems(order));
    forall k
      ensures Bucket(rq', k) == Waiters(ds, k)
    {
      assert Waiters(ds, k) == Waiters(decls[..i], k) + Repeat(decls[i].name, multiset(Needs(decls[i]))[k]);
    }
  }

  /** The names of the nodes whose parent is falsy. */
  function RootsOf(g: TreeArena): set<string>
  {
    set x | x in g && IsRoot(g[x].decl)
  }

  /** Every waiting name is a non-root node whose parent is the bucket's key. */
  ghost predicate BucketsSound(g: TreeArena, rq: Buckets)
  {
    forall k, x :: k in rq && x in rq[k] ==> x in g && !IsRoot(g[x].decl) && g[x].decl.parent.value == k
  }

  /** Every non-root node waits in the bucket of its parent's name. */
  ghost predicate BucketsComplete(g: TreeArena, rq: Buckets)
  {
    forall x :: x in g && !IsRoot(g[x].decl) ==> g[x].decl.parent.value in rq && x in rq[g[x].decl.parent.value]
  }

  /** Every node of the arena is as `addInstance` made it. */
  ghost predicate AllFresh(g: TreeArena)
  {
    forall x :: x in g ==> g[x] == FreshTree(g[x].decl) && g[x].decl.name == x
  }

  /** The state pass 1 keeps: every node is fresh, the roots are exactly the
      nodes with a falsy parent and are exactly those queued, and the buckets
      hold exactly the nodes waiting on their key. */
  ghost predicate Classified(g: TreeArena, roots: set<string>, rq: Buckets, order: seq<string>, kq: seq<string>)
  {
    && AllFresh(g)
    && roots == RootsOf(g) && Elems(kq) == roots
    && BucketsSound(g, rq) && BucketsComplete(g, rq)
    && rq.Keys == Elems(order)
  }

  /** Pass 1, lines 83-100: index every node, seed `keyQueue` with the roots
      (giving each an empty bucket), and put every other node into the bucket
      of its parent.  `order` lists the bucket keys in the order they were
      created. */
  method Classify(decls: seq<TreeDecl>) returns (g: TreeArena, roots: set<string>, rq: Buckets, order: seq<string>, kq: seq<string>)
    requires WellNamed(decls)
    ensures g == Index(decls) && Classified(g, roots, rq, order, kq)
    ensures BucketsAfter(decls, rq, order)
  {
    g, roots, rq, order, kq := map[], {}, map[], [], [];
    for i := 0 to |decls|
      invariant g == Index(decls[..i]) && Classified(g, roots, rq, order, kq)
      invariant BucketsAfter(decls[..i], rq, order)
    {
      assert decls[..i + 1][..i] == decls[..i];
      assert decls[i].name !in g by {
        assert decls[i].name !in NamesOf(decls[..i]);
      }
      var rq', order';
      g, roots, rq', order', kq := ClassifyNode(g, roots, rq, order, kq, decls[i]);
      BucketsAfterStep(decls, i, rq, order, rq', order');
      rq, order := rq', order';
    }
    assert decls[..|decls|] == decls;
  }

  /** Lines 86-98, for one declaration `d`: a root gets an (empty) bucket if
      it has none yet and is queued; any other node is pushed into the bucket
      of its parent, which is created on first use; either way it is indexed
      by name. */
  method ClassifyNode(g: TreeArena, roots: set<string>, rq: Buckets, order: seq<string>, kq: seq<string>, d: TreeDecl)
    returns (g': TreeArena, roots': set<string>, rq': Buckets, order': seq<string>, kq': seq<string>)
    requires d.name !in g && Classified(g, roots, rq, order, kq)
    ensures g' == g[d.name := FreshTree(d)] && Classified(g', roots', rq', order', kq')
    ensures Filed(rq, order, rq', order', Touches(d), d.name, Needs(d))
  {
    g', roots', rq', order', kq' := g[d.name := FreshTree(d)], roots, rq, order, kq;
    if IsRoot(d) {
      RootFiled(rq, order, d.name);
      if d.name !in rq {
        rq' := rq'[d.name := []];
        order' := order' + [d.name];
      }
      roots' := roots' + {d.name};
      kq' := kq' + [d.name];
    } else {
      var parent := d.parent.value;
      FiledNone(rq, order, d.name, [parent]);
      FiledStep(rq, order, rq, order, d.name, [parent], 0);
      assert [parent][..1] == [parent];
      if parent !in rq {
        rq' := rq'[parent := []];
        order' := order' + [parent];
      }
      rq' := rq'[parent := rq'[parent] + [d.name]];
    }
  }

  /** During pass 2, with `A` the names queued so far and `depth` the
      distance of each from its root: the arena keeps the declarations of
      `g0` and is a forest in which exactly the queued non-roots are linked,
      every root is queued, and every queued name was reached from a root. */
  ghost predicate Queued(g0: TreeArena, g: TreeArena, A: set<string>, depth: map<string, nat>,
                         via: map<string, string>, rank: map<string, nat>)
  {
    SameDecls(g0, g) && Forest(g, A, depth) && Grounded(RequiredOf(g0), A, via, rank) && RootsOf(g0) <= A
  }

  /** Linking and queuing a node `x` that waited in the bucket of the queued
      name `key` keeps `Queued`, with `x` one level below `key` and reached
      through it. */
  lemma QueuedStep(g0: TreeArena, g: TreeArena, A: set<string>, depth: map<string, nat>,
                   via: map<string, string>, rank: map<string, nat>, key: string, x: string)
    requires Queued(g0, g, A, depth, via, rank) && key in A
    requires x in g0 && !IsRoot(g0[x].decl) && g0[x].decl.parent.value == key
    ensures Queued(g0, TreeLinked(g, x, key, {key} + g[key].allAncestors), A + {x}, depth[x := depth[key] + 1],
                   if x in A then via else via[x := key], if x in A then rank else rank[x := rank[key] + 1])
  {
    assert x in g && g[x].decl == g0[x].decl;
    TreeLinkedForest(g, A, depth, x, key);
    LinkKeepsDecls(g, x, key, {key} + g[key].allAncestors);
    GroundedStep(RequiredOf(g0), A, via, rank, key, x);
  }

  /** The body of the `forEach` at lines 108-136, for node `x` waiting in the
      bucket of the queued name `key`: link `x` below `key`, walk up to give
      it every ancestor, and queue it. */
  method LinkAndQueue(g0: TreeArena, g: TreeArena, key: string, x: string,
                      ghost A: set<string>, ghost depth: map<string, nat>,
                      ghost via: map<string, string>, ghost rank: map<string, nat>)
    returns (g': TreeArena, ghost A': set<string>, ghost depth': map<string, nat>,
             ghost via': map<string, string>, ghost rank': map<string, nat>)
    requires Queued(g0, g, A, depth, via, rank) && key in A
    requires x in g0 && !IsRoot(g0[x].decl) && g0[x].decl.parent.value == key
    ensures g' == TreeLinked(g, x, key, {key} + g[key].allAncestors)
    ensures A' == A + {x} && Queued(g0, g', A', depth', via', rank')
  {
    assert x in g && g[x].decl == g0[x].decl;
    g' := LinkTreeNode(g, x, A, depth);
    QueuedStep(g0, g, A, depth, via, rank, key, x);
    A' := A + {x};
    depth' := depth[x := depth[key] + 1];
    via' := if x in A then via else via[x := key];
    rank' := if x in A then rank else rank[x := rank[key] + 1];
  }

  /** Lines 108-136: link every node waiting in the bucket of the queued
      name `key` and queue it, in bucket order. */
  method DrainBucket(g0: TreeArena, g: TreeArena, key: string, bucket: seq<string>, kq: seq<string>,
                     ghost A: set<string>, ghost depth: map<string, nat>,
                     ghost via: map<string, string>, ghost rank: map<string, nat>)
    returns (g': TreeArena, kq': seq<string>, ghost A': set<string>, ghost depth': map<string, nat>,
             ghost via': map<string, string>, ghost rank': map<string, nat>)
    requires Queued(g0, g, A, depth, via, rank) && key in A
    requires forall x :: x in bucket ==> x in g0 && !IsRoot(g0[x].decl) && g0[x].decl.parent.value == key
    ensures kq' == kq + bucket && A' == A + Elems(bucket)
    ensures Queued(g0, g', A', depth', via', rank')
  {
    g', kq' := g, kq;
    A', depth', via', rank' := A, depth, via, rank;
    for i := 0 to |bucket|
      invariant Queued(g0, g', A', depth', via', rank') && key in A'
      invariant kq' == kq + bucket[..i] && A' == A + Elems(bucket[..i])
    {
      g', A', depth', via', rank' := LinkAndQueue(g0, g', key, bucket[i], A', depth', via', rank');
      kq' := kq' + [bucket[i]];
      PrefixGrows(kq, A, bucket, i);
    }
    assert bucket[..|bucket|] == bucket;
  }

  /** What pass 2 leaves behind: the linked nodes and the buckets never drained. */
  datatype PumpState = PumpState(nodeList: TreeArena, resolveQueue: Buckets)

  /** The state of the pump between two names taken off `keyQueue`. */
  ghost predicate Pumping(g0: TreeArena, rq0: Buckets, g: TreeArena, rq: Buckets, kq: seq<string>,
                          A: set<string>, Dq: set<string>, depth: map<string, nat>,
                          via: map<string, string>, rank: map<string, nat>)
  {
    Queued(g0, g, A, depth, via, rank) && "" !in A && Tracked(rq0, rq, kq, A, Dq)
  }

  /** One turn of the loop at lines 106-144: take the name at the front of
      `keyQueue`; if its bucket is not empty, link and queue every node in it;
      delete its bucket.  Either a bucket goes, or the queue gets shorter. */
  method ProcessKey(g0: TreeArena, rq0: Buckets, g: TreeArena, rq: Buckets, kq: seq<string>,
                    ghost A: set<string>, ghost Dq: set<string>, ghost depth: map<string, nat>,
                    ghost via: map<string, string>, ghost rank: map<string, nat>)
    returns (g': TreeArena, rq': Buckets, kq': seq<string>,
             ghost A': set<string>, ghost Dq': set<string>, ghost depth': map<string, nat>,
             ghost via': map<string, string>, ghost rank': map<string, nat>)
    requires BucketsSound(g0, rq0) && "" !in g0
    requires Pumping(g0, rq0, g, rq, kq, A, Dq, depth, via, rank) && kq != []
    ensures Pumping(g0, rq0, g', rq', kq', A', Dq', depth', via', rank')
    ensures rq'.Keys < rq.Keys || (rq'.Keys == rq.Keys && |kq'| < |kq|)
  {
    var processKey := kq[0];
    g', kq' := g, kq[1..];
    Dq' := Dq + {processKey};
    A', depth', via', rank' := A, depth, via, rank;
    if processKey in rq && |rq[processKey]| > 0 {
      BucketMembers(g0, rq0, processKey);
      g', kq', A', depth', via', rank' := DrainBucket(g0, g, processKey, rq[processKey], kq', A, depth, via, rank);
      TrackedDrain(rq0, rq, kq, A, Dq);
    } else {
      TrackedSkip(rq0, rq, kq, A, Dq);
    }
    rq' := rq - {processKey};
  }

  /** Every node waiting in the bucket of `k` is a non-root whose parent is `k`. */
  lemma BucketMembers(g0: TreeArena, rq0: Buckets, k: string)
    requires BucketsSound(g0, rq0) && k in rq0
    ensures forall x :: x in rq0[k] ==> x in g0 && !IsRoot(g0[x].decl) && g0[x].decl.parent.value == k
  {
  }

  /** What pass 2 promises: the arena keeps its declarations and is a forest
      in which the linked nodes are exactly the activated non-roots; and the
      buckets left are exactly, and unchanged, those of the names never
      activated. */
  ghost predicate Pumped(g0: TreeArena, rq0: Buckets, g: TreeArena, rq: Buckets, depth: map<string, nat>)
  {
    && SameDecls(g0, g) && Forest(g, ActiveSet(RequiredOf(g0)), depth)
    && rq.Keys == (set k | k in rq0 && !Activated(RequiredOf(g0), k))
    && (forall k :: k in rq ==> rq[k] == rq0[k])
  }

  /** Pass 2, lines 105-144: the pump.  It takes names off the front of
      `keyQueue`; for a name with a non-empty bucket it links every node
      waiting there and queues it; then it deletes the bucket.  It activates
      exactly the names of `ActiveSet`, so the buckets left are exactly those
      of names never activated.  `depth` is the level of each linked node. */
  method Pump(g0: TreeArena, rq0: Buckets, kq0: seq<string>) returns (s: PumpState, ghost depth: map<string, nat>)
    requires AllFresh(g0) && "" !in g0
    requires BucketsSound(g0, rq0) && BucketsComplete(g0, rq0)
    requires Elems(kq0) == RootsOf(g0)
    ensures Pumped(g0, rq0, s.nodeList, s.resolveQueue, depth)
  {
    var g, rq, kq := g0, rq0, kq0;
    ghost var A := Elems(kq0);
    ghost var Dq: set<string> := {};
    ghost var via: map<string, string> := map[];
    ghost var rank: map<string, nat> := map x | x in A :: 0;
    depth := map x | x in A :: 0;
    PumpStarts(g0, rq0, kq0, depth, rank);
    while kq != [] && kq[0] != ""
      invariant Pumping(g0, rq0, g, rq, kq, A, Dq, depth, via, rank)
      decreases rq.Keys, |kq|
    {
      g, rq, kq, A, Dq, depth, via, rank := ProcessKey(g0, rq0, g, rq, kq, A, Dq, depth, via, rank);
    }
    PumpSettled(g0, rq0, g, rq, kq, A, Dq, depth, via, rank);
    s := PumpState(g, rq);
  }

  /** The queue starts with the roots, each reached at rank 0 and lying at
      depth 0, in an arena where nothing is linked. */
  lemma PumpStarts(g0: TreeArena, rq0: Buckets, kq0: seq<string>, depth: map<string, nat>, rank: map<string, nat>)
    requires AllFresh(g0) && "" !in g0
    requires Elems(kq0) == RootsOf(g0) && depth == (map x | x in Elems(kq0) :: 0) && rank == depth
    ensures Pumping(g0, rq0, g0, rq0, kq0, Elems(kq0), {}, depth, map[], rank)
  {
  }

  /** Once the queue is empty, the queued names are exactly `ActiveSet`, and
      the buckets not drained are exactly those of names never activated. */
  lemma PumpSettled(g0: TreeArena, rq0: Buckets, g: TreeArena, rq: Buckets, kq: seq<string>,
                    A: set<string>, Dq: set<string>, depth: map<string, nat>,
                    via: map<string, string>, rank: map<string, nat>)
    requires BucketsComplete(g0, rq0)
    requires Pumping(g0, rq0, g, rq, kq, A, Dq, depth, via, rank) && !(kq != [] && kq[0] != "")
    ensures Pumped(g0, rq0, g, rq, depth)
  {
    QueueDrained(kq, A);
    var P := RequiredOf(g0);
    assert Closed(P, A) by {
      forall x, i | x in P && 0 <= i < |P[x]| && P[x][i] in A
        ensures x in A
      {
        assert P[x][i] in rq0 && x in rq0[P[x][i]];
      }
    }
    ActivatedExactly(P, A, via, rank);
    assert A == ActiveSet(P);
    forall k | k in rq0 && Activated(P, k)
      ensures k in Dq
    {
      ActivatedDeclared(P, k);
    }
    assert rq.Keys == (set k | k in rq0 && !Activated(P, k));
  }
}

/** The multi-parent resolver, `DepResolver` in src/DepResolver.ts. */
module DepResolving {
  import opened Wrappers
  import opened Activation
  import opened Buckets
  import opened DepGraph
  import opened DepLinking

  /** What `build` resolves to: the roots (`nodes`; `nodes[k]` is always
      `nodeList[k]`), every node by name, and the names of the unlinked nodes
      (`unlinkedNodes[i]` is `nodeList` at that name). */
  datatype DepResult = DepResult(roots: set<string>, nodeList: Arena, unlinked: seq<string>)

  /** The ingest list declares every name once and no name is empty. */
  predicate WellNamed(decls: seq<DepDecl>)
  {
    && (forall i, j :: 0 <= i < j < |decls| ==> decls[i].name != decls[j].name)
    && (forall i :: 0 <= i < |decls| ==> decls[i].name != "")
  }

  /** The names declared in `decls`. */
  function NamesOf(decls: seq<DepDecl>): set<string>
  {
    set i | 0 <= i < |decls| :: decls[i].name
  }

  /** `nodeList` as line 143 fills it: each declaration in a fresh node under
      its name, a later declaration of a name replacing an earlier one. */
  function Index(decls: seq<DepDecl>): (g: Arena)
    ensures g.Keys == NamesOf(decls)
    ensures forall x :: x in g ==> g[x] == FreshNode(g[x].decl) && g[x].decl.name == x
  {
    if decls == [] then map[]
    else
      var front := decls[..|decls| - 1];
      var d := decls[|decls| - 1];
      assert decls == front + [d];
      assert NamesOf(decls) == NamesOf(front) + {d.name};
      Index(front)[d.name := FreshNode(d)]
  }

  /** The bucket keys lines 126-140 use for `d`: its own name when it is a
      root, its required parents otherwise. */
  function Touches(d: DepDecl): seq<string>
  {
    if d.parentNames == [] then [d.name] else d.parentNames
  }

  /** The keys of `resolveQueue` after pass 1, in the order pass 1 creates
      them, which is the order `Object.values` lists their buckets in. */
  function KeyOrder(decls: seq<DepDecl>): (order: seq<string>)
    ensures Distinct(order)
  {
    if decls == [] then []
    else
      var front := KeyOrder(decls[..|decls| - 1]);
      DistinctGrows(front, Touches(decls[|decls| - 1]));
      front + NewKeys(Touches(decls[|decls| - 1]), Elems(front))
  }

  /** The bucket of `k` after pass 1: the name of each declaration, in
      declaration order, once for every time it lists `k` as a required
      parent. */
  function Waiters(decls: seq<DepDecl>, k: string): seq<string>
  {
    if decls == [] then []
    else
      var d := decls[|decls| - 1];
      Waiters(decls[..|decls| - 1], k) + Repeat(d.name, multiset(d.parentNames)[k])
  }

  /** The buckets pass 2 leaves: those whose key is never activated. */
  ghost function Leftover(decls: seq<DepDecl>): Buckets
  {
    var P := RequiredOf(Index(decls));
    map k | k in KeyOrder(decls) && !Activated(P, k) :: Waiters(decls, k)
  }

  /** Every waiting name is a node that requires the bucket's key. */
  ghost predicate BucketsSound(g: Arena, rq: Buckets)
  {
    forall k, x :: k in rq && x in rq[k] ==> x in g && k in g[x].decl.parentNames
  }

  /** Every node waits in the bucket of each name it requires. */
  ghost predicate BucketsComplete(g: Arena, rq: Buckets)
  {
    forall x, i :: x in g && 0 <= i < |g[x].decl.parentNames| ==>
      g[x].decl.parentNames[i] in rq && x in rq[g[x].decl.parentNames[i]]
  }

  /** Every node of the arena is as `addInstance` made it. */
  ghost predicate AllFresh(g: Arena)
  {
    forall x :: x in g ==> g[x] == FreshNode(g[x].decl) && g[x].decl.name == x
  }

  /** The state pass 1 keeps: every node is fresh, the roots are exactly the
      nodes without required parents and are exactly those queued, and the
      buckets hold exactly the nodes requiring their key. */
  ghost predicate Classified(g: Arena, roots: set<string>, rq: Buckets, order: seq<string>, kq: seq<string>)
  {
    && AllFresh(g)
    && roots == RootsOf(g) && Elems(kq) == roots
    && BucketsSound(g, rq) && BucketsComplete(g, rq)
    && rq.Keys == Elems(order)
  }

  /** Pass 1, lines 123-144: index every node, seed `keyQueue` with the roots
      (giving each an empty bucket), and put every other node into the bucket
      of each of its required parents.  `order` lists the bucket keys in the
      order they were created. */
  method Classify(decls: seq<DepDecl>) returns (g: Arena, roots: set<string>, rq: Buckets, order: seq<string>, kq: seq<string>)
    requires WellNamed(decls)
    ensures g == Index(decls) && Classified(g, roots, rq, order, kq)
    ensures BucketsAfter(decls, rq, order)
  {
    g, roots, rq, order, kq := map[], {}, map[], [], [];
    for i := 0 to |decls|
      invariant g == Index(decls[..i]) && Classified(g, roots, rq, order, kq)
      invariant BucketsAfter(decls[..i], rq, order)
    {
      assert decls[..i + 1][..i] == decls[..i];
      assert decls[i].name !in g by {
        assert decls[i].name !in NamesOf(decls[..i]);
      }
      var rq', order';
      g, roots, rq', order', kq := ClassifyNode(g, roots, rq, order, kq, decls[i]);
      BucketsAfterStep(decls, i, rq, order, rq', order');
      rq, order := rq', order';
    }
    assert decls[..|decls|] == decls;
  }

  /** Lines 126-143, for one declaration `d`: a root gets an (empty) bucket
      if it has none yet and is queued; any other node goes into the bucket of
      each of its required parents; either way it is indexed by name. */
  method ClassifyNode(g: Arena, roots: set<string>, rq: Buckets, order: seq<string>, kq: seq<string>, d: DepDecl)
    returns (g': Arena, roots': set<string>, rq': Buckets, order': seq<string>, kq': seq<string>)
    requires d.name !in g && Classified(g, roots, rq, order, kq)
    ensures g' == g[d.name := FreshNode(d)] && Classified(g', roots', rq', order', kq')
    ensures Filed(rq, order, rq', order', Touches(d), d.name, d.parentNames)
  {
    g', roots', rq', order', kq' := g[d.name := FreshNode(d)], roots, rq, order, kq;
    if |d.parentNames| == 0 {
      RootFiled(rq, order, d.name);
      if d.name !in rq {
        rq' := rq'[d.name := []];
        order' := order' + [d.name];
      }
      roots' := roots' + {d.name};
      kq' := kq' + [d.name];
    } else {
      rq', order' := AddToBuckets(g, rq, order, d);
    }
  }

  /** Lines 134-140: push `d.name` into the bucket of each required parent,
      creating the bucket on first use. */
  method AddToBuckets(g: Arena, rq: Buckets, order: seq<string>, d: DepDecl) returns (rq': Buckets, order': seq<string>)
    requires d.name !in g
    requires BucketsSound(g, rq) && BucketsComplete(g, rq) && rq.Keys == Elems(order)
    ensures rq'.Keys == Elems(order')
    ensures BucketsSound(g[d.name := FreshNode(d)], rq') && BucketsComplete(g[d.name := FreshNode(d)], rq')
    ensures Filed(rq, order, rq', order', d.parentNames, d.name, d.parentNames)
  {
    rq', order' := rq, order;
    FiledNone(rq, order, d.name, d.parentNames);
    for j := 0 to |d.parentNames|
      invariant rq'.Keys == Elems(order')
      invariant Filed(rq, order, rq', order', d.parentNames[..j], d.name, d.parentNames[..j])
    {
      var dependency := d.parentNames[j];
      FiledStep(rq, order, rq', order', d.name, d.parentNames, j);
      if dependency !in rq' {
        rq' := rq'[dependency := []];
        order' := order' + [dependency];
      }
      rq' := rq'[dependency := rq'[dependency] + [d.name]];
    }
    assert d.parentNames[..|d.parentNames|] == d.parentNames;
    FiledSound(g, rq, order, rq', order', d);
  }

  /** Filing a new node keeps the buckets sound and complete. */
  lemma FiledSound(g: Arena, rq: Buckets, order: seq<string>, rq': Buckets, order': seq<string>, d: DepDecl)
    requires d.name !in g && BucketsSound(g, rq) && BucketsComplete(g, rq)
    requires Filed(rq, order, rq', order', d.parentNames, d.name, d.parentNames)
    ensures BucketsSound(g[d.name := FreshNode(d)], rq') && BucketsComplete(g[d.name := FreshNode(d)], rq')
  {
    var g' := g[d.name := FreshNode(d)];
    forall k, x | k in rq' && x in rq'[k]
      ensures x in g' && k in g'[x].decl.parentNames
    {
      assert x in Bucket(rq', k);
      RepeatCount(d.name, multiset(d.parentNames)[k], x);
      if x !in Bucket(rq, k) {
        assert x in Repeat(d.name, multiset(d.parentNames)[k]);
      }
    }
    forall x, i | x in g' && 0 <= i < |g'[x].decl.parentNames|
      ensures g'[x].decl.parentNames[i] in rq' && x in rq'[g'[x].decl.parentNames[i]]
    {
      var k := g'[x].decl.parentNames[i];
      RepeatCount(d.name, multiset(d.parentNames)[k], x);
      if x == d.name {
        assert x in Repeat(d.name, multiset(d.parentNames)[k]);
      } else {
        assert x in Bucket(rq, k);
      }
      assert x in Bucket(rq', k);
    }
  }

  /** Pass 1 has been run over `decls`: the buckets were created in the
      order `KeyOrder` gives, and the bucket of each name holds its `Waiters`. */
  ghost predicate BucketsAfter(decls: seq<DepDecl>, rq: Buckets, order: seq<string>)
  {
    order == KeyOrder(decls) && forall k :: Bucket(rq, k) == Waiters(decls, k)
  }

  /** Running pass 1's step for `decls[i]` extends `BucketsAfter` to one
      more declaration. */
  lemma BucketsAfterStep(decls: seq<DepDecl>, i: int, rq: Buckets, order: seq<string>, rq': Buckets, order': seq<string>)
    requires 0 <= i < |decls| && rq.Keys == Elems(order) && BucketsAfter(decls[..i], rq, order)
    requires Filed(rq, order, rq', order', Touches(decls[i]), decls[i].name, decls[i].parentNames)
    ensures BucketsAfter(decls[..i + 1], rq', order')
  {
    assert decls[..i + 1][..i] == decls[..i];
  }

  /** Lines 153-172: link every node waiting in the bucket of the queued name
      `key` and queue it, in bucket order. */
  method DrainBucket(g0: Arena, g: Arena, key: string, bucket: seq<string>, kq: seq<string>,
                     ghost A: set<string>, ghost via: map<string, string>, ghost rank: map<string, nat>)
    returns (r: Result<(Arena, seq<string>), BuildError>,
             ghost A': set<string>, ghost via': map<string, string>, ghost rank': map<string, nat>)
    requires Queued(g0, g, A, via, rank) && key in A
    requires forall x :: x in bucket ==> x in g0 && key in g0[x].decl.parentNames
    ensures r.Failure? ==>
      && Activated(RequiredOf(g0), r.error.node) && r.error.node in g0
      && r.error.parent in g0[r.error.node].decl.parentNames && r.error.parent !in g0
    ensures r.Success? ==> r.value.1 == kq + bucket && A' == A + Elems(bucket)
    ensures r.Success? ==> Queued(g0, r.value.0, A', via', rank')
  {
    var h, q := g, kq;
    A', via', rank' := A, via, rank;
    for i := 0 to |bucket|
      invariant Queued(g0, h, A', via', rank') && key in A'
      invariant q == kq + bucket[..i] && A' == A + Elems(bucket[..i])
    {
      var nodeName := bucket[i];
      var linked;
      linked, A', via', rank' := LinkAndQueue(g0, h, key, nodeName, A', via', rank');
      if linked.Failure? {
        return Failure(linked.error), A', via', rank';
      }
      h := linked.value;
      q := q + [nodeName];
      PrefixGrows(kq, A, bucket, i);
    }
    assert bucket[..|bucket|] == bucket;
    return Success((h, q)), A', via', rank';
  }

  /** What pass 2 leaves behind: the linked nodes and the buckets never drained. */
  datatype PumpState = PumpState(nodeList: Arena, resolveQueue: Buckets)

  /** The state of the pump between two names taken off `keyQueue`. */
  ghost predicate Pumping(g0: Arena, rq0: Buckets, g: Arena, rq: Buckets, kq: seq<string>,
                          A: set<string>, Dq: set<string>, via: map<string, string>, rank: map<string, nat>)
  {
    Queued(g0, g, A, via, rank) && "" !in A && Tracked(rq0, rq, kq, A, Dq)
  }

  /** One turn of the loop at lines 151-178: take the name at the front of
      `keyQueue`; if its bucket is not empty, link and queue every node in it;
      delete its bucket.  Either a bucket goes, or the queue gets shorter. */
  method ProcessKey(g0: Arena, rq0: Buckets, g: Arena, rq: Buckets, kq: seq<string>,
                    ghost A: set<string>, ghost Dq: set<string>,
                    ghost via: map<string, string>, ghost rank: map<string, nat>)
    returns (r: Result<(Arena, Buckets, seq<string>), BuildError>,
             ghost A': set<string>, ghost Dq': set<string>,
             ghost via': map<string, string>, ghost rank': map<string, nat>)
    requires BucketsSound(g0, rq0) && "" !in g0
    requires Pumping(g0, rq0, g, rq, kq, A, Dq, via, rank) && kq != []
    ensures r.Failure? ==>
      && Activated(RequiredOf(g0), r.error.node) && r.error.node in g0
      && r.error.parent in g0[r.error.node].decl.parentNames && r.error.parent !in g0
    ensures r.Success? ==>
      && Pumping(g0, rq0, r.value.0, r.value.1, r.value.2, A', Dq', via', rank')
      && (r.value.1.Keys < rq.Keys || (r.value.1.Keys == rq.Keys && |r.value.2| < |kq|))
  {
    var processKey := kq[0];
    var g', kq' := g, kq[1..];
    Dq' := Dq + {processKey};
    A', via', rank' := A, via, rank;
    if processKey in rq && |rq[processKey]| > 0 {
      var drained;
      BucketMembers(g0, rq0, processKey);
      drained, A', via', rank' := DrainBucket(g0, g, processKey, rq[processKey], kq', A, via, rank);
      if drained.Failure? {
        return Failure(drained.error), A', Dq', via', rank';
      }
      TrackedDrain(rq0, rq, kq, A, Dq);
      g', kq' := drained.value.0, drained.value.1;
    } else {
      TrackedSkip(rq0, rq, kq, A, Dq);
    }
    return Success((g', rq - {processKey}, kq')), A', Dq', via', rank';
  }

  /** Pass 2, lines 150-179: the pump.  It takes names off the front of
      `keyQueue`; for a name with a non-empty bucket it links every node
      waiting there and queues it; then it deletes the bucket.  It activates
      exactly the names of `ActiveSet`, so the buckets left are exactly those
      of names never activated.  It fails exactly when some activated node
      declares a required parent that is not a node. */
  method Pump(g0: Arena, rq0: Buckets, kq0: seq<string>) returns (r: Result<PumpState, BuildError>)
    requires AllFresh(g0) && "" !in g0
    requires BucketsSound(g0, rq0) && BucketsComplete(g0, rq0)
    requires Elems(kq0) == RootsOf(g0)
    ensures r.Failure? ==>
      && Activated(RequiredOf(g0), r.error.node) && r.error.node in g0
      && r.error.parent in g0[r.error.node].decl.parentNames && r.error.parent !in g0
    ensures r.Success? ==> Pumped(g0, rq0, r.value.nodeList, r.value.resolveQueue)
  {
    var g, rq, kq := g0, rq0, kq0;
    ghost var A := Elems(kq0);
    ghost var Dq: set<string> := {};
    ghost var via: map<string, string> := map[];
    ghost var rank: map<string, nat> := map x | x in A :: 0;
    PumpStarts(g0, rq0, kq0, rank);
    while kq != [] && kq[0] != ""
      invariant Pumping(g0, rq0, g, rq, kq, A, Dq, via, rank)
      decreases rq.Keys, |kq|
    {
      var step;
      step, A, Dq, via, rank := ProcessKey(g0, rq0, g, rq, kq, A, Dq, via, rank);
      if step.Failure? {
        return Failure(step.error);
      }
      g, rq, kq := step.value.0, step.value.1, step.value.2;
    }
    PumpSettled(g0, rq0, g, rq, kq, A, Dq, via, rank);
    return Success(PumpState(g, rq));
  }

  /** The queue starts with the roots, each reached at rank 0. */
  lemma PumpStarts(g0: Arena, rq0: Buckets, kq0: seq<string>, rank: map<string, nat>)
    requires AllFresh(g0) && "" !in g0
    requires Elems(kq0) == RootsOf(g0) && rank == map x | x in Elems(kq0) :: 0
    ensures Pumping(g0, rq0, g0, rq0, kq0, Elems(kq0), {}, map[], rank)
  {
  }

  /** What pass 2 promises once it has not failed: every activated node has
      all its required parents; the arena keeps its declarations and
      `Pass2Inv` for exactly the activated names; and the buckets left are
      exactly, and unchanged, those of the names never activated. */
  ghost predicate Pumped(g0: Arena, rq0: Buckets, g: Arena, rq: Buckets)
  {
    && (forall x :: x in g0 && Activated(RequiredOf(g0), x) ==> Elems(g0[x].decl.parentNames) <= g0.Keys)
    && SameDecls(g0, g) && Pass2Inv(g, ActiveSet(RequiredOf(g0)))
    && rq.Keys == (set k | k in rq0 && !Activated(RequiredOf(g0), k))
    && (forall k :: k in rq ==> rq[k] == rq0[k])
  }

  /** Every node waiting in the bucket of `k` requires `k`. */
  lemma BucketMembers(g0: Arena, rq0: Buckets, k: string)
    requires BucketsSound(g0, rq0) && k in rq0
    ensures forall x :: x in rq0[k] ==> x in g0 && k in g0[x].decl.parentNames
  {
  }

  /** Once the queue is empty, the queued names are exactly `ActiveSet`, and
      the buckets not drained are exactly those of names never activated. */
  lemma PumpSettled(g0: Arena, rq0: Buckets, g: Arena, rq: Buckets, kq: seq<string>,
                    A: set<string>, Dq: set<string>, via: map<string, string>, rank: map<string, nat>)
    requires BucketsComplete(g0, rq0)
    requires Pumping(g0, rq0, g, rq, kq, A, Dq, via, rank) && !(kq != [] && kq[0] != "")
    ensures Pumped(g0, rq0, g, rq)
  {
    QueueDrained(kq, A);
    var P := RequiredOf(g0);
    assert Closed(P, A);
    ActivatedExactly(P, A, via, rank);
    assert A == ActiveSet(P);
    forall k | k in rq0 && Activated(P, k)
      ensures k in Dq
    {
      ActivatedDeclared(P, k);
    }
    assert rq.Keys == (set k | k in rq0 && !Activated(P, k));
    forall x | x in g0 && Activated(P, x)
      ensures Elems(g0[x].decl.parentNames) <= g0.Keys
    {
    }
  }
}

/** The per-parent "buckets" both resolvers keep in `resolveQueue`, and the
    flattening of whatever buckets are left into `unlinkedNodes`. */
module Buckets {
  import opened Activation

  /** `resolveQueue`: for a parent name, the names of the nodes waiting on it. */
  type Buckets = map<string, seq<string>>

  /** The set of names in a list. */
  function Elems(s: seq<string>): (r: set<string>)
    ensures forall x :: x in r <==> x in s
  {
    set x | x in s
  }

  /** Growing a prefix of `s` by one element. */
  lemma PrefixGrows(front: seq<string>, seen: set<string>, s: seq<string>, i: int)
    requires 0 <= i < |s|
    ensures s[..i + 1] == s[..i] + [s[i]]
    ensures front + s[..i + 1] == (front + s[..i]) + [s[i]]
    ensures Elems(s[..i + 1]) == Elems(s[..i]) + {s[i]}
    ensures seen + Elems(s[..i + 1]) == (seen + Elems(s[..i])) + {s[i]}
  {
    assert s[..i + 1] == s[..i] + [s[i]];
  }

  /** The members of a growing prefix that lie in `keys`. */
  lemma PresentPrefixGrows(s: seq<string>, i: int, keys: set<string>)
    requires 0 <= i < |s|
    ensures Elems(s[..i + 1]) * keys == Elems(s[..i]) * keys + (if s[i] in keys then {s[i]} else {})
  {
    assert s[..i + 1] == s[..i] + [s[i]];
  }

  /** Taking the front off a queue moves it from the queue to the taken set. */
  lemma QueueShifted(taken: set<string>, q: seq<string>)
    requires q != []
    ensures taken + Elems(q) == (taken + {q[0]}) + Elems(q[1..])
  {
    assert q == [q[0]] + q[1..];
  }

  /** Appending to a queue adds the appended names to its elements. */
  lemma QueueAppended(taken: set<string>, q: seq<string>, more: seq<string>)
    ensures taken + Elems(q + more) == (taken + Elems(q)) + Elems(more)
  {
  }

  /** Deleting the bucket of `k` moves `k` to the names whose bucket is gone. */
  lemma BucketDeleted(rq: Buckets, all: set<string>, gone: set<string>, k: string)
    requires rq.Keys == all - gone
    ensures (rq - {k}).Keys == all - (gone + {k})
    ensures k in rq ==> (rq - {k}).Keys < rq.Keys
    ensures k !in rq ==> (rq - {k}).Keys == rq.Keys
  {
  }

  /** The bucket under `k`, or nothing if `k` has no bucket (any more). */
  function Bucket(rq: Buckets, k: string): seq<string>
  {
    if k in rq then rq[k] else []
  }

  /** The remaining buckets concatenated in the order their keys were
      created, which is the order in which a JavaScript object lists its
      (non-numeric) keys. */
  function Flatten(order: seq<string>, rq: Buckets): seq<string>
  {
    if order == [] then [] else Flatten(order[..|order| - 1], rq) + Bucket(rq, order[|order| - 1])
  }

  /** A name is in the flattening exactly when it waits in some remaining
      bucket whose key is listed in `order`. */
  lemma {:induction false} FlattenMembers(order: seq<string>, rq: Buckets, x: string)
    ensures x in Flatten(order, rq) <==> exists k :: k in order && k in rq && x in rq[k]
    decreases |order|
  {
    if order != [] {
      var init, last := order[..|order| - 1], order[|order| - 1];
      FlattenMembers(init, rq, x);
      assert order == init + [last];
      if x in Flatten(init, rq) {
        var k :| k in init && k in rq && x in rq[k];
        assert k in order;
      }
    }
  }

  /** `Object.values(resolveQueue).reduce(concat)`: lines 204-208 of
      src/DepResolver.ts and 147-149 of src/TreeResolver.ts.  The result
      holds exactly the names still waiting in some bucket. */
  method FlattenBuckets(order: seq<string>, rq: Buckets) returns (unlinked: seq<string>)
    requires rq.Keys <= Elems(order)
    ensures unlinked == Flatten(order, rq)
    ensures forall x :: x in unlinked <==> exists k :: k in rq && x in rq[k]
  {
    unlinked := [];
    for i := 0 to |order|
      invariant unlinked == Flatten(order[..i], rq)
    {
      assert order[..i + 1][..i] == order[..i];
      if order[i] in rq {
        unlinked := unlinked + rq[order[i]];
      }
    }
    assert order[..|order|] == order;
    forall x
      ensures x in unlinked <==> exists k :: k in rq && x in rq[k]
    {
      FlattenMembers(order, rq, x);
    }
  }

  /** No name is listed twice. */
  predicate Distinct(s: seq<string>)
  {
    forall i, j :: 0 <= i < j < |s| ==> s[i] != s[j]
  }

  /** The names of `s` that are not in `seen`, each once, in the order of
      their first use: the buckets that `if (!resolveQueue[k]) resolveQueue[k] = []`
      creates when run for each `k` of `s` in turn over an object whose keys
      are `seen`. */
  function NewKeys(s: seq<string>, seen: set<string>): (r: seq<string>)
    ensures Elems(r) == Elems(s) - seen && Distinct(r)
  {
    if s == [] then []
    else
      var front, k := s[..|s| - 1], s[|s| - 1];
      assert s == front + [k];
      var r := NewKeys(front, seen);
      if k in seen || k in front then r else DistinctSnoc(r, k); r + [k]
  }

  /** Appending a name not yet listed keeps a list distinct. */
  lemma DistinctSnoc(r: seq<string>, k: string)
    requires Distinct(r) && k !in r
    ensures Distinct(r + [k])
  {
  }

  /** Adding the new keys of `s` to a list of distinct keys `order` keeps
      the keys distinct. */
  lemma DistinctGrows(order: seq<string>, s: seq<string>)
    requires Distinct(order)
    ensures Distinct(order + NewKeys(s, Elems(order)))
  {
    var r := NewKeys(s, Elems(order));
    forall i, j | 0 <= i < j < |order + r|
      ensures (order + r)[i] != (order + r)[j]
    {
      if i < |order| <= j {
        assert (order + r)[j] == r[j - |order|] && r[j - |order|] in Elems(r);
      }
    }
  }

  /** A distinct list without its last name is distinct and lacks that name. */
  lemma DistinctFront(order: seq<string>)
    requires Distinct(order) && order != []
    ensures Distinct(order[..|order| - 1]) && order[|order| - 1] !in order[..|order| - 1]
    ensures Elems(order) == Elems(order[..|order| - 1]) + {order[|order| - 1]}
  {
    assert order == order[..|order| - 1] + [order[|order| - 1]];
  }

  /** The name `x`, `n` times. */
  function Repeat(x: string, n: nat): (r: seq<string>)
    ensures |r| == n
  {
    if n == 0 then [] else Repeat(x, n - 1) + [x]
  }

  /** `Repeat(x, n)` holds `x` exactly `n` times and nothing else. */
  lemma {:induction false} RepeatCount(x: string, n: nat, y: string)
    ensures multiset(Repeat(x, n))[y] == if y == x then n else 0
  {
    if n > 0 {
      RepeatCount(x, n - 1, y);
    }
  }

  /** The required parents in `ps` that are never activated, in order: the
      names a node keeps waiting on after the pump. */
  ghost function Waiting(P: Requires, ps: seq<string>): seq<string>
  {
    if ps == [] then []
    else Waiting(P, ps[..|ps| - 1]) + (if Activated(P, ps[|ps| - 1]) then [] else [ps[|ps| - 1]])
  }

  /** `Waiting` keeps every never-activated entry, as often as it occurs, and
      drops every activated one. */
  lemma {:induction false} WaitingCount(P: Requires, ps: seq<string>, k: string)
    ensures multiset(Waiting(P, ps))[k] == if Activated(P, k) then 0 else multiset(ps)[k]
  {
    if ps != [] {
      var front := ps[..|ps| - 1];
      assert ps == front + [ps[|ps| - 1]];
      WaitingCount(P, front, k);
    }
  }

  /** How many entries of `w` lie in `K`. */
  function CountAmong(w: seq<string>, K: set<string>): nat
  {
    if w == [] then 0 else CountAmong(w[..|w| - 1], K) + (if w[|w| - 1] in K then 1 else 0)
  }

  /** Counting among one more key `k` adds the occurrences of `k`. */
  lemma {:induction false} AmongOneMore(w: seq<string>, K: set<string>, k: string)
    requires k !in K
    ensures CountAmong(w, K + {k}) == CountAmong(w, K) + multiset(w)[k]
  {
    if w != [] {
      var front := w[..|w| - 1];
      assert w == front + [w[|w| - 1]];
      AmongOneMore(front, K, k);
    }
  }

  /** No entry lies among no keys. */
  lemma {:induction false} AmongNone(w: seq<string>)
    ensures CountAmong(w, {}) == 0
  {
    if w != [] {
      AmongNone(w[..|w| - 1]);
    }
  }

  /** Counting among a superset of its entries counts every entry. */
  lemma {:induction false} AmongAll(w: seq<string>, K: set<string>)
    requires Elems(w) <= K
    ensures CountAmong(w, K) == |w|
  {
    if w != [] {
      var front := w[..|w| - 1];
      assert w == front + [w[|w| - 1]];
      AmongAll(front, K);
    }
  }

  /** When bucket `k` holds `x` as often as `w` holds `k`, the flattening
      holds `x` once for every entry of `w` among the listed keys. */
  lemma {:induction false} FlattenCount(order: seq<string>, rq: Buckets, x: string, w: seq<string>)
    requires Distinct(order)
    requires forall k :: multiset(Bucket(rq, k))[x] == multiset(w)[k]
    ensures multiset(Flatten(order, rq))[x] == CountAmong(w, Elems(order))
    decreases |order|
  {
    if order != [] {
      var front, last := order[..|order| - 1], order[|order| - 1];
      DistinctFront(order);
      FlattenCount(front, rq, x, w);
      var F, B := Flatten(front, rq), Bucket(rq, last);
      assert Flatten(order, rq) == F + B;
      assert multiset(F + B)[x] == multiset(F)[x] + multiset(B)[x];
      var K := Elems(front);
      AmongOneMore(w, K, last);
    } else {
      assert Elems(order) == {};
      AmongNone(w);
    }
  }

  /** A list in which every entry occurs once is distinct. */
  lemma OnceDistinct(u: seq<string>)
    requires forall x :: x in u ==> multiset(u)[x] == 1
    ensures Distinct(u)
  {
    forall i, j | 0 <= i < j < |u|
      ensures u[i] != u[j]
    {
      TwoCopies(u, i, j);
    }
  }

  /** Two equal entries count twice in the list's multiset. */
  lemma TwoCopies(u: seq<string>, i: nat, j: nat)
    requires i < j < |u|
    ensures u[i] == u[j] ==> multiset(u)[u[i]] >= 2
  {
    assert u == u[..j] + u[j..];
    assert u[i] in u[..j] && u[j] in u[j..];
    assert multiset(u)[u[i]] == multiset(u[..j])[u[i]] + multiset(u[j..])[u[i]];
  }

  /** A distinct list has as many entries as it has names. */
  lemma {:induction false} DistinctSize(u: seq<string>)
    requires Distinct(u)
    ensures |Elems(u)| == |u|
  {
    if u != [] {
      DistinctFront(u);
      DistinctSize(u[..|u| - 1]);
    } else {
      assert Elems(u) == {};
    }
  }

  /** A set holding exactly three different names has three members. */
  lemma ThreeNames(U: set<string>, a: string, b: string, c: string)
    requires a != b && b != c && a != c
    requires forall x :: x in U <==> x in {a, b, c}
    ensures |U| == 3
  {
    assert U == {a, b, c};
  }

  /** Each bucket holds each node once for every time the node lists the
      bucket's name among its required parents, and holds nothing else. */
  ghost predicate BucketsCounted(P: Requires, rq: Buckets)
  {
    forall k, x :: k in rq ==> multiset(rq[k])[x] == if x in P then multiset(P[x])[k] else 0
  }

  /** The buckets left after the pump, flattened, hold a node once for every
      required parent it lists that is never activated, and nothing else. */
  lemma LeftoverCount(P: Requires, order: seq<string>, rq: Buckets, x: string)
    requires Distinct(order) && BucketsCounted(P, rq)
    requires rq.Keys == set k | k in order && !Activated(P, k)
    requires x in P ==> Elems(P[x]) <= Elems(order)
    ensures multiset(Flatten(order, rq))[x] == if x in P then |Waiting(P, P[x])| else 0
  {
    var w := if x in P then Waiting(P, P[x]) else [];
    forall k
      ensures multiset(Bucket(rq, k))[x] == multiset(w)[k]
    {
      if x in P {
        WaitingCount(P, P[x], k);
      }
    }
    FlattenCount(order, rq, x, w);
    forall k | k in w
      ensures k in Elems(order)
    {
      WaitingCount(P, P[x], k);
    }
    AmongAll(w, Elems(order));
  }

  /** Pass 1's bucket work for one node: the buckets of `keys` that do not
      exist yet are created, in order of first use, and `name` is appended
      to the bucket of `k` once for every time `parents` lists `k`. */
  ghost predicate Filed(rq: Buckets, order: seq<string>, rq': Buckets, order': seq<string>,
                        keys: seq<string>, name: string, parents: seq<string>)
  {
    order' == order + NewKeys(keys, rq.Keys)
    && forall k :: Bucket(rq', k) == Bucket(rq, k) + Repeat(name, multiset(parents)[k])
  }

  /** Before any bucket work, nothing has been filed. */
  lemma FiledNone(rq: Buckets, order: seq<string>, name: string, parents: seq<string>)
    ensures Filed(rq, order, rq, order, parents[..0], name, parents[..0])
  {
    assert parents[..0] == [];
  }

  /** A root only gets its own bucket, if it has none yet (lines 127-129 of
      src/DepResolver.ts, 87-89 of src/TreeResolver.ts). */
  lemma RootFiled(rq: Buckets, order: seq<string>, name: string)
    requires rq.Keys == Elems(order)
    ensures name !in rq ==> Filed(rq, order, rq[name := []], order + [name], [name], name, [])
    ensures name in rq ==> Filed(rq, order, rq, order, [name], name, [])
  {
    assert [name][..0] == [];
    assert NewKeys([name], rq.Keys) == if name in rq then [] else [name];
    forall k
      ensures Bucket(rq, k) == Bucket(rq, k) + Repeat(name, multiset([])[k])
      ensures name !in rq ==> Bucket(rq[name := []], k) == Bucket(rq, k) + Repeat(name, multiset([])[k])
    {
      assert Repeat(name, multiset([])[k]) == [];
    }
  }

  /** One more turn of the `forEach` at lines 134-140 of src/DepResolver.ts
      (lines 93-96 of src/TreeResolver.ts, for the one parent there): create
      the bucket of `parents[j]` if it is missing, then append `name` to it. */
  lemma FiledStep(rq: Buckets, order: seq<string>, rq1: Buckets, order1: seq<string>,
                  name: string, parents: seq<string>, j: int)
    requires 0 <= j < |parents| && rq.Keys == Elems(order) && rq1.Keys == Elems(order1)
    requires Filed(rq, order, rq1, order1, parents[..j], name, parents[..j])
    ensures var k := parents[j];
            var rq2 := if k in rq1 then rq1 else rq1[k := []];
            Filed(rq, order, rq2[k := rq2[k] + [name]], if k in rq1 then order1 else order1 + [k],
                  parents[..j + 1], name, parents[..j + 1])
  {
    var k := parents[j];
    var rq2 := if k in rq1 then rq1 else rq1[k := []];
    NewKeysStep(rq.Keys, parents, j, order, order1, rq1);
    BucketStep(rq, rq1, rq2, name, parents, j);
  }

  /** The bucket keys after one more turn, as `NewKeys` lists them. */
  lemma NewKeysStep(seen: set<string>, parents: seq<string>, j: int, order: seq<string>, order1: seq<string>, rq1: Buckets)
    requires 0 <= j < |parents| && seen == Elems(order) && rq1.Keys == Elems(order1)
    requires order1 == order + NewKeys(parents[..j], seen)
    ensures (if parents[j] in rq1 then order1 else order1 + [parents[j]]) == order + NewKeys(parents[..j + 1], seen)
  {
    var s := parents[..j + 1];
    assert s[..|s| - 1] == parents[..j];
    assert parents[j] in rq1 <==> parents[j] in seen || parents[j] in parents[..j];
  }

  /** The buckets after one more turn hold one more `name` under `parents[j]`. */
  lemma BucketStep(rq: Buckets, rq1: Buckets, rq2: Buckets, name: string, parents: seq<string>, j: int)
    requires 0 <= j < |parents|
    requires forall k :: Bucket(rq1, k) == Bucket(rq, k) + Repeat(name, multiset(parents[..j])[k])
    requires rq2 == if parents[j] in rq1 then rq1 else rq1[parents[j] := []]
    ensures forall k :: Bucket(rq2[parents[j] := rq2[parents[j]] + [name]], k) ==
                        Bucket(rq, k) + Repeat(name, multiset(parents[..j + 1])[k])
  {
    var p := parents[j];
    assert rq2[p := rq2[p] + [name]] == rq1[p := Bucket(rq1, p) + [name]];
    var rq3 := rq1[p := Bucket(rq1, p) + [name]];
    assert parents[..j + 1] == parents[..j] + [p];
    forall k
      ensures Bucket(rq3, k) == Bucket(rq, k) + Repeat(name, multiset(parents[..j + 1])[k])
    {
      PushedCount(rq, rq1, name, parents[..j], p, k);
    }
  }

  /** Appending `name` to the bucket of `p` counts one more use of `p`. */
  lemma PushedCount(rq: Buckets, rq1: Buckets, name: string, used: seq<string>, p: string, k: string)
    requires Bucket(rq1, k) == Bucket(rq, k) + Repeat(name, multiset(used)[k])
    ensures Bucket(rq1[p := Bucket(rq1, p) + [name]], k) == Bucket(rq, k) + Repeat(name, multiset(used + [p])[k])
  {
    var c := multiset(used)[k];
    if k == p {
      assert multiset(used + [p])[k] == c + 1;
      assert Repeat(name, c + 1) == Repeat(name, c) + [name];
    } else {
      assert multiset(used + [p])[k] == c;
    }
  }

  /** The bookkeeping of the pump: `A` is the set of names queued so far,
      `Dq` those taken off the queue, the buckets left are those of `rq0` not
      yet taken, and every node waiting under a taken name has been queued. */
  ghost predicate Tracked(rq0: Buckets, rq: Buckets, kq: seq<string>, A: set<string>, Dq: set<string>)
  {
    && A == Dq + Elems(kq)
    && rq.Keys == rq0.Keys - Dq && (forall k :: k in rq ==> rq[k] == rq0[k])
    && (forall k, x :: k in Dq && k in rq0 && x in rq0[k] ==> x in A)
  }

  /** Taking a name whose bucket is gone or empty. */
  lemma TrackedSkip(rq0: Buckets, rq: Buckets, kq: seq<string>, A: set<string>, Dq: set<string>)
    requires Tracked(rq0, rq, kq, A, Dq) && kq != [] && !(kq[0] in rq && |rq[kq[0]]| > 0)
    ensures Tracked(rq0, rq - {kq[0]}, kq[1..], A, Dq + {kq[0]})
    ensures (rq - {kq[0]}).Keys < rq.Keys || (rq - {kq[0]}).Keys == rq.Keys
  {
    QueueShifted(Dq, kq);
    BucketDeleted(rq, rq0.Keys, Dq, kq[0]);
  }

  /** Taking a name and queuing every node in its bucket. */
  lemma TrackedDrain(rq0: Buckets, rq: Buckets, kq: seq<string>, A: set<string>, Dq: set<string>)
    requires Tracked(rq0, rq, kq, A, Dq) && kq != [] && kq[0] in rq
    ensures Tracked(rq0, rq - {kq[0]}, kq[1..] + rq[kq[0]], A + Elems(rq[kq[0]]), Dq + {kq[0]})
    ensures (rq - {kq[0]}).Keys < rq.Keys
  {
    QueueShifted(Dq, kq);
    BucketDeleted(rq, rq0.Keys, Dq, kq[0]);
    QueueAppended(Dq + {kq[0]}, kq[1..], rq[kq[0]]);
  }

  /** The pump stops only on an empty queue, as no queued name is empty. */
  lemma QueueDrained(kq: seq<string>, A: set<string>)
    requires Elems(kq) <= A && "" !in A && !(kq != [] && kq[0] != "")
    ensures kq == []
  {
  }
}

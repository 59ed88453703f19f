/** Which names the resolvers' worklist ("pump") ever activates.

    Both resolvers seed a FIFO queue with the names of the nodes that declare
    no required parent, and a node joins the queue once a name it requires
    has been taken off the queue.  The set of names that is ever activated is
    therefore the least set that contains every root and contains every node
    one of whose required parents it contains.  This module defines that set
    independently of any run (`Activated`), and gives the tool the pump
    proofs use to show that the names a run activated are exactly those
    (`Grounded` and the lemmas below). */
module Activation {

  /** For every declared name, the names of its required parents, in order. */
  type Requires = map<string, seq<string>>

  /** `S` holds every root and every node that requires a name in `S`. */
  ghost predicate Closed(P: Requires, S: set<string>)
  {
    && (forall x :: x in P && P[x] == [] ==> x in S)
    && (forall x, i :: x in P && 0 <= i < |P[x]| && P[x][i] in S ==> x in S)
  }

  /** `x` belongs to the least closed set: it is activated by every run. */
  ghost predicate Activated(P: Requires, x: string)
  {
    forall S :: Closed(P, S) ==> x in S
  }

  /** The names every complete run of the pump activates. */
  ghost function ActiveSet(P: Requires): set<string>
  {
    set x | x in P && Activated(P, x)
  }

  /** Every member of `A` is a root, or was reached through a required parent
      `via[x]` in `A` of smaller `rank`: `A` was built up from the roots. */
  ghost predicate Grounded(P: Requires, A: set<string>, via: map<string, string>, rank: map<string, nat>)
  {
    && (forall x :: x in A ==> x in P && x in rank)
    && (forall x {:trigger P[x]} :: x in A && x in P && P[x] != [] ==>
          x in via && via[x] in A && via[x] in P[x] && via[x] in rank && x in rank && rank[via[x]] < rank[x])
  }

  /** Adding a node `x` reached through a member `key` it requires keeps the
      set grounded. */
  lemma GroundedStep(P: Requires, A: set<string>, via: map<string, string>, rank: map<string, nat>,
                     key: string, x: string)
    requires Grounded(P, A, via, rank) && key in A && x in P && key in P[x]
    ensures Grounded(P, A + {x}, if x in A then via else via[x := key],
                     if x in A then rank else rank[x := rank[key] + 1])
  {
    if x !in A {
      var via', rank' := via[x := key], rank[x := rank[key] + 1];
      forall y | y in A + {x}
        ensures y in P && y in rank'
        ensures P[y] == [] || (y in via' && via'[y] in A + {x} && via'[y] in P[y] && via'[y] in rank' && rank'[via'[y]] < rank'[y])
      {
        if y != x && P[y] != [] {
          assert via'[y] == via[y] && via[y] != x;
        }
      }
    }
  }

  /** A grounded set lies inside every closed set. */
  lemma {:induction false} GroundedWithinClosed(P: Requires, A: set<string>, via: map<string, string>,
                                                 rank: map<string, nat>, S: set<string>, x: string)
    requires Grounded(P, A, via, rank) && Closed(P, S) && x in A
    ensures x in S
    decreases rank[x]
  {
    if P[x] != [] {
      GroundedWithinClosed(P, A, via, rank, S, via[x]);
      var i :| 0 <= i < |P[x]| && P[x][i] == via[x];
    }
  }

  /** Every member of a grounded set is activated. */
  lemma GroundedActivated(P: Requires, A: set<string>, via: map<string, string>, rank: map<string, nat>, x: string)
    requires Grounded(P, A, via, rank) && x in A
    ensures Activated(P, x)
  {
    forall S | Closed(P, S)
      ensures x in S
    {
      GroundedWithinClosed(P, A, via, rank, S, x);
    }
  }

  /** A set that is grounded and closed is exactly the activated names. */
  lemma ActivatedExactly(P: Requires, A: set<string>, via: map<string, string>, rank: map<string, nat>)
    requires Grounded(P, A, via, rank) && Closed(P, A)
    ensures forall x :: x in A <==> Activated(P, x)
  {
    forall x | x in A
      ensures Activated(P, x)
    {
      GroundedActivated(P, A, via, rank, x);
    }
  }

  /** Only declared names are activated. */
  lemma ActivatedDeclared(P: Requires, x: string)
    requires Activated(P, x)
    ensures x in P
  {
    assert Closed(P, P.Keys);
  }

  /** A node that waits for no name is activated. */
  lemma ActivatedRoot(P: Requires, x: string)
    requires x in P && P[x] == []
    ensures Activated(P, x)
  {
  }

  /** A node that requires an activated name is activated. */
  lemma ActivatedStep(P: Requires, x: string, i: int)
    requires x in P && 0 <= i < |P[x]| && Activated(P, P[x][i])
    ensures Activated(P, x)
  {
    forall S | Closed(P, S)
      ensures x in S
    {
      assert P[x][i] in S;
    }
  }

  /** A group of non-root nodes each of whose required parents is in the group
      or is not declared at all is never activated: this is what happens to a
      node whose only parent is missing, and to a required-parent cycle that
      no root leads into. */
  lemma SelfContainedNeverActivated(P: Requires, C: set<string>)
    requires forall x :: x in C ==> x in P && P[x] != []
    requires forall x, i :: x in C && 0 <= i < |P[x]| ==> P[x][i] in C || P[x][i] !in P
    ensures forall x :: x in C ==> !Activated(P, x)
  {
    var S := P.Keys - C;
    assert Closed(P, S);
  }
}

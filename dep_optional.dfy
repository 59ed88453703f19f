/** Pass 3 of `DepResolver.build` in src/DepResolver.ts: optional parents. */
module DepOptional {
  import opened Buckets
  import opened DepGraph

  /** The optional parents of `x` that are nodes of `g`. */
  function PresentOptionals(g: Arena, x: string): (r: set<string>)
    requires x in g
    ensures forall p :: p in r <==> p in g[x].decl.optParentNames && p in g
  {
    Elems(g[x].decl.optParentNames) * g.Keys
  }

  /** `h` is `g` with edges added below `x`: same declarations, the parents
      of `x` those of `g` plus `extra`, every other node's parents unchanged,
      no ancestor lost, and no node but `x` (and not even `x` while nothing
      was added) given a new ancestor. */
  ghost predicate Grown(g: Arena, h: Arena, x: string, extra: set<string>)
    requires x in g
  {
    && SameDecls(g, h)
    && (forall k :: k in g ==> h[k].parents == g[k].parents + (if k == x then extra else {}))
    && (forall k :: k in g ==> g[k].allAncestors <= h[k].allAncestors)
    && (forall k :: k in g && (k != x || extra == {}) ==> h[k].allAncestors == g[k].allAncestors)
  }

  /** Linking `x` under one more parent `p` grows the set of added parents. */
  lemma GrownStep(g: Arena, h: Arena, h': Arena, x: string, extra: set<string>, p: string)
    requires x in g && Grown(g, h, x, extra) && SameDecls(h, h')
    requires forall k :: k in h ==> h'[k].parents == h[k].parents + (if k == x then {p} else {})
    requires forall k :: k in h ==> h[k].allAncestors <= h'[k].allAncestors
    requires forall k :: k in h && k != x ==> h'[k].allAncestors == h[k].allAncestors
    ensures Grown(g, h', x, extra + {p})
  {
    forall k | k in g
      ensures h'[k].parents == g[k].parents + (if k == x then extra + {p} else {})
    {
      assert h'[k].parents == h[k].parents + (if k == x then {p} else {});
    }
    forall k | k in g
      ensures g[k].allAncestors <= h'[k].allAncestors
    {
      assert h[k].allAncestors <= h'[k].allAncestors;
    }
  }

  /** Lines 184-200, for node `x`: link it under each optional parent that is
      a node, in declaration order, skipping (lines 185-187) those that are not. */
  method LinkOptional(g: Arena, x: string) returns (g': Arena)
    requires x in g && WellLinked(g)
    ensures WellLinked(g') && Grown(g, g', x, PresentOptionals(g, x))
  {
    var names := g[x].decl.optParentNames;
    g' := g;
    ghost var added: set<string> := {};
    for j := 0 to |names|
      invariant WellLinked(g') && added == Elems(names[..j]) * g.Keys && Grown(g, g', x, added)
    {
      var optName := names[j];
      PresentPrefixGrows(names, j, g.Keys);
      if optName in g' {
        var h := LinkEdge(g', x, optName);
        LinkStepFrame(g', h, x, optName);
        LinkStepWellLinked(g', h, x, optName);
        GrownStep(g, g', h, x, added, optName);
        g', added := h, added + {optName};
      }
    }
    assert names[..|names|] == names;
  }

  /** `h` is `g` once the nodes in `done` have been linked under their
      optional parents: same declarations, those nodes' parents grown by
      exactly their optional parents that are nodes, no ancestor lost, and
      new ancestors only for those nodes with an optional parent present. */
  ghost predicate OptionalsLinked(g: Arena, h: Arena, done: set<string>)
  {
    && SameDecls(g, h)
    && (forall k :: k in g ==> h[k].parents == g[k].parents + (if k in done then PresentOptionals(g, k) else {}))
    && (forall k :: k in g ==> g[k].allAncestors <= h[k].allAncestors)
    && (forall k :: k in g && (k !in done || PresentOptionals(g, k) == {}) ==> h[k].allAncestors == g[k].allAncestors)
  }

  /** Linking one more node `x` under its optional parents. */
  lemma OptionalsLinkedStep(g: Arena, h: Arena, h': Arena, done: set<string>, x: string)
    requires x in g && OptionalsLinked(g, h, done) && Grown(h, h', x, PresentOptionals(h, x))
    ensures OptionalsLinked(g, h', done + {x})
  {
    assert PresentOptionals(h, x) == PresentOptionals(g, x);
    OptionalsParents(g, h, h', done, x, PresentOptionals(g, x));
    AncestorsKept(g, h, h');
    AncestorsFixed(g, h, h', done, x);
  }

  /** The parents half of `OptionalsLinkedStep`. */
  lemma OptionalsParents(g: Arena, h: Arena, h': Arena, done: set<string>, x: string, extra: set<string>)
    requires x in g && g.Keys == h.Keys == h'.Keys && extra == PresentOptionals(g, x)
    requires forall k :: k in g ==> h[k].parents == g[k].parents + (if k in done then PresentOptionals(g, k) else {})
    requires forall k :: k in h ==> h'[k].parents == h[k].parents + (if k == x then extra else {})
    ensures forall k :: k in g ==> h'[k].parents == g[k].parents + (if k in done + {x} then PresentOptionals(g, k) else {})
  {
    forall k | k in g
      ensures h'[k].parents == g[k].parents + (if k in done + {x} then PresentOptionals(g, k) else {})
    {
      if k == x {
        assert h'[k].parents == h[k].parents + extra;
      } else {
        assert h'[k].parents == h[k].parents;
      }
    }
  }

  /** No ancestor is lost across two steps that each lose none. */
  lemma AncestorsKept(g: Arena, h: Arena, h': Arena)
    requires g.Keys == h.Keys == h'.Keys
    requires forall k :: k in g ==> g[k].allAncestors <= h[k].allAncestors
    requires forall k :: k in h ==> h[k].allAncestors <= h'[k].allAncestors
    ensures forall k :: k in g ==> g[k].allAncestors <= h'[k].allAncestors
  {
  }

  /** Only the nodes linked under some optional parent gain ancestors. */
  lemma AncestorsFixed(g: Arena, h: Arena, h': Arena, done: set<string>, x: string)
    requires x in g && g.Keys == h.Keys == h'.Keys
    requires forall k :: k in g && (k !in done || PresentOptionals(g, k) == {}) ==> h[k].allAncestors == g[k].allAncestors
    requires forall k :: k in h && (k != x || PresentOptionals(h, x) == {}) ==> h'[k].allAncestors == h[k].allAncestors
    requires PresentOptionals(h, x) == PresentOptionals(g, x)
    ensures forall k :: k in g && (k !in done + {x} || PresentOptionals(g, k) == {}) ==> h'[k].allAncestors == g[k].allAncestors
  {
  }

  /** Pass 3, lines 181-201: link every node, in the order of `names`, under
      each of its optional parents that is a node.  Missing optional parents
      are skipped, so this pass never fails; it adds exactly those parents. */
  method LinkOptionals(g: Arena, names: seq<string>) returns (g': Arena)
    requires WellLinked(g) && forall i :: 0 <= i < |names| ==> names[i] in g
    ensures WellLinked(g') && OptionalsLinked(g, g', Elems(names))
  {
    g' := g;
    for i := 0 to |names|
      invariant WellLinked(g') && OptionalsLinked(g, g', Elems(names[..i]))
    {
      var h := LinkOptional(g', names[i]);
      OptionalsLinkedStep(g, g', h, Elems(names[..i]), names[i]);
      PrefixGrows([], {}, names, i);
      g' := h;
    }
    assert names[..|names|] == names;
  }
}

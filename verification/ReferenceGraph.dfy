/** Reachability over a finite reference graph, stated as the least set closed under references.
    A node that is missing from the graph has no outgoing edges.  */
module ReferenceGraph {
  type Graph = map<string, seq<string>>

  ghost predicate ClosedUnder(g: Graph, s: set<string>) {
    forall p, r :: p in s && p in g && r in g[p] ==> r in s
  }

  /** Every closed set that holds the roots holds `p`. */
  ghost predicate Reaches(g: Graph, roots: set<string>, p: string) {
    forall s: set<string> :: roots <= s && ClosedUnder(g, s) ==> p in s
  }

  function Universe(g: Graph, roots: set<string>): set<string> {
    roots + set p, r | p in g && r in g[p] :: r
  }

  /** Everything reachable from the roots, the roots included. */
  ghost function Closure(g: Graph, roots: set<string>): set<string> {
    set p | p in Universe(g, roots) && Reaches(g, roots, p)
  }

  lemma ClosureIsLeast(g: Graph, roots: set<string>)
    ensures roots <= Closure(g, roots)
    ensures ClosedUnder(g, Closure(g, roots))
    ensures forall s: set<string> :: roots <= s && ClosedUnder(g, s) ==> Closure(g, roots) <= s
  {
  }

  /** The universe is itself closed, so reachable nodes never leave it. */
  lemma ReachesIsClosure(g: Graph, roots: set<string>, p: string)
    ensures Reaches(g, roots, p) <==> p in Closure(g, roots)
  {
    assert ClosedUnder(g, Universe(g, roots));
  }

  lemma LeastIsClosure(g: Graph, roots: set<string>, v: set<string>)
    requires roots <= v && ClosedUnder(g, v)
    requires forall p :: p in v ==> Reaches(g, roots, p)
    ensures v == Closure(g, roots)
  {
    ClosureIsLeast(g, roots);
    forall p | p in v ensures p in Closure(g, roots) { ReachesIsClosure(g, roots, p); }
  }

  /** Closures compose: what a reachable node reaches is reachable. */
  lemma ClosureOfMember(g: Graph, roots: set<string>, p: string)
    requires p in Closure(g, roots)
    ensures Closure(g, {p}) <= Closure(g, roots)
  {
    ClosureIsLeast(g, roots);
    ClosureIsLeast(g, {p});
  }

  ghost predicate SameEdges(g: Graph, h: Graph, p: string) {
    forall r :: (p in g && r in g[p]) <==> (p in h && r in h[p])
  }

  /** A closure depends only on the edges of its own members. */
  lemma ClosureFrame(g: Graph, h: Graph, roots: set<string>)
    requires forall p :: p in Closure(g, roots) ==> SameEdges(g, h, p)
    ensures Closure(h, roots) == Closure(g, roots)
  {
    var v := Closure(g, roots);
    ClosureIsLeast(g, roots);
    ClosureIsLeast(h, roots);
    var w := Closure(h, roots);
    assert ClosedUnder(h, v) by {
      forall p, r | p in v && p in h && r in h[p] ensures r in v { assert SameEdges(g, h, p); }
    }
    assert w <= v;
    assert ClosedUnder(g, w) by {
      forall p, r | p in w && p in g && r in g[p] ensures r in w { assert SameEdges(g, h, p); }
    }
  }

  /** A set that the edges of the closure do not leave holds the closure. */
  lemma ClosureWithin(g: Graph, root: string, s: set<string>)
    requires root in s
    requires forall p, r :: p in s && p in Closure(g, {root}) && p in g && r in g[p] ==> r in s
    ensures Closure(g, {root}) <= s
  {
    ClosureIsLeast(g, {root});
    var both := s * Closure(g, {root});
    assert ClosedUnder(g, both);
  }
}

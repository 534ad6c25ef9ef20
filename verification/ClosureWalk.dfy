/** The breadth-first walk of the verifier over a finite graph of good members, and the manifest
    that describes a closure without mentioning the walk.  */
module ClosureWalk {
  import opened TextOrder
  import opened CacheModel
  import opened ReferenceGraph

  type MemberGraph = map<string, Member>

  function Edges(g: MemberGraph): Graph {
    map p | p in g :: g[p].references
  }

  /** Everything reachable from one root. */
  ghost function ClosureOf(g: MemberGraph, root: string): set<string> {
    Closure(Edges(g), {root})
  }

  function Size(g: MemberGraph, p: string, nar: bool): nat {
    if p !in g then 0 else if nar then g[p].narSize else g[p].fileSize
  }

  function Total(g: MemberGraph, ps: seq<string>, nar: bool): nat {
    if ps == [] then 0 else Size(g, ps[0], nar) + Total(g, ps[1..], nar)
  }

  ghost predicate Distinct(s: seq<string>) {
    forall i, j :: 0 <= i < j < |s| ==> s[i] != s[j]
  }

  /** The references that are not in `seen`, in order. */
  function Except(refs: seq<string>, seen: set<string>): seq<string> {
    if refs == [] then []
    else (if refs[0] in seen then [] else [refs[0]]) + Except(refs[1..], seen)
  }

  lemma {:induction false} ExceptElements(refs: seq<string>, seen: set<string>)
    ensures forall r :: r in Except(refs, seen) <==> r in refs && r !in seen
  {
    if refs == [] {
    } else {
      ExceptElements(refs[1..], seen);
      assert refs == [refs[0]] + refs[1..];
    }
  }

  function Unseen(refs: seq<string>, seen: seq<string>): seq<string> {
    Except(refs, set p | p in seen)
  }

  /** How a walk ends; `order` lists the inspected paths, the failing one last. */
  datatype Walk =
    | Complete(order: seq<string>, fileTotal: nat, narTotal: nat)
    | Stuck(order: seq<string>)
    | TooBig(order: seq<string>)

  ghost function Unvisited(g: MemberGraph, order: seq<string>): nat {
    |set p | p in g && p !in order|
  }

  lemma VisitShrinks(g: MemberGraph, order: seq<string>, p: string)
    requires p in g && p !in order
    ensures Unvisited(g, order + [p]) < Unvisited(g, order)
  {
    var before, after := set q | q in g && q !in order, set q | q in g && q !in order + [p];
    assert before == after + {p};
  }

  /** The walk. It ends on every graph: each new member leaves the finite set of unvisited ones. */
  function WalkFrom(g: MemberGraph, queue: seq<string>, order: seq<string>, file: nat, nar: nat): Walk
    decreases Unvisited(g, order), |queue|
  {
    if queue == [] then Complete(order, file, nar)
    else
      var p, rest := queue[0], queue[1..];
      if p in order then WalkFrom(g, rest, order, file, nar)
      else if p !in g then Stuck(order + [p])
      else
        var file', nar' := file + g[p].fileSize, nar + g[p].narSize;
        if file' >= U64_LIMIT || nar' >= U64_LIMIT then TooBig(order + [p])
        else
          VisitShrinks(g, order, p);
          WalkFrom(g, rest + Unseen(g[p].references, order + [p]), order + [p], file', nar')
  }

  function WalkFromRoot(g: MemberGraph, root: string): Walk {
    WalkFrom(g, [root], [], 0, 0)
  }

  // ---- what the walk computes ----

  lemma UnseenElements(refs: seq<string>, seen: seq<string>)
    ensures forall r :: r in Unseen(refs, seen) <==> r in refs && r !in seen
  {
    ExceptElements(refs, set p | p in seen);
  }

  lemma {:induction false} TotalSnoc(g: MemberGraph, ps: seq<string>, p: string, nar: bool)
    ensures Total(g, ps + [p], nar) == Total(g, ps, nar) + Size(g, p, nar)
  {
    if ps == [] {
      assert ps + [p] == [p];
    } else {
      TotalSnoc(g, ps[1..], p, nar);
      assert (ps + [p])[1..] == ps[1..] + [p];
    }
  }

  ghost predicate WalkInvariant(g: MemberGraph, root: string, queue: seq<string>, order: seq<string>) {
    && Distinct(order)
    && (forall p :: p in order ==> p in g && Reaches(Edges(g), {root}, p))
    && (forall p :: p in queue ==> Reaches(Edges(g), {root}, p))
    && (forall p, r :: p in order && r in g[p].references ==> r in order || r in queue)
    && (root in order || root in queue)
    && (order == [] ==> queue == [root])
    && (order != [] ==> order[0] == root)
  }

  lemma ReachesStep(g: Graph, roots: set<string>, p: string, r: string)
    requires Reaches(g, roots, p) && p in g && r in g[p]
    ensures Reaches(g, roots, r)
  {
  }

  lemma WalkStep(g: MemberGraph, root: string, queue: seq<string>, order: seq<string>)
    requires WalkInvariant(g, root, queue, order)
    requires queue != [] && queue[0] !in order && queue[0] in g
    ensures var p := queue[0];
            WalkInvariant(g, root, queue[1..] + Unseen(g[p].references, order + [p]), order + [p])
  {
    var p := queue[0];
    var order', queue' := order + [p], queue[1..] + Unseen(g[p].references, order + [p]);
    UnseenElements(g[p].references, order');
    assert forall q :: q in queue <==> q == p || q in queue[1..] by { assert queue == [p] + queue[1..]; }
    forall r | r in g[p].references ensures Reaches(Edges(g), {root}, r) {
      ReachesStep(Edges(g), {root}, p, r);
    }
  }

  /** The walk started at the root and inspected distinct members of its closure. */
  ghost predicate WalkedInside(g: MemberGraph, root: string, order: seq<string>) {
    && order != [] && order[0] == root && Distinct(order)
    && (forall p :: p in order ==> p in ClosureOf(g, root))
  }

  /** What a walk result says about the closure. */
  ghost predicate WalkSays(g: MemberGraph, root: string, w: Walk) {
    match w
    case Complete(order, file, nar) =>
      && WalkedInside(g, root, order)
      && (set p | p in order) == ClosureOf(g, root) <= g.Keys
      && file == Total(g, order, false) < U64_LIMIT
      && nar == Total(g, order, true) < U64_LIMIT
    case Stuck(order) =>
      && WalkedInside(g, root, order)
      && order[|order| - 1] !in g
    case TooBig(order) =>
      && WalkedInside(g, root, order)
      && (forall p :: p in order ==> p in g)
      && (Total(g, order, false) >= U64_LIMIT || Total(g, order, true) >= U64_LIMIT)
  }

  lemma ReachableIsInClosure(g: MemberGraph, root: string, ps: seq<string>)
    requires forall p :: p in ps ==> Reaches(Edges(g), {root}, p)
    ensures forall p :: p in ps ==> p in ClosureOf(g, root)
  {
    forall p | p in ps ensures p in ClosureOf(g, root) { ReachesIsClosure(Edges(g), {root}, p); }
  }

  /** An empty queue: what was visited is exactly the closure. */
  lemma WalkedClosure(g: MemberGraph, root: string, order: seq<string>)
    requires WalkInvariant(g, root, [], order)
    ensures (set p | p in order) == ClosureOf(g, root) <= g.Keys
  {
    LeastIsClosure(Edges(g), {root}, set p | p in order);
  }

  lemma WalkEnds(g: MemberGraph, root: string, order: seq<string>)
    requires WalkInvariant(g, root, [], order)
    requires Total(g, order, false) < U64_LIMIT && Total(g, order, true) < U64_LIMIT
    ensures WalkSays(g, root, Complete(order, Total(g, order, false), Total(g, order, true)))
  {
    WalkedClosure(g, root, order);
  }

  lemma WalkFails(g: MemberGraph, root: string, queue: seq<string>, order: seq<string>)
    requires WalkInvariant(g, root, queue, order) && queue != [] && queue[0] !in order
    ensures queue[0] !in g ==> WalkSays(g, root, Stuck(order + [queue[0]]))
    ensures queue[0] in g
            && (Total(g, order + [queue[0]], false) >= U64_LIMIT || Total(g, order + [queue[0]], true) >= U64_LIMIT)
            ==> WalkSays(g, root, TooBig(order + [queue[0]]))
  {
    assert queue[0] in queue;
    ReachableIsInClosure(g, root, order + [queue[0]]);
  }

  lemma WalkSkips(g: MemberGraph, root: string, queue: seq<string>, order: seq<string>)
    requires WalkInvariant(g, root, queue, order) && queue != [] && queue[0] in order
    ensures WalkInvariant(g, root, queue[1..], order)
  {
    assert queue == [queue[0]] + queue[1..];
  }

  /** What becomes of a walk that has just added its queue's head to `order`. */
  ghost function Turned(g: MemberGraph, queue: seq<string>, order: seq<string>, file: nat, nar: nat): Walk
    requires queue != []
  {
    if queue[0] !in g then Stuck(order)
    else if file >= U64_LIMIT || nar >= U64_LIMIT then TooBig(order)
    else WalkFrom(g, queue[1..] + Unseen(g[queue[0]].references, order), order, file, nar)
  }

  /** One step of the walk, in terms of totals. */
  lemma WalkUnfolds(g: MemberGraph, queue: seq<string>, order: seq<string>, w: Walk)
    requires queue != [] && queue[0] !in order
    requires w == WalkFrom(g, queue, order, Total(g, order, false), Total(g, order, true))
    ensures w == Turned(g, queue, order + [queue[0]], Total(g, order + [queue[0]], false),
                        Total(g, order + [queue[0]], true))
  {
    TotalSnoc(g, order, queue[0], false);
    TotalSnoc(g, order, queue[0], true);
  }

  lemma {:induction false} WalkIsSound(
      g: MemberGraph, root: string, queue: seq<string>, order: seq<string>, w: Walk)
    requires WalkInvariant(g, root, queue, order)
    requires Total(g, order, false) < U64_LIMIT && Total(g, order, true) < U64_LIMIT
    requires w == WalkFrom(g, queue, order, Total(g, order, false), Total(g, order, true))
    ensures WalkSays(g, root, w)
    decreases Unvisited(g, order), |queue|
  {
    if queue == [] {
      WalkEnds(g, root, order);
    } else if queue[0] in order {
      WalkSkips(g, root, queue, order);
      WalkIsSound(g, root, queue[1..], order, w);
    } else {
      var p, order' := queue[0], order + [queue[0]];
      WalkFails(g, root, queue, order);
      WalkUnfolds(g, queue, order, w);
      if p in g && Total(g, order', false) < U64_LIMIT && Total(g, order', true) < U64_LIMIT {
        VisitShrinks(g, order, p);
        WalkStep(g, root, queue, order);
        WalkIsSound(g, root, queue[1..] + Unseen(g[p].references, order'), order', w);
      }
    }
  }

  lemma WalkFromRootIsSound(g: MemberGraph, root: string)
    ensures WalkSays(g, root, WalkFromRoot(g, root))
  {
    WalkIsSound(g, root, [root], [], WalkFromRoot(g, root));
  }

  /** The two graphs hold the same members at every path of the first one's closure. */
  ghost predicate AgreeOn(g: MemberGraph, h: MemberGraph, ps: set<string>) {
    forall p :: p in ps ==> (p in g <==> p in h) && (p in g ==> g[p] == h[p])
  }

  lemma QueueStaysInside(g: MemberGraph, c: set<string>, queue: seq<string>, seen: seq<string>)
    requires ClosedUnder(Edges(g), c) && queue != [] && (forall q :: q in queue ==> q in c)
    ensures forall q :: q in queue[1..] ==> q in c
    ensures queue[0] in g ==> forall q :: q in queue[1..] + Unseen(g[queue[0]].references, seen) ==> q in c
  {
    if queue[0] in g {
      UnseenElements(g[queue[0]].references, seen);
      assert Edges(g)[queue[0]] == g[queue[0]].references;
    }
  }

  lemma {:induction false} WalkFrame(g: MemberGraph, h: MemberGraph, c: set<string>,
                                     queue: seq<string>, order: seq<string>, file: nat, nar: nat,
                                     v: Walk, w: Walk)
    requires ClosedUnder(Edges(g), c) && AgreeOn(g, h, c) && forall q :: q in queue ==> q in c
    requires v == WalkFrom(g, queue, order, file, nar) && w == WalkFrom(h, queue, order, file, nar)
    ensures v == w
    decreases Unvisited(g, order), |queue|
  {
    if queue == [] {
    } else {
      var p, order' := queue[0], order + [queue[0]];
      QueueStaysInside(g, c, queue, order');
      if p in order {
        WalkFrame(g, h, c, queue[1..], order, file, nar, v, w);
      } else if p in g && file + g[p].fileSize < U64_LIMIT && nar + g[p].narSize < U64_LIMIT {
        VisitShrinks(g, order, p);
        WalkFrame(g, h, c, queue[1..] + Unseen(g[p].references, order'), order',
                  file + g[p].fileSize, nar + g[p].narSize, v, w);
      }
    }
  }

  /** The walk, failures included, depends only on the members of its own closure. */
  lemma WalkDependsOnClosure(g: MemberGraph, h: MemberGraph, root: string)
    requires AgreeOn(g, h, ClosureOf(g, root))
    ensures WalkFromRoot(g, root) == WalkFromRoot(h, root)
    ensures ClosureOf(g, root) == ClosureOf(h, root)
  {
    ClosureIsLeast(Edges(g), {root});
    WalkFrame(g, h, ClosureOf(g, root), [root], [], 0, 0, WalkFromRoot(g, root), WalkFromRoot(h, root));
    forall p | p in ClosureOf(g, root) ensures SameEdges(Edges(g), Edges(h), p) {}
    ClosureFrame(Edges(g), Edges(h), {root});
  }

  ghost predicate Within(g: MemberGraph, h: MemberGraph) {
    forall p :: p in g ==> p in h && h[p] == g[p]
  }

  lemma {:induction false} WalkGrows(g: MemberGraph, h: MemberGraph, queue: seq<string>, order: seq<string>,
                                     file: nat, nar: nat, v: Walk, w: Walk)
    requires Within(g, h)
    requires v == WalkFrom(g, queue, order, file, nar) && w == WalkFrom(h, queue, order, file, nar)
    requires !v.Stuck?
    ensures v == w
    decreases Unvisited(g, order), |queue|
  {
    if queue == [] {
    } else {
      var p := queue[0];
      if p in order {
        WalkGrows(g, h, queue[1..], order, file, nar, v, w);
      } else if file + g[p].fileSize < U64_LIMIT && nar + g[p].narSize < U64_LIMIT {
        VisitShrinks(g, order, p);
        WalkGrows(g, h, queue[1..] + Unseen(g[p].references, order + [p]), order + [p],
                  file + g[p].fileSize, nar + g[p].narSize, v, w);
      }
    }
  }

  /** A walk that met no bad member is not changed by adding members. */
  lemma WalkSurvivesGrowth(g: MemberGraph, h: MemberGraph, root: string)
    requires Within(g, h) && !WalkFromRoot(g, root).Stuck?
    ensures WalkFromRoot(h, root) == WalkFromRoot(g, root)
  {
    WalkGrows(g, h, [root], [], 0, 0, WalkFromRoot(g, root), WalkFromRoot(h, root));
  }

  // ---- the manifest ----

  function ArtifactsAt(g: MemberGraph, ps: seq<string>): (ms: seq<Member>)
    requires forall p :: p in ps ==> p in g
    ensures |ms| == |ps|
    ensures forall i :: 0 <= i < |ps| ==> ms[i] == g[ps[i]]
  {
    if ps == [] then [] else [g[ps[0]]] + ArtifactsAt(g, ps[1..])
  }

  /** The manifest lists `ps`, and `ps` is the closure in ascending order. */
  ghost predicate Lists(g: MemberGraph, m: Manifest, ps: seq<string>) {
    && StrictlySorted(ps)
    && (set p | p in ps) == ClosureOf(g, m.root) <= g.Keys
    && m.artifacts == ArtifactsAt(g, ps)
    && m.totalFileSize == Total(g, ps, false)
    && m.totalNarSize == Total(g, ps, true)
  }

  /** What a manifest of `m.root` must say, without reference to any walk. */
  ghost predicate Describes(g: MemberGraph, m: Manifest) {
    exists ps :: Lists(g, m, ps)
  }

  lemma SameSetSameList(ps: seq<string>, qs: seq<string>)
    requires StrictlySorted(ps) && StrictlySorted(qs) && (set p | p in ps) == (set p | p in qs)
    ensures ps == qs
  {
    var s, t := set p | p in ps, set p | p in qs;
    assert forall y :: (y in ps <==> y in s) && (y in qs <==> y in t);
    SortedIsUnique(ps, qs);
  }

  /** There is one description of a closure. */
  lemma DescriptionIsUnique(g: MemberGraph, a: Manifest, b: Manifest)
    requires Describes(g, a) && Describes(g, b) && a.root == b.root && a.derivation == b.derivation
    ensures a == b
  {
    var ps :| Lists(g, a, ps);
    var qs :| Lists(g, b, qs);
    SameSetSameList(ps, qs);
  }

  lemma {:induction false} TotalOfInsert(g: MemberGraph, x: string, s: seq<string>, nar: bool)
    requires x !in s
    ensures Total(g, Insert(x, s), nar) == Size(g, x, nar) + Total(g, s, nar)
  {
    if s == [] || Less(x, s[0]) {
    } else {
      TotalOfInsert(g, x, s[1..], nar);
    }
  }

  lemma {:induction false} TotalOfSorted(g: MemberGraph, ps: seq<string>, nar: bool)
    requires Distinct(ps)
    ensures Total(g, SortedDistinct(ps), nar) == Total(g, ps, nar)
  {
    if ps == [] {
    } else {
      TotalOfSorted(g, ps[1..], nar);
      SortedDistinctIsSorted(ps[1..]);
      TotalOfInsert(g, ps[0], SortedDistinct(ps[1..]), nar);
    }
  }

  /** Sorting a complete walk gives the description of its closure. */
  lemma SortedWalkDescribes(g: MemberGraph, root: string, m: Manifest)
    requires WalkFromRoot(g, root).Complete?
    requires var w := WalkFromRoot(g, root);
             var ps := SortedDistinct(w.order);
             && (forall p :: p in ps ==> p in g)
             && m.root == root && m.artifacts == ArtifactsAt(g, ps)
             && m.totalFileSize == w.fileTotal && m.totalNarSize == w.narTotal
    ensures Describes(g, m)
  {
    var w := WalkFromRoot(g, root);
    WalkFromRootIsSound(g, root);
    var ps := SortedDistinct(w.order);
    SortedDistinctIsSorted(w.order);
    TotalOfSorted(g, w.order, false);
    TotalOfSorted(g, w.order, true);
    assert (set p | p in ps) == (set p | p in w.order);
    assert Lists(g, m, ps);
  }

  lemma {:induction false} TotalWithout(g: MemberGraph, ps: seq<string>, k: nat, nar: bool)
    requires k < |ps|
    ensures Total(g, ps, nar) == Size(g, ps[k], nar) + Total(g, ps[..k] + ps[k + 1..], nar)
  {
    if k == 0 {
      assert ps[..0] + ps[1..] == ps[1..];
    } else {
      TotalWithout(g, ps[1..], k - 1, nar);
      assert (ps[..k] + ps[k + 1..])[1..] == ps[1..][..k - 1] + ps[1..][k..];
    }
  }

  lemma {:induction false} TotalOfSubset(g: MemberGraph, ps: seq<string>, qs: seq<string>, nar: bool)
    requires Distinct(ps) && forall p :: p in ps ==> p in qs
    ensures Total(g, ps, nar) <= Total(g, qs, nar)
  {
    if ps == [] {
    } else {
      assert ps[0] in ps;
      var k :| 0 <= k < |qs| && qs[k] == ps[0];
      var rest := qs[..k] + qs[k + 1..];
      forall p | p in ps[1..] ensures p in rest {
        assert p in ps && p != ps[0];
        assert qs == qs[..k] + [qs[k]] + qs[k + 1..];
      }
      TotalWithout(g, qs, k, nar);
      TotalOfSubset(g, ps[1..], rest, nar);
    }
  }

  /** A closure with a description whose totals fit is walked to the end. */
  lemma DescribedIsWalked(g: MemberGraph, m: Manifest)
    requires Describes(g, m) && m.totalFileSize < U64_LIMIT && m.totalNarSize < U64_LIMIT
    ensures WalkFromRoot(g, m.root).Complete?
  {
    WalkFromRootIsSound(g, m.root);
    var w := WalkFromRoot(g, m.root);
    var ps :| Lists(g, m, ps);
    assert w.order[|w.order| - 1] in w.order;
    forall p | p in w.order ensures p in ps { assert p in set p | p in ps; }
    TotalOfSubset(g, w.order, ps, false);
    TotalOfSubset(g, w.order, ps, true);
  }
}

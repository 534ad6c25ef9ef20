/** `build_closure_manifest`: the verifier's loop, and exactly when it yields which manifest. */
module ClosureManifest {
  import opened Options
  import opened StorePaths
  import opened TextOrder
  import opened CacheModel
  import opened NarinfoCheck
  import opened ReferenceGraph
  import opened MemberMeaning
  import opened ClosureWalk

  const DRV_SUFFIX: string := ".drv"

  predicate ValidDerivation(d: Option<string>) {
    d.Some? ==> ValidStorePath(d.value) && |d.value| >= 4 && d.value[|d.value| - 4..] == DRV_SUFFIX
  }

  /** `inspected` lists the store paths whose NARInfo was opened, the failing one last. */
  datatype Outcome =
    | Verified(manifest: Manifest)
    | Rejected(inspected: seq<string>, corrupt: Option<string>)

  /** The check of a path that may be malformed. */
  function Inspect(e: Oracles, disk: Disk, key: PublicKey, path: string): Check {
    if ValidStorePath(path) then CheckMember(e, disk, key, path) else Failed(None)
  }

  /** The file the failing member condemns, if any. */
  function Condemned(check: string -> Check, order: seq<string>): Option<string> {
    if order == [] then None
    else match check(order[|order| - 1])
      case Passed(_) => None
      case Failed(corrupt) => corrupt
  }

  lemma CompleteWalkIsInside(g: MemberGraph, root: string)
    requires WalkFromRoot(g, root).Complete?
    ensures forall p :: p in SortedDistinct(WalkFromRoot(g, root).order) ==> p in g
  {
    var order := WalkFromRoot(g, root).order;
    WalkFromRootIsSound(g, root);
    SortedDistinctIsSorted(order);
    forall p | p in order ensures p in g { assert p in set q | q in order; }
  }

  /** The manifest of a completed walk. */
  ghost function Assemble(g: MemberGraph, root: string, derivation: Option<string>): Option<Manifest> {
    var w := WalkFromRoot(g, root);
    if w.Complete? then
      CompleteWalkIsInside(g, root);
      Some(Manifest(root, derivation, ArtifactsAt(g, SortedDistinct(w.order)), w.fileTotal, w.narTotal))
    else None
  }

  lemma AssembleIsDescription(g: MemberGraph, root: string, derivation: Option<string>, m: Manifest)
    ensures Assemble(g, root, derivation) == Some(m)
            <==> && m.root == root && m.derivation == derivation && Describes(g, m)
                 && m.totalFileSize < U64_LIMIT && m.totalNarSize < U64_LIMIT
  {
    WalkFromRootIsSound(g, root);
    if WalkFromRoot(g, root).Complete? {
      CompleteWalkIsInside(g, root);
      var c := Assemble(g, root, derivation).value;
      SortedWalkDescribes(g, root, c);
      if m.root == root && m.derivation == derivation && Describes(g, m) { DescriptionIsUnique(g, c, m); }
    } else if m.root == root && Describes(g, m) && m.totalFileSize < U64_LIMIT && m.totalNarSize < U64_LIMIT {
      DescribedIsWalked(g, m);
    }
  }

  /** What the verifier answers on a graph of good members. */
  ghost function Judge(e: Oracles, g: MemberGraph, root: string, derivation: Option<string>,
                       check: string -> Check): Outcome
  {
    var w := WalkFromRoot(g, root);
    match w
    case Complete(order, _, _) =>
      var m := Assemble(g, root, derivation).value;
      if e.boundary(m) then Verified(m) else Rejected(order, None)
    case Stuck(order) => Rejected(order, Condemned(check, order))
    case TooBig(order) => Rejected(order, None)
  }

  ghost function Build(e: Oracles, disk: Disk, root: string, derivation: Option<string>, key: PublicKey): Outcome {
    if ValidStorePath(root) && ValidDerivation(derivation) then
      Judge(e, Members(e, disk, key), root, derivation, p => Inspect(e, disk, key, p))
    else Rejected([], None)
  }

  lemma JudgeIsDescription(e: Oracles, g: MemberGraph, root: string, derivation: Option<string>,
                           check: string -> Check, m: Manifest)
    ensures Judge(e, g, root, derivation, check) == Verified(m)
            <==> && m.root == root && m.derivation == derivation && Describes(g, m)
                 && m.totalFileSize < U64_LIMIT && m.totalNarSize < U64_LIMIT && e.boundary(m)
  {
    AssembleIsDescription(g, root, derivation, m);
  }

  /** The verifier accepts exactly one manifest, the description of the closure, and accepts it
      exactly when root, totals and boundary allow it.  */
  lemma BuildIsDescription(e: Oracles, disk: Disk, root: string, derivation: Option<string>, key: PublicKey,
                           m: Manifest)
    ensures Build(e, disk, root, derivation, key) == Verified(m)
            <==> && ValidStorePath(root) && ValidDerivation(derivation)
                 && m.root == root && m.derivation == derivation
                 && Describes(Members(e, disk, key), m)
                 && m.totalFileSize < U64_LIMIT && m.totalNarSize < U64_LIMIT
                 && e.boundary(m)
  {
    JudgeIsDescription(e, Members(e, disk, key), root, derivation, p => Inspect(e, disk, key, p), m);
  }

  // ---- acceptance, said on the disk ----

  ghost function Sizes(artifacts: seq<Member>, nar: bool): nat {
    if artifacts == [] then 0
    else (if nar then artifacts[0].narSize else artifacts[0].fileSize) + Sizes(artifacts[1..], nar)
  }

  predicate Has(m: Manifest, path: string) {
    exists i :: 0 <= i < |m.artifacts| && m.artifacts[i].storePath == path
  }

  /** The set holds the root, and with an artifact everything it refers to. */
  ghost predicate HoldsReferences(m: Manifest, s: set<string>) {
    && m.root in s
    && forall i, r :: 0 <= i < |m.artifacts| && m.artifacts[i].storePath in s && r in m.artifacts[i].references ==>
         r in s
  }

  /** The artifacts are the root and what it refers to, directly or not, and nothing else. */
  ghost predicate IsWholeClosure(m: Manifest) {
    && Has(m, m.root)
    && (forall i, r :: 0 <= i < |m.artifacts| && r in m.artifacts[i].references ==> Has(m, r))
    && (forall s, i :: HoldsReferences(m, s) && 0 <= i < |m.artifacts| ==> m.artifacts[i].storePath in s)
  }

  ghost predicate SortedByPath(artifacts: seq<Member>) {
    forall i, j :: 0 <= i < j < |artifacts| ==> Less(artifacts[i].storePath, artifacts[j].storePath)
  }

  ghost predicate AllStand(e: Oracles, disk: Disk, key: PublicKey, m: Manifest) {
    forall i :: 0 <= i < |m.artifacts| ==> Stands(e, disk, key, m.artifacts[i].storePath, m.artifacts[i])
  }

  /** The artifacts are signed records with their NARs, sorted, a whole closure, and summed up. */
  ghost predicate Supported(e: Oracles, disk: Disk, key: PublicKey, m: Manifest) {
    && AllStand(e, disk, key, m) && SortedByPath(m.artifacts) && IsWholeClosure(m)
    && m.totalFileSize == Sizes(m.artifacts, false) && m.totalNarSize == Sizes(m.artifacts, true)
  }

  ghost predicate IsDerivation(path: string) {
    IsStorePath(path) && exists stem :: path == stem + ".drv"
  }

  /** The manifest of `root` that this disk supports under this key. */
  ghost predicate Certified(e: Oracles, disk: Disk, root: string, derivation: Option<string>, key: PublicKey,
                            m: Manifest)
  {
    && IsStorePath(root) && m.root == root && m.derivation == derivation
    && (derivation.Some? ==> IsDerivation(derivation.value))
    && Supported(e, disk, key, m)
    && m.totalFileSize < 0x1_0000_0000_0000_0000 && m.totalNarSize < 0x1_0000_0000_0000_0000
    && e.boundary(m)
  }

  lemma {:induction false} SizesAreTotals(g: MemberGraph, ps: seq<string>, nar: bool)
    requires forall p :: p in ps ==> p in g
    ensures Sizes(ArtifactsAt(g, ps), nar) == Total(g, ps, nar)
  {
    if ps == [] {
    } else {
      SizesAreTotals(g, ps[1..], nar);
      assert ArtifactsAt(g, ps)[1..] == ArtifactsAt(g, ps[1..]);
    }
  }

  lemma DerivationMeans(d: Option<string>)
    ensures ValidDerivation(d) <==> (d.Some? ==> IsDerivation(d.value))
  {
    if d.Some? {
      ValidIsComposed(d.value);
      if ValidDerivation(d) { assert d.value == d.value[..|d.value| - 4] + ".drv"; }
      if stem :| d.value == stem + ".drv" { assert d.value[|d.value| - 4..] == ".drv"; }
    }
  }

  function PathsOf(m: Manifest): (ps: seq<string>)
    ensures |ps| == |m.artifacts| && forall i :: 0 <= i < |ps| ==> ps[i] == m.artifacts[i].storePath
  {
    seq(|m.artifacts|, i requires 0 <= i < |m.artifacts| => m.artifacts[i].storePath)
  }

  lemma HasIsListed(m: Manifest, path: string)
    ensures Has(m, path) <==> path in PathsOf(m)
  {
    if Has(m, path) {
      var i :| 0 <= i < |m.artifacts| && m.artifacts[i].storePath == path;
      assert PathsOf(m)[i] == path;
    }
  }

  /** The manifest's artifacts are the graph's members at its paths. */
  ghost predicate Agrees(g: MemberGraph, m: Manifest) {
    forall i :: 0 <= i < |m.artifacts| ==>
      m.artifacts[i].storePath in g && g[m.artifacts[i].storePath] == m.artifacts[i]
  }

  lemma ClosureHeld(g: MemberGraph, m: Manifest, s: set<string>)
    requires Agrees(g, m) && (set p | p in PathsOf(m)) == ClosureOf(g, m.root) && HoldsReferences(m, s)
    ensures ClosureOf(g, m.root) <= s
  {
    forall p, r | p in s && p in ClosureOf(g, m.root) && p in Edges(g) && r in Edges(g)[p] ensures r in s {
      assert p in set q | q in PathsOf(m);
      var i :| 0 <= i < |PathsOf(m)| && PathsOf(m)[i] == p;
      assert m.artifacts[i].storePath == p && r in m.artifacts[i].references;
    }
    ClosureWithin(Edges(g), m.root, s);
  }

  lemma ClosureIsWhole(g: MemberGraph, m: Manifest)
    requires Agrees(g, m) && (set p | p in PathsOf(m)) == ClosureOf(g, m.root)
    ensures IsWholeClosure(m)
  {
    var c := set p | p in PathsOf(m);
    ClosureIsLeast(Edges(g), {m.root});
    HasIsListed(m, m.root);
    forall i, r | 0 <= i < |m.artifacts| && r in m.artifacts[i].references ensures Has(m, r) {
      assert PathsOf(m)[i] in c && r in Edges(g)[PathsOf(m)[i]];
      assert r in c;
      HasIsListed(m, r);
    }
    forall s, i | HoldsReferences(m, s) && 0 <= i < |m.artifacts| ensures m.artifacts[i].storePath in s {
      ClosureHeld(g, m, s);
      assert PathsOf(m)[i] in c;
    }
  }

  lemma ClosedHolds(g: MemberGraph, m: Manifest, s: set<string>)
    requires Agrees(g, m) && m.root in s && ClosedUnder(Edges(g), s)
    ensures HoldsReferences(m, s)
  {
    forall i, r | 0 <= i < |m.artifacts| && m.artifacts[i].storePath in s && r in m.artifacts[i].references
      ensures r in s
    {
      assert r in Edges(g)[m.artifacts[i].storePath];
    }
  }

  lemma WholeIsClosure(g: MemberGraph, m: Manifest)
    requires Agrees(g, m) && IsWholeClosure(m)
    ensures (set p | p in PathsOf(m)) == ClosureOf(g, m.root) <= g.Keys
  {
    var c := set p | p in PathsOf(m);
    HasIsListed(m, m.root);
    forall p, r | p in c && p in Edges(g) && r in Edges(g)[p] ensures r in c {
      var i :| 0 <= i < |PathsOf(m)| && PathsOf(m)[i] == p;
      assert r in m.artifacts[i].references;
      HasIsListed(m, r);
    }
    forall p | p in c ensures p in g && Reaches(Edges(g), {m.root}, p) {
      var i :| 0 <= i < |PathsOf(m)| && PathsOf(m)[i] == p;
      forall s | {m.root} <= s && ClosedUnder(Edges(g), s) ensures p in s { ClosedHolds(g, m, s); }
    }
    LeastIsClosure(Edges(g), {m.root}, c);
  }

  lemma SortedPaths(m: Manifest)
    ensures StrictlySorted(PathsOf(m)) <==> SortedByPath(m.artifacts)
  {
    assert forall i :: 0 <= i < |m.artifacts| ==> PathsOf(m)[i] == m.artifacts[i].storePath;
  }

  lemma MembersNameThemselves(e: Oracles, disk: Disk, key: PublicKey)
    ensures forall q :: q in Members(e, disk, key) ==> Members(e, disk, key)[q].storePath == q
  {
    forall q | q in Members(e, disk, key) ensures Members(e, disk, key)[q].storePath == q {
      MembersAreChecked(e, disk, key, q);
      MemberShape(e, disk, key, q);
    }
  }

  lemma ListedAgrees(g: MemberGraph, m: Manifest, ps: seq<string>)
    requires Lists(g, m, ps) && forall q :: q in g ==> g[q].storePath == q
    ensures Agrees(g, m) && PathsOf(m) == ps
  {
    forall i | 0 <= i < |m.artifacts| ensures m.artifacts[i].storePath == ps[i] { assert ps[i] in ps; }
  }

  lemma WholeIsListed(g: MemberGraph, m: Manifest)
    requires Agrees(g, m) && SortedByPath(m.artifacts) && IsWholeClosure(m)
    requires m.totalFileSize == Sizes(m.artifacts, false) && m.totalNarSize == Sizes(m.artifacts, true)
    ensures Lists(g, m, PathsOf(m))
  {
    var ps := PathsOf(m);
    SortedPaths(m);
    WholeIsClosure(g, m);
    assert ArtifactsAt(g, ps) == m.artifacts;
    SizesAreTotals(g, ps, false);
    SizesAreTotals(g, ps, true);
  }

  lemma AgreeingStands(e: Oracles, disk: Disk, key: PublicKey, m: Manifest)
    ensures AllStand(e, disk, key, m) <==> Agrees(Members(e, disk, key), m)
  {
    forall i | 0 <= i < |m.artifacts|
      ensures var path := m.artifacts[i].storePath;
              Stands(e, disk, key, path, m.artifacts[i])
              <==> path in Members(e, disk, key) && Members(e, disk, key)[path] == m.artifacts[i]
    {
      MemberMeans(e, disk, key, m.artifacts[i].storePath, m.artifacts[i]);
      MembersAreChecked(e, disk, key, m.artifacts[i].storePath);
    }
  }

  lemma DescribedIsSupported(e: Oracles, disk: Disk, key: PublicKey, m: Manifest)
    requires Describes(Members(e, disk, key), m)
    ensures Supported(e, disk, key, m)
  {
    var ps :| Lists(Members(e, disk, key), m, ps);
    MembersNameThemselves(e, disk, key);
    ListedAgrees(Members(e, disk, key), m, ps);
    AgreeingStands(e, disk, key, m);
    SortedPaths(m);
    ClosureIsWhole(Members(e, disk, key), m);
    SizesAreTotals(Members(e, disk, key), ps, false);
    SizesAreTotals(Members(e, disk, key), ps, true);
  }

  lemma SupportedIsDescribed(e: Oracles, disk: Disk, key: PublicKey, m: Manifest)
    requires Supported(e, disk, key, m)
    ensures Describes(Members(e, disk, key), m)
  {
    AgreeingStands(e, disk, key, m);
    WholeIsListed(Members(e, disk, key), m);
  }

  /** The verifier accepts a manifest exactly when the disk supports it: every artifact is a signed
      record with its NAR, and together they are the whole closure of the root.  */
  lemma BuildIsCertified(e: Oracles, disk: Disk, root: string, derivation: Option<string>, key: PublicKey, m: Manifest)
    ensures Build(e, disk, root, derivation, key) == Verified(m) <==> Certified(e, disk, root, derivation, key, m)
  {
    BuildIsDescription(e, disk, root, derivation, key, m);
    ValidIsComposed(root);
    DerivationMeans(derivation);
    if Describes(Members(e, disk, key), m) { DescribedIsSupported(e, disk, key, m); }
    if Supported(e, disk, key, m) { SupportedIsDescribed(e, disk, key, m); }
  }

  lemma AssembleDependsOnClosure(g: MemberGraph, h: MemberGraph, root: string, derivation: Option<string>)
    requires AgreeOn(g, h, ClosureOf(g, root))
    ensures Assemble(g, root, derivation) == Assemble(h, root, derivation)
  {
    WalkDependsOnClosure(g, h, root);
    var w := WalkFromRoot(g, root);
    if w.Complete? {
      var ps := SortedDistinct(w.order);
      CompleteWalkIsInside(g, root);
      CompleteWalkIsInside(h, root);
      SortedDistinctIsSorted(w.order);
      WalkFromRootIsSound(g, root);
      assert ArtifactsAt(g, ps) == ArtifactsAt(h, ps);
    }
  }

  /** A verdict of acceptance depends only on the members of the closure. */
  lemma JudgeDependsOnClosure(e: Oracles, g: MemberGraph, h: MemberGraph, root: string, derivation: Option<string>,
                              check: string -> Check, check': string -> Check)
    requires AgreeOn(g, h, ClosureOf(g, root)) && Judge(e, g, root, derivation, check).Verified?
    ensures Judge(e, h, root, derivation, check') == Judge(e, g, root, derivation, check)
  {
    WalkDependsOnClosure(g, h, root);
    AssembleDependsOnClosure(g, h, root, derivation);
  }

  /** `g` holds what the check finds. */
  ghost predicate GraphOf(check: string -> Check, g: MemberGraph) {
    forall p :: match check(p)
                case Passed(m) => p in g && g[p] == m
                case Failed(_) => p !in g
  }

  lemma MembersAreGraph(e: Oracles, disk: Disk, key: PublicKey)
    ensures GraphOf(p => Inspect(e, disk, key, p), Members(e, disk, key))
  {
    forall p
      ensures match Inspect(e, disk, key, p)
              case Passed(m) => p in Members(e, disk, key) && Members(e, disk, key)[p] == m
              case Failed(_) => p !in Members(e, disk, key)
    {
      MembersAreChecked(e, disk, key, p);
    }
  }

  /** The breadth-first loop over whatever checks a member. */
  method WalkClosure(check: string -> Check, root: string, ghost g: MemberGraph)
    returns (w: Walk, members: MemberGraph)
    requires GraphOf(check, g)
    ensures w == WalkFromRoot(g, root)
    ensures w.Complete? ==> Within(members, g) && forall p :: p in w.order ==> p in members
  {
    var queue, visited, inspected := [root], {}, [];
    members := map[];
    var fileTotal: nat, narTotal: nat := 0, 0;
    while queue != []
      invariant WalkFrom(g, queue, inspected, fileTotal, narTotal) == WalkFromRoot(g, root)
      invariant forall p :: p in visited <==> p in inspected
      invariant forall p :: p in inspected ==> p in members
      invariant Within(members, g)
      decreases Unvisited(g, inspected), |queue|
    {
      var path := queue[0];
      queue := queue[1..];
      if path in visited {
        continue;
      }
      visited := visited + {path};
      match check(path)
      case Failed(_) =>
        return Stuck(inspected + [path]), members;
      case Passed(member) =>
        VisitShrinks(g, inspected, path);
        fileTotal, narTotal := fileTotal + member.fileSize, narTotal + member.narSize;
        inspected := inspected + [path];
        if fileTotal >= U64_LIMIT || narTotal >= U64_LIMIT {
          return TooBig(inspected), members;
        }
        queue := queue + Unseen(member.references, inspected);
        members := members[path := member];
    }
    w := Complete(inspected, fileTotal, narTotal);
  }

  /** The verifier on any graph the check finds. */
  method JudgeClosure(e: Oracles, check: string -> Check, root: string, derivation: Option<string>,
                      ghost g: MemberGraph)
    returns (out: Outcome)
    requires GraphOf(check, g)
    ensures out == Judge(e, g, root, derivation, check)
  {
    var w, members := WalkClosure(check, root, g);
    match w
    case Stuck(order) => out := Rejected(order, Condemned(check, order));
    case TooBig(order) => out := Rejected(order, None);
    case Complete(order, fileTotal, narTotal) =>
      CompleteWalkIsInside(g, root);
      SortedDistinctIsSorted(order);
      var manifest := Manifest(root, derivation, ArtifactsAt(members, SortedDistinct(order)), fileTotal, narTotal);
      assert manifest.artifacts == ArtifactsAt(g, SortedDistinct(order));
      out := if e.boundary(manifest) then Verified(manifest) else Rejected(order, None);
  }

  /** `build_closure_manifest`. A queued reference was validated when its referrer was checked, so
      the second validation on leaving the queue never fails.  */
  method BuildClosureManifest(e: Oracles, disk: Disk, root: string, derivation: Option<string>, key: PublicKey)
    returns (out: Outcome)
    ensures out == Build(e, disk, root, derivation, key)
    ensures forall m :: out == Verified(m) <==> Certified(e, disk, root, derivation, key, m)
  {
    forall m
      ensures Build(e, disk, root, derivation, key) == Verified(m) <==> Certified(e, disk, root, derivation, key, m)
    {
      BuildIsCertified(e, disk, root, derivation, key, m);
    }
    if !ValidStorePath(root) || !ValidDerivation(derivation) {
      return Rejected([], None);
    }
    MembersAreGraph(e, disk, key);
    out := JudgeClosure(e, p => Inspect(e, disk, key, p), root, derivation, Members(e, disk, key));
  }

  // ---- reference lists as sets ----

  /** Two NARInfo files that differ at most in the order and repetition of their references. */
  ghost predicate SameButReferenceOrder(e: Oracles, a: NarinfoFile, b: NarinfoFile) {
    && a.readable == b.readable
    && (a.size <= MAX_NARINFO_BYTES <==> b.size <= MAX_NARINFO_BYTES)
    && match (ParseStrict(e, a), ParseStrict(e, b))
       case (None, None) => true
       case (Some(p), Some(q)) =>
         p.(tokens := []) == q.(tokens := []) && forall t :: t in p.tokens <==> t in q.tokens
       case _ => false
  }

  lemma SameTokensSameReferences(ts: seq<string>, us: seq<string>)
    requires forall t :: t in ts <==> t in us
    ensures SortedDistinct(RefPaths(ts)) == SortedDistinct(RefPaths(us))
    ensures AllValid(ts) <==> AllValid(us)
  {
    forall y ensures y in RefPaths(ts) <==> y in RefPaths(us) {
      RefPathsElements(ts, y);
      RefPathsElements(us, y);
    }
    SortedDistinctForgetsOrder(RefPaths(ts), RefPaths(us));
  }

  lemma SameSignedRecord(e: Oracles, a: NarinfoFile, b: NarinfoFile, key: PublicKey, path: string, p: ParsedNarinfo,
                         q: ParsedNarinfo)
    requires ValidStorePath(path) && a.readable == b.readable
    requires a.size <= MAX_NARINFO_BYTES <==> b.size <= MAX_NARINFO_BYTES
    requires ParseStrict(e, a) == Some(p) && ParseStrict(e, b) == Some(q) && p.(tokens := []) == q.(tokens := [])
    requires SortedDistinct(RefPaths(p.tokens)) == SortedDistinct(RefPaths(q.tokens))
    requires AllValid(p.tokens) <==> AllValid(q.tokens)
    ensures SignedRecord(e, a, key, path) == SignedRecord(e, b, key, path)
  {
    assert forall d :: PrintOf(p, d) == PrintOf(q, d);
  }

  lemma SameRecordSameMember(e: Oracles, a: NarinfoFile, b: NarinfoFile, key: PublicKey, path: string)
    requires ValidStorePath(path) && SameButReferenceOrder(e, a, b)
    ensures CheckRecord(e, a, key, path) == CheckRecord(e, b, key, path)
  {
    if ParseStrict(e, a).Some? {
      var p, q := ParseStrict(e, a).value, ParseStrict(e, b).value;
      SameTokensSameReferences(p.tokens, q.tokens);
      SameSignedRecord(e, a, b, key, path, p, q);
    }
  }

  ghost predicate SameDiskButReferenceOrder(e: Oracles, a: Disk, b: Disk) {
    && a.nars == b.nars && a.narinfos.Keys == b.narinfos.Keys
    && forall k :: k in a.narinfos ==> SameButReferenceOrder(e, a.narinfos[k], b.narinfos[k])
  }

  lemma SameInspection(e: Oracles, a: Disk, b: Disk, key: PublicKey, path: string)
    requires SameDiskButReferenceOrder(e, a, b)
    ensures Inspect(e, a, key, path) == Inspect(e, b, key, path)
  {
    if ValidStorePath(path) && Stem(path) in a.narinfos {
      SameRecordSameMember(e, a.narinfos[Stem(path)], b.narinfos[Stem(path)], key, path);
    }
  }

  lemma SameGraph(check: string -> Check, check': string -> Check, g: MemberGraph, h: MemberGraph)
    requires GraphOf(check, g) && GraphOf(check', h) && forall p :: check(p) == check'(p)
    ensures g == h
  {
    forall p ensures p in g <==> p in h { assert check(p) == check'(p); }
    forall p | p in g ensures g[p] == h[p] { assert check(p) == check'(p); }
  }

  lemma SameCheckSameVerdict(e: Oracles, check: string -> Check, check': string -> Check, g: MemberGraph,
                             h: MemberGraph, root: string, derivation: Option<string>)
    requires GraphOf(check, g) && GraphOf(check', h) && forall p :: check(p) == check'(p)
    ensures Judge(e, g, root, derivation, check) == Judge(e, h, root, derivation, check')
  {
    SameGraph(check, check', g, h);
  }

  /** The verdict and its manifest do not depend on how a NARInfo orders or repeats references. */
  lemma ReferenceOrderIsIrrelevant(e: Oracles, a: Disk, b: Disk, root: string, derivation: Option<string>,
                                   key: PublicKey)
    requires SameDiskButReferenceOrder(e, a, b)
    ensures Build(e, a, root, derivation, key) == Build(e, b, root, derivation, key)
  {
    var check: string -> Check, check': string -> Check := p => Inspect(e, a, key, p), p => Inspect(e, b, key, p);
    forall p ensures check(p) == check'(p) { SameInspection(e, a, b, key, p); }
    MembersAreGraph(e, a, key);
    MembersAreGraph(e, b, key);
    SameCheckSameVerdict(e, check, check', Members(e, a, key), Members(e, b, key), root, derivation);
  }
}

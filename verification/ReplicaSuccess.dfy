/** When a replica import succeeds, said on the state before it: on the node's disk, the origin's cache
    and what was declared about the closure.  */
module ReplicaSuccess {
  import opened Options
  import opened StorePaths
  import opened TextOrder
  import opened CacheModel
  import opened NarinfoCheck
  import opened ClosureWalk
  import opened ClosureManifest
  import opened ReplicaImport
  import opened ReplicaOffers
  import opened ReplicaWrites

  /** What Tiaris declares about the closure to mirror. */
  datatype Source = Source(
    root: string, key: PublicKey, memberCount: nat, membersDigest: string, derivation: Option<string>)

  function Limit(src: Source): nat {
    if src.memberCount < REPLICA_MAX_MEMBERS then src.memberCount else REPLICA_MAX_MEMBERS
  }

  ghost function OriginClosure(e: Oracles, origin: Disk, src: Source): set<string> {
    ClosureOf(OriginRecords(e, origin, src.key), src.root)
  }

  /** What a successful import writes, known before it begins. */
  ghost function Planned(e: Oracles, origin: Disk, src: Source, disk0: Disk): Writes {
    Made(e, OriginRecords(e, origin, src.key), disk0, OriginClosure(e, origin, src))
  }

  /** The disk a successful import leaves, known before it begins. */
  ghost function Mirror(e: Oracles, s: Signer, origin: Disk, src: Source, disk0: Disk): Disk {
    Overwritten(e, s, origin, disk0, Planned(e, origin, src, disk0))
  }

  ghost predicate IsListing(ps: seq<string>, c: set<string>) {
    StrictlySorted(ps) && Elements(ps) == c
  }

  /** The declared count and digest are those of the sorted list of `c`. */
  ghost predicate DeclaredRightly(src: Source, listDigest: seq<string> -> string, c: set<string>) {
    exists ps :: IsListing(ps, c) && |ps| == src.memberCount && listDigest(ps) == src.membersDigest
  }

  ghost predicate WithinSize(g: MemberGraph, ps: set<string>, maxArtifact: nat) {
    forall p :: p in ps ==> p in g && g[p].fileSize <= maxArtifact
  }

  /** The exact condition for an import to succeed. */
  ghost predicate Importable(e: Oracles, disk0: Disk, origin: Disk, src: Source, s: Signer, maxArtifact: nat,
                             listDigest: seq<string> -> string)
  {
    && src.key.name != s.key.name && ValidStorePath(src.root)
    && WithinSize(OriginRecords(e, origin, src.key), OriginClosure(e, origin, src), maxArtifact)
    && src.memberCount <= 200_000 && DeclaredRightly(src, listDigest, OriginClosure(e, origin, src))
    && Build(e, Mirror(e, s, origin, src, disk0), src.root, src.derivation, s.key).Verified?
  }

  // ---- enough for the mirroring loop ----

  /** A member whose NAR is not needed from the origin, or is intact there. */
  ghost predicate Takable(e: Oracles, origin: Disk, missing: set<string>, maxArtifact: nat, m: Member) {
    && NarName(m.narUrl).Some? && m.fileSize <= maxArtifact
    && (NarName(m.narUrl).value in missing ==> CheckNar(e, origin, m).Passed?)
  }

  ghost predicate AllTakable(e: Oracles, origin: Disk, g: MemberGraph, c: set<string>, missing: set<string>,
                             maxArtifact: nat)
  {
    forall p :: p in c ==> p in g && Takable(e, origin, missing, maxArtifact, g[p])
  }

  /** The mirroring loop can take every member of the closure. */
  ghost predicate Mirrorable(e: Oracles, disk0: Disk, origin: Disk, src: Source, maxArtifact: nat) {
    var g, c := OriginRecords(e, origin, src.key), OriginClosure(e, origin, src);
    && |c| <= Limit(src) && PartsFit(g, c)
    && AllTakable(e, origin, g, c, Missing(e, g, disk0, c), maxArtifact)
  }

  /** The origin's record is good and its NAR is here or there. */
  predicate Obtainable(e: Oracles, disk: Disk, origin: Disk, key: PublicKey, maxArtifact: nat, path: string) {
    var record := OriginRecord(e, origin, key, path);
    && record.Some? && NarName(record.value.narUrl).Some? && record.value.fileSize <= maxArtifact
    && (CheckNar(e, disk, record.value).Passed? || CheckNar(e, origin, record.value).Passed?)
  }

  lemma FewerMissing(e: Oracles, g: MemberGraph, disk: Disk, ps: set<string>, qs: set<string>)
    requires ps <= qs
    ensures Missing(e, g, disk, ps) <= Missing(e, g, disk, qs)
  {
  }

  lemma NotMissingIsIntact(e: Oracles, g: MemberGraph, disk: Disk, ps: set<string>, p: string)
    requires p in ps && p in g && NarName(g[p].narUrl).Some?
    requires NarName(g[p].narUrl).value !in Missing(e, g, disk, ps)
    ensures CheckNar(e, disk, g[p]).Passed?
  {
  }

  /** Whatever part of the closure has been taken, the next member can be. */
  lemma NextIsObtainable(e: Oracles, s: Signer, origin: Disk, src: Source, maxArtifact: nat, disk0: Disk, disk: Disk,
                         order: seq<string>, fetched: set<string>, path: string)
    requires Mirrorable(e, disk0, origin, src, maxArtifact)
    requires HasMade(e, s, origin, OriginRecords(e, origin, src.key), disk0, disk, order, fetched)
    requires path in OriginClosure(e, origin, src) && Elements(order) <= OriginClosure(e, origin, src)
    ensures Obtainable(e, disk, origin, src.key, maxArtifact, path)
  {
    var g, c := OriginRecords(e, origin, src.key), OriginClosure(e, origin, src);
    assert Takable(e, origin, Missing(e, g, disk0, c), maxArtifact, g[path]);
    OriginRecordsAreChecked(e, origin, src.key, path);
    FewerMissing(e, g, disk0, Elements(order), c);
    if NarName(g[path].narUrl).value !in Missing(e, g, disk0, c) {
      NotMissingIsIntact(e, g, disk0, c, path);
      UntouchedNar(e, s, origin, disk0, Made(e, g, disk0, Elements(order)), g[path]);
    }
  }

  // ---- the mirror before its verification ----

  lemma OverwrittenNar(e: Oracles, s: Signer, origin: Disk, disk0: Disk, w: Writes, m: Member)
    requires NarName(m.narUrl).Some?
    ensures var name := NarName(m.narUrl).value;
            CheckNar(e, Overwritten(e, s, origin, disk0, w), m)
            == CheckNar(e, if name in w.nars && name in origin.nars then origin else disk0, m)
  {
    var name := NarName(m.narUrl).value;
    SameBytesSameCheck(e, Overwritten(e, s, origin, disk0, w),
                       if name in w.nars && name in origin.nars then origin else disk0, m);
  }

  /** When the missing NARs are intact at the origin, all are intact in the mirror. */
  lemma NarsComplete(e: Oracles, s: Signer, origin: Disk, g: MemberGraph, c: set<string>, disk0: Disk, maxArtifact: nat,
                     p: string)
    requires AllTakable(e, origin, g, c, Missing(e, g, disk0, c), maxArtifact) && p in c
    ensures CheckNar(e, Overwritten(e, s, origin, disk0, Made(e, g, disk0, c)), g[p]).Passed?
  {
    assert Takable(e, origin, Missing(e, g, disk0, c), maxArtifact, g[p]);
    OverwrittenNar(e, s, origin, disk0, Made(e, g, disk0, c), g[p]);
    if NarName(g[p].narUrl).value !in Missing(e, g, disk0, c) { NotMissingIsIntact(e, g, disk0, c, p); }
  }

  /** When all NARs are intact in the mirror, the missing ones are intact at the origin. */
  lemma MissingAreAtOrigin(e: Oracles, s: Signer, origin: Disk, g: MemberGraph, c: set<string>, disk0: Disk, p: string)
    requires c <= g.Keys && p in c
    requires forall q :: q in c ==>
               && NarName(g[q].narUrl).Some?
               && CheckNar(e, Overwritten(e, s, origin, disk0, Made(e, g, disk0, c)), g[q]).Passed?
    ensures NarName(g[p].narUrl).value in Missing(e, g, disk0, c) ==> CheckNar(e, origin, g[p]).Passed?
  {
    var name, w := NarName(g[p].narUrl).value, Made(e, g, disk0, c);
    if name in Missing(e, g, disk0, c) {
      var q :| q in c && q in g && NarName(g[q].narUrl) == Some(name) && CheckNar(e, disk0, g[q]).Failed?;
      OverwrittenNar(e, s, origin, disk0, w, g[q]);
      OverwrittenNar(e, s, origin, disk0, w, g[p]);
    }
  }

  lemma PlannedIsMirrored(e: Oracles, s: Signer, origin: Disk, src: Source, disk0: Disk, p: string)
    requires p in OriginClosure(e, origin, src) && p in OriginRecords(e, origin, src.key)
    ensures MirroredAt(e, s, origin, Mirror(e, s, origin, src, disk0), p)
  {
    OriginRecordsAreChecked(e, origin, src.key, p);
    assert Stem(p) in StemsOf(OriginClosure(e, origin, src));
  }

  /** In a mirror that verifies, the closure's members are the origin's records, with intact NARs. */
  lemma VerifiedMirrorHolds(e: Oracles, s: Signer, origin: Disk, src: Source, disk0: Disk)
    requires OriginClosure(e, origin, src) <= OriginRecords(e, origin, src.key).Keys
    requires Build(e, Mirror(e, s, origin, src, disk0), src.root, src.derivation, s.key).Verified?
    ensures var g, c := OriginRecords(e, origin, src.key), OriginClosure(e, origin, src);
            var d := Mirror(e, s, origin, src, disk0);
            && ClosureOf(Members(e, d, s.key), src.root) == c <= Members(e, d, s.key).Keys
            && forall p :: p in c ==> && Members(e, d, s.key)[p] == g[p] && NarName(g[p].narUrl).Some?
                                      && CheckNar(e, d, g[p]).Passed?
  {
    var g, c, d := OriginRecords(e, origin, src.key), OriginClosure(e, origin, src), Mirror(e, s, origin, src, disk0);
    forall p | p in c ensures MirroredAt(e, s, origin, d, p) { PlannedIsMirrored(e, s, origin, src, disk0, p); }
    WalkFromRootIsSound(Members(e, d, s.key), src.root);
    LocalIsOrigin(e, s, origin, src.key, d, src.root);
    forall p | p in c ensures NarName(g[p].narUrl).Some? && CheckNar(e, d, g[p]).Passed? {
      MembersAreChecked(e, d, s.key, p);
      MemberShape(e, d, s.key, p);
      MemberIsSignedRecord(e, d, s.key, p);
    }
  }

  lemma ListingSize(ps: seq<string>, c: set<string>)
    requires IsListing(ps, c)
    ensures |ps| == |c|
  {
    SortedIsDistinct(ps);
  }

  /** Totals over parts of a closure that verifies fit. */
  lemma VerifiedPartsFit(e: Oracles, disk: Disk, root: string, derivation: Option<string>, key: PublicKey,
                         g: MemberGraph, c: set<string>)
    requires Build(e, disk, root, derivation, key).Verified?
    requires ClosureOf(Members(e, disk, key), root) == c <= Members(e, disk, key).Keys
    requires forall p :: p in c ==> p in g && Members(e, disk, key)[p] == g[p]
    ensures PartsFit(g, c)
  {
    var h, m := Members(e, disk, key), Build(e, disk, root, derivation, key).manifest;
    BuildIsDescription(e, disk, root, derivation, key, m);
    var qs :| Lists(h, m, qs);
    forall ps | Inside(ps, c) ensures Total(g, ps, true) < U64_LIMIT {
      PartFits(h, m, ps, qs);
      TotalInOther(g, h, ps, true);
    }
  }

  lemma DeclaredSize(src: Source, listDigest: seq<string> -> string, c: set<string>)
    requires DeclaredRightly(src, listDigest, c)
    ensures |c| == src.memberCount
  {
    var ps :| IsListing(ps, c) && |ps| == src.memberCount;
    ListingSize(ps, c);
  }

  lemma MirrorIsTakable(e: Oracles, s: Signer, origin: Disk, g: MemberGraph, c: set<string>, disk0: Disk,
                        maxArtifact: nat)
    requires WithinSize(g, c, maxArtifact)
    requires forall q :: q in c ==>
               && NarName(g[q].narUrl).Some?
               && CheckNar(e, Overwritten(e, s, origin, disk0, Made(e, g, disk0, c)), g[q]).Passed?
    ensures AllTakable(e, origin, g, c, Missing(e, g, disk0, c), maxArtifact)
  {
    forall p | p in c ensures p in g && Takable(e, origin, Missing(e, g, disk0, c), maxArtifact, g[p]) {
      MissingAreAtOrigin(e, s, origin, g, c, disk0, p);
    }
  }

  /** An import that satisfies the condition gets through the mirroring loop. */
  lemma ImportableIsMirrorable(e: Oracles, disk0: Disk, origin: Disk, src: Source, s: Signer, maxArtifact: nat,
                               listDigest: seq<string> -> string)
    requires Importable(e, disk0, origin, src, s, maxArtifact, listDigest)
    ensures Mirrorable(e, disk0, origin, src, maxArtifact)
  {
    var g, c, d := OriginRecords(e, origin, src.key), OriginClosure(e, origin, src), Mirror(e, s, origin, src, disk0);
    VerifiedMirrorHolds(e, s, origin, src, disk0);
    VerifiedPartsFit(e, d, src.root, src.derivation, s.key, g, c);
    DeclaredSize(src, listDigest, c);
    MirrorIsTakable(e, s, origin, g, c, disk0, maxArtifact);
  }

  // ---- what the origin offers can be imported ----

  /** The manifest lists the mirrored members in order, with their total. */
  lemma ManifestListsMembers(e: Oracles, disk: Disk, key: PublicKey, m: Manifest, members: seq<string>)
    requires Describes(Members(e, disk, key), m)
    requires IsListing(members, ClosureOf(Members(e, disk, key), m.root))
    ensures |m.artifacts| == |members| && m.totalNarSize == Total(Members(e, disk, key), members, true)
    ensures forall i :: 0 <= i < |members| ==> m.artifacts[i].storePath == members[i]
  {
    var h := Members(e, disk, key);
    var ps :| Lists(h, m, ps);
    SameSetSameList(ps, members);
    forall i | 0 <= i < |members| ensures m.artifacts[i].storePath == members[i] {
      assert ps[i] in ps;
      MembersAreChecked(e, disk, key, ps[i]);
      MemberShape(e, disk, key, ps[i]);
    }
  }

  /** The origin verifies to `m`, the node's signatures work for its closure, and what was declared
      about the closure is true of it.  */
  ghost predicate Offers(e: Oracles, origin: Disk, src: Source, s: Signer, maxArtifact: nat,
                         listDigest: seq<string> -> string, m: Manifest)
  {
    && src.key.name != s.key.name && SignerWorks(e, s)
    && (forall p :: p in OriginClosure(e, origin, src) ==> RecordFits(e, s, origin, p))
    && Build(e, origin, src.root, src.derivation, src.key) == Verified(m)
    && (forall i :: 0 <= i < |m.artifacts| ==> m.artifacts[i].fileSize <= maxArtifact)
    && |m.artifacts| == src.memberCount <= 200_000
    && listDigest(PathsOf(m)) == src.membersDigest
  }

  /** The sorted paths of the origin's closure are those of its manifest. */
  lemma OfferIsListed(e: Oracles, origin: Disk, src: Source, m: Manifest)
    requires Build(e, origin, src.root, src.derivation, src.key) == Verified(m)
    ensures IsListing(PathsOf(m), OriginClosure(e, origin, src))
  {
    VerifiedClosure(e, origin, src.key, src.root, src.derivation);
    BuildIsDescription(e, origin, src.root, src.derivation, src.key, m);
    var ps :| Lists(Members(e, origin, src.key), m, ps);
    ManifestListsMembers(e, origin, src.key, m, ps);
    assert PathsOf(m) == ps;
  }

  lemma ServedIsTakable(e: Oracles, origin: Disk, src: Source, maxArtifact: nat, missing: set<string>, p: string)
    requires CanServe(e, origin, src.key, src.root, maxArtifact, Limit(src)) && p in OriginClosure(e, origin, src)
    ensures p in OriginRecords(e, origin, src.key)
    ensures Takable(e, origin, missing, maxArtifact, OriginRecords(e, origin, src.key)[p])
  {
    assert Available(e, origin, src.key, maxArtifact, p);
    OriginRecordsAreChecked(e, origin, src.key, p);
  }

  lemma OfferedMirrorVerifies(e: Oracles, disk0: Disk, origin: Disk, src: Source, s: Signer, maxArtifact: nat,
                              listDigest: seq<string> -> string, m: Manifest)
    requires Offers(e, origin, src, s, maxArtifact, listDigest, m)
    requires CanServe(e, origin, src.key, src.root, maxArtifact, Limit(src))
    ensures Build(e, Mirror(e, s, origin, src, disk0), src.root, src.derivation, s.key) == Verified(m)
  {
    var g, c, d := OriginRecords(e, origin, src.key), OriginClosure(e, origin, src), Mirror(e, s, origin, src, disk0);
    OfferIsListed(e, origin, src, m);
    forall p | p in c ensures p in g && Takable(e, origin, Missing(e, g, disk0, c), maxArtifact, g[p]) {
      ServedIsTakable(e, origin, src, maxArtifact, Missing(e, g, disk0, c), p);
    }
    forall p | p in PathsOf(m)
      ensures p in g && MirroredAt(e, s, origin, d, p) && CheckNar(e, d, g[p]).Passed? && RecordFits(e, s, origin, p)
    {
      assert p in Elements(PathsOf(m));
      PlannedIsMirrored(e, s, origin, src, disk0, p);
      NarsComplete(e, s, origin, g, c, disk0, maxArtifact, p);
    }
    MirrorVerifies(e, s, origin, src.key, d, src.root, src.derivation, m, PathsOf(m));
  }

  /** A closure the origin offers as declared can be imported, whatever the node holds, and its mirror
      verifies to the origin's manifest.  */
  lemma OfferIsImportable(e: Oracles, disk0: Disk, origin: Disk, src: Source, s: Signer, maxArtifact: nat,
                          listDigest: seq<string> -> string, m: Manifest)
    requires Offers(e, origin, src, s, maxArtifact, listDigest, m)
    ensures Importable(e, disk0, origin, src, s, maxArtifact, listDigest)
    ensures Build(e, Mirror(e, s, origin, src, disk0), src.root, src.derivation, s.key) == Verified(m)
  {
    VerifiedOriginServes(e, origin, src.key, src.root, src.derivation, m, maxArtifact, Limit(src));
    OfferedMirrorVerifies(e, disk0, origin, src, s, maxArtifact, listDigest, m);
    OfferIsListed(e, origin, src, m);
    forall p | p in OriginClosure(e, origin, src)
      ensures p in OriginRecords(e, origin, src.key) && OriginRecords(e, origin, src.key)[p].fileSize <= maxArtifact
    {
      ServedIsTakable(e, origin, src, maxArtifact, {}, p);
    }
  }
}

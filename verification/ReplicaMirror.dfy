/** The import loop of a replica, and what its success means. */
module ReplicaMirror {
  import opened Options
  import opened StorePaths
  import opened TextOrder
  import opened CacheModel
  import opened NarinfoCheck
  import opened ClosureWalk
  import opened ClosureManifest
  import opened MemberMeaning
  import opened Scrubber
  import opened ReplicaImport
  import opened ReplicaOffers
  import opened ReplicaWrites
  import opened ReplicaSuccess
  import opened ReplicaMeaning

  /** `fetched` are the members whose NAR came from the origin; the others were already present. */
  datatype Imported = Imported(manifest: Manifest, members: seq<string>, fetched: set<string>, narTotal: nat)

  /** Every mirrored record is the origin's, and verifies under both keys. */
  ghost predicate TrustedByBoth(e: Oracles, s: Signer, origin: Disk, src: Source, disk: Disk, path: string) {
    && MirroredAt(e, s, origin, disk, path)
    && OriginRecord(e, origin, src.key, path).Some?
    && SignedRecord(e, disk.narinfos[Stem(path)], s.key, path) == OriginRecord(e, origin, src.key, path)
    && SignedRecord(e, disk.narinfos[Stem(path)], src.key, path) == OriginRecord(e, origin, src.key, path)
  }

  /** The members are the origin's closure, in order, and the manifest lists them. */
  ghost predicate ListsClosure(e: Oracles, origin: Disk, src: Source, r: Imported) {
    && StrictlySorted(r.members) && (set p | p in r.members) == OriginClosure(e, origin, src)
    && |r.manifest.artifacts| == |r.members|
    && (forall i :: 0 <= i < |r.members| ==> r.manifest.artifacts[i].storePath == r.members[i])
    && r.narTotal == r.manifest.totalNarSize
  }

  /** The origin verifies to the same manifest exactly when the NARs that were not fetched from it
      are intact there.  */
  ghost predicate OriginGivesSame(e: Oracles, origin: Disk, src: Source, r: Imported) {
    Build(e, origin, src.root, src.derivation, src.key) == Verified(r.manifest)
    <==> forall p :: p in r.members && p !in r.fetched ==> OriginNarIntact(e, origin, src.key, p)
  }

  /** What a successful import guarantees. */
  ghost predicate MirrorHolds(e: Oracles, s: Signer, origin: Disk, src: Source, disk: Disk, r: Imported) {
    && ListsClosure(e, origin, src, r)
    && (forall p :: p in r.members ==> TrustedByBoth(e, s, origin, src, disk, p))
    && Build(e, disk, src.root, src.derivation, s.key) == Verified(r.manifest)
    && OriginGivesSame(e, origin, src, r)
  }

  /** One member: check the origin's record, obtain its NAR, publish the mirrored record. */
  method MirrorMember(e: Oracles, nest: Nest, origin: Disk, key: PublicKey, s: Signer, maxArtifact: nat, path: string)
    returns (record: Option<Member>, fetched: bool)
    modifies nest`disk
    ensures record.Some? <==> Obtainable(e, old(nest.disk), origin, key, maxArtifact, path)
    ensures record.Some? ==> record == OriginRecord(e, origin, key, path)
                             && TakesMember(e, s, origin, path, record.value, fetched, old(nest.disk), nest.disk)
    ensures record.None? ==> nest.disk == old(nest.disk)
  {
    fetched := false;
    record := OriginRecord(e, origin, key, path);
    if record.None? {
      return;
    }
    var m := record.value;
    if NarName(m.narUrl).None? || m.fileSize > maxArtifact {
      return None, false;
    }
    if CheckNar(e, nest.disk, m).Failed? {
      if CheckNar(e, origin, m).Failed? {
        return None, false;
      }
      fetched := true;
      var name := NarName(m.narUrl).value;
      nest.disk := nest.disk.(nars := nest.disk.nars[name := origin.nars[name]]);
    }
    var f := origin.narinfos[Stem(path)];
    nest.disk := nest.disk.(narinfos := nest.disk.narinfos[Stem(path) := Mirrored(e, s, f)]);
  }

  ghost predicate AllMirrored(e: Oracles, s: Signer, origin: Disk, disk: Disk, order: seq<string>) {
    forall p :: p in order ==> MirroredAt(e, s, origin, disk, p)
  }

  ghost predicate AllIntact(e: Oracles, origin: Disk, key: PublicKey, order: seq<string>, fetched: set<string>) {
    forall p :: p in fetched ==> p in order && OriginNarIntact(e, origin, key, p)
  }

  ghost predicate MirrorInvariant(e: Oracles, s: Signer, origin: Disk, src: Source, disk: Disk,
                                  queue: seq<string>, order: seq<string>, fetched: set<string>) {
    && WalkInvariant(OriginRecords(e, origin, src.key), src.root, queue, order)
    && AllMirrored(e, s, origin, disk, order)
    && AllIntact(e, origin, src.key, order, fetched)
  }

  /** Publishing another mirrored record leaves the earlier ones mirrored. */
  lemma MirroredAfterWrite(e: Oracles, s: Signer, origin: Disk, disk: Disk, disk': Disk, stem: string, path: string)
    requires stem in origin.narinfos
    requires disk'.narinfos == disk.narinfos[stem := Mirrored(e, s, origin.narinfos[stem])]
    requires MirroredAt(e, s, origin, disk, path) || (ValidStorePath(path) && Stem(path) == stem)
    ensures MirroredAt(e, s, origin, disk', path)
  {
  }

  lemma FetchedIsIntact(e: Oracles, origin: Disk, key: PublicKey, order: seq<string>, fetched: set<string>,
                        path: string, m: Member, fromOrigin: bool)
    requires AllIntact(e, origin, key, order, fetched)
    requires OriginRecord(e, origin, key, path) == Some(m) && (fromOrigin ==> CheckNar(e, origin, m).Passed?)
    ensures AllIntact(e, origin, key, order + [path], Counted(fetched, path, fromOrigin))
  {
  }

  lemma StillMirrored(e: Oracles, s: Signer, origin: Disk, disk: Disk, disk': Disk, order: seq<string>, path: string)
    requires ValidStorePath(path) && Stem(path) in origin.narinfos
    requires disk'.narinfos == disk.narinfos[Stem(path) := Mirrored(e, s, origin.narinfos[Stem(path)])]
    requires AllMirrored(e, s, origin, disk, order)
    ensures AllMirrored(e, s, origin, disk', order + [path])
  {
    forall p | p in order + [path] ensures MirroredAt(e, s, origin, disk', p) {
      MirroredAfterWrite(e, s, origin, disk, disk', Stem(path), p);
    }
  }

  lemma MirrorSteps(e: Oracles, s: Signer, origin: Disk, src: Source, disk: Disk, disk': Disk,
                    queue: seq<string>, order: seq<string>, fetched: set<string>, m: Member, fromOrigin: bool)
    requires MirrorInvariant(e, s, origin, src, disk, queue, order, fetched)
    requires queue != [] && queue[0] !in order && OriginRecord(e, origin, src.key, queue[0]) == Some(m)
    requires TakesMember(e, s, origin, queue[0], m, fromOrigin, disk, disk')
    ensures MirrorInvariant(e, s, origin, src, disk', queue[1..] + Unseen(m.references, order + [queue[0]]),
                            order + [queue[0]], Counted(fetched, queue[0], fromOrigin))
    ensures queue[0] in OriginRecords(e, origin, src.key) && OriginRecords(e, origin, src.key)[queue[0]] == m
  {
    OriginRecordsAreChecked(e, origin, src.key, queue[0]);
    WalkStep(OriginRecords(e, origin, src.key), src.root, queue, order);
    StillMirrored(e, s, origin, disk, disk', order, queue[0]);
    FetchedIsIntact(e, origin, src.key, order, fetched, queue[0], m, fromOrigin);
  }

  lemma MirrorStarts(e: Oracles, s: Signer, origin: Disk, src: Source, disk: Disk)
    ensures MirrorInvariant(e, s, origin, src, disk, [src.root], [], {})
  {
  }

  lemma MirrorSkips(e: Oracles, s: Signer, origin: Disk, src: Source, disk: Disk, queue: seq<string>,
                    order: seq<string>, fetched: set<string>)
    requires MirrorInvariant(e, s, origin, src, disk, queue, order, fetched) && queue != [] && queue[0] in order
    ensures MirrorInvariant(e, s, origin, src, disk, queue[1..], order, fetched)
  {
    WalkSkips(OriginRecords(e, origin, src.key), src.root, queue, order);
  }

  /** When the loop can take the whole closure, the next member is always obtained and never one too many. */
  lemma MirrorGoesOn(e: Oracles, s: Signer, origin: Disk, src: Source, maxArtifact: nat, disk0: Disk, disk: Disk,
                     queue: seq<string>, order: seq<string>, fetched: set<string>)
    requires Mirrorable(e, disk0, origin, src, maxArtifact)
    requires HasMade(e, s, origin, OriginRecords(e, origin, src.key), disk0, disk, order, fetched)
    requires WalkInvariant(OriginRecords(e, origin, src.key), src.root, queue, order)
    requires queue != [] && queue[0] !in order
    ensures |order| + 1 <= Limit(src) && Obtainable(e, disk, origin, src.key, maxArtifact, queue[0])
    ensures Total(OriginRecords(e, origin, src.key), order + [queue[0]], true) < U64_LIMIT
  {
    var g := OriginRecords(e, origin, src.key);
    NextIsInside(g, src.root, queue, order);
    PartFitsHere(g, ClosureOf(g, src.root), order + [queue[0]]);
    TakenInside(g, src.root, queue, order);
    NextIsObtainable(e, s, origin, src, maxArtifact, disk0, disk, order, fetched, queue[0]);
  }

  /** What is known between two turns of the loop, for an import that started from `disk0`. */
  ghost predicate BetweenTurns(e: Oracles, s: Signer, origin: Disk, src: Source, maxArtifact: nat, disk0: Disk,
                               disk: Disk, queue: seq<string>, order: seq<string>, fetched: set<string>,
                               narTotal: nat)
  {
    && MirrorInvariant(e, s, origin, src, disk, queue, order, fetched)
    && HasMade(e, s, origin, OriginRecords(e, origin, src.key), disk0, disk, order, fetched)
    && narTotal == Total(OriginRecords(e, origin, src.key), order, true)
    && WithinSize(OriginRecords(e, origin, src.key), Elements(order), maxArtifact)
  }

  lemma SizeOneMore(g: MemberGraph, order: seq<string>, path: string, maxArtifact: nat)
    requires WithinSize(g, Elements(order), maxArtifact) && path in g && g[path].fileSize <= maxArtifact
    ensures WithinSize(g, Elements(order + [path]), maxArtifact)
  {
  }

  /** Mirroring one member leads from one such state to the next. */
  lemma MirrorOneMore(e: Oracles, s: Signer, origin: Disk, src: Source, maxArtifact: nat, disk0: Disk, disk: Disk,
                      disk': Disk, queue: seq<string>, order: seq<string>, fetched: set<string>, narTotal: nat,
                      m: Member, fromOrigin: bool)
    requires BetweenTurns(e, s, origin, src, maxArtifact, disk0, disk, queue, order, fetched, narTotal)
    requires queue != [] && queue[0] !in order && OriginRecord(e, origin, src.key, queue[0]) == Some(m)
    requires TakesMember(e, s, origin, queue[0], m, fromOrigin, disk, disk') && m.fileSize <= maxArtifact
    ensures BetweenTurns(e, s, origin, src, maxArtifact, disk0, disk',
                         queue[1..] + Unseen(m.references, order + [queue[0]]), order + [queue[0]],
                         Counted(fetched, queue[0], fromOrigin), narTotal + m.narSize)
  {
    var g := OriginRecords(e, origin, src.key);
    MirrorSteps(e, s, origin, src, disk, disk', queue, order, fetched, m, fromOrigin);
    TakingIsWriting(e, s, origin, g, disk0, disk, disk', order, fetched, queue[0], fromOrigin);
    TotalSnoc(g, order, queue[0], true);
    SizeOneMore(g, order, queue[0], maxArtifact);
  }

  /** The next member of the queue, counted and mirrored. A sum that overflows is noticed only after
      the member's files are in place.  */
  method MirrorNext(e: Oracles, nest: Nest, origin: Disk, src: Source, s: Signer, maxArtifact: nat, ghost disk0: Disk,
                    queue: seq<string>, order: seq<string>, fetched: set<string>, narTotal: nat)
    returns (ok: bool, queue': seq<string>, order': seq<string>, fetched': set<string>, narTotal': nat)
    requires queue != [] && queue[0] !in order
    requires BetweenTurns(e, s, origin, src, maxArtifact, disk0, nest.disk, queue, order, fetched, narTotal)
    modifies nest`disk
    ensures BetweenTurns(e, s, origin, src, maxArtifact, disk0, nest.disk, queue', order', fetched', narTotal')
    ensures Mirrorable(e, disk0, origin, src, maxArtifact) ==> ok
    ensures ok ==> order' == order + [queue[0]] && |order'| <= Limit(src) && narTotal' < U64_LIMIT
  {
    ghost var before := nest.disk;
    if Mirrorable(e, disk0, origin, src, maxArtifact) {
      MirrorGoesOn(e, s, origin, src, maxArtifact, disk0, before, queue, order, fetched);
    }
    var path := queue[0];
    ok, queue', order', fetched', narTotal' := false, queue, order, fetched, narTotal;
    if |order| + 1 > REPLICA_MAX_MEMBERS || |order| + 1 > src.memberCount {
      return;
    }
    assert |order + [path]| <= Limit(src);
    var record, fromOrigin := MirrorMember(e, nest, origin, src.key, s, maxArtifact, path);
    if record.None? {
      return;
    }
    var m := record.value;
    MirrorOneMore(e, s, origin, src, maxArtifact, disk0, before, nest.disk, queue, order, fetched, narTotal, m,
                  fromOrigin);
    queue', order' := queue[1..] + Unseen(m.references, order + [path]), order + [path];
    fetched', narTotal' := Counted(fetched, path, fromOrigin), narTotal + m.narSize;
    ok := narTotal' < U64_LIMIT;
  }

  /** The mirroring loop: on success `order` is the origin's closure and all of it is mirrored; it
      succeeds when every member can be taken. Either way the disk has exactly the writes of the
      members taken, and the NARs fetched are those that were missing.  */
  method MirrorAll(e: Oracles, nest: Nest, origin: Disk, src: Source, s: Signer, maxArtifact: nat)
    returns (ok: bool, order: seq<string>, fetched: set<string>, narTotal: nat)
    modifies nest`disk
    ensures ok ==> MirrorInvariant(e, s, origin, src, nest.disk, [], order, fetched) && |order| <= Limit(src)
    ensures ok ==> narTotal == Total(OriginRecords(e, origin, src.key), order, true) < U64_LIMIT
    ensures Mirrorable(e, old(nest.disk), origin, src, maxArtifact) ==> ok
    ensures HasMade(e, s, origin, OriginRecords(e, origin, src.key), old(nest.disk), nest.disk, order, fetched)
    ensures Elements(order) <= OriginClosure(e, origin, src)
    ensures WithinSize(OriginRecords(e, origin, src.key), Elements(order), maxArtifact)
  {
    var queue := [src.root];
    order, fetched, narTotal := [], {}, 0;
    ghost var disk0, g := nest.disk, OriginRecords(e, origin, src.key);
    MirrorStarts(e, s, origin, src, disk0);
    NothingMade(e, s, origin, g, disk0);
    while queue != []
      invariant BetweenTurns(e, s, origin, src, maxArtifact, disk0, nest.disk, queue, order, fetched, narTotal)
      invariant |order| <= Limit(src) && narTotal < U64_LIMIT
      decreases Limit(src) - |order|, |queue|
    {
      if queue[0] in order {
        MirrorSkips(e, s, origin, src, nest.disk, queue, order, fetched);
        queue := queue[1..];
        continue;
      }
      ok, queue, order, fetched, narTotal :=
        MirrorNext(e, nest, origin, src, s, maxArtifact, disk0, queue, order, fetched, narTotal);
      if !ok {
        TakenInside(g, src.root, queue, order);
        return;
      }
    }
    TakenInside(g, src.root, queue, order);
    ok := true;
  }

  // ---- what success means ----

  lemma MirroredIsTrusted(e: Oracles, s: Signer, origin: Disk, src: Source, disk: Disk, path: string)
    requires ':' !in s.key.name && src.key.name != s.key.name
    requires MirroredAt(e, s, origin, disk, path) && path in OriginRecords(e, origin, src.key)
    requires path in Members(e, disk, s.key)
    ensures TrustedByBoth(e, s, origin, src, disk, path)
  {
    OriginRecordsAreChecked(e, origin, src.key, path);
    MembersAreChecked(e, disk, s.key, path);
    MirroredMemberAgrees(e, s, origin, src.key, disk, path);
    MemberIsSignedRecord(e, disk, s.key, path);
    MirroredSignedRecord(e, s, origin.narinfos[Stem(path)], src.key, path);
  }

  lemma AgreeingPaths(g: MemberGraph, h: MemberGraph, root: string, order: seq<string>)
    requires (set p | p in order) == ClosureOf(g, root) == ClosureOf(h, root)
    requires ClosureOf(g, root) <= g.Keys && AgreeOn(h, g, ClosureOf(h, root))
    ensures forall p :: p in order ==> p in g && p in h && g[p] == h[p]
  {
    forall p | p in order ensures p in g && p in h && g[p] == h[p] { assert p in set q | q in order; }
  }

  lemma MirroredEverywhere(e: Oracles, s: Signer, origin: Disk, disk: Disk, order: seq<string>, c: set<string>)
    requires (forall p :: p in order ==> MirroredAt(e, s, origin, disk, p)) && (set p | p in order) == c
    ensures forall p :: p in c ==> MirroredAt(e, s, origin, disk, p)
  {
  }

  /** The mirrored paths are the closure, on both sides, with the same members. */
  lemma MirroredClosure(e: Oracles, s: Signer, origin: Disk, src: Source, disk: Disk,
                        order: seq<string>, fetched: set<string>)
    requires MirrorInvariant(e, s, origin, src, disk, [], order, fetched)
    requires Build(e, disk, src.root, src.derivation, s.key).Verified?
    ensures var g, h := OriginRecords(e, origin, src.key), Members(e, disk, s.key);
            && (set p | p in order) == ClosureOf(g, src.root) == ClosureOf(h, src.root)
            && ClosureOf(g, src.root) <= g.Keys
            && (forall p :: p in ClosureOf(g, src.root) ==> MirroredAt(e, s, origin, disk, p))
            && (forall p :: p in order ==> p in g && p in h && g[p] == h[p])
  {
    var g, h := OriginRecords(e, origin, src.key), Members(e, disk, s.key);
    WalkedClosure(g, src.root, order);
    MirroredEverywhere(e, s, origin, disk, order, ClosureOf(g, src.root));
    WalkFromRootIsSound(h, src.root);
    LocalIsOrigin(e, s, origin, src.key, disk, src.root);
    AgreeingPaths(g, h, src.root, order);
  }

  lemma SortedAgreement(g: MemberGraph, h: MemberGraph, order: seq<string>)
    requires Distinct(order) && forall p :: p in order ==> p in g && p in h && g[p] == h[p]
    ensures var members := SortedDistinct(order);
            && StrictlySorted(members) && (set p | p in members) == (set p | p in order)
            && Total(h, members, true) == Total(g, order, true)
  {
    var members := SortedDistinct(order);
    SortedDistinctIsSorted(order);
    assert (set p | p in members) == (set p | p in order);
    TotalOfSorted(g, order, true);
    TotalInOther(g, h, members, true);
  }

  lemma ListsFromAgreement(e: Oracles, s: Signer, origin: Disk, src: Source, disk: Disk,
                           order: seq<string>, fetched: set<string>, m: Manifest)
    requires Build(e, disk, src.root, src.derivation, s.key) == Verified(m) && Distinct(order)
    requires var g, h := OriginRecords(e, origin, src.key), Members(e, disk, s.key);
             && (set p | p in order) == ClosureOf(g, src.root) == ClosureOf(h, src.root)
             && forall p :: p in order ==> p in g && p in h && g[p] == h[p]
    ensures ListsClosure(e, origin, src,
                         Imported(m, SortedDistinct(order), fetched,
                                  Total(OriginRecords(e, origin, src.key), order, true)))
  {
    SortedAgreement(OriginRecords(e, origin, src.key), Members(e, disk, s.key), order);
    BuildIsDescription(e, disk, src.root, src.derivation, s.key, m);
    ManifestListsMembers(e, disk, s.key, m, SortedDistinct(order));
  }

  lemma MirrorLists(e: Oracles, s: Signer, origin: Disk, src: Source, disk: Disk,
                    order: seq<string>, fetched: set<string>, m: Manifest)
    requires MirrorInvariant(e, s, origin, src, disk, [], order, fetched)
    requires Build(e, disk, src.root, src.derivation, s.key) == Verified(m)
    ensures ListsClosure(e, origin, src,
                         Imported(m, SortedDistinct(order), fetched,
                                  Total(OriginRecords(e, origin, src.key), order, true)))
  {
    MirroredClosure(e, s, origin, src, disk, order, fetched);
    ListsFromAgreement(e, s, origin, src, disk, order, fetched, m);
  }

  lemma MirrorIsTrusted(e: Oracles, s: Signer, origin: Disk, src: Source, disk: Disk,
                        order: seq<string>, fetched: set<string>)
    requires ':' !in s.key.name && src.key.name != s.key.name
    requires MirrorInvariant(e, s, origin, src, disk, [], order, fetched)
    requires Build(e, disk, src.root, src.derivation, s.key).Verified?
    ensures forall p :: p in SortedDistinct(order) ==> TrustedByBoth(e, s, origin, src, disk, p)
  {
    MirroredClosure(e, s, origin, src, disk, order, fetched);
    SortedDistinctIsSorted(order);
    forall p | p in order ensures TrustedByBoth(e, s, origin, src, disk, p) {
      MirroredIsTrusted(e, s, origin, src, disk, p);
    }
  }

  lemma IntactUnlessPresent(e: Oracles, origin: Disk, key: PublicKey, order: seq<string>, fetched: set<string>)
    requires forall p :: p in fetched ==> OriginNarIntact(e, origin, key, p)
    ensures OriginIntact(e, origin, key, set p | p in order)
            <==> forall p :: p in SortedDistinct(order) && p !in fetched ==> OriginNarIntact(e, origin, key, p)
  {
    SortedDistinctIsSorted(order);
  }

  lemma MirrorMatchesOrigin(e: Oracles, s: Signer, origin: Disk, src: Source, disk: Disk,
                            order: seq<string>, fetched: set<string>, m: Manifest, narTotal: nat)
    requires MirrorInvariant(e, s, origin, src, disk, [], order, fetched)
    requires Build(e, disk, src.root, src.derivation, s.key) == Verified(m)
    ensures OriginGivesSame(e, origin, src, Imported(m, SortedDistinct(order), fetched, narTotal))
  {
    MirroredClosure(e, s, origin, src, disk, order, fetched);
    OriginVerification(e, s, origin, src.key, disk, src.root, src.derivation);
    IntactUnlessPresent(e, origin, src.key, order, fetched);
  }

  lemma MirrorSucceeds(e: Oracles, s: Signer, origin: Disk, src: Source, disk: Disk,
                       order: seq<string>, fetched: set<string>, m: Manifest)
    requires ':' !in s.key.name && src.key.name != s.key.name
    requires MirrorInvariant(e, s, origin, src, disk, [], order, fetched)
    requires Build(e, disk, src.root, src.derivation, s.key) == Verified(m)
    ensures MirrorHolds(e, s, origin, src, disk,
                        Imported(m, SortedDistinct(order), fetched,
                                 Total(OriginRecords(e, origin, src.key), order, true)))
  {
    MirrorLists(e, s, origin, src, disk, order, fetched, m);
    MirrorIsTrusted(e, s, origin, src, disk, order, fetched);
    MirrorMatchesOrigin(e, s, origin, src, disk, order, fetched, m,
                        Total(OriginRecords(e, origin, src.key), order, true));
  }

  lemma SortedIsListing(order: seq<string>)
    ensures IsListing(SortedDistinct(order), Elements(order))
  {
    SortedDistinctIsSorted(order);
  }

  lemma {:induction false} InsertGrowsByOne(x: string, s: seq<string>)
    ensures |Insert(x, s)| <= |s| + 1
  {
    if s == [] {
    } else {
      InsertGrowsByOne(x, s[1..]);
    }
  }

  lemma {:induction false} SortedIsShorter(xs: seq<string>)
    ensures |SortedDistinct(xs)| <= |xs|
  {
    if xs == [] {
    } else {
      SortedIsShorter(xs[1..]);
      InsertGrowsByOne(xs[0], SortedDistinct(xs[1..]));
    }
  }

  /** After the loop, what is left to check decides whether the import satisfied its condition. */
  lemma LoopDecides(e: Oracles, s: Signer, origin: Disk, src: Source, maxArtifact: nat, disk0: Disk, disk: Disk,
                    order: seq<string>, fetched: set<string>, listDigest: seq<string> -> string)
    requires src.key.name != s.key.name && ValidStorePath(src.root)
    requires MirrorInvariant(e, s, origin, src, disk, [], order, fetched) && |order| <= Limit(src)
    requires HasMade(e, s, origin, OriginRecords(e, origin, src.key), disk0, disk, order, fetched)
    requires WithinSize(OriginRecords(e, origin, src.key), Elements(order), maxArtifact)
    ensures Elements(order) == OriginClosure(e, origin, src) && disk == Mirror(e, s, origin, src, disk0)
    ensures var members := SortedDistinct(order);
            Importable(e, disk0, origin, src, s, maxArtifact, listDigest)
            <==> && |members| == src.memberCount && listDigest(members) == src.membersDigest
                 && Build(e, disk, src.root, src.derivation, s.key).Verified?
  {
    var c, members := OriginClosure(e, origin, src), SortedDistinct(order);
    WalkedClosure(OriginRecords(e, origin, src.key), src.root, order);
    WithoutNothing(Mirror(e, s, origin, src, disk0), {}, {});
    SortedIsShorter(order);
    SortedIsListing(order);
    forall ps | IsListing(ps, c) ensures ps == members { SameSetSameList(ps, members); }
    assert DeclaredRightly(src, listDigest, c)
           <==> |members| == src.memberCount && listDigest(members) == src.membersDigest;
  }

  method Import(e: Oracles, nest: Nest, origin: Disk, src: Source, s: Signer, maxArtifact: nat,
                listDigest: seq<string> -> string)
    returns (r: Option<Imported>, ghost taken: set<string>, ghost w: Writes)
    requires ':' !in s.key.name
    modifies nest`disk
    ensures r.Some? <==> Importable(e, old(nest.disk), origin, src, s, maxArtifact, listDigest)
    ensures r.Some? ==> taken == OriginClosure(e, origin, src) && w == Planned(e, origin, src, old(nest.disk))
    ensures r.Some? ==> nest.disk == Mirror(e, s, origin, src, old(nest.disk))
    ensures r.Some? ==> NarsOf(OriginRecords(e, origin, src.key), r.value.fetched) == w.nars
    ensures r.Some? ==> MirrorHolds(e, s, origin, src, nest.disk, r.value)
    ensures r.Some? ==> |r.value.members| == src.memberCount <= 200_000
                        && listDigest(r.value.members) == src.membersDigest
    ensures IsImport(e, s, origin, OriginRecords(e, origin, src.key), src.root, src.derivation, old(nest.disk),
                     nest.disk, taken, w)
  {
    ghost var disk0, g := nest.disk, OriginRecords(e, origin, src.key);
    if src.key.name == s.key.name || !ValidStorePath(src.root) {
      NothingMade(e, s, origin, g, disk0);
      MadeIsImport(e, s, origin, g, src.root, src.derivation, disk0, disk0, [], {});
      return None, Elements([]), Made(e, g, disk0, Elements([]));
    }
    if Importable(e, disk0, origin, src, s, maxArtifact, listDigest) {
      ImportableIsMirrorable(e, disk0, origin, src, s, maxArtifact, listDigest);
    }
    var ok, order, fetched, narTotal := MirrorAll(e, nest, origin, src, s, maxArtifact);
    MadeIsImport(e, s, origin, g, src.root, src.derivation, disk0, nest.disk, order, fetched);
    taken, w := Elements(order), Made(e, g, disk0, Elements(order));
    if !ok {
      return None, taken, w;
    }
    LoopDecides(e, s, origin, src, maxArtifact, disk0, nest.disk, order, fetched, listDigest);
    var members := SortedDistinct(order);
    if |members| != src.memberCount || listDigest(members) != src.membersDigest {
      return None, taken, w;
    }
    ghost var mirror := nest.disk;
    var out := BuildOrQuarantine(e, nest, src.root, src.derivation, s.key);
    if out.Rejected? {
      w := WithdrawnIsImport(e, s, origin, g, src.root, src.derivation, disk0, mirror, w, out);
      return None, taken, w;
    }
    MirrorSucceeds(e, s, origin, src, nest.disk, order, fetched, out.manifest);
    r := Some(Imported(out.manifest, members, fetched, narTotal));
  }

  /** The NARs the node held intact before the import are intact at the origin as well. */
  ghost predicate HeldAreIntact(e: Oracles, origin: Disk, src: Source, disk0: Disk) {
    forall p :: p in OriginClosure(e, origin, src) && p in OriginRecords(e, origin, src.key)
                && CheckNar(e, disk0, OriginRecords(e, origin, src.key)[p]).Passed?
      ==> OriginNarIntact(e, origin, src.key, p)
  }

  /** What was not held intact was fetched, and so was intact at the origin. */
  lemma HeldOrIntact(e: Oracles, origin: Disk, src: Source, maxArtifact: nat, disk0: Disk, p: string)
    requires Mirrorable(e, disk0, origin, src, maxArtifact) && HeldAreIntact(e, origin, src, disk0)
    requires p in OriginClosure(e, origin, src)
    ensures OriginNarIntact(e, origin, src.key, p)
  {
    var g, c := OriginRecords(e, origin, src.key), OriginClosure(e, origin, src);
    assert Takable(e, origin, Missing(e, g, disk0, c), maxArtifact, g[p]);
    OriginRecordsAreChecked(e, origin, src.key, p);
  }

  /** The exact condition, on the state before, for the origin to verify to the imported manifest. */
  lemma HeldDecides(e: Oracles, s: Signer, origin: Disk, src: Source, maxArtifact: nat,
                    listDigest: seq<string> -> string, disk0: Disk, disk: Disk, r: Imported)
    requires Importable(e, disk0, origin, src, s, maxArtifact, listDigest) && MirrorHolds(e, s, origin, src, disk, r)
    ensures Build(e, origin, src.root, src.derivation, src.key) == Verified(r.manifest)
            <==> HeldAreIntact(e, origin, src, disk0)
  {
    if Build(e, origin, src.root, src.derivation, src.key) == Verified(r.manifest) {
      VerifiedOriginIsIntact(e, origin, src.key, src.root, src.derivation);
    } else if HeldAreIntact(e, origin, src, disk0) {
      ImportableIsMirrorable(e, disk0, origin, src, s, maxArtifact, listDigest);
      forall p | p in r.members ensures OriginNarIntact(e, origin, src.key, p) {
        assert p in set q | q in r.members;
        HeldOrIntact(e, origin, src, maxArtifact, disk0, p);
      }
    }
  }

  lemma ArtifactIsRecord(e: Oracles, s: Signer, origin: Disk, src: Source, disk: Disk, r: Imported, i: nat)
    requires MirrorHolds(e, s, origin, src, disk, r) && i < |r.manifest.artifacts|
    ensures var m := r.manifest.artifacts[i];
            OriginRecord(e, origin, src.key, m.storePath) == Some(m) && NarName(m.narUrl).Some?
  {
    var m := r.manifest.artifacts[i];
    BuildIsCertified(e, disk, src.root, src.derivation, s.key, r.manifest);
    MemberMeans(e, disk, s.key, m.storePath, m);
    assert TrustedByBoth(e, s, origin, src, disk, r.members[i]);
    MemberIsSignedRecord(e, disk, s.key, m.storePath);
    MemberShape(e, disk, s.key, m.storePath);
  }

  lemma ArtifactsAreRecords(e: Oracles, s: Signer, origin: Disk, src: Source, disk: Disk, r: Imported)
    requires MirrorHolds(e, s, origin, src, disk, r)
    ensures AreRecords(e, origin, src, r.manifest)
  {
    forall i | 0 <= i < |r.manifest.artifacts|
      ensures OriginRecord(e, origin, src.key, r.manifest.artifacts[i].storePath) == Some(r.manifest.artifacts[i])
              && NarName(r.manifest.artifacts[i].narUrl).Some?
    {
      ArtifactIsRecord(e, s, origin, src, disk, r, i);
    }
    assert PathsOf(r.manifest) == r.members;
  }

  lemma ImportedMeans(e: Oracles, s: Signer, origin: Disk, src: Source, disk0: Disk, r: Imported)
    requires MirrorHolds(e, s, origin, src, Mirror(e, s, origin, src, disk0), r)
    requires FromOrigin(origin, Planned(e, origin, src, disk0))
    ensures ImportsExactly(e, s, origin, src, r.manifest, disk0, Mirror(e, s, origin, src, disk0))
  {
    ArtifactsAreRecords(e, s, origin, src, Mirror(e, s, origin, src, disk0), r);
    ImportMeans(e, s, origin, src, r.manifest, disk0);
  }

  /** `import_replica_closure`, against a fixed origin cache. It succeeds exactly when `Importable` held
      before, and then leaves exactly the planned writes. What is imported is the origin's closure, and a
      closure the origin offers as declared is always imported. `taken` and `w` say what became of the
      disk, of a failed import as well, and thereby which rows still verify.  */
  method ImportReplicaClosure(e: Oracles, nest: Nest, origin: Disk, src: Source, s: Signer, maxArtifact: nat,
                              listDigest: seq<string> -> string)
    returns (r: Option<Imported>, ghost taken: set<string>, ghost w: Writes)
    requires ':' !in s.key.name
    modifies nest`disk
    ensures r.Some? <==> Importable(e, old(nest.disk), origin, src, s, maxArtifact, listDigest)
    ensures r.Some? ==> taken == OriginClosure(e, origin, src) && w == Planned(e, origin, src, old(nest.disk))
    ensures r.Some? ==> NarsOf(OriginRecords(e, origin, src.key), r.value.fetched) == w.nars
    ensures r.Some? ==> MirrorHolds(e, s, origin, src, nest.disk, r.value)
    ensures r.Some? ==> ImportsExactly(e, s, origin, src, r.value.manifest, old(nest.disk), nest.disk)
    ensures r.Some? ==> (Build(e, origin, src.root, src.derivation, src.key) == Verified(r.value.manifest)
                         <==> HeldAreIntact(e, origin, src, old(nest.disk)))
    ensures r.Some? ==> |r.value.members| == src.memberCount <= 200_000
                        && listDigest(r.value.members) == src.membersDigest
    ensures forall m :: Offers(e, origin, src, s, maxArtifact, listDigest, m) ==> r.Some? && r.value.manifest == m
    ensures IsImport(e, s, origin, OriginRecords(e, origin, src.key), src.root, src.derivation, old(nest.disk),
                     nest.disk, taken, w)
    ensures RowsAfter(e, s, origin, nest.rows, old(nest.disk), nest.disk, w)
    ensures r.Some? ==> RowsAfterSuccess(e, s, origin, OriginRecords(e, origin, src.key), src.root, nest.rows,
                                         old(nest.disk), nest.disk)
  {
    ghost var disk0, g := nest.disk, OriginRecords(e, origin, src.key);
    r, taken, w := Import(e, nest, origin, src, s, maxArtifact, listDigest);
    ImportAndRows(e, s, origin, g, src.root, src.derivation, nest.rows, disk0, nest.disk, taken, w);
    if r.Some? {
      SuccessfulImportAndRows(e, s, origin, g, src.root, src.derivation, nest.rows, disk0, nest.disk);
      HeldDecides(e, s, origin, src, maxArtifact, listDigest, disk0, nest.disk, r.value);
      ImportedMeans(e, s, origin, src, disk0, r.value);
    }
    forall m | Offers(e, origin, src, s, maxArtifact, listDigest, m) ensures r.Some? && r.value.manifest == m {
      OfferIsImportable(e, disk0, origin, src, s, maxArtifact, listDigest, m);
    }
  }
}

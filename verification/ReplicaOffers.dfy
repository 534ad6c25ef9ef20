/** When a replica import must succeed: an origin that verifies can be mirrored, and the mirror
    verifies to the same manifest.  */
module ReplicaOffers {
  import opened Options
  import opened FiniteSets
  import opened StorePaths
  import opened TextOrder
  import opened CacheModel
  import opened ReferenceGraph
  import opened NarinfoCheck
  import opened ClosureWalk
  import opened ClosureManifest
  import opened ReplicaImport

  /** The node's signatures verify under its own key. */
  ghost predicate SignerWorks(e: Oracles, s: Signer) {
    ':' !in s.key.name && forall signed :: e.verify(s.key.material, signed, s.sign(signed))
  }

  /** The mirrored record of a path stays within the size limit. */
  ghost predicate RecordFits(e: Oracles, s: Signer, origin: Disk, path: string) {
    ValidStorePath(path) && Stem(path) in origin.narinfos ==>
      Mirrored(e, s, origin.narinfos[Stem(path)]).size <= MAX_NARINFO_BYTES
  }

  /** One member can be taken from the origin. */
  ghost predicate Available(e: Oracles, origin: Disk, key: PublicKey, maxArtifact: nat, path: string) {
    && OriginNarIntact(e, origin, key, path)
    && OriginRecord(e, origin, key, path).value.fileSize <= maxArtifact
    && ValidCompression(OriginRecord(e, origin, key, path).value.compression)
  }

  ghost predicate Inside(ps: seq<string>, c: set<string>) {
    Distinct(ps) && forall p :: p in ps ==> p in c
  }

  /** No part of the closure overflows the size counter. */
  ghost predicate PartsFit(g: MemberGraph, c: set<string>) {
    forall ps :: Inside(ps, c) ==> Total(g, ps, true) < U64_LIMIT
  }

  /** The whole closure can, within the limits of an import. */
  ghost predicate CanServe(e: Oracles, origin: Disk, key: PublicKey, root: string, maxArtifact: nat, limit: nat) {
    var g, c := OriginRecords(e, origin, key), ClosureOf(OriginRecords(e, origin, key), root);
    && c <= g.Keys && |c| <= limit
    && (forall p :: p in c ==> Available(e, origin, key, maxArtifact, p))
    && PartsFit(g, c)
  }

  // ---- an origin that verifies can serve ----

  lemma SubgraphClosure(g: MemberGraph, o: MemberGraph, root: string)
    requires ClosureOf(o, root) <= o.Keys && forall p :: p in o ==> p in g && g[p] == o[p]
    ensures ClosureOf(g, root) == ClosureOf(o, root)
  {
    ClosuresCoincide(o, o, root);
    ClosureFrame(Edges(o), Edges(g), {root});
  }

  lemma VerifiedClosure(e: Oracles, origin: Disk, key: PublicKey, root: string, derivation: Option<string>)
    requires Build(e, origin, root, derivation, key).Verified?
    ensures var g, o := OriginRecords(e, origin, key), Members(e, origin, key);
            && ClosureOf(g, root) == ClosureOf(o, root) <= o.Keys
            && forall p :: p in o ==> p in g && g[p] == o[p]
  {
    var g, o := OriginRecords(e, origin, key), Members(e, origin, key);
    WalkFromRootIsSound(o, root);
    forall p | p in o ensures p in g && g[p] == o[p] { OriginMemberIsRecord(e, origin, key, p); }
    SubgraphClosure(g, o, root);
  }

  lemma MemberIsAvailable(e: Oracles, origin: Disk, key: PublicKey, maxArtifact: nat, path: string)
    requires path in Members(e, origin, key) && Members(e, origin, key)[path].fileSize <= maxArtifact
    ensures Available(e, origin, key, maxArtifact, path)
  {
    OriginMemberIsRecord(e, origin, key, path);
    OriginRecordsAreChecked(e, origin, key, path);
    MembersAreChecked(e, origin, key, path);
    MemberIsSignedRecord(e, origin, key, path);
  }

  lemma SortedIsDistinct(ps: seq<string>)
    requires StrictlySorted(ps)
    ensures Distinct(ps) && |set p | p in ps| == |ps|
  {
    forall i, j | 0 <= i < j < |ps| ensures ps[i] != ps[j] { LessIrreflexive(ps[i]); }
    SizeOfDistinct(ps);
  }

  /** Totals over any part of a described closure fit, because the whole does. */
  lemma PartFits(g: MemberGraph, m: Manifest, ps: seq<string>, qs: seq<string>)
    requires Lists(g, m, qs) && m.totalNarSize < U64_LIMIT && Distinct(ps)
    requires forall p :: p in ps ==> p in ClosureOf(g, m.root)
    ensures Total(g, ps, true) < U64_LIMIT
  {
    forall p | p in ps ensures p in qs { assert p in set q | q in qs; }
    TotalOfSubset(g, ps, qs, true);
  }

  lemma {:induction false} TotalInOther(g: MemberGraph, o: MemberGraph, ps: seq<string>, nar: bool)
    requires forall p :: p in ps ==> p in g && p in o && g[p] == o[p]
    ensures Total(g, ps, nar) == Total(o, ps, nar)
  {
    if ps == [] {
    } else {
      TotalInOther(g, o, ps[1..], nar);
    }
  }

  lemma VerifiedOriginServes(e: Oracles, origin: Disk, key: PublicKey, root: string, derivation: Option<string>,
                             m: Manifest, maxArtifact: nat, limit: nat)
    requires Build(e, origin, root, derivation, key) == Verified(m)
    requires |m.artifacts| <= limit && forall i :: 0 <= i < |m.artifacts| ==> m.artifacts[i].fileSize <= maxArtifact
    ensures CanServe(e, origin, key, root, maxArtifact, limit)
  {
    var g, o := OriginRecords(e, origin, key), Members(e, origin, key);
    VerifiedClosure(e, origin, key, root, derivation);
    BuildIsDescription(e, origin, root, derivation, key, m);
    var qs :| Lists(o, m, qs);
    SortedIsDistinct(qs);
    forall p | p in ClosureOf(g, root) ensures Available(e, origin, key, maxArtifact, p) {
      assert p in set q | q in qs;
      var i :| 0 <= i < |qs| && qs[i] == p;
      assert m.artifacts[i] == o[p];
      MemberIsAvailable(e, origin, key, maxArtifact, p);
    }
    forall ps | Inside(ps, ClosureOf(g, root)) ensures Total(g, ps, true) < U64_LIMIT {
      PartFits(o, m, ps, qs);
      TotalInOther(g, o, ps, true);
    }
  }

  // ---- a mirrored member is a member ----

  lemma OwnSignatureHolds(e: Oracles, s: Signer, signed: Fingerprint)
    requires ':' !in s.key.name && e.verify(s.key.material, signed, s.sign(signed))
    ensures SignatureHolds(e, s.key, OwnPrefix(s.key) + s.sign(signed), signed)
  {
    var v := OwnPrefix(s.key) + s.sign(signed);
    PrefixIsName(s.key, v);
    assert v[|s.key.name| + 1..] == s.sign(signed);
  }

  lemma MirroredIsSigned(e: Oracles, s: Signer, origin: Disk, key: PublicKey, path: string)
    requires SignerWorks(e, s) && RecordFits(e, s, origin, path) && OriginRecord(e, origin, key, path).Some?
    ensures SignedRecord(e, Mirrored(e, s, origin.narinfos[Stem(path)]), s.key, path)
            == OriginRecord(e, origin, key, path)
  {
    var f := origin.narinfos[Stem(path)];
    var p := ParseStrict(e, f).value;
    var signed := PrintOf(p, e.parseHash(p.narHash).value);
    var mirrored := Mirrored(e, s, f);
    var own := mirrored.lines[|mirrored.lines| - 1];
    MirroredParses(e, s, f);
    ValuesOfAppend(DropOwn(s.key, f.lines), own, Sig);
    OwnSignatureHolds(e, s, signed);
    assert own.value in Values(mirrored.lines, Sig);
    SignedByMember(e, s.key, Values(mirrored.lines, Sig), own.value, signed);
  }

  lemma MirroredIsMember(e: Oracles, s: Signer, origin: Disk, key: PublicKey, disk: Disk, path: string)
    requires SignerWorks(e, s) && RecordFits(e, s, origin, path) && MirroredAt(e, s, origin, disk, path)
    requires OriginRecord(e, origin, key, path).Some?
    requires ValidCompression(OriginRecord(e, origin, key, path).value.compression)
    requires CheckNar(e, disk, OriginRecord(e, origin, key, path).value).Passed?
    ensures path in Members(e, disk, s.key) && Members(e, disk, s.key)[path] == OriginRecord(e, origin, key, path).value
  {
    var m := OriginRecord(e, origin, key, path).value;
    MirroredIsSigned(e, s, origin, key, path);
    RecordThenNar(e, disk, s.key, path, m);
    IntactNarPasses(e, disk, m);
    MembersAreChecked(e, disk, s.key, path);
  }

  /** Every NAR of these records is present and intact. */
  ghost predicate NarsPresent(e: Oracles, disk: Disk, g: MemberGraph, ps: seq<string>) {
    forall p :: p in ps ==> p in g && CheckNar(e, disk, g[p]).Passed?
  }

  /** A mirror of all of a verified closure verifies to the same manifest. */
  lemma MirrorVerifies(e: Oracles, s: Signer, origin: Disk, key: PublicKey, disk: Disk, root: string,
                       derivation: Option<string>, m: Manifest, order: seq<string>)
    requires SignerWorks(e, s) && Build(e, origin, root, derivation, key) == Verified(m)
    requires forall p :: p in order ==> RecordFits(e, s, origin, p)
    requires (set p | p in order) == ClosureOf(OriginRecords(e, origin, key), root)
    requires forall p :: p in order ==> MirroredAt(e, s, origin, disk, p)
    requires NarsPresent(e, disk, OriginRecords(e, origin, key), order)
    ensures Build(e, disk, root, derivation, s.key) == Verified(m)
  {
    var g, o, h := OriginRecords(e, origin, key), Members(e, origin, key), Members(e, disk, s.key);
    VerifiedClosure(e, origin, key, root, derivation);
    forall p | p in ClosureOf(o, root) ensures p in h && h[p] == o[p] {
      assert p in set q | q in order;
      MembersAreChecked(e, origin, key, p);
      MemberIsSignedRecord(e, origin, key, p);
      OriginRecordsAreChecked(e, origin, key, p);
      MirroredIsMember(e, s, origin, key, disk, p);
    }
    JudgeDependsOnClosure(e, o, h, root, derivation, p => Inspect(e, origin, key, p), p => Inspect(e, disk, s.key, p));
  }

  // ---- the mirroring loop does not fail ----

  /** What one mirrored member leaves on disk. */
  ghost predicate TakesMember(e: Oracles, s: Signer, origin: Disk, path: string, m: Member, fetched: bool, disk: Disk,
                              disk': Disk)
  {
    && ValidStorePath(path) && Stem(path) in origin.narinfos
    && disk'.narinfos == disk.narinfos[Stem(path) := Mirrored(e, s, origin.narinfos[Stem(path)])]
    && (fetched <==> CheckNar(e, disk, m).Failed?)
    && (if fetched then
          && CheckNar(e, origin, m).Passed?
          && disk'.nars == disk.nars[NarName(m.narUrl).value := origin.nars[NarName(m.narUrl).value]]
        else disk'.nars == disk.nars)
  }

  lemma NextIsInside(g: MemberGraph, root: string, queue: seq<string>, order: seq<string>)
    requires WalkInvariant(g, root, queue, order) && queue != [] && queue[0] !in order
    ensures Inside(order + [queue[0]], ClosureOf(g, root)) && |order| + 1 <= |ClosureOf(g, root)|
    ensures queue[0] in ClosureOf(g, root)
  {
    var ps := order + [queue[0]];
    assert queue[0] in queue && queue[0] in ps;
    ReachableIsInClosure(g, root, ps);
    SizeOfDistinct(ps);
    SubsetIsNotLarger((set p | p in ps), ClosureOf(g, root));
  }

  lemma PartFitsHere(g: MemberGraph, c: set<string>, ps: seq<string>)
    requires PartsFit(g, c) && Inside(ps, c)
    ensures Total(g, ps, true) < U64_LIMIT
  {
  }

  lemma SameBytesSameCheck(e: Oracles, a: Disk, b: Disk, m: Member)
    requires NarName(m.narUrl).Some? ==>
               var n := NarName(m.narUrl).value;
               (n in a.nars <==> n in b.nars) && (n in a.nars ==> a.nars[n] == b.nars[n])
    ensures CheckNar(e, a, m) == CheckNar(e, b, m)
  {
  }
}

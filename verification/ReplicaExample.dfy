/** Two imports. A mirror verifies although its origin does not: a NAR the node already holds is not
    fetched, so nobody notices that the origin has lost it. And a row that verified no longer does
    after a successful import: the origin serves the same path under another URL.  */
module ReplicaExample {
  import opened Options
  import opened StorePaths
  import opened TextOrder
  import opened CacheModel
  import opened ReferenceGraph
  import opened NarinfoCheck
  import opened ClosureWalk
  import opened ClosureManifest
  import opened Scrubber
  import opened ScrubSafety
  import opened ReplicaImport
  import opened ReplicaOffers
  import opened ReplicaWrites
  import opened ReplicaSuccess
  import opened ExampleCache

  function Node(): Signer {
    Signer(PublicKey("m", ""), signed => "s", lines => 1)
  }

  /** The origin has the record but not the NAR; the node has the NAR. */
  function LostNar(path: string): Disk
    requires ValidStorePath(path)
  {
    Disk(OneMember(path).narinfos, map[])
  }

  const HELD: Disk := Disk(map[], map["x" := [0]])

  function AfterMirror(path: string): Disk
    requires ValidStorePath(path)
  {
    Disk(HELD.narinfos[Stem(path) := Mirrored(Yes(), Node(), LostNar(path).narinfos[Stem(path)])], HELD.nars)
  }

  lemma RecordIsSigned(path: string)
    requires ValidStorePath(path)
    ensures OriginRecord(Yes(), LostNar(path), KEY, path) == Some(TheMember(path))
    ensures CheckNar(Yes(), HELD, TheMember(path)).Passed?
  {
    MemberPasses(path);
    MembersAreChecked(Yes(), OneMember(path), KEY, path);
    MemberIsSignedRecord(Yes(), OneMember(path), KEY, path);
    SameBytesSameCheck(Yes(), HELD, OneMember(path), TheMember(path));
  }

  lemma NodeSigns(path: string)
    requires ValidStorePath(path)
    ensures SignerWorks(Yes(), Node()) && RecordFits(Yes(), Node(), LostNar(path), path)
  {
    LinesParse(path, "nar/x", "");
  }

  lemma OriginFails(path: string)
    requires ValidStorePath(path)
    ensures !Build(Yes(), LostNar(path), path, None, KEY).Verified?
  {
    if Build(Yes(), LostNar(path), path, None, KEY).Verified? {
      WalkFromRootIsSound(Members(Yes(), LostNar(path), KEY), path);
      ClosureIsLeast(Edges(Members(Yes(), LostNar(path), KEY)), {path});
      MembersAreChecked(Yes(), LostNar(path), KEY, path);
      MemberShape(Yes(), LostNar(path), KEY, path);
    }
  }

  lemma LeafVerifies(e: Oracles, disk: Disk, key: PublicKey, path: string, m: Member)
    requires ValidStorePath(path) && path in Members(e, disk, key) && Members(e, disk, key)[path] == m
    requires m.references == [] && m.fileSize < U64_LIMIT && m.narSize < U64_LIMIT
    requires e.boundary(Manifest(path, None, [m], m.fileSize, m.narSize))
    ensures Build(e, disk, path, None, key) == Verified(Manifest(path, None, [m], m.fileSize, m.narSize))
  {
    var g, manifest := Members(e, disk, key), Manifest(path, None, [m], m.fileSize, m.narSize);
    LeafDescribed(g, path, m);
    BuildIsDescription(e, disk, path, None, key, manifest);
  }

  /** A mirrored record without references, with its NAR in place, verifies. */
  lemma MirroredLeafVerifies(origin: Disk, disk: Disk, path: string, url: string)
    requires ValidStorePath(path) && SignerWorks(Yes(), Node()) && RecordFits(Yes(), Node(), origin, path)
    requires MirroredAt(Yes(), Node(), origin, disk, path)
    requires OriginRecord(Yes(), origin, KEY, path) == Some(MemberAs(path, url, []))
    requires CheckNar(Yes(), disk, MemberAs(path, url, [])).Passed?
    ensures path in Members(Yes(), disk, Node().key)
    ensures Members(Yes(), disk, Node().key)[path] == MemberAs(path, url, [])
    ensures Build(Yes(), disk, path, None, Node().key)
            == Verified(Manifest(path, None, [MemberAs(path, url, [])], 1, 1))
  {
    MirroredIsMember(Yes(), Node(), origin, KEY, disk, path);
    LeafVerifies(Yes(), disk, Node().key, path, MemberAs(path, url, []));
  }

  lemma MirrorPasses(path: string)
    requires ValidStorePath(path)
    ensures path in Members(Yes(), AfterMirror(path), Node().key)
    ensures Members(Yes(), AfterMirror(path), Node().key)[path] == TheMember(path)
    ensures Build(Yes(), AfterMirror(path), path, None, Node().key)
            == Verified(Manifest(path, None, [TheMember(path)], 1, 1))
  {
    RecordIsSigned(path);
    NodeSigns(path);
    SameBytesSameCheck(Yes(), AfterMirror(path), HELD, TheMember(path));
    MirroredLeafVerifies(LostNar(path), AfterMirror(path), path, "nar/x");
  }

  function Declared(path: string): Source {
    Source(path, KEY, 1, "", None)
  }

  function Same(): seq<string> -> string {
    paths => ""
  }

  /** The closure of a path whose record has no references is the path alone. */
  lemma LeafClosure(origin: Disk, path: string, m: Member)
    requires OriginRecord(Yes(), origin, KEY, path) == Some(m) && m.references == []
    ensures OriginClosure(Yes(), origin, Declared(path)) == {path}
    ensures path in OriginRecords(Yes(), origin, KEY) && OriginRecords(Yes(), origin, KEY)[path] == m
  {
    OriginRecordsAreChecked(Yes(), origin, KEY, path);
    LeafDescribed(OriginRecords(Yes(), origin, KEY), path, m);
  }

  lemma OneMissing(e: Oracles, g: MemberGraph, disk: Disk, path: string)
    requires path in g && NarName(g[path].narUrl).Some?
    ensures Missing(e, g, disk, {path})
            == if CheckNar(e, disk, g[path]).Failed? then {NarName(g[path].narUrl).value} else {}
  {
    var one := if CheckNar(e, disk, g[path]).Failed? then {NarName(g[path].narUrl).value} else {};
    forall n ensures n in Missing(e, g, disk, {path}) <==> n in one {
      if n in one { assert path in {path}; }
    }
  }

  lemma OneStem(path: string)
    requires ValidStorePath(path)
    ensures StemsOf({path}) == {Stem(path)}
  {
    assert path in {path};
  }

  lemma LeafWrites(origin: Disk, disk0: Disk, path: string, m: Member)
    requires ValidStorePath(path) && NarName(m.narUrl).Some?
    requires OriginRecord(Yes(), origin, KEY, path) == Some(m) && m.references == []
    ensures Planned(Yes(), origin, Declared(path), disk0)
            == Writes({Stem(path)},
                      if CheckNar(Yes(), disk0, m).Failed? then {NarName(m.narUrl).value} else {}, {}, {})
  {
    LeafClosure(origin, path, m);
    OneStem(path);
    OneMissing(Yes(), OriginRecords(Yes(), origin, KEY), disk0, path);
  }

  lemma OnePathIsDeclared(src: Source, listDigest: seq<string> -> string, c: set<string>)
    requires src.memberCount == 1 && listDigest([src.root]) == src.membersDigest && c == {src.root}
    ensures DeclaredRightly(src, listDigest, c)
  {
    assert IsListing([src.root], {src.root});
  }

  lemma OnePathFits(g: MemberGraph, c: set<string>, path: string, maxArtifact: nat)
    requires c == {path} && path in g && g[path].fileSize <= maxArtifact
    ensures WithinSize(g, c, maxArtifact)
  {
  }

  /** The condition for a closure of one member. */
  lemma OnePathImportable(e: Oracles, disk0: Disk, origin: Disk, src: Source, s: Signer, maxArtifact: nat,
                          listDigest: seq<string> -> string)
    requires src.key.name != s.key.name && ValidStorePath(src.root) && OriginClosure(e, origin, src) == {src.root}
    requires src.root in OriginRecords(e, origin, src.key)
    requires OriginRecords(e, origin, src.key)[src.root].fileSize <= maxArtifact
    requires src.memberCount == 1 && listDigest([src.root]) == src.membersDigest
    requires Build(e, Mirror(e, s, origin, src, disk0), src.root, src.derivation, s.key).Verified?
    ensures Importable(e, disk0, origin, src, s, maxArtifact, listDigest)
  {
    OnePathIsDeclared(src, listDigest, OriginClosure(e, origin, src));
    OnePathFits(OriginRecords(e, origin, src.key), OriginClosure(e, origin, src), src.root, maxArtifact);
  }

  lemma LeafImportable(origin: Disk, disk0: Disk, path: string, m: Member)
    requires ValidStorePath(path) && m.fileSize == 1
    requires OriginRecord(Yes(), origin, KEY, path) == Some(m) && m.references == []
    requires Build(Yes(), Mirror(Yes(), Node(), origin, Declared(path), disk0), path, None, Node().key).Verified?
    ensures Importable(Yes(), disk0, origin, Declared(path), Node(), 1, Same())
  {
    LeafClosure(origin, path, m);
    assert KEY.name[0] != Node().key.name[0];
    OnePathImportable(Yes(), disk0, origin, Declared(path), Node(), 1, Same());
  }

  lemma OverwriteRecord(e: Oracles, s: Signer, origin: Disk, disk: Disk, stem: string)
    requires stem in origin.narinfos
    ensures Overwritten(e, s, origin, disk, Writes({stem}, {}, {}, {}))
            == Disk(disk.narinfos[stem := Mirrored(e, s, origin.narinfos[stem])], disk.nars)
  {
    OverOne(disk.narinfos, MirroredFiles(e, s, origin), stem);
    assert Over(disk.nars, origin.nars, {}) == disk.nars;
  }

  lemma HeldMirror(path: string)
    requires ValidStorePath(path)
    ensures Planned(Yes(), LostNar(path), Declared(path), HELD) == Writes({Stem(path)}, {}, {}, {})
    ensures Mirror(Yes(), Node(), LostNar(path), Declared(path), HELD) == AfterMirror(path)
  {
    RecordIsSigned(path);
    LeafWrites(LostNar(path), HELD, path, TheMember(path));
    OverwriteRecord(Yes(), Node(), LostNar(path), HELD, Stem(path));
  }

  /** The import succeeds without fetching anything, and the origin does not verify. */
  lemma HeldNarHidesLoss(path: string)
    requires ValidStorePath(path)
    ensures Importable(Yes(), HELD, LostNar(path), Declared(path), Node(), 1, Same())
    ensures Planned(Yes(), LostNar(path), Declared(path), HELD).nars == {}
    ensures !Build(Yes(), LostNar(path), path, None, KEY).Verified?
  {
    RecordIsSigned(path);
    OriginFails(path);
    HeldMirror(path);
    MirrorPasses(path);
    LeafImportable(LostNar(path), HELD, path, TheMember(path));
  }

  // ---- a row that a successful import breaks ----

  /** Another origin has the same path with its NAR under another name. */
  function Elsewhere(path: string): Disk
    requires ValidStorePath(path)
  {
    Disk(map[Stem(path) := File(path, "nar/y", "")], map["y" := [0]])
  }

  function RowOf(path: string): Row
    requires ValidStorePath(path)
  {
    Row("system", "a", Nar("x"), path, Narinfo(Stem(path)), "nar/x", "h", "h", "xz", 1, 1, 0, Some({}), None, None,
        None, None, 0)
  }

  function Replaced(path: string): Disk
    requires ValidStorePath(path)
  {
    Disk(AfterMirror(path).narinfos[Stem(path) := Mirrored(Yes(), Node(), Elsewhere(path).narinfos[Stem(path)])],
         AfterMirror(path).nars["y" := [0]])
  }

  lemma RowMatches(path: string, m: Manifest)
    requires ValidStorePath(path)
    ensures MatchesMember(Yes(), Node().key, RowOf(path), TheMember(path), m)
    ensures !MatchesMember(Yes(), Node().key, RowOf(path), MemberAs(path, "nar/y", []), m)
  {
    assert NarName("nar/x") == Some("x") && (set p | p in TheMember(path).references) == {};
    assert "nar/x"[4] != "nar/y"[4];
  }

  lemma RowVerified(path: string)
    requires ValidStorePath(path)
    ensures Good(Yes(), AfterMirror(path), Node().key, RowOf(path))
  {
    MirrorPasses(path);
    var m := Manifest(path, None, [TheMember(path)], 1, 1);
    RowMatches(path, m);
    MatchingRowIsGood(Yes(), AfterMirror(path), Node().key, RowOf(path), m);
  }

  lemma ElsewhereIsSigned(path: string)
    requires ValidStorePath(path)
    ensures SignerWorks(Yes(), Node()) && RecordFits(Yes(), Node(), Elsewhere(path), path)
    ensures OriginRecord(Yes(), Elsewhere(path), KEY, path) == Some(MemberAs(path, "nar/y", []))
  {
    assert SortedDistinct(RefPaths([])) == [];
    LinesParse(path, "nar/y", "");
    RecordHolds(path, "nar/y", "");
  }

  lemma NarIsElsewhere(path: string)
    requires ValidStorePath(path)
    ensures CheckNar(Yes(), Elsewhere(path), MemberAs(path, "nar/y", [])).Passed?
    ensures CheckNar(Yes(), AfterMirror(path), MemberAs(path, "nar/y", [])).Failed?
    ensures CheckNar(Yes(), Replaced(path), MemberAs(path, "nar/y", [])).Passed?
  {
    assert NarName("nar/y") == Some("y") && "x"[0] != "y"[0];
    NarPasses(Elsewhere(path), MemberAs(path, "nar/y", []));
    NarPasses(Replaced(path), MemberAs(path, "nar/y", []));
  }

  lemma ReplacedVerifies(path: string)
    requires ValidStorePath(path)
    ensures Build(Yes(), Replaced(path), path, None, Node().key)
            == Verified(Manifest(path, None, [MemberAs(path, "nar/y", [])], 1, 1))
  {
    ElsewhereIsSigned(path);
    NarIsElsewhere(path);
    MirroredLeafVerifies(Elsewhere(path), Replaced(path), path, "nar/y");
  }

  lemma ReplacedIsMirror(path: string)
    requires ValidStorePath(path)
    ensures Mirror(Yes(), Node(), Elsewhere(path), Declared(path), AfterMirror(path)) == Replaced(path)
  {
    ElsewhereIsSigned(path);
    NarIsElsewhere(path);
    assert NarName("nar/y") == Some("y");
    LeafWrites(Elsewhere(path), AfterMirror(path), path, MemberAs(path, "nar/y", []));
    OverOne(AfterMirror(path).narinfos, MirroredFiles(Yes(), Node(), Elsewhere(path)), Stem(path));
    OverOne(AfterMirror(path).nars, Elsewhere(path).nars, "y");
  }

  lemma ElsewhereVerifies(path: string)
    requires ValidStorePath(path)
    ensures Build(Yes(), Elsewhere(path), path, None, KEY)
            == Verified(Manifest(path, None, [MemberAs(path, "nar/y", [])], 1, 1))
  {
    assert NarName("nar/y") == Some("y") && SortedDistinct(RefPaths([])) == [];
    FileIsMember(Elsewhere(path), path, "nar/y", "y", "");
    LeafVerifies(Yes(), Elsewhere(path), KEY, path, MemberAs(path, "nar/y", []));
  }

  lemma ElsewhereOffers(path: string)
    requires ValidStorePath(path)
    ensures Offers(Yes(), Elsewhere(path), Declared(path), Node(), 1, Same(),
                   Manifest(path, None, [MemberAs(path, "nar/y", [])], 1, 1))
  {
    ElsewhereIsSigned(path);
    ElsewhereVerifies(path);
    LeafClosure(Elsewhere(path), path, MemberAs(path, "nar/y", []));
    assert KEY.name[0] != Node().key.name[0];
  }

  /** The import succeeds and its mirror verifies; the row that verified before does not. */
  lemma ImportBreaksRow(path: string)
    requires ValidStorePath(path)
    ensures Importable(Yes(), AfterMirror(path), Elsewhere(path), Declared(path), Node(), 1, Same())
    ensures Good(Yes(), AfterMirror(path), Node().key, RowOf(path))
    ensures var disk := Mirror(Yes(), Node(), Elsewhere(path), Declared(path), AfterMirror(path));
            Build(Yes(), disk, path, None, Node().key).Verified? && !Good(Yes(), disk, Node().key, RowOf(path))
  {
    var m := Manifest(path, None, [MemberAs(path, "nar/y", [])], 1, 1);
    ElsewhereOffers(path);
    OfferIsImportable(Yes(), AfterMirror(path), Elsewhere(path), Declared(path), Node(), 1, Same(), m);
    RowVerified(path);
    ReplacedVerifies(path);
    ReplacedIsMirror(path);
    RowMatches(path, m);
  }
}

/** What a scrub may and may not take away: the exact condition under which it removes every row
    that does not verify and no row that does.  */
module ScrubSafety {
  import opened Options
  import opened StorePaths
  import opened TextOrder
  import opened CacheModel
  import opened ReferenceGraph
  import opened NarinfoCheck
  import opened ClosureWalk
  import opened ClosureManifest
  import opened SweepSafety
  import opened Scrubber

  type Rows = map<int, Row>

  // ---- the world a scrub assumes ----

  ghost predicate Referenced(g: MemberGraph, path: string) {
    exists p :: p in g && path in g[p].references
  }

  /** Store paths the cache can come across: the rows' roots and the references of good members. */
  ghost predicate Known(e: Oracles, disk: Disk, key: PublicKey, rows: Rows, path: string) {
    || (exists id :: id in rows && rows[id].storePath == path)
    || Referenced(Members(e, disk, key), path)
  }

  predicate SameStem(p: string, q: string) {
    ValidStorePath(p) && ValidStorePath(q) && Stem(p) == Stem(q)
  }

  /** A store path is determined by its hash. */
  ghost predicate HashesAreUnique(e: Oracles, disk: Disk, key: PublicKey, rows: Rows) {
    forall p, q | Known(e, disk, key, rows, p) && Known(e, disk, key, rows, q) :: SameStem(p, q) ==> p == q
  }

  ghost predicate HonestName(e: Oracles, m: Member) {
    NarName(m.narUrl).Some? ==>
      NamedDigest(NarName(m.narUrl).value) in {None, e.parseHash(m.fileHash)}
  }

  /** A NAR file whose name claims a digest claims the one its record declares. */
  ghost predicate NarsAreContentNamed(e: Oracles, disk: Disk, key: PublicKey) {
    forall p :: p in Members(e, disk, key) ==> HonestName(e, Members(e, disk, key)[p])
  }

  /** Recorded NARInfo paths name the row's own store path. */
  ghost predicate RecordedPathsAreCanonical(rows: Rows) {
    forall id :: id in rows && rows[id].narinfoPath.Narinfo? ==>
      NarinfoStem(rows[id].storePath) == Some(rows[id].narinfoPath.stem)
  }

  ghost predicate BasenamesEverywhere(e: Oracles, disk: Disk, key: PublicKey, rows: Rows) {
    forall id :: id in rows ==> ClosureWritesBasenames(e, disk, key, rows[id].storePath)
  }

  ghost predicate World(e: Oracles, disk: Disk, key: PublicKey, rows: Rows) {
    && HashesAreUnique(e, disk, key, rows)
    && NarsAreContentNamed(e, disk, key)
    && RecordedPathsAreCanonical(rows)
    && BasenamesEverywhere(e, disk, key, rows)
    && (forall id :: id in rows ==> id > 0)
  }

  // ---- why a row fails ----

  /** The row's walk met a member that does not pass its check. */
  ghost predicate BadMember(e: Oracles, disk: Disk, key: PublicKey, row: Row) {
    && ValidStorePath(row.storePath) && ValidDerivation(Derivation(row))
    && WalkFromRoot(Members(e, disk, key), row.storePath).Stuck?
  }

  /** The closure verifies but is not the one recorded. */
  ghost predicate Mismatched(e: Oracles, disk: Disk, key: PublicKey, row: Row) {
    Verdict(e, disk, key, row).Verified? && !Good(e, disk, key, row)
  }

  /** The row's root or derivation is refused before any record is read. */
  ghost predicate Unwalked(row: Row) {
    !ValidStorePath(row.storePath) || !ValidDerivation(Derivation(row))
  }

  /** The row fails without a bad member, and withdraws the names of its root only. */
  ghost predicate RecordFails(e: Oracles, disk: Disk, key: PublicKey, row: Row) {
    Unwalked(row) || Mismatched(e, disk, key, row)
  }

  lemma ListedMemberMatches(e: Oracles, key: PublicKey, g: MemberGraph, m: Manifest, row: Row)
    requires Describes(g, m) && row.storePath in ClosureOf(g, m.root) && row.storePath in g
    requires g[row.storePath].storePath == row.storePath && MatchesMember(e, key, row, g[row.storePath], m)
    ensures InventoryMatches(e, key, row, m)
  {
    var ps :| Lists(g, m, ps);
    assert row.storePath in set p | p in ps;
    var i :| 0 <= i < |ps| && ps[i] == row.storePath;
    assert m.artifacts[i] == g[row.storePath];
  }

  /** A row whose closure verifies is good when it records the member its root has. */
  lemma MatchingRowIsGood(e: Oracles, disk: Disk, key: PublicKey, row: Row, m: Manifest)
    requires Verdict(e, disk, key, row) == Verified(m) && row.storePath in Members(e, disk, key)
    requires MatchesMember(e, key, row, Members(e, disk, key)[row.storePath], m)
    ensures Good(e, disk, key, row)
  {
    BuildIsDescription(e, disk, row.storePath, Derivation(row), key, m);
    MembersAreChecked(e, disk, key, row.storePath);
    MemberShape(e, disk, key, row.storePath);
    ClosureIsLeast(Edges(Members(e, disk, key)), {row.storePath});
    ListedMemberMatches(e, key, Members(e, disk, key), m, row);
  }

  lemma AssembleSurvivesGrowth(g: MemberGraph, h: MemberGraph, root: string, derivation: Option<string>)
    requires Within(g, h) && !WalkFromRoot(g, root).Stuck?
    ensures WalkFromRoot(h, root) == WalkFromRoot(g, root)
    ensures Assemble(h, root, derivation) == Assemble(g, root, derivation)
  {
    WalkSurvivesGrowth(g, h, root);
    if WalkFromRoot(g, root).Complete? {
      var ps := SortedDistinct(WalkFromRoot(g, root).order);
      CompleteWalkIsInside(g, root);
      CompleteWalkIsInside(h, root);
      assert ArtifactsAt(g, ps) == ArtifactsAt(h, ps);
    }
  }

  lemma JudgeSurvivesGrowth(e: Oracles, g: MemberGraph, h: MemberGraph, root: string, derivation: Option<string>,
                            check: string -> Check, check': string -> Check)
    requires Within(g, h) && !WalkFromRoot(g, root).Stuck?
    ensures !WalkFromRoot(h, root).Stuck?
    ensures Judge(e, h, root, derivation, check') == Judge(e, g, root, derivation, check)
  {
    AssembleSurvivesGrowth(g, h, root, derivation);
  }

  /** Only a bad member changes a row's verdict when files disappear. */
  lemma VerdictSurvivesGrowth(e: Oracles, disk: Disk, left: Disk, key: PublicKey, row: Row)
    requires Shrunk(disk, left) && !BadMember(e, left, key, row)
    ensures Verdict(e, left, key, row) == Verdict(e, disk, key, row)
    ensures !BadMember(e, disk, key, row)
  {
    if ValidStorePath(row.storePath) && ValidDerivation(Derivation(row)) {
      ShrunkMembers(e, disk, left, key);
      JudgeSurvivesGrowth(e, Members(e, left, key), Members(e, disk, key), row.storePath, Derivation(row),
                          p => Inspect(e, left, key, p), p => Inspect(e, disk, key, p));
    }
  }

  /** Removal never makes a row good. */
  lemma GoodOnlyShrinks(e: Oracles, disk: Disk, left: Disk, key: PublicKey, row: Row)
    requires Shrunk(disk, left) && Good(e, left, key, row)
    ensures Good(e, disk, key, row)
  {
    VerdictSurvivesGrowth(e, disk, left, key, row);
  }

  /** A good row stays good while its closure is kept. */
  lemma GoodWhileKept(e: Oracles, disk: Disk, left: Disk, key: PublicKey, row: Row)
    requires Shrunk(disk, left) && Good(e, disk, key, row)
    ensures ClosureKept(e, disk, left, key, row.storePath) <==> Good(e, left, key, row)
    ensures Good(e, left, key, row) ==> Verdict(e, left, key, row) == Verdict(e, disk, key, row)
  {
    RemovalAndVerification(e, disk, left, key, row.storePath, Derivation(row));
    if Good(e, left, key, row) { VerdictSurvivesGrowth(e, disk, left, key, row); }
  }

  // ---- a bad member is never part of a good closure ----

  lemma ClosureIsReferenced(g: MemberGraph, h: MemberGraph, root: string, path: string)
    requires Within(g, h) && path in ClosureOf(g, root) && path != root
    ensures Referenced(h, path)
  {
    assert path in Universe(Edges(g), {root});
    var p :| p in Edges(g) && path in Edges(g)[p];
    assert p in h && path in h[p].references;
  }

  lemma ClosureIsKnown(e: Oracles, disk: Disk, left: Disk, key: PublicKey, rows: Rows, id: int, path: string)
    requires Shrunk(disk, left) && id in rows
    requires path in ClosureOf(Members(e, left, key), rows[id].storePath)
    ensures Known(e, disk, key, rows, path)
  {
    if path != rows[id].storePath {
      ShrunkMembers(e, disk, left, key);
      ClosureIsReferenced(Members(e, left, key), Members(e, disk, key), rows[id].storePath, path);
    }
  }

  /** What a member's own check condemns, no good member with an honest name uses. */
  lemma CondemnedIsUnused(e: Oracles, disk: Disk, key: PublicKey, bad: string, path: string)
    requires Inspect(e, disk, key, bad).Failed? && Inspect(e, disk, key, bad).corrupt.Some?
    requires MemberAt(e, disk, key, path).Some? && HonestName(e, MemberAt(e, disk, key, path).value)
    ensures NarName(MemberAt(e, disk, key, path).value.narUrl) != Inspect(e, disk, key, bad).corrupt
  {
  }

  /** The members of a good row's closure, on a disk that kept it. */
  lemma GoodClosure(e: Oracles, disk: Disk, left: Disk, key: PublicKey, row: Row)
    requires Shrunk(disk, left) && Good(e, disk, key, row) && ClosureKept(e, disk, left, key, row.storePath)
    ensures ClosureOf(Members(e, left, key), row.storePath) == ClosureOf(Members(e, disk, key), row.storePath)
    ensures ClosureOf(Members(e, left, key), row.storePath) <= Members(e, left, key).Keys
    ensures AgreeOn(Members(e, disk, key), Members(e, left, key), ClosureOf(Members(e, disk, key), row.storePath))
  {
    KeptFilesKeepMembers(e, disk, left, key, row.storePath);
    WalkDependsOnClosure(Members(e, disk, key), Members(e, left, key), row.storePath);
    WalkFromRootIsSound(Members(e, disk, key), row.storePath);
  }

  lemma RootStemIsCanonical(rows: Rows, id: int)
    requires RecordedPathsAreCanonical(rows) && id in rows && ValidStorePath(rows[id].storePath)
    ensures RootStems(rows[id]) == {Stem(rows[id].storePath)}
  {
    ValidPathStem(rows[id].storePath);
  }

  /** The verdict on a row with a bad member, and where its two ends lie. */
  lemma BadVerdict(e: Oracles, disk: Disk, key: PublicKey, row: Row) returns (last: string)
    requires BadMember(e, disk, key, row)
    ensures last in ClosureOf(Members(e, disk, key), row.storePath) && last !in Members(e, disk, key)
    ensures var out := Verdict(e, disk, key, row);
            && out.Rejected? && Ends(out.inspected) == StemSet(row.storePath) + StemSet(last)
            && out.corrupt == (match Inspect(e, disk, key, last) case Passed(_) => None case Failed(c) => c)
  {
    var g := Members(e, disk, key);
    WalkFromRootIsSound(g, row.storePath);
    var order := WalkFromRoot(g, row.storePath).order;
    last := order[|order| - 1];
    assert last in order;
  }

  lemma WithdrawalMisses(e: Oracles, disk: Disk, left: Disk, key: PublicKey, rows: Rows, id: int, good: int, q: string,
                         last: string)
    requires World(e, disk, key, rows) && Shrunk(disk, left) && id in rows && good in rows
    requires last in ClosureOf(Members(e, left, key), rows[id].storePath) && last !in Members(e, left, key)
    requires ClosureOf(Members(e, left, key), rows[good].storePath) <= Members(e, left, key).Keys
    requires q in ClosureOf(Members(e, left, key), rows[good].storePath)
    ensures !SameStem(q, last) && !SameStem(q, rows[id].storePath)
  {
    var g, root := Members(e, left, key), rows[id].storePath;
    ClosureIsKnown(e, disk, left, key, rows, good, q);
    ClosureIsKnown(e, disk, left, key, rows, id, last);
    assert Known(e, disk, key, rows, root);
    if q == root { ClosureOfMember(Edges(g), {rows[good].storePath}, root); }
  }

  lemma StillThere(e: Oracles, disk: Disk, left: Disk, key: PublicKey, path: string, stems: set<string>,
                   nars: set<string>)
    requires FilesKept(e, disk, left, key, path)
    requires match MemberAt(e, disk, key, path)
             case None => true
             case Some(m) => m.stem !in stems && (NarName(m.narUrl).Some? ==> NarName(m.narUrl).value !in nars)
    ensures FilesKept(e, disk, Without(left, stems, nars), key, path)
  {
  }

  /** A member of a good row's closure is the same on both disks. */
  lemma GoodMember(e: Oracles, disk: Disk, left: Disk, key: PublicKey, row: Row, q: string)
    requires Shrunk(disk, left) && Good(e, disk, key, row) && ClosureKept(e, disk, left, key, row.storePath)
    requires q in ClosureOf(Members(e, disk, key), row.storePath)
    ensures q in ClosureOf(Members(e, left, key), row.storePath)
    ensures MemberAt(e, disk, key, q).Some? && MemberAt(e, left, key, q) == MemberAt(e, disk, key, q)
    ensures ValidStorePath(q) && MemberAt(e, disk, key, q).value.stem == Stem(q)
    ensures q in Members(e, disk, key) && Members(e, disk, key)[q] == MemberAt(e, disk, key, q).value
  {
    GoodClosure(e, disk, left, key, row);
    MembersAreChecked(e, disk, key, q);
    MembersAreChecked(e, left, key, q);
    MemberShape(e, disk, key, q);
  }

  lemma StemIsSpared(row: Row, out: Outcome, last: string, q: string)
    requires out.Rejected? && Ends(out.inspected) == StemSet(row.storePath) + StemSet(last)
    requires ValidStorePath(row.storePath) && RootStems(row) == {Stem(row.storePath)}
    requires ValidStorePath(q) && !SameStem(q, last) && !SameStem(q, row.storePath)
    ensures Stem(q) !in Withdrawn(row, out)
  {
  }

  lemma NarIsSpared(e: Oracles, disk: Disk, key: PublicKey, out: Outcome, last: string, q: string)
    requires out.Rejected?
    requires out.corrupt == (match Inspect(e, disk, key, last) case Passed(_) => None case Failed(c) => c)
    requires MemberAt(e, disk, key, q).Some? && HonestName(e, MemberAt(e, disk, key, q).value)
    ensures var name := NarName(MemberAt(e, disk, key, q).value.narUrl);
            name.Some? ==> name.value !in Dropped(out)
  {
    if out.corrupt.Some? { CondemnedIsUnused(e, disk, key, last, q); }
  }

  /** One member of a good closure survives the withdrawal of a row with a bad member. */
  lemma BadMemberSparesMember(e: Oracles, disk: Disk, left: Disk, key: PublicKey, rows: Rows, id: int, good: int,
                              q: string)
    requires World(e, disk, key, rows) && Shrunk(disk, left) && id in rows && good in rows
    requires BadMember(e, left, key, rows[id])
    requires Good(e, disk, key, rows[good]) && ClosureKept(e, disk, left, key, rows[good].storePath)
    requires q in ClosureOf(Members(e, disk, key), rows[good].storePath)
    ensures var out := Verdict(e, left, key, rows[id]);
            FilesKept(e, disk, Without(left, Withdrawn(rows[id], out), Dropped(out)), key, q)
  {
    var row, out := rows[id], Verdict(e, left, key, rows[id]);
    GoodClosure(e, disk, left, key, rows[good]);
    GoodMember(e, disk, left, key, rows[good], q);
    var last := BadVerdict(e, left, key, row);
    WithdrawalMisses(e, disk, left, key, rows, id, good, q, last);
    RootStemIsCanonical(rows, id);
    StemIsSpared(row, out, last, q);
    NarIsSpared(e, left, key, out, last, q);
    StillThere(e, disk, left, key, q, Withdrawn(row, out), Dropped(out));
  }

  // ---- the exact condition ----

  /** If the row fails for another reason than a bad member, it withdraws no name a good row needs. */
  ghost predicate Harmless(e: Oracles, disk: Disk, key: PublicKey, rows: Rows, row: Row) {
    !Good(e, disk, key, row) && !BadMember(e, disk, key, row) ==>
      forall good, q | good in rows && Good(e, disk, key, rows[good])
                       && q in ClosureOf(Members(e, disk, key), rows[good].storePath) ::
        StemOf(q) !in Withdrawn(row, Verdict(e, disk, key, row))
  }

  ghost predicate NoOverreach(e: Oracles, disk: Disk, key: PublicKey, rows: Rows) {
    forall id :: id in rows ==> Harmless(e, disk, key, rows, rows[id])
  }

  lemma OnlyStuckCondemns(e: Oracles, g: MemberGraph, root: string, derivation: Option<string>, check: string -> Check)
    requires !WalkFromRoot(g, root).Stuck?
    ensures Dropped(Judge(e, g, root, derivation, check)) == {}
  {
  }

  lemma OtherFailuresDropNoNar(e: Oracles, disk: Disk, key: PublicKey, row: Row)
    requires !BadMember(e, disk, key, row)
    ensures Dropped(Verdict(e, disk, key, row)) == {}
  {
    if ValidStorePath(row.storePath) && ValidDerivation(Derivation(row)) {
      OnlyStuckCondemns(e, Members(e, disk, key), row.storePath, Derivation(row), p => Inspect(e, disk, key, p));
    }
  }

  lemma HarmlessAt(e: Oracles, disk: Disk, key: PublicKey, rows: Rows, row: Row, good: int, q: string)
    requires Harmless(e, disk, key, rows, row) && !Good(e, disk, key, row) && !BadMember(e, disk, key, row)
    requires good in rows && Good(e, disk, key, rows[good])
    requires q in ClosureOf(Members(e, disk, key), rows[good].storePath)
    ensures StemOf(q) !in Withdrawn(row, Verdict(e, disk, key, row))
  {
  }

  lemma OtherFailureSpares(e: Oracles, disk: Disk, left: Disk, key: PublicKey, rows: Rows, id: int, good: int,
                           q: string)
    requires NoOverreach(e, disk, key, rows) && Shrunk(disk, left) && id in rows && good in rows
    requires !Good(e, left, key, rows[id]) && !BadMember(e, left, key, rows[id])
    requires Good(e, disk, key, rows[good]) && ClosureKept(e, disk, left, key, rows[good].storePath)
    requires q in ClosureOf(Members(e, disk, key), rows[good].storePath)
    ensures var out := Verdict(e, left, key, rows[id]);
            FilesKept(e, disk, Without(left, Withdrawn(rows[id], out), Dropped(out)), key, q)
  {
    var row, out := rows[id], Verdict(e, left, key, rows[id]);
    VerdictSurvivesGrowth(e, disk, left, key, row);
    HarmlessAt(e, disk, key, rows, row, good, q);
    GoodMember(e, disk, left, key, rows[good], q);
    OtherFailuresDropNoNar(e, left, key, row);
    assert FilesKept(e, disk, left, key, q);
    StillThere(e, disk, left, key, q, Withdrawn(row, out), Dropped(out));
  }

  /** No withdrawal of the pass breaks the closure of a row that was good at its start. */
  lemma ScrubSpares(e: Oracles, disk: Disk, left: Disk, key: PublicKey, rows: Rows, id: int, good: int)
    requires World(e, disk, key, rows) && NoOverreach(e, disk, key, rows)
    requires Shrunk(disk, left) && id in rows && good in rows && !Good(e, left, key, rows[id])
    requires Good(e, disk, key, rows[good]) && ClosureKept(e, disk, left, key, rows[good].storePath)
    ensures ClosureKept(e, disk, AfterScrub(e, left, key, rows[id]), key, rows[good].storePath)
  {
    var row, out := rows[id], Verdict(e, left, key, rows[id]);
    var after := Without(left, Withdrawn(row, out), Dropped(out));
    forall q | q in ClosureOf(Members(e, disk, key), rows[good].storePath)
      ensures FilesKept(e, disk, after, key, q)
    {
      if BadMember(e, left, key, row) {
        BadMemberSparesMember(e, disk, left, key, rows, id, good, q);
      } else {
        OtherFailureSpares(e, disk, left, key, rows, id, good, q);
      }
    }
  }

  // ---- the pass ----

  /** Some row that is gone was found not to verify, on what was then left, and took this NARInfo. */
  ghost predicate IsNameTaken(e: Oracles, key: PublicKey, disk0: Disk, rows0: Rows, rows: Rows, k: string) {
    exists id, d :: && id in rows0 && id !in rows && Shrunk(disk0, d) && !Good(e, d, key, rows0[id])
                    && TakesName(rows0[id], Verdict(e, d, key, rows0[id]), k)
  }

  ghost predicate IsNarTaken(e: Oracles, key: PublicKey, disk0: Disk, rows0: Rows, rows: Rows, n: string) {
    exists id, d :: && id in rows0 && id !in rows && Shrunk(disk0, d) && !Good(e, d, key, rows0[id])
                    && TakesNar(Verdict(e, d, key, rows0[id]), n)
  }

  /** What is missing was taken by rows that are gone. */
  ghost predicate OnlyTaken(e: Oracles, key: PublicKey, disk0: Disk, rows0: Rows, disk: Disk, rows: Rows) {
    && (forall k :: k in disk0.narinfos && k !in disk.narinfos ==> IsNameTaken(e, key, disk0, rows0, rows, k))
    && (forall n :: n in disk0.nars && n !in disk.nars ==> IsNarTaken(e, key, disk0, rows0, rows, n))
  }

  /** What holds after any number of rows were scrubbed, from disk and rows at the start. */
  ghost predicate ScrubInvariant(e: Oracles, disk0: Disk, rows0: Rows, key: PublicKey, disk: Disk, rows: Rows) {
    && Shrunk(disk0, disk)
    && rows.Keys <= rows0.Keys && (forall id :: id in rows ==> rows[id] == rows0[id])
    && (World(e, disk0, key, rows0) && NoOverreach(e, disk0, key, rows0) ==>
          forall id :: id in rows0 && Good(e, disk0, key, rows0[id]) ==>
            id in rows && ClosureKept(e, disk0, disk, key, rows0[id].storePath))
    && (forall id :: id in rows0 && id !in rows ==> disk.narinfos.Keys !! RootStems(rows0[id]))
    && OnlyTaken(e, key, disk0, rows0, disk, rows)
  }

  lemma ClosureStaysOnDisk(e: Oracles, disk: Disk, key: PublicKey, row: Row)
    ensures ClosureKept(e, disk, disk, key, row.storePath)
  {
    forall p ensures FilesKept(e, disk, disk, key, p) {
      if MemberAt(e, disk, key, p).Some? { MemberShape(e, disk, key, p); }
    }
  }

  lemma ScrubStarts(e: Oracles, disk: Disk, rows: Rows, key: PublicKey)
    ensures ScrubInvariant(e, disk, rows, key, disk, rows)
  {
    forall id | id in rows ensures ClosureKept(e, disk, disk, key, rows[id].storePath) {
      ClosureStaysOnDisk(e, disk, key, rows[id]);
    }
  }

  lemma WithoutShrinks(disk: Disk, left: Disk, stems: set<string>, nars: set<string>)
    requires Shrunk(disk, left)
    ensures Shrunk(disk, Without(left, stems, nars))
  {
  }

  lemma StillTaken(e: Oracles, key: PublicKey, disk0: Disk, rows0: Rows, rows: Rows, id: int, name: string)
    ensures IsNameTaken(e, key, disk0, rows0, rows, name) ==> IsNameTaken(e, key, disk0, rows0, rows - {id}, name)
    ensures IsNarTaken(e, key, disk0, rows0, rows, name) ==> IsNarTaken(e, key, disk0, rows0, rows - {id}, name)
  {
  }

  /** A row that is withdrawn takes its names and nothing else. */
  lemma TakesOnly(e: Oracles, key: PublicKey, disk0: Disk, rows0: Rows, disk: Disk, rows: Rows, id: int)
    requires OnlyTaken(e, key, disk0, rows0, disk, rows) && Shrunk(disk0, disk)
    requires id in rows && id in rows0 && rows[id] == rows0[id] && !Good(e, disk, key, rows[id])
    ensures OnlyTaken(e, key, disk0, rows0, AfterScrub(e, disk, key, rows[id]), rows - {id})
  {
    var after := AfterScrub(e, disk, key, rows[id]);
    ScrubMeans(e, disk, key, rows[id]);
    forall k | k in disk0.narinfos && k !in after.narinfos ensures IsNameTaken(e, key, disk0, rows0, rows - {id}, k) {
      StillTaken(e, key, disk0, rows0, rows, id, k);
    }
    forall n | n in disk0.nars && n !in after.nars ensures IsNarTaken(e, key, disk0, rows0, rows - {id}, n) {
      StillTaken(e, key, disk0, rows0, rows, id, n);
    }
  }

  lemma StepSpares(e: Oracles, disk0: Disk, rows0: Rows, key: PublicKey, disk: Disk, rows: Rows, id: int)
    requires ScrubInvariant(e, disk0, rows0, key, disk, rows) && id in rows && !Good(e, disk, key, rows[id])
    requires World(e, disk0, key, rows0) && NoOverreach(e, disk0, key, rows0)
    ensures forall good :: good in rows0 && Good(e, disk0, key, rows0[good]) ==>
              && good in rows - {id}
              && ClosureKept(e, disk0, AfterScrub(e, disk, key, rows[id]), key, rows0[good].storePath)
  {
    forall good | good in rows0 && Good(e, disk0, key, rows0[good])
      ensures && good in rows - {id}
              && ClosureKept(e, disk0, AfterScrub(e, disk, key, rows[id]), key, rows0[good].storePath)
    {
      GoodWhileKept(e, disk0, disk, key, rows0[good]);
      ScrubSpares(e, disk0, disk, key, rows0, id, good);
    }
  }

  lemma ScrubSteps(e: Oracles, disk0: Disk, rows0: Rows, key: PublicKey, disk: Disk, rows: Rows, id: int)
    requires ScrubInvariant(e, disk0, rows0, key, disk, rows) && id in rows && !Good(e, disk, key, rows[id])
    ensures ScrubInvariant(e, disk0, rows0, key, AfterScrub(e, disk, key, rows[id]), rows - {id})
  {
    var out := Verdict(e, disk, key, rows[id]);
    WithoutShrinks(disk0, disk, Withdrawn(rows[id], out), Dropped(out));
    TakesOnly(e, key, disk0, rows0, disk, rows, id);
    if World(e, disk0, key, rows0) && NoOverreach(e, disk0, key, rows0) {
      StepSpares(e, disk0, rows0, key, disk, rows, id);
    }
  }
}

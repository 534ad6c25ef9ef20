/** The integrity scrub: selective quarantine of what fails to verify, and the cascade over every
    other root once anything did.  */
module Scrubber {
  import opened Options
  import opened StorePaths
  import opened CacheModel
  import opened NarinfoCheck
  import opened MemberMeaning
  import opened ClosureManifest

  // ---- one row ----

  function Without(disk: Disk, stems: set<string>, nars: set<string>): Disk {
    Disk(disk.narinfos - stems, disk.nars - nars)
  }

  function StemSet(path: string): set<string> {
    if ValidStorePath(path) then {Stem(path)} else {}
  }

  /** The candidate root and the member whose validation failed. */
  function Ends(inspected: seq<string>): set<string> {
    if inspected == [] then {} else StemSet(inspected[0]) + StemSet(inspected[|inspected| - 1])
  }

  function CondemnedSet(corrupt: Option<string>): set<string> {
    if corrupt.Some? then {corrupt.value} else {}
  }

  /** `quarantine_cache_artifact_root`: the canonical and the recorded discovery name. */
  function RootStems(row: Row): set<string> {
    (match NarinfoStem(row.storePath) case None => {} case Some(stem) => {stem})
    + (if row.narinfoPath.Narinfo? then {row.narinfoPath.stem} else {})
  }

  function Derivation(row: Row): Option<string> {
    if row.manifest.Some? then row.manifest.value.derivation else None
  }

  predicate MatchesMember(e: Oracles, key: PublicKey, row: Row, r: Member, m: Manifest) {
    && NarName(r.narUrl).Some? && row.path == Nar(NarName(r.narUrl).value)
    && row.narinfoPath == Narinfo(r.stem)
    && r.storePath == row.storePath && r.narUrl == row.narUrl
    && r.fileHash == row.fileHash && r.narHash == row.narHash && r.compression == row.compression
    && (row.sizeBytes <= 0 || r.fileSize == row.sizeBytes)
    && (row.narSizeBytes <= 0 || r.narSize == row.narSizeBytes)
    && (row.closureFileSizeBytes <= 0 || m.totalFileSize == row.closureFileSizeBytes)
    && row.references == Some(set p | p in r.references)
    && (row.manifest.None? || row.manifest == Some(m))
    && (row.manifestDigest.None? || row.manifestDigest == Some(e.manifestDigest(m)))
    && (row.keyDigest.None? || row.keyDigest == Some(e.keyDigest(key)))
  }

  /** The recorded row agrees with the verified closure. */
  predicate InventoryMatches(e: Oracles, key: PublicKey, row: Row, m: Manifest) {
    exists i :: 0 <= i < |m.artifacts| && m.artifacts[i].storePath == row.storePath
                && MatchesMember(e, key, row, m.artifacts[i], m)
  }

  ghost function Verdict(e: Oracles, disk: Disk, key: PublicKey, row: Row): Outcome {
    Build(e, disk, row.storePath, Derivation(row), key)
  }

  predicate Accepts(e: Oracles, key: PublicKey, row: Row, out: Outcome) {
    out.Verified? && InventoryMatches(e, key, row, out.manifest)
  }

  /** The row verifies: its closure does, and it is the closure the row records. */
  ghost predicate Good(e: Oracles, disk: Disk, key: PublicKey, row: Row) {
    Accepts(e, key, row, Verdict(e, disk, key, row))
  }

  /** The NARInfo names a failing row loses. */
  function Withdrawn(row: Row, out: Outcome): set<string> {
    match out
    case Verified(_) => RootStems(row)
    case Rejected(inspected, _) => Ends(inspected) + RootStems(row)
  }

  /** The NAR files a failing row loses. */
  function Dropped(out: Outcome): set<string> {
    match out
    case Verified(_) => {}
    case Rejected(_, corrupt) => CondemnedSet(corrupt)
  }

  function AfterOutcome(e: Oracles, disk: Disk, key: PublicKey, row: Row, out: Outcome): Disk {
    if Accepts(e, key, row, out) then disk else Without(disk, Withdrawn(row, out), Dropped(out))
  }

  ghost function AfterScrub(e: Oracles, disk: Disk, key: PublicKey, row: Row): Disk {
    AfterOutcome(e, disk, key, row, Verdict(e, disk, key, row))
  }

  // ---- the same, said on rows and files ----

  /** Every recorded field of the row is that of the artifact; a size that is not positive, and a
      manifest or digest that is not there, is not recorded.  */
  ghost predicate Records(e: Oracles, key: PublicKey, row: Row, a: Member, m: Manifest) {
    && row.storePath == a.storePath && row.narUrl == a.narUrl
    && row.narinfoPath == Narinfo(a.stem)
    && (exists name :: IsFileName(name) && a.narUrl == "nar/" + name && row.path == Nar(name))
    && row.fileHash == a.fileHash && row.narHash == a.narHash && row.compression == a.compression
    && (row.sizeBytes > 0 ==> row.sizeBytes == a.fileSize)
    && (row.narSizeBytes > 0 ==> row.narSizeBytes == a.narSize)
    && (row.closureFileSizeBytes > 0 ==> row.closureFileSizeBytes == m.totalFileSize)
    && row.references.Some? && (forall r :: r in row.references.value <==> r in a.references)
    && (row.manifest.Some? ==> row.manifest.value == m)
    && (row.manifestDigest.Some? ==> row.manifestDigest.value == e.manifestDigest(m))
    && (row.keyDigest.Some? ==> row.keyDigest.value == e.keyDigest(key))
  }

  /** Manifest `m` of the row's root is supported by the disk, and its artifact `i` is what the row records. */
  ghost predicate SoundAt(e: Oracles, disk: Disk, key: PublicKey, row: Row, m: Manifest, i: nat) {
    && Certified(e, disk, row.storePath, if row.manifest.Some? then row.manifest.value.derivation else None, key, m)
    && i < |m.artifacts| && Records(e, key, row, m.artifacts[i], m)
  }

  ghost predicate IsSound(e: Oracles, disk: Disk, key: PublicKey, row: Row) {
    exists m, i :: SoundAt(e, disk, key, row, m, i)
  }

  lemma MatchMeans(e: Oracles, key: PublicKey, row: Row, a: Member, m: Manifest)
    ensures MatchesMember(e, key, row, a, m) <==> Records(e, key, row, a, m)
  {
    if NarName(a.narUrl).Some? { NarNameIs(a.narUrl, NarName(a.narUrl).value); }
    if name :| IsFileName(name) && a.narUrl == "nar/" + name && row.path == Nar(name) { NarNameIs(a.narUrl, name); }
    if row.references.Some? {
      assert row.references.value == (set p | p in a.references)
             <==> forall r :: r in row.references.value <==> r in a.references;
    }
  }

  /** A row verifies exactly when the disk supports a manifest of its root in which it is recorded. */
  lemma GoodMeans(e: Oracles, disk: Disk, key: PublicKey, row: Row)
    ensures Good(e, disk, key, row) <==> IsSound(e, disk, key, row)
  {
    if Good(e, disk, key, row) {
      var m := Verdict(e, disk, key, row).manifest;
      BuildIsCertified(e, disk, row.storePath, Derivation(row), key, m);
      var i :| 0 <= i < |m.artifacts| && MatchesMember(e, key, row, m.artifacts[i], m);
      MatchMeans(e, key, row, m.artifacts[i], m);
      assert SoundAt(e, disk, key, row, m, i);
    }
    if m, i: nat :| SoundAt(e, disk, key, row, m, i) {
      BuildIsCertified(e, disk, row.storePath, Derivation(row), key, m);
      MatchMeans(e, key, row, m.artifacts[i], m);
    }
  }

  /** The NARInfo name is the hash in the row's store path, or the one the row records. */
  ghost predicate NamesRoot(row: Row, stem: string) {
    row.narinfoPath == Narinfo(stem) || HasDashedHash(row.storePath, stem)
  }

  ghost predicate IsHashOf(path: string, stem: string) {
    IsStorePath(path) && |path| >= 43 && stem == path[11..43]
  }

  /** The NARInfo name is that of the first or of the last path inspected. */
  ghost predicate NamesEnd(inspected: seq<string>, stem: string) {
    inspected != [] && (IsHashOf(inspected[0], stem) || IsHashOf(inspected[|inspected| - 1], stem))
  }

  lemma RootStemsMean(row: Row, stem: string)
    ensures stem in RootStems(row) <==> NamesRoot(row, stem)
  {
    NarinfoStemMeans(row.storePath, stem);
  }

  lemma StemSetMeans(path: string, stem: string)
    ensures stem in StemSet(path) <==> IsHashOf(path, stem)
  {
    ValidIsComposed(path);
    if ValidStorePath(path) { StemIsSlice(path); }
  }

  lemma EndsMean(inspected: seq<string>, stem: string)
    ensures stem in Ends(inspected) <==> NamesEnd(inspected, stem)
  {
    if inspected != [] {
      StemSetMeans(inspected[0], stem);
      StemSetMeans(inspected[|inspected| - 1], stem);
    }
  }

  /** A failing row takes the names of its root and, if the verification failed, of the path that failed. */
  ghost predicate TakesName(row: Row, out: Outcome, stem: string) {
    NamesRoot(row, stem) || (out.Rejected? && NamesEnd(out.inspected, stem))
  }

  ghost predicate TakesNar(out: Outcome, name: string) {
    out.Rejected? && out.corrupt == Some(name)
  }

  lemma WithdrawalMeans(row: Row, out: Outcome)
    ensures forall stem :: stem in Withdrawn(row, out) <==> TakesName(row, out, stem)
    ensures forall name :: name in Dropped(out) <==> TakesNar(out, name)
  {
    forall stem ensures stem in Withdrawn(row, out) <==> TakesName(row, out, stem) {
      RootStemsMean(row, stem);
      if out.Rejected? { EndsMean(out.inspected, stem); }
    }
  }

  /** Exactly the names of this row and of the path that failed go, and a contradicted NAR. */
  ghost predicate Withdraws(row: Row, out: Outcome, before: Disk, after: Disk) {
    && Shrunk(before, after)
    && (forall k :: k in before.narinfos ==> (k in after.narinfos <==> !TakesName(row, out, k)))
    && (forall n :: n in before.nars ==> (n in after.nars <==> !TakesNar(out, n)))
  }

  lemma WithdrawnMeans(disk: Disk, row: Row, out: Outcome)
    ensures Withdraws(row, out, disk, Without(disk, Withdrawn(row, out), Dropped(out)))
  {
    WithdrawalMeans(row, out);
  }

  lemma RemoveNothing(nars: map<string, Blob>)
    ensures nars - {} == nars
  {
  }

  function AfterBuild(disk: Disk, out: Outcome): Disk {
    match out
    case Verified(_) => disk
    case Rejected(inspected, corrupt) => Without(disk, Ends(inspected), CondemnedSet(corrupt))
  }

  /** `build_or_quarantine_closure_manifest`. */
  method BuildOrQuarantine(e: Oracles, nest: Nest, root: string, derivation: Option<string>, key: PublicKey)
    returns (out: Outcome)
    modifies nest`disk
    ensures out == Build(e, old(nest.disk), root, derivation, key)
    ensures forall m :: out == Verified(m) <==> Certified(e, old(nest.disk), root, derivation, key, m)
    ensures nest.disk == AfterBuild(old(nest.disk), out)
    ensures Shrunk(old(nest.disk), nest.disk)
    ensures forall k :: k in old(nest.disk).narinfos ==>
              (k in nest.disk.narinfos <==> out.Verified? || !NamesEnd(out.inspected, k))
    ensures forall n :: n in old(nest.disk).nars ==>
              (n in nest.disk.nars <==> out.Verified? || out.corrupt != Some(n))
  {
    out := BuildClosureManifest(e, nest.disk, root, derivation, key);
    match out
    case Verified(_) =>
    case Rejected(inspected, corrupt) =>
      nest.disk := nest.disk.(narinfos := nest.disk.narinfos - Ends(inspected));
      if corrupt.Some? {
        nest.disk := nest.disk.(nars := nest.disk.nars - {corrupt.value});
      }
      RemoveNothing(nest.disk.nars);
      forall k ensures k in Ends(inspected) <==> NamesEnd(inspected, k) { EndsMean(inspected, k); }
  }

  lemma FinishWithdrawal(disk: Disk, row: Row, out: Outcome)
    ensures var first := AfterBuild(disk, out);
            first.(narinfos := first.narinfos - RootStems(row)) == Without(disk, Withdrawn(row, out), Dropped(out))
  {
  }

  /** A sound row is kept and nothing changes; any other is withdrawn. */
  ghost predicate KeepsOrWithdraws(e: Oracles, key: PublicKey, row: Row, before: Disk, after: Disk, kept: bool) {
    && (kept <==> IsSound(e, before, key, row))
    && (kept ==> after == before) && (!kept ==> Withdraws(row, Verdict(e, before, key, row), before, after))
  }

  lemma ScrubMeans(e: Oracles, disk: Disk, key: PublicKey, row: Row)
    ensures KeepsOrWithdraws(e, key, row, disk, AfterScrub(e, disk, key, row), Good(e, disk, key, row))
  {
    GoodMeans(e, disk, key, row);
    WithdrawnMeans(disk, row, Verdict(e, disk, key, row));
  }

  /** The disk after a row was verified, and whether the row failed. */
  ghost predicate IsScrubbed(e: Oracles, key: PublicKey, row: Row, before: Disk, after: Disk, invalid: bool) {
    && (invalid <==> !Good(e, before, key, row)) && after == AfterScrub(e, before, key, row)
    && KeepsOrWithdraws(e, key, row, before, after, !invalid)
  }

  /** Verify one row, or withdraw its names. */
  method ScrubFiles(e: Oracles, nest: Nest, key: PublicKey, row: Row) returns (invalid: bool)
    modifies nest`disk
    ensures IsScrubbed(e, key, row, old(nest.disk), nest.disk, invalid)
  {
    ScrubMeans(e, nest.disk, key, row);
    var out := BuildOrQuarantine(e, nest, row.storePath, Derivation(row), key);
    invalid := !Accepts(e, key, row, out);
    if invalid {
      FinishWithdrawal(old(nest.disk), row, out);
      nest.disk := nest.disk.(narinfos := nest.disk.narinfos - RootStems(row));
    }
  }

  /** `scrub_cache_artifact`: verify one row, or withdraw it. When only the inventory mismatches,
      the name the verification withdraws first is the row's own canonical one.  */
  method ScrubArtifact(e: Oracles, nest: Nest, key: PublicKey, id: int) returns (invalid: bool)
    requires id in nest.rows
    modifies nest
    ensures IsScrubbed(e, key, old(nest.rows)[id], old(nest.disk), nest.disk, invalid)
    ensures nest.rows == if invalid then old(nest.rows) - {id} else old(nest.rows)
  {
    invalid := ScrubFiles(e, nest, key, nest.rows[id]);
    if invalid { nest.rows := nest.rows - {id}; }
  }
}

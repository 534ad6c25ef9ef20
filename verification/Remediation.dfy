/** Remediation of a quarantined build job: every row that names its output, under any alias, is
    withdrawn from the cache.  */
module Remediation {
  import opened Options
  import opened FiniteSets
  import opened StorePaths
  import opened CacheModel
  import opened NarinfoCheck
  import opened ClosureWalk
  import opened Liveness
  import opened Sweeper
  import opened SweepSafety
  import opened Scrubber
  import opened ScrubSafety
  import opened ScrubPass

  datatype Job = Job(managedId: Option<string>, outputPath: string)

  const NO_PATH: FilePath := Foreign("")

  /** `artifact_matches_protected_job`. */
  predicate Matches(job: Job, row: Row) {
    || (job.managedId.Some? && row.sourceJob == job.managedId)
    || (job.outputPath != "" && row.storePath == job.outputPath)
  }

  /** `cache_artifact_roots_alias`: two rows name one exported root. */
  predicate Alias(a: Row, b: Row) {
    || (a.storePath != "" && a.storePath == b.storePath)
    || (a.path != NO_PATH && a.path == b.path)
    || (a.narinfoPath != NO_PATH && a.narinfoPath == b.narinfoPath)
    || (a.narUrl != "" && a.narUrl == b.narUrl)
  }

  /** The job's own rows are in the set, and so is every alias of one that is. */
  ghost predicate AliasClosed(rows: Rows, job: Job, ids: set<int>) {
    && (forall id :: id in rows && Matches(job, rows[id]) ==> id in ids)
    && (forall a, b :: a in ids && a in rows && b in rows && Alias(rows[a], rows[b]) ==> b in ids)
  }

  ghost predicate Forced(rows: Rows, job: Job, doomed: set<int>) {
    forall ids :: AliasClosed(rows, job, ids) ==> doomed <= ids
  }

  ghost predicate IsDoomed(rows: Rows, job: Job, doomed: set<int>) {
    && doomed <= rows.Keys
    && AliasClosed(rows, job, doomed)
    && Forced(rows, job, doomed)
  }

  function Own(rows: Rows, job: Job): set<int> {
    set id | id in rows && Matches(job, rows[id])
  }

  lemma OwnIsForced(rows: Rows, job: Job)
    ensures Forced(rows, job, Own(rows, job))
  {
    forall ids, id | AliasClosed(rows, job, ids) && id in Own(rows, job) ensures id in ids { }
  }

  function Aliases(rows: Rows, doomed: set<int>): set<int>
    requires doomed <= rows.Keys
  {
    set id | id in rows && id !in doomed && exists seed :: seed in doomed && Alias(rows[seed], rows[id])
  }

  lemma AliasesAreForced(rows: Rows, job: Job, doomed: set<int>)
    requires doomed <= rows.Keys && Forced(rows, job, doomed)
    ensures Forced(rows, job, doomed + Aliases(rows, doomed))
  {
    forall ids, id | AliasClosed(rows, job, ids) && id in Aliases(rows, doomed) ensures id in ids {
      var seed :| seed in doomed && Alias(rows[seed], rows[id]);
      assert seed in ids;
    }
  }

  lemma FixedPointIsClosed(rows: Rows, job: Job, doomed: set<int>)
    requires Own(rows, job) <= doomed <= rows.Keys && Aliases(rows, doomed) == {}
    ensures AliasClosed(rows, job, doomed)
  {
    forall id | id in rows && Matches(job, rows[id]) ensures id in doomed { assert id in Own(rows, job); }
    forall a, b | a in doomed && b in rows && Alias(rows[a], rows[b]) ensures b in doomed {
      assert b !in Aliases(rows, doomed);
    }
  }

  /** The row is an output of the job: by the job's id, or by the path it reported. */
  predicate IsOutputOf(row: Row, job: Job) {
    || (job.managedId.Some? && row.sourceJob.Some? && row.sourceJob.value == job.managedId.value)
    || (|job.outputPath| > 0 && row.storePath == job.outputPath)
  }

  /** The rows share a store path, a NAR path, a NARInfo path or a NAR URL that is not empty. */
  predicate SharesName(a: Row, b: Row) {
    || (a.storePath == b.storePath && |a.storePath| > 0)
    || (a.path == b.path && a.path != Foreign(""))
    || (a.narinfoPath == b.narinfoPath && a.narinfoPath != Foreign(""))
    || (a.narUrl == b.narUrl && |a.narUrl| > 0)
  }

  /** A chain of rows from an output of the job, each sharing a name with the next. */
  ghost predicate IsLink(rows: Rows, job: Job, chain: seq<int>) {
    && chain != [] && (forall i :: 0 <= i < |chain| ==> chain[i] in rows)
    && IsOutputOf(rows[chain[0]], job)
    && forall i :: 0 <= i < |chain| - 1 ==> SharesName(rows[chain[i]], rows[chain[i + 1]])
  }

  ghost predicate IsLinked(rows: Rows, job: Job, id: int) {
    exists chain :: IsLink(rows, job, chain) && chain[|chain| - 1] == id
  }

  lemma MatchesMeans(job: Job, row: Row)
    ensures Matches(job, row) <==> IsOutputOf(row, job)
  {
  }

  lemma AliasMeans(a: Row, b: Row)
    ensures Alias(a, b) <==> SharesName(a, b)
  {
  }

  lemma OutputIsLinked(rows: Rows, job: Job, id: int)
    requires id in rows && IsOutputOf(rows[id], job)
    ensures IsLinked(rows, job, id)
  {
    assert IsLink(rows, job, [id]) && [id][|[id]| - 1] == id;
  }

  lemma LinkGrows(rows: Rows, job: Job, a: int, b: int)
    requires IsLinked(rows, job, a) && a in rows && b in rows && SharesName(rows[a], rows[b])
    ensures IsLinked(rows, job, b)
  {
    var chain :| IsLink(rows, job, chain) && chain[|chain| - 1] == a;
    assert IsLink(rows, job, chain + [b]) && (chain + [b])[|chain + [b]| - 1] == b;
  }

  lemma OutputFollows(rows: Rows, job: Job, doomed: set<int>, id: int)
    requires AliasClosed(rows, job, doomed) && id in rows && IsOutputOf(rows[id], job)
    ensures id in doomed
  {
    MatchesMeans(job, rows[id]);
  }

  lemma AliasFollows(rows: Rows, job: Job, doomed: set<int>, a: int, b: int)
    requires AliasClosed(rows, job, doomed) && a in doomed && a in rows && b in rows && SharesName(rows[a], rows[b])
    ensures b in doomed
  {
    AliasMeans(rows[a], rows[b]);
  }

  lemma {:induction false} LinkIsDoomed(rows: Rows, job: Job, doomed: set<int>, chain: seq<int>)
    requires AliasClosed(rows, job, doomed) && IsLink(rows, job, chain)
    ensures chain[|chain| - 1] in doomed
  {
    var n := |chain| - 1;
    if n == 0 {
      OutputFollows(rows, job, doomed, chain[0]);
    } else {
      var before := chain[..n];
      assert forall i :: 0 <= i < |before| ==> before[i] == chain[i];
      assert before[|before| - 1] == chain[n - 1];
      LinkIsDoomed(rows, job, doomed, before);
      assert SharesName(rows[chain[n - 1]], rows[chain[n - 1 + 1]]);
      AliasFollows(rows, job, doomed, chain[n - 1], chain[n]);
    }
  }

  /** The doomed rows are those linked to an output of the job by a chain of shared names. */
  lemma DoomedMeans(rows: Rows, job: Job, doomed: set<int>, id: int)
    requires IsDoomed(rows, job, doomed)
    ensures id in doomed <==> id in rows && IsLinked(rows, job, id)
  {
    if chain :| IsLink(rows, job, chain) && chain[|chain| - 1] == id { LinkIsDoomed(rows, job, doomed, chain); }
    var linked := set i | i in rows && IsLinked(rows, job, i);
    forall i | i in rows && Matches(job, rows[i]) ensures i in linked {
      MatchesMeans(job, rows[i]);
      OutputIsLinked(rows, job, i);
    }
    forall a, b | a in linked && a in rows && b in rows && Alias(rows[a], rows[b]) ensures b in linked {
      AliasMeans(rows[a], rows[b]);
      LinkGrows(rows, job, a, b);
    }
    assert AliasClosed(rows, job, linked);
  }

  /** The alias fixed point. */
  method DoomedRows(rows: Rows, job: Job) returns (doomed: set<int>)
    ensures IsDoomed(rows, job, doomed)
    ensures forall id :: id in doomed <==> id in rows && IsLinked(rows, job, id)
  {
    doomed := Own(rows, job);
    OwnIsForced(rows, job);
    var aliases := Aliases(rows, doomed);
    while aliases != {}
      invariant doomed <= rows.Keys && aliases == Aliases(rows, doomed)
      invariant Own(rows, job) <= doomed && Forced(rows, job, doomed)
      decreases |rows.Keys - doomed|
    {
      AliasesAreForced(rows, job, doomed);
      var id := PickAny(aliases);
      SubsetIsSmaller(rows.Keys - (doomed + aliases), rows.Keys - doomed, id);
      doomed := doomed + aliases;
      aliases := Aliases(rows, doomed);
    }
    FixedPointIsClosed(rows, job, doomed);
    forall id ensures id in doomed <==> id in rows && IsLinked(rows, job, id) { DoomedMeans(rows, job, doomed, id); }
  }

  // ---- the same, said on the rows ----

  /** The discovery names of a row's root. */
  function Names(row: Row): set<string> {
    (match StorePathHash(row.storePath) case None => {} case Some(stem) => {stem})
    + (if row.narinfoPath.Narinfo? then {row.narinfoPath.stem} else {})
  }

  function AllNames(rows: Rows, ids: set<int>): set<string> {
    set id, stem | id in ids && id in rows && stem in Names(rows[id]) :: stem
  }

  /** No name being withdrawn belongs to a member of the row's closure. */
  ghost predicate Untouched(e: Oracles, disk: Disk, key: PublicKey, row: Row, names: set<string>) {
    forall q :: q in ClosureOf(Members(e, disk, key), row.storePath) ==> StemOf(q) !in names
  }

  lemma WithdrawalAndVerification(e: Oracles, disk: Disk, key: PublicKey, row: Row, names: set<string>)
    requires Good(e, disk, key, row)
    ensures Untouched(e, disk, key, row, names) <==> ClosureKept(e, disk, Without(disk, names, {}), key, row.storePath)
  {
    var left := Without(disk, names, {});
    ClosureStaysOnDisk(e, disk, key, row);
    forall q | q in ClosureOf(Members(e, disk, key), row.storePath)
      ensures StemOf(q) !in names <==> FilesKept(e, disk, left, key, q)
    {
      GoodMember(e, disk, disk, key, row, q);
      MemberShape(e, disk, key, q);
    }
  }

  lemma KeptLater(e: Oracles, disk: Disk, mid: Disk, left: Disk, key: PublicKey, root: string)
    requires Shrunk(mid, left) && ClosureKept(e, disk, left, key, root)
    ensures ClosureKept(e, disk, mid, key, root)
  {
    forall p | p in ClosureOf(Members(e, disk, key), root) ensures FilesKept(e, disk, mid, key, p) {
      assert FilesKept(e, disk, left, key, p);
    }
  }

  /** A retained row that verified goes on verifying exactly when no withdrawn root is a member of
      its closure.  */
  lemma RemediationAndVerification(e: Oracles, disk: Disk, key: PublicKey, row: Row, names: set<string>,
                                   retained: seq<Row>, seeds: seq<string>)
    requires Good(e, disk, key, row) && ClosureWritesBasenames(e, disk, key, row.storePath) && row in retained
    ensures var left := Swept(Without(disk, names, {}), retained, seeds);
            && (Good(e, left, key, row) <==> Untouched(e, disk, key, row, names))
            && (Good(e, left, key, row) ==> StillVerifies(e, key, disk, left, row))
  {
    var mid := Without(disk, names, {});
    var left := Swept(mid, retained, seeds);
    SweptIsShrunk(mid, retained, seeds);
    WithdrawalAndVerification(e, disk, key, row, names);
    GoodWhileKept(e, disk, left, key, row);
    if Untouched(e, disk, key, row, names) {
      SweepKeepsRow(e, disk, mid, key, row, retained, seeds);
    } else if ClosureKept(e, disk, left, key, row.storePath) {
      KeptLater(e, disk, mid, left, key, row.storePath);
    }
  }

  ghost predicate RetainedVerdicts(e: Oracles, key: PublicKey, disk0: Disk, disk: Disk, rows: Rows,
                                   names: set<string>)
  {
    forall id :: id in rows && Good(e, disk0, key, rows[id])
                 && ClosureWritesBasenames(e, disk0, key, rows[id].storePath)
      ==> && (Good(e, disk, key, rows[id]) <==> Untouched(e, disk0, key, rows[id], names))
          && (Good(e, disk, key, rows[id]) ==> StillVerifies(e, key, disk0, disk, rows[id]))
  }

  lemma RetainedAfterSweep(e: Oracles, key: PublicKey, disk: Disk, rows: Rows, names: set<string>,
                           retained: seq<Row>, seeds: seq<string>)
    requires ListsRows(rows, retained)
    ensures RetainedVerdicts(e, key, disk, Swept(Without(disk, names, {}), retained, seeds), rows, names)
  {
    forall id | id in rows && Good(e, disk, key, rows[id]) && ClosureWritesBasenames(e, disk, key, rows[id].storePath)
      ensures var left := Swept(Without(disk, names, {}), retained, seeds);
              && (Good(e, left, key, rows[id]) <==> Untouched(e, disk, key, rows[id], names))
              && (Good(e, left, key, rows[id]) ==> StillVerifies(e, key, disk, left, rows[id]))
    {
      RemediationAndVerification(e, disk, key, rows[id], names, retained, seeds);
    }
  }

  /** No retained row is an output of the job, and none shares a name with a withdrawn one. */
  ghost predicate SetsApart(rows: Rows, job: Job, doomed: set<int>, retained: Rows) {
    && (forall id :: id in retained ==> !IsOutputOf(retained[id], job))
    && (forall a, b :: a in doomed && a in rows && b in retained ==> !SharesName(rows[a], retained[b]))
  }

  lemma DoomedSetsApart(rows: Rows, job: Job, doomed: set<int>)
    requires IsDoomed(rows, job, doomed)
    ensures SetsApart(rows, job, doomed, rows - doomed)
  {
    forall id | id in rows - doomed ensures !IsOutputOf(rows[id], job) { MatchesMeans(job, rows[id]); }
    forall a, b | a in doomed && a in rows && b in rows - doomed ensures !SharesName(rows[a], rows[b]) {
      AliasMeans(rows[a], rows[b]);
    }
  }

  /** The name is the hash of a withdrawn row's store path, or the one the row records. */
  ghost predicate IsWithdrawnName(rows: Rows, doomed: set<int>, k: string) {
    exists id :: id in doomed && id in rows && (rows[id].narinfoPath == Narinfo(k) || HasHash(rows[id].storePath, k))
  }

  /** The disk without the NARInfo files of withdrawn names. */
  ghost function Unnamed(disk: Disk, rows: Rows, doomed: set<int>): Disk {
    disk.(narinfos := map k | k in disk.narinfos && !IsWithdrawnName(rows, doomed, k) :: disk.narinfos[k])
  }

  /** No NARInfo is left under a withdrawn name. */
  ghost predicate NoneServed(rows: Rows, doomed: set<int>, disk: Disk) {
    forall k :: k in disk.narinfos ==> !IsWithdrawnName(rows, doomed, k)
  }

  lemma NamesMean(row: Row, k: string)
    ensures k in Names(row) <==> row.narinfoPath == Narinfo(k) || HasHash(row.storePath, k)
  {
    StorePathHashMeans(row.storePath, k);
  }

  lemma AllNamesMean(rows: Rows, doomed: set<int>, k: string)
    ensures k in AllNames(rows, doomed) <==> IsWithdrawnName(rows, doomed, k)
  {
    forall id | id in rows
      ensures k in Names(rows[id]) <==> rows[id].narinfoPath == Narinfo(k) || HasHash(rows[id].storePath, k)
    {
      NamesMean(rows[id], k);
    }
  }

  lemma WithoutNames(disk: Disk, rows: Rows, doomed: set<int>)
    ensures Without(disk, AllNames(rows, doomed), {}) == Unnamed(disk, rows, doomed)
  {
    forall k ensures k in AllNames(rows, doomed) <==> IsWithdrawnName(rows, doomed, k) {
      AllNamesMean(rows, doomed, k);
    }
    RemoveNothing(disk.nars);
    assert disk.narinfos - AllNames(rows, doomed) == Unnamed(disk, rows, doomed).narinfos;
  }

  /** `remediate_protected_build_job_locked` up to the ledger update: no retained row matches the job
      or aliases a withdrawn one, and no withdrawn name is still served.  */
  method Remediate(nest: Nest, job: Job, seeds: seq<string>, ghost e: Oracles, ghost key: PublicKey)
    returns (doomed: set<int>)
    modifies nest
    ensures IsDoomed(old(nest.rows), job, doomed)
    ensures nest.rows == old(nest.rows) - doomed
    ensures forall id :: id in doomed <==> id in old(nest.rows) && IsLinked(old(nest.rows), job, id)
    ensures SetsApart(old(nest.rows), job, doomed, nest.rows)
    ensures nest.disk.narinfos.Keys !! AllNames(old(nest.rows), doomed)
    ensures NoneServed(old(nest.rows), doomed, nest.disk)
    ensures KeepsLive(Unnamed(old(nest.disk), old(nest.rows), doomed), nest.disk, RowsIn(nest.rows), seeds)
    ensures NoGarbage(nest.disk, nest.rows, seeds)
    ensures RetainedVerdicts(e, key, old(nest.disk), nest.disk, nest.rows, AllNames(old(nest.rows), doomed))
  {
    ghost var disk := nest.disk;
    doomed := DoomedRows(nest.rows, job);
    var names := AllNames(nest.rows, doomed);
    nest.disk := nest.disk.(narinfos := nest.disk.narinfos - names);
    RemoveNothing(disk.nars);
    assert nest.disk == Without(disk, names, {});
    WithoutNames(disk, nest.rows, doomed);
    var retained := ListRowsOf(nest.rows - doomed);
    SweptIsShrunk(nest.disk, retained, seeds);
    SweptHasNoGarbage(nest.disk, nest.rows - doomed, retained, seeds);
    RetainedAfterSweep(e, key, disk, nest.rows - doomed, names, retained, seeds);
    var freed := SweepUnreachable(nest, retained, seeds);
    DoomedSetsApart(nest.rows, job, doomed);
    nest.rows := nest.rows - doomed;
  }
}

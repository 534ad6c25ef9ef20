/** A whole scrub: the bounded batch, the cascade over every remaining row, and the final sweep. */
module ScrubPass {
  import opened Options
  import opened FiniteSets
  import opened StorePaths
  import opened CacheModel
  import opened NarinfoCheck
  import opened ClosureWalk
  import opened Liveness
  import opened Sweeper
  import opened SweepSafety
  import opened Scrubber
  import opened ScrubSafety

  ghost predicate StillVerifies(e: Oracles, key: PublicKey, disk0: Disk, disk: Disk, row: Row) {
    Good(e, disk, key, row) && Verdict(e, disk, key, row) == Verdict(e, disk0, key, row)
  }

  /** The rows left are exactly those that verified at the start, and each still verifies with the
      manifest it had.  */
  ghost predicate Exact(e: Oracles, key: PublicKey, disk0: Disk, rows0: Rows, disk: Disk, rows: Rows) {
    && (forall id :: id in rows <==> id in rows0 && Good(e, disk0, key, rows0[id]))
    && (forall id :: id in rows ==> rows[id] == rows0[id] && StillVerifies(e, key, disk0, disk, rows[id]))
  }

  lemma BasenamesSurvive(e: Oracles, disk: Disk, left: Disk, key: PublicKey, row: Row)
    requires Shrunk(disk, left) && Good(e, disk, key, row) && ClosureKept(e, disk, left, key, row.storePath)
    requires ClosureWritesBasenames(e, disk, key, row.storePath)
    ensures ClosureWritesBasenames(e, left, key, row.storePath)
  {
    GoodClosure(e, disk, left, key, row);
    forall p | p in ClosureOf(Members(e, left, key), row.storePath) ensures BasenameRefs(e, left, p) {
      assert BasenameRefs(e, disk, p);
    }
  }

  /** The retained list holds the rows and nothing else. */
  ghost predicate ListsRows(rows: Rows, retained: seq<Row>) {
    && (forall id :: id in rows ==> rows[id] in retained)
    && (forall row :: row in retained ==> exists id :: id in rows && rows[id] == row)
  }

  ghost function RowsIn(rows: Rows): set<Row> {
    set id | id in rows :: rows[id]
  }

  /** Nothing on disk is dead: every file is reachable or recorded, from the rows and the seeds. */
  ghost predicate NoGarbage(disk: Disk, rows: Rows, seeds: seq<string>) {
    AllLive(disk, RowsIn(rows), seeds)
  }

  lemma ListedRows(rows: Rows, retained: seq<Row>)
    requires ListsRows(rows, retained)
    ensures RowSet(retained) == RowsIn(rows)
  {
  }

  lemma SweptHasNoGarbage(disk: Disk, rows: Rows, retained: seq<Row>, seeds: seq<string>)
    requires ListsRows(rows, retained)
    ensures NoGarbage(Swept(disk, retained, seeds), rows, seeds)
    ensures KeepsLive(disk, Swept(disk, retained, seeds), RowsIn(rows), seeds)
  {
    NothingDeadIsLeft(disk, retained, seeds);
    SweptMeans(disk, retained, seeds);
    ListedRows(rows, retained);
  }

  /** The final sweep keeps a row that was good at the start. */
  lemma SweepKeepsRow(e: Oracles, disk0: Disk, disk: Disk, key: PublicKey, row: Row, retained: seq<Row>,
                      seeds: seq<string>)
    requires Shrunk(disk0, disk) && Good(e, disk0, key, row) && ClosureKept(e, disk0, disk, key, row.storePath)
    requires ClosureWritesBasenames(e, disk0, key, row.storePath) && row in retained
    ensures StillVerifies(e, key, disk0, Swept(disk, retained, seeds), row)
  {
    BasenamesSurvive(e, disk0, disk, key, row);
    GoodWhileKept(e, disk0, disk, key, row);
    var i :| 0 <= i < |retained| && retained[i] == row;
    assert retained[i].storePath == row.storePath;
    SweepPreservesVerification(e, disk, key, retained, seeds, row.storePath, Derivation(row));
  }

  /** Sufficiency: with nothing overreaching, the pass is exact. */
  lemma PassIsExact(e: Oracles, key: PublicKey, disk0: Disk, rows0: Rows, disk: Disk, rows: Rows,
                    retained: seq<Row>, seeds: seq<string>)
    requires World(e, disk0, key, rows0) && NoOverreach(e, disk0, key, rows0)
    requires ScrubInvariant(e, disk0, rows0, key, disk, rows)
    requires forall id :: id in rows ==> Good(e, disk0, key, rows0[id])
    requires ListsRows(rows, retained)
    ensures Exact(e, key, disk0, rows0, Swept(disk, retained, seeds), rows)
  {
    forall id | id in rows ensures StillVerifies(e, key, disk0, Swept(disk, retained, seeds), rows[id]) {
      assert ClosureWritesBasenames(e, disk0, key, rows0[id].storePath);
      SweepKeepsRow(e, disk0, disk, key, rows0[id], retained, seeds);
    }
  }

  /** Necessity: a failing row that withdraws a name from a good closure spoils the pass. */
  lemma OverreachSpoils(e: Oracles, key: PublicKey, disk0: Disk, rows0: Rows, disk: Disk, rows: Rows, left: Disk,
                        bad: int, good: int, q: string)
    requires ScrubInvariant(e, disk0, rows0, key, disk, rows) && Shrunk(disk, left)
    requires bad in rows0 && !Good(e, disk0, key, rows0[bad])
    requires good in rows0 && Good(e, disk0, key, rows0[good])
    requires q in ClosureOf(Members(e, disk0, key), rows0[good].storePath) && StemOf(q) in RootStems(rows0[bad])
    ensures !Exact(e, key, disk0, rows0, left, rows)
  {
    if Good(e, left, key, rows0[good]) {
      GoodWhileKept(e, disk0, left, key, rows0[good]);
      GoodMember(e, disk0, left, key, rows0[good], q);
      assert FilesKept(e, disk0, left, key, q);
    }
  }

  ghost predicate IsAccountedFor(e: Oracles, disk: Disk, key: PublicKey, row: Row) {
    Good(e, disk, key, row) || BadMember(e, disk, key, row) || RecordFails(e, disk, key, row)
  }

  /** Every row verifies, has a bad member, or fails on its record or root alone. */
  ghost predicate FailuresAreMembersOrRecords(e: Oracles, disk: Disk, key: PublicKey, rows: Rows) {
    forall id :: id in rows ==> IsAccountedFor(e, disk, key, rows[id])
  }

  ghost predicate Untaken(e: Oracles, disk: Disk, key: PublicKey, bad: Row, good: Row) {
    forall q :: q in ClosureOf(Members(e, disk, key), good.storePath) ==> StemOf(q) !in RootStems(bad)
  }

  /** The root names of no row whose record fails belong to a member of a good row's closure. */
  ghost predicate NoRecordInsideGood(e: Oracles, disk: Disk, key: PublicKey, rows: Rows) {
    forall bad, good | bad in rows && good in rows && RecordFails(e, disk, key, rows[bad])
                       && Good(e, disk, key, rows[good]) ::
      Untaken(e, disk, key, rows[bad], rows[good])
  }

  lemma RootMisses(e: Oracles, disk: Disk, key: PublicKey, rows: Rows, id: int, good: int, q: string)
    requires World(e, disk, key, rows) && id in rows && good in rows && Good(e, disk, key, rows[good])
    requires rows[id].storePath !in ClosureOf(Members(e, disk, key), rows[good].storePath)
    requires q in ClosureOf(Members(e, disk, key), rows[good].storePath)
    ensures ValidStorePath(q) && !SameStem(q, rows[id].storePath)
  {
    ClosureStaysOnDisk(e, disk, key, rows[good]);
    GoodMember(e, disk, disk, key, rows[good], q);
    ClosureIsKnown(e, disk, disk, key, rows, good, q);
    assert Known(e, disk, key, rows, rows[id].storePath);
  }

  /** For a valid root this says that the root itself is not a member of the closure. */
  lemma UntakenMeansOutside(e: Oracles, disk: Disk, key: PublicKey, rows: Rows, bad: int, good: int)
    requires World(e, disk, key, rows) && bad in rows && good in rows && Good(e, disk, key, rows[good])
    requires ValidStorePath(rows[bad].storePath)
    ensures Untaken(e, disk, key, rows[bad], rows[good])
            <==> rows[bad].storePath !in ClosureOf(Members(e, disk, key), rows[good].storePath)
  {
    RootStemIsCanonical(rows, bad);
    if rows[bad].storePath !in ClosureOf(Members(e, disk, key), rows[good].storePath) {
      forall q | q in ClosureOf(Members(e, disk, key), rows[good].storePath)
        ensures StemOf(q) !in RootStems(rows[bad])
      {
        RootMisses(e, disk, key, rows, bad, good, q);
      }
    }
  }

  lemma RecordWithdrawsRoot(e: Oracles, disk: Disk, key: PublicKey, row: Row)
    requires RecordFails(e, disk, key, row)
    ensures Withdrawn(row, Verdict(e, disk, key, row)) == RootStems(row)
    ensures !Good(e, disk, key, row) && !BadMember(e, disk, key, row)
  {
  }

  lemma RecordIsHarmless(e: Oracles, disk: Disk, key: PublicKey, rows: Rows, id: int)
    requires NoRecordInsideGood(e, disk, key, rows) && id in rows && RecordFails(e, disk, key, rows[id])
    ensures Harmless(e, disk, key, rows, rows[id])
  {
    RecordWithdrawsRoot(e, disk, key, rows[id]);
    forall good, q | good in rows && Good(e, disk, key, rows[good])
                     && q in ClosureOf(Members(e, disk, key), rows[good].storePath)
      ensures StemOf(q) !in Withdrawn(rows[id], Verdict(e, disk, key, rows[id]))
    {
      assert Untaken(e, disk, key, rows[id], rows[good]);
    }
  }

  lemma NoRecordNoOverreach(e: Oracles, disk: Disk, key: PublicKey, rows: Rows)
    requires FailuresAreMembersOrRecords(e, disk, key, rows) && NoRecordInsideGood(e, disk, key, rows)
    ensures NoOverreach(e, disk, key, rows)
  {
    forall id | id in rows ensures Harmless(e, disk, key, rows, rows[id]) {
      assert IsAccountedFor(e, disk, key, rows[id]);
      if RecordFails(e, disk, key, rows[id]) { RecordIsHarmless(e, disk, key, rows, id); }
    }
  }

  // ---- the pass ----

  ghost predicate IsNext(rows: Rows, after: int, id: Option<int>) {
    match id
    case None => forall i :: i in rows ==> i <= after
    case Some(next) => next in rows && next > after && forall i :: i in rows && i > after ==> next <= i
  }

  /** `next_cache_artifact`: the row with the least id above the cursor. */
  method NextArtifact(rows: Rows, after: int) returns (id: Option<int>)
    ensures IsNext(rows, after, id)
  {
    id := None;
    var pending := rows.Keys;
    while pending != {}
      invariant pending <= rows.Keys
      invariant id.None? ==> forall i :: i in rows && i !in pending ==> i <= after
      invariant id.Some? ==> id.value in rows && id.value > after
                             && forall i :: i in rows && i !in pending && i > after ==> id.value <= i
      decreases |pending|
    {
      var i := PickAny(pending);
      pending := pending - {i};
      if i > after && (id.None? || i < id.value) {
        id := Some(i);
      }
    }
  }

  /** `list_cache_artifact_roots`: every row, in some order. */
  method ListRowsOf(rows: Rows) returns (retained: seq<Row>)
    ensures ListsRows(rows, retained)
  {
    retained := [];
    var pending := rows.Keys;
    while pending != {}
      invariant pending <= rows.Keys
      invariant forall id :: id in rows && id !in pending ==> rows[id] in retained
      invariant forall row :: row in retained ==> exists id :: id in rows && rows[id] == row
      decreases |pending|
    {
      var id := PickAny(pending);
      pending := pending - {id};
      retained := retained + [rows[id]];
    }
  }

  ghost function Above(rows: Rows, cursor: int): nat {
    |set id | id in rows && id > cursor|
  }

  lemma CursorMoves(rows: Rows, cursor: int, next: int)
    requires next in rows && cursor < next
    ensures Above(rows, next) < Above(rows, cursor)
  {
    SubsetIsSmaller((set id | id in rows && id > next), (set id | id in rows && id > cursor), next);
  }

  lemma OneRowLess(rows: Rows, id: int)
    requires id in rows
    ensures |rows - {id}| + 1 == |rows|
  {
    assert (rows - {id}).Keys == rows.Keys - {id};
  }

  ghost predicate DueIsGood(e: Oracles, disk: Disk, key: PublicKey, rows: Rows, id: int) {
    id in rows ==> Good(e, disk, key, rows[id])
  }

  /** Every row of the batch that exists verifies. */
  ghost predicate DueAreGood(e: Oracles, disk: Disk, key: PublicKey, rows: Rows, due: seq<int>) {
    forall i :: 0 <= i < |due| ==> DueIsGood(e, disk, key, rows, due[i])
  }

  /** Scrub one row of a running pass. */
  method ScrubNext(e: Oracles, nest: Nest, key: PublicKey, id: int, ghost disk0: Disk, ghost rows0: Rows)
    returns (invalid: bool)
    requires id in nest.rows && ScrubInvariant(e, disk0, rows0, key, nest.disk, nest.rows)
    modifies nest
    ensures ScrubInvariant(e, disk0, rows0, key, nest.disk, nest.rows)
    ensures invalid <==> !Good(e, old(nest.disk), key, old(nest.rows)[id])
    ensures invalid ==> nest.rows == old(nest.rows) - {id} && |nest.rows| + 1 == |old(nest.rows)|
    ensures !invalid ==> nest.disk == old(nest.disk) && nest.rows == old(nest.rows) && Good(e, disk0, key, rows0[id])
  {
    invalid := ScrubArtifact(e, nest, key, id);
    if invalid {
      OneRowLess(old(nest.rows), id);
      ScrubSteps(e, disk0, rows0, key, old(nest.disk), old(nest.rows), id);
    } else {
      GoodOnlyShrinks(e, disk0, old(nest.disk), key, rows0[id]);
    }
  }

  lemma OneMoreDue(e: Oracles, disk: Disk, key: PublicKey, rows: Rows, due: seq<int>, i: nat)
    requires i < |due|
    ensures DueAreGood(e, disk, key, rows, due[..i + 1])
            <==> DueAreGood(e, disk, key, rows, due[..i]) && DueIsGood(e, disk, key, rows, due[i])
  {
    assert due[..i + 1] == due[..i] + [due[i]];
    assert forall k :: 0 <= k < i ==> due[..i][k] == due[..i + 1][k];
    assert due[..i + 1][i] == due[i];
  }

  /** A row of the batch, if it still exists. */
  method ScrubDue(e: Oracles, nest: Nest, key: PublicKey, id: int, ghost disk0: Disk, ghost rows0: Rows)
    returns (invalid: bool)
    requires ScrubInvariant(e, disk0, rows0, key, nest.disk, nest.rows)
    modifies nest
    ensures ScrubInvariant(e, disk0, rows0, key, nest.disk, nest.rows)
    ensures invalid <==> !DueIsGood(e, old(nest.disk), key, old(nest.rows), id)
    ensures if invalid then |nest.rows| + 1 == |old(nest.rows)|
            else nest.disk == old(nest.disk) && nest.rows == old(nest.rows)
  {
    invalid := false;
    if id in nest.rows {
      invalid := ScrubNext(e, nest, key, id, disk0, rows0);
    }
  }

  /** The bounded batch, over whichever rows the clock makes due. */
  method ScrubBatch(e: Oracles, nest: Nest, key: PublicKey, due: seq<int>, ghost disk0: Disk, ghost rows0: Rows)
    returns (invalid: nat)
    requires ScrubInvariant(e, disk0, rows0, key, nest.disk, nest.rows)
    modifies nest
    ensures ScrubInvariant(e, disk0, rows0, key, nest.disk, nest.rows)
    ensures invalid == 0 ==> nest.disk == old(nest.disk) && nest.rows == old(nest.rows)
    ensures invalid == 0 <==> DueAreGood(e, old(nest.disk), key, old(nest.rows), due)
    ensures |nest.rows| + invalid == |old(nest.rows)|
  {
    invalid := 0;
    for i := 0 to |due|
      invariant ScrubInvariant(e, disk0, rows0, key, nest.disk, nest.rows)
      invariant invalid == 0 ==> nest.disk == old(nest.disk) && nest.rows == old(nest.rows)
      invariant invalid == 0 <==> DueAreGood(e, old(nest.disk), key, old(nest.rows), due[..i])
      invariant |nest.rows| + invalid == |old(nest.rows)|
    {
      OneMoreDue(e, old(nest.disk), key, old(nest.rows), due, i);
      var bad := ScrubDue(e, nest, key, due[i], disk0, rows0);
      if bad { invalid := invalid + 1; }
    }
    assert due[..|due|] == due;
  }

  /** Every row up to the cursor was good at the start. */
  ghost predicate GoodUpTo(e: Oracles, key: PublicKey, disk0: Disk, rows0: Rows, rows: Rows, cursor: int) {
    forall id :: id in rows && id in rows0 && 0 < id <= cursor ==> Good(e, disk0, key, rows0[id])
  }

  lemma GoodUpToNext(e: Oracles, key: PublicKey, disk0: Disk, rows0: Rows, before: Rows, rows: Rows, cursor: int,
                     next: int)
    requires GoodUpTo(e, key, disk0, rows0, before, cursor) && IsNext(before, cursor, Some(next))
    requires rows == before - {next} || (rows == before && next in rows0 && Good(e, disk0, key, rows0[next]))
    ensures GoodUpTo(e, key, disk0, rows0, rows, next)
  {
  }

  /** Every row left is one of the start, and one with a positive id verified there. */
  ghost predicate OnlyGoodLeft(e: Oracles, key: PublicKey, disk0: Disk, rows0: Rows, rows: Rows) {
    forall id :: id in rows ==> id in rows0 && rows[id] == rows0[id] && (id > 0 ==> Good(e, disk0, key, rows0[id]))
  }

  /** The cascade over every remaining row, by ascending id: what it leaves was good at the start. */
  method ScrubCascade(e: Oracles, nest: Nest, key: PublicKey, ghost disk0: Disk, ghost rows0: Rows)
    returns (invalid: nat)
    requires ScrubInvariant(e, disk0, rows0, key, nest.disk, nest.rows)
    modifies nest
    ensures ScrubInvariant(e, disk0, rows0, key, nest.disk, nest.rows)
    ensures OnlyGoodLeft(e, key, disk0, rows0, nest.rows)
    ensures |nest.rows| + invalid == |old(nest.rows)|
  {
    invalid := 0;
    var cursor := 0;
    var next := NextArtifact(nest.rows, cursor);
    while next.Some?
      invariant ScrubInvariant(e, disk0, rows0, key, nest.disk, nest.rows)
      invariant GoodUpTo(e, key, disk0, rows0, nest.rows, cursor)
      invariant IsNext(nest.rows, cursor, next)
      invariant |nest.rows| + invalid == |old(nest.rows)|
      decreases Above(rows0, cursor), next.Some?
    {
      ghost var before := nest.rows;
      CursorMoves(rows0, cursor, next.value);
      var bad := ScrubNext(e, nest, key, next.value, disk0, rows0);
      GoodUpToNext(e, key, disk0, rows0, before, nest.rows, cursor, next.value);
      cursor := next.value;
      if bad { invalid := invalid + 1; }
      next := NextArtifact(nest.rows, cursor);
    }
  }

  lemma SomeRecordSpoils(e: Oracles, key: PublicKey, disk0: Disk, rows0: Rows, disk: Disk, rows: Rows,
                         retained: seq<Row>, seeds: seq<string>)
    requires ScrubInvariant(e, disk0, rows0, key, disk, rows) && !NoRecordInsideGood(e, disk0, key, rows0)
    ensures !Exact(e, key, disk0, rows0, Swept(disk, retained, seeds), rows)
  {
    var bad, good :| bad in rows0 && good in rows0 && RecordFails(e, disk0, key, rows0[bad])
                     && Good(e, disk0, key, rows0[good]) && !Untaken(e, disk0, key, rows0[bad], rows0[good]);
    var q :| q in ClosureOf(Members(e, disk0, key), rows0[good].storePath) && StemOf(q) in RootStems(rows0[bad]);
    RecordWithdrawsRoot(e, disk0, key, rows0[bad]);
    SweptIsShrunk(disk, retained, seeds);
    OverreachSpoils(e, key, disk0, rows0, disk, rows, Swept(disk, retained, seeds), bad, good, q);
  }

  lemma PassTheorem(e: Oracles, key: PublicKey, disk0: Disk, rows0: Rows, disk: Disk, rows: Rows,
                    retained: seq<Row>, seeds: seq<string>)
    requires ScrubInvariant(e, disk0, rows0, key, disk, rows) && ListsRows(rows, retained)
    requires OnlyGoodLeft(e, key, disk0, rows0, rows)
    ensures World(e, disk0, key, rows0) && NoOverreach(e, disk0, key, rows0)
            ==> Exact(e, key, disk0, rows0, Swept(disk, retained, seeds), rows)
    ensures World(e, disk0, key, rows0) && FailuresAreMembersOrRecords(e, disk0, key, rows0)
            ==> (Exact(e, key, disk0, rows0, Swept(disk, retained, seeds), rows)
                 <==> NoRecordInsideGood(e, disk0, key, rows0))
  {
    if World(e, disk0, key, rows0) {
      if NoOverreach(e, disk0, key, rows0) { PassIsExact(e, key, disk0, rows0, disk, rows, retained, seeds); }
      if FailuresAreMembersOrRecords(e, disk0, key, rows0) {
        if NoRecordInsideGood(e, disk0, key, rows0) {
          NoRecordNoOverreach(e, disk0, key, rows0);
          PassIsExact(e, key, disk0, rows0, disk, rows, retained, seeds);
        } else {
          SomeRecordSpoils(e, key, disk0, rows0, disk, rows, retained, seeds);
        }
      }
    }
  }

  /** What the rows that are gone took, and then the files no longer in use, are missing, and no other. */
  ghost predicate TakesAndSweeps(e: Oracles, key: PublicKey, disk0: Disk, rows0: Rows, disk: Disk, rows: Rows,
                                 seeds: seq<string>)
  {
    exists middle :: Shrunk(disk0, middle) && OnlyTaken(e, key, disk0, rows0, middle, rows)
      && KeepsLive(middle, disk, RowsIn(rows), seeds)
  }

  /** `scrub_cache_artifacts_locked`. A pass that finds nothing wrong changes nothing. A pass that
      finds a bad row is exact whenever no failing row overreaches, and when failures are bad members
      or bad records, exactly when no bad record's root name belongs to a good closure.  */
  method ScrubCacheArtifacts(e: Oracles, nest: Nest, key: PublicKey, due: seq<int>, seeds: seq<string>)
    returns (invalid: nat)
    modifies nest
    ensures invalid == 0 <==> DueAreGood(e, old(nest.disk), key, old(nest.rows), due)
    ensures |nest.rows| + invalid == |old(nest.rows)|
    ensures invalid == 0 ==> nest.disk == old(nest.disk) && nest.rows == old(nest.rows)
    ensures invalid > 0 ==> NoGarbage(nest.disk, nest.rows, seeds)
    ensures invalid > 0 ==> TakesAndSweeps(e, key, old(nest.disk), old(nest.rows), nest.disk, nest.rows, seeds)
    ensures invalid > 0 ==> OnlyGoodLeft(e, key, old(nest.disk), old(nest.rows), nest.rows)
    ensures invalid > 0 && World(e, old(nest.disk), key, old(nest.rows))
            && NoOverreach(e, old(nest.disk), key, old(nest.rows))
            ==> Exact(e, key, old(nest.disk), old(nest.rows), nest.disk, nest.rows)
    ensures invalid > 0 && World(e, old(nest.disk), key, old(nest.rows))
            && FailuresAreMembersOrRecords(e, old(nest.disk), key, old(nest.rows))
            ==> (Exact(e, key, old(nest.disk), old(nest.rows), nest.disk, nest.rows)
                 <==> NoRecordInsideGood(e, old(nest.disk), key, old(nest.rows)))
  {
    ghost var disk0, rows0 := nest.disk, nest.rows;
    ScrubStarts(e, disk0, rows0, key);
    invalid := ScrubBatch(e, nest, key, due, disk0, rows0);
    if invalid != 0 {
      var more := ScrubCascade(e, nest, key, disk0, rows0);
      invalid := invalid + more;
      var retained := ListRowsOf(nest.rows);
      ghost var disk := nest.disk;
      var freed := SweepUnreachable(nest, retained, seeds);
      SweptHasNoGarbage(disk, nest.rows, retained, seeds);
      PassTheorem(e, key, disk0, rows0, disk, nest.rows, retained, seeds);
    }
  }
}

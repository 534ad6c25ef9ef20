/** Retention: eviction of inventory rows, oldest first and recent outputs last, in rounds that each
    end with one sweep and a fresh measurement.  */
module Retention {
  import opened Options
  import opened FiniteSets
  import opened Orders
  import opened CacheModel
  import opened Liveness
  import opened Sweeper
  import opened SweepSafety
  import opened SweepRounds
  import opened Scrubber
  import opened ScrubSafety
  import opened ScrubPass

  type U64 = n: nat | n <= U64_MAX

  /** What a round reads from the filesystem: cache size, and free bytes when statistics exist. */
  datatype Sample = Sample(size: U64, available: Option<U64>)

  datatype Policy = Policy(maxBytes: U64, minAvailable: U64, retainRecent: nat)

  /** A build job as retention sees it; `active` means queued or running. */
  datatype JobState = JobState(managedId: Option<string>, active: bool)

  /** The managed protections, and the jobs newest first. */
  datatype Fences = Fences(protections: set<(string, string)>, jobs: seq<JobState>)

  function SatSub(a: nat, b: nat): nat {
    if a < b then 0 else a - b
  }

  /** Freeing `r` bytes would bring the cache under its maximum and the disk over its reserve. */
  predicate Restores(policy: Policy, s: Sample, r: int) {
    && r >= 0
    && s.size <= policy.maxBytes + r
    && (s.available.Some? ==> policy.minAvailable <= s.available.value + r)
  }

  /** `retention_reclaim_bytes`: the least number of bytes that restores both bounds. */
  function ReclaimBytes(policy: Policy, s: Sample): (bytes: U64)
    ensures forall r :: bytes <= r <==> Restores(policy, s, r)
  {
    var excess := SatSub(s.size, policy.maxBytes);
    var shortfall := match s.available case None => 0 case Some(free) => SatSub(policy.minAvailable, free);
    if excess < shortfall then shortfall else excess
  }

  // ---- who may be evicted, and in which order ----

  function ActiveSources(jobs: seq<JobState>): set<string> {
    set i | 0 <= i < |jobs| && jobs[i].active && jobs[i].managedId.Some? :: jobs[i].managedId.value
  }

  function Sources(rows: Rows): set<string> {
    set id | id in rows && rows[id].sourceJob.Some? :: rows[id].sourceJob.value
  }

  function TerminalSource(job: JobState, sources: set<string>): seq<string> {
    if !job.active && job.managedId.Some? && job.managedId.value in sources then [job.managedId.value] else []
  }

  /** Terminal jobs that still have an artifact, newest first. */
  function TerminalSources(jobs: seq<JobState>, sources: set<string>): seq<string> {
    if jobs == [] then [] else TerminalSource(jobs[0], sources) + TerminalSources(jobs[1..], sources)
  }

  function RecentSources(policy: Policy, fences: Fences, rows: Rows): set<string> {
    var terminal := TerminalSources(fences.jobs, Sources(rows));
    set i | 0 <= i < |terminal| && i < policy.retainRecent :: terminal[i]
  }

  predicate HardProtected(fences: Fences, row: Row) {
    || (row.artifactType, row.hash) in fences.protections
    || (row.sourceJob.Some? && row.sourceJob.value in ActiveSources(fences.jobs))
  }

  predicate IsRecent(recent: set<string>, row: Row) {
    row.sourceJob.Some? && row.sourceJob.value in recent
  }

  predicate Older(rows: Rows, a: int, b: int)
    requires a in rows && b in rows
  {
    rows[a].createdAt < rows[b].createdAt || (rows[a].createdAt == rows[b].createdAt && a < b)
  }

  /** `a` goes before `b`: outputs that are not recent first, then age, then id. */
  predicate EvictedBefore(rows: Rows, recent: set<string>, a: int, b: int)
    requires a in rows && b in rows
  {
    var x, y := IsRecent(recent, rows[a]), IsRecent(recent, rows[b]);
    (!x && y) || (x == y && Older(rows, a, b))
  }

  /** Every unprotected row exactly once, each before those it precedes. */
  ghost predicate IsEvictionOrder(rows: Rows, fences: Fences, recent: set<string>, order: seq<int>) {
    && (forall id :: id in order <==> id in rows && !HardProtected(fences, rows[id]))
    && (forall i, j :: 0 <= i < j < |order| ==> EvictedBefore(rows, recent, order[i], order[j]))
  }

  ghost predicate OldestFirst(rows: Rows, ids: seq<int>) {
    && (forall id :: id in ids ==> id in rows)
    && (forall i, j :: 0 <= i < j < |ids| ==> Older(rows, ids[i], ids[j]))
  }

  function InsertByAge(rows: Rows, id: int, ids: seq<int>): seq<int>
    requires id in rows && forall k :: k in ids ==> k in rows
  {
    if ids == [] || Older(rows, id, ids[0]) then [id] + ids
    else [ids[0]] + InsertByAge(rows, id, ids[1..])
  }

  lemma {:induction false} InsertByAgeElements(rows: Rows, id: int, ids: seq<int>)
    requires id in rows && forall k :: k in ids ==> k in rows
    ensures forall k :: k in InsertByAge(rows, id, ids) <==> k == id || k in ids
  {
    if ids == [] || Older(rows, id, ids[0]) {
    } else {
      InsertByAgeElements(rows, id, ids[1..]);
      assert ids == [ids[0]] + ids[1..];
    }
  }

  lemma {:induction false} InsertByAgeKeepsOrder(rows: Rows, id: int, ids: seq<int>)
    requires id in rows && id !in ids && OldestFirst(rows, ids)
    ensures OldestFirst(rows, InsertByAge(rows, id, ids))
  {
    InsertByAgeElements(rows, id, ids);
    if ids == [] || Older(rows, id, ids[0]) {
    } else {
      InsertByAgeElements(rows, id, ids[1..]);
      InsertByAgeKeepsOrder(rows, id, ids[1..]);
      assert forall k :: k in ids[1..] ==> Older(rows, ids[0], k);
    }
  }

  /** The candidates, sorted by creation time and id. */
  method SortCandidates(rows: Rows) returns (ids: seq<int>)
    ensures OldestFirst(rows, ids)
    ensures forall id :: id in ids <==> id in rows
  {
    ids := [];
    var pending := rows.Keys;
    while pending != {}
      invariant pending <= rows.Keys
      invariant OldestFirst(rows, ids)
      invariant forall id :: id in ids <==> id in rows && id !in pending
      decreases |pending|
    {
      var id := PickAny(pending);
      InsertByAgeElements(rows, id, ids);
      InsertByAgeKeepsOrder(rows, id, ids);
      ids := InsertByAge(rows, id, ids);
      pending := pending - {id};
    }
  }

  predicate Picked(rows: Rows, fences: Fences, recent: set<string>, id: int, late: bool)
    requires id in rows
  {
    !HardProtected(fences, rows[id]) && IsRecent(recent, rows[id]) == late
  }

  /** One pass over the candidates: the unprotected ones on one side of the preference. */
  function Pass(rows: Rows, fences: Fences, recent: set<string>, ids: seq<int>, late: bool): seq<int>
    requires forall id :: id in ids ==> id in rows
  {
    if ids == [] then []
    else (if Picked(rows, fences, recent, ids[0], late) then [ids[0]] else [])
         + Pass(rows, fences, recent, ids[1..], late)
  }

  lemma {:induction false} PassElements(rows: Rows, fences: Fences, recent: set<string>, ids: seq<int>, late: bool)
    requires forall id :: id in ids ==> id in rows
    ensures forall id :: id in Pass(rows, fences, recent, ids, late)
              <==> id in ids && Picked(rows, fences, recent, id, late)
  {
    if ids == [] {
    } else {
      PassElements(rows, fences, recent, ids[1..], late);
      assert ids == [ids[0]] + ids[1..];
    }
  }

  lemma {:induction false} PassKeepsOrder(rows: Rows, fences: Fences, recent: set<string>, ids: seq<int>, late: bool)
    requires OldestFirst(rows, ids)
    ensures OldestFirst(rows, Pass(rows, fences, recent, ids, late))
  {
    PassElements(rows, fences, recent, ids, late);
    if ids == [] {
    } else {
      PassElements(rows, fences, recent, ids[1..], late);
      PassKeepsOrder(rows, fences, recent, ids[1..], late);
      assert forall k :: k in ids[1..] ==> Older(rows, ids[0], k);
    }
  }

  /** Tiaris protects the row, or it is the output of a job that is queued or running. */
  ghost predicate IsFenced(fences: Fences, row: Row) {
    || (row.artifactType, row.hash) in fences.protections
    || exists i :: 0 <= i < |fences.jobs| && fences.jobs[i].active && fences.jobs[i].managedId.Some?
                   && fences.jobs[i].managedId == row.sourceJob
  }

  /** A finished managed job that still has an artifact. */
  predicate IsFinished(jobs: seq<JobState>, sources: set<string>, i: nat)
    requires i < |jobs|
  {
    !jobs[i].active && jobs[i].managedId.Some? && jobs[i].managedId.value in sources
  }

  function FinishedBefore(jobs: seq<JobState>, sources: set<string>, i: nat): set<int>
    requires i <= |jobs|
  {
    set k | 0 <= k < i && IsFinished(jobs, sources, k)
  }

  /** One of the first `keep` of them. */
  predicate AmongFirst(jobs: seq<JobState>, sources: set<string>, i: nat, keep: nat) {
    i < |jobs| && IsFinished(jobs, sources, i) && |FinishedBefore(jobs, sources, i)| < keep
  }

  /** The row is the output of one of the `retainRecent` newest finished jobs that have an artifact. */
  ghost predicate IsRecentOutput(policy: Policy, fences: Fences, rows: Rows, row: Row) {
    var sources := set id | id in rows && rows[id].sourceJob.Some? :: rows[id].sourceJob.value;
    exists i: nat :: AmongFirst(fences.jobs, sources, i, policy.retainRecent)
      && fences.jobs[i].managedId == row.sourceJob
  }

  /** A row that is no recent output goes before one that is; otherwise by creation time and id. */
  ghost predicate GoesBefore(policy: Policy, fences: Fences, rows: Rows, a: int, b: int)
    requires a in rows && b in rows
  {
    var x, y := IsRecentOutput(policy, fences, rows, rows[a]), IsRecentOutput(policy, fences, rows, rows[b]);
    if x != y then y
    else rows[a].createdAt < rows[b].createdAt || (rows[a].createdAt == rows[b].createdAt && a < b)
  }

  ghost predicate OrdersUnfenced(policy: Policy, fences: Fences, rows: Rows, order: seq<int>) {
    && (forall id :: id in order <==> id in rows && !IsFenced(fences, rows[id]))
    && (forall i, j :: 0 <= i < j < |order| ==>
          order[i] in rows && order[j] in rows && GoesBefore(policy, fences, rows, order[i], order[j]))
  }

  lemma ProtectionMeans(fences: Fences, row: Row)
    ensures HardProtected(fences, row) <==> IsFenced(fences, row)
  {
    if i :| 0 <= i < |fences.jobs| && fences.jobs[i].active && fences.jobs[i].managedId.Some?
            && fences.jobs[i].managedId == row.sourceJob {
      assert row.sourceJob.value in ActiveSources(fences.jobs);
    }
  }

  lemma Regroup<T>(a: seq<T>, b: seq<T>, c: seq<T>)
    ensures a + (b + c) == (a + b) + c
  {
  }

  lemma {:induction false} TerminalOfAppend(a: seq<JobState>, b: seq<JobState>, sources: set<string>)
    ensures TerminalSources(a + b, sources) == TerminalSources(a, sources) + TerminalSources(b, sources)
  {
    if a == [] {
      assert a + b == b;
    } else {
      TerminalOfAppend(a[1..], b, sources);
      assert (a + b)[1..] == a[1..] + b;
      Regroup(TerminalSource(a[0], sources), TerminalSources(a[1..], sources), TerminalSources(b, sources));
    }
  }

  lemma TerminalSnoc(jobs: seq<JobState>, sources: set<string>, i: nat)
    requires i < |jobs|
    ensures TerminalSources(jobs[..i + 1], sources)
            == TerminalSources(jobs[..i], sources)
               + if IsFinished(jobs, sources, i) then [jobs[i].managedId.value] else []
  {
    assert jobs[..i + 1] == jobs[..i] + [jobs[i]];
    TerminalOfAppend(jobs[..i], [jobs[i]], sources);
    assert [jobs[i]][1..] == [];
  }

  lemma OneMoreFinished(jobs: seq<JobState>, sources: set<string>, i: nat)
    requires i < |jobs|
    ensures |FinishedBefore(jobs, sources, i + 1)|
            == |FinishedBefore(jobs, sources, i)| + if IsFinished(jobs, sources, i) then 1 else 0
  {
    var before := FinishedBefore(jobs, sources, i);
    if IsFinished(jobs, sources, i) {
      assert FinishedBefore(jobs, sources, i + 1) == before + {i};
    } else {
      assert FinishedBefore(jobs, sources, i + 1) == before;
    }
  }

  lemma {:induction false} TerminalCount(jobs: seq<JobState>, sources: set<string>, i: nat)
    requires i <= |jobs|
    ensures |TerminalSources(jobs[..i], sources)| == |FinishedBefore(jobs, sources, i)|
  {
    if i == 0 {
    } else {
      TerminalCount(jobs, sources, i - 1);
      OneMoreFinished(jobs, sources, i - 1);
      TerminalSnoc(jobs, sources, i - 1);
    }
  }

  lemma TerminalAt(jobs: seq<JobState>, sources: set<string>, i: nat)
    requires i < |jobs| && IsFinished(jobs, sources, i)
    ensures var n := |FinishedBefore(jobs, sources, i)|;
            n < |TerminalSources(jobs, sources)| && TerminalSources(jobs, sources)[n] == jobs[i].managedId.value
  {
    TerminalCount(jobs, sources, i);
    TerminalSnoc(jobs, sources, i);
    assert jobs == jobs[..i + 1] + jobs[i + 1..];
    TerminalOfAppend(jobs[..i + 1], jobs[i + 1..], sources);
  }

  lemma {:induction false} FindTerminal(jobs: seq<JobState>, sources: set<string>, m: nat, n: nat) returns (i: nat)
    requires m <= |jobs| && n < |TerminalSources(jobs[..m], sources)|
    ensures i < m && IsFinished(jobs, sources, i) && |FinishedBefore(jobs, sources, i)| == n
    ensures jobs[i].managedId == Some(TerminalSources(jobs[..m], sources)[n])
  {
    TerminalSnoc(jobs, sources, m - 1);
    TerminalCount(jobs, sources, m - 1);
    if n < |TerminalSources(jobs[..m - 1], sources)| {
      i := FindTerminal(jobs, sources, m - 1, n);
    } else {
      i := m - 1;
    }
  }

  lemma RecentMeans(policy: Policy, fences: Fences, rows: Rows, row: Row)
    ensures IsRecent(RecentSources(policy, fences, rows), row) <==> IsRecentOutput(policy, fences, rows, row)
  {
    var jobs, sources := fences.jobs, Sources(rows);
    var terminal := TerminalSources(jobs, sources);
    assert sources == set id | id in rows && rows[id].sourceJob.Some? :: rows[id].sourceJob.value;
    if IsRecent(RecentSources(policy, fences, rows), row) {
      var n :| 0 <= n < |terminal| && n < policy.retainRecent && terminal[n] == row.sourceJob.value;
      assert jobs[..|jobs|] == jobs;
      var i := FindTerminal(jobs, sources, |jobs|, n);
      assert AmongFirst(jobs, sources, i, policy.retainRecent);
    }
    if i: nat :| AmongFirst(jobs, sources, i, policy.retainRecent) && jobs[i].managedId == row.sourceJob {
      TerminalAt(jobs, sources, i);
    }
  }

  /** The eviction order in those terms. */
  lemma OrderMeans(policy: Policy, fences: Fences, rows: Rows, order: seq<int>)
    requires IsEvictionOrder(rows, fences, RecentSources(policy, fences, rows), order)
    ensures OrdersUnfenced(policy, fences, rows, order)
  {
    forall row ensures HardProtected(fences, row) <==> IsFenced(fences, row) { ProtectionMeans(fences, row); }
    forall i, j | 0 <= i < j < |order|
      ensures order[i] in rows && order[j] in rows && GoesBefore(policy, fences, rows, order[i], order[j])
    {
      assert order[i] in order && order[j] in order;
      RecentMeans(policy, fences, rows, rows[order[i]]);
      RecentMeans(policy, fences, rows, rows[order[j]]);
    }
  }

  method EvictionOrder(rows: Rows, policy: Policy, fences: Fences) returns (order: seq<int>)
    ensures IsEvictionOrder(rows, fences, RecentSources(policy, fences, rows), order)
    ensures OrdersUnfenced(policy, fences, rows, order)
  {
    var recent := RecentSources(policy, fences, rows);
    var ids := SortCandidates(rows);
    PassElements(rows, fences, recent, ids, false);
    PassElements(rows, fences, recent, ids, true);
    PassKeepsOrder(rows, fences, recent, ids, false);
    PassKeepsOrder(rows, fences, recent, ids, true);
    order := Pass(rows, fences, recent, ids, false) + Pass(rows, fences, recent, ids, true);
    OrderMeans(policy, fences, rows, order);
  }

  /** Whatever is evicted, everything that goes before it is evicted too. */
  lemma PrefixIsDownwardClosed(rows: Rows, fences: Fences, recent: set<string>, order: seq<int>, n: nat, a: int, b: int)
    requires IsEvictionOrder(rows, fences, recent, order) && n <= |order| && b in order[..n]
    requires a in rows && !HardProtected(fences, rows[a]) && EvictedBefore(rows, recent, a, b)
    ensures a in order[..n]
  {
    assert a in order;
    var i :| 0 <= i < |order| && order[i] == a;
    var j :| 0 <= j < n && order[j] == b;
    assert i < j;
    assert order[..n][i] == a;
  }

  function EvictionRank(rows: Rows, recent: set<string>): (int, int) -> bool {
    (a, b) => a in rows && b in rows && EvictedBefore(rows, recent, a, b)
  }

  lemma RankIsStrict(rows: Rows, recent: set<string>, ids: set<int>)
    ensures StrictOrder(ids, EvictionRank(rows, recent))
  {
  }

  lemma OrderIsListed(rows: Rows, fences: Fences, recent: set<string>, order: seq<int>, ids: set<int>)
    requires IsEvictionOrder(rows, fences, recent, order)
    requires forall id :: id in ids <==> id in rows && !HardProtected(fences, rows[id])
    ensures ListsBy(ids, EvictionRank(rows, recent), order)
  {
    forall i, j | 0 <= i < j < |order| ensures EvictionRank(rows, recent)(order[i], order[j]) {
      assert order[i] in order && order[j] in order;
    }
  }

  /** There is one eviction order. */
  lemma SameOrder(rows: Rows, fences: Fences, recent: set<string>, a: seq<int>, b: seq<int>)
    requires IsEvictionOrder(rows, fences, recent, a) && IsEvictionOrder(rows, fences, recent, b)
    ensures a == b
  {
    var ids := set id | id in rows && !HardProtected(fences, rows[id]);
    RankIsStrict(rows, recent, ids);
    OrderIsListed(rows, fences, recent, a, ids);
    OrderIsListed(rows, fences, recent, b, ids);
    ListIsUnique(ids, EvictionRank(rows, recent), a, b);
  }

  // ---- the same, said on jobs and rows ----

  // ---- the rounds ----

  /** What evicting a row is expected to free, at least one byte. */
  function Estimate(row: Row): (bytes: nat)
    ensures bytes >= 1 && bytes >= row.sizeBytes && bytes >= row.closureFileSizeBytes
    ensures bytes in {1, row.sizeBytes, row.closureFileSizeBytes}
  {
    var most := if row.closureFileSizeBytes < row.sizeBytes then row.sizeBytes else row.closureFileSizeBytes;
    if most < 1 then 1 else most
  }

  function EstimateAt(rows: Rows, id: int): nat
    requires id in rows
  {
    Estimate(rows[id])
  }

  function Footprint(rows: Rows, ids: seq<int>): nat
    requires forall id :: id in ids ==> id in rows
  {
    if ids == [] then 0
    else Footprint(rows, ids[..|ids| - 1]) + EstimateAt(rows, ids[|ids| - 1])
  }

  /** A round evicts the fewest rows whose footprint covers the excess, or all that are left. */
  ghost predicate IsRound(rows: Rows, order: seq<int>, from: nat, to: nat, excess: nat) {
    && from < to <= |order|
    && (forall id :: id in order ==> id in rows)
    && Footprint(rows, order[from..to - 1]) < excess
    && (to < |order| ==> excess <= Footprint(rows, order[from..to]))
  }

  /** The ends of the rounds: each answers the sample taken before it. */
  ghost predicate IsRun(rows: Rows, order: seq<int>, policy: Policy, samples: nat -> Sample, ends: seq<nat>) {
    && ends != [] && ends[0] == 0 && ends[|ends| - 1] <= |order|
    && forall k :: 0 <= k < |ends| - 1 ==>
         IsRound(rows, order, ends[k], ends[k + 1], ReclaimBytes(policy, samples(k + 1)))
  }

  /** A row that verified at the start still does, with the manifest it had. */
  ghost predicate KeepsVerified(e: Oracles, key: PublicKey, disk0: Disk, disk: Disk, rows: Rows) {
    && Shrunk(disk0, disk)
    && forall id :: id in rows && Good(e, disk0, key, rows[id])
                    && ClosureWritesBasenames(e, disk0, key, rows[id].storePath)
         ==> StillVerifies(e, key, disk0, disk, rows[id])
  }

  lemma SweepKeepsVerified(e: Oracles, key: PublicKey, disk0: Disk, disk: Disk, rows: Rows, retained: seq<Row>,
                           seeds: seq<string>)
    requires KeepsVerified(e, key, disk0, disk, rows) && ListsRows(rows, retained)
    ensures KeepsVerified(e, key, disk0, Swept(disk, retained, seeds), rows)
  {
    SweptIsShrunk(disk, retained, seeds);
    forall id | id in rows && Good(e, disk0, key, rows[id]) && ClosureWritesBasenames(e, disk0, key, rows[id].storePath)
      ensures StillVerifies(e, key, disk0, Swept(disk, retained, seeds), rows[id])
    {
      GoodWhileKept(e, disk0, disk, key, rows[id]);
      SweepKeepsRow(e, disk0, disk, key, rows[id], retained, seeds);
    }
  }

  function IdSet(ids: seq<int>): set<int> {
    set id | id in ids
  }

  lemma Evict(rows: Rows, order: seq<int>, end: nat)
    requires end < |order| && order[end] in rows
    requires forall i, j :: 0 <= i < j < |order| ==> order[i] != order[j]
    ensures order[end] in rows - IdSet(order[..end])
    ensures rows - IdSet(order[..end]) - {order[end]} == rows - IdSet(order[..end + 1])
  {
    assert IdSet(order[..end + 1]) == IdSet(order[..end]) + {order[end]} by {
      assert order[..end + 1] == order[..end] + [order[end]];
    }
  }

  lemma FootprintSnoc(rows: Rows, order: seq<int>, next: nat, end: nat)
    requires next <= end < |order| && forall id :: id in order ==> id in rows
    ensures Footprint(rows, order[next..end + 1]) == Footprint(rows, order[next..end]) + Estimate(rows[order[end]])
  {
    assert order[next..end + 1][..end - next] == order[next..end];
  }

  /** A round that has come to `end`, with this estimate, and not yet covered the excess before. */
  ghost predicate InRound(rows0: Rows, order: seq<int>, next: nat, end: nat, excess: nat, estimated: int) {
    && next <= end <= |order| && (forall id :: id in order ==> id in rows0)
    && estimated == Capped(Footprint(rows0, order[next..end]))
    && (end == next || Footprint(rows0, order[next..end - 1]) < excess)
  }

  lemma RoundGoesOn(rows0: Rows, order: seq<int>, next: nat, end: nat, excess: U64, estimated: int)
    requires InRound(rows0, order, next, end, excess, estimated) && estimated < excess
    requires end < |order| && order[end] in rows0
    ensures InRound(rows0, order, next, end + 1, excess, Capped(estimated + Estimate(rows0[order[end]])))
  {
    FootprintSnoc(rows0, order, next, end);
  }

  /** A round at `end`: what it has evicted and estimated. */
  ghost predicate Evicting(rows0: Rows, order: seq<int>, next: nat, end: nat, excess: nat, estimated: int, rows: Rows) {
    InRound(rows0, order, next, end, excess, estimated) && rows == rows0 - IdSet(order[..end])
  }

  lemma EvictsOneMore(rows0: Rows, order: seq<int>, next: nat, end: nat, excess: U64, estimated: int, rows: Rows)
    requires Evicting(rows0, order, next, end, excess, estimated, rows) && estimated < excess && end < |order|
    requires forall i, j :: 0 <= i < j < |order| ==> order[i] != order[j]
    ensures order[end] in rows
    ensures Evicting(rows0, order, next, end + 1, excess, Capped(estimated + Estimate(rows[order[end]])),
                     rows - {order[end]})
  {
    Evict(rows0, order, end);
    RoundGoesOn(rows0, order, next, end, excess, estimated);
  }

  lemma RoundEnds(rows0: Rows, order: seq<int>, next: nat, end: nat, excess: U64, estimated: int, rows: Rows)
    requires Evicting(rows0, order, next, end, excess, estimated, rows) && next < |order| && excess > 0
    requires end == |order| || estimated >= excess
    ensures IsRound(rows0, order, next, end, excess) && rows == rows0 - IdSet(order[..end])
  {
  }

  /** Evict from `next` on until the estimate covers the excess. */
  method EvictRound(nest: Nest, order: seq<int>, next: nat, excess: U64, ghost rows0: Rows) returns (end: nat)
    requires next < |order| && excess > 0
    requires forall id :: id in order ==> id in rows0
    requires nest.rows == rows0 - IdSet(order[..next])
    requires forall i, j :: 0 <= i < j < |order| ==> order[i] != order[j]
    modifies nest`rows
    ensures IsRound(rows0, order, next, end, excess)
    ensures nest.rows == rows0 - IdSet(order[..end])
  {
    end := next;
    var estimated := 0;
    while end < |order| && estimated < excess
      invariant Evicting(rows0, order, next, end, excess, estimated, nest.rows)
    {
      EvictsOneMore(rows0, order, next, end, excess, estimated, nest.rows);
      estimated := Capped(estimated + Estimate(nest.rows[order[end]]));
      nest.rows := nest.rows - {order[end]};
      end := end + 1;
    }
    RoundEnds(rows0, order, next, end, excess, estimated, nest.rows);
  }

  lemma OrderIsDistinct(rows: Rows, fences: Fences, recent: set<string>, order: seq<int>)
    requires IsEvictionOrder(rows, fences, recent, order)
    ensures forall i, j :: 0 <= i < j < |order| ==> order[i] != order[j]
  {
  }

  lemma RunGrows(rows: Rows, order: seq<int>, policy: Policy, samples: nat -> Sample, ends: seq<nat>, end: nat)
    requires IsRun(rows, order, policy, samples, ends)
    requires IsRound(rows, order, ends[|ends| - 1], end, ReclaimBytes(policy, samples(|ends|)))
    ensures IsRun(rows, order, policy, samples, ends + [end])
  {
  }

  lemma NothingLost(e: Oracles, key: PublicKey, disk: Disk, rows: Rows)
    ensures KeepsVerified(e, key, disk, disk, rows)
  {
  }

  lemma FewerRows(e: Oracles, key: PublicKey, disk0: Disk, disk: Disk, rows: Rows, fewer: Rows)
    requires KeepsVerified(e, key, disk0, disk, rows)
    requires forall id :: id in fewer ==> id in rows && fewer[id] == rows[id]
    ensures KeepsVerified(e, key, disk0, disk, fewer)
  {
  }

  /** One sweep that retains every row of the inventory. */
  method SweepRows(nest: Nest, seeds: seq<string>, ghost e: Oracles, ghost key: PublicKey, ghost disk0: Disk)
    requires KeepsVerified(e, key, disk0, nest.disk, nest.rows)
    modifies nest`disk
    ensures KeepsVerified(e, key, disk0, nest.disk, nest.rows)
    ensures NoGarbage(nest.disk, nest.rows, seeds)
    ensures KeepsLive(old(nest.disk), nest.disk, RowsIn(nest.rows), seeds)
  {
    var retained := ListRowsOf(nest.rows);
    SweepKeepsVerified(e, key, disk0, nest.disk, nest.rows, retained, seeds);
    SweptHasNoGarbage(nest.disk, nest.rows, retained, seeds);
    var freed := SweepUnreachable(nest, retained, seeds);
  }

  lemma FewerRowsIn(rows: Rows, fewer: Rows)
    requires forall id :: id in fewer ==> id in rows && fewer[id] == rows[id]
    ensures RowsIn(fewer) <= RowsIn(rows)
  {
  }

  /** One round: evict, then sweep once. */
  method RunRound(nest: Nest, order: seq<int>, next: nat, excess: U64, ghost rows0: Rows, seeds: seq<string>,
                  ghost e: Oracles, ghost key: PublicKey, ghost disk0: Disk) returns (end: nat)
    requires next < |order| && excess > 0
    requires forall id :: id in order ==> id in rows0
    requires nest.rows == rows0 - IdSet(order[..next])
    requires forall i, j :: 0 <= i < j < |order| ==> order[i] != order[j]
    requires KeepsVerified(e, key, disk0, nest.disk, nest.rows)
    requires KeepsLive(disk0, nest.disk, RowsIn(nest.rows), seeds)
    modifies nest
    ensures IsRound(rows0, order, next, end, excess)
    ensures nest.rows == rows0 - IdSet(order[..end])
    ensures KeepsVerified(e, key, disk0, nest.disk, nest.rows) && NoGarbage(nest.disk, nest.rows, seeds)
    ensures KeepsLive(disk0, nest.disk, RowsIn(nest.rows), seeds)
  {
    ghost var disk, before := nest.disk, nest.rows;
    end := EvictRound(nest, order, next, excess, rows0);
    assert order[..next] == order[..end][..next];
    FewerRows(e, key, disk0, nest.disk, before, nest.rows);
    FewerRowsIn(before, nest.rows);
    SweepRows(nest, seeds, e, key, disk0);
    SweepsCompose(disk0, disk, nest.disk, RowsIn(before), RowsIn(nest.rows), seeds);
  }

  /** `enforce_retention_locked`, for any readings of the filesystem: what is evicted, why each round
      stopped where it did, and what every surviving row keeps.  */
  method EnforceRetention(nest: Nest, policy: Policy, fences: Fences, samples: nat -> Sample, seeds: seq<string>,
                          ghost e: Oracles, ghost key: PublicKey)
    returns (order: seq<int>, evicted: nat, reclaim: U64, ghost ends: seq<nat>)
    modifies nest
    ensures IsEvictionOrder(old(nest.rows), fences, RecentSources(policy, fences, old(nest.rows)), order)
    ensures OrdersUnfenced(policy, fences, old(nest.rows), order)
    ensures forall id :: id in old(nest.rows) && IsFenced(fences, old(nest.rows)[id]) ==> id in nest.rows
    ensures IsRun(old(nest.rows), order, policy, samples, ends) && evicted == ends[|ends| - 1]
    ensures nest.rows == old(nest.rows) - IdSet(order[..evicted])
    ensures policy.maxBytes > 0 ==> reclaim == 0 || evicted == |order|
    ensures policy.maxBytes > 0 ==>
              reclaim == ReclaimBytes(policy, samples(if ReclaimBytes(policy, samples(0)) == 0 then 0 else |ends|))
    ensures if policy.maxBytes == 0 || ReclaimBytes(policy, samples(0)) == 0
            then nest.disk == old(nest.disk) && nest.rows == old(nest.rows)
            else NoGarbage(nest.disk, nest.rows, seeds)
                 && KeepsLive(old(nest.disk), nest.disk, RowsIn(nest.rows), seeds)
    ensures KeepsVerified(e, key, old(nest.disk), nest.disk, nest.rows)
  {
    ghost var disk0, rows0 := nest.disk, nest.rows;
    order := EvictionOrder(nest.rows, policy, fences);
    evicted, reclaim, ends := 0, 0, [0];
    NothingLost(e, key, disk0, rows0);
    if policy.maxBytes == 0 { return; }
    reclaim := ReclaimBytes(policy, samples(0));
    if reclaim == 0 { return; }
    SweepRows(nest, seeds, e, key, disk0);
    OrderIsDistinct(rows0, fences, RecentSources(policy, fences, rows0), order);
    reclaim := ReclaimBytes(policy, samples(1));
    var rounds := 0;
    while reclaim > 0 && evicted < |order|
      invariant rounds + 1 == |ends| && evicted == ends[|ends| - 1] <= |order|
      invariant IsRun(rows0, order, policy, samples, ends)
      invariant nest.rows == rows0 - IdSet(order[..evicted])
      invariant reclaim == ReclaimBytes(policy, samples(rounds + 1))
      invariant KeepsVerified(e, key, disk0, nest.disk, nest.rows) && NoGarbage(nest.disk, nest.rows, seeds)
      invariant KeepsLive(disk0, nest.disk, RowsIn(nest.rows), seeds)
      decreases |order| - evicted
    {
      var end := RunRound(nest, order, evicted, reclaim, rows0, seeds, e, key, disk0);
      RunGrows(rows0, order, policy, samples, ends, end);
      evicted, ends := end, ends + [end];
      rounds := rounds + 1;
      reclaim := ReclaimBytes(policy, samples(rounds + 1));
    }
  }
}

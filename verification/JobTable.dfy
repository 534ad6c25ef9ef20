/** The build-job table itself, changed in place. Its history is a run of the state machine, so what
    holds over runs holds of it.  */
module JobTable {
  import opened Options
  import opened FiniteSets
  import opened BuildJobs
  import opened JobRuns
  import opened JobStatements

  lemma RunExtends(b: Boundary, h: History, step: Step)
    requires IsRun(b, h, false) && Enabled(h[|h| - 1], step) && !step.Report?
    ensures IsRun(b, h + [Apply(b, h[|h| - 1], step)], false)
  {
    assert Takes(b, h[|h| - 1], step, Apply(b, h[|h| - 1], step));
  }

  /** A row that a cancellation may still affect. */
  predicate Cancellable(job: Job) {
    job.managedId.Some? && job.status in {Queued, Running}
  }

  function Absent(jobs: Jobs, retained: set<string>): set<int> {
    set i | i in jobs && Cancellable(jobs[i]) && jobs[i].managedId.value !in retained
  }

  function CancelAll(s: State, ids: set<int>): State {
    s.(jobs := map i | i in s.jobs :: if i in ids then CancelledRow(s.jobs[i]) else s.jobs[i])
  }

  function ProtectedIds(b: Boundary, jobs: Jobs): set<int> {
    set i | i in jobs && IsProtected(b, jobs[i])
  }

  predicate AllParse(b: Boundary, jobs: Jobs) {
    forall i :: i in jobs ==> Parses(b, jobs[i])
  }

  /** The rows a quarantine pass reaches: it goes by id and stops at the first that does not parse. */
  function Reached(b: Boundary, jobs: Jobs): set<int> {
    set i | i in jobs && forall j :: j in jobs && j <= i ==> Parses(b, jobs[j])
  }

  function NewEntries(b: Boundary, s: State, ids: set<int>): Ledger {
    map i | i in s.jobs && i in ids && IsProtected(b, s.jobs[i]) && i !in s.ledger :: PendingPurge
  }

  function ScanAll(b: Boundary, s: State, ids: set<int>): State {
    s.(jobs := map i | i in s.jobs :: if i in ids then ScannedRow(b, s.jobs[i]) else s.jobs[i],
       ledger := s.ledger + NewEntries(b, s, ids))
  }

  lemma AbsentMeans(jobs: Jobs, retained: set<string>)
    ensures Absent(jobs, retained) == AbsentIds(jobs, retained)
  {
    forall i: int | i in Absent(jobs, retained) ensures i in AbsentIds(jobs, retained) {}
    forall i: int | i in AbsentIds(jobs, retained) ensures i in Absent(jobs, retained) {}
  }

  lemma CancelledMeans(s: State, retained: set<string>)
    ensures CancelsAbsent(s.jobs, CancelAll(s, Absent(s.jobs, retained)).jobs, retained)
  {
    AbsentMeans(s.jobs, retained);
  }

  lemma ProtectedMeans(b: Boundary, jobs: Jobs)
    ensures ProtectedIds(b, jobs) == RefusedIds(b, jobs)
  {
    assert forall i: int :: i in jobs ==> (IsProtected(b, jobs[i]) <==> IsRefusedBy(b, jobs[i]));
  }

  lemma ParsingMeans(b: Boundary, jobs: Jobs)
    ensures AllParse(b, jobs) <==> EveryRowParses(b, jobs)
  {
    assert forall i: int :: i in jobs ==> (Parses(b, jobs[i]) <==> BothParse(b, jobs[i]));
  }

  lemma ReachedMeans(b: Boundary, jobs: Jobs, i: int)
    ensures i in Reached(b, jobs) <==> IsScanned(b, jobs, i)
  {
  }

  lemma RowsScanned(b: Boundary, s: State)
    ensures ScansRows(b, s, ScanAll(b, s, Reached(b, s.jobs)).jobs)
  {
    forall i | i in s.jobs { ReachedMeans(b, s.jobs, i); }
  }

  lemma LedgerEnlists(b: Boundary, s: State)
    ensures Enlists(b, s, ScanAll(b, s, Reached(b, s.jobs)).ledger)
  {
    forall i { ReachedMeans(b, s.jobs, i); }
  }

  lemma NoneCancelled(s: State)
    ensures CancelAll(s, {}) == s
  {
    assert CancelAll(s, {}).jobs == s.jobs;
  }

  lemma CancelOneMore(s: State, ids: set<int>, id: int)
    requires id in s.jobs && id !in ids
    ensures id in CancelAll(s, ids).jobs && CancelAll(CancelAll(s, ids), {id}) == CancelAll(s, ids + {id})
  {
    assert CancelAll(CancelAll(s, ids), {id}).jobs == CancelAll(s, ids + {id}).jobs;
  }

  /** A step that inserts nothing and leaves every other row alone. */
  lemma OneRowChanges(b: Boundary, s: State, step: Step, id: int)
    requires id in s.jobs && Inserted(s, step).None?
    requires forall i :: i in s.jobs && i != id ==> RowAfter(b, s, step, i, s.jobs[i]) == s.jobs[i]
    ensures JobsAfter(b, s, step) == s.jobs[id := RowAfter(b, s, step, id, s.jobs[id])]
  {
  }

  lemma OneIsCancelled(b: Boundary, s: State, id: int)
    requires id in s.jobs
    ensures s.(jobs := s.jobs[id := CancelledRow(s.jobs[id])]) == CancelAll(s, {id}) == Apply(b, s, CancelRow(id))
  {
    OneRowChanges(b, s, CancelRow(id), id);
    assert CancelAll(s, {id}).jobs == s.jobs[id := CancelledRow(s.jobs[id])];
  }

  lemma OneEntry(b: Boundary, s: State, id: int)
    requires id in s.jobs
    ensures s.ledger + NewEntries(b, s, {id}) == LedgerAfter(b, s, Quarantine(id))
  {
  }

  lemma OneIsScanned(b: Boundary, s: State, id: int)
    requires id in s.jobs
    ensures ScanAll(b, s, {id}) == Apply(b, s, Quarantine(id))
    ensures ScanAll(b, s, {id})
            == s.(jobs := s.jobs[id := ScannedRow(b, s.jobs[id])],
                  ledger := if IsProtected(b, s.jobs[id]) && id !in s.ledger then s.ledger[id := PendingPurge]
                            else s.ledger)
  {
    OneRowChanges(b, s, Quarantine(id), id);
    assert ScanAll(b, s, {id}).jobs == s.jobs[id := ScannedRow(b, s.jobs[id])];
    OneEntry(b, s, id);
  }

  lemma ScanOneMore(b: Boundary, s: State, ids: set<int>, id: int)
    requires id in s.jobs && id !in ids
    ensures ScanAll(b, ScanAll(b, s, ids), {id}) == ScanAll(b, s, ids + {id})
  {
    var one, all := ScanAll(b, ScanAll(b, s, ids), {id}), ScanAll(b, s, ids + {id});
    assert one.jobs == all.jobs;
    assert one.ledger == all.ledger;
  }

  predicate IsLeast(id: int, ids: set<int>) {
    id in ids && forall i :: i in ids ==> id <= i
  }

  /** A quarantine pass that has handled `done`, the least ids, and not yet `pending`. */
  ghost predicate Halfway(b: Boundary, jobs: Jobs, pending: set<int>, done: set<int>, count: nat) {
    && IsSplit(jobs.Keys, pending, done) && count == |done * ProtectedIds(b, jobs)|
    && (forall i, j :: i in done && j in pending ==> i < j)
    && (forall i :: i in done ==> Parses(b, jobs[i]))
  }

  lemma NoneScanned(b: Boundary, s: State)
    ensures ScanAll(b, s, {}) == s
  {
    assert ScanAll(b, s, {}).jobs == s.jobs;
    assert ScanAll(b, s, {}).ledger == s.ledger;
  }

  lemma NoneReached(b: Boundary, jobs: Jobs)
    ensures Halfway(b, jobs, jobs.Keys, {}, 0)
  {
  }

  lemma OneMoreCounted(b: Boundary, jobs: Jobs, done: set<int>, id: int)
    requires id in jobs && id !in done
    ensures |(done + {id}) * ProtectedIds(b, jobs)|
            == |done * ProtectedIds(b, jobs)| + if IsProtected(b, jobs[id]) then 1 else 0
  {
    var counted := done * ProtectedIds(b, jobs);
    assert (done + {id}) * ProtectedIds(b, jobs) == if IsProtected(b, jobs[id]) then counted + {id} else counted;
  }

  lemma OneFurther(b: Boundary, s: State, pending: set<int>, done: set<int>, count: nat, id: int)
    requires Halfway(b, s.jobs, pending, done, count) && IsLeast(id, pending)
    ensures id in s.jobs && id !in done && ScanAll(b, s, done).jobs[id] == s.jobs[id]
    ensures !Parses(b, s.jobs[id]) ==> done == Reached(b, s.jobs) && !AllParse(b, s.jobs)
    ensures Parses(b, s.jobs[id]) ==>
              Halfway(b, s.jobs, pending - {id}, done + {id}, count + if IsProtected(b, s.jobs[id]) then 1 else 0)
  {
    SplitMoves(s.jobs.Keys, pending, done, id);
    OneMoreCounted(b, s.jobs, done, id);
  }

  lemma AllReached(b: Boundary, s: State, done: set<int>, count: nat)
    requires AcceptsReplacements(b) && Halfway(b, s.jobs, {}, done, count)
    ensures done == Reached(b, s.jobs) && AllParse(b, s.jobs) && count == |ProtectedIds(b, s.jobs)|
    ensures forall i :: i in ScanAll(b, s, done).jobs ==> !IsRefusedBy(b, ScanAll(b, s, done).jobs[i])
  {
    SplitEnds(s.jobs.Keys, done);
    assert done * ProtectedIds(b, s.jobs) == ProtectedIds(b, s.jobs);
    forall i | i in s.jobs ensures !IsRefusedBy(b, ScanAll(b, s, done).jobs[i]) {}
  }

  method Least(ids: set<int>) returns (least: int)
    requires ids != {}
    ensures IsLeast(least, ids)
  {
    least := PickAny(ids);
    var pending := ids - {least};
    while pending != {}
      invariant pending <= ids && least in ids && forall i :: i in ids && i !in pending ==> least <= i
      decreases |pending|
    {
      var i := PickAny(pending);
      pending := pending - {i};
      if i < least { least := i; }
    }
  }

  lemma PurgeIsStep(b: Boundary, s: State, id: int)
    requires Sound(s)
    ensures !PurgeIsPending(s, id) ==> Apply(b, s, CompletePurge(id)) == s
    ensures PurgeIsPending(s, id) ==>
              && id in s.jobs
              && Apply(b, s, CompletePurge(id))
                 == s.(jobs := s.jobs[id := s.jobs[id].(metadata := PURGED_METADATA)], ledger := s.ledger[id := Purged])
  {
    assert Frozen(s, id);
    if PurgeIsPending(s, id) {
      OneRowChanges(b, s, CompletePurge(id), id);
    } else {
      assert JobsAfter(b, s, CompletePurge(id)) == s.jobs;
    }
  }

  lemma RowIsInserted(b: Boundary, s: State, step: Step)
    requires Inserted(s, step).Some?
    requires forall i :: i in s.jobs ==> RowAfter(b, s, step, i, s.jobs[i]) == s.jobs[i]
    ensures JobsAfter(b, s, step) == s.jobs[s.nextId := Inserted(s, step).value]
  {
  }

  method FindManaged(jobs: Jobs, m: string) returns (row: Option<int>)
    ensures row.Some? ==> row.value in jobs && ByManagedId(jobs[row.value], m)
    ensures row.None? ==> !Delivered(jobs, m)
  {
    row := None;
    var pending := jobs.Keys;
    while pending != {} && row.None?
      invariant pending <= jobs.Keys
      invariant row.Some? ==> row.value in jobs && ByManagedId(jobs[row.value], m)
      invariant row.None? ==> forall i :: i in jobs && ByManagedId(jobs[i], m) ==> i in pending
      decreases |pending|
    {
      var i := PickAny(pending);
      pending := pending - {i};
      if ByManagedId(jobs[i], m) { row := Some(i); }
    }
  }

  lemma ClaimIsStep(b: Boundary, s: State, id: int)
    requires id in s.jobs
    ensures Apply(b, s, Claim(id))
            == State(s.jobs[id := ClaimedRow(s.jobs[id])], s.ledger, s.nextId, s.claims + [id])
  {
    assert JobsAfter(b, s, Claim(id)) == s.jobs[id := ClaimedRow(s.jobs[id])];
  }

  lemma RecoverIsStep(b: Boundary, s: State, error: string)
    ensures Apply(b, s, Recover(error)) == s.(jobs := map i | i in s.jobs :: FailedRow(s.jobs[i], error))
    ensures forall i :: i in s.jobs ==> Apply(b, s, Recover(error)).jobs[i].status != Running
  {
    assert JobsAfter(b, s, Recover(error)) == map i | i in s.jobs :: FailedRow(s.jobs[i], error);
  }

  /** The queue head: least creation time, then least id. */
  method OldestQueued(jobs: Jobs) returns (oldest: Option<int>)
    ensures oldest.None? ==> forall i :: i in jobs ==> jobs[i].status != Queued
    ensures oldest.Some? ==> IsOldestQueued(jobs, oldest.value) && IsNextInLine(jobs, oldest.value)
  {
    oldest := None;
    var pending := jobs.Keys;
    while pending != {}
      invariant pending <= jobs.Keys
      invariant oldest.None? ==> forall i :: i in jobs && i !in pending ==> jobs[i].status != Queued
      invariant oldest.Some? ==>
                  && oldest.value in jobs && jobs[oldest.value].status == Queued
                  && forall i :: i in jobs && i !in pending && jobs[i].status == Queued ==>
                       OlderJob(jobs, oldest.value, i)
      decreases |pending|
    {
      var i := PickAny(pending);
      pending := pending - {i};
      if jobs[i].status == Queued && (oldest.None? || !OlderJob(jobs, oldest.value, i)) {
        oldest := Some(i);
      }
    }
  }

  class Table {
    const boundary: Boundary
    var jobs: Jobs
    var ledger: Ledger
    var nextId: int
    ghost var claims: seq<int>
    ghost var history: History

    ghost function Now(): State
      reads this
    {
      State(jobs, ledger, nextId, claims)
    }

    ghost predicate Valid()
      reads this
    {
      AcceptsReplacements(boundary) && IsRun(boundary, history, false) && history[|history| - 1] == Now()
    }

    constructor (boundary: Boundary, jobs: Jobs, ledger: Ledger, nextId: int)
      requires AcceptsReplacements(boundary) && Initial(State(jobs, ledger, nextId, []))
      ensures Valid() && Now() == State(jobs, ledger, nextId, []) && history == [Now()]
      ensures this.boundary == boundary
    {
      this.boundary := boundary;
      this.jobs, this.ledger, this.nextId := jobs, ledger, nextId;
      this.claims, this.history := [], [State(jobs, ledger, nextId, [])];
    }

    /** The statement just executed was `step`, taken in `before`. */
    ghost method Log(before: State, step: Step)
      requires AcceptsReplacements(boundary) && IsRun(boundary, history, false) && history[|history| - 1] == before
      requires Enabled(before, step) && !step.Report? && Now() == Apply(boundary, before, step)
      modifies `history
      ensures Valid() && history == old(history) + [Now()]
      ensures Transforms(boundary, before, step, Now())
    {
      RunIsSound(boundary, history, false, |history| - 1);
      StatementMeans(boundary, before, step);
      RunExtends(boundary, history, step);
      history := history + [Now()];
    }

    /** `claim_next_build_job`. */
    method ClaimNext() returns (claimed: Option<int>)
      requires Valid()
      modifies this
      ensures Valid() && old(history) <= history
      ensures claimed.None? ==> Now() == old(Now()) && forall i :: i in jobs ==> jobs[i].status != Queued
      ensures claimed.Some? ==> IsNextInLine(old(jobs), claimed.value)
      ensures claimed.Some? ==> Now() == Apply(boundary, old(Now()), Claim(claimed.value))
      ensures claimed.Some? ==> Transforms(boundary, old(Now()), Claim(claimed.value), Now())
    {
      claimed := OldestQueued(jobs);
      if claimed.Some? {
        var id := claimed.value;
        ghost var before := Now();
        jobs := jobs[id := ClaimedRow(jobs[id])];
        claims := claims + [id];
        ClaimIsStep(boundary, before, id);
        Log(before, Claim(id));
      }
    }

    /** `upsert_managed_build_job`: insert, or change only what the row's status still allows. */
    method UpsertManaged(m: string, identity: Identity, metadata: string, now: int)
      requires Valid()
      modifies this
      ensures Valid() && old(history) <= history
      ensures Now() == Apply(boundary, old(Now()), Upsert(m, identity, metadata, now))
      ensures Transforms(boundary, old(Now()), Upsert(m, identity, metadata, now), Now())
    {
      ghost var before, step := Now(), Upsert(m, identity, metadata, now);
      RunIsSound(boundary, history, false, |history| - 1);
      var row := FindManaged(jobs, m);
      if row.Some? {
        OneRowChanges(boundary, before, step, row.value);
        jobs := jobs[row.value := Redelivered(jobs[row.value], identity, metadata)];
      } else {
        RowIsInserted(boundary, before, step);
        jobs := jobs[nextId := Job(Some(m), identity, Queued, metadata, false, "queued", "", "", "", "", now)];
        nextId := nextId + 1;
      }
      Log(before, step);
    }

    /** `finish_build_job`: an error unless the status is terminal and the job exists. */
    method FinishJob(id: int, status: Status, logs: string, error: string, outputPath: string, metadata: string)
      returns (ok: bool)
      requires Valid()
      modifies this
      ensures Valid() && old(history) <= history
      ensures ok <==> status in {Succeeded, Failed, Cancelled} && id in jobs
      ensures !ok ==> Now() == old(Now())
      ensures ok ==> Now() == Apply(boundary, old(Now()), Finish(id, status, logs, error, outputPath, metadata))
      ensures ok ==> Transforms(boundary, old(Now()), Finish(id, status, logs, error, outputPath, metadata), Now())
    {
      ok := Terminal(status) && id in jobs;
      if ok {
        ghost var before, step := Now(), Finish(id, status, logs, error, outputPath, metadata);
        OneRowChanges(boundary, before, step, id);
        if id !in ledger {
          jobs := jobs[id := FinishedRow(jobs[id], status, logs, error, outputPath, metadata)];
        }
        Log(before, step);
      }
    }

    method CancelOne(id: int)
      requires Valid() && id in jobs
      modifies this
      ensures Valid() && old(history) <= history && Now() == CancelAll(old(Now()), {id})
    {
      ghost var before := Now();
      OneIsCancelled(boundary, before, id);
      jobs := jobs[id := CancelledRow(jobs[id])];
      Log(before, CancelRow(id));
    }

    /** One turn of the cancellation that started in `start`. */
    method CancelNext(id: int, ghost start: State, ghost done: set<int>)
      requires Valid() && Now() == CancelAll(start, done) && id in start.jobs && id !in done
      modifies this
      ensures Valid() && old(history) <= history && Now() == CancelAll(start, done + {id})
    {
      CancelOneMore(start, done, id);
      CancelOne(id);
    }

    /** `cancel_absent_managed_build_jobs`: one unguarded update for each job of the listing that is
        not retained.  */
    method CancelAbsent(retained: set<string>) returns (cancelled: nat)
      requires Valid()
      modifies this
      ensures Valid() && old(history) <= history
      ensures cancelled == |AbsentIds(old(jobs), retained)|
      ensures CancelsAbsent(old(jobs), jobs, retained) && Now() == old(Now()).(jobs := jobs)
    {
      ghost var start := Now();
      var absent := Absent(jobs, retained);
      var pending, done := absent, {};
      NoneCancelled(start);
      while pending != {}
        invariant IsSplit(absent, pending, done)
        invariant Valid() && old(history) <= history && Now() == CancelAll(start, done)
        decreases |pending|
      {
        var id := PickAny(pending);
        SplitMoves(absent, pending, done, id);
        CancelNext(id, start, done);
        pending, done := pending - {id}, done + {id};
      }
      SplitEnds(absent, done);
      AbsentMeans(start.jobs, retained);
      CancelledMeans(start, retained);
      cancelled := |done|;
    }

    method QuarantineOne(id: int)
      requires Valid() && id in jobs
      modifies this
      ensures Valid() && old(history) <= history && Now() == ScanAll(boundary, old(Now()), {id})
    {
      ghost var before := Now();
      OneIsScanned(boundary, before, id);
      if IsProtected(boundary, jobs[id]) && id !in ledger { ledger := ledger[id := PendingPurge]; }
      jobs := jobs[id := ScannedRow(boundary, jobs[id])];
      Log(before, Quarantine(id));
    }

    /** One turn of the quarantine pass that started in `start`: the count so far, or an error. */
    method ScanNext(id: int, count: nat, ghost start: State, ghost pending: set<int>, ghost done: set<int>)
      returns (next: Option<nat>)
      requires Valid() && Now() == ScanAll(boundary, start, done)
      requires Halfway(boundary, start.jobs, pending, done, count) && IsLeast(id, pending)
      modifies this
      ensures Valid() && old(history) <= history
      ensures next.None? ==> Now() == old(Now()) && done == Reached(boundary, start.jobs)
      ensures next.None? ==> !AllParse(boundary, start.jobs)
      ensures next.Some? ==> Halfway(boundary, start.jobs, pending - {id}, done + {id}, next.value)
      ensures next.Some? ==> Now() == ScanAll(boundary, start, done + {id})
    {
      OneFurther(boundary, start, pending, done, count, id);
      if !Parses(boundary, jobs[id]) { return None; }
      next := Some(if IsProtected(boundary, jobs[id]) then count + 1 else count);
      ScanOneMore(boundary, start, done, id);
      QuarantineOne(id);
    }

    /** The quarantine pass, over the rows in the order of their ids. */
    method ScanInOrder() returns (quarantined: Option<nat>)
      requires Valid()
      modifies this
      ensures Valid() && old(history) <= history
      ensures quarantined.Some? <==> AllParse(boundary, old(jobs))
      ensures quarantined.Some? ==> quarantined.value == |ProtectedIds(boundary, old(jobs))|
      ensures quarantined.Some? ==> forall i :: i in jobs ==> !IsRefusedBy(boundary, jobs[i])
      ensures Now() == ScanAll(boundary, old(Now()), Reached(boundary, old(jobs)))
    {
      ghost var start := Now();
      var pending, count := jobs.Keys, 0;
      ghost var done := {};
      NoneScanned(boundary, start);
      NoneReached(boundary, jobs);
      while pending != {}
        invariant Halfway(boundary, start.jobs, pending, done, count)
        invariant Valid() && old(history) <= history && Now() == ScanAll(boundary, start, done)
        decreases |pending|
      {
        var id := Least(pending);
        var next := ScanNext(id, count, start, pending, done);
        if next.None? { return None; }
        pending, done, count := pending - {id}, done + {id}, next.value;
      }
      AllReached(boundary, start, done, count);
      quarantined := Some(count);
    }

    /** `quarantine_protected_build_jobs`: an error unless every row parses, and then the number of
        rows that failed the boundary, of which none is left.  */
    method QuarantineProtected() returns (quarantined: Option<nat>)
      requires Valid()
      modifies this
      ensures Valid() && old(history) <= history
      ensures quarantined.Some? <==> EveryRowParses(boundary, old(jobs))
      ensures quarantined.Some? ==> quarantined.value == |RefusedIds(boundary, old(jobs))|
      ensures quarantined.Some? ==> forall i :: i in jobs ==> !IsRefusedBy(boundary, jobs[i])
      ensures ScansRows(boundary, old(Now()), jobs) && Enlists(boundary, old(Now()), ledger)
      ensures Now() == old(Now()).(jobs := jobs, ledger := ledger)
    {
      RowsScanned(boundary, Now());
      LedgerEnlists(boundary, Now());
      ProtectedMeans(boundary, jobs);
      ParsingMeans(boundary, jobs);
      quarantined := ScanInOrder();
    }

    /** `recover_running_build_jobs`. */
    method RecoverRunning(error: string)
      requires Valid()
      modifies this
      ensures Valid() && old(history) <= history
      ensures Now() == Apply(boundary, old(Now()), Recover(error))
      ensures Transforms(boundary, old(Now()), Recover(error), Now())
      ensures forall i :: i in jobs ==> jobs[i].status != Running
    {
      ghost var before := Now();
      RecoverIsStep(boundary, before, error);
      jobs := map i | i in jobs :: FailedRow(jobs[i], error);
      Log(before, Recover(error));
    }

    /** The ledger half of `complete_protected_build_job_cache_purge`: it takes effect once. */
    method MarkPurged(id: int) returns (ok: bool)
      requires Valid()
      modifies this
      ensures Valid() && old(history) <= history
      ensures ok <==> PurgeIsPending(old(Now()), id)
      ensures Now() == Apply(boundary, old(Now()), CompletePurge(id))
      ensures Transforms(boundary, old(Now()), CompletePurge(id), Now())
    {
      ghost var before := Now();
      RunIsSound(boundary, history, false, |history| - 1);
      ok := id in ledger && ledger[id] == PendingPurge;
      PurgeIsStep(boundary, before, id);
      if ok {
        jobs := jobs[id := jobs[id].(metadata := PURGED_METADATA)];
        ledger := ledger[id := Purged];
      }
      Log(before, CompletePurge(id));
    }
  }
}

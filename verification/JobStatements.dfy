/** The statements on the build-job table, column by column: what each leaves in every row and in the
    ledger.  */
module JobStatements {
  import opened Options
  import opened BuildJobs

  /** A managed id the statement is addressed to. */
  predicate Addressed(a: Job, m: string) {
    a.managedId.Some? && a.managedId.value == m
  }

  /** Queued, and among the queued rows created first, or at the same time with the least id. */
  ghost predicate IsNextInLine(jobs: Jobs, id: int) {
    && id in jobs && jobs[id].status == Queued
    && forall i :: i in jobs && jobs[i].status == Queued && i != id ==>
         jobs[id].createdAt < jobs[i].createdAt || (jobs[id].createdAt == jobs[i].createdAt && id < i)
  }

  predicate InProgress(a: Job) {
    a.status == Queued || a.status == Running
  }

  /** The columns a cancellation writes. */
  predicate CancelColumns(a: Job, z: Job) {
    && z == a.(status := z.status, stage := z.stage, cancelRequested := z.cancelRequested)
    && (a.status == Queued ==> z.status == Cancelled && z.stage == "cancelled")
    && (a.status != Queued ==> z.status == a.status && z.stage == "cancelling")
    && (a.status == Running ==> z.cancelRequested)
    && (a.status != Running ==> z.cancelRequested == a.cancelRequested)
  }

  /** The columns a failure of a running build writes; another row keeps all of its own. */
  predicate FailureColumns(a: Job, z: Job, error: string) {
    if a.status == Running then
      z == a.(status := z.status, stage := z.stage, error := z.error)
      && z.status == Failed && z.stage == "failed" && z.error == error
    else z == a
  }

  /** The columns the end of a build writes: a requested cancellation overrides every other outcome. */
  predicate FinishColumns(
      a: Job, z: Job, status: Status, logs: string, error: string, outputPath: string, metadata: string) {
    var overridden := a.cancelRequested && status != Cancelled;
    && z.managedId == a.managedId && z.identity == a.identity && z.cancelRequested == a.cancelRequested
    && z.rejection == a.rejection && z.createdAt == a.createdAt && z.logs == logs
    && z.status == (if overridden then Cancelled else status)
    && z.error == (if overridden then "build cancelled by Tiaris" else error)
    && z.outputPath == (if overridden then "" else outputPath)
    && z.metadata == (if overridden then CANCELLED_METADATA else metadata)
    && (z.stage == "succeeded" <==> z.status == Succeeded) && (z.stage == "cancelled" <==> z.status == Cancelled)
    && z.stage in {"succeeded", "cancelled", "failed"}
  }

  /** A spec or metadata the boundary refuses. */
  predicate IsRefusedBy(b: Boundary, job: Job) {
    b.refusesSpec(job.identity.spec) || b.refusesMetadata(job.metadata)
  }

  /** The columns the quarantine pass writes. */
  predicate QuarantineColumns(b: Boundary, a: Job, z: Job) {
    if IsRefusedBy(b, a) then
      && z.status == Failed && z.stage == "failed" && z.logs == "" && z.error == "Build quarantined"
      && z.identity == a.identity.(spec := SAFE_SPEC) && z.metadata == PENDING_METADATA
      && z == a.(identity := z.identity, metadata := z.metadata, status := z.status, stage := z.stage, logs := z.logs,
                 error := z.error)
    else
      z == a.(logs := z.logs, error := z.error) && z.logs == b.redact(a.logs) && z.error == b.redact(a.error)
  }

  /** A row of a managed job that is still going on and no longer wanted. */
  predicate IsAbsent(a: Job, retained: set<string>) {
    a.managedId.Some? && a.managedId.value !in retained && InProgress(a)
  }

  function AbsentIds(jobs: Jobs, retained: set<string>): set<int> {
    set i | i in jobs && IsAbsent(jobs[i], retained)
  }

  /** The table after the absent jobs were cancelled, row by row. */
  ghost predicate CancelsAbsent(before: Jobs, after: Jobs, retained: set<string>) {
    && after.Keys == before.Keys
    && (forall i :: i in before ==>
          if IsAbsent(before[i], retained) then CancelColumns(before[i], after[i]) else after[i] == before[i])
  }

  function RefusedIds(b: Boundary, jobs: Jobs): set<int> {
    set i | i in jobs && IsRefusedBy(b, jobs[i])
  }

  predicate BothParse(b: Boundary, job: Job) {
    b.parses(job.identity.spec) && b.parses(job.metadata)
  }

  predicate EveryRowParses(b: Boundary, jobs: Jobs) {
    forall i :: i in jobs ==> BothParse(b, jobs[i])
  }

  /** No row up to this id stops the pass. */
  ghost predicate IsScanned(b: Boundary, jobs: Jobs, i: int) {
    i in jobs && forall j :: j in jobs && j <= i ==> BothParse(b, jobs[j])
  }

  /** The table after a quarantine pass, row by row. */
  ghost predicate ScansRows(b: Boundary, s: State, jobs: Jobs) {
    && jobs.Keys == s.jobs.Keys
    && (forall i :: i in s.jobs ==>
          if IsScanned(b, s.jobs, i) then QuarantineColumns(b, s.jobs[i], jobs[i]) else jobs[i] == s.jobs[i])
  }

  /** The ledger after a quarantine pass. */
  ghost predicate Enlists(b: Boundary, s: State, ledger: Ledger) {
    && (forall i :: i in ledger <==> i in s.ledger || (IsScanned(b, s.jobs, i) && IsRefusedBy(b, s.jobs[i])))
    && (forall i :: i in ledger ==> ledger[i] == if i in s.ledger then s.ledger[i] else PendingPurge)
  }

  /** What the step leaves of row `i`, which was `a`. */
  predicate Leaves(b: Boundary, ledger: Ledger, step: Step, i: int, a: Job, z: Job) {
    match step
    case Upsert(m, identity, metadata, _) =>
      && z == a.(identity := z.identity, stage := z.stage, metadata := z.metadata)
      && (z.identity, z.stage) == (if Addressed(a, m) && a.status == Queued then (identity, "queued")
                                   else (a.identity, a.stage))
      && z.metadata == (if Addressed(a, m) && InProgress(a) then metadata else a.metadata)
    case Reject(m, _, error, code, _) =>
      if Addressed(a, m) && a.status == Queued then
        && z == a.(status := z.status, stage := z.stage, error := z.error, rejection := z.rejection)
        && z.status == Failed && z.stage == "failed" && z.error == error && z.rejection == code
      else z == a
    case CancelManaged(m) => if Addressed(a, m) && InProgress(a) then CancelColumns(a, z) else z == a
    case CancelRow(id) => if i == id then CancelColumns(a, z) else z == a
    case Claim(id) =>
      if i == id then
        && z == a.(status := z.status, stage := z.stage, cancelRequested := z.cancelRequested, logs := z.logs,
                   error := z.error)
        && z.status == Running && z.stage == "claimed" && !z.cancelRequested && z.logs == "" && z.error == ""
      else z == a
    case WriteLogs(id, logs) =>
      z == a.(logs := z.logs) && z.logs == (if i == id && a.status == Running then logs else a.logs)
    case WriteProgress(id, stage) =>
      z == a.(stage := z.stage) && z.stage == (if i == id && a.status == Running then stage else a.stage)
    case Finish(id, status, logs, error, path, metadata) =>
      if i == id && i !in ledger then FinishColumns(a, z, status, logs, error, path, metadata) else z == a
    case FailAfterError(id, error) => if i == id then FailureColumns(a, z, error) else z == a
    case Recover(error) => FailureColumns(a, z, error)
    case Report(m, status, stage, logs, error, path, metadata) =>
      if Addressed(a, m) && i !in ledger then
        && z == a.(status := z.status, stage := z.stage, logs := z.logs, error := z.error, outputPath := z.outputPath,
                   metadata := z.metadata)
        && z.status == status && z.stage == stage && z.logs == logs && z.error == error && z.outputPath == path
        && z.metadata == metadata
      else z == a
    case Quarantine(id) => if i == id then QuarantineColumns(b, a, z) else z == a
    case CompletePurge(id) =>
      z == a.(metadata := z.metadata)
      && z.metadata == (if i == id && i in ledger && ledger[i] == PendingPurge then PURGED_METADATA else a.metadata)
    case Create(_, _, _) => z == a
  }

  /** A new row as the two inserting deliveries and the local request write it. */
  predicate IsNew(job: Job, managedId: Option<string>, identity: Identity, metadata: string, now: int) {
    && job.managedId == managedId && job.identity == identity && job.metadata == metadata && job.createdAt == now
    && job.status == Queued && job.stage == "queued" && !job.cancelRequested
    && job.logs == "" && job.error == "" && job.outputPath == "" && job.rejection == ""
  }

  predicate IsRefused(job: Job, m: string, identity: Identity, error: string, code: string, now: int) {
    && job.managedId == Some(m) && job.identity == identity.(spec := EMPTY_OBJECT) && job.metadata == EMPTY_OBJECT
    && job.status == Failed && job.stage == "failed" && !job.cancelRequested && job.createdAt == now
    && job.logs == "" && job.error == error && job.outputPath == "" && job.rejection == code
  }

  /** No row has this managed id yet. */
  predicate IsFirst(s: State, m: string) {
    forall i :: i in s.jobs ==> s.jobs[i].managedId != Some(m)
  }

  /** The step inserts this row. */
  predicate Adds(s: State, step: Step, job: Job) {
    match step
    case Create(identity, metadata, now) => IsNew(job, None, identity, metadata, now)
    case Upsert(m, identity, metadata, now) => IsFirst(s, m) && IsNew(job, Some(m), identity, metadata, now)
    case Reject(m, identity, error, code, now) => IsFirst(s, m) && IsRefused(job, m, identity, error, code, now)
    case _ => false
  }

  predicate AddsNothing(s: State, step: Step) {
    match step
    case Create(_, _, _) => false
    case Upsert(m, _, _, _) => !IsFirst(s, m)
    case Reject(m, _, _, _, _) => !IsFirst(s, m)
    case _ => true
  }

  /** The ledger gains a refused row as pending, and turns a pending one to purged, once. */
  ghost predicate LedgerMoves(b: Boundary, s: State, step: Step, ledger: Ledger) {
    && (forall i :: i in ledger <==>
          i in s.ledger || (step == Quarantine(i) && i in s.jobs && IsRefusedBy(b, s.jobs[i])))
    && (forall i :: i in ledger && i !in s.ledger ==> ledger[i] == PendingPurge)
    && (forall i :: i in s.ledger ==>
          ledger[i] == if step == CompletePurge(i) && s.ledger[i] == PendingPurge then Purged else s.ledger[i])
  }

  /** Every row, and the row inserted. */
  ghost predicate RowsMove(b: Boundary, s: State, step: Step, t: State) {
    && (forall i :: i in s.jobs ==> i in t.jobs && Leaves(b, s.ledger, step, i, s.jobs[i], t.jobs[i]))
    && (if AddsNothing(s, step) then t.jobs.Keys == s.jobs.Keys && t.nextId == s.nextId
        else && t.jobs.Keys == s.jobs.Keys + {s.nextId} && t.nextId == s.nextId + 1
             && Adds(s, step, t.jobs[s.nextId]))
  }

  /** The state after one step: every column of every row, the ledger and the history of claims. */
  ghost predicate Transforms(b: Boundary, s: State, step: Step, t: State) {
    && RowsMove(b, s, step, t) && LedgerMoves(b, s, step, t.ledger)
    && t.claims == if step.Claim? then s.claims + [step.id] else s.claims
  }

  lemma RowMeans(b: Boundary, s: State, step: Step, i: int)
    requires i in s.jobs && (step.Finish? ==> Terminal(step.status))
    ensures Leaves(b, s.ledger, step, i, s.jobs[i], RowAfter(b, s, step, i, s.jobs[i]))
  {
  }

  lemma LedgerMeans(b: Boundary, s: State, step: Step)
    ensures LedgerMoves(b, s, step, LedgerAfter(b, s, step))
  {
  }

  lemma InsertMeans(s: State, step: Step)
    ensures AddsNothing(s, step) <==> Inserted(s, step).None?
    ensures Inserted(s, step).Some? ==> Adds(s, step, Inserted(s, step).value)
  {
  }

  lemma OldRowMeans(b: Boundary, s: State, step: Step, i: int)
    requires Enabled(s, step) && i in s.jobs && i < s.nextId
    ensures i in Apply(b, s, step).jobs && Leaves(b, s.ledger, step, i, s.jobs[i], Apply(b, s, step).jobs[i])
  {
    RowsPersist(b, s, step, i);
    RowMeans(b, s, step, i);
  }

  lemma NewRowMeans(b: Boundary, s: State, step: Step)
    ensures var t := Apply(b, s, step);
            if AddsNothing(s, step) then t.jobs.Keys == s.jobs.Keys && t.nextId == s.nextId
            else && t.jobs.Keys == s.jobs.Keys + {s.nextId} && t.nextId == s.nextId + 1
                 && Adds(s, step, t.jobs[s.nextId])
  {
    InsertMeans(s, step);
  }

  lemma RowsMean(b: Boundary, s: State, step: Step)
    requires Enabled(s, step) && forall i :: i in s.jobs ==> i < s.nextId
    ensures RowsMove(b, s, step, Apply(b, s, step))
  {
    NewRowMeans(b, s, step);
    forall i | i in s.jobs
      ensures i in Apply(b, s, step).jobs && Leaves(b, s.ledger, step, i, s.jobs[i], Apply(b, s, step).jobs[i])
    {
      OldRowMeans(b, s, step, i);
    }
  }

  /** Each step is its statement, column by column. */
  lemma StatementMeans(b: Boundary, s: State, step: Step)
    requires Enabled(s, step) && forall i :: i in s.jobs ==> i < s.nextId
    ensures Transforms(b, s, step, Apply(b, s, step))
  {
    RowsMean(b, s, step);
    LedgerMeans(b, s, step);
  }
}

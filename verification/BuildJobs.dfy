/** The build-job table as a state machine: each SQL statement is one atomic step on its rows, and
    the guards in its WHERE and CASE clauses are what every run relies on.  */
module BuildJobs {
  import opened Options

  datatype Status = Queued | Running | Succeeded | Failed | Cancelled

  /** What a worker builds. */
  datatype Identity = Identity(
    artifactType: string, spec: string, target: string, system: string, revision: string, configHash: string)

  datatype Job = Job(
    managedId: Option<string>, identity: Identity, status: Status, metadata: string, cancelRequested: bool,
    stage: string, logs: string, error: string, outputPath: string, rejection: string, createdAt: int)

  datatype PurgeStatus = PendingPurge | Purged

  type Jobs = map<int, Job>
  type Ledger = map<int, PurgeStatus>

  /** `claims` is the history of claims. */
  datatype State = State(jobs: Jobs, ledger: Ledger, nextId: int, claims: seq<int>)

  /** The JSON parser, the protected-material validators and the redaction of key-value pairs, as far
      as quarantine needs them.  */
  datatype Boundary = Boundary(
    parses: string -> bool, refusesSpec: string -> bool, refusesMetadata: string -> bool, redact: string -> string)

  const SAFE_SPEC: string := "security_quarantine"
  const PENDING_METADATA: string := "pending_purge"
  const PURGED_METADATA: string := "purged"
  const EMPTY_OBJECT: string := "{}"
  const CANCELLED_METADATA: string := "cancelled"

  /** The replacements a quarantine writes pass the boundary themselves. */
  ghost predicate AcceptsReplacements(b: Boundary) {
    !b.refusesSpec(SAFE_SPEC) && !b.refusesMetadata(PENDING_METADATA) && !b.refusesMetadata(PURGED_METADATA)
  }

  datatype Step =
    | Create(identity: Identity, metadata: string, now: int)
    | Upsert(managedId: string, identity: Identity, metadata: string, now: int)
    | Reject(managedId: string, identity: Identity, error: string, code: string, now: int)
    | CancelManaged(managedId: string)
    | CancelRow(id: int)
    | Claim(id: int)
    | WriteLogs(id: int, logs: string)
    | WriteProgress(id: int, stage: string)
    | Finish(id: int, status: Status, logs: string, error: string, outputPath: string, metadata: string)
    | FailAfterError(id: int, error: string)
    | Recover(error: string)
    | Report(managedId: string, status: Status, stage: string, logs: string, error: string, outputPath: string,
             metadata: string)
    | Quarantine(id: int)
    | CompletePurge(id: int)

  // ---- the statements, row by row ----

  /** The columns a re-delivered job may still change: identity while queued, metadata until done. */
  function Redelivered(job: Job, identity: Identity, metadata: string): Job {
    var j := if job.status == Queued then job.(identity := identity, stage := "queued") else job;
    if job.status in {Queued, Running} then j.(metadata := metadata) else j
  }

  function Rejected(job: Job, error: string, code: string): Job {
    if job.status == Queued then job.(status := Failed, stage := "failed", error := error, rejection := code) else job
  }

  /** The cancelling CASE expressions, without a guard on the row. */
  function CancelledRow(job: Job): Job {
    job.(status := if job.status == Queued then Cancelled else job.status,
         stage := if job.status == Queued then "cancelled" else "cancelling",
         cancelRequested := job.cancelRequested || job.status == Running)
  }

  function ClaimedRow(job: Job): Job {
    job.(status := Running, stage := "claimed", cancelRequested := false, logs := "", error := "")
  }

  function FailedRow(job: Job, error: string): Job {
    if job.status == Running then job.(status := Failed, stage := "failed", error := error) else job
  }

  function StageOf(status: Status): string {
    match status case Succeeded => "succeeded" case Cancelled => "cancelled" case _ => "failed"
  }

  /** A pending cancellation overrides the outcome a worker reports. */
  function FinishedRow(job: Job, status: Status, logs: string, error: string, outputPath: string,
                       metadata: string): Job
  {
    if job.cancelRequested && status != Cancelled then
      job.(status := Cancelled, stage := "cancelled", logs := logs, error := "build cancelled by Tiaris",
           outputPath := "", metadata := CANCELLED_METADATA)
    else
      job.(status := status, stage := StageOf(status), logs := logs, error := error, outputPath := outputPath,
           metadata := metadata)
  }

  function QuarantinedRow(job: Job): Job {
    job.(identity := job.identity.(spec := SAFE_SPEC), metadata := PENDING_METADATA, status := Failed,
         stage := "failed", logs := "", error := "Build quarantined")
  }

  predicate IsProtected(b: Boundary, job: Job) {
    b.refusesSpec(job.identity.spec) || b.refusesMetadata(job.metadata)
  }

  predicate Parses(b: Boundary, job: Job) {
    b.parses(job.identity.spec) && b.parses(job.metadata)
  }

  /** What the quarantine pass makes of a row: scrubbed, or kept with its texts redacted. */
  function ScannedRow(b: Boundary, job: Job): Job {
    if IsProtected(b, job) then QuarantinedRow(job)
    else job.(logs := b.redact(job.logs), error := b.redact(job.error))
  }

  predicate ByManagedId(job: Job, managedId: string) {
    job.managedId == Some(managedId)
  }

  predicate PurgeIsPending(s: State, id: int) {
    id in s.ledger && s.ledger[id] == PendingPurge
  }

  function RowAfter(b: Boundary, s: State, step: Step, i: int, job: Job): Job {
    match step
    case Create(_, _, _) => job
    case Upsert(m, identity, metadata, _) => if ByManagedId(job, m) then Redelivered(job, identity, metadata) else job
    case Reject(m, _, error, code, _) => if ByManagedId(job, m) then Rejected(job, error, code) else job
    case CancelManaged(m) => if ByManagedId(job, m) && job.status in {Queued, Running} then CancelledRow(job) else job
    case CancelRow(id) => if i == id then CancelledRow(job) else job
    case Claim(id) => if i == id then ClaimedRow(job) else job
    case WriteLogs(id, logs) => if i == id && job.status == Running then job.(logs := logs) else job
    case WriteProgress(id, stage) => if i == id && job.status == Running then job.(stage := stage) else job
    case Finish(id, status, logs, error, path, metadata) =>
      if i == id && i !in s.ledger then FinishedRow(job, status, logs, error, path, metadata) else job
    case FailAfterError(id, error) => if i == id then FailedRow(job, error) else job
    case Recover(error) => FailedRow(job, error)
    case Report(m, status, stage, logs, error, path, metadata) =>
      if ByManagedId(job, m) && i !in s.ledger
      then job.(status := status, stage := stage, logs := logs, error := error, outputPath := path,
                metadata := metadata)
      else job
    case Quarantine(id) => if i == id then ScannedRow(b, job) else job
    case CompletePurge(id) => if i == id && PurgeIsPending(s, id) then job.(metadata := PURGED_METADATA) else job
  }

  predicate Delivered(jobs: Jobs, managedId: string) {
    exists i :: i in jobs && ByManagedId(jobs[i], managedId)
  }

  /** The row a step inserts, if any. */
  function Inserted(s: State, step: Step): Option<Job> {
    match step
    case Create(identity, metadata, now) =>
      Some(Job(None, identity, Queued, metadata, false, "queued", "", "", "", "", now))
    case Upsert(m, identity, metadata, now) =>
      if Delivered(s.jobs, m) then None
      else Some(Job(Some(m), identity, Queued, metadata, false, "queued", "", "", "", "", now))
    case Reject(m, identity, error, code, now) =>
      if Delivered(s.jobs, m) then None
      else Some(Job(Some(m), identity.(spec := EMPTY_OBJECT), Failed, EMPTY_OBJECT, false, "failed", "", error, "",
                    code, now))
    case _ => None
  }

  function LedgerAfter(b: Boundary, s: State, step: Step): Ledger {
    match step
    case Quarantine(id) =>
      if id in s.jobs && IsProtected(b, s.jobs[id]) && id !in s.ledger then s.ledger[id := PendingPurge] else s.ledger
    case CompletePurge(id) => if PurgeIsPending(s, id) then s.ledger[id := Purged] else s.ledger
    case _ => s.ledger
  }

  function JobsAfter(b: Boundary, s: State, step: Step): Jobs {
    (map i | i in s.jobs :: RowAfter(b, s, step, i, s.jobs[i]))
    + (match Inserted(s, step) case None => map[] case Some(job) => map[s.nextId := job])
  }

  function Apply(b: Boundary, s: State, step: Step): State {
    State(
      JobsAfter(b, s, step),
      LedgerAfter(b, s, step),
      if Inserted(s, step).Some? then s.nextId + 1 else s.nextId,
      if step.Claim? then s.claims + [step.id] else s.claims)
  }

  predicate OlderJob(jobs: Jobs, a: int, b: int)
    requires a in jobs && b in jobs
  {
    jobs[a].createdAt < jobs[b].createdAt || (jobs[a].createdAt == jobs[b].createdAt && a <= b)
  }

  predicate IsOldestQueued(jobs: Jobs, id: int) {
    && id in jobs && jobs[id].status == Queued
    && forall i :: i in jobs && jobs[i].status == Queued ==> OlderJob(jobs, id, i)
  }

  predicate Terminal(status: Status) {
    status in {Succeeded, Failed, Cancelled}
  }

  /** A claim takes the oldest queued row, and a job ends in a terminal status. */
  predicate Enabled(s: State, step: Step) {
    match step
    case Claim(id) => IsOldestQueued(s.jobs, id)
    case Finish(_, status, _, _, _, _) => Terminal(status)
    case _ => true
  }

  ghost predicate Takes(b: Boundary, s: State, step: Step, t: State) {
    Enabled(s, step) && t == Apply(b, s, step)
  }

  ghost predicate Next(b: Boundary, s: State, t: State, reports: bool) {
    exists step :: Takes(b, s, step, t) && (step.Report? ==> reports)
  }

  lemma StepOf(b: Boundary, s: State, t: State, reports: bool) returns (step: Step)
    requires Next(b, s, t, reports)
    ensures Enabled(s, step) && t == Apply(b, s, step) && (step.Report? ==> reports)
  {
    step :| Takes(b, s, step, t) && (step.Report? ==> reports);
  }

  // ---- what holds in every reachable state ----

  ghost predicate Frozen(s: State, id: int) {
    id in s.ledger ==>
      && id in s.jobs
      && s.jobs[id].status == Failed
      && s.jobs[id].identity.spec == SAFE_SPEC
      && s.jobs[id].metadata == (if s.ledger[id] == PendingPurge then PENDING_METADATA else PURGED_METADATA)
  }

  ghost predicate ManagedIdsAreUnique(jobs: Jobs) {
    forall i, j :: i in jobs && j in jobs && jobs[i].managedId.Some? && jobs[i].managedId == jobs[j].managedId ==>
      i == j
  }

  ghost predicate Sound(s: State) {
    && (forall id :: id in s.jobs ==> id < s.nextId)
    && ManagedIdsAreUnique(s.jobs)
    && (forall id :: Frozen(s, id))
  }

  /** A table found at startup, before any worker runs. */
  ghost predicate Initial(s: State) {
    Sound(s) && s.claims == []
  }

  /** Every claimed row was claimed once and has left the queue; a cancelled build never succeeded. */
  ghost predicate Orderly(s: State) {
    && (forall id :: id in s.claims ==> id in s.jobs && s.jobs[id].status != Queued)
    && (forall i, j :: 0 <= i < j < |s.claims| ==> s.claims[i] != s.claims[j])
  }

  lemma RowsPersist(b: Boundary, s: State, step: Step, id: int)
    requires id in s.jobs && id < s.nextId
    ensures id in Apply(b, s, step).jobs && Apply(b, s, step).jobs[id] == RowAfter(b, s, step, id, s.jobs[id])
  {
  }

  lemma RowIsFrozen(b: Boundary, s: State, step: Step, id: int)
    requires AcceptsReplacements(b) && id in s.ledger && Frozen(s, id) && Enabled(s, step)
    ensures var ledger, row := LedgerAfter(b, s, step), RowAfter(b, s, step, id, s.jobs[id]);
            && id in ledger && (s.ledger[id] == Purged ==> ledger[id] == Purged)
            && row.status == Failed && row.identity.spec == SAFE_SPEC
            && row.metadata == (if ledger[id] == PendingPurge then PENDING_METADATA else PURGED_METADATA)
  {
  }

  /** Cancellation was requested of a build that had started and has not succeeded. */
  predicate CancelPending(job: Job) {
    job.cancelRequested && job.status !in {Queued, Succeeded}
  }

  /** What one step may do to one row. */
  ghost predicate RowEvolves(a: Job, z: Job, quarantined: bool) {
    && z.managedId == a.managedId && z.createdAt == a.createdAt
    && (z.status == Queued ==> a.status == Queued)
    && (a.status != Queued ==>
          z.identity == a.identity || (quarantined && z.identity == a.identity.(spec := SAFE_SPEC)))
    && (CancelPending(a) ==> CancelPending(z))
  }

  lemma StepEvolvesRow(b: Boundary, s: State, step: Step, id: int)
    requires id in s.jobs && Enabled(s, step) && !step.Report?
    ensures RowEvolves(s.jobs[id], RowAfter(b, s, step, id, s.jobs[id]), id in LedgerAfter(b, s, step))
  {
  }
}

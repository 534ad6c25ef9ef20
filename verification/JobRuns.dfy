/** Safety of the build-job table over whole runs: quarantined jobs are frozen, and each job is
    claimed at most once, in order, and honours its cancellation.  */
module JobRuns {
  import opened BuildJobs

  type History = seq<State>

  ghost predicate IsRun(b: Boundary, h: History, reports: bool) {
    && h != [] && Initial(h[0])
    && forall i :: 0 <= i < |h| - 1 ==> Next(b, h[i], h[i + 1], reports)
  }

  // ---- every state of a run is sound ----

  /** A row keeps its managed id, and an inserted row brings one no other row has. */
  lemma KeepsManagedId(b: Boundary, s: State, step: Step, i: int)
    requires i in JobsAfter(b, s, step) && forall id :: id in s.jobs ==> id < s.nextId
    ensures i in s.jobs ==> JobsAfter(b, s, step)[i].managedId == s.jobs[i].managedId
    ensures i !in s.jobs ==> i == s.nextId
    ensures i !in s.jobs && JobsAfter(b, s, step)[i].managedId.Some? ==>
              !Delivered(s.jobs, JobsAfter(b, s, step)[i].managedId.value)
  {
    if i in s.jobs { RowsPersist(b, s, step, i); }
  }

  lemma StepKeepsManagedIds(b: Boundary, s: State, step: Step)
    requires ManagedIdsAreUnique(s.jobs) && forall id :: id in s.jobs ==> id < s.nextId
    ensures ManagedIdsAreUnique(JobsAfter(b, s, step))
  {
    forall i, j | i in JobsAfter(b, s, step) && j in JobsAfter(b, s, step)
                  && JobsAfter(b, s, step)[i].managedId.Some?
                  && JobsAfter(b, s, step)[i].managedId == JobsAfter(b, s, step)[j].managedId
      ensures i == j
    {
      KeepsManagedId(b, s, step, i);
      KeepsManagedId(b, s, step, j);
    }
  }

  lemma StepFreezes(b: Boundary, s: State, step: Step, id: int)
    requires AcceptsReplacements(b) && Sound(s) && Enabled(s, step)
    ensures Frozen(Apply(b, s, step), id)
    ensures id in s.ledger ==> id in Apply(b, s, step).ledger
    ensures id in s.ledger && s.ledger[id] == Purged ==> Apply(b, s, step).ledger[id] == Purged
  {
    assert Frozen(s, id);
    if id in s.jobs { RowsPersist(b, s, step, id); }
    if id in s.ledger { RowIsFrozen(b, s, step, id); }
  }

  lemma StepIsSound(b: Boundary, s: State, step: Step)
    requires AcceptsReplacements(b) && Sound(s) && Enabled(s, step)
    ensures Sound(Apply(b, s, step))
  {
    StepKeepsManagedIds(b, s, step);
    forall id ensures Frozen(Apply(b, s, step), id) { StepFreezes(b, s, step, id); }
  }

  lemma {:induction false} RunIsSound(b: Boundary, h: History, reports: bool, k: nat)
    requires AcceptsReplacements(b) && IsRun(b, h, reports) && k < |h|
    ensures Sound(h[k])
  {
    if k == 0 {
    } else {
      RunIsSound(b, h, reports, k - 1);
      var step := StepOf(b, h[k - 1], h[k], reports);
      StepIsSound(b, h[k - 1], step);
    }
  }

  lemma LedgerGrows(b: Boundary, h: History, reports: bool, k: nat, id: int)
    requires AcceptsReplacements(b) && IsRun(b, h, reports) && k < |h| - 1 && id in h[k].ledger
    ensures id in h[k + 1].ledger && (h[k].ledger[id] == Purged ==> h[k + 1].ledger[id] == Purged)
  {
    RunIsSound(b, h, reports, k);
    var step := StepOf(b, h[k], h[k + 1], reports);
    StepFreezes(b, h[k], step, id);
  }

  lemma {:induction false} StaysInLedger(b: Boundary, h: History, reports: bool, i: nat, k: nat, id: int)
    requires AcceptsReplacements(b) && IsRun(b, h, reports) && i <= k < |h| && id in h[i].ledger
    ensures id in h[k].ledger && (h[i].ledger[id] == Purged ==> h[k].ledger[id] == Purged)
    decreases k
  {
    if i == k {
    } else {
      StaysInLedger(b, h, reports, i, k - 1, id);
      LedgerGrows(b, h, reports, k - 1, id);
    }
  }

  /** Quarantined jobs are frozen: from the moment a job is in the ledger it stays there, failed, with
      its specification scrubbed, and its metadata only moves from pending to purged. Reports are
      among the steps.  */
  lemma QuarantinedIsFrozen(b: Boundary, h: History, reports: bool, i: nat, k: nat, id: int)
    requires AcceptsReplacements(b) && IsRun(b, h, reports) && i <= k < |h| && id in h[i].ledger
    ensures id in h[k].ledger && id in h[k].jobs
    ensures h[k].jobs[id].status == Failed && h[k].jobs[id].identity.spec == SAFE_SPEC
    ensures h[k].jobs[id].metadata == (if h[k].ledger[id] == PendingPurge then PENDING_METADATA else PURGED_METADATA)
    ensures h[i].ledger[id] == Purged ==> h[k].ledger[id] == Purged
  {
    StaysInLedger(b, h, reports, i, k, id);
    RunIsSound(b, h, reports, k);
    assert Frozen(h[k], id);
  }

  // ---- lifecycle, over runs without reports ----

  /** What a later state says about a row of an earlier one. */
  ghost predicate RowLater(s: State, t: State, id: int)
    requires s.claims <= t.claims
  {
    id in s.jobs ==>
      && id in t.jobs
      && RowEvolves(s.jobs[id], t.jobs[id], id in t.ledger)
      && (s.jobs[id].status != Queued ==> id !in t.claims[|s.claims|..])
  }

  ghost predicate Later(s: State, t: State) {
    && s.claims <= t.claims
    && s.ledger.Keys <= t.ledger.Keys
    && forall id :: RowLater(s, t, id)
  }

  lemma StepIsLater(b: Boundary, s: State, step: Step)
    requires AcceptsReplacements(b) && Sound(s) && Enabled(s, step) && !step.Report?
    ensures Later(s, Apply(b, s, step))
  {
    var t := Apply(b, s, step);
    forall id ensures RowLater(s, t, id) {
      if id in s.jobs {
        RowsPersist(b, s, step, id);
        StepEvolvesRow(b, s, step, id);
      }
    }
  }

  lemma LaterIsTransitive(s: State, t: State, u: State)
    requires Later(s, t) && Later(t, u)
    ensures Later(s, u)
  {
    forall id ensures RowLater(s, u, id) {
      assert RowLater(s, t, id) && RowLater(t, u, id);
      if id in s.jobs { assert u.claims[|s.claims|..] == t.claims[|s.claims|..] + u.claims[|t.claims|..]; }
    }
  }

  lemma {:induction false} RunGoesForward(b: Boundary, h: History, i: nat, k: nat)
    requires AcceptsReplacements(b) && IsRun(b, h, false) && i <= k < |h|
    ensures Later(h[i], h[k])
    decreases k
  {
    if i == k {
    } else {
      RunGoesForward(b, h, i, k - 1);
      RunIsSound(b, h, false, k - 1);
      var step := StepOf(b, h[k - 1], h[k], false);
      StepIsLater(b, h[k - 1], step);
      LaterIsTransitive(h[i], h[k - 1], h[k]);
    }
  }

  lemma StepIsOrderly(b: Boundary, s: State, step: Step)
    requires Orderly(s) && Sound(s) && Enabled(s, step) && Later(s, Apply(b, s, step))
    ensures Orderly(Apply(b, s, step))
  {
    var t := Apply(b, s, step);
    forall id | id in t.claims ensures id in t.jobs && t.jobs[id].status != Queued {
      assert RowLater(s, t, id);
      if step == Claim(id) { RowsPersist(b, s, step, id); }
    }
  }

  lemma OrderlyNext(b: Boundary, h: History, k: nat)
    requires AcceptsReplacements(b) && IsRun(b, h, false) && k < |h| - 1 && Orderly(h[k])
    ensures Orderly(h[k + 1])
  {
    RunIsSound(b, h, false, k);
    var step := StepOf(b, h[k], h[k + 1], false);
    StepIsLater(b, h[k], step);
    StepIsOrderly(b, h[k], step);
  }

  lemma {:induction false} RunIsOrderly(b: Boundary, h: History, k: nat)
    requires AcceptsReplacements(b) && IsRun(b, h, false) && k < |h|
    ensures Orderly(h[k])
  {
    if k == 0 {
    } else {
      RunIsOrderly(b, h, k - 1);
      OrderlyNext(b, h, k - 1);
    }
  }

  /** Each job is claimed at most once. */
  lemma ClaimedAtMostOnce(b: Boundary, h: History, k: nat, m: nat, n: nat)
    requires AcceptsReplacements(b) && IsRun(b, h, false) && k < |h| && m < n < |h[k].claims|
    ensures h[k].claims[m] != h[k].claims[n]
  {
    RunIsOrderly(b, h, k);
  }

  /** Claim `n` of `claims` was made in `s`, and took the oldest job that was queued there. */
  ghost predicate TookOldest(s: State, claims: seq<int>, n: nat) {
    n < |claims| && s.claims == claims[..n] && IsOldestQueued(s.jobs, claims[n])
  }

  lemma StillTookOldest(s: State, claims: seq<int>, later: seq<int>, n: nat)
    requires TookOldest(s, claims, n) && claims <= later
    ensures TookOldest(s, later, n)
  {
    assert later[..n] == claims[..n];
  }

  /** At most one claim was added, of the oldest queued job. */
  ghost predicate ClaimsAtMostOne(s: State, t: State) {
    || t.claims == s.claims
    || (|t.claims| == |s.claims| + 1 && s.claims <= t.claims && TookOldest(s, t.claims, |s.claims|))
  }

  lemma StepClaims(b: Boundary, s: State, t: State)
    requires Next(b, s, t, false)
    ensures ClaimsAtMostOne(s, t)
  {
  }

  ghost predicate ClaimsOneByOne(h: History) {
    && h != [] && h[0].claims == []
    && forall i :: 0 <= i < |h| - 1 ==> ClaimsAtMostOne(h[i], h[i + 1])
  }

  lemma RunClaimsOneByOne(b: Boundary, h: History)
    requires IsRun(b, h, false)
    ensures ClaimsOneByOne(h)
  {
    forall i | 0 <= i < |h| - 1 ensures ClaimsAtMostOne(h[i], h[i + 1]) { StepClaims(b, h[i], h[i + 1]); }
  }

  lemma {:induction false} FindClaim(h: History, k: nat, n: nat) returns (i: nat)
    requires ClaimsOneByOne(h) && k < |h| && n < |h[k].claims|
    ensures i < k && TookOldest(h[i], h[k].claims, n)
  {
    assert ClaimsAtMostOne(h[k - 1], h[k - 1 + 1]);
    if n < |h[k - 1].claims| {
      i := FindClaim(h, k - 1, n);
      StillTookOldest(h[i], h[k - 1].claims, h[k].claims, n);
    } else {
      i := k - 1;
    }
  }

  /** Every claim took the oldest job that was queued at that moment. */
  lemma ClaimsTakeTheOldest(b: Boundary, h: History, k: nat, n: nat) returns (i: nat)
    requires IsRun(b, h, false) && k < |h| && n < |h[k].claims|
    ensures i < k && TookOldest(h[i], h[k].claims, n)
  {
    RunClaimsOneByOne(b, h);
    i := FindClaim(h, k, n);
  }

  /** Once a job has left the queue without being claimed (cancelled, rejected or quarantined), it is
      never claimed.  */
  lemma NeverClaimedAfterLeaving(b: Boundary, h: History, i: nat, k: nat, id: int)
    requires AcceptsReplacements(b) && IsRun(b, h, false) && i <= k < |h|
    requires id in h[i].jobs && h[i].jobs[id].status != Queued && id !in h[i].claims
    ensures id !in h[k].claims
  {
    RunGoesForward(b, h, i, k);
    assert RowLater(h[i], h[k], id);
    assert h[k].claims == h[i].claims + h[k].claims[|h[i].claims|..];
  }

  /** The identity of a claimed job never changes, except that quarantine scrubs its specification. */
  lemma IdentityIsFixedByClaim(b: Boundary, h: History, i: nat, k: nat, id: int)
    requires AcceptsReplacements(b) && IsRun(b, h, false) && i <= k < |h| && id in h[i].claims
    ensures id in h[i].jobs && id in h[k].jobs
    ensures h[k].jobs[id].identity == h[i].jobs[id].identity
            || (id in h[k].ledger && h[k].jobs[id].identity == h[i].jobs[id].identity.(spec := SAFE_SPEC))
  {
    RunIsOrderly(b, h, i);
    RunGoesForward(b, h, i, k);
    assert RowLater(h[i], h[k], id);
  }

  /** A build whose cancellation was requested while it ran never ends succeeded. */
  lemma CancelledNeverSucceeds(b: Boundary, h: History, i: nat, k: nat, id: int)
    requires AcceptsReplacements(b) && IsRun(b, h, false) && i <= k < |h|
    requires id in h[i].jobs && h[i].jobs[id].status == Running && h[i].jobs[id].cancelRequested
    ensures id in h[k].jobs && h[k].jobs[id].cancelRequested && h[k].jobs[id].status !in {Queued, Succeeded}
  {
    RunGoesForward(b, h, i, k);
    assert RowLater(h[i], h[k], id);
  }
}

/** The protocol of the coalesced disk-usage cache: each step is one atomic section of a `measure`
    call, of a dropped `Mutation` or of the runtime, so a run is an interleaving. A scan is known by the
    moment it began.  */
module UsageProtocol {
  import opened Options

  const RECONCILE: nat := 60
  const MAX_ENTRIES: nat := 16

  /** A stored measurement: when it was stored, and when its scan began. */
  datatype Reading = Reading(at: nat, begun: nat)

  /** A `measure` call: waiting for its entry's lock, holding it, scanning under it, or done. */
  datatype Task =
    | Waiting(entry: nat) | Holding(entry: nat) | Scanning(entry: nat, begun: nat) | Returned(begun: nat)

  /** A blocking scan that has not ended, and the call that began it. */
  datatype Scan = Scan(entry: nat, owner: nat)

  /** `holders` are the entry locks; `running` the scans that have not ended, by the moment they began.
      The last four fields are history: the birth of each entry, the latest drop of each root, the drop
      each call must look behind, and the scans whose call was dropped while they ran.  */
  datatype State = State(
    clock: nat, seconds: nat, nextEntry: nat, entries: map<string, nat>, readings: map<nat, Option<Reading>>,
    holders: map<nat, nat>, running: map<nat, Scan>, tasks: map<nat, Task>,
    births: map<nat, nat>, fences: map<string, nat>, after: map<nat, nat>, dropped: set<nat>)

  // ---- the atomic sections ----

  function Fence(fences: map<string, nat>, root: string): nat {
    if root in fences then fences[root] else 0
  }

  predicate Stale(reading: Option<Reading>, seconds: nat) {
    reading.None? || seconds >= reading.value.at + RECONCILE
  }

  /** Find the entry of a root, or make one; too many entries are forgotten at once. */
  function LookedUp(s: State, root: string): (found: State)
    ensures root in found.entries
  {
    if root in s.entries then s
    else
      var kept := if |s.entries| >= MAX_ENTRIES then map[] else s.entries;
      s.(entries := kept[root := s.nextEntry], readings := s.readings[s.nextEntry := None],
         births := s.births[s.nextEntry := s.clock], nextEntry := s.nextEntry + 1)
  }

  function Queued(s: State, root: string, t: nat): State
    requires root in s.entries
  {
    s.(tasks := s.tasks[t := Waiting(s.entries[root])], after := s.after[t := Fence(s.fences, root)],
       clock := s.clock + 1)
  }

  function Started(s: State, root: string, t: nat): State {
    Queued(LookedUp(s, root), root, t)
  }

  predicate CanAcquire(s: State, t: nat) {
    t in s.tasks && s.tasks[t].Waiting? && s.tasks[t].entry !in s.holders
  }

  function Acquired(s: State, t: nat): State
    requires CanAcquire(s, t)
  {
    var e := s.tasks[t].entry;
    s.(tasks := s.tasks[t := Holding(e)], holders := s.holders[e := t], clock := s.clock + 1)
  }

  predicate CanDecide(s: State, t: nat) {
    t in s.tasks && s.tasks[t].Holding? && s.tasks[t].entry in s.readings
  }

  function ScanBegun(s: State, t: nat): State
    requires CanDecide(s, t)
  {
    var e := s.tasks[t].entry;
    s.(tasks := s.tasks[t := Scanning(e, s.clock)], running := s.running[s.clock := Scan(e, t)], clock := s.clock + 1)
  }

  function ReadingReturned(s: State, t: nat): State
    requires CanDecide(s, t) && s.readings[s.tasks[t].entry].Some?
  {
    var e := s.tasks[t].entry;
    s.(tasks := s.tasks[t := Returned(s.readings[e].value.begun)], holders := s.holders - {e}, clock := s.clock + 1)
  }

  function Decided(s: State, t: nat): State
    requires CanDecide(s, t)
  {
    if Stale(s.readings[s.tasks[t].entry], s.seconds) then ScanBegun(s, t) else ReadingReturned(s, t)
  }

  function ScanEnded(s: State, begun: nat): State {
    s.(running := s.running - {begun}, clock := s.clock + 1)
  }

  predicate CanFinish(s: State, t: nat) {
    t in s.tasks && s.tasks[t].Scanning? && s.tasks[t].begun !in s.running
  }

  function Finished(s: State, t: nat): State
    requires CanFinish(s, t)
  {
    var e, begun := s.tasks[t].entry, s.tasks[t].begun;
    s.(readings := s.readings[e := Some(Reading(s.seconds, begun))], tasks := s.tasks[t := Returned(begun)],
       holders := s.holders - {e}, clock := s.clock + 1)
  }

  predicate HasLock(task: Task) {
    task.Holding? || task.Scanning?
  }

  function Released(holders: map<nat, nat>, task: Task): map<nat, nat> {
    if HasLock(task) then holders - {task.entry} else holders
  }

  /** The scan a call leaves running, if it does. */
  function LeftRunning(running: map<nat, Scan>, task: Task): set<nat> {
    if task.Scanning? && task.begun in running then {task.begun} else {}
  }

  function Cancelled(s: State, t: nat): State
    requires t in s.tasks
  {
    s.(tasks := s.tasks - {t}, holders := Released(s.holders, s.tasks[t]),
       dropped := s.dropped + LeftRunning(s.running, s.tasks[t]), clock := s.clock + 1)
  }

  function Ticked(s: State, elapsed: nat): State {
    s.(seconds := s.seconds + elapsed)
  }

  function MutationDropped(s: State, root: string): State {
    s.(entries := s.entries - {root}, fences := s.fences[root := s.clock + 1], clock := s.clock + 1)
  }

  // ---- what every interleaving keeps ----

  ghost predicate EntryAgrees(s: State, e: nat) {
    && e in s.readings && e in s.births && s.births[e] <= s.clock && e < s.nextEntry
    && (s.readings[e].Some? ==> s.births[e] <= s.readings[e].value.begun < s.clock)
  }

  /** Every reading is younger than its entry, and every live entry than the last drop of its root. */
  ghost predicate EntriesAgree(s: State) {
    && (forall e :: e in s.readings || e in s.births ==> EntryAgrees(s, e))
    && (forall root :: root in s.entries ==>
          s.entries[root] in s.births && Fence(s.fences, root) <= s.births[s.entries[root]])
    && (forall root :: Fence(s.fences, root) <= s.clock)
  }

  /** A call never sees a scan older than the last drop before it started. */
  ghost predicate TaskAgrees(s: State, t: nat)
    requires t in s.tasks
  {
    && t in s.after
    && match s.tasks[t]
       case Waiting(e) => e in s.births && s.after[t] <= s.births[e]
       case Holding(e) => e in s.births && s.after[t] <= s.births[e]
       case Scanning(e, begun) => e in s.births && s.after[t] <= s.births[e] <= begun < s.clock
       case Returned(begun) => s.after[t] <= begun < s.clock
  }

  ghost predicate TasksAgree(s: State) {
    s.tasks.Keys <= s.after.Keys && forall t :: t in s.tasks ==> TaskAgrees(s, t)
  }

  /** A lock is held exactly by the call that is past it and has not returned. */
  ghost predicate LocksAgree(s: State) {
    && (forall e :: e in s.holders ==>
          s.holders[e] in s.tasks && HasLock(s.tasks[s.holders[e]]) && s.tasks[s.holders[e]].entry == e)
    && (forall t :: t in s.tasks && HasLock(s.tasks[t]) ==>
          s.tasks[t].entry in s.holders && s.holders[s.tasks[t].entry] == t)
  }

  /** The call that began the scan is still waiting for it. */
  predicate Owned(s: State, begun: nat)
    requires begun in s.running
  {
    var scan := s.running[begun];
    scan.owner in s.tasks && s.tasks[scan.owner] == Scanning(scan.entry, begun)
  }

  /** A running scan belongs to a live call, or its call was dropped while it ran. */
  ghost predicate ScansAgree(s: State) {
    && (forall begun :: begun in s.running ==> begun < s.clock && (Owned(s, begun) || begun in s.dropped))
    && (forall t :: t in s.tasks && s.tasks[t].Scanning? && s.tasks[t].begun in s.running ==>
          s.running[s.tasks[t].begun] == Scan(s.tasks[t].entry, t))
  }

  ghost predicate Agrees(s: State) {
    EntriesAgree(s) && TasksAgree(s) && LocksAgree(s) && ScansAgree(s)
  }

  // ---- overlapping scans ----

  /** Another scan of the entry than `begun` has not ended. */
  predicate OtherScan(s: State, e: nat, begun: nat) {
    exists other :: other in s.running && other != begun && s.running[other].entry == e
  }

  /** A scan of the entry runs although no live call waits for it. */
  predicate AbandonedScan(s: State, e: nat) {
    exists begun :: begun in s.running && s.running[begun].entry == e && !Owned(s, begun)
  }

  /** The entry's lock keeps live calls from scanning it together. */
  lemma OneScanPerEntry(s: State, t: nat, u: nat)
    requires LocksAgree(s) && t in s.tasks && u in s.tasks && s.tasks[t].Scanning? && s.tasks[u].Scanning?
    requires s.tasks[t].entry == s.tasks[u].entry
    ensures t == u
  {
    assert s.holders[s.tasks[t].entry] == t;
  }

  /** Two scans of one entry run at once only if the call of one of them was dropped while it ran. */
  lemma OverlapNeedsDrop(s: State, b: nat, c: nat)
    requires Agrees(s) && b in s.running && c in s.running && b != c && s.running[b].entry == s.running[c].entry
    ensures b in s.dropped || c in s.dropped
  {
    if Owned(s, b) && Owned(s, c) { OneScanPerEntry(s, s.running[b].owner, s.running[c].owner); }
  }

  /** In a run in which no scanning call is dropped, scans of one entry never overlap. */
  lemma NoDropNoOverlap(s: State, b: nat, c: nat)
    requires Agrees(s) && s.dropped == {}
    requires b in s.running && c in s.running && s.running[b].entry == s.running[c].entry
    ensures b == c
  {
    if b != c { OverlapNeedsDrop(s, b, c); }
  }

  /** A scan of an entry whose lock is held by a call that is not scanning has been abandoned. */
  lemma HeldButScanned(s: State, t: nat, begun: nat)
    requires LocksAgree(s) && CanDecide(s, t) && begun in s.running && s.running[begun].entry == s.tasks[t].entry
    ensures !Owned(s, begun)
  {
    assert s.holders[s.tasks[t].entry] == t;
  }

  /** The call begins a scan beside another one of its entry if and only if an abandoned scan of the
      entry still runs and its reading is absent or too old.  */
  predicate OverlapsExactly(s: State, next: State, t: nat)
    requires CanDecide(s, t)
  {
    var e := s.tasks[t].entry;
    && t in next.tasks
    && ((next.tasks[t].Scanning? && OtherScan(next, e, next.tasks[t].begun))
        <==> Stale(s.readings[e], s.seconds) && AbandonedScan(s, e))
  }

  /** The exact condition, on the state before: a call begins a scan beside another one of its entry
      if and only if an abandoned scan of it still runs and its reading is absent or too old.  */
  lemma OverlapCondition(s: State, t: nat)
    requires Agrees(s) && CanDecide(s, t)
    ensures OverlapsExactly(s, Decided(s, t), t)
  {
    var next, e := Decided(s, t), s.tasks[t].entry;
    if Stale(s.readings[e], s.seconds) {
      if other :| other in next.running && other != s.clock && next.running[other].entry == e {
        HeldButScanned(s, t, other);
      }
      if begun :| begun in s.running && s.running[begun].entry == e && !Owned(s, begun) {
        assert begun in next.running && begun != s.clock && next.running[begun].entry == e;
      }
    }
  }

  // ---- runs ----

  datatype Step =
    | Start(root: string, t: nat)
    | Acquire(t: nat)
    | Decide(t: nat)
    | EndScan(begun: nat)
    | Finish(t: nat)
    | Cancel(t: nat)
    | DropMutation(root: string)
    | Tick(elapsed: nat)

  /** Calls have names of their own; a lock is taken only when free, a result only when the scan ended. */
  predicate Enabled(s: State, step: Step) {
    match step
    case Start(_, t) => t !in s.after
    case Acquire(t) => CanAcquire(s, t)
    case Decide(t) => CanDecide(s, t)
    case EndScan(begun) => begun in s.running
    case Finish(t) => CanFinish(s, t)
    case Cancel(t) => t in s.tasks && !s.tasks[t].Returned?
    case DropMutation(_) => true
    case Tick(_) => true
  }

  function Apply(s: State, step: Step): State
    requires Enabled(s, step)
  {
    match step
    case Start(root, t) => Started(s, root, t)
    case Acquire(t) => Acquired(s, t)
    case Decide(t) => Decided(s, t)
    case EndScan(begun) => ScanEnded(s, begun)
    case Finish(t) => Finished(s, t)
    case Cancel(t) => Cancelled(s, t)
    case DropMutation(root) => MutationDropped(s, root)
    case Tick(elapsed) => Ticked(s, elapsed)
  }

  // ---- the sections, by what they read and leave ----

  /** The call waits for the live entry of its root. Without one it makes an entry, and a table of sixteen
      or more forgets the others.  */
  ghost predicate Starts(s: State, root: string, t: nat, next: State) {
    && root in next.entries && next.tasks == s.tasks[t := Waiting(next.entries[root])]
    && next.holders == s.holders && next.running == s.running && next.seconds == s.seconds
    && (root in s.entries ==> next.entries == s.entries && next.readings == s.readings)
    && (root !in s.entries ==>
          && next.readings == s.readings[next.entries[root] := None] && next.entries[root] == s.nextEntry
          && forall r :: r != root ==>
               && (r in next.entries <==> r in s.entries && |s.entries| < 16)
               && (r in next.entries ==> next.entries[r] == s.entries[r]))
  }

  /** Under the lock: a reading less than sixty seconds old is returned and the lock given up, or a scan
      begins and the lock is kept.  */
  ghost predicate Decides(s: State, t: nat, next: State)
    requires CanDecide(s, t)
  {
    var e := s.tasks[t].entry;
    && next.entries == s.entries && next.readings == s.readings && next.seconds == s.seconds
    && if s.readings[e].Some? && s.seconds - s.readings[e].value.at < 60
       then && next.tasks == s.tasks[t := Returned(s.readings[e].value.begun)] && next.running == s.running
            && e !in next.holders && next.holders == s.holders - {e}
       else && next.tasks == s.tasks[t := Scanning(e, s.clock)] && next.holders == s.holders
            && next.running == s.running[s.clock := Scan(e, t)]
  }

  /** The result is stored with the time, and returned. */
  ghost predicate Stores(s: State, t: nat, next: State)
    requires CanFinish(s, t)
  {
    var e, begun := s.tasks[t].entry, s.tasks[t].begun;
    && next.tasks == s.tasks[t := Returned(begun)] && next.holders == s.holders - {e}
    && next.readings == s.readings[e := Some(Reading(s.seconds, begun))]
    && next.entries == s.entries && next.running == s.running && next.seconds == s.seconds
  }

  /** The call is gone, and so is its lock if it had one; its scan goes on. */
  ghost predicate Leaves(s: State, t: nat, next: State)
    requires t in s.tasks
  {
    && next.tasks == s.tasks - {t} && next.running == s.running
    && (match s.tasks[t]
        case Waiting(_) => next.holders == s.holders
        case Holding(e) => next.holders == s.holders - {e}
        case Scanning(e, _) => next.holders == s.holders - {e}
        case Returned(_) => next.holders == s.holders)
    && next.entries == s.entries && next.readings == s.readings && next.seconds == s.seconds
  }

  /** What one section does to the locks, the entries, the calls and the scans. */
  ghost predicate Executes(s: State, step: Step, next: State)
    requires Enabled(s, step)
  {
    match step
    case Start(root, t) => Starts(s, root, t, next)
    case Acquire(t) =>
      next == s.(tasks := s.tasks[t := Holding(s.tasks[t].entry)], holders := s.holders[s.tasks[t].entry := t],
                 clock := next.clock)
    case Decide(t) => Decides(s, t, next)
    case EndScan(begun) => next == s.(running := s.running - {begun}, clock := next.clock)
    case Finish(t) => Stores(s, t, next)
    case Cancel(t) => Leaves(s, t, next)
    case DropMutation(root) =>
      next == s.(entries := s.entries - {root}, fences := next.fences, clock := next.clock)
    case Tick(elapsed) => next == s.(seconds := s.seconds + elapsed)
  }

  lemma StartMeans(s: State, root: string, t: nat)
    ensures Starts(s, root, t, Started(s, root, t))
  {
  }

  lemma DecideMeans(s: State, t: nat)
    requires CanDecide(s, t)
    ensures Decides(s, t, Decided(s, t))
  {
  }

  lemma FinishMeans(s: State, t: nat)
    requires CanFinish(s, t)
    ensures Stores(s, t, Finished(s, t))
  {
  }

  lemma CancelMeans(s: State, t: nat)
    requires t in s.tasks
    ensures Leaves(s, t, Cancelled(s, t))
  {
  }

  /** Each section of the protocol does this. */
  lemma SectionMeans(s: State, step: Step)
    requires Enabled(s, step)
    ensures Executes(s, step, Apply(s, step))
  {
    match step
    case Start(root, t) => StartMeans(s, root, t);
    case Decide(t) => DecideMeans(s, t);
    case Finish(t) => FinishMeans(s, t);
    case Cancel(t) => CancelMeans(s, t);
    case _ =>
  }

  const EMPTY: State := State(0, 0, 0, map[], map[], map[], map[], map[], map[], map[], map[], {})

  lemma LookupKeeps(s: State, root: string)
    requires Agrees(s)
    ensures Agrees(LookedUp(s, root)) && root in LookedUp(s, root).entries
  {
    var next := LookedUp(s, root);
    if root !in s.entries {
      assert s.nextEntry !in s.births && Fence(s.fences, root) <= s.clock;
      forall e | e in next.readings || e in next.births ensures EntryAgrees(next, e) {
        assert e != s.nextEntry ==> EntryAgrees(s, e);
      }
      forall t | t in next.tasks ensures TaskAgrees(next, t) { assert TaskAgrees(s, t); }
    }
  }

  /** Time passes: nothing that agreed stops agreeing. */
  lemma LaterAgrees(s: State, clock: nat)
    requires Agrees(s) && s.clock <= clock
    ensures Agrees(s.(clock := clock))
  {
    var next := s.(clock := clock);
    forall e | e in next.readings || e in next.births ensures EntryAgrees(next, e) { assert EntryAgrees(s, e); }
    forall t | t in next.tasks ensures TaskAgrees(next, t) { assert TaskAgrees(s, t); }
    forall begun | begun in next.running ensures Owned(next, begun) || begun in next.dropped {
      assert Owned(s, begun) || begun in s.dropped;
    }
  }

  lemma CallAdded(s: State, e: nat, fence: nat, t: nat, next: State)
    requires Agrees(s) && t !in s.after && e in s.births && fence <= s.births[e]
    requires next == s.(tasks := s.tasks[t := Waiting(e)], after := s.after[t := fence])
    ensures Agrees(next)
  {
    assert t !in s.tasks;
    forall u | u in next.tasks ensures TaskAgrees(next, u) { assert u != t ==> TaskAgrees(s, u); }
    forall begun | begun in next.running ensures Owned(next, begun) || begun in next.dropped {
      assert Owned(s, begun) || begun in s.dropped;
    }
  }

  lemma CallWaits(s: State, root: string, t: nat, next: State)
    requires Agrees(s) && root in s.entries && t !in s.after
    requires next == Queued(s, root, t)
    ensures Agrees(next)
  {
    LaterAgrees(s, s.clock + 1);
    CallAdded(s.(clock := s.clock + 1), s.entries[root], Fence(s.fences, root), t, next);
  }

  lemma StartKeeps(s: State, root: string, t: nat)
    requires Agrees(s) && t !in s.after
    ensures Agrees(Started(s, root, t))
  {
    LookupKeeps(s, root);
    CallWaits(LookedUp(s, root), root, t, Started(s, root, t));
  }

  lemma AcquireKeeps(s: State, t: nat)
    requires Agrees(s) && CanAcquire(s, t)
    ensures Agrees(Acquired(s, t))
  {
    var next := Acquired(s, t);
    forall e | e in next.readings || e in next.births ensures EntryAgrees(next, e) { assert EntryAgrees(s, e); }
    forall u | u in next.tasks ensures TaskAgrees(next, u) { assert TaskAgrees(s, u); }
  }

  lemma ScanBegins(s: State, t: nat)
    requires Agrees(s) && CanDecide(s, t) && Stale(s.readings[s.tasks[t].entry], s.seconds)
    ensures Agrees(Decided(s, t))
  {
    var next := Decided(s, t);
    assert TaskAgrees(s, t) && EntryAgrees(s, s.tasks[t].entry);
    forall e | e in next.readings || e in next.births ensures EntryAgrees(next, e) { assert EntryAgrees(s, e); }
    forall u | u in next.tasks ensures TaskAgrees(next, u) { assert TaskAgrees(s, u); }
  }

  lemma ReadingReturns(s: State, t: nat)
    requires Agrees(s) && CanDecide(s, t) && !Stale(s.readings[s.tasks[t].entry], s.seconds)
    ensures Agrees(Decided(s, t))
  {
    var next := Decided(s, t);
    assert TaskAgrees(s, t) && EntryAgrees(s, s.tasks[t].entry);
    forall e | e in next.readings || e in next.births ensures EntryAgrees(next, e) { assert EntryAgrees(s, e); }
    forall u | u in next.tasks ensures TaskAgrees(next, u) { assert TaskAgrees(s, u); }
  }

  lemma DecideKeeps(s: State, t: nat)
    requires Agrees(s) && CanDecide(s, t)
    ensures Agrees(Decided(s, t))
  {
    if Stale(s.readings[s.tasks[t].entry], s.seconds) { ScanBegins(s, t); } else { ReadingReturns(s, t); }
  }

  lemma EndScanKeeps(s: State, begun: nat)
    requires Agrees(s) && begun in s.running
    ensures Agrees(ScanEnded(s, begun))
  {
    LaterAgrees(s, s.clock + 1);
  }

  lemma FinishKeeps(s: State, t: nat)
    requires Agrees(s) && CanFinish(s, t)
    ensures Agrees(Finished(s, t))
  {
    var next := Finished(s, t);
    assert TaskAgrees(s, t);
    forall e | e in next.readings || e in next.births ensures EntryAgrees(next, e) { assert EntryAgrees(s, e); }
    forall u | u in next.tasks ensures TaskAgrees(next, u) { assert TaskAgrees(s, u); }
  }

  lemma CancelKeeps(s: State, t: nat)
    requires Agrees(s) && t in s.tasks
    ensures Agrees(Cancelled(s, t))
  {
    var next := Cancelled(s, t);
    forall e | e in next.readings || e in next.births ensures EntryAgrees(next, e) { assert EntryAgrees(s, e); }
    forall u | u in next.tasks ensures TaskAgrees(next, u) { assert TaskAgrees(s, u); }
  }

  lemma DropKeeps(s: State, root: string)
    requires Agrees(s)
    ensures Agrees(MutationDropped(s, root))
  {
    var next := MutationDropped(s, root);
    LaterAgrees(s, s.clock + 1);
    forall r ensures Fence(next.fences, r) <= next.clock { assert Fence(s.fences, r) <= s.clock; }
  }

  lemma StepKeeps(s: State, step: Step)
    requires Agrees(s) && Enabled(s, step)
    ensures Agrees(Apply(s, step))
  {
    match step
    case Start(root, t) => StartKeeps(s, root, t);
    case Acquire(t) => AcquireKeeps(s, t);
    case Decide(t) => DecideKeeps(s, t);
    case EndScan(begun) => EndScanKeeps(s, begun);
    case Finish(t) => FinishKeeps(s, t);
    case Cancel(t) => CancelKeeps(s, t);
    case DropMutation(root) => DropKeeps(s, root);
    case Tick(_) =>
  }

  ghost predicate IsStep(s: State, step: Step, next: State) {
    Enabled(s, step) && next == Apply(s, step)
  }

  /** States and the steps between them. */
  ghost predicate IsRun(h: seq<State>, steps: seq<Step>) {
    && |h| == |steps| + 1 && h[0] == EMPTY
    && forall i :: 0 <= i < |steps| ==> IsStep(h[i], steps[i], h[i + 1])
  }

  lemma {:induction false} RunAgrees(h: seq<State>, steps: seq<Step>, k: nat)
    requires IsRun(h, steps) && k < |h|
    ensures Agrees(h[k])
  {
    if k == 0 {
    } else {
      RunAgrees(h, steps, k - 1);
      assert IsStep(h[k - 1], steps[k - 1], h[k - 1 + 1]);
      StepKeeps(h[k - 1], steps[k - 1]);
    }
  }

  /** The step drops a call whose scan has not ended. */
  ghost predicate DropsScan(s: State, step: Step) {
    && step.Cancel? && step.t in s.tasks
    && s.tasks[step.t].Scanning? && s.tasks[step.t].begun in s.running
  }

  lemma {:induction false} NothingDropped(h: seq<State>, steps: seq<Step>, k: nat)
    requires IsRun(h, steps) && k < |h| && forall i :: 0 <= i < k ==> !DropsScan(h[i], steps[i])
    ensures h[k].dropped == {}
  {
    if k == 0 {
    } else {
      NothingDropped(h, steps, k - 1);
      assert IsStep(h[k - 1], steps[k - 1], h[k - 1 + 1]) && !DropsScan(h[k - 1], steps[k - 1]);
    }
  }

  /** Over every interleaving in which no scanning call is dropped, two scans of one entry never overlap. */
  lemma ScansNeverOverlap(h: seq<State>, steps: seq<Step>, k: nat, b: nat, c: nat)
    requires IsRun(h, steps) && k < |h| && forall i :: 0 <= i < k ==> !DropsScan(h[i], steps[i])
    requires b in h[k].running && c in h[k].running && h[k].running[b].entry == h[k].running[c].entry
    ensures b == c
  {
    RunAgrees(h, steps, k);
    NothingDropped(h, steps, k);
    NoDropNoOverlap(h[k], b, c);
  }

  /** A call's fence is fixed when it starts, and fences only rise. */
  ghost predicate Later(s: State, next: State) {
    && (forall t :: t in s.after ==> t in next.after && next.after[t] == s.after[t])
    && (forall root :: Fence(s.fences, root) <= Fence(next.fences, root))
  }

  lemma StepGoesOn(s: State, step: Step)
    requires Agrees(s) && Enabled(s, step)
    ensures Later(s, Apply(s, step))
  {
    var next := Apply(s, step);
    forall root ensures Fence(s.fences, root) <= Fence(next.fences, root) { assert Fence(s.fences, root) <= s.clock; }
  }

  lemma LaterIsTransitive(s: State, t: State, u: State)
    requires Later(s, t) && Later(t, u)
    ensures Later(s, u)
  {
    forall root ensures Fence(s.fences, root) <= Fence(u.fences, root) {
      assert Fence(s.fences, root) <= Fence(t.fences, root);
    }
  }

  lemma OneStepLater(h: seq<State>, steps: seq<Step>, k: nat)
    requires IsRun(h, steps) && k < |steps|
    ensures Later(h[k], h[k + 1])
  {
    RunAgrees(h, steps, k);
    assert IsStep(h[k], steps[k], h[k + 1]);
    StepGoesOn(h[k], steps[k]);
  }

  lemma OneStepFurther(h: seq<State>, steps: seq<Step>, i: nat, k: nat)
    requires IsRun(h, steps) && i <= k < |h| - 1 && Later(h[i], h[k])
    ensures Later(h[i], h[k + 1])
  {
    OneStepLater(h, steps, k);
    LaterIsTransitive(h[i], h[k], h[k + 1]);
  }

  lemma {:induction false} RunGoesOn(h: seq<State>, steps: seq<Step>, i: nat, k: nat)
    requires IsRun(h, steps) && i <= k < |h|
    ensures Later(h[i], h[k])
    decreases k
  {
    if i == k {
    } else {
      RunGoesOn(h, steps, i, k - 1);
      OneStepFurther(h, steps, i, k - 1);
    }
  }

  /** Freshness, over every interleaving: a call of a root that starts after a mutation of it was
      dropped never returns a scan begun before that drop, whatever other calls are still scanning.  */
  lemma FreshAfterDrop(h: seq<State>, steps: seq<Step>, i: nat, j: nat, k: nat, root: string, t: nat)
    requires IsRun(h, steps) && i < j < k < |h|
    requires steps[i] == DropMutation(root) && steps[j] == Start(root, t)
    requires t in h[k].tasks && h[k].tasks[t].Returned?
    ensures h[i].clock < h[k].tasks[t].begun
  {
    assert IsStep(h[i], steps[i], h[i + 1]) && IsStep(h[j], steps[j], h[j + 1]);
    RunGoesOn(h, steps, i + 1, j);
    RunGoesOn(h, steps, j + 1, k);
    RunAgrees(h, steps, k);
    assert Fence(h[i + 1].fences, root) == h[i].clock + 1;
    assert h[j + 1].after[t] == Fence(h[j].fences, root);
    assert TaskAgrees(h[k], t);
  }

  lemma RunExtends(h: seq<State>, steps: seq<Step>, step: Step)
    requires IsRun(h, steps) && Enabled(h[|steps|], step)
    ensures IsRun(h + [Apply(h[|steps|], step)], steps + [step])
  {
    var longer := h + [Apply(h[|steps|], step)];
    forall i | 0 <= i < |steps| + 1 ensures IsStep(longer[i], (steps + [step])[i], longer[i + 1]) {
      if i < |steps| { assert IsStep(h[i], steps[i], h[i + 1]); }
    }
  }

  lemma GoOn(h: seq<State>, steps: seq<Step>, s: State, step: Step, next: State)
    returns (longer: seq<State>, more: seq<Step>)
    requires IsRun(h, steps) && h[|steps|] == s && Enabled(s, step) && next == Apply(s, step)
    ensures IsRun(longer, more) && longer[|more|] == next
  {
    RunExtends(h, steps, step);
    longer, more := h + [next], steps + [step];
  }

  /** The state after a first call was dropped while its scan runs. */
  function AfterDroppedScan(root: string): State {
    State(4, 0, 1, map[root := 0], map[0 := None], map[], map[2 := Scan(0, 0)], map[], map[0 := 0], map[],
          map[0 := 0], {2})
  }

  function AfterFirstLock(root: string): State {
    State(2, 0, 1, map[root := 0], map[0 := None], map[0 := 0], map[], map[0 := Holding(0)], map[0 := 0], map[],
          map[0 := 0], {})
  }

  lemma FirstCallLocks(root: string) returns (h: seq<State>, steps: seq<Step>)
    ensures IsRun(h, steps) && h[|steps|] == AfterFirstLock(root)
  {
    var s1 := AfterFirstLock(root).(clock := 1, holders := map[], tasks := map[0 := Waiting(0)]);
    h, steps := [EMPTY], [];
    h, steps := GoOn(h, steps, EMPTY, Start(root, 0), s1);
    h, steps := GoOn(h, steps, s1, Acquire(0), AfterFirstLock(root));
  }

  lemma FirstCallIsDropped(root: string) returns (h: seq<State>, steps: seq<Step>)
    ensures IsRun(h, steps) && h[|steps|] == AfterDroppedScan(root)
  {
    var s2 := AfterFirstLock(root);
    var s3 := s2.(clock := 3, running := map[2 := Scan(0, 0)], tasks := map[0 := Scanning(0, 2)]);
    h, steps := FirstCallLocks(root);
    h, steps := GoOn(h, steps, s2, Decide(0), s3);
    h, steps := GoOn(h, steps, s3, Cancel(0), AfterDroppedScan(root));
  }

  /** A concrete interleaving: the first call is dropped while its scan runs, and the second call of the
      same root scans beside it.  */
  lemma CancelledScanOverlaps(root: string) returns (h: seq<State>, steps: seq<Step>)
    ensures IsRun(h, steps) && 1 in h[|steps|].tasks && h[|steps|].tasks[1].Scanning?
    ensures OtherScan(h[|steps|], h[|steps|].tasks[1].entry, h[|steps|].tasks[1].begun)
  {
    var s4 := AfterDroppedScan(root);
    var s5 := s4.(clock := 5, tasks := map[1 := Waiting(0)], after := map[0 := 0, 1 := 0]);
    var s6 := s5.(clock := 6, holders := map[0 := 1], tasks := map[1 := Holding(0)]);
    var s7 := s6.(clock := 7, running := map[2 := Scan(0, 0), 6 := Scan(0, 1)], tasks := map[1 := Scanning(0, 6)]);
    h, steps := FirstCallIsDropped(root);
    h, steps := GoOn(h, steps, s4, Start(root, 1), s5);
    h, steps := GoOn(h, steps, s5, Acquire(1), s6);
    h, steps := GoOn(h, steps, s6, Decide(1), s7);
    assert 2 in s7.running && s7.running[2].entry == 0;
  }
}

/** The coalesced disk-usage cache itself, changed in place. Its history is a run of the protocol, so
    what holds of every interleaving holds of it.  */
module UsageCache {
  import opened Options
  import opened UsageProtocol

  lemma OverlapOnRun(h: seq<State>, steps: seq<Step>, t: nat)
    requires IsRun(h, steps) && CanDecide(h[|steps|], t)
    ensures OverlapsExactly(h[|steps|], Decided(h[|steps|], t), t)
  {
    RunAgrees(h, steps, |steps|);
    OverlapCondition(h[|steps|], t);
  }

  /** Every scan that runs and every reading that is stored began before `fence`. */
  ghost predicate BegunBefore(s: State, fence: nat) {
    && (forall begun :: begun in s.running ==> begun < fence)
    && (forall e :: e in s.readings && s.readings[e].Some? ==> s.readings[e].value.begun < fence)
  }

  lemma DropFences(h: seq<State>, steps: seq<Step>, root: string)
    requires IsRun(h, steps)
    ensures var next := MutationDropped(h[|steps|], root);
            root in next.fences && BegunBefore(next, next.fences[root])
  {
    RunAgrees(h, steps, |steps|);
    var s := h[|steps|];
    forall e | e in s.readings && s.readings[e].Some? ensures s.readings[e].value.begun < s.clock {
      assert EntryAgrees(s, e);
    }
  }

  class Cache {
    var clock: nat
    var seconds: nat
    var nextEntry: nat
    var entries: map<string, nat>
    var readings: map<nat, Option<Reading>>
    var holders: map<nat, nat>
    var running: map<nat, Scan>
    var tasks: map<nat, Task>
    ghost var births: map<nat, nat>
    ghost var fences: map<string, nat>
    ghost var after: map<nat, nat>
    ghost var dropped: set<nat>
    ghost var history: seq<State>
    ghost var steps: seq<Step>

    ghost function Now(): State
      reads this
    {
      State(clock, seconds, nextEntry, entries, readings, holders, running, tasks, births, fences, after, dropped)
    }

    ghost predicate Valid()
      reads this
    {
      IsRun(history, steps) && history[|steps|] == Now()
    }

    constructor ()
      ensures Valid() && Now() == EMPTY && steps == []
    {
      clock, seconds, nextEntry, entries, readings := 0, 0, 0, map[], map[];
      holders, running, tasks := map[], map[], map[];
      births, fences, after, dropped := map[], map[], map[], {};
      history, steps := [EMPTY], [];
    }

    /** The section just executed was `step`, taken in `before`. */
    ghost method Log(before: State, step: Step, next: State)
      requires IsRun(history, steps) && history[|steps|] == before
      requires Now() == next && IsStep(before, step, next)
      modifies `history, `steps
      ensures Valid() && steps == old(steps) + [step] && Executes(before, step, Now())
    {
      SectionMeans(before, step);
      RunExtends(history, steps, step);
      history, steps := history + [Now()], steps + [step];
    }

    /** Time passes. */
    method LetTimePass(elapsed: nat)
      requires Valid()
      modifies this
      ensures Valid() && steps == old(steps) + [Tick(elapsed)]
      ensures Executes(old(Now()), Tick(elapsed), Now())
      ensures Now() == Ticked(old(Now()), elapsed)
    {
      ghost var before := Now();
      seconds := seconds + elapsed;
      Log(before, Tick(elapsed), Ticked(before, elapsed));
    }

    /** Find the entry of a root, or make one; too many entries are forgotten at once. */
    method FindEntry(root: string)
      modifies `entries, `readings, `births, `nextEntry
      ensures Now() == LookedUp(old(Now()), root)
    {
      if root !in entries {
        if |entries| >= MAX_ENTRIES { entries := map[]; }
        entries, readings := entries[root := nextEntry], readings[nextEntry := None];
        births, nextEntry := births[nextEntry := clock], nextEntry + 1;
      }
    }

    method QueueCall(root: string, t: nat)
      requires root in entries
      modifies `tasks, `after, `clock
      ensures Now() == Queued(old(Now()), root, t)
    {
      tasks, after, clock := tasks[t := Waiting(entries[root])], after[t := Fence(fences, root)], clock + 1;
    }

    /** A call starts. */
    method StartCall(root: string, t: nat)
      requires Valid() && t !in after
      modifies this
      ensures Valid() && steps == old(steps) + [Start(root, t)]
      ensures Executes(old(Now()), Start(root, t), Now())
      ensures Now() == Started(old(Now()), root, t)
    {
      ghost var before := Now();
      FindEntry(root);
      QueueCall(root, t);
      Log(before, Start(root, t), Started(before, root, t));
    }

    /** The call gets its entry's lock. */
    method AcquireLock(t: nat)
      requires Valid() && CanAcquire(Now(), t)
      modifies this
      ensures Valid() && steps == old(steps) + [Acquire(t)] && Now() == Acquired(old(Now()), t)
      ensures Executes(old(Now()), Acquire(t), Now())
    {
      ghost var before := Now();
      var e := tasks[t].entry;
      tasks, holders, clock := tasks[t := Holding(e)], holders[e := t], clock + 1;
      Log(before, Acquire(t), Acquired(before, t));
    }

    method BeginScan(t: nat)
      requires CanDecide(Now(), t)
      modifies `tasks, `running, `clock
      ensures Now() == ScanBegun(old(Now()), t)
    {
      var e := tasks[t].entry;
      tasks, running, clock := tasks[t := Scanning(e, clock)], running[clock := Scan(e, t)], clock + 1;
    }

    method ReturnReading(t: nat)
      requires CanDecide(Now(), t) && readings[tasks[t].entry].Some?
      modifies `tasks, `holders, `clock
      ensures Now() == ReadingReturned(old(Now()), t)
    {
      var e := tasks[t].entry;
      tasks, holders, clock := tasks[t := Returned(readings[e].value.begun)], holders - {e}, clock + 1;
    }

    /** Under the lock: a recent reading is returned, otherwise a scan begins. It runs beside another
        scan of the entry exactly when an abandoned one still runs.  */
    method ReadOrScan(t: nat)
      requires Valid() && CanDecide(Now(), t)
      modifies this
      ensures Valid() && steps == old(steps) + [Decide(t)] && Now() == Decided(old(Now()), t)
      ensures Executes(old(Now()), Decide(t), Now())
      ensures OverlapsExactly(old(Now()), Now(), t)
    {
      ghost var before := Now();
      OverlapOnRun(history, steps, t);
      if Stale(readings[tasks[t].entry], seconds) {
        BeginScan(t);
      } else {
        ReturnReading(t);
      }
      Log(before, Decide(t), Decided(before, t));
    }

    /** A blocking scan comes to its end, whether or not its call still waits for it. */
    method ScanEnds(begun: nat)
      requires Valid() && begun in running
      modifies this
      ensures Valid() && steps == old(steps) + [EndScan(begun)] && Now() == ScanEnded(old(Now()), begun)
      ensures Executes(old(Now()), EndScan(begun), Now())
    {
      ghost var before := Now();
      running, clock := running - {begun}, clock + 1;
      Log(before, EndScan(begun), ScanEnded(before, begun));
    }

    /** The waiting call stores the result in its entry, live or not, and returns it. */
    method FinishCall(t: nat)
      requires Valid() && CanFinish(Now(), t)
      modifies this
      ensures Valid() && steps == old(steps) + [Finish(t)] && Now() == Finished(old(Now()), t)
      ensures Executes(old(Now()), Finish(t), Now())
    {
      ghost var before := Now();
      var e, begun := tasks[t].entry, tasks[t].begun;
      readings, tasks := readings[e := Some(Reading(seconds, begun))], tasks[t := Returned(begun)];
      holders, clock := holders - {e}, clock + 1;
      Log(before, Finish(t), Finished(before, t));
    }

    /** The call is dropped at an await: it gives up its lock, and a scan it began runs on. */
    method CancelCall(t: nat)
      requires Valid() && t in tasks && !tasks[t].Returned?
      modifies this
      ensures Valid() && steps == old(steps) + [Cancel(t)] && Now() == Cancelled(old(Now()), t)
      ensures Executes(old(Now()), Cancel(t), Now())
    {
      ghost var before := Now();
      dropped := dropped + LeftRunning(running, tasks[t]);
      holders := Released(holders, tasks[t]);
      tasks, clock := tasks - {t}, clock + 1;
      Log(before, Cancel(t), Cancelled(before, t));
    }

    /** `Mutation::drop`: later calls must not see a scan begun before this moment. */
    method EndMutation(root: string)
      requires Valid()
      modifies this
      ensures Valid() && steps == old(steps) + [DropMutation(root)]
      ensures Executes(old(Now()), DropMutation(root), Now())
      ensures Now() == MutationDropped(old(Now()), root) && root !in entries && BegunBefore(Now(), fences[root])
    {
      ghost var before := Now();
      DropFences(history, steps, root);
      entries, fences, clock := entries - {root}, fences[root := clock + 1], clock + 1;
      Log(before, DropMutation(root), MutationDropped(before, root));
    }
  }
}

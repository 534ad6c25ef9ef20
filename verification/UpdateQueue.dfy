/** The latest-wins update queue. Each method is one atomic section of an enqueue or of a drain
    worker, so an interleaving is any sequence of calls.  */
module UpdateQueue {
  import opened Options

  /** A drain worker: about to lock the queue (perhaps not yet scheduled), or storing an update. */
  datatype Worker<T> = Ready | Storing(update: T)

  /** `part` lists elements of `all` at increasing positions. */
  ghost predicate Picks<T>(part: seq<T>, all: seq<T>, at: seq<nat>) {
    && |at| == |part|
    && (forall i, j :: 0 <= i < j < |at| ==> at[i] < at[j])
    && (forall i :: 0 <= i < |at| ==> at[i] < |all| && part[i] == all[at[i]])
  }

  ghost predicate IsSubsequence<T>(part: seq<T>, all: seq<T>) {
    exists at :: Picks(part, all, at)
  }

  lemma PicksOfLonger<T>(part: seq<T>, all: seq<T>, at: seq<nat>, x: T)
    requires Picks(part, all, at)
    ensures Picks(part, all + [x], at)
  {
  }

  lemma PicksLast<T>(part: seq<T>, all: seq<T>, at: seq<nat>)
    requires Picks(part, all, at) && all != [] && (at == [] || at[|at| - 1] < |all| - 1)
    ensures Picks(part + [all[|all| - 1]], all, at + [|all| - 1])
  {
  }

  lemma PicksPrefix<T>(part: seq<T>, all: seq<T>, at: seq<nat>, n: nat)
    requires Picks(part, all, at) && n <= |part|
    ensures Picks(part[..n], all, at[..n])
  {
  }

  class Queue<T(==)> {
    var workerRunning: bool
    var pending: Option<T>
    var workers: map<nat, Worker<T>>
    /** Every update enqueued, those taken by a worker and where each was enqueued, those stored. */
    ghost var enqueued: seq<T>
    ghost var taken: seq<T>
    ghost var takenAt: seq<nat>
    ghost var processed: seq<T>

    /** At most one worker, and one whenever an update is pending. */
    ghost predicate WorkersAgree()
      reads this
    {
      && (forall v, w :: v in workers && w in workers ==> v == w)
      && (workerRunning <==> workers != map[])
      && (pending.Some? ==> workers != map[])
    }

    /** What is pending is the last update enqueued, and nothing is pending only once it was taken. */
    ghost predicate LatestWins()
      reads this
    {
      && Picks(taken, enqueued, takenAt)
      && (pending.Some? ==> enqueued != [] && pending.value == enqueued[|enqueued| - 1]
                            && (takenAt == [] || takenAt[|takenAt| - 1] < |enqueued| - 1))
      && (pending.None? && enqueued != [] ==> takenAt != [] && takenAt[|takenAt| - 1] == |enqueued| - 1)
    }

    /** Every update taken is stored, or is being stored by the worker. */
    ghost predicate Stored()
      reads this
    {
      && (forall w :: w in workers && workers[w].Storing? ==> taken == processed + [workers[w].update])
      && ((forall w :: w in workers ==> workers[w].Ready?) ==> taken == processed)
    }

    ghost predicate Valid()
      reads this
    {
      WorkersAgree() && LatestWins() && Stored()
    }

    constructor ()
      ensures Valid() && enqueued == [] && processed == []
    {
      workerRunning, pending, workers := false, None, map[];
      enqueued, taken, takenAt, processed := [], [], [], [];
    }

    /** `queue_update_request`: replace whatever is pending, and start a worker if none runs. */
    method Enqueue(update: T, w: nat) returns (start: bool)
      requires Valid() && w !in workers
      modifies this
      ensures Valid() && enqueued == old(enqueued) + [update] && pending == Some(update)
      ensures start <==> old(workers) == map[]
      ensures workers == (if start then map[w := Ready] else old(workers)) && processed == old(processed)
    {
      PicksOfLonger(taken, enqueued, takenAt, update);
      pending, enqueued := Some(update), enqueued + [update];
      start := !workerRunning;
      if start {
        workerRunning, workers := true, workers[w := Ready];
      }
    }

    /** The worker locks the queue: take the pending update, or stop. */
    method Take(w: nat)
      requires Valid() && w in workers && workers[w].Ready?
      modifies this
      ensures Valid() && pending == None && enqueued == old(enqueued) && processed == old(processed)
      ensures workers == if old(pending).Some? then map[w := Storing(old(pending).value)] else map[]
    {
      match pending
      case Some(update) =>
        PicksLast(taken, enqueued, takenAt);
        taken, takenAt := taken + [update], takenAt + [|enqueued| - 1];
        pending, workers := None, workers[w := Storing(update)];
      case None =>
        workerRunning, workers := false, workers - {w};
    }

    /** The store of an update ends, well or badly, and the worker goes round again. */
    method EndStore(w: nat)
      requires Valid() && w in workers && workers[w].Storing?
      modifies this`workers, this`processed
      ensures Valid() && processed == old(processed) + [old(workers[w]).update] && workers == map[w := Ready]
    {
      processed, workers := processed + [workers[w].update], workers[w := Ready];
    }

    /** In every reachable state: processed updates are a subsequence of those enqueued, and when no
        worker is live the last one processed is the last one enqueued.  */
    lemma NothingIsLost()
      requires Valid()
      ensures IsSubsequence(processed, enqueued)
      ensures pending.Some? ==> |workers| == 1
      ensures workers == map[] && enqueued != [] ==>
                processed != [] && processed[|processed| - 1] == enqueued[|enqueued| - 1]
    {
      assert processed <= taken;
      PicksPrefix(taken, enqueued, takenAt, |processed|);
      assert processed == taken[..|processed|];
      if pending.Some? {
        var w :| w in workers;
        assert workers == map[w := workers[w]];
      }
    }
  }
}

/** A report page without ranks: three queues of managed jobs take turns, and the page is as many
    turns as the budgets allow.  */
module ReportTurns {
  import opened Options
  import opened FiniteSets
  import opened Orders
  import opened ReportPages
  import opened ReportFairness
  import BuildJobs

  type Jobs = BuildJobs.Jobs

  /** A job going on, a refused one, and the outcome of any other. */
  datatype Lane = Active | Rejection | Outcome

  predicate InLane(job: BuildJobs.Job, lane: Lane) {
    && job.managedId.Some?
    && match lane
       case Active => job.status.Queued? || job.status.Running?
       case Rejection => job.rejection != "" && !job.status.Queued? && !job.status.Running?
       case Outcome => job.rejection == "" && !job.status.Queued? && !job.status.Running?
  }

  /** The order of the lanes within one turn: it changes with the round. */
  function Turn(round: nat): seq<Lane> {
    if round % 4 == 1 then [Outcome, Rejection, Active]
    else if round % 4 == 2 then [Rejection, Active, Outcome]
    else [Active, Rejection, Outcome]
  }

  predicate EarlierInTurn(round: nat, a: Lane, b: Lane) {
    var turn := Turn(round);
    a != b && (a == turn[0] || b == turn[2])
  }

  /** Where a lane resumes: below the last id it reported. */
  function CursorOf(c: Cursors, lane: Lane): Option<int> {
    match lane case Active => c.active case Rejection => c.rejection case Outcome => c.terminal
  }

  /** From just below the cursor down to the least id, then from the greatest down to the cursor. */
  predicate Descends(cursor: Option<int>, i: int, j: int) {
    if cursor.Some? && (i < cursor.value) != (j < cursor.value) then i < cursor.value else j < i
  }

  ghost predicate IsQueue(jobs: Jobs, c: Cursors, lane: Lane, queue: seq<int>) {
    && (forall id :: id in queue <==> id in jobs && InLane(jobs[id], lane))
    && (forall i, j :: 0 <= i < j < |queue| ==> Descends(CursorOf(c, lane), queue[i], queue[j]))
  }

  type Queues = Lane -> seq<int>

  ghost predicate AreQueues(jobs: Jobs, c: Cursors, queues: Queues) {
    forall lane :: IsQueue(jobs, c, lane, queues(lane))
  }

  /** `x` is number `n` of its lane. */
  predicate StandsAt(queues: Queues, lane: Lane, n: nat, x: int) {
    n < |queues(lane)| && queues(lane)[n] == x
  }

  /** Turn by turn, and within a turn by the order of the lanes. */
  ghost predicate GoesFirst(queues: Queues, round: nat, x: int, y: int) {
    exists a, n: nat, b, k: nat :: StandsAt(queues, a, n, x) && StandsAt(queues, b, k, y)
      && (n < k || (n == k && EarlierInTurn(round, a, b)))
  }

  // ---- the query, as ranks ----

  /** What the query reads of the job table; the estimate of a row's bytes is any function. */
  function Classified(jobs: Jobs, size: int -> nat): Table {
    map id | id in jobs && jobs[id].managedId.Some?
      :: Evidence(BuildJobs.Terminal(jobs[id].status), jobs[id].rejection != "", size(id))
  }

  function GroupOfLane(lane: Lane): Group {
    match lane case Active => 0 case Rejection => 1 case Outcome => 2
  }

  lemma LaneIsGroup(jobs: Jobs, size: int -> nat, lane: Lane, id: int)
    ensures id in Rows(Classified(jobs, size), GroupOfLane(lane)) <==> id in jobs && InLane(jobs[id], lane)
  {
  }

  lemma CursorIsOf(c: Cursors, lane: Lane, i: int, j: int)
    ensures c.Of(GroupOfLane(lane)) == CursorOf(c, lane)
    ensures i != j ==> (RotatedBefore(CursorOf(c, lane), i, j) <==> Descends(CursorOf(c, lane), i, j))
  {
  }

  lemma TurnIsPriority(round: nat, a: Lane, b: Lane)
    ensures EarlierInTurn(round, a, b) <==> Priority(round, GroupOfLane(a)) < Priority(round, GroupOfLane(b))
  {
  }

  /** A queue is its group in rotated order. */
  lemma QueueIsRotation(jobs: Jobs, size: int -> nat, c: Cursors, lane: Lane, queue: seq<int>)
    requires IsQueue(jobs, c, lane, queue)
    ensures var g := GroupOfLane(lane); ListsBy(Rows(Classified(jobs, size), g), Rotation(c.Of(g)), queue)
  {
    forall id { LaneIsGroup(jobs, size, lane, id); }
    forall i, j | 0 <= i < j < |queue| ensures RotatedBefore(c.Of(GroupOfLane(lane)), queue[i], queue[j]) {
      CursorIsOf(c, lane, queue[i], queue[j]);
      assert Descends(CursorOf(c, lane), queue[i], queue[j]);
    }
  }

  lemma QueueExists(jobs: Jobs, c: Cursors, lane: Lane) returns (queue: seq<int>)
    ensures IsQueue(jobs, c, lane, queue)
  {
    var rows := Rows(Classified(jobs, id => 0), GroupOfLane(lane));
    var cursor := CursorOf(c, lane);
    RotationIsStrict(rows, cursor);
    queue := ListExists(rows, Rotation(cursor));
    forall id: int ensures id in queue <==> id in jobs && InLane(jobs[id], lane) {
      LaneIsGroup(jobs, id => 0, lane, id);
    }
    forall i, j | 0 <= i < j < |queue| ensures Descends(cursor, queue[i], queue[j]) {
      CursorIsOf(c, lane, queue[i], queue[j]);
      assert Rotation(cursor)(queue[i], queue[j]);
    }
  }

  /** Every job table has its three queues. */
  lemma QueuesExist(jobs: Jobs, c: Cursors) returns (queues: Queues)
    ensures AreQueues(jobs, c, queues)
  {
    var active := QueueExists(jobs, c, Active);
    var rejection := QueueExists(jobs, c, Rejection);
    var outcome := QueueExists(jobs, c, Outcome);
    queues := (lane: Lane) => match lane case Active => active case Rejection => rejection case Outcome => outcome;
  }

  /** The rank of a row in its group is its number in its queue. */
  lemma PlaceIsNumber(jobs: Jobs, size: int -> nat, c: Cursors, queues: Queues, lane: Lane, n: nat, x: int)
    requires AreQueues(jobs, c, queues) && StandsAt(queues, lane, n, x)
    ensures var t := Classified(jobs, size);
            x in t && GroupOf(t[x]) == GroupOfLane(lane) && Place(t, c, x) == n + 1
  {
    var t, g := Classified(jobs, size), GroupOfLane(lane);
    assert IsQueue(jobs, c, lane, queues(lane));
    assert x in queues(lane);
    LaneIsGroup(jobs, size, lane, x);
    QueueIsRotation(jobs, size, c, lane, queues(lane));
    RotationIsStrict(Rows(t, g), c.Of(g));
    AheadIsPrefix(Rows(t, g), Rotation(c.Of(g)), queues(lane), n);
  }

  lemma EveryRowStands(jobs: Jobs, size: int -> nat, c: Cursors, queues: Queues, x: int) returns (lane: Lane, n: nat)
    requires AreQueues(jobs, c, queues) && x in Classified(jobs, size)
    ensures StandsAt(queues, lane, n, x)
  {
    lane := if InLane(jobs[x], Active) then Active else if InLane(jobs[x], Rejection) then Rejection else Outcome;
    assert IsQueue(jobs, c, lane, queues(lane));
    assert x in queues(lane);
    n :| 0 <= n < |queues(lane)| && queues(lane)[n] == x;
  }

  lemma TurnsInterleave(jobs: Jobs, size: int -> nat, c: Cursors, queues: Queues, round: nat, x: int, y: int)
    requires AreQueues(jobs, c, queues) && GoesFirst(queues, round, x, y)
    ensures InterleavedBefore(Classified(jobs, size), c, round, x, y)
  {
    var a, n: nat, b, k: nat :| StandsAt(queues, a, n, x) && StandsAt(queues, b, k, y)
      && (n < k || (n == k && EarlierInTurn(round, a, b)));
    PlaceIsNumber(jobs, size, c, queues, a, n, x);
    PlaceIsNumber(jobs, size, c, queues, b, k, y);
    TurnIsPriority(round, a, b);
  }

  lemma InterleavedInTurns(jobs: Jobs, size: int -> nat, c: Cursors, queues: Queues, round: nat, x: int, y: int)
    requires AreQueues(jobs, c, queues) && InterleavedBefore(Classified(jobs, size), c, round, x, y)
    ensures GoesFirst(queues, round, x, y)
  {
    var a, n := EveryRowStands(jobs, size, c, queues, x);
    var b, k := EveryRowStands(jobs, size, c, queues, y);
    PlaceIsNumber(jobs, size, c, queues, a, n, x);
    PlaceIsNumber(jobs, size, c, queues, b, k, y);
    TurnIsPriority(round, a, b);
  }

  // ---- the page ----

  predicate IsManaged(jobs: Jobs, id: int) {
    id in jobs && jobs[id].managedId.Some?
  }

  /** Some job waits behind the whole page and would exceed a budget. */
  ghost predicate IsFull(jobs: Jobs, size: int -> nat, queues: Queues, round: nat, budget: Budget, page: set<int>) {
    page != {} &&
    exists next :: IsManaged(jobs, next) && next !in page
      && (forall x :: x in page ==> GoesFirst(queues, round, x, next))
      && (|page| + 1 > budget.items || Sum(page, size) + size(next) > budget.bytes)
  }

  /** Managed jobs in turns, within both budgets unless it is one job alone, and no room for the next. */
  ghost predicate IsReport(jobs: Jobs, size: int -> nat, queues: Queues, round: nat, budget: Budget, page: set<int>) {
    && (forall id :: id in page ==> IsManaged(jobs, id))
    && (forall x, y :: y in page && GoesFirst(queues, round, x, y) ==> x in page)
    && (|page| <= 1 || (|page| <= budget.items && Sum(page, size) <= budget.bytes))
    && (forall id :: IsManaged(jobs, id) && id !in page ==> IsFull(jobs, size, queues, round, budget, page))
  }

  lemma SizesAre(jobs: Jobs, size: int -> nat, page: set<int>)
    requires forall id :: id in page ==> IsManaged(jobs, id)
    ensures Sum(page, Size(Classified(jobs, size))) == Sum(page, size)
  {
    var f := Size(Classified(jobs, size));
    forall id: int | id in page ensures f(id) == size(id) { assert IsManaged(jobs, id); }
    SumAgrees(page, f, size);
  }

  lemma NextWaits(jobs: Jobs, size: int -> nat, c: Cursors, queues: Queues, round: nat, budget: Budget,
                  page: set<int>, next: int)
    requires AreQueues(jobs, c, queues) && page != {} && page <= Classified(jobs, size).Keys
    requires next in Classified(jobs, size) && next !in page
    requires forall x :: x in page ==> InterleavedBefore(Classified(jobs, size), c, round, x, next)
    requires |page| + 1 > budget.items || Sum(page, size) + size(next) > budget.bytes
    ensures IsFull(jobs, size, queues, round, budget, page)
  {
    assert IsManaged(jobs, next);
    forall x | x in page ensures GoesFirst(queues, round, x, next) {
      InterleavedInTurns(jobs, size, c, queues, round, x, next);
    }
  }

  /** The first row that a page leaves out. */
  lemma NextRow(t: Table, c: Cursors, round: nat, budget: Budget) returns (next: int)
    requires ReportPage(t, c, round, budget) != t.Keys && ReportPage(t, c, round, budget) != {}
    ensures next in t && next !in ReportPage(t, c, round, budget)
    ensures forall x :: x in ReportPage(t, c, round, budget) ==> InterleavedBefore(t, c, round, x, next)
    ensures var page := ReportPage(t, c, round, budget);
            |page| + 1 > budget.items || Sum(page, Size(t)) + t[next].size > budget.bytes
  {
    var order, page := Order(t, c, round), ReportPage(t, c, round, budget);
    InterleavingIsTotal(t, c, round);
    PageIsLongestPrefix(t.Keys, order, Size(t), budget);
    next :| next in t.Keys - page && (forall j :: j in page ==> order(j, next))
      && (|page| + 1 > budget.items || Sum(page, Size(t)) + Size(t)(next) > budget.bytes);
  }

  lemma PageIsFull(jobs: Jobs, size: int -> nat, c: Cursors, queues: Queues, round: nat, budget: Budget)
    requires AreQueues(jobs, c, queues)
    requires var t := Classified(jobs, size);
             ReportPage(t, c, round, budget) != t.Keys && ReportPage(t, c, round, budget) != {}
    ensures IsFull(jobs, size, queues, round, budget, ReportPage(Classified(jobs, size), c, round, budget))
  {
    var t := Classified(jobs, size);
    var page := ReportPage(t, c, round, budget);
    var next := NextRow(t, c, round, budget);
    SizesAre(jobs, size, page);
    NextWaits(jobs, size, c, queues, round, budget, page, next);
  }

  /** `list_build_jobs_report_page` reports the managed jobs in turns, as far as the budgets go. */
  lemma ReportPageMeans(jobs: Jobs, size: int -> nat, c: Cursors, queues: Queues, round: nat, budget: Budget)
    requires AreQueues(jobs, c, queues)
    ensures IsReport(jobs, size, queues, round, budget, ReportPage(Classified(jobs, size), c, round, budget))
  {
    var t := Classified(jobs, size);
    var page := ReportPage(t, c, round, budget);
    InterleavingIsTotal(t, c, round);
    forall x, y | y in page && GoesFirst(queues, round, x, y) ensures x in page {
      TurnsInterleave(jobs, size, c, queues, round, x, y);
      PageIsPrefix(t.Keys, Order(t, c, round), Size(t), budget, x, y);
    }
    if t.Keys == {} {
      assert page == {};
    } else {
      PageIsLongestPrefix(t.Keys, Order(t, c, round), Size(t), budget);
      PageIsNotEmpty(t.Keys, Order(t, c, round), Size(t), budget);
      SizesAre(jobs, size, page);
      if page != t.Keys { PageIsFull(jobs, size, c, queues, round, budget); }
    }
  }
}

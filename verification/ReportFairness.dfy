/** Build-job reports: three groups, each rotated by its own cursor, interleaved by a priority that
    changes every round, so that no job of a stable group waits forever.  */
module ReportFairness {
  import opened Options
  import opened FiniteSets
  import opened Orders
  import opened ReportPages

  /** A managed job as the report query sees it. */
  datatype Evidence = Evidence(terminal: bool, rejected: bool, size: nat)

  type Table = map<int, Evidence>
  type Group = g: nat | g < 3

  /** One cursor per group. */
  datatype Cursors = Cursors(active: Option<int>, rejection: Option<int>, terminal: Option<int>) {
    function Of(g: Group): Option<int> {
      if g == 0 then active else if g == 1 then rejection else terminal
    }
  }

  function GroupOf(e: Evidence): Group {
    if !e.terminal then 0 else if e.rejected then 1 else 2
  }

  function Rows(t: Table, g: Group): set<int> {
    set id | id in t && GroupOf(t[id]) == g
  }

  predicate Wraps(cursor: Option<int>, id: int) {
    cursor.Some? && id >= cursor.value
  }

  /** Rotation: ids below the cursor first, both parts by descending id. */
  predicate RotatedBefore(cursor: Option<int>, i: int, j: int) {
    (!Wraps(cursor, i) && Wraps(cursor, j)) || (Wraps(cursor, i) == Wraps(cursor, j) && i > j)
  }

  function Rotation(cursor: Option<int>): (int, int) -> bool {
    (i, j) => RotatedBefore(cursor, i, j)
  }

  ghost function Place(t: Table, c: Cursors, id: int): nat
    requires id in t
  {
    var g := GroupOf(t[id]);
    Position(Rows(t, g), Rotation(c.Of(g)), id)
  }

  /** Which group goes first in which round of four. */
  function Priority(round: nat, g: Group): nat {
    match round % 4
    case 1 => if g == 2 then 0 else if g == 1 then 1 else 2
    case 2 => if g == 1 then 0 else if g == 0 then 1 else 2
    case _ => g
  }

  ghost predicate InterleavedBefore(t: Table, c: Cursors, round: nat, i: int, j: int) {
    i in t && j in t &&
    (Place(t, c, i) < Place(t, c, j)
     || (Place(t, c, i) == Place(t, c, j) && Priority(round, GroupOf(t[i])) < Priority(round, GroupOf(t[j]))))
  }

  ghost function Order(t: Table, c: Cursors, round: nat): (int, int) -> bool {
    (i, j) => InterleavedBefore(t, c, round, i, j)
  }

  function Size(t: Table): int -> nat {
    id => if id in t then t[id].size else 0
  }

  /** `list_build_jobs_report_page`. */
  ghost function ReportPage(t: Table, c: Cursors, round: nat, budget: Budget): set<int> {
    Page(t.Keys, Order(t, c, round), Size(t), budget)
  }

  // ---- one page ----

  lemma InterleavingIsStrict(t: Table, c: Cursors, round: nat)
    ensures StrictOrder(t.Keys, Order(t, c, round))
  {
  }

  lemma RotationIsStrict(rows: set<int>, cursor: Option<int>)
    ensures TotalOrder(rows, Rotation(cursor))
  {
  }

  /** Within a group, the page takes a prefix of the rotation. */
  lemma GroupPrefix(t: Table, c: Cursors, round: nat, budget: Budget, g: Group, i: int, x: int)
    requires i in Rows(t, g) && x in Rows(t, g) && RotatedBefore(c.Of(g), i, x)
    requires x in ReportPage(t, c, round, budget)
    ensures i in ReportPage(t, c, round, budget)
  {
    RotationIsStrict(Rows(t, g), c.Of(g));
    EarlierRanksLower(Rows(t, g), Rotation(c.Of(g)), Size(t), i, x);
    InterleavingIsStrict(t, c, round);
    PageIsPrefix(t.Keys, Order(t, c, round), Size(t), budget, i, x);
  }

  /** The group with priority zero gets a row into the page. */
  lemma FavouredGroupReports(t: Table, c: Cursors, round: nat, budget: Budget, g: Group) returns (x: int)
    requires Priority(round, g) == 0 && Rows(t, g) != {}
    ensures x in Rows(t, g) && x in ReportPage(t, c, round, budget)
  {
    RotationIsStrict(Rows(t, g), c.Of(g));
    x := FirstOf(Rows(t, g), Rows(t, g), Rotation(c.Of(g)));
    assert Ahead(Rows(t, g), Rotation(c.Of(g)), x) == {};
    assert Place(t, c, x) == 1;
    assert Ahead(t.Keys, Order(t, c, round), x) == {};
  }

  /** The interleaving decides between any two rows, so a page is its longest prefix in budget. */
  lemma InterleavingIsTotal(t: Table, c: Cursors, round: nat)
    ensures TotalOrder(t.Keys, Order(t, c, round))
  {
    forall i, j | i in t && j in t && i != j
      ensures InterleavedBefore(t, c, round, i, j) || InterleavedBefore(t, c, round, j, i)
    {
      var g := GroupOf(t[i]);
      if g == GroupOf(t[j]) {
        RotationIsStrict(Rows(t, g), c.Of(g));
        if RotatedBefore(c.Of(g), i, j) {
          EarlierRanksLower(Rows(t, g), Rotation(c.Of(g)), Size(t), i, j);
        } else {
          EarlierRanksLower(Rows(t, g), Rotation(c.Of(g)), Size(t), j, i);
        }
      }
    }
  }

  // ---- a rotation, as a list ----

  /** How many ids of a descending list are at or above the cursor: they come first in it. */
  lemma {:induction false} WrapPoint(cursor: Option<int>, desc: seq<int>) returns (k: nat)
    requires forall i, j :: 0 <= i < j < |desc| ==> Newer(desc[i], desc[j])
    ensures k <= |desc| && forall i :: 0 <= i < |desc| ==> (Wraps(cursor, desc[i]) <==> i < k)
  {
    if desc == [] || !Wraps(cursor, desc[0]) {
      k := 0;
    } else {
      var rest := WrapPoint(cursor, desc[1..]);
      k := rest + 1;
      forall i | 0 <= i < |desc| ensures Wraps(cursor, desc[i]) <==> i < k {
        if i > 0 { assert desc[i] == desc[1..][i - 1]; }
      }
    }
  }

  /** The ids at or above the cursor. */
  function Wrapping(rows: set<int>, cursor: Option<int>): set<int> {
    set id | id in rows && Wraps(cursor, id)
  }

  lemma WrapCount(rows: set<int>, cursor: Option<int>, desc: seq<int>, k: nat)
    requires ListsBy(rows, Newer, desc) && k <= |desc|
    requires forall i :: 0 <= i < |desc| ==> (Wraps(cursor, desc[i]) <==> i < k)
    ensures |Wrapping(rows, cursor)| == k
  {
    var prefix := desc[..k];
    forall id | id in Wrapping(rows, cursor) ensures id in prefix {
      assert id in desc;
      var i :| 0 <= i < |desc| && desc[i] == id;
      assert prefix[i] == id;
    }
    SizeOfDistinct(prefix);
    ElementsAre(Wrapping(rows, cursor), prefix);
  }

  lemma RotatedListIsOrdered(rows: set<int>, cursor: Option<int>, desc: seq<int>, k: nat)
    requires ListsBy(rows, Newer, desc) && k <= |desc|
    requires forall i :: 0 <= i < |desc| ==> (Wraps(cursor, desc[i]) <==> i < k)
    ensures ListsBy(rows, Rotation(cursor), desc[k..] + desc[..k])
  {
    var rotated := desc[k..] + desc[..k];
    assert desc == desc[..k] + desc[k..];
    forall x ensures x in rotated <==> x in rows { assert x in desc <==> x in desc[..k] || x in desc[k..]; }
    forall i, j | 0 <= i < j < |rotated| ensures RotatedBefore(cursor, rotated[i], rotated[j]) {
      var n := |desc| - k;
      assert rotated[i] == desc[if i < n then i + k else i - n] && rotated[j] == desc[if j < n then j + k else j - n];
    }
  }

  /** For any cursor, present or deleted, the rotated order of a group is its id-descending list,
      rotated by the number of ids at or above the cursor; and a row's place is its index there.  */
  lemma RotationOfList(rows: set<int>, cursor: Option<int>, desc: seq<int>, order: seq<int>)
    requires ListsBy(rows, Newer, desc) && ListsBy(rows, Rotation(cursor), order)
    ensures |Wrapping(rows, cursor)| <= |desc|
    ensures order == desc[|Wrapping(rows, cursor)|..] + desc[..|Wrapping(rows, cursor)|]
    ensures forall i :: 0 <= i < |order| ==> Position(rows, Rotation(cursor), order[i]) == i + 1
  {
    var k := WrapPoint(cursor, desc);
    WrapCount(rows, cursor, desc, k);
    RotatedListIsOrdered(rows, cursor, desc, k);
    RotationIsStrict(rows, cursor);
    ListIsUnique(rows, Rotation(cursor), order, desc[k..] + desc[..k]);
    forall i | 0 <= i < |order| ensures Position(rows, Rotation(cursor), order[i]) == i + 1 {
      AheadIsPrefix(rows, Rotation(cursor), order, i);
    }
  }

  // ---- rounds ----

  ghost function Reported(t: Table, c: Cursors, round: nat, budget: Budget, g: Group): set<int> {
    set x | x in Rows(t, g) && x in ReportPage(t, c, round, budget)
  }

  /** `last` is what the group reported last. */
  ghost predicate LastReported(reported: set<int>, cursor: Option<int>, last: int) {
    last in reported && forall j :: j in reported ==> !RotatedBefore(cursor, last, j)
  }

  /** An accepted report moves the cursor of each group it reported from. */
  ghost predicate Advances(t: Table, c: Cursors, round: nat, budget: Budget, g: Group, next: Option<int>) {
    var reported := Reported(t, c, round, budget, g);
    if reported == {} then next == c.Of(g) else next.Some? && LastReported(reported, c.Of(g), next.value)
  }

  /** Moving the cursor to `last` rotates the order: what was ahead of `x` stays ahead of it, except
      `last` and what preceded it.  */
  lemma CursorRotates(cursor: Option<int>, last: int, x: int, j: int)
    requires RotatedBefore(cursor, last, x)
    ensures RotatedBefore(Some(last), j, x) <==>
              RotatedBefore(cursor, j, x) && j != last && !RotatedBefore(cursor, j, last)
  {
  }

  ghost function Wait(rows: set<int>, cursor: Option<int>, x: int): nat {
    |Ahead(rows, Rotation(cursor), x)|
  }

  lemma WaitShrinks(rows: set<int>, cursor: Option<int>, last: int, x: int)
    requires last in rows && x in rows && RotatedBefore(cursor, last, x)
    ensures Wait(rows, Some(last), x) < Wait(rows, cursor, x)
  {
    forall j | j in rows ensures RotatedBefore(Some(last), j, x) ==> RotatedBefore(cursor, j, x) && j != last {
      CursorRotates(cursor, last, x, j);
    }
    SubsetIsSmaller(Ahead(rows, Rotation(Some(last)), x), Ahead(rows, Rotation(cursor), x), last);
  }

  /** A round that does not report `x` brings it no further back, and one that favours its group
      brings it forward.  */
  lemma RoundMakesProgress(t: Table, c: Cursors, round: nat, budget: Budget, g: Group, next: Option<int>, x: int)
    requires Advances(t, c, round, budget, g, next)
    requires x in Rows(t, g) && x !in ReportPage(t, c, round, budget)
    ensures Wait(Rows(t, g), next, x) <= Wait(Rows(t, g), c.Of(g), x)
    ensures Priority(round, g) == 0 ==> Wait(Rows(t, g), next, x) < Wait(Rows(t, g), c.Of(g), x)
  {
    if Priority(round, g) == 0 {
      var first := FavouredGroupReports(t, c, round, budget, g);
      assert first in Reported(t, c, round, budget, g);
    }
    if Reported(t, c, round, budget, g) != {} {
      if RotatedBefore(c.Of(g), x, next.value) { GroupPrefix(t, c, round, budget, g, x, next.value); }
      assert RotatedBefore(c.Of(g), next.value, x);
      WaitShrinks(Rows(t, g), c.Of(g), next.value, x);
    }
  }

  ghost predicate StableRound(tables: nat -> Table, cursors: nat -> Cursors, budgets: nat -> Budget, g: Group,
                              rows: set<int>, k: nat) {
    Rows(tables(k), g) == rows && Advances(tables(k), cursors(k), k, budgets(k), g, cursors(k + 1).Of(g))
  }

  /** From `from` to `end` the group does not change and its cursor follows the reports; everything
      else may change from round to round.  */
  ghost predicate Stable(tables: nat -> Table, cursors: nat -> Cursors, budgets: nat -> Budget, g: Group,
                         rows: set<int>, from: nat, end: nat) {
    forall k :: from <= k < end ==> StableRound(tables, cursors, budgets, g, rows, k)
  }

  ghost predicate ReportedAt(tables: nat -> Table, cursors: nat -> Cursors, budgets: nat -> Budget, x: int, k: nat) {
    x in ReportPage(tables(k), cursors(k), k, budgets(k))
  }

  lemma OneRound(tables: nat -> Table, cursors: nat -> Cursors, budgets: nat -> Budget, g: Group,
                 rows: set<int>, x: int, k: nat, from: nat, end: nat)
    requires Stable(tables, cursors, budgets, g, rows, from, end) && from <= k < end
    requires x in rows && !ReportedAt(tables, cursors, budgets, x, k)
    ensures Wait(rows, cursors(k + 1).Of(g), x) <= Wait(rows, cursors(k).Of(g), x)
    ensures Priority(k, g) == 0 ==> Wait(rows, cursors(k + 1).Of(g), x) < Wait(rows, cursors(k).Of(g), x)
  {
    assert StableRound(tables, cursors, budgets, g, rows, k);
    RoundMakesProgress(tables(k), cursors(k), k, budgets(k), g, cursors(k + 1).Of(g), x);
  }

  lemma FavouredRound(k: nat, g: Group) returns (f: nat)
    ensures k <= f < k + 4 && Priority(f, g) == 0
  {
    var q, r := k / 4, k % 4;
    var favoured := if g == 0 then 0 else if g == 1 then 2 else 1;
    f := 4 * (if r <= favoured then q else q + 1) + favoured;
    assert f % 4 == favoured;
  }

  lemma {:induction false} NeverFurtherBack(tables: nat -> Table, cursors: nat -> Cursors, budgets: nat -> Budget,
                                            g: Group, rows: set<int>, x: int, k: nat, end: nat)
    requires k <= end && Stable(tables, cursors, budgets, g, rows, k, end) && x in rows
    requires forall i :: k <= i < end ==> !ReportedAt(tables, cursors, budgets, x, i)
    ensures Wait(rows, cursors(end).Of(g), x) <= Wait(rows, cursors(k).Of(g), x)
    decreases end - k
  {
    if k == end {
    } else {
      OneRound(tables, cursors, budgets, g, rows, x, k, k, end);
      NeverFurtherBack(tables, cursors, budgets, g, rows, x, k + 1, end);
    }
  }

  /** Four rounds favour every group once. */
  lemma FourRounds(tables: nat -> Table, cursors: nat -> Cursors, budgets: nat -> Budget, g: Group,
                   rows: set<int>, x: int, k: nat)
    requires Stable(tables, cursors, budgets, g, rows, k, k + 4) && x in rows
    requires forall i :: k <= i < k + 4 ==> !ReportedAt(tables, cursors, budgets, x, i)
    ensures Wait(rows, cursors(k + 4).Of(g), x) < Wait(rows, cursors(k).Of(g), x)
  {
    var f := FavouredRound(k, g);
    NeverFurtherBack(tables, cursors, budgets, g, rows, x, k, f);
    OneRound(tables, cursors, budgets, g, rows, x, f, k, k + 4);
    NeverFurtherBack(tables, cursors, budgets, g, rows, x, f + 1, k + 4);
  }

  lemma {:induction false} ReportedInTime(tables: nat -> Table, cursors: nat -> Cursors, budgets: nat -> Budget,
                                          g: Group, rows: set<int>, x: int, k: nat, w: nat) returns (i: nat)
    requires Stable(tables, cursors, budgets, g, rows, k, k + 4 * w) && x in rows
    requires Wait(rows, cursors(k).Of(g), x) < w
    ensures k <= i < k + 4 * w && ReportedAt(tables, cursors, budgets, x, i)
    decreases w
  {
    if j :| k <= j < k + 4 && ReportedAt(tables, cursors, budgets, x, j) {
      i := j;
    } else {
      FourRounds(tables, cursors, budgets, g, rows, x, k);
      i := ReportedInTime(tables, cursors, budgets, g, rows, x, k + 4, w - 1);
    }
  }

  /** Fairness: every job of a group of n that does not change is reported within 4n rounds, whatever
      the cursor was, whatever the budgets are and whatever the other groups do.  */
  lemma EveryJobIsReported(tables: nat -> Table, cursors: nat -> Cursors, budgets: nat -> Budget, g: Group,
                           rows: set<int>, x: int, start: nat) returns (i: nat)
    requires Stable(tables, cursors, budgets, g, rows, start, start + 4 * |rows|) && x in rows
    ensures start <= i < start + 4 * |rows| && x in ReportPage(tables(i), cursors(i), i, budgets(i))
  {
    SubsetIsSmaller(Ahead(rows, Rotation(cursors(start).Of(g)), x), rows, x);
    i := ReportedInTime(tables, cursors, budgets, g, rows, x, start, |rows|);
  }
}

/** Report pages: a snapshot ranked by a strict order and cut by an item and a byte budget, the
    first row always included; and the walk over the cache inventory page by page.  */
module ReportPages {
  import opened Options
  import opened FiniteSets
  import opened Orders

  datatype Budget = Budget(items: nat, bytes: nat)

  /** `ROW_NUMBER()` over the order. */
  ghost function Position<T(!new)>(rows: set<T>, before: (T, T) -> bool, x: T): nat {
    1 + |Ahead(rows, before, x)|
  }

  ghost function UpTo<T(!new)>(rows: set<T>, before: (T, T) -> bool, x: T): set<T> {
    set j | j in rows && !before(x, j)
  }

  /** The running `SUM` over the order. */
  ghost function Running<T(!new)>(rows: set<T>, before: (T, T) -> bool, size: T -> nat, x: T): nat {
    Sum(UpTo(rows, before, x), size)
  }

  ghost predicate Fits<T(!new)>(rows: set<T>, before: (T, T) -> bool, size: T -> nat, budget: Budget, x: T) {
    Position(rows, before, x) <= budget.items && Running(rows, before, size, x) <= budget.bytes
  }

  /** The rows a page selects. */
  ghost function Page<T(!new)>(rows: set<T>, before: (T, T) -> bool, size: T -> nat, budget: Budget): set<T> {
    set x | x in rows && (Position(rows, before, x) == 1 || Fits(rows, before, size, budget, x))
  }

  /** Earlier rows have smaller positions and running sums. */
  lemma EarlierRanksLower<T(!new)>(rows: set<T>, before: (T, T) -> bool, size: T -> nat, i: T, x: T)
    requires StrictOrder(rows, before) && i in rows && x in rows && before(i, x)
    ensures Position(rows, before, i) < Position(rows, before, x)
    ensures Running(rows, before, size, i) <= Running(rows, before, size, x)
  {
    SubsetIsSmaller(Ahead(rows, before, i), Ahead(rows, before, x), i);
    SumOfSubset(UpTo(rows, before, i), UpTo(rows, before, x), size);
  }

  /** A page is a prefix of the order. */
  lemma PageIsPrefix<T(!new)>(rows: set<T>, before: (T, T) -> bool, size: T -> nat, budget: Budget, i: T, x: T)
    requires StrictOrder(rows, before) && i in rows && before(i, x)
    requires x in Page(rows, before, size, budget)
    ensures i in Page(rows, before, size, budget)
  {
    EarlierRanksLower(rows, before, size, i, x);
  }

  /** A page of a snapshot that is not empty is not empty. */
  lemma PageIsNotEmpty<T(!new)>(rows: set<T>, before: (T, T) -> bool, size: T -> nat, budget: Budget)
    requires StrictOrder(rows, before) && rows != {}
    ensures Page(rows, before, size, budget) != {}
  {
    var x := FirstOf(rows, rows, before);
    assert Ahead(rows, before, x) == {};
    assert x in Page(rows, before, size, budget);
  }

  lemma PrefixUpTo<T(!new)>(rows: set<T>, before: (T, T) -> bool, size: T -> nat, page: set<T>, x: T)
    requires TotalOrder(rows, before) && page <= rows && x in page && forall j :: j in page ==> !before(x, j)
    requires forall i, j :: i in rows && j in page && before(i, j) ==> i in page
    ensures UpTo(rows, before, x) == page && Position(rows, before, x) == |page|
  {
    assert UpTo(rows, before, x) == page;
    assert page == Ahead(rows, before, x) + {x};
  }

  lemma NextExceeds<T(!new)>(rows: set<T>, before: (T, T) -> bool, size: T -> nat, budget: Budget, page: set<T>,
                             next: T)
    requires TotalOrder(rows, before) && page <= rows && page != {} && next in rows - page
    requires forall i, j :: i in rows && j in page && before(i, j) ==> i in page
    requires forall j :: j in rows - page ==> !before(j, next)
    requires !Fits(rows, before, size, budget, next)
    ensures forall j :: j in page ==> before(j, next)
    ensures |page| + 1 > budget.items || Sum(page, size) + size(next) > budget.bytes
  {
    forall j | j in page ensures before(j, next) { assert !before(next, j); }
    assert Ahead(rows, before, next) == page;
    assert UpTo(rows, before, next) == page + {next};
    SumWithout(page + {next}, size, next);
    assert page + {next} - {next} == page;
  }

  /** A page is the longest prefix within both budgets, or a single row: it stays within them, and
      the next row would exceed one.  */
  lemma PageIsLongestPrefix<T(!new)>(rows: set<T>, before: (T, T) -> bool, size: T -> nat, budget: Budget)
    requires TotalOrder(rows, before) && rows != {}
    ensures var page := Page(rows, before, size, budget);
            && (|page| == 1 || (|page| <= budget.items && Sum(page, size) <= budget.bytes))
            && (page == rows || exists next :: next in rows - page && (forall j :: j in page ==> before(j, next))
                                  && (|page| + 1 > budget.items || Sum(page, size) + size(next) > budget.bytes))
  {
    var page := Page(rows, before, size, budget);
    forall i, j | i in rows && j in page && before(i, j) ensures i in page {
      PageIsPrefix(rows, before, size, budget, i, j);
    }
    PageIsNotEmpty(rows, before, size, budget);
    var last := LatestOf(rows, page, before);
    PrefixUpTo(rows, before, size, page, last);
    if page != rows {
      var next := FirstOf(rows, rows - page, before);
      NextExceeds(rows, before, size, budget, page, next);
    }
  }

  // ---- the cache inventory ----

  function Rest(rows: set<int>, cursor: Option<int>): set<int> {
    set id | id in rows && (cursor.None? || id < cursor.value)
  }

  ghost function InventoryPage(rows: set<int>, size: int -> nat, cursor: Option<int>, budget: Budget): set<int> {
    Page(Rest(rows, cursor), Newer, size, budget)
  }

  /** `cursor` names the last row of a page listed by descending id. */
  ghost predicate LastOf(page: set<int>, cursor: int) {
    cursor in page && forall id :: id in page ==> cursor <= id
  }

  /** Following the cursor removes exactly the page; the page is complete when nothing is left. */
  lemma NextRest(rows: set<int>, size: int -> nat, cursor: Option<int>, budget: Budget, next: int)
    requires LastOf(InventoryPage(rows, size, cursor, budget), next)
    ensures Rest(rows, Some(next)) == Rest(rows, cursor) - InventoryPage(rows, size, cursor, budget)
    ensures |InventoryPage(rows, size, cursor, budget)| == |Rest(rows, cursor)| <==> Rest(rows, Some(next)) == {}
  {
    var rest, page := Rest(rows, cursor), InventoryPage(rows, size, cursor, budget);
    forall id | id in rest ensures id in page <==> id >= next {
      if id > next { PageIsPrefix(rest, Newer, size, budget, id, next); }
    }
    assert rest == page + Rest(rows, Some(next));
  }

  ghost predicate IsStep(rows: set<int>, size: int -> nat, budget: Budget, cursor: Option<int>, page: set<int>,
                         next: Option<int>) {
    page == InventoryPage(rows, size, cursor, budget) && next.Some? && LastOf(page, next.value)
  }

  /** The pages of one traversal: each cut from what the previous ones left, newest rows first. */
  ghost predicate IsTraversal(rows: set<int>, size: int -> nat, budget: Budget, pages: seq<set<int>>,
                              cursors: seq<Option<int>>)
  {
    && |cursors| == |pages| + 1 && cursors[0] == None
    && forall k :: 0 <= k < |pages| ==> IsStep(rows, size, budget, cursors[k], pages[k], cursors[k + 1])
  }

  /** The rows of the first `k` pages. */
  ghost function Covered(pages: seq<set<int>>, k: nat): set<int>
    requires k <= |pages|
  {
    if k == 0 then {} else Covered(pages, k - 1) + pages[k - 1]
  }

  /** `newer` and `older` are the inventory cut in two. */
  ghost predicate IsCut(rows: set<int>, newer: set<int>, older: set<int>) {
    newer !! older && newer + older == rows && forall i, j :: i in newer && j in older ==> i > j
  }

  lemma PageIsMoved(rows: set<int>, size: int -> nat, budget: Budget, covered: set<int>, cursor: Option<int>,
                    page: set<int>, next: Option<int>)
    requires IsStep(rows, size, budget, cursor, page, next)
    requires IsCut(rows, covered, Rest(rows, cursor))
    ensures IsCut(rows, covered + page, Rest(rows, next))
  {
    NextRest(rows, size, cursor, budget, next.value);
    CutMoves(rows, covered, Rest(rows, cursor), page);
    forall i, j | i in covered + page && j in Rest(rows, next) ensures i > j {
      if i in covered { assert j in Rest(rows, cursor); }
    }
  }

  lemma {:induction false} TraversalCovers(rows: set<int>, size: int -> nat, budget: Budget, pages: seq<set<int>>,
                                           cursors: seq<Option<int>>, k: nat)
    requires IsTraversal(rows, size, budget, pages, cursors) && k <= |pages|
    ensures IsCut(rows, Covered(pages, k), Rest(rows, cursors[k]))
  {
    if k == 0 {
    } else {
      TraversalCovers(rows, size, budget, pages, cursors, k - 1);
      assert IsStep(rows, size, budget, cursors[k - 1], pages[k - 1], cursors[k - 1 + 1]);
      PageIsMoved(rows, size, budget, Covered(pages, k - 1), cursors[k - 1], pages[k - 1], cursors[k]);
    }
  }

  /** Inventory paging: every page is nonempty and newer than all later ones, and the page that
      reports completeness is the one that completes the inventory.  */
  lemma InventoryPaging(rows: set<int>, size: int -> nat, budget: Budget, pages: seq<set<int>>,
                        cursors: seq<Option<int>>, k: nat)
    requires IsTraversal(rows, size, budget, pages, cursors) && k < |pages|
    ensures pages[k] != {} && pages[k] <= rows && Covered(pages, k) !! pages[k]
    ensures forall i, j :: i in Covered(pages, k) && j in pages[k] ==> i > j
    ensures |pages[k]| == |Rest(rows, cursors[k])| <==> Covered(pages, k + 1) == rows
  {
    TraversalCovers(rows, size, budget, pages, cursors, k);
    TraversalCovers(rows, size, budget, pages, cursors, k + 1);
    NextRest(rows, size, cursors[k], budget, cursors[k + 1].value);
  }

  lemma NextPage(rows: set<int>, size: int -> nat, budget: Budget, cursor: Option<int>) returns (next: int)
    requires Rest(rows, cursor) != {}
    ensures LastOf(InventoryPage(rows, size, cursor, budget), next)
  {
    var rest := Rest(rows, cursor);
    PageIsNotEmpty(rest, Newer, size, budget);
    next := LatestOf(rest, InventoryPage(rows, size, cursor, budget), Newer);
  }

  /** Any traversal, wherever it stands, goes on to cover the whole inventory. */
  lemma {:induction false} TraversalCompletes(rows: set<int>, size: int -> nat, budget: Budget, pages: seq<set<int>>,
                                              cursors: seq<Option<int>>)
    returns (all: seq<set<int>>, ends: seq<Option<int>>)
    requires IsTraversal(rows, size, budget, pages, cursors)
    ensures IsTraversal(rows, size, budget, all, ends) && pages <= all && Covered(all, |all|) == rows
    decreases |Rest(rows, cursors[|pages|])|
  {
    var cursor := cursors[|pages|];
    if Rest(rows, cursor) == {} {
      TraversalCovers(rows, size, budget, pages, cursors, |pages|);
      all, ends := pages, cursors;
    } else {
      var next := NextPage(rows, size, budget, cursor);
      NextRest(rows, size, cursor, budget, next);
      SubsetIsSmaller(Rest(rows, Some(next)), Rest(rows, cursor), next);
      all, ends := TraversalCompletes(rows, size, budget, pages + [InventoryPage(rows, size, cursor, budget)],
                                      cursors + [Some(next)]);
    }
  }
}

/** Strict orders on finite sets: first and last elements, and the list that an order makes of a set. */
module Orders {
  import opened FiniteSets

  ghost predicate StrictOrder<T(!new)>(rows: set<T>, before: (T, T) -> bool) {
    && (forall i :: i in rows ==> !before(i, i))
    && (forall i, j, k :: i in rows && j in rows && k in rows && before(i, j) && before(j, k) ==> before(i, k))
  }

  ghost predicate TotalOrder<T(!new)>(rows: set<T>, before: (T, T) -> bool) {
    && StrictOrder(rows, before)
    && forall i, j :: i in rows && j in rows && i != j ==> before(i, j) || before(j, i)
  }

  ghost function Ahead<T(!new)>(rows: set<T>, before: (T, T) -> bool, x: T): set<T> {
    set j | j in rows && before(j, x)
  }

  predicate Newer(i: int, j: int) { i > j }

  lemma {:induction false} FirstOf<T(!new)>(rows: set<T>, among: set<T>, before: (T, T) -> bool) returns (x: T)
    requires StrictOrder(rows, before) && among <= rows && among != {}
    ensures x in among && forall j :: j in among ==> !before(j, x)
    decreases |among|
  {
    var y :| y in among;
    var ahead := Ahead(among, before, y);
    x := y;
    if ahead == {} {
    } else {
      SubsetIsSmaller(ahead, among, y);
      x := FirstOf(rows, ahead, before);
    }
    assert forall j :: j in among && j !in ahead ==> !before(j, x);
  }

  lemma {:induction false} LatestOf<T(!new)>(rows: set<T>, among: set<T>, before: (T, T) -> bool) returns (x: T)
    requires StrictOrder(rows, before) && among <= rows && among != {}
    ensures x in among && forall j :: j in among ==> !before(x, j)
    decreases |among|
  {
    var y :| y in among;
    var behind := set j | j in among && before(y, j);
    x := y;
    if behind == {} {
    } else {
      SubsetIsSmaller(behind, among, y);
      x := LatestOf(rows, behind, before);
    }
    assert forall j :: j in among && j !in behind ==> !before(x, j);
  }

  // ---- lists in order ----

  /** `s` lists the rows, each before those it precedes. */
  ghost predicate ListsBy<T(!new)>(rows: set<T>, before: (T, T) -> bool, s: seq<T>) {
    && (forall x :: x in s <==> x in rows)
    && (forall i, j :: 0 <= i < j < |s| ==> before(s[i], s[j]))
  }

  lemma OrderedIsDistinct<T(!new)>(rows: set<T>, before: (T, T) -> bool, s: seq<T>)
    requires StrictOrder(rows, before) && ListsBy(rows, before, s)
    ensures forall i, j :: 0 <= i < j < |s| ==> s[i] != s[j]
  {
    forall i, j | 0 <= i < j < |s| ensures s[i] != s[j] { assert s[i] in rows; }
  }

  /** The rows ahead of an element are those listed before it. */
  lemma AheadIsPrefix<T(!new)>(rows: set<T>, before: (T, T) -> bool, s: seq<T>, i: nat)
    requires StrictOrder(rows, before) && ListsBy(rows, before, s) && i < |s|
    ensures Ahead(rows, before, s[i]) == (set x | x in s[..i]) && |Ahead(rows, before, s[i])| == i
  {
    OrderedIsDistinct(rows, before, s);
    var ahead, prefix := Ahead(rows, before, s[i]), set x | x in s[..i];
    assert s[i] in rows;
    forall x | x in ahead ensures x in prefix {
      var k :| 0 <= k < |s| && s[k] == x;
      assert k < i;
      assert s[..i][k] == x;
    }
    assert ahead == prefix;
    SizeOfDistinct(s[..i]);
  }

  lemma LengthIsSize<T(!new)>(rows: set<T>, before: (T, T) -> bool, s: seq<T>)
    requires StrictOrder(rows, before) && ListsBy(rows, before, s)
    ensures |s| == |rows|
  {
    OrderedIsDistinct(rows, before, s);
    SizeOfDistinct(s);
    assert (set x | x in s) == rows;
  }

  /** An order makes one list of a set. */
  lemma ListIsUnique<T(!new)>(rows: set<T>, before: (T, T) -> bool, s: seq<T>, t: seq<T>)
    requires StrictOrder(rows, before) && ListsBy(rows, before, s) && ListsBy(rows, before, t)
    ensures s == t
  {
    LengthIsSize(rows, before, s);
    LengthIsSize(rows, before, t);
    forall i | 0 <= i < |s| ensures s[i] == t[i] {
      assert s[i] in rows;
      var k :| 0 <= k < |t| && t[k] == s[i];
      AheadIsPrefix(rows, before, s, i);
      AheadIsPrefix(rows, before, t, k);
    }
  }

  /** A total order makes a list of every set. */
  lemma {:induction false} ListExists<T(!new)>(rows: set<T>, before: (T, T) -> bool) returns (s: seq<T>)
    requires TotalOrder(rows, before)
    ensures ListsBy(rows, before, s)
    decreases |rows|
  {
    if rows == {} {
      s := [];
    } else {
      var last := LatestOf(rows, rows, before);
      var most := ListExists(rows - {last}, before);
      s := most + [last];
      forall i, j | 0 <= i < j < |s| ensures before(s[i], s[j]) { assert s[i] in rows - {last}; }
    }
  }
}

/** Finite sets: picking an element, and sizes of subsets. */
module FiniteSets {
  method PickAny<T(==)>(s: set<T>) returns (x: T)
    requires s != {}
    ensures x in s
  {
    x :| x in s;
  }

  lemma {:induction false} SubsetIsNotLarger<T>(a: set<T>, b: set<T>)
    requires a <= b
    ensures |a| <= |b|
  {
    if a == {} {
    } else {
      var x :| x in a;
      SubsetIsNotLarger(a - {x}, b - {x});
    }
  }

  lemma SubsetIsSmaller<T>(a: set<T>, b: set<T>, x: T)
    requires a <= b && x in b && x !in a
    ensures |a| < |b|
  {
    SubsetIsNotLarger(a, b - {x});
  }

  lemma SameSet<T(!new)>(a: set<T>, b: set<T>)
    requires b <= a && forall y :: y in a ==> y in b
    ensures a == b
  {
  }

  lemma ElementsAre<T(!new)>(s: set<T>, ps: seq<T>)
    requires (forall x :: x in s ==> x in ps) && forall i :: 0 <= i < |ps| ==> ps[i] in s
    ensures (set x | x in ps) == s
  {
  }

  lemma {:induction false} SizeOfDistinct<T(!new)>(ps: seq<T>)
    requires forall i, j :: 0 <= i < j < |ps| ==> ps[i] != ps[j]
    ensures |set p | p in ps| == |ps|
  {
    if ps == [] {
      assert (set p | p in ps) == {};
    } else {
      SizeOfDistinct(ps[1..]);
      var rest := set p | p in ps[1..];
      assert ps == [ps[0]] + ps[1..];
      assert (set p | p in ps) == {ps[0]} + rest;
      assert ps[0] !in rest;
    }
  }

  // ---- sums ----

  ghost function Sum<T>(s: set<T>, f: T -> nat): nat {
    if s == {} then 0
    else
      var x :| x in s;
      f(x) + Sum(s - {x}, f)
  }

  lemma {:induction false} SumWithout<T>(s: set<T>, f: T -> nat, x: T)
    requires x in s
    ensures Sum(s, f) == f(x) + Sum(s - {x}, f)
    decreases |s|
  {
    var y :| y in s && Sum(s, f) == f(y) + Sum(s - {y}, f);
    if y == x {
    } else {
      SumWithout(s - {y}, f, x);
      SumWithout(s - {x}, f, y);
      assert s - {y} - {x} == s - {x} - {y};
    }
  }

  lemma {:induction false} SumOfSubset<T>(a: set<T>, b: set<T>, f: T -> nat)
    requires a <= b
    ensures Sum(a, f) <= Sum(b, f)
    decreases |b|
  {
    if a == b {
    } else {
      var x :| x in b && x !in a;
      SumWithout(b, f, x);
      SumOfSubset(a, b - {x}, f);
    }
  }

  lemma {:induction false} SumAgrees<T(!new)>(s: set<T>, f: T -> nat, g: T -> nat)
    requires forall x :: x in s ==> f(x) == g(x)
    ensures Sum(s, f) == Sum(s, g)
  {
    if s == {} {
    } else {
      var x :| x in s;
      SumWithout(s, f, x);
      SumWithout(s, g, x);
      SumAgrees(s - {x}, f, g);
    }
  }

  /** Moving a part from one side of a cut to the other leaves a cut. */
  lemma CutMoves<T>(all: set<T>, a: set<T>, b: set<T>, moved: set<T>)
    requires a !! b && a + b == all && moved <= b
    ensures a + moved !! b - moved && a + moved + (b - moved) == all
  {
  }

  ghost predicate IsSplit<T>(all: set<T>, a: set<T>, b: set<T>) {
    a !! b && a + b == all
  }

  lemma SplitMoves<T>(all: set<T>, a: set<T>, b: set<T>, x: T)
    requires IsSplit(all, a, b) && x in a
    ensures x in all && x !in b && IsSplit(all, a - {x}, b + {x}) && |a - {x}| < |a|
  {
  }

  lemma SplitEnds<T>(all: set<T>, b: set<T>)
    requires IsSplit(all, {}, b)
    ensures b == all
  {
  }
}

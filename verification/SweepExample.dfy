/** A cache that a sweep breaks: the root's record writes its reference as a full path, which the
    verifier accepts and the mark phase does not follow.  */
module SweepExample {
  import opened Options
  import opened StorePaths
  import opened TextOrder
  import opened CacheModel
  import opened ReferenceGraph
  import opened NarinfoCheck
  import opened ClosureManifest
  import opened Sweeper
  import opened SweepSafety
  import opened ExampleCache

  /** `a` refers to `b` by its full path. */
  function Pair(a: string, b: string): Disk
    requires TwoPaths(a, b)
  {
    Disk(map[Stem(a) := File(a, "nar/x", b), Stem(b) := File(b, "nar/x", "")], map["x" := [0]])
  }

  function RowOf(a: string): Row
    requires ValidStorePath(a)
  {
    Row("system", "a", Nar("x"), a, Narinfo(Stem(a)), "nar/x", "h", "h", "xz", 1, 1, 2, Some({}), None, None, None,
        None, 0)
  }

  lemma PairMembers(a: string, b: string)
    requires TwoPaths(a, b)
    ensures var g := Members(Yes(), Pair(a, b), KEY);
            && a in g && g[a] == MemberAs(a, "nar/x", [b])
            && b in g && g[b] == TheMember(b)
  {
    PathIsOneToken(b);
    assert RefPaths([b]) == [b] && SortedDistinct([b]) == [b];
    assert RefPaths([]) == [] && SortedDistinct([]) == [];
    assert NarName("nar/x") == Some("x");
    FileIsMember(Pair(a, b), a, "nar/x", "x", b);
    FileIsMember(Pair(a, b), b, "nar/x", "x", "");
  }

  lemma PairVerifies(a: string, b: string)
    requires TwoPaths(a, b)
    ensures Build(Yes(), Pair(a, b), a, None, KEY).Verified?
  {
    PairMembers(a, b);
    PairWalks(Members(Yes(), Pair(a, b), KEY), a, b);
  }

  lemma {:induction false} NoReferences(lines: seq<Line>)
    requires forall i :: 0 <= i < |lines| && lines[i].key == References ==> HashesOf(Tokens(lines[i].value)) == []
    ensures LenientRefs(lines) == []
  {
    if lines == [] {
    } else {
      NoReferences(lines[1..]);
    }
  }

  lemma NothingFollowed(a: string, b: string)
    requires TwoPaths(a, b)
    ensures LenientRefs(File(a, "nar/x", b).lines) == []
  {
    PathIsOneToken(b);
    SweepFollowsBasenames(b);
    assert HashesOf([b]) == [];
    NoReferences(File(a, "nar/x", b).lines);
  }

  lemma OnlyRootIsLive(a: string, b: string)
    requires TwoPaths(a, b)
    ensures Live(Pair(a, b), [RowOf(a)], []) == {Stem(a)}
  {
    ValidPathStem(a);
    NothingFollowed(a, b);
    assert RowPaths([RowOf(a)])[0] == a;
    assert MarkRoots([RowOf(a)], []) == {Stem(a)};
    LeastIsClosure(MarkGraph(Pair(a, b)), {Stem(a)}, {Stem(a)});
  }

  lemma OtherIsDropped(a: string, b: string, live: set<string>)
    requires TwoPaths(a, b) && live == {Stem(a)}
    ensures !KeepsNarinfo([RowOf(a)], live, Stem(b))
    ensures !SweepKeeps(Yes(), Pair(a, b), KEY, [RowOf(a)], live, b)
  {
    PairMembers(a, b);
    ValidPathStem(b);
    MembersAreChecked(Yes(), Pair(a, b), KEY, b);
  }

  /** The root verifies, its row is retained, and the sweep takes a member of its closure. */
  lemma FullPathIsSwept(a: string, b: string)
    requires TwoPaths(a, b)
    ensures Build(Yes(), Pair(a, b), a, None, KEY).Verified?
    ensures Stem(b) !in Swept(Pair(a, b), [RowOf(a)], []).narinfos
    ensures Build(Yes(), Swept(Pair(a, b), [RowOf(a)], []), a, None, KEY) != Build(Yes(), Pair(a, b), a, None, KEY)
  {
    PairVerifies(a, b);
    PairMembers(a, b);
    PairClosure(Members(Yes(), Pair(a, b), KEY), a, b);
    OnlyRootIsLive(a, b);
    OtherIsDropped(a, b, {Stem(a)});
    SweepAndVerification(Yes(), Pair(a, b), KEY, [RowOf(a)], [], a, None);
  }
}

/** A cache on which remediation breaks a row it retains: the withdrawn output is a dependency of the
    retained root, and nothing else connects the two rows.  */
module RemediationExample {
  import opened Options
  import opened StorePaths
  import opened TextOrder
  import opened CacheModel
  import opened NarinfoCheck
  import opened ClosureWalk
  import opened Sweeper
  import opened SweepSafety
  import opened Scrubber
  import opened ScrubSafety
  import opened Remediation
  import opened ExampleCache

  function BaseOf(path: string): string
    requires ValidStorePath(path)
  {
    path[|STORE_DIR|..]
  }

  /** `a` refers to `b` by its basename, and each has a NAR of its own. */
  function Chain(a: string, b: string): Disk
    requires TwoPaths(a, b)
  {
    Disk(map[Stem(a) := File(a, "nar/x", BaseOf(b)), Stem(b) := File(b, "nar/y", "")], map["x" := [0], "y" := [0]])
  }

  function Retained(a: string, b: string): Row
    requires TwoPaths(a, b)
  {
    Row("system", "a", Nar("x"), a, Narinfo(Stem(a)), "nar/x", "h", "h", "xz", 1, 1, 0, Some({b}), None, None, None,
        None, 0)
  }

  function Output(b: string): Row
    requires ValidStorePath(b)
  {
    Row("system", "b", Nar("y"), b, Narinfo(Stem(b)), "nar/y", "h", "h", "xz", 1, 1, 0, Some({}), None, None, None,
        None, 0)
  }

  function Inventory(a: string, b: string): Rows
    requires TwoPaths(a, b)
  {
    map[1 := Retained(a, b), 2 := Output(b)]
  }

  /** The quarantined job whose output is `b`. */
  function JobOf(b: string): Job {
    Job(None, b)
  }

  lemma BaseIsOneToken(b: string)
    requires ValidStorePath(b)
    ensures Tokens(BaseOf(b)) == [BaseOf(b)] && RefPath(BaseOf(b)) == b && !(STORE_DIR <= BaseOf(b))
  {
    var rel := BaseOf(b);
    WordLenOfWord(rel);
    assert rel[..|rel|] == rel && rel[|rel|..] == "";
    assert rel[0] != '/' && STORE_DIR[0] == '/';
    assert STORE_DIR + rel == b;
  }

  lemma ChainMembers(a: string, b: string)
    requires TwoPaths(a, b)
    ensures var g := Members(Yes(), Chain(a, b), KEY);
            && a in g && g[a] == MemberAs(a, "nar/x", [b])
            && b in g && g[b] == MemberAs(b, "nar/y", [])
  {
    BaseIsOneToken(b);
    assert RefPaths([BaseOf(b)]) == [b] && SortedDistinct([b]) == [b];
    assert RefPaths([]) == [] && SortedDistinct([]) == [];
    assert NarName("nar/x") == Some("x") && NarName("nar/y") == Some("y");
    FileIsMember(Chain(a, b), a, "nar/x", "x", BaseOf(b));
    FileIsMember(Chain(a, b), b, "nar/y", "y", "");
  }

  lemma RetainedMatches(a: string, b: string, m: Manifest)
    requires TwoPaths(a, b)
    ensures MatchesMember(Yes(), KEY, Retained(a, b), MemberAs(a, "nar/x", [b]), m)
  {
    assert NarName("nar/x") == Some("x");
    assert (set p | p in [b]) == {b};
  }

  lemma ChainVerifies(a: string, b: string)
    requires TwoPaths(a, b)
    ensures Verdict(Yes(), Chain(a, b), KEY, Retained(a, b)).Verified?
  {
    ChainMembers(a, b);
    PairWalks(Members(Yes(), Chain(a, b), KEY), a, b);
  }

  lemma RetainedIsGood(a: string, b: string)
    requires TwoPaths(a, b)
    ensures Good(Yes(), Chain(a, b), KEY, Retained(a, b))
  {
    ChainMembers(a, b);
    ChainVerifies(a, b);
    var m := Verdict(Yes(), Chain(a, b), KEY, Retained(a, b)).manifest;
    RetainedMatches(a, b, m);
    MatchingRowIsGood(Yes(), Chain(a, b), KEY, Retained(a, b), m);
  }

  lemma RootWritesBasename(a: string, b: string)
    requires TwoPaths(a, b)
    ensures BasenameRefs(Yes(), Chain(a, b), a)
  {
    BaseIsOneToken(b);
    LinesParse(a, "nar/x", BaseOf(b));
  }

  lemma LeafWritesNone(a: string, b: string)
    requires TwoPaths(a, b)
    ensures BasenameRefs(Yes(), Chain(a, b), b)
  {
    LinesParse(b, "nar/y", "");
  }

  lemma BothWriteBasenames(e: Oracles, disk: Disk, key: PublicKey, a: string, b: string)
    requires ClosureOf(Members(e, disk, key), a) == {a, b} && BasenameRefs(e, disk, a) && BasenameRefs(e, disk, b)
    ensures ClosureWritesBasenames(e, disk, key, a)
  {
  }

  lemma ChainWritesBasenames(a: string, b: string)
    requires TwoPaths(a, b)
    ensures ClosureWritesBasenames(Yes(), Chain(a, b), KEY, a)
  {
    ChainMembers(a, b);
    PairClosure(Members(Yes(), Chain(a, b), KEY), a, b);
    RootWritesBasename(a, b);
    LeafWritesNone(a, b);
    BothWriteBasenames(Yes(), Chain(a, b), KEY, a, b);
  }

  lemma OnlyOutputIsDoomed(a: string, b: string, doomed: set<int>)
    requires TwoPaths(a, b)
    ensures IsDoomed(Inventory(a, b), JobOf(b), doomed) <==> doomed == {2}
  {
    var rows := Inventory(a, b);
    assert !Alias(Output(b), Retained(a, b)) && !Matches(JobOf(b), Retained(a, b)) && Matches(JobOf(b), Output(b));
    assert AliasClosed(rows, JobOf(b), {2});
    forall ids | AliasClosed(rows, JobOf(b), ids) ensures {2} <= ids { assert 2 in ids; }
  }

  lemma OutputIsNamed(a: string, b: string)
    requires TwoPaths(a, b)
    ensures Stem(b) in AllNames(Inventory(a, b), {2})
  {
    assert Stem(b) in Names(Inventory(a, b)[2]);
  }

  lemma OutputTouches(a: string, b: string)
    requires TwoPaths(a, b)
    ensures !Untouched(Yes(), Chain(a, b), KEY, Retained(a, b), AllNames(Inventory(a, b), {2}))
  {
    ChainMembers(a, b);
    PairClosure(Members(Yes(), Chain(a, b), KEY), a, b);
    OutputIsNamed(a, b);
    assert StemOf(b) in AllNames(Inventory(a, b), {2});
  }

  /** The retained row verifies before, is not doomed, and does not verify after. */
  lemma WithdrawnDependencyBreaks(a: string, b: string)
    requires TwoPaths(a, b)
    ensures IsDoomed(Inventory(a, b), JobOf(b), {2})
    ensures Good(Yes(), Chain(a, b), KEY, Inventory(a, b)[1])
    ensures var names := AllNames(Inventory(a, b), {2});
            !Good(Yes(), Swept(Without(Chain(a, b), names, {}), [Retained(a, b)], []), KEY, Inventory(a, b)[1])
  {
    OnlyOutputIsDoomed(a, b, {2});
    RetainedIsGood(a, b);
    ChainWritesBasenames(a, b);
    OutputTouches(a, b);
    RemediationAndVerification(Yes(), Chain(a, b), KEY, Retained(a, b), AllNames(Inventory(a, b), {2}),
                               [Retained(a, b)], []);
  }
}

/** A cache on which a scrub takes away a row that verifies: two rows share a root, and the record
    of the second is stale.  */
module ScrubExample {
  import opened Options
  import opened StorePaths
  import opened CacheModel
  import opened NarinfoCheck
  import opened ClosureWalk
  import opened SweepSafety
  import opened Scrubber
  import opened ScrubSafety
  import opened ScrubPass
  import opened ExampleCache

  function Sound(path: string): Row
    requires ValidStorePath(path)
  {
    Row("system", "a", Nar("x"), path, Narinfo(Stem(path)), "nar/x", "h", "h", "xz",
        1, 1, 1, Some({}), None, None, None, None, 0)
  }

  /** The same root under another type, recorded under a key that has been replaced. */
  function Stale(path: string): Row
    requires ValidStorePath(path)
  {
    Sound(path).(artifactType := "diskless", keyDigest := Some("replaced"))
  }

  function Pair(path: string): Rows
    requires ValidStorePath(path)
  {
    map[1 := Sound(path), 2 := Stale(path)]
  }

  lemma SoundMatches(path: string)
    requires ValidStorePath(path)
    ensures InventoryMatches(Yes(), KEY, Sound(path), Manifest(path, None, [TheMember(path)], 1, 1))
    ensures !InventoryMatches(Yes(), KEY, Stale(path), Manifest(path, None, [TheMember(path)], 1, 1))
  {
    var m := Manifest(path, None, [TheMember(path)], 1, 1);
    assert NarName("nar/x") == Some("x");
    assert (set p | p in TheMember(path).references) == {};
    assert MatchesMember(Yes(), KEY, Sound(path), m.artifacts[0], m);
  }

  lemma Verdicts(path: string)
    requires ValidStorePath(path)
    ensures Good(Yes(), OneMember(path), KEY, Sound(path))
    ensures Mismatched(Yes(), OneMember(path), KEY, Stale(path))
  {
    PathVerifies(path);
    SoundMatches(path);
  }

  lemma OnlyPathKnown(e: Oracles, disk: Disk, key: PublicKey, rows: Rows, path: string)
    requires ValidStorePath(path) && Members(e, disk, key) == map[path := TheMember(path)]
    requires forall id :: id in rows ==> rows[id].storePath == path
    ensures HashesAreUnique(e, disk, key, rows)
  {
    assert forall p :: Known(e, disk, key, rows, p) ==> p == path;
  }

  lemma WritesBasenames(path: string)
    requires ValidStorePath(path)
    ensures ClosureWritesBasenames(Yes(), OneMember(path), KEY, path)
  {
    PathVerifies(path);
    LinesParse(path, "nar/x", "");
  }

  lemma NameIsHonest(path: string)
    requires ValidStorePath(path)
    ensures HonestName(Yes(), TheMember(path))
  {
    assert NarName("nar/x") == Some("x");
    assert NamedDigest("x") == None;
  }

  lemma WorldHolds(path: string)
    requires ValidStorePath(path)
    ensures World(Yes(), OneMember(path), KEY, Pair(path))
  {
    MemberPasses(path);
    ValidPathStem(path);
    NameIsHonest(path);
    WritesBasenames(path);
    OnlyPathKnown(Yes(), OneMember(path), KEY, Pair(path), path);
  }

  lemma RecordInside(e: Oracles, disk: Disk, key: PublicKey, rows: Rows, bad: int, good: int, q: string)
    requires bad in rows && RecordFails(e, disk, key, rows[bad])
    requires good in rows && Good(e, disk, key, rows[good])
    requires q in ClosureOf(Members(e, disk, key), rows[good].storePath) && StemOf(q) in RootStems(rows[bad])
    ensures !NoRecordInsideGood(e, disk, key, rows)
  {
    assert !Untaken(e, disk, key, rows[bad], rows[good]);
  }

  lemma EitherRow(rows: Rows, id: int)
    requires rows.Keys == {1, 2} && id in rows
    ensures id == 1 || id == 2
  {
  }

  lemma BothAccountedFor(e: Oracles, disk: Disk, key: PublicKey, rows: Rows)
    requires rows.Keys == {1, 2} && IsAccountedFor(e, disk, key, rows[1]) && IsAccountedFor(e, disk, key, rows[2])
    ensures FailuresAreMembersOrRecords(e, disk, key, rows)
  {
    forall id | id in rows ensures IsAccountedFor(e, disk, key, rows[id]) { EitherRow(rows, id); }
  }

  lemma MemberBreaks(path: string)
    requires ValidStorePath(path)
    ensures !Good(Yes(), AfterScrub(Yes(), OneMember(path), KEY, Stale(path)), KEY, Sound(path))
  {
    Verdicts(path);
    PathVerifies(path);
    var left := AfterScrub(Yes(), OneMember(path), KEY, Stale(path));
    assert Stem(path) in RootStems(Stale(path));
    assert left.narinfos == map[];
    GoodWhileKept(Yes(), OneMember(path), left, KEY, Sound(path));
  }

  /** On this cache the assumptions of a scrub hold, row 1 verifies, row 2 fails on its record
      alone, and scrubbing row 2 breaks row 1. The family is every valid root path.  */
  lemma StaleTwinSpoilsScrub(path: string)
    requires ValidStorePath(path)
    ensures World(Yes(), OneMember(path), KEY, Pair(path))
    ensures FailuresAreMembersOrRecords(Yes(), OneMember(path), KEY, Pair(path))
    ensures Good(Yes(), OneMember(path), KEY, Pair(path)[1])
    ensures Mismatched(Yes(), OneMember(path), KEY, Pair(path)[2])
    ensures !NoRecordInsideGood(Yes(), OneMember(path), KEY, Pair(path))
    ensures !Good(Yes(), AfterScrub(Yes(), OneMember(path), KEY, Pair(path)[2]), KEY, Pair(path)[1])
  {
    WorldHolds(path);
    Verdicts(path);
    PathVerifies(path);
    ValidPathStem(path);
    BothAccountedFor(Yes(), OneMember(path), KEY, Pair(path));
    RecordInside(Yes(), OneMember(path), KEY, Pair(path), 2, 1, path);
    MemberBreaks(path);
  }
}

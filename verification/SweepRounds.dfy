/** Sweeps after one another: when fewer and fewer rows are retained, the last sweep leaves what it alone
    would have left.  */
module SweepRounds {
  import opened StorePaths
  import opened CacheModel
  import opened Liveness

  lemma RootIsLowered(retained: set<Row>, seeds: seq<string>, hash: string)
    requires IsRootHash(retained, seeds, hash)
    ensures IsLowered(hash, hash)
  {
  }

  lemma NextIsLowered(disk: Disk, hash: string, next: string)
    requires Follows(disk, hash, next)
    ensures IsLowered(next, next)
  {
  }

  lemma TrailIsLowered(disk: Disk, retained: set<Row>, seeds: seq<string>, trail: seq<string>, i: nat)
    requires IsTrail(disk, retained, seeds, trail) && i < |trail|
    ensures IsLowered(trail[i], trail[i])
  {
    if i == 0 {
      RootIsLowered(retained, seeds, trail[0]);
    } else {
      assert Follows(disk, trail[i - 1], trail[i - 1 + 1]);
      NextIsLowered(disk, trail[i - 1], trail[i]);
    }
  }

  lemma TrailPrefix(disk: Disk, retained: set<Row>, seeds: seq<string>, trail: seq<string>, i: nat)
    requires IsTrail(disk, retained, seeds, trail) && i < |trail|
    ensures IsMarked(disk, retained, seeds, trail[i])
  {
    var prefix := trail[..i + 1];
    forall j | 0 <= j < |prefix| - 1 ensures Follows(disk, prefix[j], prefix[j + 1]) {
      assert Follows(disk, trail[j], trail[j + 1]);
    }
    assert prefix[|prefix| - 1] == trail[i];
  }

  lemma MoreRetainedMoreMarked(disk: Disk, fewer: set<Row>, more: set<Row>, seeds: seq<string>, trail: seq<string>)
    requires fewer <= more && IsTrail(disk, fewer, seeds, trail)
    ensures IsTrail(disk, more, seeds, trail)
  {
  }

  /** A sweep leaves what a trail from the rows it retains passes through. */
  lemma TrailIsKept(disk: Disk, left: Disk, fewer: set<Row>, more: set<Row>, seeds: seq<string>, trail: seq<string>,
                    i: nat)
    requires KeepsLive(disk, left, more, seeds) && fewer <= more && IsTrail(disk, fewer, seeds, trail) && i < |trail|
    ensures trail[i] in disk.narinfos ==>
              trail[i] in left.narinfos && left.narinfos[trail[i]] == disk.narinfos[trail[i]]
  {
    MoreRetainedMoreMarked(disk, fewer, more, seeds, trail);
    TrailPrefix(disk, more, seeds, trail, i);
    TrailIsLowered(disk, more, seeds, trail, i);
    assert NameIsMarked(disk, more, seeds, trail[i]);
  }

  lemma TrailSurvives(disk: Disk, left: Disk, fewer: set<Row>, more: set<Row>, seeds: seq<string>, trail: seq<string>)
    requires KeepsLive(disk, left, more, seeds) && fewer <= more && IsTrail(disk, fewer, seeds, trail)
    ensures IsTrail(left, fewer, seeds, trail)
  {
    forall i | 0 <= i < |trail| - 1 ensures Follows(left, trail[i], trail[i + 1]) {
      assert Follows(disk, trail[i], trail[i + 1]);
      TrailIsKept(disk, left, fewer, more, seeds, trail, i);
    }
  }

  lemma TrailWasThere(disk: Disk, left: Disk, retained: set<Row>, seeds: seq<string>, trail: seq<string>)
    requires Shrunk(disk, left) && IsTrail(left, retained, seeds, trail)
    ensures IsTrail(disk, retained, seeds, trail)
  {
    forall i | 0 <= i < |trail| - 1 ensures Follows(disk, trail[i], trail[i + 1]) {
      assert Follows(left, trail[i], trail[i + 1]);
    }
  }

  lemma SameMarks(disk: Disk, left: Disk, fewer: set<Row>, more: set<Row>, seeds: seq<string>, hash: string)
    requires KeepsLive(disk, left, more, seeds) && fewer <= more
    ensures IsMarked(left, fewer, seeds, hash) <==> IsMarked(disk, fewer, seeds, hash)
  {
    if trail :| IsTrail(left, fewer, seeds, trail) && trail[|trail| - 1] == hash {
      TrailWasThere(disk, left, fewer, seeds, trail);
    }
    if trail :| IsTrail(disk, fewer, seeds, trail) && trail[|trail| - 1] == hash {
      TrailSurvives(disk, left, fewer, more, seeds, trail);
    }
  }

  /** After a sweep that retains more rows, the same NARInfo files are in use. */
  lemma SameRecords(disk: Disk, left: Disk, fewer: set<Row>, more: set<Row>, seeds: seq<string>, stem: string)
    requires KeepsLive(disk, left, more, seeds) && fewer <= more
    ensures LiveRecord(left, fewer, seeds, stem) <==> LiveRecord(disk, fewer, seeds, stem)
  {
    forall low ensures IsMarked(left, fewer, seeds, low) <==> IsMarked(disk, fewer, seeds, low) {
      SameMarks(disk, left, fewer, more, seeds, low);
    }
  }

  lemma MarkedRecordIsKept(disk: Disk, left: Disk, fewer: set<Row>, more: set<Row>, seeds: seq<string>, hash: string)
    requires KeepsLive(disk, left, more, seeds) && fewer <= more && IsMarked(disk, fewer, seeds, hash)
    ensures hash in disk.narinfos <==> hash in left.narinfos
    ensures hash in disk.narinfos ==> left.narinfos[hash] == disk.narinfos[hash]
  {
    var trail :| IsTrail(disk, fewer, seeds, trail) && trail[|trail| - 1] == hash;
    TrailIsKept(disk, left, fewer, more, seeds, trail, |trail| - 1);
  }

  lemma SameNames(disk: Disk, left: Disk, fewer: set<Row>, more: set<Row>, seeds: seq<string>, hash: string,
                  name: string)
    requires KeepsLive(disk, left, more, seeds) && fewer <= more
    ensures IsMarked(left, fewer, seeds, hash) && RecordNames(left, hash, name)
            <==> IsMarked(disk, fewer, seeds, hash) && RecordNames(disk, hash, name)
  {
    SameMarks(disk, left, fewer, more, seeds, hash);
    if IsMarked(disk, fewer, seeds, hash) { MarkedRecordIsKept(disk, left, fewer, more, seeds, hash); }
  }

  /** After a sweep that retains more rows, the same NAR files are in use. */
  lemma SameNars(disk: Disk, left: Disk, fewer: set<Row>, more: set<Row>, seeds: seq<string>, name: string)
    requires KeepsLive(disk, left, more, seeds) && fewer <= more
    ensures LiveNar(left, fewer, seeds, name) <==> LiveNar(disk, fewer, seeds, name)
  {
    forall hash
      ensures IsMarked(left, fewer, seeds, hash) && RecordNames(left, hash, name)
              <==> IsMarked(disk, fewer, seeds, hash) && RecordNames(disk, hash, name)
    {
      SameNames(disk, left, fewer, more, seeds, hash, name);
    }
  }

  lemma MoreMarks(disk: Disk, fewer: set<Row>, more: set<Row>, seeds: seq<string>, hash: string)
    requires fewer <= more && IsMarked(disk, fewer, seeds, hash)
    ensures IsMarked(disk, more, seeds, hash)
  {
    var trail :| IsTrail(disk, fewer, seeds, trail) && trail[|trail| - 1] == hash;
    MoreRetainedMoreMarked(disk, fewer, more, seeds, trail);
  }

  lemma MoreRetainedMoreRecords(disk: Disk, fewer: set<Row>, more: set<Row>, seeds: seq<string>, stem: string)
    requires fewer <= more && LiveRecord(disk, fewer, seeds, stem)
    ensures LiveRecord(disk, more, seeds, stem)
  {
    if low :| IsLowered(stem, low) && IsMarked(disk, fewer, seeds, low) {
      MoreMarks(disk, fewer, more, seeds, low);
    }
  }

  lemma MoreRetainedMoreNars(disk: Disk, fewer: set<Row>, more: set<Row>, seeds: seq<string>, name: string)
    requires fewer <= more && LiveNar(disk, fewer, seeds, name)
    ensures LiveNar(disk, more, seeds, name)
  {
    if hash :| IsMarked(disk, fewer, seeds, hash) && RecordNames(disk, hash, name) {
      MoreMarks(disk, fewer, more, seeds, hash);
    }
  }

  /** Two sweeps, the second of which retains no more rows, leave what the second alone would. */
  lemma SweepsCompose(disk: Disk, left: Disk, last: Disk, more: set<Row>, fewer: set<Row>, seeds: seq<string>)
    requires KeepsLive(disk, left, more, seeds) && KeepsLive(left, last, fewer, seeds) && fewer <= more
    ensures KeepsLive(disk, last, fewer, seeds)
  {
    forall k | k in disk.narinfos ensures k in last.narinfos <==> LiveRecord(disk, fewer, seeds, k) {
      SameRecords(disk, left, fewer, more, seeds, k);
      if LiveRecord(disk, fewer, seeds, k) { MoreRetainedMoreRecords(disk, fewer, more, seeds, k); }
    }
    forall n | n in disk.nars ensures n in last.nars <==> LiveNar(disk, fewer, seeds, n) {
      SameNars(disk, left, fewer, more, seeds, n);
      if LiveNar(disk, fewer, seeds, n) { MoreRetainedMoreNars(disk, fewer, more, seeds, n); }
    }
  }
}

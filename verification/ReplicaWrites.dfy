/** What an import does to the rows that verified before it: it overwrites NARInfo and NAR files by
    name before it verifies, so which of them still verify has to be said exactly.  */
module ReplicaWrites {
  import opened Options
  import opened StorePaths
  import opened CacheModel
  import opened NarinfoCheck
  import opened ClosureWalk
  import opened ClosureManifest
  import opened Scrubber
  import opened ScrubPass
  import opened ReplicaImport
  import opened ReplicaOffers

  /** The NARInfo and NAR files an import overwrites, and those its last verification withdraws. */
  datatype Writes = Writes(stems: set<string>, nars: set<string>, goneStems: set<string>, goneNars: set<string>)

  ghost predicate FromOrigin(origin: Disk, w: Writes) {
    w.stems <= origin.narinfos.Keys && w.nars <= origin.nars.Keys
  }

  /** `files` with the `names` overwritten by those of `others`. */
  ghost function Over<V>(files: map<string, V>, others: map<string, V>, names: set<string>): map<string, V> {
    files + map n | n in names && n in others :: others[n]
  }

  lemma OverOneMore<V>(files: map<string, V>, others: map<string, V>, names: set<string>, n: string)
    requires n in others
    ensures Over(files, others, names + {n}) - {} == (Over(files, others, names) - {})[n := others[n]]
  {
  }

  lemma OverOne<V>(files: map<string, V>, others: map<string, V>, n: string)
    requires n in others
    ensures Over(files, others, {n}) == files[n := others[n]]
  {
  }

  ghost function MirroredFiles(e: Oracles, s: Signer, origin: Disk): map<string, NarinfoFile> {
    map k | k in origin.narinfos :: Mirrored(e, s, origin.narinfos[k])
  }

  ghost function Overwritten(e: Oracles, s: Signer, origin: Disk, disk: Disk, w: Writes): Disk {
    Disk(Over(disk.narinfos, MirroredFiles(e, s, origin), w.stems), Over(disk.nars, origin.nars, w.nars))
  }

  ghost function AfterWrites(e: Oracles, s: Signer, origin: Disk, disk: Disk, w: Writes): Disk {
    Without(Overwritten(e, s, origin, disk, w), w.goneStems, w.goneNars)
  }

  /** The NARInfo of a member is not withdrawn, and what overwrites it says the same. */
  ghost predicate RecordSurvives(e: Oracles, s: Signer, origin: Disk, w: Writes, path: string, m: Member)
    requires FromOrigin(origin, w) && ValidStorePath(path)
  {
    && Stem(path) !in w.goneStems
    && (Stem(path) in w.stems ==> SignedRecord(e, Mirrored(e, s, origin.narinfos[Stem(path)]), s.key, path) == Some(m))
  }

  /** The NAR of a member is not withdrawn, and what overwrites it passes for the member's record. */
  ghost predicate NarSurvives(e: Oracles, origin: Disk, w: Writes, m: Member)
    requires FromOrigin(origin, w) && NarName(m.narUrl).Some?
  {
    var name := NarName(m.narUrl).value;
    name !in w.goneNars && (name in w.nars ==> CheckNar(e, origin, m).Passed?)
  }

  ghost predicate MemberSurvives(e: Oracles, s: Signer, origin: Disk, w: Writes, path: string, m: Member)
    requires FromOrigin(origin, w)
  {
    && ValidStorePath(path) && NarName(m.narUrl).Some?
    && RecordSurvives(e, s, origin, w, path, m) && NarSurvives(e, origin, w, m)
  }

  /** Every member of the row's closure survives the writes. */
  ghost predicate Unharmed(e: Oracles, s: Signer, origin: Disk, disk: Disk, w: Writes, row: Row)
    requires FromOrigin(origin, w)
  {
    forall p :: p in ClosureOf(Members(e, disk, s.key), row.storePath) ==>
      p in Members(e, disk, s.key) && MemberSurvives(e, s, origin, w, p, Members(e, disk, s.key)[p])
  }

  lemma RecordAfter(e: Oracles, s: Signer, origin: Disk, disk: Disk, w: Writes, path: string, m: Member)
    requires FromOrigin(origin, w) && MemberAt(e, disk, s.key, path) == Some(m)
    ensures var after := AfterWrites(e, s, origin, disk, w).narinfos;
            && ValidStorePath(path)
            && (RecordSurvives(e, s, origin, w, path, m)
                <==> Stem(path) in after && SignedRecord(e, after[Stem(path)], s.key, path) == Some(m))
  {
    MemberIsSignedRecord(e, disk, s.key, path);
  }

  lemma NarAfter(e: Oracles, s: Signer, origin: Disk, disk: Disk, w: Writes, m: Member)
    requires FromOrigin(origin, w) && CheckNar(e, disk, m).Passed?
    ensures NarSurvives(e, origin, w, m) <==> CheckNar(e, AfterWrites(e, s, origin, disk, w), m).Passed?
  {
  }

  lemma MemberAfter(e: Oracles, s: Signer, origin: Disk, disk: Disk, w: Writes, path: string, m: Member)
    requires FromOrigin(origin, w) && MemberAt(e, disk, s.key, path) == Some(m)
    ensures MemberAt(e, AfterWrites(e, s, origin, disk, w), s.key, path) == Some(m)
            <==> MemberSurvives(e, s, origin, w, path, m)
  {
    var after := AfterWrites(e, s, origin, disk, w);
    MemberIsSignedRecord(e, disk, s.key, path);
    RecordAfter(e, s, origin, disk, w, path, m);
    NarAfter(e, s, origin, disk, w, m);
    IntactNarPasses(e, after, m);
    if MemberAt(e, after, s.key, path) == Some(m) {
      MemberIsSignedRecord(e, after, s.key, path);
    } else if MemberSurvives(e, s, origin, w, path, m) {
      RecordThenNar(e, after, s.key, path, m);
    }
  }

  // ---- a row verifies to the same closure exactly when its members are the same ----

  ghost predicate SameMembers(e: Oracles, disk: Disk, left: Disk, key: PublicKey, root: string) {
    forall p :: p in ClosureOf(Members(e, disk, key), root) ==>
      p in Members(e, disk, key) && MemberAt(e, left, key, p) == Some(Members(e, disk, key)[p])
  }

  lemma ArtifactsTell(g: MemberGraph, h: MemberGraph, m: Manifest, p: string)
    requires Describes(g, m) && Describes(h, m) && p in ClosureOf(g, m.root)
    requires forall q :: q in g ==> g[q].storePath == q
    requires forall q :: q in h ==> h[q].storePath == q
    ensures p in g && p in h && g[p] == h[p]
  {
    var ps :| Lists(g, m, ps);
    var qs :| Lists(h, m, qs);
    assert p in set q | q in ps;
    var i :| 0 <= i < |ps| && ps[i] == p;
    assert qs[i] in qs;
  }

  lemma SameVerdictSameMembers(e: Oracles, disk: Disk, left: Disk, key: PublicKey, row: Row)
    requires Good(e, disk, key, row) && Verdict(e, left, key, row) == Verdict(e, disk, key, row)
    ensures SameMembers(e, disk, left, key, row.storePath)
  {
    var m := Verdict(e, disk, key, row).manifest;
    BuildIsDescription(e, disk, row.storePath, Derivation(row), key, m);
    BuildIsDescription(e, left, row.storePath, Derivation(row), key, m);
    MembersNameThemselves(e, disk, key);
    MembersNameThemselves(e, left, key);
    forall p | p in ClosureOf(Members(e, disk, key), row.storePath)
      ensures p in Members(e, disk, key) && MemberAt(e, left, key, p) == Some(Members(e, disk, key)[p])
    {
      ArtifactsTell(Members(e, disk, key), Members(e, left, key), m, p);
      MembersAreChecked(e, left, key, p);
    }
  }

  lemma SameMembersSameVerdict(e: Oracles, disk: Disk, left: Disk, key: PublicKey, row: Row)
    requires Good(e, disk, key, row) && SameMembers(e, disk, left, key, row.storePath)
    ensures Verdict(e, left, key, row) == Verdict(e, disk, key, row)
  {
    var g, h := Members(e, disk, key), Members(e, left, key);
    forall p | p in ClosureOf(g, row.storePath) ensures p in g && p in h && g[p] == h[p] {
      MembersAreChecked(e, left, key, p);
    }
    JudgeDependsOnClosure(e, g, h, row.storePath, Derivation(row), p => Inspect(e, disk, key, p),
                          p => Inspect(e, left, key, p));
  }

  /** A row that verified still does, to the same manifest, exactly when its members survive. */
  lemma WritesAndVerification(e: Oracles, s: Signer, origin: Disk, disk: Disk, w: Writes, row: Row)
    requires FromOrigin(origin, w) && Good(e, disk, s.key, row)
    ensures StillVerifies(e, s.key, disk, AfterWrites(e, s, origin, disk, w), row)
            <==> Unharmed(e, s, origin, disk, w, row)
  {
    var after := AfterWrites(e, s, origin, disk, w);
    if StillVerifies(e, s.key, disk, after, row) { SameVerdictSameMembers(e, disk, after, s.key, row); }
    if SameMembers(e, disk, after, s.key, row.storePath) { SameMembersSameVerdict(e, disk, after, s.key, row); }
    forall p | p in Members(e, disk, s.key)
      ensures MemberAt(e, after, s.key, p) == Some(Members(e, disk, s.key)[p])
              <==> MemberSurvives(e, s, origin, w, p, Members(e, disk, s.key)[p])
    {
      MembersAreChecked(e, disk, s.key, p);
      MemberAfter(e, s, origin, disk, w, p, Members(e, disk, s.key)[p]);
    }
  }

  /** A file that overwrites a member's NARInfo was mirrored for some path of that name. When the
      node's signatures work, it says the same exactly when the origin's record of the member does.  */
  lemma OverwritingSaysSame(e: Oracles, s: Signer, origin: Disk, key: PublicKey, path: string, mirrored: string,
                            m: Member)
    requires SignerWorks(e, s) && RecordFits(e, s, origin, path)
    requires ValidStorePath(path) && OriginRecord(e, origin, key, mirrored).Some? && Stem(mirrored) == Stem(path)
    ensures SignedRecord(e, Mirrored(e, s, origin.narinfos[Stem(path)]), s.key, path) == Some(m)
            <==> OriginRecord(e, origin, key, path) == Some(m)
  {
    MirroredParses(e, s, origin.narinfos[Stem(path)]);
    if path == mirrored { MirroredIsSigned(e, s, origin, key, path); }
  }

  // ---- the files written by a walk ----

  ghost function StemsOf(paths: set<string>): set<string> {
    set p | p in paths && ValidStorePath(p) :: Stem(p)
  }

  ghost function NarsOf(g: MemberGraph, paths: set<string>): set<string> {
    set p | p in paths && p in g && NarName(g[p].narUrl).Some? :: NarName(g[p].narUrl).value
  }

  /** The names of the NARs of these members that are not intact on `disk`. */
  ghost function Missing(e: Oracles, g: MemberGraph, disk: Disk, paths: set<string>): set<string> {
    set p | p in paths && p in g && NarName(g[p].narUrl).Some? && CheckNar(e, disk, g[p]).Failed?
      :: NarName(g[p].narUrl).value
  }

  /** The writes of an import that takes these members: their NARInfo files, and the NARs that were
      not intact when it began.  */
  ghost function Made(e: Oracles, g: MemberGraph, disk0: Disk, taken: set<string>): Writes {
    Writes(StemsOf(taken), Missing(e, g, disk0, taken), {}, {})
  }

  ghost function Elements(order: seq<string>): set<string> {
    set p | p in order
  }

  ghost predicate HasMade(e: Oracles, s: Signer, origin: Disk, g: MemberGraph, disk0: Disk, disk: Disk,
                          order: seq<string>, fetched: set<string>)
  {
    var w := Made(e, g, disk0, Elements(order));
    FromOrigin(origin, w) && disk == AfterWrites(e, s, origin, disk0, w) && NarsOf(g, fetched) == w.nars
  }

  lemma NothingMade(e: Oracles, s: Signer, origin: Disk, g: MemberGraph, disk: Disk)
    ensures HasMade(e, s, origin, g, disk, disk, [], {})
  {
    assert Made(e, g, disk, Elements([])) == Writes({}, {}, {}, {});
    assert AfterWrites(e, s, origin, disk, Writes({}, {}, {}, {})).narinfos == disk.narinfos;
    assert AfterWrites(e, s, origin, disk, Writes({}, {}, {}, {})).nars == disk.nars;
    assert NarsOf(g, {}) == {};
  }

  lemma StemsOfOneMore(order: seq<string>, path: string)
    requires ValidStorePath(path)
    ensures StemsOf(Elements(order + [path])) == StemsOf(Elements(order)) + {Stem(path)}
  {
    var all, some := Elements(order + [path]), Elements(order);
    assert all == some + {path};
    forall k ensures k in StemsOf(all) <==> k in StemsOf(some) + {Stem(path)} {
      if k == Stem(path) { assert path in all; }
    }
  }

  lemma NarsOfOneMore(g: MemberGraph, fetched: set<string>, path: string)
    requires path in g && NarName(g[path].narUrl).Some?
    ensures NarsOf(g, fetched + {path}) == NarsOf(g, fetched) + {NarName(g[path].narUrl).value}
  {
    forall n ensures n in NarsOf(g, fetched + {path}) <==> n in NarsOf(g, fetched) + {NarName(g[path].narUrl).value} {
      if n == NarName(g[path].narUrl).value { assert path in fetched + {path}; }
    }
  }

  lemma MissingOneMore(e: Oracles, g: MemberGraph, disk: Disk, order: seq<string>, path: string)
    requires path in g && NarName(g[path].narUrl).Some?
    ensures Missing(e, g, disk, Elements(order + [path]))
            == Missing(e, g, disk, Elements(order))
               + if CheckNar(e, disk, g[path]).Failed? then {NarName(g[path].narUrl).value} else {}
  {
    var all, some := Elements(order + [path]), Elements(order);
    assert all == some + {path};
    var more := if CheckNar(e, disk, g[path]).Failed? then {NarName(g[path].narUrl).value} else {};
    forall n ensures n in Missing(e, g, disk, all) <==> n in Missing(e, g, disk, some) + more {
      if n in more { assert path in all; }
    }
  }

  /** A NAR that no write touched is checked as before. */
  lemma UntouchedNar(e: Oracles, s: Signer, origin: Disk, disk0: Disk, w: Writes, m: Member)
    requires w.goneNars == {} && NarName(m.narUrl).Some? && NarName(m.narUrl).value !in w.nars
    ensures CheckNar(e, AfterWrites(e, s, origin, disk0, w), m) == CheckNar(e, disk0, m)
  {
    SameBytesSameCheck(e, AfterWrites(e, s, origin, disk0, w), disk0, m);
  }

  /** The NARs fetched one by one are those that were missing at the start. */
  lemma FetchingWhatIsMissing(e: Oracles, s: Signer, origin: Disk, g: MemberGraph, disk0: Disk, disk: Disk,
                              order: seq<string>, fetched: set<string>, path: string)
    requires HasMade(e, s, origin, g, disk0, disk, order, fetched) && path in g && NarName(g[path].narUrl).Some?
    ensures Missing(e, g, disk0, Elements(order + [path]))
            == Missing(e, g, disk0, Elements(order))
               + if CheckNar(e, disk, g[path]).Failed? then {NarName(g[path].narUrl).value} else {}
  {
    MissingOneMore(e, g, disk0, order, path);
    var w := Made(e, g, disk0, Elements(order));
    if NarName(g[path].narUrl).value !in w.nars { UntouchedNar(e, s, origin, disk0, w, g[path]); }
  }

  /** The paths whose NARs came from the origin, with `path` among them if its NAR did. */
  function Counted(fetched: set<string>, path: string, fromOrigin: bool): set<string> {
    if fromOrigin then fetched + {path} else fetched
  }

  /** One more NARInfo, and one more NAR if `name` is given, written to the disk. */
  lemma WritesOneMore(e: Oracles, s: Signer, origin: Disk, disk0: Disk, disk: Disk, disk': Disk, w: Writes,
                      stem: string, name: Option<string>)
    requires w.goneStems == {} && w.goneNars == {} && disk == AfterWrites(e, s, origin, disk0, w)
    requires stem in origin.narinfos
    requires disk'.narinfos == disk.narinfos[stem := Mirrored(e, s, origin.narinfos[stem])]
    requires match name
             case None => disk'.nars == disk.nars
             case Some(n) => n in origin.nars && disk'.nars == disk.nars[n := origin.nars[n]]
    ensures var more := w.(stems := w.stems + {stem}, nars := w.nars + if name.Some? then {name.value} else {});
            disk' == AfterWrites(e, s, origin, disk0, more)
  {
    OverOneMore(disk0.narinfos, MirroredFiles(e, s, origin), w.stems, stem);
    if name.Some? {
      OverOneMore(disk0.nars, origin.nars, w.nars, name.value);
    } else {
      assert w.nars + {} == w.nars;
    }
  }

  lemma MadeOneMore(e: Oracles, s: Signer, origin: Disk, g: MemberGraph, disk0: Disk, disk: Disk, order: seq<string>,
                    fetched: set<string>, path: string, fromOrigin: bool)
    requires HasMade(e, s, origin, g, disk0, disk, order, fetched) && path in g
    requires ValidStorePath(path) && NarName(g[path].narUrl).Some?
    requires fromOrigin <==> CheckNar(e, disk, g[path]).Failed?
    ensures var more := if fromOrigin then {NarName(g[path].narUrl).value} else {};
            var w := Made(e, g, disk0, Elements(order));
            && Made(e, g, disk0, Elements(order + [path])) == w.(stems := w.stems + {Stem(path)}, nars := w.nars + more)
            && NarsOf(g, Counted(fetched, path, fromOrigin)) == w.nars + more
  {
    StemsOfOneMore(order, path);
    FetchingWhatIsMissing(e, s, origin, g, disk0, disk, order, fetched, path);
    if fromOrigin { NarsOfOneMore(g, fetched, path); }
  }

  lemma TakingIsWriting(e: Oracles, s: Signer, origin: Disk, g: MemberGraph, disk0: Disk, disk: Disk, disk': Disk,
                        order: seq<string>, fetched: set<string>, path: string, fromOrigin: bool)
    requires HasMade(e, s, origin, g, disk0, disk, order, fetched) && path in g
    requires TakesMember(e, s, origin, path, g[path], fromOrigin, disk, disk')
    ensures HasMade(e, s, origin, g, disk0, disk', order + [path], Counted(fetched, path, fromOrigin))
  {
    MadeOneMore(e, s, origin, g, disk0, disk, order, fetched, path, fromOrigin);
    WritesOneMore(e, s, origin, disk0, disk, disk', Made(e, g, disk0, Elements(order)), Stem(path),
                  if fromOrigin then NarName(g[path].narUrl) else None);
  }

  lemma TakenInside(g: MemberGraph, root: string, queue: seq<string>, order: seq<string>)
    requires WalkInvariant(g, root, queue, order)
    ensures Elements(order) <= ClosureOf(g, root)
  {
  }

  // ---- a whole import ----

  ghost predicate IsWithdrawal(out: Outcome, w: Writes) {
    out.Rejected? && w.goneStems == Ends(out.inspected) && w.goneNars == CondemnedSet(out.corrupt)
  }

  /** What an import may do to the disk, whether or not it succeeds: overwrite the files of members of
      the origin's closure, and, once all are taken, withdraw what a failed verification withdraws.  */
  ghost predicate IsImport(e: Oracles, s: Signer, origin: Disk, g: MemberGraph, root: string,
                           derivation: Option<string>, disk0: Disk, disk: Disk, taken: set<string>, w: Writes)
  {
    && taken <= ClosureOf(g, root) && w.(goneStems := {}, goneNars := {}) == Made(e, g, disk0, taken)
    && FromOrigin(origin, w) && disk == AfterWrites(e, s, origin, disk0, w)
    && ((w.goneStems == {} && w.goneNars == {})
        || (&& taken == ClosureOf(g, root)
            && IsWithdrawal(Build(e, Overwritten(e, s, origin, disk0, w), root, derivation, s.key), w)))
  }

  lemma MadeIsImport(e: Oracles, s: Signer, origin: Disk, g: MemberGraph, root: string, derivation: Option<string>,
                     disk0: Disk, disk: Disk, order: seq<string>, fetched: set<string>)
    requires HasMade(e, s, origin, g, disk0, disk, order, fetched) && Elements(order) <= ClosureOf(g, root)
    ensures IsImport(e, s, origin, g, root, derivation, disk0, disk, Elements(order),
                     Made(e, g, disk0, Elements(order)))
  {
  }

  lemma WithoutNothing(disk: Disk, stems: set<string>, nars: set<string>)
    ensures Without(disk, {}, {}) == disk
    ensures Without(Without(disk, {}, {}), stems, nars) == Without(disk, stems, nars)
  {
    assert disk.narinfos - {} == disk.narinfos;
    assert disk.nars - {} == disk.nars;
  }

  lemma RejectedFromRoot(e: Oracles, g: MemberGraph, root: string, derivation: Option<string>, check: string -> Check)
    requires Judge(e, g, root, derivation, check).Rejected?
    ensures var inspected := Judge(e, g, root, derivation, check).inspected;
            inspected != [] && inspected[0] == root
  {
    WalkFromRootIsSound(g, root);
  }

  /** A verification that fails withdraws the root itself, unless it refuses the derivation outright. */
  lemma FailureWithdrawsRoot(e: Oracles, disk: Disk, root: string, derivation: Option<string>, key: PublicKey,
                             w: Writes)
    requires ValidStorePath(root) && IsWithdrawal(Build(e, disk, root, derivation, key), w)
    ensures Stem(root) in w.goneStems <==> ValidDerivation(derivation)
  {
    if ValidDerivation(derivation) {
      RejectedFromRoot(e, Members(e, disk, key), root, derivation, p => Inspect(e, disk, key, p));
    }
  }

  lemma WithdrawnIsImport(e: Oracles, s: Signer, origin: Disk, g: MemberGraph, root: string, derivation: Option<string>,
                          disk0: Disk, disk: Disk, w: Writes, out: Outcome) returns (last: Writes)
    requires IsImport(e, s, origin, g, root, derivation, disk0, disk, ClosureOf(g, root), w)
    requires w.goneStems == {} && w.goneNars == {}
    requires out == Build(e, disk, root, derivation, s.key) && out.Rejected?
    ensures last == w.(goneStems := Ends(out.inspected), goneNars := CondemnedSet(out.corrupt))
    ensures IsImport(e, s, origin, g, root, derivation, disk0, AfterBuild(disk, out), ClosureOf(g, root), last)
  {
    last := w.(goneStems := Ends(out.inspected), goneNars := CondemnedSet(out.corrupt));
    assert Overwritten(e, s, origin, disk0, last) == Overwritten(e, s, origin, disk0, w);
    WithoutNothing(Overwritten(e, s, origin, disk0, w), Ends(out.inspected), CondemnedSet(out.corrupt));
  }

  /** Which of the rows that verified before an import still do, to the same manifest. */
  ghost predicate RowsAfter(e: Oracles, s: Signer, origin: Disk, rows: map<int, Row>, disk0: Disk, disk: Disk,
                            w: Writes)
  {
    && FromOrigin(origin, w)
    && forall id :: id in rows && Good(e, disk0, s.key, rows[id]) ==>
         (StillVerifies(e, s.key, disk0, disk, rows[id]) <==> Unharmed(e, s, origin, disk0, w, rows[id]))
  }

  lemma ImportAndRows(e: Oracles, s: Signer, origin: Disk, g: MemberGraph, root: string, derivation: Option<string>,
                      rows: map<int, Row>, disk0: Disk, disk: Disk, taken: set<string>, w: Writes)
    requires IsImport(e, s, origin, g, root, derivation, disk0, disk, taken, w)
    ensures RowsAfter(e, s, origin, rows, disk0, disk, w)
  {
    forall id | id in rows && Good(e, disk0, s.key, rows[id])
      ensures StillVerifies(e, s.key, disk0, disk, rows[id]) <==> Unharmed(e, s, origin, disk0, w, rows[id])
    {
      WritesAndVerification(e, s, origin, disk0, w, rows[id]);
    }
  }

  // ---- a successful import, on the state before it ----

  /** A member survives a successful import: the origin's file that overwrites its NARInfo, if any, says
      the same about it, and if a NAR of its name is missing here, the origin's passes for it.  */
  ghost predicate SparesMember(e: Oracles, s: Signer, origin: Disk, g: MemberGraph, c: set<string>, disk0: Disk,
                               path: string, m: Member)
  {
    && ValidStorePath(path)
    && (Stem(path) in StemsOf(c) && Stem(path) in origin.narinfos ==>
          SignedRecord(e, Mirrored(e, s, origin.narinfos[Stem(path)]), s.key, path) == Some(m))
    && NarName(m.narUrl).Some?
    && (NarName(m.narUrl).value in Missing(e, g, disk0, c) ==> CheckNar(e, origin, m).Passed?)
  }

  lemma SparedSurvives(e: Oracles, s: Signer, origin: Disk, g: MemberGraph, c: set<string>, disk0: Disk, path: string,
                       m: Member)
    requires FromOrigin(origin, Made(e, g, disk0, c))
    ensures MemberSurvives(e, s, origin, Made(e, g, disk0, c), path, m)
            <==> SparesMember(e, s, origin, g, c, disk0, path, m)
  {
  }

  /** Every member of the row's closure survives a successful import of the closure of `root`. */
  ghost predicate SparesRow(e: Oracles, s: Signer, origin: Disk, g: MemberGraph, root: string, disk0: Disk, row: Row) {
    forall p :: p in ClosureOf(Members(e, disk0, s.key), row.storePath) ==>
      && p in Members(e, disk0, s.key)
      && SparesMember(e, s, origin, g, ClosureOf(g, root), disk0, p, Members(e, disk0, s.key)[p])
  }

  /** The exact condition on the state before: after a successful import a row that verified still does,
      to the same manifest, if and only if every member of its closure is spared.  */
  lemma SuccessfulImportAndRow(e: Oracles, s: Signer, origin: Disk, g: MemberGraph, root: string, disk0: Disk, row: Row)
    requires FromOrigin(origin, Made(e, g, disk0, ClosureOf(g, root))) && Good(e, disk0, s.key, row)
    ensures var disk := AfterWrites(e, s, origin, disk0, Made(e, g, disk0, ClosureOf(g, root)));
            StillVerifies(e, s.key, disk0, disk, row) <==> SparesRow(e, s, origin, g, root, disk0, row)
  {
    var w := Made(e, g, disk0, ClosureOf(g, root));
    WritesAndVerification(e, s, origin, disk0, w, row);
    forall p | p in Members(e, disk0, s.key)
      ensures MemberSurvives(e, s, origin, w, p, Members(e, disk0, s.key)[p])
              <==> SparesMember(e, s, origin, g, ClosureOf(g, root), disk0, p, Members(e, disk0, s.key)[p])
    {
      SparedSurvives(e, s, origin, g, ClosureOf(g, root), disk0, p, Members(e, disk0, s.key)[p]);
    }
  }

  /** Which rows still verify after a successful import, on the state before it. */
  ghost predicate RowsAfterSuccess(e: Oracles, s: Signer, origin: Disk, g: MemberGraph, root: string,
                                   rows: map<int, Row>, disk0: Disk, disk: Disk)
  {
    forall id :: id in rows && Good(e, disk0, s.key, rows[id]) ==>
      (StillVerifies(e, s.key, disk0, disk, rows[id]) <==> SparesRow(e, s, origin, g, root, disk0, rows[id]))
  }

  lemma SuccessfulImportAndRows(e: Oracles, s: Signer, origin: Disk, g: MemberGraph, root: string,
                                derivation: Option<string>, rows: map<int, Row>, disk0: Disk, disk: Disk)
    requires IsImport(e, s, origin, g, root, derivation, disk0, disk, ClosureOf(g, root),
                      Made(e, g, disk0, ClosureOf(g, root)))
    ensures RowsAfterSuccess(e, s, origin, g, root, rows, disk0, disk)
  {
    forall id | id in rows && Good(e, disk0, s.key, rows[id])
      ensures StillVerifies(e, s.key, disk0, disk, rows[id]) <==> SparesRow(e, s, origin, g, root, disk0, rows[id])
    {
      SuccessfulImportAndRow(e, s, origin, g, root, disk0, rows[id]);
    }
  }
}

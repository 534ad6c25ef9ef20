/** The sweep against the verifier: what the lenient collector may not take away. */
module SweepSafety {
  import opened Options
  import opened StorePaths
  import opened TextOrder
  import opened CacheModel
  import opened ReferenceGraph
  import opened NarinfoCheck
  import opened ClosureWalk
  import opened ClosureManifest
  import opened Liveness
  import opened Sweeper

  // ---- the two readings of one NARInfo ----

  lemma {:induction false} HashesOfElements(tokens: seq<string>, t: string)
    requires t in tokens && BasenameHash(t).Some?
    ensures BasenameHash(t).value in HashesOf(tokens)
  {
    if t == tokens[0] {
    } else {
      assert tokens == [tokens[0]] + tokens[1..];
      HashesOfElements(tokens[1..], t);
    }
  }

  lemma {:induction false} LenientRefsOfValue(lines: seq<Line>, v: string, h: string)
    requires v in Values(lines, References) && h in HashesOf(Tokens(v))
    ensures h in LenientRefs(lines)
  {
    if lines[0].key == References && lines[0].value == v {
    } else {
      LenientRefsOfValue(lines[1..], v, h);
    }
  }

  /** The references of the member's NARInfo are written as basenames, as Nix writes them. */
  ghost predicate BasenameRefs(e: Oracles, disk: Disk, path: string) {
    ValidStorePath(path) && Stem(path) in disk.narinfos ==>
      match ParseStrict(e, disk.narinfos[Stem(path)])
      case None => true
      case Some(p) => forall t :: t in p.tokens ==> !(STORE_DIR <= t)
  }

  lemma ParsedHasOneValue(e: Oracles, f: NarinfoFile, key: Key)
    requires ParseStrict(e, f).Some? && key in SINGLETONS
    ensures Values(f.lines, key) == [FirstValue(f.lines, key)]
  {
    var i :| 0 <= i < |SINGLETONS| && SINGLETONS[i] == key;
    assert |Values(f.lines, SINGLETONS[i])| == 1;
  }

  lemma ReferenceToken(e: Oracles, disk: Disk, key: PublicKey, path: string, r: string) returns (t: string)
    requires MemberAt(e, disk, key, path).Some?
    requires r in MemberAt(e, disk, key, path).value.references
    ensures var f := disk.narinfos[Stem(path)];
            && f.readable && ParseStrict(e, f).Some?
            && t in ParseStrict(e, f).value.tokens && RefPath(t) == r && ValidStorePath(r)
  {
    var p := ParseStrict(e, disk.narinfos[Stem(path)]).value;
    SortedDistinctIsSorted(RefPaths(p.tokens));
    RefPathsElements(p.tokens, r);
    t :| t in p.tokens && RefPath(t) == r;
  }

  /** The mark phase follows every reference of a member that writes basenames. */
  lemma MarkFollows(e: Oracles, disk: Disk, key: PublicKey, path: string, r: string)
    requires MemberAt(e, disk, key, path).Some? && BasenameRefs(e, disk, path)
    requires r in MemberAt(e, disk, key, path).value.references
    ensures ValidStorePath(path) && ValidStorePath(r)
    ensures Stem(path) in MarkGraph(disk) && Stem(r) in MarkGraph(disk)[Stem(path)]
  {
    var t := ReferenceToken(e, disk, key, path, r);
    var f := disk.narinfos[Stem(path)];
    SweepFollowsBasenames(t);
    HashesOfElements(ParseStrict(e, f).value.tokens, t);
    ParsedHasOneValue(e, f, References);
    LenientRefsOfValue(f.lines, FirstValue(f.lines, References), Stem(r));
  }

  /** The file name stem of a path, for any text. */
  function StemOf(path: string): string {
    if ValidStorePath(path) then Stem(path) else ""
  }

  lemma MarkedReferences(e: Oracles, disk: Disk, key: PublicKey, live: set<string>, path: string, r: string)
    requires ClosedUnder(MarkGraph(disk), live) && StemOf(path) in live
    requires path in Members(e, disk, key) && r in Members(e, disk, key)[path].references
    requires BasenameRefs(e, disk, path)
    ensures StemOf(r) in live
  {
    MembersAreChecked(e, disk, key, path);
    MarkFollows(e, disk, key, path, r);
  }

  /** Every member of a root's closure is marked. */
  lemma ClosureIsLive(e: Oracles, disk: Disk, key: PublicKey, retained: seq<Row>, seeds: seq<string>, root: string)
    requires StemOf(root) in MarkRoots(retained, seeds)
    requires forall p :: p in ClosureOf(Members(e, disk, key), root) ==> BasenameRefs(e, disk, p)
    ensures forall p :: p in ClosureOf(Members(e, disk, key), root) ==> StemOf(p) in Live(disk, retained, seeds)
  {
    var g, live := Members(e, disk, key), Live(disk, retained, seeds);
    ClosureIsLeast(MarkGraph(disk), MarkRoots(retained, seeds));
    var s := set p | p in Universe(Edges(g), {root}) && StemOf(p) in live;
    forall p, r | p in s && p in ClosureOf(g, root) && p in Edges(g) && r in Edges(g)[p] ensures r in s {
      MarkedReferences(e, disk, key, live, p, r);
    }
    ClosureWithin(Edges(g), root, s);
  }

  // ---- members under removal ----

  lemma NarSurvives(e: Oracles, disk: Disk, left: Disk, m: Member)
    requires Shrunk(disk, left) && CheckNar(e, disk, m).Passed?
    requires NarName(m.narUrl).Some? ==> NarName(m.narUrl).value in left.nars
    ensures CheckNar(e, left, m) == Passed(m)
  {
  }

  lemma MemberSurvives(e: Oracles, disk: Disk, left: Disk, key: PublicKey, path: string)
    requires Shrunk(disk, left) && MemberAt(e, disk, key, path).Some?
    requires ValidStorePath(path) && Stem(path) in left.narinfos
    requires var name := NarName(MemberAt(e, disk, key, path).value.narUrl);
             name.Some? ==> name.value in left.nars
    ensures MemberAt(e, left, key, path) == MemberAt(e, disk, key, path)
  {
    NarSurvives(e, disk, left, MemberAt(e, disk, key, path).value);
  }

  lemma RemovalAddsNoMember(e: Oracles, disk: Disk, left: Disk, key: PublicKey, path: string)
    requires Shrunk(disk, left) && MemberAt(e, left, key, path).Some?
    ensures MemberAt(e, disk, key, path) == MemberAt(e, left, key, path)
  {
  }

  lemma ShrunkMembers(e: Oracles, disk: Disk, left: Disk, key: PublicKey)
    requires Shrunk(disk, left)
    ensures Within(Members(e, left, key), Members(e, disk, key))
  {
    forall p | p in Members(e, left, key)
      ensures p in Members(e, disk, key) && Members(e, disk, key)[p] == Members(e, left, key)[p]
    {
      MembersAreChecked(e, left, key, p);
      RemovalAddsNoMember(e, disk, left, key, p);
      MembersAreChecked(e, disk, key, p);
    }
  }

  /** The files of one member are still there. */
  ghost predicate FilesKept(e: Oracles, disk: Disk, left: Disk, key: PublicKey, path: string) {
    match MemberAt(e, disk, key, path)
    case None => true
    case Some(m) =>
      && m.stem in left.narinfos
      && (NarName(m.narUrl).Some? ==> NarName(m.narUrl).value in left.nars)
  }

  ghost predicate ClosureKept(e: Oracles, disk: Disk, left: Disk, key: PublicKey, root: string) {
    forall p :: p in ClosureOf(Members(e, disk, key), root) ==> FilesKept(e, disk, left, key, p)
  }

  lemma KeptFilesKeepMembers(e: Oracles, disk: Disk, left: Disk, key: PublicKey, root: string)
    requires Shrunk(disk, left) && ClosureKept(e, disk, left, key, root)
    ensures AgreeOn(Members(e, disk, key), Members(e, left, key), ClosureOf(Members(e, disk, key), root))
  {
    var g, h := Members(e, disk, key), Members(e, left, key);
    forall p | p in ClosureOf(g, root) ensures (p in g <==> p in h) && (p in g ==> g[p] == h[p]) {
      MembersAreChecked(e, disk, key, p);
      MembersAreChecked(e, left, key, p);
      if p in g {
        MemberShape(e, disk, key, p);
        assert FilesKept(e, disk, left, key, p);
        MemberSurvives(e, disk, left, key, p);
      } else if p in h {
        RemovalAddsNoMember(e, disk, left, key, p);
      }
    }
  }

  lemma UrlKeepsItsSlashes(url: string)
    requires NarName(url).Some?
    ensures TrimSlashes(url) == url == NAR_PREFIX + NarName(url).value
  {
  }

  lemma MemberUrl(e: Oracles, disk: Disk, key: PublicKey, path: string)
    requires MemberAt(e, disk, key, path).Some?
    ensures ValidStorePath(path) && Stem(path) in disk.narinfos && disk.narinfos[Stem(path)].readable
    ensures MemberAt(e, disk, key, path).value.narUrl in Values(disk.narinfos[Stem(path)].lines, Url)
  {
    ParsedHasOneValue(e, disk.narinfos[Stem(path)], Url);
  }

  lemma KeptByHash(disk: Disk, retained: seq<Row>, live: set<string>, stem: string, url: string)
    requires stem in live && stem in disk.narinfos && disk.narinfos[stem].readable && ToLower(stem) == stem
    requires url in Values(disk.narinfos[stem].lines, Url) && TrimSlashes(url) == url
    ensures KeepsNarinfo(retained, live, stem)
    ensures url in LiveUrls(disk, retained, live)
  {
    assert TrimSlashes(url) in LiveUrls(disk, retained, live);
  }

  /** A marked member keeps both of its files. */
  lemma MarkedIsKept(e: Oracles, disk: Disk, key: PublicKey, retained: seq<Row>, seeds: seq<string>, path: string)
    requires StemOf(path) in Live(disk, retained, seeds)
    ensures FilesKept(e, disk, Swept(disk, retained, seeds), key, path)
  {
    if MemberAt(e, disk, key, path).Some? {
      var live, url := Live(disk, retained, seeds), MemberAt(e, disk, key, path).value.narUrl;
      MemberShape(e, disk, key, path);
      MemberUrl(e, disk, key, path);
      ValidPathStem(path);
      UrlKeepsItsSlashes(url);
      KeptByHash(disk, retained, live, Stem(path), url);
    }
  }

  lemma SweptIsShrunk(disk: Disk, retained: seq<Row>, seeds: seq<string>)
    ensures Shrunk(disk, Swept(disk, retained, seeds))
  {
  }

  ghost predicate ClosureWritesBasenames(e: Oracles, disk: Disk, key: PublicKey, root: string) {
    forall p :: p in ClosureOf(Members(e, disk, key), root) ==> BasenameRefs(e, disk, p)
  }

  /** The sweep takes nothing from the closure of a retained row or a seed. */
  lemma SweepKeepsClosure(e: Oracles, disk: Disk, key: PublicKey, retained: seq<Row>, seeds: seq<string>, root: string)
    requires StemOf(root) in MarkRoots(retained, seeds) && ClosureWritesBasenames(e, disk, key, root)
    ensures ClosureKept(e, disk, Swept(disk, retained, seeds), key, root)
  {
    ClosureIsLive(e, disk, key, retained, seeds, root);
    forall p | p in ClosureOf(Members(e, disk, key), root)
      ensures FilesKept(e, disk, Swept(disk, retained, seeds), key, p)
    {
      MarkedIsKept(e, disk, key, retained, seeds, p);
    }
  }

  lemma VerifiedKeepsFiles(e: Oracles, disk: Disk, left: Disk, key: PublicKey, root: string, derivation: Option<string>)
    requires Shrunk(disk, left) && Build(e, disk, root, derivation, key).Verified?
    requires Build(e, left, root, derivation, key) == Build(e, disk, root, derivation, key)
    ensures ClosureKept(e, disk, left, key, root)
  {
    var g, h := Members(e, disk, key), Members(e, left, key);
    ShrunkMembers(e, disk, left, key);
    WalkSurvivesGrowth(h, g, root);
    WalkFromRootIsSound(g, root);
    WalkFromRootIsSound(h, root);
    forall p | p in ClosureOf(g, root) ensures FilesKept(e, disk, left, key, p) {
      assert p in h;
      MembersAreChecked(e, left, key, p);
      RemovalAddsNoMember(e, disk, left, key, p);
      MemberShape(e, left, key, p);
    }
  }

  /** A verified root stays verified, with the identical manifest, exactly when nothing of its
      closure was removed.  */
  lemma RemovalAndVerification(e: Oracles, disk: Disk, left: Disk, key: PublicKey, root: string,
                               derivation: Option<string>)
    requires Shrunk(disk, left) && Build(e, disk, root, derivation, key).Verified?
    ensures Build(e, left, root, derivation, key) == Build(e, disk, root, derivation, key)
            <==> ClosureKept(e, disk, left, key, root)
  {
    if ClosureKept(e, disk, left, key, root) {
      KeptFilesKeepMembers(e, disk, left, key, root);
      JudgeDependsOnClosure(e, Members(e, disk, key), Members(e, left, key), root, derivation,
                            p => Inspect(e, disk, key, p), p => Inspect(e, left, key, p));
    }
    if Build(e, left, root, derivation, key) == Build(e, disk, root, derivation, key) {
      VerifiedKeepsFiles(e, disk, left, key, root, derivation);
    }
  }

  lemma RootIsMarked(retained: seq<Row>, seeds: seq<string>, root: string)
    requires ValidStorePath(root) && StorePathHash(root) == Some(Stem(root))
    requires (exists i :: 0 <= i < |retained| && retained[i].storePath == root) || root in seeds
    ensures StemOf(root) in MarkRoots(retained, seeds)
  {
    if i :| 0 <= i < |retained| && retained[i].storePath == root {
      assert StorePathHash(RowPaths(retained)[i]) == Some(Stem(root));
    } else {
      var i :| 0 <= i < |seeds| && seeds[i] == root;
      assert StorePathHash(seeds[i]) == Some(Stem(root));
    }
  }

  /** Sweep against verifier: a retained or seed root that verified before the sweep gives the
      identical manifest after it.  */
  lemma SweepPreservesVerification(e: Oracles, disk: Disk, key: PublicKey, retained: seq<Row>, seeds: seq<string>,
                                   root: string, derivation: Option<string>)
    requires (exists i :: 0 <= i < |retained| && retained[i].storePath == root) || root in seeds
    requires ClosureWritesBasenames(e, disk, key, root)
    requires Build(e, disk, root, derivation, key).Verified?
    ensures Build(e, Swept(disk, retained, seeds), root, derivation, key) == Build(e, disk, root, derivation, key)
  {
    ValidPathStem(root);
    RootIsMarked(retained, seeds, root);
    SweepKeepsClosure(e, disk, key, retained, seeds, root);
    SweptIsShrunk(disk, retained, seeds);
    RemovalAndVerification(e, disk, Swept(disk, retained, seeds), key, root, derivation);
  }

  /** The sweep keeps both files of a member. */
  ghost predicate SweepKeeps(e: Oracles, disk: Disk, key: PublicKey, retained: seq<Row>, live: set<string>,
                             path: string)
  {
    match MemberAt(e, disk, key, path)
    case None => true
    case Some(m) =>
      && KeepsNarinfo(retained, live, m.stem)
      && (NarName(m.narUrl).Some? ==> KeepsNar(retained, LiveUrls(disk, retained, live), NarName(m.narUrl).value))
  }

  /** Whatever the references look like: a verified root gives the identical manifest after a sweep
      if and only if the mark phase reached, or a retained row names, every file of its closure.  */
  lemma SweepAndVerification(e: Oracles, disk: Disk, key: PublicKey, retained: seq<Row>, seeds: seq<string>,
                             root: string, derivation: Option<string>)
    requires Build(e, disk, root, derivation, key).Verified?
    ensures Build(e, Swept(disk, retained, seeds), root, derivation, key) == Build(e, disk, root, derivation, key)
            <==> forall p :: p in ClosureOf(Members(e, disk, key), root) ==>
                   SweepKeeps(e, disk, key, retained, Live(disk, retained, seeds), p)
  {
    var left := Swept(disk, retained, seeds);
    SweptIsShrunk(disk, retained, seeds);
    RemovalAndVerification(e, disk, left, key, root, derivation);
    forall p
      ensures FilesKept(e, disk, left, key, p)
              <==> SweepKeeps(e, disk, key, retained, Live(disk, retained, seeds), p)
    {
      if MemberAt(e, disk, key, p).Some? { MemberShape(e, disk, key, p); }
    }
  }

  // ---- a second sweep finds nothing ----

  predicate IsLower(s: string) {
    ToLower(s) == s
  }

  lemma LoweredIsLower(s: string)
    ensures IsLower(ToLower(s))
  {
  }

  lemma {:induction false} HashesAreLower(tokens: seq<string>)
    ensures forall h :: h in HashesOf(tokens) ==> IsLower(h)
  {
    if tokens == [] {
    } else {
      HashesAreLower(tokens[1..]);
      LoweredIsLower(tokens[0][..IndexOf(tokens[0], '-')]);
    }
  }

  lemma {:induction false} RefsAreLower(lines: seq<Line>)
    ensures forall h :: h in LenientRefs(lines) ==> IsLower(h)
  {
    if lines == [] {
    } else {
      HashesAreLower(Tokens(lines[0].value));
      RefsAreLower(lines[1..]);
    }
  }

  lemma RootsAreLower(paths: seq<string>)
    ensures forall h :: h in HashSet(paths) ==> IsLower(h)
  {
    forall i | 0 <= i < |paths| && StorePathHash(paths[i]).Some? ensures IsLower(StorePathHash(paths[i]).value) {
      var base := AfterLast(paths[i], '/');
      LoweredIsLower(base[..IndexOf(base, '-')]);
    }
  }

  lemma LiveIsLower(disk: Disk, retained: seq<Row>, seeds: seq<string>)
    ensures forall h :: h in Live(disk, retained, seeds) ==> IsLower(h)
  {
    var live := Live(disk, retained, seeds);
    ClosureIsLeast(MarkGraph(disk), MarkRoots(retained, seeds));
    RootsAreLower(RowPaths(retained));
    RootsAreLower(seeds);
    var lower := set h | h in live && IsLower(h);
    assert ClosedUnder(MarkGraph(disk), lower) by {
      forall p, r | p in lower && p in MarkGraph(disk) && r in MarkGraph(disk)[p] ensures r in lower {
        RefsAreLower(disk.narinfos[p].lines);
      }
    }
  }

  lemma LiveSurvivesSweep(disk: Disk, retained: seq<Row>, seeds: seq<string>)
    ensures Live(Swept(disk, retained, seeds), retained, seeds) == Live(disk, retained, seeds)
  {
    LiveIsLower(disk, retained, seeds);
    ClosureFrame(MarkGraph(disk), MarkGraph(Swept(disk, retained, seeds)), MarkRoots(retained, seeds));
  }

  lemma UrlsSurvive(disk: Disk, left: Disk, retained: seq<Row>, live: set<string>)
    requires forall k :: k in live ==> IsLower(k)
    requires left.narinfos == map k | k in disk.narinfos && KeepsNarinfo(retained, live, k) :: disk.narinfos[k]
    ensures LiveUrls(left, retained, live) == LiveUrls(disk, retained, live)
  {
  }

  /** Sweeping again changes nothing. */
  lemma SweepIsIdempotent(disk: Disk, retained: seq<Row>, seeds: seq<string>)
    ensures Swept(Swept(disk, retained, seeds), retained, seeds) == Swept(disk, retained, seeds)
  {
    LiveSurvivesSweep(disk, retained, seeds);
    LiveIsLower(disk, retained, seeds);
    var live, once := Live(disk, retained, seeds), Swept(disk, retained, seeds);
    UrlsSurvive(disk, once, retained, live);
    assert once == Remaining(disk, retained, live, LiveUrls(disk, retained, live));
    assert Remaining(once, retained, live, LiveUrls(once, retained, live)) == once;
  }

  lemma SweptIsLive(left: Disk, retained: seq<Row>, seeds: seq<string>)
    requires Swept(left, retained, seeds) == left
    ensures AllLive(left, RowSet(retained), seeds)
  {
    SweptMeans(left, retained, seeds);
  }

  /** The sweep leaves no dead file: every file left is in use, by what is left. */
  lemma NothingDeadIsLeft(disk: Disk, retained: seq<Row>, seeds: seq<string>)
    ensures AllLive(Swept(disk, retained, seeds), RowSet(retained), seeds)
  {
    SweepIsIdempotent(disk, retained, seeds);
    SweptIsLive(Swept(disk, retained, seeds), retained, seeds);
  }
}

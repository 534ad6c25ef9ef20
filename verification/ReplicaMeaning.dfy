/** What a successful import leaves, said on the files of the node and of the origin. */
module ReplicaMeaning {
  import opened Options
  import opened StorePaths
  import opened CacheModel
  import opened NarinfoCheck
  import opened MemberMeaning
  import opened ClosureManifest
  import opened ReplicaImport
  import opened ReplicaWrites
  import opened ReplicaSuccess

  // ---- the mirrored file ----

  /** A signature under this name. */
  predicate IsSignatureOf(name: string, line: Line) {
    line.key == Sig && line.spaced && name + ":" <= line.value
  }

  /** `at` are the positions of the lines that are no signature under this name, in order. */
  ghost predicate ArePositions(name: string, lines: seq<Line>, at: seq<int>) {
    && (forall i :: 0 <= i < |at| ==> 0 <= at[i] < |lines|)
    && (forall i, j :: 0 <= i < j < |at| ==> at[i] < at[j])
    && (forall k :: 0 <= k < |lines| ==> (k in at <==> !IsSignatureOf(name, lines[k])))
  }

  ghost predicate Picks(lines: seq<Line>, at: seq<int>, kept: seq<Line>) {
    |kept| == |at| && forall i :: 0 <= i < |at| ==> 0 <= at[i] < |lines| && kept[i] == lines[at[i]]
  }

  /** `kept` are the lines but for every signature under this name. */
  ghost predicate Strikes(name: string, lines: seq<Line>, kept: seq<Line>) {
    exists at :: ArePositions(name, lines, at) && Picks(lines, at, kept)
  }

  /** The origin's file, with all signatures of this node replaced by a new one over the member. */
  ghost predicate IsMirrorOf(e: Oracles, s: Signer, f: NarinfoFile, m: Member, mirror: NarinfoFile) {
    && e.parseHash(m.narHash).Some? && mirror.readable && mirror.terminated && mirror.size == s.sizeOf(mirror.lines)
    && mirror.lines != [] && Strikes(s.key.name, f.lines, mirror.lines[..|mirror.lines| - 1])
    && mirror.lines[|mirror.lines| - 1]
       == Line(Sig,
               s.key.name + ":"
               + s.sign(Fingerprint(m.storePath, e.parseHash(m.narHash).value, m.narSize, m.references)),
               true)
  }

  ghost function Shifted(at: seq<int>): seq<int> {
    seq(|at|, i requires 0 <= i < |at| => at[i] + 1)
  }

  lemma ShiftedElements(at: seq<int>, k: int)
    ensures k in Shifted(at) <==> k - 1 in at
  {
    if k - 1 in at {
      var i :| 0 <= i < |at| && at[i] == k - 1;
      assert Shifted(at)[i] == k;
    }
  }

  lemma PositionOfTail(name: string, lines: seq<Line>, at: seq<int>, k: nat)
    requires 0 < k < |lines| && ArePositions(name, lines[1..], at)
    ensures k in Shifted(at) <==> !IsSignatureOf(name, lines[k])
  {
    ShiftedElements(at, k);
    assert lines[k] == lines[1..][k - 1];
  }

  lemma ShiftedPositions(name: string, lines: seq<Line>, at: seq<int>)
    requires lines != [] && ArePositions(name, lines[1..], at)
    ensures ArePositions(name, lines, (if IsSignatureOf(name, lines[0]) then [] else [0]) + Shifted(at))
  {
    var all := (if IsSignatureOf(name, lines[0]) then [] else [0]) + Shifted(at);
    ShiftedElements(at, 0);
    forall k | 0 <= k < |lines| ensures k in all <==> !IsSignatureOf(name, lines[k]) {
      if k > 0 { PositionOfTail(name, lines, at, k); }
    }
  }

  lemma PicksOfTail(lines: seq<Line>, at: seq<int>, kept: seq<Line>)
    requires lines != [] && Picks(lines[1..], at, kept)
    ensures Picks(lines, Shifted(at), kept) && Picks(lines, [0] + Shifted(at), [lines[0]] + kept)
  {
  }

  lemma {:induction false} DropOwnMeans(key: PublicKey, lines: seq<Line>) returns (at: seq<int>)
    ensures ArePositions(key.name, lines, at) && Picks(lines, at, DropOwn(key, lines))
  {
    if lines == [] {
      at := [];
    } else {
      var rest := DropOwnMeans(key, lines[1..]);
      ShiftedPositions(key.name, lines, rest);
      PicksOfTail(lines, rest, DropOwn(key, lines[1..]));
      if IsSignatureOf(key.name, lines[0]) {
        assert [] + Shifted(rest) == Shifted(rest) && DropOwn(key, lines) == DropOwn(key, lines[1..]);
        at := Shifted(rest);
      } else {
        at := [0] + Shifted(rest);
      }
    }
  }

  /** `append_own_signature`: the stale signatures of this node go, every other line stays, in order. */
  lemma MirroredMeans(e: Oracles, s: Signer, f: NarinfoFile, key: PublicKey, path: string, m: Member)
    requires ValidStorePath(path) && SignedRecord(e, f, key, path) == Some(m)
    ensures Attests(e, f, key, path, m) && IsMirrorOf(e, s, f, m, Mirrored(e, s, f))
  {
    RecordMeans(e, f, key, path, m);
    var at := DropOwnMeans(s.key, f.lines);
    var mirror := Mirrored(e, s, f);
    assert mirror.lines[..|mirror.lines| - 1] == DropOwn(s.key, f.lines);
  }

  // ---- the disk ----

  ghost predicate SameAt<V>(a: map<string, V>, b: map<string, V>, name: string) {
    (name in a <==> name in b) && (name in a ==> a[name] == b[name])
  }

  ghost predicate HasStem(man: Manifest, stem: string) {
    exists i :: 0 <= i < |man.artifacts| && man.artifacts[i].stem == stem
  }

  /** Some artifact has its NAR under this name, and it is not on the disk as declared. */
  ghost predicate Lacks(e: Oracles, disk: Disk, man: Manifest, name: string) {
    exists i :: 0 <= i < |man.artifacts|
      && man.artifacts[i].narUrl == "nar/" + name && !HasNar(e, disk, man.artifacts[i], name)
  }

  /** The origin's signed file of this artifact is mirrored. */
  ghost predicate IsMirrored(e: Oracles, s: Signer, origin: Disk, key: PublicKey, disk: Disk, m: Member) {
    && m.stem in origin.narinfos && Attests(e, origin.narinfos[m.stem], key, m.storePath, m)
    && m.stem in disk.narinfos && IsMirrorOf(e, s, origin.narinfos[m.stem], m, disk.narinfos[m.stem])
  }

  /** The NARInfo files after an import: the mirrored artifacts, and every other as before. */
  ghost predicate MirrorsRecords(e: Oracles, s: Signer, origin: Disk, key: PublicKey, man: Manifest, before: Disk,
                                 after: Disk)
  {
    && (forall i :: 0 <= i < |man.artifacts| ==> IsMirrored(e, s, origin, key, after, man.artifacts[i]))
    && (forall k :: !HasStem(man, k) ==> SameAt(after.narinfos, before.narinfos, k))
  }

  /** The NAR files after an import: the origin's where one was lacking, and every other as before. */
  ghost predicate FetchesNars(e: Oracles, origin: Disk, man: Manifest, before: Disk, after: Disk) {
    forall name ::
      && (Lacks(e, before, man, name) ==> name in origin.nars && SameAt(after.nars, origin.nars, name))
      && (!Lacks(e, before, man, name) ==> SameAt(after.nars, before.nars, name))
  }

  /** The artifacts are the origin's records of the closure. */
  ghost predicate AreRecords(e: Oracles, origin: Disk, src: Source, man: Manifest) {
    && (forall i :: 0 <= i < |man.artifacts| ==>
          && OriginRecord(e, origin, src.key, man.artifacts[i].storePath) == Some(man.artifacts[i])
          && NarName(man.artifacts[i].narUrl).Some?)
    && Elements(PathsOf(man)) == OriginClosure(e, origin, src)
  }

  lemma PathHasArtifact(e: Oracles, origin: Disk, src: Source, man: Manifest, p: string) returns (i: nat)
    requires AreRecords(e, origin, src, man) && p in OriginClosure(e, origin, src)
    ensures i < |man.artifacts| && man.artifacts[i].storePath == p
    ensures OriginRecord(e, origin, src.key, p) == Some(man.artifacts[i])
  {
    assert p in PathsOf(man);
    i :| 0 <= i < |PathsOf(man)| && PathsOf(man)[i] == p;
  }

  lemma ArtifactHasPath(e: Oracles, origin: Disk, src: Source, man: Manifest, i: nat)
    requires AreRecords(e, origin, src, man) && i < |man.artifacts|
    ensures var m := man.artifacts[i];
            && m.storePath in OriginClosure(e, origin, src) && ValidStorePath(m.storePath)
            && m.stem == Stem(m.storePath) && m.stem in origin.narinfos
            && SignedRecord(e, origin.narinfos[m.stem], src.key, m.storePath) == Some(m)
            && m.storePath in OriginRecords(e, origin, src.key)
            && OriginRecords(e, origin, src.key)[m.storePath] == m
  {
    assert PathsOf(man)[i] in Elements(PathsOf(man));
    OriginRecordsAreChecked(e, origin, src.key, man.artifacts[i].storePath);
  }

  lemma StemsAre(e: Oracles, origin: Disk, src: Source, man: Manifest, k: string)
    requires AreRecords(e, origin, src, man)
    ensures k in StemsOf(OriginClosure(e, origin, src)) <==> HasStem(man, k)
  {
    if k in StemsOf(OriginClosure(e, origin, src)) {
      var p :| p in OriginClosure(e, origin, src) && ValidStorePath(p) && Stem(p) == k;
      var i := PathHasArtifact(e, origin, src, man, p);
      ArtifactHasPath(e, origin, src, man, i);
    }
    if i :| 0 <= i < |man.artifacts| && man.artifacts[i].stem == k {
      ArtifactHasPath(e, origin, src, man, i);
    }
  }

  lemma RecordsAreMirrored(e: Oracles, s: Signer, origin: Disk, src: Source, man: Manifest, disk0: Disk)
    requires AreRecords(e, origin, src, man)
    ensures MirrorsRecords(e, s, origin, src.key, man, disk0, Mirror(e, s, origin, src, disk0))
  {
    var disk := Mirror(e, s, origin, src, disk0);
    forall i | 0 <= i < |man.artifacts| ensures IsMirrored(e, s, origin, src.key, disk, man.artifacts[i]) {
      var m := man.artifacts[i];
      ArtifactHasPath(e, origin, src, man, i);
      PlannedIsMirrored(e, s, origin, src, disk0, m.storePath);
      MirroredMeans(e, s, origin.narinfos[m.stem], src.key, m.storePath, m);
    }
    forall k | !HasStem(man, k) ensures SameAt(disk.narinfos, disk0.narinfos, k) { StemsAre(e, origin, src, man, k); }
  }

  lemma OneNarName(e: Oracles, disk: Disk, m: Member, name: string)
    requires NarName(m.narUrl).Some?
    ensures NarName(m.narUrl).value == name <==> m.narUrl == "nar/" + name
    ensures NarName(m.narUrl).value == name ==> (CheckNar(e, disk, m).Failed? <==> !HasNar(e, disk, m, name))
  {
    NarNameIs(m.narUrl, NarName(m.narUrl).value);
    if m.narUrl == "nar/" + name {
      assert ("nar/" + name)[4..] == name && ("nar/" + NarName(m.narUrl).value)[4..] == NarName(m.narUrl).value;
    }
    NarMeans(e, disk, m);
    if other :| HasNar(e, disk, m, other) { assert ("nar/" + other)[4..] == other; }
  }

  lemma MissingAreLacking(e: Oracles, origin: Disk, src: Source, man: Manifest, disk0: Disk, name: string)
    requires AreRecords(e, origin, src, man)
    ensures name in Planned(e, origin, src, disk0).nars <==> Lacks(e, disk0, man, name)
  {
    var g, c := OriginRecords(e, origin, src.key), OriginClosure(e, origin, src);
    if name in Missing(e, g, disk0, c) {
      var p :| p in c && p in g && NarName(g[p].narUrl) == Some(name) && CheckNar(e, disk0, g[p]).Failed?;
      var i := PathHasArtifact(e, origin, src, man, p);
      ArtifactHasPath(e, origin, src, man, i);
      OneNarName(e, disk0, man.artifacts[i], name);
    }
    if i :| 0 <= i < |man.artifacts| && man.artifacts[i].narUrl == "nar/" + name
            && !HasNar(e, disk0, man.artifacts[i], name) {
      ArtifactHasPath(e, origin, src, man, i);
      OneNarName(e, disk0, man.artifacts[i], name);
    }
  }

  lemma NarsAreFetched(e: Oracles, s: Signer, origin: Disk, src: Source, man: Manifest, disk0: Disk)
    requires AreRecords(e, origin, src, man) && FromOrigin(origin, Planned(e, origin, src, disk0))
    ensures FetchesNars(e, origin, man, disk0, Mirror(e, s, origin, src, disk0))
  {
    forall name
      ensures Lacks(e, disk0, man, name) ==>
                name in origin.nars && SameAt(Mirror(e, s, origin, src, disk0).nars, origin.nars, name)
      ensures !Lacks(e, disk0, man, name) ==> SameAt(Mirror(e, s, origin, src, disk0).nars, disk0.nars, name)
    {
      MissingAreLacking(e, origin, src, man, disk0, name);
    }
  }

  /** What a successful import certifies and leaves. */
  ghost predicate ImportsExactly(e: Oracles, s: Signer, origin: Disk, src: Source, man: Manifest, before: Disk,
                                 after: Disk)
  {
    && Certified(e, after, src.root, src.derivation, s.key, man)
    && MirrorsRecords(e, s, origin, src.key, man, before, after) && FetchesNars(e, origin, man, before, after)
  }

  lemma ImportMeans(e: Oracles, s: Signer, origin: Disk, src: Source, man: Manifest, disk0: Disk)
    requires AreRecords(e, origin, src, man) && FromOrigin(origin, Planned(e, origin, src, disk0))
    requires Build(e, Mirror(e, s, origin, src, disk0), src.root, src.derivation, s.key) == Verified(man)
    ensures ImportsExactly(e, s, origin, src, man, disk0, Mirror(e, s, origin, src, disk0))
  {
    BuildIsCertified(e, Mirror(e, s, origin, src, disk0), src.root, src.derivation, s.key, man);
    RecordsAreMirrored(e, s, origin, src, man, disk0);
    NarsAreFetched(e, s, origin, src, man, disk0);
  }
}

/** Mirroring a verified closure from a sibling cache, member for member. */
module ReplicaImport {
  import opened Options
  import opened StorePaths
  import opened NixBase32
  import opened CacheModel
  import opened ReferenceGraph
  import opened NarinfoCheck
  import opened ClosureWalk
  import opened ClosureManifest

  const REPLICA_MAX_MEMBERS: nat := 200_000

  // ---- appending this node's signature ----

  /** What this node adds to a mirrored record: the text of its own signature over the record's
      fingerprint, and the size the rewritten file then has.  */
  datatype Signer = Signer(key: PublicKey, sign: Fingerprint -> string, sizeOf: seq<Line> -> nat)

  function OwnPrefix(key: PublicKey): string {
    key.name + ":"
  }

  predicate IsOwnSignature(key: PublicKey, line: Line) {
    line.key == Sig && line.spaced && OwnPrefix(key) <= line.value
  }

  function DropOwn(key: PublicKey, lines: seq<Line>): seq<Line> {
    if lines == [] then []
    else (if IsOwnSignature(key, lines[0]) then [] else [lines[0]]) + DropOwn(key, lines[1..])
  }

  /** `append_own_signature`: drop stale signatures of ours, then sign the record. */
  function AppendOwnSignature(e: Oracles, s: Signer, f: NarinfoFile, p: ParsedNarinfo, narHash: Digest): NarinfoFile {
    var own := Line(Sig, OwnPrefix(s.key) + s.sign(PrintOf(p, narHash)), true);
    var lines := DropOwn(s.key, f.lines) + [own];
    NarinfoFile(lines, true, true, s.sizeOf(lines))
  }

  /** The mirrored form of an origin file. */
  function Mirrored(e: Oracles, s: Signer, f: NarinfoFile): NarinfoFile {
    match ParseStrict(e, f)
    case None => f
    case Some(p) =>
      match e.parseHash(p.narHash)
      case None => f
      case Some(narHash) => AppendOwnSignature(e, s, f, p, narHash)
  }

  lemma {:induction false} ValuesOfAppend(lines: seq<Line>, line: Line, key: Key)
    ensures Values(lines + [line], key) == Values(lines, key) + (if line.key == key then [line.value] else [])
  {
    if lines == [] {
      assert lines + [line] == [line];
    } else {
      ValuesOfAppend(lines[1..], line, key);
      assert (lines + [line])[1..] == lines[1..] + [line];
    }
  }

  lemma {:induction false} DropOwnKeepsFields(key: PublicKey, lines: seq<Line>, field: Key)
    requires field != Sig
    ensures Values(DropOwn(key, lines), field) == Values(lines, field)
  {
    if lines == [] {
    } else {
      var rest := DropOwn(key, lines[1..]);
      DropOwnKeepsFields(key, lines[1..], field);
      if IsOwnSignature(key, lines[0]) {
        assert DropOwn(key, lines) == rest;
      } else {
        assert DropOwn(key, lines) == [lines[0]] + rest;
        assert DropOwn(key, lines)[1..] == rest;
      }
    }
  }

  lemma {:induction false} DropOwnKeepsOthers(key: PublicKey, lines: seq<Line>, v: string)
    requires v in Values(lines, Sig) && !(OwnPrefix(key) <= v)
    ensures v in Values(DropOwn(key, lines), Sig)
  {
    var rest := DropOwn(key, lines[1..]);
    if lines[0].key == Sig && lines[0].value == v {
      assert DropOwn(key, lines) == [lines[0]] + rest;
    } else {
      DropOwnKeepsOthers(key, lines[1..], v);
      if !IsOwnSignature(key, lines[0]) {
        assert DropOwn(key, lines) == [lines[0]] + rest;
        assert DropOwn(key, lines)[1..] == rest;
      } else {
        assert DropOwn(key, lines) == rest;
      }
    }
  }

  lemma {:induction false} DropOwnKeepsSpacing(key: PublicKey, lines: seq<Line>)
    requires forall i :: 0 <= i < |lines| ==> lines[i].spaced
    ensures forall i :: 0 <= i < |DropOwn(key, lines)| ==> DropOwn(key, lines)[i].spaced
  {
    if lines == [] {
    } else {
      DropOwnKeepsSpacing(key, lines[1..]);
    }
  }

  lemma FieldsOfMirrored(e: Oracles, s: Signer, f: NarinfoFile, field: Key)
    requires ParseStrict(e, f).Some? && e.parseHash(ParseStrict(e, f).value.narHash).Some? && field != Sig
    ensures Values(Mirrored(e, s, f).lines, field) == Values(f.lines, field)
  {
    var own := Mirrored(e, s, f).lines[|Mirrored(e, s, f).lines| - 1];
    DropOwnKeepsFields(s.key, f.lines, field);
    ValuesOfAppend(DropOwn(s.key, f.lines), own, field);
  }

  lemma SameFieldsSameRecord(e: Oracles, a: seq<Line>, b: seq<Line>)
    requires forall k :: k != Sig ==> Values(a, k) == Values(b, k)
    requires ParseFields(e, a).Some?
    ensures ParseFields(e, b) == Some(ParseFields(e, a).value.(signatures := Values(b, Sig)))
  {
    assert forall k :: k != Sig ==> FirstValue(a, k) == FirstValue(b, k);
  }

  lemma SameFieldsSameParse(e: Oracles, a: NarinfoFile, b: NarinfoFile)
    requires forall k :: k != Sig ==> Values(a.lines, k) == Values(b.lines, k)
    requires ParseStrict(e, a).Some? && b.terminated && Values(b.lines, Sig) != []
    requires forall i :: 0 <= i < |b.lines| ==> b.lines[i].spaced
    ensures ParseStrict(e, b) == Some(ParseStrict(e, a).value.(signatures := Values(b.lines, Sig)))
  {
    forall i | 0 <= i < |SINGLETONS| ensures |Values(b.lines, SINGLETONS[i])| == 1 {
      assert Values(a.lines, SINGLETONS[i]) == Values(b.lines, SINGLETONS[i]);
    }
    SameFieldsSameRecord(e, a.lines, b.lines);
  }

  /** The mirrored record parses to the origin's record; only its signatures differ. */
  lemma MirroredParses(e: Oracles, s: Signer, f: NarinfoFile)
    requires ParseStrict(e, f).Some? && e.parseHash(ParseStrict(e, f).value.narHash).Some?
    ensures ParseStrict(e, Mirrored(e, s, f))
            == Some(ParseStrict(e, f).value.(signatures := Values(Mirrored(e, s, f).lines, Sig)))
  {
    var m := Mirrored(e, s, f);
    forall k | k != Sig ensures Values(f.lines, k) == Values(m.lines, k) { FieldsOfMirrored(e, s, f, k); }
    DropOwnKeepsSpacing(s.key, f.lines);
    ValuesOfAppend(DropOwn(s.key, f.lines), m.lines[|m.lines| - 1], Sig);
    SameFieldsSameParse(e, f, m);
  }

  lemma PrefixIsName(key: PublicKey, v: string)
    requires ':' !in key.name && OwnPrefix(key) <= v
    ensures IndexOf(v, ':') == |key.name| && v[..IndexOf(v, ':')] == key.name
  {
    var n := |key.name|;
    assert v[n] == OwnPrefix(key)[n];
    assert forall i :: 0 <= i < n ==> v[i] == OwnPrefix(key)[i] == key.name[i];
  }

  lemma SignedByMember(e: Oracles, key: PublicKey, sigs: seq<string>, v: string, signed: Fingerprint)
    requires v in sigs && SignatureHolds(e, key, v, signed)
    ensures SignedBy(e, key, sigs, signed)
  {
    var j :| 0 <= j < |sigs| && sigs[j] == v;
  }

  /** A signature of another key survives, because its text does not start with our name. */
  lemma OtherSignatureSurvives(e: Oracles, ours: PublicKey, lines: seq<Line>, own: Line, key: PublicKey,
                               signed: Fingerprint)
    requires ':' !in ours.name && key.name != ours.name
    requires SignedBy(e, key, Values(lines, Sig), signed)
    ensures SignedBy(e, key, Values(DropOwn(ours, lines) + [own], Sig), signed)
  {
    var i :| 0 <= i < |Values(lines, Sig)| && SignatureHolds(e, key, Values(lines, Sig)[i], signed);
    var v := Values(lines, Sig)[i];
    assert !(OwnPrefix(ours) <= v) by { if OwnPrefix(ours) <= v { PrefixIsName(ours, v); } }
    DropOwnKeepsOthers(ours, lines, v);
    ValuesOfAppend(DropOwn(ours, lines), own, Sig);
    SignedByMember(e, key, Values(DropOwn(ours, lines) + [own], Sig), v, signed);
  }

  /** A mirrored file says about its path what the origin's file says, under the origin's key. */
  lemma MirroredSignedRecord(e: Oracles, s: Signer, f: NarinfoFile, key: PublicKey, path: string)
    requires ValidStorePath(path) && SignedRecord(e, f, key, path).Some?
    requires ':' !in s.key.name && key.name != s.key.name
    requires Mirrored(e, s, f).size <= MAX_NARINFO_BYTES
    ensures SignedRecord(e, Mirrored(e, s, f), key, path) == SignedRecord(e, f, key, path)
  {
    var p := ParseStrict(e, f).value;
    MirroredParses(e, s, f);
    var own := Mirrored(e, s, f).lines[|Mirrored(e, s, f).lines| - 1];
    OtherSignatureSurvives(e, s.key, f.lines, own, key, PrintOf(p, e.parseHash(p.narHash).value));
  }

  /** What any key accepts of a mirrored file is the origin's record. */
  lemma MirroredMember(e: Oracles, s: Signer, f: NarinfoFile, key: PublicKey, own: PublicKey, path: string)
    requires ValidStorePath(path) && SignedRecord(e, f, key, path).Some?
    requires SignedRecord(e, Mirrored(e, s, f), own, path).Some?
    ensures SignedRecord(e, Mirrored(e, s, f), own, path) == SignedRecord(e, f, key, path)
  {
    MirroredParses(e, s, f);
  }

  // ---- the origin's records as a graph ----

  /** What the origin's signed record says about a path. */
  function OriginRecord(e: Oracles, origin: Disk, key: PublicKey, path: string): Option<Member> {
    if ValidStorePath(path) && Stem(path) in origin.narinfos
    then SignedRecord(e, origin.narinfos[Stem(path)], key, path)
    else None
  }

  ghost function OriginRecords(e: Oracles, origin: Disk, key: PublicKey): MemberGraph {
    map p | p in PathsOnDisk(e, origin) && OriginRecord(e, origin, key, p).Some?
      :: OriginRecord(e, origin, key, p).value
  }

  lemma OriginRecordsAreChecked(e: Oracles, origin: Disk, key: PublicKey, path: string)
    ensures path in OriginRecords(e, origin, key) <==> OriginRecord(e, origin, key, path).Some?
    ensures path in OriginRecords(e, origin, key) ==>
              OriginRecords(e, origin, key)[path] == OriginRecord(e, origin, key, path).value
  {
    if OriginRecord(e, origin, key, path).Some? {
      assert ParseStrict(e, origin.narinfos[Stem(path)]).value.storePath == path;
    }
  }

  /** The origin holds the NAR its record declares. */
  predicate OriginNarIntact(e: Oracles, origin: Disk, key: PublicKey, path: string) {
    var m := OriginRecord(e, origin, key, path);
    m.Some? && CheckNar(e, origin, m.value).Passed?
  }

  /** The local file of a path is the mirrored form of the origin's. */
  ghost predicate MirroredAt(e: Oracles, s: Signer, origin: Disk, disk: Disk, path: string) {
    && ValidStorePath(path) && Stem(path) in origin.narinfos && Stem(path) in disk.narinfos
    && disk.narinfos[Stem(path)] == Mirrored(e, s, origin.narinfos[Stem(path)])
  }

  // ---- local and origin verification ----

  /** A local member of the mirrored closure is the origin's record. */
  lemma MirroredMemberAgrees(e: Oracles, s: Signer, origin: Disk, key: PublicKey, disk: Disk, path: string)
    requires OriginRecord(e, origin, key, path).Some? && MirroredAt(e, s, origin, disk, path)
    requires MemberAt(e, disk, s.key, path).Some?
    ensures MemberAt(e, disk, s.key, path) == OriginRecord(e, origin, key, path)
    ensures ValidCompression(OriginRecord(e, origin, key, path).value.compression)
  {
    MemberIsSignedRecord(e, disk, s.key, path);
    var f := origin.narinfos[Stem(path)];
    assert SignedRecord(e, f, key, path) == OriginRecord(e, origin, key, path);
    MirroredMember(e, s, f, key, s.key, path);
  }

  lemma ClosedInOther(g: MemberGraph, h: MemberGraph, v: set<string>)
    requires ClosedUnder(Edges(g), v) && v <= g.Keys && forall p :: p in v && p in h ==> h[p] == g[p]
    ensures ClosedUnder(Edges(h), v)
  {
    forall p, r | p in v && p in Edges(h) && r in Edges(h)[p] ensures r in v { assert p in Edges(g); }
  }

  /** The two graphs agree inside the origin's closure, so the closures are the same. */
  lemma ClosuresCoincide(g: MemberGraph, h: MemberGraph, root: string)
    requires ClosureOf(h, root) <= h.Keys && ClosureOf(g, root) <= g.Keys
    requires forall p :: p in ClosureOf(g, root) && p in h ==> h[p] == g[p]
    ensures ClosureOf(h, root) == ClosureOf(g, root) && AgreeOn(h, g, ClosureOf(h, root))
  {
    var v, w := ClosureOf(g, root), ClosureOf(h, root);
    ClosureIsLeast(Edges(g), {root});
    ClosureIsLeast(Edges(h), {root});
    ClosedInOther(g, h, v);
    assert w <= v;
    ClosedInOther(h, g, w);
  }

  lemma RecordThenNar(e: Oracles, disk: Disk, key: PublicKey, path: string, m: Member)
    requires ValidStorePath(path) && Stem(path) in disk.narinfos
    requires SignedRecord(e, disk.narinfos[Stem(path)], key, path) == Some(m) && ValidCompression(m.compression)
    ensures CheckMember(e, disk, key, path) == CheckNar(e, disk, m)
  {
  }

  lemma IntactNarPasses(e: Oracles, disk: Disk, m: Member)
    ensures CheckNar(e, disk, m).Passed? ==> CheckNar(e, disk, m) == Passed(m)
  {
  }

  lemma OriginMemberOf(e: Oracles, origin: Disk, key: PublicKey, path: string)
    requires OriginRecord(e, origin, key, path).Some?
    requires ValidCompression(OriginRecord(e, origin, key, path).value.compression)
    ensures MemberAt(e, origin, key, path)
            == if OriginNarIntact(e, origin, key, path) then OriginRecord(e, origin, key, path) else None
  {
    var m := OriginRecord(e, origin, key, path).value;
    RecordThenNar(e, origin, key, path, m);
    IntactNarPasses(e, origin, m);
  }

  /** What a mirrored closure looks like locally: same closure, same members as the origin's records. */
  lemma LocalIsOrigin(e: Oracles, s: Signer, origin: Disk, key: PublicKey, disk: Disk, root: string)
    requires ClosureOf(OriginRecords(e, origin, key), root) <= OriginRecords(e, origin, key).Keys
    requires forall p :: p in ClosureOf(OriginRecords(e, origin, key), root) ==> MirroredAt(e, s, origin, disk, p)
    requires ClosureOf(Members(e, disk, s.key), root) <= Members(e, disk, s.key).Keys
    ensures var g, h := OriginRecords(e, origin, key), Members(e, disk, s.key);
            ClosureOf(h, root) == ClosureOf(g, root) && AgreeOn(h, g, ClosureOf(h, root))
  {
    var g, h := OriginRecords(e, origin, key), Members(e, disk, s.key);
    forall p | p in ClosureOf(g, root) && p in h ensures h[p] == g[p] {
      OriginRecordsAreChecked(e, origin, key, p);
      MembersAreChecked(e, disk, s.key, p);
      MirroredMemberAgrees(e, s, origin, key, disk, p);
    }
    ClosuresCoincide(g, h, root);
  }

  ghost predicate OriginIntact(e: Oracles, origin: Disk, key: PublicKey, ps: set<string>) {
    forall p :: p in ps ==> OriginNarIntact(e, origin, key, p)
  }

  /** A member of the mirrored closure verifies at the origin exactly when its NAR is intact there. */
  lemma OriginAgreesAt(e: Oracles, s: Signer, origin: Disk, key: PublicKey, disk: Disk, path: string)
    requires path in Members(e, disk, s.key) && path in OriginRecords(e, origin, key)
    requires MirroredAt(e, s, origin, disk, path)
    ensures path in Members(e, origin, key) <==> OriginNarIntact(e, origin, key, path)
    ensures path in Members(e, origin, key) ==> Members(e, origin, key)[path] == Members(e, disk, s.key)[path]
  {
    OriginRecordsAreChecked(e, origin, key, path);
    MembersAreChecked(e, disk, s.key, path);
    MembersAreChecked(e, origin, key, path);
    MirroredMemberAgrees(e, s, origin, key, disk, path);
    OriginMemberOf(e, origin, key, path);
  }

  lemma OriginMemberIsRecord(e: Oracles, origin: Disk, key: PublicKey, path: string)
    requires path in Members(e, origin, key)
    ensures path in OriginRecords(e, origin, key)
    ensures OriginRecords(e, origin, key)[path] == Members(e, origin, key)[path]
    ensures OriginNarIntact(e, origin, key, path)
  {
    MembersAreChecked(e, origin, key, path);
    MemberIsSignedRecord(e, origin, key, path);
    OriginRecordsAreChecked(e, origin, key, path);
  }

  lemma VerifiedOriginIsIntact(e: Oracles, origin: Disk, key: PublicKey, root: string, derivation: Option<string>)
    requires Build(e, origin, root, derivation, key).Verified?
    ensures OriginIntact(e, origin, key, ClosureOf(OriginRecords(e, origin, key), root))
  {
    var g, o := OriginRecords(e, origin, key), Members(e, origin, key);
    WalkFromRootIsSound(o, root);
    var c := ClosureOf(o, root);
    ClosureIsLeast(Edges(o), {root});
    ClosureIsLeast(Edges(g), {root});
    forall p, r | p in c && p in Edges(g) && r in Edges(g)[p] ensures r in c {
      OriginMemberIsRecord(e, origin, key, p);
      assert Edges(o)[p] == Edges(g)[p];
    }
    assert ClosedUnder(Edges(g), c);
    forall p | p in ClosureOf(g, root) ensures OriginNarIntact(e, origin, key, p) {
      OriginMemberIsRecord(e, origin, key, p);
    }
  }

  /** The origin's own verification gives the mirrored manifest exactly when its NARs are intact. */
  lemma OriginVerification(e: Oracles, s: Signer, origin: Disk, key: PublicKey, disk: Disk,
                           root: string, derivation: Option<string>)
    requires Build(e, disk, root, derivation, s.key).Verified?
    requires ClosureOf(OriginRecords(e, origin, key), root) <= OriginRecords(e, origin, key).Keys
    requires forall p :: p in ClosureOf(OriginRecords(e, origin, key), root) ==> MirroredAt(e, s, origin, disk, p)
    ensures Build(e, origin, root, derivation, key) == Build(e, disk, root, derivation, s.key)
            <==> OriginIntact(e, origin, key, ClosureOf(OriginRecords(e, origin, key), root))
  {
    var g, h, o := OriginRecords(e, origin, key), Members(e, disk, s.key), Members(e, origin, key);
    WalkFromRootIsSound(h, root);
    LocalIsOrigin(e, s, origin, key, disk, root);
    if OriginIntact(e, origin, key, ClosureOf(g, root)) {
      forall p | p in ClosureOf(h, root) ensures p in o && o[p] == h[p] {
        OriginAgreesAt(e, s, origin, key, disk, p);
      }
      JudgeDependsOnClosure(e, h, o, root, derivation, p => Inspect(e, disk, s.key, p),
                            p => Inspect(e, origin, key, p));
    }
    if Build(e, origin, root, derivation, key) == Build(e, disk, root, derivation, s.key) {
      VerifiedOriginIsIntact(e, origin, key, root, derivation);
    }
  }
}

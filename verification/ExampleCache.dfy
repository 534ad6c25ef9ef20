/** The smallest cache that verifies, for any store path, under oracles that accept everything. */
module ExampleCache {
  import opened Options
  import opened StorePaths
  import opened TextOrder
  import opened NixBase32
  import opened CacheModel
  import opened ReferenceGraph
  import opened NarinfoCheck
  import opened ClosureWalk
  import opened ClosureManifest

  function Zero(): Digest { seq(32, i => 0) }

  /** Every digest is zero, every number is one and every signature holds. */
  function Yes(): Oracles {
    Oracles(b => Zero(), s => Some(Zero()), s => 1, (k, f, s) => true, m => true, m => "", k => "")
  }

  const KEY: PublicKey := PublicKey("k", "")

  function Lines(path: string, url: string, refs: string): seq<Line> {
    [Line(StorePath, path, true), Line(Url, url, true), Line(Compression, "xz", true),
     Line(FileHash, "h", true), Line(FileSize, "1", true), Line(NarHash, "h", true),
     Line(NarSize, "1", true), Line(References, refs, true), Line(Sig, "k:s", true)]
  }

  function File(path: string, url: string, refs: string): NarinfoFile {
    NarinfoFile(Lines(path, url, refs), true, true, 1)
  }

  function OneMember(path: string): Disk
    requires ValidStorePath(path)
  {
    Disk(map[Stem(path) := File(path, "nar/x", "")], map["x" := [0]])
  }

  function MemberAs(path: string, url: string, references: seq<string>): Member
    requires ValidStorePath(path)
  {
    Member(path, Stem(path), url, "h", 1, "h", 1, "xz", references)
  }

  function TheMember(path: string): Member
    requires ValidStorePath(path)
  {
    MemberAs(path, "nar/x", [])
  }

  function ParsedLines(path: string, url: string, refs: string): ParsedNarinfo {
    ParsedNarinfo(path, url, "xz", "h", 1, "h", 1, Tokens(refs), ["k:s"])
  }

  lemma {:induction false} NoValues(lines: seq<Line>, key: Key)
    requires forall i :: 0 <= i < |lines| ==> lines[i].key != key
    ensures Values(lines, key) == []
  {
    if lines == [] {
    } else {
      NoValues(lines[1..], key);
    }
  }

  lemma {:induction false} OneValue(lines: seq<Line>, key: Key, k: nat)
    requires k < |lines| && forall i :: 0 <= i < |lines| ==> (lines[i].key == key <==> i == k)
    ensures Values(lines, key) == [lines[k].value]
  {
    if k == 0 { NoValues(lines[1..], key); } else { OneValue(lines[1..], key, k - 1); }
  }

  lemma OneOfEach(lines: seq<Line>)
    requires |lines| == 9 && lines[0].key == StorePath && lines[1].key == Url && lines[2].key == Compression
             && lines[3].key == FileHash && lines[4].key == FileSize && lines[5].key == NarHash
             && lines[6].key == NarSize && lines[7].key == References && lines[8].key == Sig
    ensures forall i :: 0 <= i < |SINGLETONS| ==> Values(lines, SINGLETONS[i]) == [lines[i].value]
    ensures Values(lines, Sig) == [lines[8].value]
  {
    forall i | 0 <= i < |SINGLETONS| ensures Values(lines, SINGLETONS[i]) == [lines[i].value] {
      assert SINGLETONS[i] == lines[i].key;
      OneValue(lines, lines[i].key, i);
    }
    OneValue(lines, Sig, 8);
  }

  lemma ValuesParse(path: string, url: string, refs: string, lines: seq<Line>)
    requires ValidStorePath(path) && url != "" && Values(lines, Sig) == ["k:s"]
    requires FirstValue(lines, StorePath) == path && FirstValue(lines, Url) == url
    requires FirstValue(lines, Compression) == "xz" && FirstValue(lines, FileHash) == "h"
    requires FirstValue(lines, NarHash) == "h" && FirstValue(lines, References) == refs
    ensures ParseFields(Yes(), lines) == Some(ParsedLines(path, url, refs))
  {
  }

  lemma FieldsParse(path: string, url: string, refs: string, lines: seq<Line>)
    requires ValidStorePath(path) && url != "" && |lines| == 9 && lines == Lines(path, url, refs)
    requires forall i :: 0 <= i < |SINGLETONS| ==> Values(lines, SINGLETONS[i]) == [lines[i].value]
    requires Values(lines, Sig) == ["k:s"]
    ensures ParseFields(Yes(), lines) == Some(ParsedLines(path, url, refs))
  {
    assert forall i :: 0 <= i < |SINGLETONS| ==> FirstValue(lines, SINGLETONS[i]) == lines[i].value;
    assert SINGLETONS[0] == StorePath && SINGLETONS[1] == Url && SINGLETONS[2] == Compression;
    assert SINGLETONS[3] == FileHash && SINGLETONS[5] == NarHash && SINGLETONS[7] == References;
    ValuesParse(path, url, refs, lines);
  }

  lemma LinesParse(path: string, url: string, refs: string)
    requires ValidStorePath(path) && url != ""
    ensures ParseStrict(Yes(), File(path, url, refs)) == Some(ParsedLines(path, url, refs))
  {
    var lines := Lines(path, url, refs);
    assert |lines| == 9 && lines[0].key == StorePath && lines[1].key == Url && lines[2].key == Compression
           && lines[3].key == FileHash && lines[4].key == FileSize && lines[5].key == NarHash
           && lines[6].key == NarSize && lines[7].key == References && lines[8].key == Sig;
    assert forall i :: 0 <= i < |lines| ==> lines[i].spaced;
    OneOfEach(lines);
    FieldsParse(path, url, refs, lines);
  }

  lemma OneSignature(signature: string, signed: Fingerprint)
    requires signature == "k:s"
    ensures SignedBy(Yes(), KEY, [signature], signed)
  {
    assert SignatureHolds(Yes(), KEY, "k:s", signed);
    assert [signature][0] == signature;
  }

  /** What the record of such a file says. */
  lemma RecordHolds(path: string, url: string, refs: string)
    requires ValidStorePath(path) && url != "" && AllValid(Tokens(refs))
    ensures SignedRecord(Yes(), File(path, url, refs), KEY, path)
            == Some(MemberAs(path, url, SortedDistinct(RefPaths(Tokens(refs)))))
  {
    LinesParse(path, url, refs);
    OneSignature("k:s", PrintOf(ParsedLines(path, url, refs), Zero()));
  }

  lemma NarPasses(disk: Disk, m: Member)
    requires m.fileSize == 1 && NarName(m.narUrl).Some?
    requires NarName(m.narUrl).value in disk.nars && disk.nars[NarName(m.narUrl).value] == [0]
    ensures CheckNar(Yes(), disk, m) == Passed(m)
  {
  }

  lemma RecordPasses(disk: Disk, path: string, f: NarinfoFile, m: Member)
    requires ValidStorePath(path) && Stem(path) in disk.narinfos && disk.narinfos[Stem(path)] == f
    requires SignedRecord(Yes(), f, KEY, path) == Some(m) && m.compression == "xz"
    requires m.fileSize == 1 && NarName(m.narUrl).Some?
    requires NarName(m.narUrl).value in disk.nars && disk.nars[NarName(m.narUrl).value] == [0]
    ensures MemberAt(Yes(), disk, KEY, path) == Some(m)
  {
    NarPasses(disk, m);
  }

  /** On any disk that holds such a file and its NAR, the path is a member. */
  lemma FileIsMember(disk: Disk, path: string, url: string, name: string, refs: string)
    requires ValidStorePath(path) && AllValid(Tokens(refs)) && NarName(url) == Some(name)
    requires Stem(path) in disk.narinfos && disk.narinfos[Stem(path)] == File(path, url, refs)
    requires name in disk.nars && disk.nars[name] == [0]
    ensures path in Members(Yes(), disk, KEY)
    ensures Members(Yes(), disk, KEY)[path] == MemberAs(path, url, SortedDistinct(RefPaths(Tokens(refs))))
  {
    RecordHolds(path, url, refs);
    RecordPasses(disk, path, File(path, url, refs), MemberAs(path, url, SortedDistinct(RefPaths(Tokens(refs)))));
    MembersAreChecked(Yes(), disk, KEY, path);
  }

  lemma MemberPasses(path: string)
    requires ValidStorePath(path)
    ensures Members(Yes(), OneMember(path), KEY) == map[path := TheMember(path)]
  {
    assert NarName("nar/x") == Some("x");
    FileIsMember(OneMember(path), path, "nar/x", "x", "");
    assert SortedDistinct(RefPaths([])) == [];
    forall p | p in Members(Yes(), OneMember(path), KEY) ensures p == path {
      MembersAreChecked(Yes(), OneMember(path), KEY, p);
      LinesParse(path, "nar/x", "");
    }
  }

  lemma LeafDescribed(g: MemberGraph, path: string, m: Member)
    requires path in g && g[path] == m && m.references == []
    ensures ClosureOf(g, path) == {path}
    ensures Describes(g, Manifest(path, None, [m], m.fileSize, m.narSize))
  {
    var ps := [path];
    LeastIsClosure(Edges(g), {path}, {path});
    assert (set p | p in ps) == {path};
    assert ArtifactsAt(g, ps) == [m];
    assert Total(g, ps[1..], false) == 0 && Total(g, ps[1..], true) == 0;
    assert Total(g, ps, false) == m.fileSize && Total(g, ps, true) == m.narSize;
    assert Lists(g, Manifest(path, None, [m], m.fileSize, m.narSize), ps);
  }

  lemma PathVerifies(path: string)
    requires ValidStorePath(path)
    ensures ClosureOf(Members(Yes(), OneMember(path), KEY), path) == {path}
    ensures Build(Yes(), OneMember(path), path, None, KEY)
            == Verified(Manifest(path, None, [TheMember(path)], 1, 1))
  {
    var g, m := map[path := TheMember(path)], Manifest(path, None, [TheMember(path)], 1, 1);
    MemberPasses(path);
    LeafDescribed(g, path, TheMember(path));
    BuildIsDescription(Yes(), OneMember(path), path, None, KEY, m);
  }

  // ---- two members ----

  predicate TwoPaths(a: string, b: string) {
    ValidStorePath(a) && ValidStorePath(b) && Stem(a) != Stem(b)
  }

  lemma {:induction false} WordLenOfWord(s: string)
    requires forall i :: 0 <= i < |s| ==> !IsSpace(s[i])
    ensures WordLen(s) == |s|
  {
    if s == "" {
    } else {
      WordLenOfWord(s[1..]);
    }
  }

  lemma PathIsOneToken(p: string)
    requires ValidStorePath(p)
    ensures Tokens(p) == [p]
  {
    var rel := p[|STORE_DIR|..];
    forall i | 0 <= i < |p| ensures !IsSpace(p[i]) {
      if i < |STORE_DIR| {
        assert p[i] == STORE_DIR[i];
      } else {
        assert p[i] == rel[i - |STORE_DIR|];
      }
    }
    WordLenOfWord(p);
    assert p[..|p|] == p && p[|p|..] == "";
  }

  lemma PairClosure(g: MemberGraph, a: string, b: string)
    requires a in g && g[a].references == [b] && b in g && g[b].references == []
    ensures ClosureOf(g, a) == {a, b}
  {
    assert b in Edges(g)[a];
    ReachesStep(Edges(g), {a}, a, b);
    LeastIsClosure(Edges(g), {a}, {a, b});
  }

  lemma TwoSmallMembers(g: MemberGraph, a: string, b: string)
    requires a in g && b in g && g[a].fileSize == g[a].narSize == g[b].fileSize == g[b].narSize == 1
    ensures Total(g, [a, b], false) == 2 && Total(g, [a, b], true) == 2
  {
    assert [] + [a] == [a] && [a] + [b] == [a, b];
    TotalSnoc(g, [], a, false);
    TotalSnoc(g, [], a, true);
    TotalSnoc(g, [a], b, false);
    TotalSnoc(g, [a], b, true);
  }

  lemma PairWalks(g: MemberGraph, a: string, b: string)
    requires a in g && g[a].references == [b] && b in g && g[b].references == []
    requires g[a].fileSize == g[a].narSize == g[b].fileSize == g[b].narSize == 1
    ensures WalkFromRoot(g, a).Complete?
  {
    PairClosure(g, a, b);
    WalkFromRootIsSound(g, a);
    TwoSmallMembers(g, a, b);
    var order := WalkFromRoot(g, a).order;
    TotalOfSubset(g, order, [a, b], false);
    TotalOfSubset(g, order, [a, b], true);
    assert order[|order| - 1] in order;
  }

  lemma PathOf(c: char) returns (path: string)
    requires c == '0' || c == '1'
    ensures ValidStorePath(path) && Stem(path)[0] == c
  {
    var rel := seq(32, i => c) + "-x";
    path := STORE_DIR + rel;
    assert path[|STORE_DIR|..] == rel;
    assert rel[32] == '-' && rel[33] == 'x';
  }

  /** The family is not empty: two store paths with different hashes. */
  lemma PathsExist() returns (a: string, b: string)
    ensures TwoPaths(a, b)
  {
    a := PathOf('0');
    b := PathOf('1');
  }
}

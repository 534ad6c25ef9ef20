/** The strict check of one closure member: its NARInfo record, its signature and its NAR file, and
    the graph of members of a disk that pass it.  */
module NarinfoCheck {
  import opened Options
  import opened StorePaths
  import opened TextOrder
  import opened NixBase32
  import opened CacheModel

  // ---- one NARInfo ----

  function Values(lines: seq<Line>, key: Key): seq<string> {
    if lines == [] then []
    else (if lines[0].key == key then [lines[0].value] else []) + Values(lines[1..], key)
  }

  predicate IsSpace(c: char) {
    c == ' ' || c == '\t' || c == '\n' || c == '\r'
  }

  function WordLen(s: string): (n: nat)
    ensures n <= |s|
  {
    if s == "" || IsSpace(s[0]) then 0 else 1 + WordLen(s[1..])
  }

  /** `split_whitespace`. */
  function Tokens(s: string): seq<string>
    decreases |s|
  {
    if s == "" then []
    else if IsSpace(s[0]) then Tokens(s[1..])
    else [s[..WordLen(s)]] + Tokens(s[WordLen(s)..])
  }

  datatype ParsedNarinfo = ParsedNarinfo(
    storePath: string, url: string, compression: string, fileHash: string, fileSize: int,
    narHash: string, narSize: int, tokens: seq<string>, signatures: seq<string>)

  const SINGLETONS: seq<Key> :=
    [StorePath, Url, Compression, FileHash, FileSize, NarHash, NarSize, References]

  function FirstValue(lines: seq<Line>, key: Key): string {
    if Values(lines, key) == [] then "" else Values(lines, key)[0]
  }

  /** `parse_narinfo` on lines that carry each field once. */
  function ParseFields(e: Oracles, lines: seq<Line>): Option<ParsedNarinfo> {
    var p := ParsedNarinfo(
      FirstValue(lines, StorePath), FirstValue(lines, Url), FirstValue(lines, Compression),
      FirstValue(lines, FileHash), e.parseInt(FirstValue(lines, FileSize)),
      FirstValue(lines, NarHash), e.parseInt(FirstValue(lines, NarSize)),
      Tokens(FirstValue(lines, References)), Values(lines, Sig));
    if STORE_DIR <= p.storePath && p.url != "" && p.fileHash != "" && p.narHash != "" && p.narSize > 0
    then Some(p)
    else None
  }

  /** `parse_narinfo_strict`: every line well formed, each field once, at least one signature. */
  function ParseStrict(e: Oracles, f: NarinfoFile): Option<ParsedNarinfo> {
    if !f.terminated
       || (exists i :: 0 <= i < |f.lines| && !f.lines[i].spaced)
       || (exists i :: 0 <= i < |SINGLETONS| && |Values(f.lines, SINGLETONS[i])| != 1)
       || Values(f.lines, Sig) == []
    then None
    else ParseFields(e, f.lines)
  }

  function RefPaths(tokens: seq<string>): (paths: seq<string>)
    ensures |paths| == |tokens|
    ensures forall i :: 0 <= i < |tokens| ==> paths[i] == RefPath(tokens[i])
  {
    seq(|tokens|, i requires 0 <= i < |tokens| => RefPath(tokens[i]))
  }

  predicate AllValid(tokens: seq<string>) {
    forall t :: t in tokens ==> ValidStorePath(RefPath(t))
  }

  lemma RefPathsElements(tokens: seq<string>, p: string)
    ensures p in RefPaths(tokens) <==> exists t :: t in tokens && RefPath(t) == p
  {
    if p in RefPaths(tokens) {
      var i :| 0 <= i < |tokens| && RefPaths(tokens)[i] == p;
      assert tokens[i] in tokens;
    }
    if t :| t in tokens && RefPath(t) == p {
      var i :| 0 <= i < |tokens| && tokens[i] == t;
      assert RefPaths(tokens)[i] == p;
    }
  }

  predicate ValidCompression(c: string) {
    c != "" && forall i :: 0 <= i < |c| ==> IsAlnum(c[i]) || c[i] == '_' || c[i] == '-'
  }

  const NAR_PREFIX: string := "nar/"

  /** `validate_nar_url`: the file name under `nar/`. */
  function NarName(url: string): Option<string> {
    if !(NAR_PREFIX <= url) then None
    else
      var name := url[|NAR_PREFIX|..];
      if 0 < |name| <= 255
         && forall i :: 0 <= i < |name| ==>
              IsAlnum(name[i]) || name[i] == '.' || name[i] == '_' || name[i] == '+' || name[i] == '-'
      then Some(name)
      else None
  }

  const NAR_SUFFIX: string := ".nar"

  /** What precedes the first `.nar` of a file name, when there is one. */
  function NarHashPart(name: string): Option<string> {
    if NAR_SUFFIX <= name then Some("")
    else if name == "" then None
    else match NarHashPart(name[1..])
      case None => None
      case Some(rest) => Some([name[0]] + rest)
  }

  /** The digest a NAR file's own name claims. */
  function NamedDigest(name: string): Option<Digest> {
    match NarHashPart(name)
    case None => None
    case Some(hash) => Decode(hash)
  }

  predicate SignatureHolds(e: Oracles, key: PublicKey, signature: string, signed: Fingerprint) {
    var colon := IndexOf(signature, ':');
    colon < |signature| && signature[..colon] == key.name
    && e.verify(key.material, signed, signature[colon + 1..])
  }

  /** `verify_narinfo_signature`: some signature under the key's name verifies. */
  predicate SignedBy(e: Oracles, key: PublicKey, signatures: seq<string>, signed: Fingerprint) {
    exists i :: 0 <= i < |signatures| && SignatureHolds(e, key, signatures[i], signed)
  }

  function PrintOf(p: ParsedNarinfo, narHash: Digest): Fingerprint {
    Fingerprint(p.storePath, narHash, p.narSize, SortedDistinct(RefPaths(p.tokens)))
  }

  /** `corrupt` names the NAR file whose bytes contradict the digest in its own name. */
  datatype Check = Passed(member: Member) | Failed(corrupt: Option<string>)

  /** What a readable, strictly parsed and signed record says about the path it is filed under. */
  function SignedRecord(e: Oracles, f: NarinfoFile, key: PublicKey, path: string): Option<Member>
    requires ValidStorePath(path)
  {
    if !f.readable || f.size > MAX_NARINFO_BYTES then None
    else match ParseStrict(e, f)
      case None => None
      case Some(p) =>
        var fileHash, narHash := e.parseHash(p.fileHash), e.parseHash(p.narHash);
        if p.storePath != path
           || p.fileSize <= 0 || p.narSize <= 0
           || fileHash.None? || narHash.None?
           || !AllValid(p.tokens)
           || !SignedBy(e, key, p.signatures, PrintOf(p, narHash.value))
        then None
        else Some(Member(path, Stem(path), p.url, p.fileHash, p.fileSize, p.narHash, p.narSize,
                         p.compression, SortedDistinct(RefPaths(p.tokens))))
  }

  /** The record-only part of the check: everything but the NAR file. */
  function CheckRecord(e: Oracles, f: NarinfoFile, key: PublicKey, path: string): Option<Member>
    requires ValidStorePath(path)
  {
    match SignedRecord(e, f, key, path)
    case None => None
    case Some(m) => if ValidCompression(m.compression) then Some(m) else None
  }

  /** `hash_safe_cache_member` and the comparison with the record. */
  function CheckNar(e: Oracles, disk: Disk, m: Member): Check {
    match NarName(m.narUrl)
    case None => Failed(None)
    case Some(name) =>
      if name !in disk.nars then Failed(None)
      else
        var bytes, expected := disk.nars[name], e.parseHash(m.fileHash);
        if |bytes| == m.fileSize && expected == Some(e.sha256(bytes)) then Passed(m)
        else Failed(if expected != Some(e.sha256(bytes)) && expected.Some? && NamedDigest(name) == expected
                    then Some(name) else None)
  }

  /** The check of one visited store path. */
  function CheckMember(e: Oracles, disk: Disk, key: PublicKey, path: string): Check
    requires ValidStorePath(path)
  {
    if Stem(path) !in disk.narinfos then Failed(None)
    else match CheckRecord(e, disk.narinfos[Stem(path)], key, path)
      case None => Failed(None)
      case Some(m) => CheckNar(e, disk, m)
  }

  /** The member a store path has on this disk, if it passes every check. */
  function MemberAt(e: Oracles, disk: Disk, key: PublicKey, path: string): Option<Member> {
    if ValidStorePath(path) then
      match CheckMember(e, disk, key, path)
      case Passed(m) => Some(m)
      case Failed(_) => None
    else None
  }

  // ---- the good members of a disk as a graph ----

  ghost function PathsOnDisk(e: Oracles, disk: Disk): set<string> {
    set k | k in disk.narinfos && ParseStrict(e, disk.narinfos[k]).Some?
      :: ParseStrict(e, disk.narinfos[k]).value.storePath
  }

  ghost function Members(e: Oracles, disk: Disk, key: PublicKey): map<string, Member> {
    map p | p in PathsOnDisk(e, disk) && MemberAt(e, disk, key, p).Some? :: MemberAt(e, disk, key, p).value
  }

  lemma MembersAreChecked(e: Oracles, disk: Disk, key: PublicKey, path: string)
    ensures path in Members(e, disk, key) <==> MemberAt(e, disk, key, path).Some?
    ensures path in Members(e, disk, key) ==>
              Members(e, disk, key)[path] == MemberAt(e, disk, key, path).value
  {
    if MemberAt(e, disk, key, path).Some? {
      assert ParseStrict(e, disk.narinfos[Stem(path)]).value.storePath == path;
    }
  }

  lemma MemberShape(e: Oracles, disk: Disk, key: PublicKey, path: string)
    requires MemberAt(e, disk, key, path).Some?
    ensures var m := MemberAt(e, disk, key, path).value;
            && ValidStorePath(path) && m.storePath == path && m.stem == Stem(path)
            && Stem(path) in disk.narinfos
            && NarName(m.narUrl).Some? && NarName(m.narUrl).value in disk.nars
            && (forall r :: r in m.references ==> ValidStorePath(r))
            && m.fileSize > 0 && m.narSize > 0
  {
    var p := ParseStrict(e, disk.narinfos[Stem(path)]).value;
    SortedDistinctIsSorted(RefPaths(p.tokens));
    forall r | r in RefPaths(p.tokens) ensures ValidStorePath(r) { RefPathsElements(p.tokens, r); }
  }

  /** A member is its signed record, with a known compression and an intact NAR. */
  lemma MemberIsSignedRecord(e: Oracles, disk: Disk, key: PublicKey, path: string)
    requires MemberAt(e, disk, key, path).Some?
    ensures ValidStorePath(path) && Stem(path) in disk.narinfos
    ensures SignedRecord(e, disk.narinfos[Stem(path)], key, path) == MemberAt(e, disk, key, path)
    ensures ValidCompression(MemberAt(e, disk, key, path).value.compression)
    ensures CheckNar(e, disk, MemberAt(e, disk, key, path).value).Passed?
  {
  }
}

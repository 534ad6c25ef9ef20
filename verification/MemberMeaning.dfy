/** What a verified member is, said on the lines of its NARInfo file and the bytes of its NAR. */
module MemberMeaning {
  import opened Options
  import opened StorePaths
  import opened TextOrder
  import opened NixBase32
  import opened CacheModel
  import opened NarinfoCheck

  // ---- lines ----

  /** Line `i` has this key and this value, and no other line has the key. */
  predicate IsOnly(lines: seq<Line>, key: Key, value: string, i: nat) {
    && i < |lines| && lines[i].key == key && lines[i].value == value
    && forall j :: 0 <= j < |lines| && lines[j].key == key ==> j == i
  }

  /** The file has one line with this key, and this is its value. */
  ghost predicate HasOnly(lines: seq<Line>, key: Key, value: string) {
    exists i :: IsOnly(lines, key, value, i)
  }

  ghost predicate HasLine(lines: seq<Line>, key: Key, value: string) {
    exists i :: 0 <= i < |lines| && lines[i].key == key && lines[i].value == value
  }

  lemma HasLineTail(lines: seq<Line>, key: Key, value: string)
    requires lines != []
    ensures HasLine(lines, key, value)
            <==> (lines[0].key == key && lines[0].value == value) || HasLine(lines[1..], key, value)
  {
    if HasLine(lines[1..], key, value) {
      var i :| 0 <= i < |lines[1..]| && lines[1..][i].key == key && lines[1..][i].value == value;
      assert lines[i + 1].key == key && lines[i + 1].value == value;
    }
    if HasLine(lines, key, value) {
      var i :| 0 <= i < |lines| && lines[i].key == key && lines[i].value == value;
      if i > 0 { assert lines[1..][i - 1] == lines[i]; }
    }
  }

  lemma {:induction false} ValuesAreLines(lines: seq<Line>, key: Key, value: string)
    ensures value in Values(lines, key) <==> HasLine(lines, key, value)
  {
    if lines == [] {
    } else {
      ValuesAreLines(lines[1..], key, value);
      HasLineTail(lines, key, value);
    }
  }

  lemma NoLineNoValue(lines: seq<Line>, key: Key)
    ensures Values(lines, key) == [] <==> forall j :: 0 <= j < |lines| ==> lines[j].key != key
  {
    if Values(lines, key) != [] {
      ValuesAreLines(lines, key, Values(lines, key)[0]);
      assert Values(lines, key)[0] in Values(lines, key);
    } else {
      forall j | 0 <= j < |lines| ensures lines[j].key != key { ValuesAreLines(lines, key, lines[j].value); }
    }
  }

  lemma OnlyTail(lines: seq<Line>, key: Key, value: string)
    requires lines != [] && lines[0].key != key
    ensures HasOnly(lines, key, value) <==> HasOnly(lines[1..], key, value)
  {
    if i: nat :| IsOnly(lines, key, value, i) {
      forall j | 0 <= j < |lines[1..]| && lines[1..][j].key == key ensures j == i - 1 {
        assert lines[j + 1].key == key;
      }
      assert IsOnly(lines[1..], key, value, i - 1);
    }
    if i: nat :| IsOnly(lines[1..], key, value, i) {
      forall j | 0 <= j < |lines| && lines[j].key == key ensures j == i + 1 { assert lines[1..][j - 1].key == key; }
      assert IsOnly(lines, key, value, i + 1);
    }
  }

  lemma OnlyHead(lines: seq<Line>, key: Key, value: string)
    requires lines != [] && lines[0].key == key
    ensures HasOnly(lines, key, value) <==> lines[0].value == value && Values(lines[1..], key) == []
  {
    NoLineNoValue(lines[1..], key);
    assert forall j :: 0 < j < |lines| ==> lines[j] == lines[1..][j - 1];
    if Values(lines[1..], key) == [] && lines[0].value == value { assert IsOnly(lines, key, value, 0); }
    if i: nat :| IsOnly(lines, key, value, i) {
      forall j | 0 <= j < |lines[1..]| ensures lines[1..][j].key != key { assert lines[1..][j] == lines[j + 1]; }
    }
  }

  /** A singleton field is a line that occurs once. */
  lemma {:induction false} SingletonIsOnly(lines: seq<Line>, key: Key, value: string)
    ensures Values(lines, key) == [value] <==> HasOnly(lines, key, value)
  {
    if lines == [] {
    } else if lines[0].key == key {
      OnlyHead(lines, key, value);
      var rest := Values(lines[1..], key);
      assert Values(lines, key) == [lines[0].value] + rest && |Values(lines, key)| == 1 + |rest|;
      assert Values(lines, key)[0] == lines[0].value && [value][0] == value;
    } else {
      SingletonIsOnly(lines[1..], key, value);
      OnlyTail(lines, key, value);
    }
  }

  // ---- words ----

  predicate IsBlank(c: char) {
    c in {' ', '\t', '\n', '\r'}
  }

  /** `s[i..j]` is a longest run of characters that are not blank. */
  predicate IsWord(s: string, i: nat, j: nat) {
    && i < j <= |s| && (forall k :: i <= k < j ==> !IsBlank(s[k]))
    && (i == 0 || IsBlank(s[i - 1])) && (j == |s| || IsBlank(s[j]))
  }

  ghost predicate HasWord(s: string, w: string) {
    exists i: nat, j: nat :: IsWord(s, i, j) && s[i..j] == w
  }

  lemma {:induction false} FirstWord(s: string)
    ensures forall k :: 0 <= k < WordLen(s) ==> !IsBlank(s[k])
    ensures WordLen(s) == |s| || IsBlank(s[WordLen(s)])
  {
    if s == "" || IsSpace(s[0]) {
    } else {
      FirstWord(s[1..]);
      forall k | 0 <= k < WordLen(s) ensures !IsBlank(s[k]) {
        if k > 0 { assert s[k] == s[1..][k - 1]; }
      }
      if WordLen(s) < |s| { assert s[WordLen(s)] == s[1..][WordLen(s[1..])]; }
    }
  }

  /** The words of `s` after a cut at `n`, where a blank or a word's end is. */
  lemma WordsAfter(s: string, n: nat, w: string)
    requires n <= |s| && (n == |s| || IsBlank(s[n]) || (n > 0 && IsBlank(s[n - 1])))
    ensures HasWord(s[n..], w) <==> exists i: nat, j: nat :: n <= i && IsWord(s, i, j) && s[i..j] == w
  {
    if i: nat, j: nat :| IsWord(s[n..], i, j) && s[n..][i..j] == w {
      assert s[n + i..n + j] == w;
      assert forall k :: n + i <= k < n + j ==> s[k] == s[n..][k - n];
      assert IsWord(s, n + i, n + j);
    }
    if i: nat, j: nat :| n <= i && IsWord(s, i, j) && s[i..j] == w {
      assert s[n..][i - n..j - n] == w;
      assert forall k :: i - n <= k < j - n ==> s[n..][k] == s[k + n];
      assert IsWord(s[n..], i - n, j - n);
    }
  }

  lemma WordStarts(s: string, n: nat, i: nat, j: nat)
    requires IsWord(s, i, j) && n <= |s| && (forall k :: 0 <= k < n ==> !IsBlank(s[k])) && (n == |s| || IsBlank(s[n]))
    ensures i >= n || (i == 0 && j == n)
  {
    assert i < n ==> i == 0;
  }

  /** The tokens of a text are its words. */
  lemma {:induction false} TokensAreWords(s: string, w: string)
    ensures w in Tokens(s) <==> HasWord(s, w)
    decreases |s|
  {
    if s == "" {
    } else if IsSpace(s[0]) {
      TokensAreWords(s[1..], w);
      WordsAfter(s, 1, w);
      assert forall j: nat :: !IsWord(s, 0, j);
    } else {
      var n := WordLen(s);
      FirstWord(s);
      TokensAreWords(s[n..], w);
      WordsAfter(s, n, w);
      assert IsWord(s, 0, n);
      if i: nat, j: nat :| IsWord(s, i, j) && s[i..j] == w { WordStarts(s, n, i, j); }
    }
  }

  // ---- a record ----

  /** How a reference is written: as a store path, or as its last segment. */
  ghost predicate Mentions(text: string, path: string) {
    || (HasWord(text, path) && "/nix/store/" <= path)
    || (exists w :: HasWord(text, w) && !("/nix/store/" <= w) && path == "/nix/store/" + w)
  }

  /** A `Sig` line under the key's name whose signature verifies. */
  predicate SignsFor(e: Oracles, key: PublicKey, line: Line, signed: Fingerprint) {
    && line.key == Sig && ':' !in key.name && key.name + ":" <= line.value
    && e.verify(key.material, signed, line.value[|key.name| + 1..])
  }

  /** Some line of the file signs the fingerprint. */
  predicate IsSigned(e: Oracles, f: NarinfoFile, key: PublicKey, signed: Fingerprint) {
    exists i :: 0 <= i < |f.lines| && SignsFor(e, key, f.lines[i], signed)
  }

  ghost predicate IsStorePath(path: string) {
    exists hash, name :: Composes(path, hash, name)
  }

  /** The file is a complete and well-formed NARInfo. */
  predicate IsWellFormed(f: NarinfoFile) {
    f.readable && f.terminated && f.size <= 1_048_576 && forall i :: 0 <= i < |f.lines| ==> f.lines[i].spaced
  }

  /** The file says this member of the path, in one line for each field. */
  ghost predicate Says(e: Oracles, f: NarinfoFile, path: string, m: Member) {
    && HasOnly(f.lines, StorePath, path) && m.storePath == path
    && HasOnly(f.lines, Url, m.narUrl) && m.narUrl != ""
    && HasOnly(f.lines, Compression, m.compression)
    && HasOnly(f.lines, FileHash, m.fileHash) && m.fileHash != ""
    && HasOnly(f.lines, NarHash, m.narHash) && m.narHash != ""
    && (exists t :: HasOnly(f.lines, FileSize, t) && e.parseInt(t) == m.fileSize > 0)
    && (exists t :: HasOnly(f.lines, NarSize, t) && e.parseInt(t) == m.narSize > 0)
    && (exists t :: HasOnly(f.lines, References, t) && forall r :: r in m.references <==> Mentions(t, r))
    && StrictlySorted(m.references)
  }

  /** A signed record: what the file says, with strong hashes and valid references, under the key. */
  ghost predicate Attests(e: Oracles, f: NarinfoFile, key: PublicKey, path: string, m: Member) {
    && IsWellFormed(f) && Says(e, f, path, m) && |path| >= 43 && m.stem == path[11..43]
    && e.parseHash(m.fileHash).Some? && e.parseHash(m.narHash).Some?
    && (forall r :: r in m.references ==> IsStorePath(r))
    && IsSigned(e, f, key, Fingerprint(path, e.parseHash(m.narHash).value, m.narSize, m.references))
  }

  predicate IsFileName(name: string) {
    && 0 < |name| <= 255
    && forall i :: 0 <= i < |name| ==> IsLetterOrDigit(name[i]) || name[i] in {'.', '_', '+', '-'}
  }

  /** The compressed NAR the URL names is here, with the size and the digest the member declares. */
  ghost predicate HasNar(e: Oracles, disk: Disk, m: Member, name: string) {
    && m.narUrl == "nar/" + name && IsFileName(name)
    && name in disk.nars && |disk.nars[name]| == m.fileSize
    && e.parseHash(m.fileHash) == Some(e.sha256(disk.nars[name]))
  }

  predicate IsCompression(c: string) {
    c != "" && forall i :: 0 <= i < |c| ==> IsLetterOrDigit(c[i]) || c[i] in {'_', '-'}
  }

  /** The member is what the disk holds for the path, signed under the key. */
  ghost predicate Stands(e: Oracles, disk: Disk, key: PublicKey, path: string, m: Member) {
    && IsStorePath(path)
    && m.stem in disk.narinfos && Attests(e, disk.narinfos[m.stem], key, path, m)
    && IsCompression(m.compression)
    && exists name :: HasNar(e, disk, m, name)
  }

  // ---- the strict parser ----

  ghost predicate SinglyPresent(lines: seq<Line>, p: ParsedNarinfo, fileSize: string, narSize: string, refs: string) {
    && HasOnly(lines, StorePath, p.storePath) && HasOnly(lines, Url, p.url)
    && HasOnly(lines, Compression, p.compression) && HasOnly(lines, FileHash, p.fileHash)
    && HasOnly(lines, FileSize, fileSize) && HasOnly(lines, NarHash, p.narHash)
    && HasOnly(lines, NarSize, narSize) && HasOnly(lines, References, refs)
  }

  /** Each of the eight singleton fields has one value. */
  predicate OneEach(lines: seq<Line>) {
    && |Values(lines, StorePath)| == 1 && |Values(lines, Url)| == 1 && |Values(lines, Compression)| == 1
    && |Values(lines, FileHash)| == 1 && |Values(lines, FileSize)| == 1 && |Values(lines, NarHash)| == 1
    && |Values(lines, NarSize)| == 1 && |Values(lines, References)| == 1
  }

  lemma ParsedHasOneEach(e: Oracles, f: NarinfoFile)
    requires ParseStrict(e, f).Some?
    ensures OneEach(f.lines)
  {
    assert |Values(f.lines, SINGLETONS[0])| == 1 && |Values(f.lines, SINGLETONS[1])| == 1;
    assert |Values(f.lines, SINGLETONS[2])| == 1 && |Values(f.lines, SINGLETONS[3])| == 1;
    assert |Values(f.lines, SINGLETONS[4])| == 1 && |Values(f.lines, SINGLETONS[5])| == 1;
    assert |Values(f.lines, SINGLETONS[6])| == 1 && |Values(f.lines, SINGLETONS[7])| == 1;
  }

  lemma OneEachIsEnough(lines: seq<Line>, i: nat)
    requires OneEach(lines) && i < |SINGLETONS|
    ensures |Values(lines, SINGLETONS[i])| == 1
  {
    var key := SINGLETONS[i];
    assert key in {StorePath, Url, Compression, FileHash, FileSize, NarHash, NarSize, References};
  }

  lemma ValueIsOnly(lines: seq<Line>, key: Key)
    requires |Values(lines, key)| == 1
    ensures HasOnly(lines, key, FirstValue(lines, key))
  {
    assert Values(lines, key) == [FirstValue(lines, key)];
    SingletonIsOnly(lines, key, FirstValue(lines, key));
  }

  lemma ParsedIsPresent(e: Oracles, f: NarinfoFile, p: ParsedNarinfo)
    requires ParseStrict(e, f) == Some(p)
    ensures var fileSize, narSize := FirstValue(f.lines, FileSize), FirstValue(f.lines, NarSize);
            var refs := FirstValue(f.lines, References);
            && SinglyPresent(f.lines, p, fileSize, narSize, refs)
            && p.fileSize == e.parseInt(fileSize) && p.narSize == e.parseInt(narSize) && p.tokens == Tokens(refs)
  {
    ParsedHasOneEach(e, f);
    ValueIsOnly(f.lines, StorePath);
    ValueIsOnly(f.lines, Url);
    ValueIsOnly(f.lines, Compression);
    ValueIsOnly(f.lines, FileHash);
    ValueIsOnly(f.lines, FileSize);
    ValueIsOnly(f.lines, NarHash);
    ValueIsOnly(f.lines, NarSize);
    ValueIsOnly(f.lines, References);
  }

  lemma OnlyIsValue(lines: seq<Line>, key: Key, value: string)
    requires HasOnly(lines, key, value)
    ensures |Values(lines, key)| == 1 && FirstValue(lines, key) == value
  {
    SingletonIsOnly(lines, key, value);
  }

  lemma PresentIsParsed(e: Oracles, f: NarinfoFile, p: ParsedNarinfo, fileSize: string, narSize: string, refs: string)
    requires IsWellFormed(f) && SinglyPresent(f.lines, p, fileSize, narSize, refs)
    requires p.fileSize == e.parseInt(fileSize) && p.narSize == e.parseInt(narSize) && p.tokens == Tokens(refs)
    requires p.signatures == Values(f.lines, Sig) != [] && STORE_DIR <= p.storePath && p.narSize > 0
    requires p.url != "" && p.fileHash != "" && p.narHash != ""
    ensures ParseStrict(e, f) == Some(p)
  {
    OnlyIsValue(f.lines, StorePath, p.storePath);
    OnlyIsValue(f.lines, Url, p.url);
    OnlyIsValue(f.lines, Compression, p.compression);
    OnlyIsValue(f.lines, FileHash, p.fileHash);
    OnlyIsValue(f.lines, FileSize, fileSize);
    OnlyIsValue(f.lines, NarHash, p.narHash);
    OnlyIsValue(f.lines, NarSize, narSize);
    OnlyIsValue(f.lines, References, refs);
    forall i | 0 <= i < |SINGLETONS| ensures |Values(f.lines, SINGLETONS[i])| == 1 { OneEachIsEnough(f.lines, i); }
  }

  // ---- references and signatures ----

  lemma ReferencesAreMentioned(refs: string, r: string)
    ensures r in SortedDistinct(RefPaths(Tokens(refs))) <==> Mentions(refs, r)
  {
    SortedDistinctIsSorted(RefPaths(Tokens(refs)));
    RefPathsElements(Tokens(refs), r);
    if t :| t in Tokens(refs) && RefPath(t) == r { TokensAreWords(refs, t); }
    TokensAreWords(refs, r);
    if w :| HasWord(refs, w) && !(STORE_DIR <= w) && r == STORE_DIR + w {
      TokensAreWords(refs, w);
      assert RefPath(w) == r;
    }
    if HasWord(refs, r) && STORE_DIR <= r { assert RefPath(r) == r; }
  }

  lemma ReferencesAreThose(refs: string, references: seq<string>)
    ensures references == SortedDistinct(RefPaths(Tokens(refs)))
            <==> StrictlySorted(references) && forall r :: r in references <==> Mentions(refs, r)
  {
    var sorted := SortedDistinct(RefPaths(Tokens(refs)));
    SortedDistinctIsSorted(RefPaths(Tokens(refs)));
    forall r ensures r in sorted <==> Mentions(refs, r) { ReferencesAreMentioned(refs, r); }
    if StrictlySorted(references) && forall r :: r in references <==> Mentions(refs, r) {
      SortedIsUnique(references, sorted);
    }
  }

  lemma SignatureIsLine(e: Oracles, key: PublicKey, line: Line, signed: Fingerprint)
    requires line.key == Sig
    ensures SignatureHolds(e, key, line.value, signed) <==> SignsFor(e, key, line, signed)
  {
    var colon, prefix := IndexOf(line.value, ':'), key.name + ":";
    if SignatureHolds(e, key, line.value, signed) {
      assert line.value[..colon + 1] == line.value[..colon] + ":" == prefix;
      assert forall j :: 0 <= j < colon ==> key.name[j] == line.value[j];
    }
    if SignsFor(e, key, line, signed) {
      assert forall j :: 0 <= j < |prefix| ==> line.value[j] == prefix[j];
      assert line.value[|key.name|] == ':' && forall j :: 0 <= j < |key.name| ==> line.value[j] == key.name[j];
      assert colon == |key.name| && line.value[..colon] == key.name;
    }
  }

  lemma SignedIsLine(e: Oracles, key: PublicKey, f: NarinfoFile, signed: Fingerprint)
    ensures SignedBy(e, key, Values(f.lines, Sig), signed) <==> IsSigned(e, f, key, signed)
  {
    var lines := f.lines;
    if i :| 0 <= i < |lines| && SignsFor(e, key, lines[i], signed) {
      ValuesAreLines(lines, Sig, lines[i].value);
      SignatureIsLine(e, key, lines[i], signed);
      var j :| 0 <= j < |Values(lines, Sig)| && Values(lines, Sig)[j] == lines[i].value;
    }
    if j :| 0 <= j < |Values(lines, Sig)| && SignatureHolds(e, key, Values(lines, Sig)[j], signed) {
      var v := Values(lines, Sig)[j];
      assert v in Values(lines, Sig);
      ValuesAreLines(lines, Sig, v);
      var i :| 0 <= i < |lines| && lines[i].key == Sig && lines[i].value == v;
      SignatureIsLine(e, key, lines[i], signed);
    }
  }

  lemma ValidReferences(refs: string, references: seq<string>)
    requires references == SortedDistinct(RefPaths(Tokens(refs)))
    ensures AllValid(Tokens(refs)) <==> forall r :: r in references ==> IsStorePath(r)
  {
    SortedDistinctIsSorted(RefPaths(Tokens(refs)));
    forall r ensures r in references <==> exists t :: t in Tokens(refs) && RefPath(t) == r {
      RefPathsElements(Tokens(refs), r);
    }
    forall r ensures ValidStorePath(r) <==> IsStorePath(r) { ValidIsComposed(r); }
    if AllValid(Tokens(refs)) {
      forall r | r in references ensures ValidStorePath(r) {
        var t :| t in Tokens(refs) && RefPath(t) == r;
      }
    } else {
      var t :| t in Tokens(refs) && !ValidStorePath(RefPath(t));
      assert RefPath(t) in references;
    }
  }

  // ---- the check, in both directions ----

  lemma ParsedSays(e: Oracles, f: NarinfoFile, p: ParsedNarinfo, path: string, m: Member)
    requires ParseStrict(e, f) == Some(p) && p.storePath == path == m.storePath && m.narUrl == p.url
    requires m.compression == p.compression && m.fileHash == p.fileHash && m.narHash == p.narHash
    requires m.fileSize == p.fileSize > 0 && m.narSize == p.narSize > 0
    requires m.references == SortedDistinct(RefPaths(p.tokens))
    ensures Says(e, f, path, m)
  {
    ParsedIsPresent(e, f, p);
    ReferencesAreThose(FirstValue(f.lines, References), m.references);
  }

  lemma ParsedIsSigned(e: Oracles, f: NarinfoFile, key: PublicKey, p: ParsedNarinfo, signed: Fingerprint)
    requires ParseStrict(e, f) == Some(p) && SignedBy(e, key, p.signatures, signed)
    ensures IsSigned(e, f, key, signed)
  {
    SignedIsLine(e, key, f, signed);
  }

  lemma ParsedReferences(e: Oracles, f: NarinfoFile, p: ParsedNarinfo, references: seq<string>)
    requires ParseStrict(e, f) == Some(p) && AllValid(p.tokens) && references == SortedDistinct(RefPaths(p.tokens))
    ensures forall r :: r in references ==> IsStorePath(r)
  {
    ValidReferences(FirstValue(f.lines, References), references);
  }

  lemma ParsedIsAttested(e: Oracles, f: NarinfoFile, key: PublicKey, path: string, m: Member, p: ParsedNarinfo)
    requires ValidStorePath(path) && f.readable && f.size <= MAX_NARINFO_BYTES && m.stem == Stem(path)
    requires ParseStrict(e, f) == Some(p) && p.storePath == path == m.storePath && m.narUrl == p.url
    requires m.compression == p.compression && m.fileHash == p.fileHash && m.narHash == p.narHash
    requires m.fileSize == p.fileSize > 0 && m.narSize == p.narSize > 0
    requires m.references == SortedDistinct(RefPaths(p.tokens)) && AllValid(p.tokens)
    requires e.parseHash(p.fileHash).Some? && e.parseHash(p.narHash).Some?
    requires SignedBy(e, key, p.signatures, PrintOf(p, e.parseHash(p.narHash).value))
    ensures Attests(e, f, key, path, m)
  {
    ParsedSays(e, f, p, path, m);
    ParsedIsSigned(e, f, key, p, PrintOf(p, e.parseHash(p.narHash).value));
    ParsedReferences(e, f, p, m.references);
    StemIsSlice(path);
  }

  lemma SignedIsAttested(e: Oracles, f: NarinfoFile, key: PublicKey, path: string, m: Member)
    requires ValidStorePath(path) && SignedRecord(e, f, key, path) == Some(m)
    ensures Attests(e, f, key, path, m)
  {
    ParsedIsAttested(e, f, key, path, m, ParseStrict(e, f).value);
  }

  /** The record as the parser would read it. */
  ghost function AsParsed(f: NarinfoFile, m: Member, refs: string): ParsedNarinfo {
    ParsedNarinfo(m.storePath, m.narUrl, m.compression, m.fileHash, m.fileSize, m.narHash, m.narSize, Tokens(refs),
                  Values(f.lines, Sig))
  }

  lemma AttestedIsParsed(e: Oracles, f: NarinfoFile, key: PublicKey, path: string, m: Member) returns (refs: string)
    requires ValidStorePath(path) && Attests(e, f, key, path, m)
    ensures ParseStrict(e, f) == Some(AsParsed(f, m, refs))
    ensures m.references == SortedDistinct(RefPaths(Tokens(refs)))
  {
    refs :| HasOnly(f.lines, References, refs) && forall r :: r in m.references <==> Mentions(refs, r);
    var fileSize :| HasOnly(f.lines, FileSize, fileSize) && e.parseInt(fileSize) == m.fileSize;
    var narSize :| HasOnly(f.lines, NarSize, narSize) && e.parseInt(narSize) == m.narSize;
    ReferencesAreThose(refs, m.references);
    SignedIsLine(e, key, f, Fingerprint(path, e.parseHash(m.narHash).value, m.narSize, m.references));
    PresentIsParsed(e, f, AsParsed(f, m, refs), fileSize, narSize, refs);
  }

  lemma AttestedIsSigned(e: Oracles, f: NarinfoFile, key: PublicKey, path: string, m: Member)
    requires ValidStorePath(path) && Attests(e, f, key, path, m)
    ensures SignedRecord(e, f, key, path) == Some(m)
  {
    var refs := AttestedIsParsed(e, f, key, path, m);
    ValidReferences(refs, m.references);
    SignedIsLine(e, key, f, Fingerprint(path, e.parseHash(m.narHash).value, m.narSize, m.references));
    StemIsSlice(path);
  }

  /** A record is accepted exactly when the file attests it. */
  lemma RecordMeans(e: Oracles, f: NarinfoFile, key: PublicKey, path: string, m: Member)
    requires ValidStorePath(path)
    ensures SignedRecord(e, f, key, path) == Some(m) <==> Attests(e, f, key, path, m)
  {
    if SignedRecord(e, f, key, path) == Some(m) { SignedIsAttested(e, f, key, path, m); }
    if Attests(e, f, key, path, m) { AttestedIsSigned(e, f, key, path, m); }
  }

  lemma NarNameIs(url: string, name: string)
    ensures NarName(url) == Some(name) <==> url == "nar/" + name && IsFileName(name)
  {
    forall c: char ensures IsAlnum(c) <==> IsLetterOrDigit(c) { CharClasses(c); }
    if NAR_PREFIX <= url { assert url == NAR_PREFIX + url[|NAR_PREFIX|..]; }
  }

  lemma CompressionIs(c: string)
    ensures ValidCompression(c) <==> IsCompression(c)
  {
    forall d: char ensures IsAlnum(d) <==> IsLetterOrDigit(d) { CharClasses(d); }
  }

  lemma NarMeans(e: Oracles, disk: Disk, m: Member)
    ensures CheckNar(e, disk, m).Passed? <==> exists name :: HasNar(e, disk, m, name)
  {
    if NarName(m.narUrl).Some? { NarNameIs(m.narUrl, NarName(m.narUrl).value); }
    if CheckNar(e, disk, m).Passed? { assert HasNar(e, disk, m, NarName(m.narUrl).value); }
    if name :| HasNar(e, disk, m, name) { NarNameIs(m.narUrl, name); }
  }

  lemma RecordAndNar(e: Oracles, disk: Disk, key: PublicKey, path: string, m: Member)
    requires ValidStorePath(path) && Stem(path) in disk.narinfos
    requires SignedRecord(e, disk.narinfos[Stem(path)], key, path) == Some(m) && ValidCompression(m.compression)
    requires CheckNar(e, disk, m).Passed?
    ensures MemberAt(e, disk, key, path) == Some(m)
  {
    assert CheckRecord(e, disk.narinfos[Stem(path)], key, path) == Some(m);
    assert CheckNar(e, disk, m) == Passed(m);
  }

  lemma MemberStands(e: Oracles, disk: Disk, key: PublicKey, path: string, m: Member)
    requires MemberAt(e, disk, key, path) == Some(m)
    ensures Stands(e, disk, key, path, m)
  {
    MemberIsSignedRecord(e, disk, key, path);
    MemberShape(e, disk, key, path);
    RecordMeans(e, disk.narinfos[Stem(path)], key, path, m);
    ValidIsComposed(path);
    CompressionIs(m.compression);
    NarMeans(e, disk, m);
  }

  lemma StandingIsMember(e: Oracles, disk: Disk, key: PublicKey, path: string, m: Member)
    requires Stands(e, disk, key, path, m)
    ensures MemberAt(e, disk, key, path) == Some(m)
  {
    ValidIsComposed(path);
    StemIsSlice(path);
    RecordMeans(e, disk.narinfos[Stem(path)], key, path, m);
    CompressionIs(m.compression);
    NarMeans(e, disk, m);
    RecordAndNar(e, disk, key, path, m);
  }

  /** What a member of a disk is, and when a path has one: the signed record and the NAR on disk. */
  lemma MemberMeans(e: Oracles, disk: Disk, key: PublicKey, path: string, m: Member)
    ensures MemberAt(e, disk, key, path) == Some(m) <==> Stands(e, disk, key, path, m)
  {
    if MemberAt(e, disk, key, path) == Some(m) { MemberStands(e, disk, key, path, m); }
    if Stands(e, disk, key, path, m) { StandingIsMember(e, disk, key, path, m); }
  }

  // ---- the NAR a failing member condemns ----

  /** The file is named after a digest: its base32 text, then `.nar`. */
  ghost predicate NamedAfter(name: string, d: Digest) {
    Nix32(d) + ".nar" <= name
  }

  lemma {:induction false} HashPartIsPrefix(name: string, hash: string)
    requires NarHashPart(name) == Some(hash)
    ensures hash + NAR_SUFFIX <= name
  {
    if NAR_SUFFIX <= name {
      assert hash + NAR_SUFFIX == NAR_SUFFIX;
    } else {
      HashPartIsPrefix(name[1..], hash[1..]);
      assert name == [name[0]] + name[1..] && hash == [name[0]] + hash[1..];
      assert hash + NAR_SUFFIX == [name[0]] + (hash[1..] + NAR_SUFFIX);
    }
  }

  lemma {:induction false} PrefixIsHashPart(name: string, hash: string)
    requires hash + NAR_SUFFIX <= name && '.' !in hash
    ensures NarHashPart(name) == Some(hash)
  {
    if hash == "" {
      assert hash + NAR_SUFFIX == NAR_SUFFIX;
    } else {
      assert name[0] == (hash + NAR_SUFFIX)[0] == hash[0] != NAR_SUFFIX[0];
      assert hash == [hash[0]] + hash[1..];
      assert hash[1..] + NAR_SUFFIX == (hash + NAR_SUFFIX)[1..];
      PrefixIsHashPart(name[1..], hash[1..]);
    }
  }

  lemma NamedDigestIs(name: string, d: Digest)
    ensures NamedDigest(name) == Some(d) <==> NamedAfter(name, d)
  {
    if NamedDigest(name) == Some(d) {
      var hash := NarHashPart(name).value;
      HashPartIsPrefix(name, hash);
      EncodeOfDecode(hash);
    }
    if NamedAfter(name, d) {
      EncodedIsCanonical(d);
      forall i | 0 <= i < |Nix32(d)| ensures Nix32(d)[i] != '.' {}
      PrefixIsHashPart(name, Nix32(d));
      DecodeOfEncode(d);
    }
  }

  /** The bytes under the name contradict the record and the name, which agree with each other. */
  ghost predicate Contradicts(e: Oracles, disk: Disk, m: Member, name: string) {
    && m.narUrl == "nar/" + name && IsFileName(name) && name in disk.nars
    && e.parseHash(m.fileHash).Some? && NamedAfter(name, e.parseHash(m.fileHash).value)
    && e.sha256(disk.nars[name]) != e.parseHash(m.fileHash).value
  }

  lemma CondemnedMeans(e: Oracles, disk: Disk, m: Member, name: string)
    ensures CheckNar(e, disk, m) == Failed(Some(name)) <==> Contradicts(e, disk, m, name)
  {
    NarNameIs(m.narUrl, name);
    if NarName(m.narUrl).Some? { NarNameIs(m.narUrl, NarName(m.narUrl).value); }
    if e.parseHash(m.fileHash).Some? { NamedDigestIs(name, e.parseHash(m.fileHash).value); }
  }

  /** A failing member condemns a NAR exactly when its signed record and the file's own name declare a
      digest the bytes do not have.  */
  lemma CondemnsExactly(e: Oracles, disk: Disk, key: PublicKey, path: string, name: string)
    requires ValidStorePath(path)
    ensures CheckMember(e, disk, key, path) == Failed(Some(name))
            <==> && path[11..43] in disk.narinfos
                 && exists m :: && Attests(e, disk.narinfos[path[11..43]], key, path, m) && IsCompression(m.compression)
                                && Contradicts(e, disk, m, name)
  {
    StemIsSlice(path);
    if Stem(path) in disk.narinfos {
      var f := disk.narinfos[Stem(path)];
      if CheckMember(e, disk, key, path) == Failed(Some(name)) {
        var m := CheckRecord(e, f, key, path).value;
        RecordMeans(e, f, key, path, m);
        CompressionIs(m.compression);
        CondemnedMeans(e, disk, m, name);
      }
      if m :| Attests(e, f, key, path, m) && IsCompression(m.compression) && Contradicts(e, disk, m, name) {
        RecordMeans(e, f, key, path, m);
        CompressionIs(m.compression);
        CondemnedMeans(e, disk, m, name);
        assert CheckRecord(e, f, key, path) == Some(m);
      }
    }
  }
}

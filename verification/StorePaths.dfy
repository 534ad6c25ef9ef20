/** Nix store paths as the cache reads them: the strict shape the verifier demands and the
    lenient hash prefix the sweep follows.  */
module StorePaths {
  import opened Options

  const STORE_DIR: string := "/nix/store/"
  const HASH_LEN: nat := 32

  predicate IsAlnum(c: char) {
    '0' <= c <= '9' || 'a' <= c <= 'z' || 'A' <= c <= 'Z'
  }

  /** The Nix base32 alphabet: digits and lower-case letters without e, o, t and u. */
  predicate IsBase32(c: char) {
    '0' <= c <= '9' || ('a' <= c <= 'z' && c != 'e' && c != 'o' && c != 't' && c != 'u')
  }

  predicate IsNameChar(c: char) {
    IsAlnum(c) || c == '.' || c == '_' || c == '+' || c == '?' || c == '=' || c == '-'
  }

  function LowerChar(c: char): char {
    if 'A' <= c <= 'Z' then (c as int + 32) as char else c
  }

  function ToLower(s: string): (t: string)
    ensures |t| == |s|
    ensures forall i :: 0 <= i < |s| ==> t[i] == LowerChar(s[i])
  {
    seq(|s|, i requires 0 <= i < |s| => LowerChar(s[i]))
  }

  /** Position of the first `c`, or the length when there is none. */
  function IndexOf(s: string, c: char): (i: nat)
    ensures i <= |s|
    ensures i < |s| ==> s[i] == c
    ensures forall j :: 0 <= j < i ==> s[j] != c
    decreases s, c
  {
    if s == "" || s[0] == c then 0 else 1 + IndexOf(s[1..], c)
  }

  /** What follows the last `c`; all of `s` when there is none. */
  function AfterLast(s: string, c: char): string
    decreases |s|
  {
    var i := IndexOf(s, c);
    if i == |s| then s else AfterLast(s[i + 1..], c)
  }

  /** `validate_store_path`: `/nix/store/<32 base32 characters>-<name>`, nothing else. */
  predicate ValidStorePath(p: string) {
    && STORE_DIR <= p
    && var rel := p[|STORE_DIR|..];
       var dash := IndexOf(rel, '-');
       && '/' !in rel
       && dash == HASH_LEN
       && dash < |rel| - 1
       && (forall i :: 0 <= i < dash ==> IsBase32(rel[i]))
       && (forall i :: dash < i < |rel| ==> IsNameChar(rel[i]))
  }

  /** `store_basename_hash`: the lower-cased text before the first dash if it looks like a hash. */
  function BasenameHash(basename: string): Option<string> {
    var hash := basename[..IndexOf(basename, '-')];
    if |hash| == HASH_LEN && forall i :: 0 <= i < |hash| ==> IsAlnum(hash[i]) then
      Some(ToLower(hash))
    else
      None
  }

  /** `store_path_hash`: the hash of the last path segment. */
  function StorePathHash(p: string): Option<string> {
    BasenameHash(AfterLast(p, '/'))
  }

  /** `narinfo_filename_for_store_path` without its `.narinfo` suffix. */
  function NarinfoStem(p: string): Option<string> {
    var name := AfterLast(p, '/');
    var dash := IndexOf(name, '-');
    if dash == HASH_LEN && dash < |name| && forall i :: 0 <= i < dash ==> IsAlnum(name[i]) then
      Some(name[..dash])
    else
      None
  }

  /** How the strict parser reads one token of a `References` line. */
  function RefPath(token: string): string {
    if STORE_DIR <= token then token else STORE_DIR + token
  }

  /** The hash part of a valid store path. */
  function Stem(p: string): (stem: string)
    requires ValidStorePath(p)
  {
    p[|STORE_DIR|..][..HASH_LEN]
  }

  lemma {:induction false} AfterLastOfSuffix(a: string, c: char, b: string)
    requires c !in b
    ensures AfterLast(a + [c] + b, c) == b
    decreases |a|
  {
    var s := a + [c] + b;
    var i := IndexOf(s, c);
    assert s[|a|] == c;
    if i == |a| {
      assert s[i + 1..] == b;
      assert IndexOf(b, c) == |b|;
    } else {
      assert s[i + 1..] == a[i + 1..] + [c] + b;
      AfterLastOfSuffix(a[i + 1..], c, b);
    }
  }

  /** On a valid path the verifier's file name, the sweep's hash and `Stem` are the same. */
  lemma ValidPathStem(p: string)
    requires ValidStorePath(p)
    ensures NarinfoStem(p) == StorePathHash(p) == Some(Stem(p))
    ensures ToLower(Stem(p)) == Stem(p)
  {
    var rel := p[|STORE_DIR|..];
    assert p == "/nix/store" + ['/'] + rel;
    AfterLastOfSuffix("/nix/store", '/', rel);
    assert ToLower(rel[..HASH_LEN]) == rel[..HASH_LEN];
  }

  /** The sweep follows a valid reference exactly when it is written as a basename. */
  lemma SweepFollowsBasenames(token: string)
    requires ValidStorePath(RefPath(token))
    ensures BasenameHash(token)
            == if STORE_DIR <= token then None else Some(Stem(RefPath(token)))
  {
    var p := RefPath(token);
    var rel := p[|STORE_DIR|..];
    if STORE_DIR <= token {
      assert forall j :: 0 <= j < |STORE_DIR| ==> token[j] == STORE_DIR[j] != '-';
      assert token[|STORE_DIR| + HASH_LEN] == '-';
      assert forall j :: |STORE_DIR| <= j < |STORE_DIR| + HASH_LEN ==> token[j] == rel[j - |STORE_DIR|] != '-';
      assert IndexOf(token, '-') == |STORE_DIR| + HASH_LEN;
    } else {
      assert rel == token;
      ValidPathStem(p);
      assert ToLower(rel[..HASH_LEN]) == rel[..HASH_LEN];
    }
  }

  // ---- the same shapes, said on the characters ----

  /** The 32 characters of a Nix hash, one by one. */
  predicate IsHashChar(c: char) {
    c in {'0', '1', '2', '3', '4', '5', '6', '7', '8', '9', 'a', 'b', 'c', 'd', 'f', 'g',
          'h', 'i', 'j', 'k', 'l', 'm', 'n', 'p', 'q', 'r', 's', 'v', 'w', 'x', 'y', 'z'}
  }

  /** An ASCII letter or digit, by its code. */
  predicate IsLetterOrDigit(c: char) {
    48 <= c as int <= 57 || 65 <= c as int <= 90 || 97 <= c as int <= 122
  }

  predicate MayBeInName(c: char) {
    IsLetterOrDigit(c) || c in {'.', '_', '+', '?', '=', '-'}
  }

  /** `p` is the store path of this hash and name. */
  ghost predicate Composes(p: string, hash: string, name: string) {
    && p == "/nix/store/" + hash + "-" + name
    && |hash| == 32 && (forall c :: c in hash ==> IsHashChar(c))
    && name != "" && forall c :: c in name ==> MayBeInName(c)
  }

  lemma CharClasses(c: char)
    ensures IsAlnum(c) <==> IsLetterOrDigit(c)
    ensures IsBase32(c) <==> IsHashChar(c)
    ensures IsNameChar(c) <==> MayBeInName(c)
  {
  }

  lemma ComposedIsValid(p: string, hash: string, name: string)
    requires Composes(p, hash, name)
    ensures ValidStorePath(p) && Stem(p) == hash
  {
    var rel := p[|STORE_DIR|..];
    assert rel == hash + "-" + name;
    forall i | 0 <= i < 32 ensures IsBase32(rel[i]) && rel[i] != '-' {
      assert rel[i] == hash[i];
      CharClasses(hash[i]);
    }
    forall i | 32 < i < |rel| ensures IsNameChar(rel[i]) {
      assert rel[i] == name[i - 33];
      CharClasses(name[i - 33]);
    }
    assert rel[32] == '-';
    assert IndexOf(rel, '-') == 32;
    forall i | 0 <= i < |rel| ensures rel[i] != '/' {}
  }

  /** A path is valid exactly when it is composed of a 32-character base32 hash and a name. */
  lemma ValidIsComposed(p: string)
    ensures ValidStorePath(p) <==> exists hash, name :: Composes(p, hash, name)
  {
    if ValidStorePath(p) {
      var rel := p[|STORE_DIR|..];
      var hash, name := rel[..32], rel[33..];
      assert rel == hash + "-" + name;
      forall c | c in hash ensures IsHashChar(c) { CharClasses(c); }
      forall c | c in name ensures MayBeInName(c) {
        var i :| 0 <= i < |name| && name[i] == c;
        assert IsNameChar(rel[i + 33]);
        CharClasses(c);
      }
      assert Composes(p, hash, name);
    }
    if hash, name :| Composes(p, hash, name) { ComposedIsValid(p, hash, name); }
  }

  /** From position `i`, `s` begins with 32 letters or digits, and they are all of `s` or a dash follows. */
  predicate HashAt(s: string, i: nat) {
    && i + 32 <= |s| && (forall k :: i <= k < i + 32 ==> IsLetterOrDigit(s[k]))
    && (i + 32 == |s| || s[i + 32] == '-')
  }

  /** The sweep reads a hash off a basename exactly when it begins with one, in lower case. */
  lemma BasenameHashIs(s: string)
    ensures BasenameHash(s) == if HashAt(s, 0) then Some(ToLower(s[..32])) else None
  {
    var dash := IndexOf(s, '-');
    if HashAt(s, 0) {
      forall k | 0 <= k < 32 ensures IsAlnum(s[k]) && s[k] != '-' { CharClasses(s[k]); }
    } else if BasenameHash(s).Some? {
      forall k | 0 <= k < 32 ensures IsLetterOrDigit(s[k]) {
        assert s[..dash][k] == s[k];
        CharClasses(s[k]);
      }
    }
  }

  /** Where the last segment of a path begins. */
  predicate LastSegment(p: string, i: nat) {
    i <= |p| && (i == 0 || p[i - 1] == '/') && '/' !in p[i..]
  }

  lemma NoLaterSegment(p: string, i: nat, j: nat)
    requires LastSegment(p, i) && i < j <= |p|
    ensures !LastSegment(p, j)
  {
    assert p[i..][j - 1 - i] == p[j - 1];
  }

  lemma SegmentIsUnique(p: string, i: nat)
    requires LastSegment(p, i)
    ensures forall j :: LastSegment(p, j) ==> j == i
  {
    forall j: nat | j <= |p| && j != i ensures !LastSegment(p, j) {
      if i < j {
        NoLaterSegment(p, i, j);
      } else if LastSegment(p, j) {
        NoLaterSegment(p, j, i);
      }
    }
  }

  lemma {:induction false} AfterLastIs(p: string) returns (i: nat)
    ensures LastSegment(p, i) && AfterLast(p, '/') == p[i..]
    ensures forall j :: LastSegment(p, j) ==> j == i
    decreases |p|
  {
    var slash := IndexOf(p, '/');
    if slash == |p| {
      i := 0;
      assert p[0..] == p;
    } else {
      var k := AfterLastIs(p[slash + 1..]);
      i := slash + 1 + k;
      assert p[slash + 1..][k..] == p[i..];
    }
    SegmentIsUnique(p, i);
  }

  /** The hash of a store path is read off its last segment. */
  lemma StorePathHashIs(p: string, i: nat)
    requires LastSegment(p, i)
    ensures StorePathHash(p) == if HashAt(p, i) then Some(ToLower(p[i..i + 32])) else None
  {
    var k := AfterLastIs(p);
    BasenameHashIs(p[i..]);
    if HashAt(p, i) {
      assert p[i..][..32] == p[i..i + 32];
      forall j | 0 <= j < 32 ensures IsLetterOrDigit(p[i..][j]) { assert p[i..][j] == p[i + j]; }
    }
    if HashAt(p[i..], 0) {
      forall j | i <= j < i + 32 ensures IsLetterOrDigit(p[j]) { assert p[j] == p[i..][j - i]; }
    }
  }

  /** The NARInfo name of a store path is the same hash as written, and needs the dash. */
  lemma NarinfoStemIs(p: string, i: nat)
    requires LastSegment(p, i)
    ensures NarinfoStem(p) == if HashAt(p, i) && i + 32 < |p| then Some(p[i..i + 32]) else None
  {
    var k := AfterLastIs(p);
    var name := p[i..];
    forall j | 0 <= j < |name| ensures name[j] == p[i + j] && (IsAlnum(name[j]) <==> IsLetterOrDigit(p[i + j])) {
      CharClasses(name[j]);
    }
    if HashAt(p, i) && i + 32 < |p| {
      assert name[..32] == p[i..i + 32];
      assert name[32] == '-' && forall j :: 0 <= j < 32 ==> name[j] != '-';
    }
  }

  /** `low` is `s` with the codes of its capital letters raised by 32. */
  predicate IsLowered(s: string, low: string) {
    && |low| == |s|
    && forall i :: 0 <= i < |s| ==>
         low[i] as int == s[i] as int + if 65 <= s[i] as int <= 90 then 32 else 0
  }

  lemma LowerIs(s: string, low: string)
    ensures low == ToLower(s) <==> IsLowered(s, low)
  {
    if IsLowered(s, low) {
      forall i | 0 <= i < |s| ensures low[i] == ToLower(s)[i] {}
    }
  }

  lemma StemIsSlice(p: string)
    requires ValidStorePath(p)
    ensures |p| >= 43 && p[11..43] == Stem(p)
  {
  }

  predicate IsHashIn(p: string, i: nat, raw: string) {
    LastSegment(p, i) && HashAt(p, i) && raw == p[i..i + 32]
  }

  /** The last segment of the path begins with this hash, and a dash follows. */
  ghost predicate HasDashedHash(p: string, raw: string) {
    exists i: nat :: IsHashIn(p, i, raw) && i + 32 < |p|
  }

  /** The last segment of the path begins with a hash that is `low` in lower case. */
  ghost predicate HasHash(p: string, low: string) {
    exists i: nat, raw :: IsHashIn(p, i, raw) && IsLowered(raw, low)
  }

  /** The word begins with a hash that is `low` in lower case. */
  ghost predicate BeginsWithHash(s: string, low: string) {
    HashAt(s, 0) && IsLowered(s[..32], low)
  }

  lemma NarinfoStemMeans(p: string, stem: string)
    ensures NarinfoStem(p) == Some(stem) <==> HasDashedHash(p, stem)
  {
    var k := AfterLastIs(p);
    NarinfoStemIs(p, k);
    if NarinfoStem(p) == Some(stem) { assert IsHashIn(p, k, stem); }
  }

  lemma StorePathHashMeans(p: string, low: string)
    ensures StorePathHash(p) == Some(low) <==> HasHash(p, low)
  {
    var k := AfterLastIs(p);
    StorePathHashIs(p, k);
    if HashAt(p, k) {
      assert IsHashIn(p, k, p[k..k + 32]);
      LowerIs(p[k..k + 32], low);
    }
  }

  lemma BasenameHashMeans(s: string, low: string)
    ensures BasenameHash(s) == Some(low) <==> BeginsWithHash(s, low)
  {
    BasenameHashIs(s);
    if HashAt(s, 0) { LowerIs(s[..32], low); }
  }
}

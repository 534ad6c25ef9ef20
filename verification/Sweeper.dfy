/** The mark-and-sweep collector of the cache root, which reads NARInfo files leniently. */
module Sweeper {
  import opened Options
  import opened FiniteSets
  import opened StorePaths
  import opened CacheModel
  import opened ReferenceGraph
  import opened NarinfoCheck
  import opened ClosureWalk
  import opened MemberMeaning
  import opened Liveness

  const U64_MAX: nat := U64_LIMIT - 1

  function TrimSlashes(s: string): string {
    if s != "" && s[0] == '/' then TrimSlashes(s[1..]) else s
  }

  /** The hashes of the references a token list writes as basenames. */
  function HashesOf(tokens: seq<string>): seq<string> {
    if tokens == [] then []
    else
      (match BasenameHash(tokens[0]) case None => [] case Some(h) => [h]) + HashesOf(tokens[1..])
  }

  /** Every reference hash of every `References:` line. */
  function LenientRefs(lines: seq<Line>): seq<string> {
    if lines == [] then []
    else (if lines[0].key == References then HashesOf(Tokens(lines[0].value)) else []) + LenientRefs(lines[1..])
  }

  /** The graph the mark phase walks, by file name stem. */
  function MarkGraph(disk: Disk): Graph {
    map k | k in disk.narinfos && disk.narinfos[k].readable :: LenientRefs(disk.narinfos[k].lines)
  }

  function HashSet(paths: seq<string>): set<string> {
    set i | 0 <= i < |paths| && StorePathHash(paths[i]).Some? :: StorePathHash(paths[i]).value
  }

  function RowPaths(retained: seq<Row>): (paths: seq<string>)
    ensures |paths| == |retained|
    ensures forall i :: 0 <= i < |retained| ==> paths[i] == retained[i].storePath
  {
    seq(|retained|, i requires 0 <= i < |retained| => retained[i].storePath)
  }

  function MarkRoots(retained: seq<Row>, seeds: seq<string>): set<string> {
    HashSet(RowPaths(retained)) + HashSet(seeds)
  }

  function LiveFiles(retained: seq<Row>): set<FilePath> {
    (set i | 0 <= i < |retained| :: retained[i].path) + (set i | 0 <= i < |retained| :: retained[i].narinfoPath)
  }

  /** NAR URLs named by a live NARInfo or by a retained row. */
  function LiveUrls(disk: Disk, retained: seq<Row>, live: set<string>): set<string> {
    (set k, u | k in live && k in disk.narinfos && disk.narinfos[k].readable
                && u in Values(disk.narinfos[k].lines, Url) :: TrimSlashes(u))
    + (set i | 0 <= i < |retained| && TrimSlashes(retained[i].narUrl) != "" :: TrimSlashes(retained[i].narUrl))
  }

  predicate KeepsNarinfo(retained: seq<Row>, live: set<string>, stem: string) {
    ToLower(stem) in live || Narinfo(stem) in LiveFiles(retained)
  }

  predicate KeepsNar(retained: seq<Row>, urls: set<string>, name: string) {
    NAR_PREFIX + name in urls || Nar(name) in LiveFiles(retained)
  }

  ghost function Live(disk: Disk, retained: seq<Row>, seeds: seq<string>): set<string> {
    Closure(MarkGraph(disk), MarkRoots(retained, seeds))
  }

  /** What the sweep leaves: exactly the live files. */
  function Remaining(disk: Disk, retained: seq<Row>, live: set<string>, urls: set<string>): Disk {
    Disk(map k | k in disk.narinfos && KeepsNarinfo(retained, live, k) :: disk.narinfos[k],
         map n | n in disk.nars && KeepsNar(retained, urls, n) :: disk.nars[n])
  }

  ghost function Swept(disk: Disk, retained: seq<Row>, seeds: seq<string>): Disk {
    var live := Live(disk, retained, seeds);
    Remaining(disk, retained, live, LiveUrls(disk, retained, live))
  }

  // ---- what the marks and the tests mean ----

  lemma {:induction false} HashesOfTokens(tokens: seq<string>, h: string)
    ensures h in HashesOf(tokens) <==> exists t :: t in tokens && BeginsWithHash(t, h)
  {
    if tokens == [] {
    } else {
      HashesOfTokens(tokens[1..], h);
      BasenameHashMeans(tokens[0], h);
      assert tokens == [tokens[0]] + tokens[1..];
    }
  }

  lemma LineRefers(line: Line, h: string)
    requires line.key == References
    ensures h in HashesOf(Tokens(line.value)) <==> Refers(line, h)
  {
    HashesOfTokens(Tokens(line.value), h);
    if t :| t in Tokens(line.value) && BeginsWithHash(t, h) { TokensAreWords(line.value, t); }
    if w :| HasWord(line.value, w) && BeginsWithHash(w, h) { TokensAreWords(line.value, w); }
  }

  lemma RefersTail(lines: seq<Line>, h: string)
    requires lines != []
    ensures (exists i :: 0 <= i < |lines| && Refers(lines[i], h))
            <==> Refers(lines[0], h) || exists i :: 0 <= i < |lines[1..]| && Refers(lines[1..][i], h)
  {
    if i :| 0 <= i < |lines[1..]| && Refers(lines[1..][i], h) { assert lines[i + 1] == lines[1..][i]; }
    if i :| 0 <= i < |lines| && Refers(lines[i], h) {
      if i > 0 { assert lines[i] == lines[1..][i - 1]; }
    }
  }

  lemma {:induction false} LenientRefsMean(lines: seq<Line>, h: string)
    ensures h in LenientRefs(lines) <==> exists i :: 0 <= i < |lines| && Refers(lines[i], h)
  {
    if lines == [] {
    } else {
      LenientRefsMean(lines[1..], h);
      RefersTail(lines, h);
      if lines[0].key == References { LineRefers(lines[0], h); }
    }
  }

  lemma EdgesMean(disk: Disk, h: string, r: string)
    ensures h in MarkGraph(disk) && r in MarkGraph(disk)[h] <==> Follows(disk, h, r)
  {
    if h in disk.narinfos { LenientRefsMean(disk.narinfos[h].lines, r); }
  }

  ghost function RowSet(retained: seq<Row>): set<Row> {
    set row | row in retained
  }

  lemma HashSetMeans(paths: seq<string>, h: string)
    ensures h in HashSet(paths) <==> exists s :: s in paths && HasHash(s, h)
  {
    if h in HashSet(paths) {
      var i :| 0 <= i < |paths| && StorePathHash(paths[i]) == Some(h);
      StorePathHashMeans(paths[i], h);
      assert paths[i] in paths;
    }
    if s :| s in paths && HasHash(s, h) {
      StorePathHashMeans(s, h);
      var i :| 0 <= i < |paths| && paths[i] == s;
    }
  }

  lemma RootsMean(retained: seq<Row>, seeds: seq<string>, h: string)
    ensures h in MarkRoots(retained, seeds) <==> IsRootHash(RowSet(retained), seeds, h)
  {
    HashSetMeans(RowPaths(retained), h);
    HashSetMeans(seeds, h);
    if s :| s in RowPaths(retained) && HasHash(s, h) {
      var i :| 0 <= i < |RowPaths(retained)| && RowPaths(retained)[i] == s;
      assert retained[i] in RowSet(retained);
    }
    if row :| row in RowSet(retained) && HasHash(row.storePath, h) {
      var i :| 0 <= i < |retained| && retained[i] == row;
      assert RowPaths(retained)[i] == row.storePath;
    }
  }

  lemma {:induction false} TrailReaches(disk: Disk, retained: seq<Row>, seeds: seq<string>, trail: seq<string>)
    requires IsTrail(disk, RowSet(retained), seeds, trail)
    ensures Reaches(MarkGraph(disk), MarkRoots(retained, seeds), trail[|trail| - 1])
  {
    var n := |trail| - 1;
    if n == 0 {
      RootsMean(retained, seeds, trail[0]);
    } else {
      var before := trail[..n];
      assert before[|before| - 1] == trail[n - 1];
      assert forall i :: 0 <= i < |before| ==> before[i] == trail[i];
      TrailReaches(disk, retained, seeds, before);
      assert Follows(disk, trail[n - 1], trail[n - 1 + 1]);
      EdgesMean(disk, trail[n - 1], trail[n]);
      ReachesStep(MarkGraph(disk), MarkRoots(retained, seeds), trail[n - 1], trail[n]);
    }
  }

  lemma TrailGrows(disk: Disk, retained: set<Row>, seeds: seq<string>, h: string, r: string)
    requires IsMarked(disk, retained, seeds, h) && Follows(disk, h, r)
    ensures IsMarked(disk, retained, seeds, r)
  {
    var trail :| IsTrail(disk, retained, seeds, trail) && trail[|trail| - 1] == h;
    assert IsTrail(disk, retained, seeds, trail + [r]);
    assert (trail + [r])[|trail + [r]| - 1] == r;
  }

  lemma RootHashIsMarked(disk: Disk, retained: set<Row>, seeds: seq<string>, h: string)
    requires IsRootHash(retained, seeds, h)
    ensures IsMarked(disk, retained, seeds, h)
  {
    assert IsTrail(disk, retained, seeds, [h]) && [h][|[h]| - 1] == h;
  }

  /** The mark phase reaches exactly the hashes at the end of a chain of references. */
  lemma LiveMeans(disk: Disk, retained: seq<Row>, seeds: seq<string>, h: string)
    ensures h in Live(disk, retained, seeds) <==> IsMarked(disk, RowSet(retained), seeds, h)
  {
    var g, roots := MarkGraph(disk), MarkRoots(retained, seeds);
    ReachesIsClosure(g, roots, h);
    if trail :| IsTrail(disk, RowSet(retained), seeds, trail) && trail[|trail| - 1] == h {
      TrailReaches(disk, retained, seeds, trail);
    }
    var marked := set p | p in Closure(g, roots) && IsMarked(disk, RowSet(retained), seeds, p);
    ClosureIsLeast(g, roots);
    forall p | p in roots ensures p in marked {
      RootsMean(retained, seeds, p);
      RootHashIsMarked(disk, RowSet(retained), seeds, p);
    }
    forall p, r | p in marked && p in g && r in g[p] ensures r in marked {
      EdgesMean(disk, p, r);
      TrailGrows(disk, RowSet(retained), seeds, p, r);
    }
    assert ClosedUnder(g, marked);
  }

  lemma {:induction false} TrimMeans(url: string, rest: string)
    requires rest != "" && rest[0] != '/'
    ensures TrimSlashes(url) == rest <==> exists j :: IsSlashed(url, rest, j)
  {
    if url == "" || url[0] != '/' {
      if TrimSlashes(url) == rest { assert IsSlashed(url, rest, 0); }
      if j: nat :| IsSlashed(url, rest, j) { assert j == 0 && url[0..] == url; }
    } else {
      TrimMeans(url[1..], rest);
      if j: nat :| IsSlashed(url[1..], rest, j) {
        assert url[j + 1..] == url[1..][j..] && forall i :: 0 < i < j + 1 ==> url[i] == url[1..][i - 1];
        assert IsSlashed(url, rest, j + 1);
      }
      if j: nat :| IsSlashed(url, rest, j) {
        assert url[0..] == url && j != 0;
        assert url[1..][j - 1..] == url[j..] && forall i :: 0 <= i < j - 1 ==> url[1..][i] == url[i + 1];
        assert IsSlashed(url[1..], rest, j - 1);
      }
    }
  }

  lemma NarUrlMeans(url: string, name: string)
    ensures TrimSlashes(url) == NAR_PREFIX + name <==> NamesNar(url, name)
  {
    assert (NAR_PREFIX + name)[0] == 'n';
    TrimMeans(url, NAR_PREFIX + name);
  }

  lemma LiveFilesMean(retained: seq<Row>, file: FilePath)
    ensures file in LiveFiles(retained) <==> IsRecorded(RowSet(retained), file)
  {
    if file in LiveFiles(retained) {
      var i :| 0 <= i < |retained| && (retained[i].path == file || retained[i].narinfoPath == file);
      assert retained[i] in RowSet(retained);
    }
    if row :| row in RowSet(retained) && (row.path == file || row.narinfoPath == file) {
      var i :| 0 <= i < |retained| && retained[i] == row;
    }
  }

  lemma MarkedNameMeans(disk: Disk, retained: seq<Row>, seeds: seq<string>, stem: string)
    ensures ToLower(stem) in Live(disk, retained, seeds) <==> NameIsMarked(disk, RowSet(retained), seeds, stem)
  {
    var low := ToLower(stem);
    LowerIs(stem, low);
    LiveMeans(disk, retained, seeds, low);
    forall l | IsLowered(stem, l) ensures l == low { LowerIs(stem, l); }
  }

  lemma KeptRecordMeans(disk: Disk, retained: seq<Row>, seeds: seq<string>, stem: string)
    ensures KeepsNarinfo(retained, Live(disk, retained, seeds), stem)
            <==> LiveRecord(disk, RowSet(retained), seeds, stem)
  {
    MarkedNameMeans(disk, retained, seeds, stem);
    LiveFilesMean(retained, Narinfo(stem));
  }

  predicate HasUrl(disk: Disk, hash: string, url: string) {
    && hash in disk.narinfos && disk.narinfos[hash].readable
    && exists u :: u in Values(disk.narinfos[hash].lines, Url) && TrimSlashes(u) == url
  }

  lemma LiveUrlsAre(disk: Disk, retained: seq<Row>, live: set<string>, url: string)
    requires url != ""
    ensures url in LiveUrls(disk, retained, live)
            <==> || (exists k :: k in live && HasUrl(disk, k, url))
                 || (exists i :: 0 <= i < |retained| && TrimSlashes(retained[i].narUrl) == url)
  {
    if k :| k in live && HasUrl(disk, k, url) {
      var u :| u in Values(disk.narinfos[k].lines, Url) && TrimSlashes(u) == url;
    }
    if k, u :| k in live && k in disk.narinfos && disk.narinfos[k].readable
               && u in Values(disk.narinfos[k].lines, Url) && TrimSlashes(u) == url {
      assert HasUrl(disk, k, url);
    }
  }

  lemma RecordUrlMeans(disk: Disk, hash: string, name: string)
    ensures HasUrl(disk, hash, NAR_PREFIX + name) <==> RecordNames(disk, hash, name)
  {
    if hash in disk.narinfos && disk.narinfos[hash].readable {
      var lines := disk.narinfos[hash].lines;
      if u :| u in Values(lines, Url) && TrimSlashes(u) == NAR_PREFIX + name {
        NarUrlMeans(u, name);
        ValuesAreLines(lines, Url, u);
        var i :| 0 <= i < |lines| && lines[i].key == Url && lines[i].value == u;
      }
      if i :| 0 <= i < |lines| && lines[i].key == Url && NamesNar(lines[i].value, name) {
        NarUrlMeans(lines[i].value, name);
        ValuesAreLines(lines, Url, lines[i].value);
      }
    }
  }

  lemma RowUrlMeans(retained: seq<Row>, name: string)
    ensures (exists i :: 0 <= i < |retained| && TrimSlashes(retained[i].narUrl) == NAR_PREFIX + name)
            <==> exists row :: row in RowSet(retained) && NamesNar(row.narUrl, name)
  {
    if i :| 0 <= i < |retained| && TrimSlashes(retained[i].narUrl) == NAR_PREFIX + name {
      NarUrlMeans(retained[i].narUrl, name);
      assert retained[i] in RowSet(retained);
    }
    if row :| row in RowSet(retained) && NamesNar(row.narUrl, name) {
      NarUrlMeans(row.narUrl, name);
      var i :| 0 <= i < |retained| && retained[i] == row;
    }
  }

  lemma LiveUrlMeans(disk: Disk, retained: seq<Row>, seeds: seq<string>, name: string)
    ensures NAR_PREFIX + name in LiveUrls(disk, retained, Live(disk, retained, seeds))
            <==> IsNamed(disk, RowSet(retained), seeds, name)
  {
    var live := Live(disk, retained, seeds);
    LiveUrlsAre(disk, retained, live, NAR_PREFIX + name);
    RowUrlMeans(retained, name);
    forall h
      ensures h in live && HasUrl(disk, h, NAR_PREFIX + name)
              <==> IsMarked(disk, RowSet(retained), seeds, h) && RecordNames(disk, h, name)
    {
      LiveMeans(disk, retained, seeds, h);
      RecordUrlMeans(disk, h, name);
    }
  }

  lemma KeptNarMeans(disk: Disk, retained: seq<Row>, seeds: seq<string>, name: string)
    ensures KeepsNar(retained, LiveUrls(disk, retained, Live(disk, retained, seeds)), name)
            <==> LiveNar(disk, RowSet(retained), seeds, name)
  {
    LiveUrlMeans(disk, retained, seeds, name);
    LiveFilesMean(retained, Nar(name));
  }

  /** The sweep leaves exactly the files in use. */
  lemma SweptMeans(disk: Disk, retained: seq<Row>, seeds: seq<string>)
    ensures KeepsLive(disk, Swept(disk, retained, seeds), RowSet(retained), seeds)
  {
    forall k | k in disk.narinfos
      ensures k in Swept(disk, retained, seeds).narinfos <==> LiveRecord(disk, RowSet(retained), seeds, k)
    {
      KeptRecordMeans(disk, retained, seeds, k);
    }
    forall n | n in disk.nars
      ensures n in Swept(disk, retained, seeds).nars <==> LiveNar(disk, RowSet(retained), seeds, n)
    {
      KeptNarMeans(disk, retained, seeds, n);
    }
  }

  // ---- bytes on disk ----

  function NarinfoSize(f: NarinfoFile): nat {
    f.size
  }

  function NarSize(b: Blob): nat {
    |b|
  }

  function SizeIn<V>(m: map<string, V>, size: V -> nat): string -> nat {
    k => if k in m then size(m[k]) else 0
  }

  ghost function Bytes<V>(m: map<string, V>, size: V -> nat): nat {
    Sum(m.Keys, SizeIn(m, size))
  }

  ghost function DiskBytes(disk: Disk): nat {
    Bytes(disk.narinfos, NarinfoSize) + Bytes(disk.nars, NarSize)
  }

  lemma BytesWithout<V>(m: map<string, V>, size: V -> nat, k: string)
    requires k in m
    ensures Bytes(m, size) == size(m[k]) + Bytes(m - {k}, size)
  {
    SumWithout(m.Keys, SizeIn(m, size), k);
    assert (m - {k}).Keys == m.Keys - {k};
    SumAgrees(m.Keys - {k}, SizeIn(m, size), SizeIn(m - {k}, size));
  }

  /** Removing one file of any kind takes its length off the sum, and an empty disk holds nothing. */
  lemma BytesAreLengths(disk: Disk, k: string)
    ensures DiskBytes(Disk(map[], map[])) == 0
    ensures k in disk.narinfos ==>
              DiskBytes(disk) == disk.narinfos[k].size + DiskBytes(disk.(narinfos := disk.narinfos - {k}))
    ensures k in disk.nars ==> DiskBytes(disk) == |disk.nars[k]| + DiskBytes(disk.(nars := disk.nars - {k}))
  {
    if k in disk.narinfos { BytesWithout(disk.narinfos, NarinfoSize, k); }
    if k in disk.nars { BytesWithout(disk.nars, NarSize, k); }
  }

  // ---- the sweep ----

  /** A sum of sizes as the saturating 64-bit counter holds it. */
  function Capped(n: int): int {
    if n <= U64_MAX then n else U64_MAX
  }

  ghost predicate MarkInvariant(g: Graph, roots: set<string>, queue: seq<string>, live: set<string>) {
    && (forall h :: h in live || h in queue ==> Reaches(g, roots, h))
    && (forall h :: h in roots ==> h in live || h in queue)
    && (forall h, r :: h in live && h in g && r in g[h] ==> r in live || r in queue)
  }

  function Successors(g: Graph, hash: string, live: set<string>): seq<string> {
    if hash in g then Except(g[hash], live) else []
  }

  lemma MarkStep(g: Graph, roots: set<string>, queue: seq<string>, live: set<string>, hash: string)
    requires MarkInvariant(g, roots, queue + [hash], live)
    ensures hash in live ==> MarkInvariant(g, roots, queue, live)
    ensures MarkInvariant(g, roots, queue + Successors(g, hash, live + {hash}), live + {hash})
  {
    assert hash in queue + [hash];
    if hash in g {
      ExceptElements(g[hash], live + {hash});
      forall r | r in g[hash] ensures Reaches(g, roots, r) { ReachesStep(g, roots, hash, r); }
    }
  }

  ghost function Unreached(g: Graph, roots: set<string>, live: set<string>): nat {
    |Universe(g, roots) - live|
  }

  lemma MarkShrinks(g: Graph, roots: set<string>, live: set<string>, hash: string)
    requires Reaches(g, roots, hash) && hash !in live
    ensures Unreached(g, roots, live + {hash}) < Unreached(g, roots, live)
  {
    ReachesIsClosure(g, roots, hash);
    var before, after := Universe(g, roots) - live, Universe(g, roots) - (live + {hash});
    assert before == after + {hash};
  }

  /** The mark phase, from a stack of root hashes. */
  method Mark(g: Graph, stack: seq<string>, ghost roots: set<string>) returns (live: set<string>)
    requires forall h :: h in stack <==> h in roots
    ensures live == Closure(g, roots)
  {
    live := {};
    var queue := stack;
    while queue != []
      invariant MarkInvariant(g, roots, queue, live)
      decreases Unreached(g, roots, live), |queue|
    {
      var rest, hash := queue[..|queue| - 1], queue[|queue| - 1];
      assert queue == rest + [hash];
      MarkStep(g, roots, rest, live, hash);
      if hash in live {
        queue := rest;
      } else {
        MarkShrinks(g, roots, live, hash);
        live := live + {hash};
        queue := rest + Successors(g, hash, live);
      }
    }
    LeastIsClosure(g, roots, live);
  }

  function HashList(paths: seq<string>): seq<string> {
    if paths == [] then []
    else (match StorePathHash(paths[0]) case None => [] case Some(h) => [h]) + HashList(paths[1..])
  }

  lemma {:induction false} HashListElements(paths: seq<string>)
    ensures forall h :: h in HashList(paths) <==> h in HashSet(paths)
  {
    if paths == [] {
    } else {
      HashListElements(paths[1..]);
      forall h ensures h in HashSet(paths) <==> h in HashSet(paths[1..]) || StorePathHash(paths[0]) == Some(h) {
        if h in HashSet(paths[1..]) {
          var i :| 0 <= i < |paths[1..]| && StorePathHash(paths[1..][i]) == Some(h);
          assert StorePathHash(paths[i + 1]) == Some(h);
        }
      }
    }
  }

  /** A directory pass with `pending` still to visit and `left` still in place. */
  ghost predicate IsPartway<V>(files: map<string, V>, keep: string -> bool, pending: set<string>,
                               left: map<string, V>)
  {
    && pending <= left.Keys <= files.Keys
    && (forall k :: k in left ==> left[k] == files[k])
    && (forall k :: k in files && k !in pending ==> (k in left <==> keep(k)))
  }

  lemma EntryHandled<V>(files: map<string, V>, keep: string -> bool, pending: set<string>, left: map<string, V>,
                        k: string)
    requires IsPartway(files, keep, pending, left) && k in pending
    ensures IsPartway(files, keep, pending - {k}, if keep(k) then left else left - {k})
  {
  }

  lemma PassEnds<V>(files: map<string, V>, keep: string -> bool, left: map<string, V>)
    requires IsPartway(files, keep, {}, left)
    ensures left == map k | k in files && keep(k) :: files[k]
  {
  }

  /** One directory pass, its entries in any order, adding to the bytes freed before it. */
  method DeleteDead<V>(files: map<string, V>, keep: string -> bool, size: V -> nat, before: int)
    returns (left: map<string, V>, freed: int)
    requires before >= 0
    ensures left == map k | k in files && keep(k) :: files[k]
    ensures Bytes(left, size) <= Bytes(files, size)
    ensures freed == Capped(before + Bytes(files, size) - Bytes(left, size)) >= 0
  {
    left, freed := files, Capped(before);
    var pending := files.Keys;
    while pending != {}
      invariant IsPartway(files, keep, pending, left)
      invariant Bytes(left, size) <= Bytes(files, size)
      invariant freed == Capped(before + Bytes(files, size) - Bytes(left, size))
      decreases |pending|
    {
      var k :| k in pending;
      EntryHandled(files, keep, pending, left, k);
      if !keep(k) {
        BytesWithout(left, size, k);
        freed, left := Capped(freed + size(left[k])), left - {k};
      }
      pending := pending - {k};
    }
    PassEnds(files, keep, left);
  }

  function KeepNarinfo(retained: seq<Row>, live: set<string>): string -> bool {
    stem => KeepsNarinfo(retained, live, stem)
  }

  function KeepNar(retained: seq<Row>, urls: set<string>): string -> bool {
    name => KeepsNar(retained, urls, name)
  }

  lemma PassesRemain(disk: Disk, retained: seq<Row>, live: set<string>, urls: set<string>,
                     narinfos: map<string, NarinfoFile>, nars: map<string, Blob>)
    requires narinfos == map k | k in disk.narinfos && KeepNarinfo(retained, live)(k) :: disk.narinfos[k]
    requires nars == map k | k in disk.nars && KeepNar(retained, urls)(k) :: disk.nars[k]
    ensures Disk(narinfos, nars) == Remaining(disk, retained, live, urls)
  {
    assert narinfos == Remaining(disk, retained, live, urls).narinfos;
    assert nars == Remaining(disk, retained, live, urls).nars;
  }

  lemma RootsAreListed(retained: seq<Row>, seeds: seq<string>)
    ensures forall h :: h in HashList(RowPaths(retained)) + HashList(seeds) <==> h in MarkRoots(retained, seeds)
  {
    HashListElements(RowPaths(retained));
    HashListElements(seeds);
  }

  /** `sweep_unreachable_blocking`. */
  method SweepUnreachable(nest: Nest, retained: seq<Row>, seeds: seq<string>) returns (freed: int)
    modifies nest`disk
    ensures nest.disk == Swept(old(nest.disk), retained, seeds)
    ensures KeepsLive(old(nest.disk), nest.disk, RowSet(retained), seeds)
    ensures var deleted := DiskBytes(old(nest.disk)) - DiskBytes(nest.disk);
            freed == if deleted < 0x1_0000_0000_0000_0000 then deleted else 0xffff_ffff_ffff_ffff
  {
    var start := nest.disk;
    RootsAreListed(retained, seeds);
    var stack := HashList(RowPaths(retained)) + HashList(seeds);
    var live := Mark(MarkGraph(start), stack, MarkRoots(retained, seeds));
    var urls := LiveUrls(start, retained, live);
    var narinfos, first := DeleteDead(start.narinfos, KeepNarinfo(retained, live), NarinfoSize, 0);
    nest.disk := nest.disk.(narinfos := narinfos);
    var nars, total := DeleteDead(start.nars, KeepNar(retained, urls), NarSize, first);
    nest.disk := nest.disk.(nars := nars);
    freed := total;
    PassesRemain(start, retained, live, urls, narinfos, nars);
    SweptMeans(start, retained, seeds);
  }
}

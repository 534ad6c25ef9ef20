/** Which files of a cache root are in use, said on its files and rows: what a sweep must keep. */
module Liveness {
  import opened StorePaths
  import opened CacheModel
  import opened MemberMeaning

  /** A `References` line that mentions a basename with this hash. */
  ghost predicate Refers(line: Line, hash: string) {
    line.key == References && exists w :: HasWord(line.value, w) && BeginsWithHash(w, hash)
  }

  /** The readable NARInfo filed under one hash refers to the other. */
  ghost predicate Follows(disk: Disk, hash: string, next: string) {
    && hash in disk.narinfos && disk.narinfos[hash].readable
    && exists i :: 0 <= i < |disk.narinfos[hash].lines| && Refers(disk.narinfos[hash].lines[i], next)
  }

  /** The hash of a retained row's store path or of a seed. */
  ghost predicate IsRootHash(retained: set<Row>, seeds: seq<string>, hash: string) {
    || (exists row :: row in retained && HasHash(row.storePath, hash))
    || (exists s :: s in seeds && HasHash(s, hash))
  }

  /** A chain of references from a root. */
  ghost predicate IsTrail(disk: Disk, retained: set<Row>, seeds: seq<string>, trail: seq<string>) {
    && trail != [] && IsRootHash(retained, seeds, trail[0])
    && forall i :: 0 <= i < |trail| - 1 ==> Follows(disk, trail[i], trail[i + 1])
  }

  ghost predicate IsMarked(disk: Disk, retained: set<Row>, seeds: seq<string>, hash: string) {
    exists trail :: IsTrail(disk, retained, seeds, trail) && trail[|trail| - 1] == hash
  }

  /** A retained row records the file, as its NAR or as its NARInfo. */
  ghost predicate IsRecorded(retained: set<Row>, file: FilePath) {
    exists row :: row in retained && (row.path == file || row.narinfoPath == file)
  }

  /** The file name in lower case is a marked hash. */
  ghost predicate NameIsMarked(disk: Disk, retained: set<Row>, seeds: seq<string>, stem: string) {
    exists low :: IsLowered(stem, low) && IsMarked(disk, retained, seeds, low)
  }

  /** The NARInfo is reachable by its name, or a retained row records it. */
  ghost predicate LiveRecord(disk: Disk, retained: set<Row>, seeds: seq<string>, stem: string) {
    NameIsMarked(disk, retained, seeds, stem) || IsRecorded(retained, Narinfo(stem))
  }

  predicate IsSlashed(url: string, rest: string, j: nat) {
    j <= |url| && url[j..] == rest && forall i :: 0 <= i < j ==> url[i] == '/'
  }

  /** The URL is that of the NAR file, up to leading slashes. */
  ghost predicate NamesNar(url: string, name: string) {
    exists j :: IsSlashed(url, "nar/" + name, j)
  }

  /** The NARInfo filed under the hash has a `URL` line that names the NAR. */
  ghost predicate RecordNames(disk: Disk, hash: string, name: string) {
    && hash in disk.narinfos && disk.narinfos[hash].readable
    && exists i :: && 0 <= i < |disk.narinfos[hash].lines| && disk.narinfos[hash].lines[i].key == Url
                   && NamesNar(disk.narinfos[hash].lines[i].value, name)
  }

  /** The URL of a retained row, or the NARInfo of a marked hash, names the NAR. */
  ghost predicate IsNamed(disk: Disk, retained: set<Row>, seeds: seq<string>, name: string) {
    || (exists row :: row in retained && NamesNar(row.narUrl, name))
    || (exists hash :: IsMarked(disk, retained, seeds, hash) && RecordNames(disk, hash, name))
  }

  /** The NAR is named, or a retained row records it. */
  ghost predicate LiveNar(disk: Disk, retained: set<Row>, seeds: seq<string>, name: string) {
    IsNamed(disk, retained, seeds, name) || IsRecorded(retained, Nar(name))
  }

  /** Every file is in use. */
  ghost predicate AllLive(disk: Disk, retained: set<Row>, seeds: seq<string>) {
    && (forall k :: k in disk.narinfos ==> LiveRecord(disk, retained, seeds, k))
    && (forall n :: n in disk.nars ==> LiveNar(disk, retained, seeds, n))
  }

  /** Nothing was added or changed, and of the files before exactly those in use are left. */
  ghost predicate KeepsLive(before: Disk, after: Disk, retained: set<Row>, seeds: seq<string>) {
    && Shrunk(before, after)
    && (forall k :: k in before.narinfos ==> (k in after.narinfos <==> LiveRecord(before, retained, seeds, k)))
    && (forall n :: n in before.nars ==> (n in after.nars <==> LiveNar(before, retained, seeds, n)))
  }
}

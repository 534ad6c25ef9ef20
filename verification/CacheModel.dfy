/** The served cache root as a value: NARInfo files by the hash in their name, NAR files by name,
    and the inventory rows that claim them.  */
module CacheModel {
  import opened Options
  import opened NixBase32

  type Blob = seq<Byte>

  const MAX_NARINFO_BYTES: nat := 1024 * 1024
  const U64_LIMIT: nat := 0x1_0000_0000_0000_0000

  datatype Key =
    | StorePath | Url | Compression | FileHash | FileSize | NarHash | NarSize | References
    | Sig | OtherKey

  /** One `Key: value` line. `spaced` is false when the line has no `": "`, which the strict
      parser refuses and the sweep does not mind.  */
  datatype Line = Line(key: Key, value: string, spaced: bool)

  /** `readable` is false for a file that is not UTF-8; `terminated` says the text ends a line. */
  datatype NarinfoFile = NarinfoFile(lines: seq<Line>, terminated: bool, readable: bool, size: nat)

  datatype Disk = Disk(narinfos: map<string, NarinfoFile>, nars: map<string, Blob>)

  /** A recorded path: `<root>/<stem>.narinfo`, `<root>/nar/<name>` or anything else. */
  datatype FilePath = Narinfo(stem: string) | Nar(name: string) | Foreign(text: string)

  /** A cache key: its name and its Ed25519 material. */
  datatype PublicKey = PublicKey(name: string, material: string)

  /** The text Nix signs for a store path, field by field. */
  datatype Fingerprint = Fingerprint(storePath: string, narHash: Digest, narSize: int, references: seq<string>)

  /** One artifact of a closure manifest. */
  datatype Member = Member(
    storePath: string, stem: string, narUrl: string, fileHash: string, fileSize: nat,
    narHash: string, narSize: nat, compression: string, references: seq<string>)

  datatype Manifest = Manifest(
    root: string, derivation: Option<string>, artifacts: seq<Member>,
    totalFileSize: nat, totalNarSize: nat)

  /** What the model takes from outside: SHA-256 of a file, `parse_strong_sha256`, integer
      parsing, Ed25519 verification of a signature text, the protected-material boundary, and
      the two digests the inventory records.  */
  datatype Oracles = Oracles(
    sha256: Blob -> Digest,
    parseHash: string -> Option<Digest>,
    parseInt: string -> int,
    verify: (string, Fingerprint, string) -> bool,
    boundary: Manifest -> bool,
    manifestDigest: Manifest -> string,
    keyDigest: PublicKey -> string)

  /** One inventory row. `manifest`, `manifestDigest` and `keyDigest` are the optional entries of
      its metadata; `references` is None when the stored list is malformed.  */
  datatype Row = Row(
    artifactType: string, hash: string, path: FilePath, storePath: string, narinfoPath: FilePath,
    narUrl: string, fileHash: string, narHash: string, compression: string,
    sizeBytes: int, narSizeBytes: int, closureFileSizeBytes: int,
    references: Option<set<string>>, manifest: Option<Manifest>,
    manifestDigest: Option<string>, keyDigest: Option<string>,
    sourceJob: Option<string>, createdAt: int)

  /** A Nest node: the cache root and the inventory table, both changed in place. */
  class Nest {
    var disk: Disk
    var rows: map<int, Row>

    constructor (disk: Disk, rows: map<int, Row>)
      ensures this.disk == disk && this.rows == rows
    {
      this.disk, this.rows := disk, rows;
    }
  }

  /** Nothing was added or changed, only removed. */
  ghost predicate Shrunk(from: Disk, to: Disk) {
    && (forall k :: k in to.narinfos ==> k in from.narinfos && from.narinfos[k] == to.narinfos[k])
    && (forall n :: n in to.nars ==> n in from.nars && from.nars[n] == to.nars[n])
  }
}

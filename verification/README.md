# Tiaris Nest: a verified model of the binary cache, the build queue and their protocols

Tiaris Nest keeps a signed Nix binary cache, builds the closures it serves, and reports both to Tiaris. This project
models the parts whose functions constrain each other, and proves what they promise together. `dafny verify
dfyconfig.toml` checks all of it.

- **The cache engine.** A `Disk` is a map of NARInfo files by the hash in their name and a map of NAR files by name; a
  `Nest` is a disk and the inventory rows, both changed in place. On it run the strict closure verifier, selective
  quarantine, the mark-and-sweep collector, the integrity scrub, retention, remediation of protected jobs, the replica
  importer and the Nix base32 codec.
- **The build queue.** Each SQL statement on the job table is one atomic step on its rows; the theorems range over whole
  runs. The two report queries are modelled by the ranks and running sums of their window functions.
- **Four small protocols.** The disk-usage cache, the bounded line framer, the update queue and the readiness tracker
  are classes whose methods are the atomic sections of the code, so a sequence of calls is an interleaving. For the
  disk-usage cache the lock of an entry, the calls waiting for it and the blocking scans are state, and the theorems
  range over runs.

## How to read the model

*Oracles.* SHA-256, `parse_strong_sha256`, integer parsing, Ed25519 verification, the protected-material boundary, the
redaction of texts, the manifest and key digests and the UTF-8 decoder are function-valued parameters. Nothing is
assumed of them except where a theorem says so: a replica's own signatures verify (`SignerWorks`), and the replacements
a quarantine writes pass the boundary themselves (`AcceptsReplacements`).

*Reachability* is the least set that contains the roots and is closed under references, so it is independent of any
walk. `Describes` says what a manifest must contain without mentioning a walk, and `Certified` says it on the artifacts
and the files alone; the verifier is proved to accept exactly it.

*Two forms of each rule.* The functions follow the code: parsers, loops, joins, fixed points, ranks. What they compute
is said a second time, without them, on lines, bytes, rows and columns: a signed record (`Attests`), a verified member
(`Stands`), a certified manifest (`Certified`), a sound row (`IsSound`), a live file (`LiveRecord`, `LiveNar`), a fenced
row (`IsFenced`), a linked row (`IsLinked`), a mirrored file (`IsMirrorOf`), an executed statement (`Transforms`), a
report in turns (`IsReport`), the lines of a stream (`Cuts`). The lemmas whose names end in `Means` connect the two, and
the contracts of the main methods use the second form.

*Clocks and queries* are parameters: the batch a scrub considers due is any sequence of row ids, the samples of disk
usage and free space a retention run reads are any sequence, and a read of the line framer returns any nonempty part of
what is left.

*The sweep and the verifier read a NARInfo differently.* The verifier accepts references written as full paths; the
sweep follows only basenames. `StorePaths.SweepFollowsBasenames` says exactly when they agree, and the sweep theorems
assume basenames (`ClosureWritesBasenames`).

## What turned out to need a condition

- *Sweep.* A retained root that verified gives the identical manifest after a sweep **if and only if** the mark phase
  reached every file of its closure (`SweepSafety.SweepAndVerification`). References written as basenames, as Nix writes
  them, are enough (`SweepSafety.SweepPreservesVerification`); `SweepExample.FullPathIsSwept` is a concrete cache with a
  full path where the sweep takes a member of a retained closure.
- *Scrub.* A scrub that finds a bad row leaves exactly the rows that verified at the start when every failure is a bad
  closure member. A row can also fail without one: its record is stale although its closure verifies, or its root or
  derivation is refused before the walk; its root is then withdrawn. With both kinds of failure the pass is exact **if
  and only if** no root name of such a row belongs to the closure of a row that verifies
  (`ScrubPass.ScrubCacheArtifacts`); for a valid root that means the root is not a member of that closure
  (`ScrubPass.UntakenMeansOutside`). `ScrubExample.StaleTwinSpoilsScrub` is a concrete cache where the pass is not
  exact.
- *Replica: success.* An import succeeds **if and only if**, before it, the two key names differ, the root is a valid
  store path, the origin has a signed record within the size limit for every member of its closure, the declared count
  and digest are those of the closure, and the node's disk with the origin's records and the NARs it lacks written over
  it verifies (`Importable`; `ReplicaMirror.ImportReplicaClosure`). An origin that verifies and was declared rightly is
  always imported (`ReplicaSuccess.OfferIsImportable`).
- *Replica: the origin.* An import fetches exactly the NARs that were not intact here. So the origin's own verification
  gives the imported manifest **if and only if** the NARs the node held intact before are intact at the origin as well
  (`ReplicaMirror.HeldDecides`); `ReplicaExample.HeldNarHidesLoss` is a successful import from an origin that does not
  verify.
- *Replica: the other rows.* An import overwrites NARInfo and NAR files by name before it verifies, and leaves them when
  it fails. After a successful import a row that verified before still gives its manifest **if and only if** every
  member of its closure is spared: the origin's file that overwrites its NARInfo, if any, says the same about it, and if
  a NAR of its name was missing, the origin's passes its check (`SparesRow`, on the state before the import;
  `ReplicaWrites.SuccessfulImportAndRow`). For a failed import the same holds of the members it had taken and of what
  its last verification withdraws (`ReplicaWrites.ImportAndRows`). `ReplicaExample.ImportBreaksRow` is a successful
  import after which a row that verified does not.
- *Remediation.* Withdrawing a protected root also withdraws it from the closures that contain it. A retained row that
  verified goes on verifying **if and only if** no withdrawn name belongs to its closure
  (`Remediation.RemediationAndVerification`); `RemediationExample.WithdrawnDependencyBreaks` is a concrete inventory in
  which a retained row stops verifying because the withdrawn output is one of its dependencies.
- *Disk usage.* At most one live call scans an entry, because it holds the entry's lock. A call dropped while it scans
  releases the lock and leaves its blocking scan running. So a call begins a scan beside another one of its entry **if
  and only if** such an abandoned scan still runs and the reading is absent or a minute old
  (`UsageProtocol.OverlapCondition`); in a run that drops no scanning call scans never overlap
  (`UsageProtocol.ScansNeverOverlap`), and `UsageProtocol.CancelledScanOverlaps` is a run in which they do. Freshness
  holds in every run (`UsageProtocol.FreshAfterDrop`).

The standing assumptions of the scrub (`World`) are those the code relies on: a store path is determined by its hash
among the paths the cache knows, a NAR file named after a digest is named after the digest its record declares, recorded
NARInfo paths are canonical, references are basenames, and row ids are positive. The concrete caches are families over
store paths; `ExampleCache.PathsExist` gives paths for them.

## Model

| member | source | states |
|---|---|---|
| `StorePaths.ValidPathStem` | src/cache.rs:2511-2519 | for a valid store path the strict file name and the sweep's hash are the same lower-case hash |
| `StorePaths.SweepFollowsBasenames` | src/cache.rs:2418-2425 | the sweep follows a reference the verifier accepts exactly when it is written as a basename |
| `StorePaths.ValidIsComposed` | src/cache.rs:1622-1642 | a store path is valid if and only if it is the store directory, 32 hash characters, a dash and a nonempty name of the allowed characters |
| `StorePaths.StorePathHashMeans` | src/cache.rs:2505-2519 | the sweep's hash of a path is the one its last segment begins with |
| `TextOrder.LessIsLexicographic` | src/cache.rs:1225 | the order of the members: a proper prefix, or less at the first character that differs |
| `NixBase32.EncodeNixBase32` | src/cache.rs:1567-1580 | the byte-window encoder prints the big-integer form for every 32-byte digest |
| `NixBase32.EncodedSpells` | nixos-appliance/export-cache.py:12-14 | the big-integer form is 52 alphabet characters whose digits, most significant first, are those of the digest's little-endian number, which has at most 256 bits |
| `NixBase32.WindowIsDigit` | src/cache.rs:1573-1577 | the two-byte window at a bit offset holds exactly that base-32 digit of the number |
| `NixBase32.DecodeNixBase32` | src/cache.rs:1542-1565 | the bit-placing loop computes the digest whose number the text spells, or fails exactly where the specification does |
| `NixBase32.DecodeOfEncode` | src/cache.rs:1542-1580 | decoding an encoded digest gives the digest back |
| `NixBase32.EncodeOfDecode` | src/cache.rs:1542-1580 | decoding succeeds exactly on 52 alphabet characters with leading digit at most one, and encoding the result gives the text back |
| `NixBase32.EncodedIsCanonical` | src/cache.rs:1567-1580 | every encoded digest is such a text |
| `NarinfoCheck.MembersAreChecked` | src/cache.rs:1129-1222 | the graph of a disk holds exactly the paths that pass the strict check, with what the check returns |
| `NarinfoCheck.MemberShape` | src/cache.rs:1129-1222 | what passing the check guarantees: valid path and references, the NARInfo under the path's own hash, a present NAR, positive sizes |
| `NarinfoCheck.MemberIsSignedRecord` | src/cache.rs:1451-1485 | a member that passes is its signed record with a known compression and an intact NAR; `MemberMeaning.MemberMeans` says what that is, both ways |
| `MemberMeaning.TokensAreWords` | src/cache.rs:1451-1483 | the tokens of a reference line are its maximal blank-free parts |
| `MemberMeaning.RecordMeans` | src/cache.rs:1129-1188 | a record is accepted under a key if and only if the file is complete and well formed, has one line for each field with these values, refers to exactly these valid paths, declares strong hashes, and some signature line under the key's name verifies for the path, NAR hash, NAR size and references |
| `MemberMeaning.NarMeans` | src/cache.rs:1189-1222 | the NAR check passes if and only if the file the URL names is present with the declared size and digest |
| `MemberMeaning.MemberMeans` | src/cache.rs:1129-1222 | a path passes the strict check, to this member, if and only if the disk has such a signed record of it, with a compression name, and such a NAR |
| `MemberMeaning.CondemnsExactly` | src/cache.rs:1189-1206 | a NAR is condemned if and only if its file name spells a digest and its bytes have another |
| `ClosureWalk.WalkIsSound` | src/cache.rs:1120-1243 | from any intermediate state the walk visits distinct closure members from the root on; complete means exactly the closure with its totals, stuck means a missing member, too big means an overflow |
| `ClosureWalk.WalkDependsOnClosure` | src/cache.rs:1120-1243 | graphs that agree on the closure give the same walk |
| `ClosureWalk.WalkSurvivesGrowth` | src/cache.rs:1120-1243 | adding members changes no walk that did not get stuck |
| `ClosureWalk.DescriptionIsUnique` | src/cache.rs:1225-1253 | a closure has one description |
| `ClosureManifest.WalkClosure` | src/cache.rs:1120-1223 | the queue loop computes the walk of the member graph and terminates on every finite graph, cycles included |
| `ClosureManifest.BuildClosureManifest` | src/cache.rs:1102-1254 | the verifier returns the verdict of the specification, with the visited paths and the condemned NAR on failure; it accepts a manifest if and only if the disk certifies it (`BuildIsCertified`) |
| `ClosureManifest.BuildIsDescription` | src/cache.rs:1102-1254 | a manifest is accepted if and only if it is the description of the root's closure, its totals fit and the boundary allows it |
| `ClosureManifest.BuildIsCertified` | src/cache.rs:1102-1254 | a manifest is accepted if and only if root and derivation are store paths, every artifact is a signed record with its NAR on the disk, the artifacts are sorted, are the root and everything reached from it and nothing else, the totals are their sums and fit, and the boundary allows it |
| `ClosureManifest.ReferenceOrderIsIrrelevant` | src/cache.rs:1166-1171 | order and repetition of references change neither verdict nor manifest |
| `ClosureManifest.JudgeDependsOnClosure` | src/cache.rs:1120-1254 | the verdict depends only on the members of the closure |
| `Sweeper.Mark` | src/cache.rs:2395-2428 | the mark phase computes everything reachable from its roots |
| `Sweeper.DeleteDead` | src/cache.rs:2429-2471 | a directory pass keeps exactly the live files and adds the deleted bytes to a saturating counter |
| `Sweeper.SweepUnreachable` | src/cache.rs:2386-2473 | the files left are unchanged and are exactly the live ones: a NARInfo whose name a trail of references from a root leads to or a row records, a NAR that a row or such a NARInfo names; the freed bytes are the saturating sum of what was deleted |
| `Sweeper.LiveMeans` | src/cache.rs:2395-2428 | a hash is marked if and only if a trail of references leads to it from a retained row or a seed |
| `Sweeper.SweptMeans` | src/cache.rs:2386-2473 | which files a sweep leaves, without the mark phase |
| `Sweeper.BytesAreLengths` | src/cache.rs:2429-2471 | the bytes counted are the file sizes |
| `SweepSafety.NothingDeadIsLeft` | src/cache.rs:2386-2473 | every file a sweep leaves is live on the disk it leaves |
| `SweepSafety.MarkFollows` | src/cache.rs:2418-2425 | the mark phase follows every basename reference of a verified member |
| `SweepSafety.SweepKeepsClosure` | src/cache.rs:2386-2473 | no NARInfo or NAR of a retained or seed closure is deleted |
| `SweepSafety.RemovalAndVerification` | src/cache.rs:1102-1254 | after files disappear a verified root gives the identical manifest if and only if nothing of its closure did |
| `SweepSafety.SweepPreservesVerification` | src/cache.rs:2386-2473 | a retained or seed root that verified gives the identical manifest after the sweep |
| `SweepSafety.SweepAndVerification` | src/cache.rs:2386-2473 | whatever its references look like, a verified root gives the identical manifest after a sweep if and only if the mark phase reached, or a retained row names, every file of its closure |
| `SweepExample.FullPathIsSwept` | src/cache.rs:2418-2425 | a concrete cache, for any two paths, whose retained root verifies and loses a member to the sweep because its record writes a full path |
| `SweepSafety.SweepIsIdempotent` | src/cache.rs:2386-2473 | a second sweep of the same rows and seeds changes nothing |
| `SweepRounds.SweepsCompose` | src/cache.rs:2057-2100 | a sweep after one that retained more rows leaves exactly what it alone would have left |
| `Scrubber.BuildOrQuarantine` | src/cache.rs:1043-1100 | a failed verification withdraws the root's and the failing member's NARInfo and a NAR that contradicts its own name, and nothing else; it succeeds exactly with the manifests the disk certifies |
| `Scrubber.ScrubArtifact` | src/cache.rs:2207-2332 | a row stays if and only if it is sound: the disk certifies a manifest of its root, and the row records it field by field, with its digests and references; otherwise exactly the root's and the failing member's NARInfo names, the row's own discovery name and a contradicted NAR go with it |
| `Scrubber.GoodMeans` | src/cache.rs:2256-2313 | a row verifies as recorded if and only if it is sound |
| `ScrubSafety.VerdictSurvivesGrowth` | src/cache.rs:1102-1254 | only a bad member changes a row's verdict when files disappear |
| `ScrubSafety.GoodOnlyShrinks` | src/cache.rs:2256-2313 | removal never makes a row verify |
| `ScrubSafety.GoodWhileKept` | src/cache.rs:2256-2313 | a row that verifies goes on verifying if and only if its closure is kept |
| `ScrubSafety.BadMemberSparesMember` | src/cache.rs:1043-1100 | quarantining a bad member takes nothing from the closure of a row that verifies |
| `ScrubSafety.ScrubSpares` | src/cache.rs:2207-2332 | scrubbing a failing row that does not overreach leaves every good closure whole |
| `ScrubSafety.ScrubSteps` | src/cache.rs:2146-2189 | the invariant of the pass survives each withdrawn row |
| `ScrubPass.NextArtifact` | src/db.rs:1952-1964 | the row with the least id above the cursor, or none |
| `ScrubPass.ScrubBatch` | src/cache.rs:2151-2167 | the batch finds nothing if and only if every due row verifies, and then changes nothing |
| `ScrubPass.ScrubCascade` | src/cache.rs:2169-2180 | every row the cascade leaves verified at the start of the pass |
| `ScrubPass.OverreachSpoils` | src/cache.rs:2309-2332 | a failing row whose root lies inside a good closure makes the pass inexact |
| `ScrubPass.PassTheorem` | src/cache.rs:2146-2189 | the exact condition for a pass, over its final state |
| `ScrubPass.UntakenMeansOutside` | src/cache.rs:2315-2332 | the root names of a failing row with a valid root spare a good closure if and only if the root is not a member of it |
| `ScrubPass.ScrubCacheArtifacts` | src/cache.rs:2146-2189 | a pass that finds nothing changes nothing; one that does leaves no garbage, lacks only what rows that are gone took with them and what a sweep for the rows left then takes, leaves only rows that verified at the start (of those with a positive id) and, under the condition above and only then, exactly the rows that verified, each still verifying with its manifest |
| `ScrubExample.StaleTwinSpoilsScrub` | src/cache.rs:2309-2332 | a concrete cache, for any root path, where all standing assumptions hold and scrubbing a stale record breaks a row that verifies |
| `Retention.ReclaimBytes` | src/cache.rs:2118-2130 | the least number of bytes that restores both the size bound and the free-space reserve |
| `Retention.EvictionOrder` | src/cache.rs:1983-2055 | every row not fenced exactly once, outputs that are not recent first, oldest first within each part |
| `Retention.ProtectionMeans` | src/cache.rs:2015-2038 | a row is protected if and only if it is fenced: Tiaris protects its type and hash, or its source job is queued or running |
| `Retention.RecentMeans` | src/cache.rs:2011-2028 | an output is recent if and only if it belongs to one of the first finished managed jobs of the listing, up to the configured number, that still have an artifact |
| `Retention.OrderMeans` | src/cache.rs:2032-2055 | hence the eviction order, on rows and jobs: every row not fenced once, no recent output before another, oldest first within each part |
| `Retention.SameOrder` | src/cache.rs:1983-2055 | these properties determine the order |
| `Retention.PrefixIsDownwardClosed` | src/cache.rs:2039-2079 | with an evicted row, every unprotected row that precedes it is evicted |
| `Retention.EvictRound` | src/cache.rs:2064-2079 | a round evicts the fewest rows whose estimates cover the excess, or all that are left, and at least one |
| `Retention.EnforceRetention` | src/cache.rs:1956-2110 | for any samples: fenced rows stay, the evicted rows are a prefix of the order of the others cut into such rounds, the run ends with nothing to reclaim by its last sample or everything eligible evicted, the disk is exactly what one sweep for the surviving rows would have left of the disk at the start, and every surviving row that verified still does with its manifest; a zero maximum disables it |
| `Remediation.DoomedRows` | src/cache.rs:1803-1836 | the fixed-point loop computes the least set that holds the job's rows and is closed under root aliasing: the rows a chain of shared names links to an output of the job |
| `Remediation.DoomedMeans` | src/cache.rs:1803-1836 | a row is withdrawn if and only if such a chain links it |
| `Remediation.RemediationAndVerification` | src/cache.rs:1838-1863 | a retained row that verified goes on verifying if and only if no withdrawn name belongs to its closure |
| `RemediationExample.WithdrawnDependencyBreaks` | src/cache.rs:1838-1863 | a concrete inventory, for any two paths: the doomed set is exactly the job's output, the retained row verified and is not doomed, and after the withdrawal and the sweep it does not verify |
| `Remediation.Remediate` | src/cache.rs:1797-1875 | exactly the linked rows go; no row left is an output of the job or shares a name with a withdrawn one; the disk is exactly what a sweep for the rows left leaves of it without the withdrawn names, and the verdicts of retained rows are as above |
| `ReplicaImport.MirroredParses` | src/cache.rs:799-825 | appending the node's signature changes nothing of the record but its signatures |
| `ReplicaImport.OtherSignatureSurvives` | src/cache.rs:799-825 | dropping the node's own stale signatures keeps every signature of another key |
| `ReplicaImport.MirroredSignedRecord` | src/cache.rs:799-825 | a mirrored record still verifies under the origin's key, to the same record |
| `ReplicaMeaning.MirroredMeans` | src/cache.rs:799-825 | the mirrored file is the origin's lines in order, without any signature under the node's name, and then the node's signature of the record |
| `ReplicaImport.OriginVerification` | src/cache.rs:495-602 | the origin's verification equals the mirror's if and only if the origin's NARs are intact |
| `ReplicaOffers.VerifiedOriginServes` | src/cache.rs:495-571 | an origin that verifies within the limits can serve its closure |
| `ReplicaOffers.MirroredIsMember` | src/cache.rs:557-558 | a mirrored record with its NAR passes the strict check under the node's key |
| `ReplicaOffers.MirrorVerifies` | src/cache.rs:587-602 | a mirror of all of a verified closure verifies to the same manifest |
| `ReplicaWrites.FetchingWhatIsMissing` | src/cache.rs:537-556 | the NARs fetched one after the other are exactly those that were not intact when the import began |
| `ReplicaMirror.MirrorMember` | src/cache.rs:508-558 | a member is mirrored if and only if its record is good and its NAR is here or there; the NAR is fetched if and only if it is not here, and the disk changes by exactly the record and that NAR |
| `ReplicaMirror.MirrorAll` | src/cache.rs:495-571 | on success the visited paths are the origin's closure, all mirrored; it succeeds when every member can be taken; in every case the disk has exactly the writes of the members taken, all of the origin's closure |
| `ReplicaSuccess.OfferIsListed` | src/cache.rs:572-584 | the sorted paths of the origin's closure are those of its manifest |
| `ReplicaSuccess.NarsComplete` | src/cache.rs:537-556 | when the missing NARs are intact at the origin, all NARs of the closure are intact in the mirror |
| `ReplicaSuccess.MissingAreAtOrigin` | src/cache.rs:537-556 | conversely, when all are intact in the mirror, the missing ones are intact at the origin |
| `ReplicaSuccess.ImportableIsMirrorable` | src/cache.rs:495-571 | under the condition for success the mirroring loop gets through |
| `ReplicaSuccess.OfferIsImportable` | src/cache.rs:463-602 | a closure the origin offers as declared satisfies the condition whatever the node holds, and the mirror verifies to the origin's manifest |
| `ReplicaMirror.LoopDecides` | src/cache.rs:572-602 | after the loop, the condition held before if and only if count, digest and the last verification pass |
| `ReplicaMirror.HeldDecides` | src/cache.rs:537-556 | the origin verifies to the imported manifest if and only if the NARs held intact before are intact there |
| `ReplicaMirror.ImportReplicaClosure` | src/cache.rs:463-602 | the import succeeds if and only if the condition above held before, and then records the mirror's certified manifest of exactly the reachable set, of the declared count and digest, with every record trusted under both keys; it leaves exactly the artifacts' NARInfo files mirrored from the origin's signed ones, the origin's NARs where one was lacking, and every other file as it was; the origin agrees under the exact condition above; a closure the origin offers as declared is imported with the origin's manifest; successful or not, the disk is the old one overwritten by files of the origin's closure, less what a failed last verification withdraws, and the rows that still verify are given exactly |
| `ReplicaMeaning.ImportMeans` | src/cache.rs:495-602 | what a successful import leaves, said on the files |
| `ReplicaWrites.WritesAndVerification` | src/cache.rs:537-558 | after such writes a row that verified gives the same manifest if and only if every member of its closure survives them |
| `ReplicaWrites.ImportAndRows` | src/cache.rs:463-602 | hence which rows still verify after an import, successful or not |
| `ReplicaWrites.SuccessfulImportAndRow` | src/cache.rs:537-558 | after a successful import a row that verified gives the same manifest if and only if, on the state before, every member of its closure is spared |
| `ReplicaWrites.OverwritingSaysSame` | src/cache.rs:557-558 | when the node's signatures verify, an overwritten NARInfo says the same about a member if and only if the origin's record of that member does |
| `ReplicaWrites.FailureWithdrawsRoot` | src/cache.rs:587-602 | a failed last verification withdraws the root's NARInfo, except when it refuses the derivation |
| `ReplicaExample.ImportBreaksRow` | src/cache.rs:537-558 | a concrete import, for any path, that succeeds and leaves a verified mirror under another URL, after which the row that verified does not |
| `ReplicaExample.HeldNarHidesLoss` | src/cache.rs:537-556 | a concrete import, for any path, that succeeds and fetches nothing from an origin that has lost the NAR and does not verify |
| `BuildJobs.RowIsFrozen` | src/db.rs:1778-1782 | no single step changes status, specification or the ledger's metadata of a quarantined row |
| `BuildJobs.StepEvolvesRow` | src/db.rs:1305-1353 | what one step may do to one row: never back to the queue, identity fixed once it has left, cancellation not forgotten |
| `JobStatements.StatementMeans` | src/db.rs:1276-1808 | each of the fourteen steps, column by column: what it leaves in every row, which row it inserts, the ledger and the history of claims |
| `JobRuns.RunIsSound` | src/db.rs:1276-1368 | in every reachable state managed ids are unique and ledger rows are frozen |
| `JobRuns.QuarantinedIsFrozen` | src/db.rs:144-232 | from quarantine on a job stays failed with its specification scrubbed, and its metadata only moves from pending to purged, whatever steps follow, reports included |
| `JobRuns.RunGoesForward` | src/db.rs:1493-1648 | the relation between any two states of a run |
| `JobRuns.ClaimedAtMostOnce` | src/db.rs:1622-1648 | no job is claimed twice in a run |
| `JobRuns.ClaimsTakeTheOldest` | src/db.rs:1622-1648 | every claim took the oldest job queued at that moment |
| `JobRuns.NeverClaimedAfterLeaving` | src/db.rs:1493-1569 | a job cancelled or rejected while queued is never claimed |
| `JobRuns.IdentityIsFixedByClaim` | src/db.rs:1305-1353 | the identity of a claimed job never changes, except that quarantine scrubs its specification |
| `JobRuns.CancelledNeverSucceeds` | src/db.rs:1711-1808 | a build whose cancellation was requested while it ran never ends succeeded |
| `JobTable.OldestQueued` | src/db.rs:1635-1640 | the queue head by creation time and id, or none when nothing is queued |
| `JobTable.Table.ClaimNext` | src/db.rs:1622-1648 | claims the oldest queued row, which starts with empty texts and no cancellation, or changes nothing when there is none |
| `JobTable.Table.UpsertManaged` | src/db.rs:1276-1368 | inserts, or changes only what the row's status still allows |
| `JobTable.Table.FinishJob` | src/db.rs:1711-1808 | an error unless the status is terminal and the job exists; the row ends with the reported status, logs, error, output path and metadata; a pending cancellation overrides them, a ledger entry blocks the statement, and no other row changes |
| `JobTable.Table.CancelAbsent` | src/db.rs:1493-1535 | exactly the managed jobs in progress that are not retained change: a queued one is cancelled, a running one asked to cancel; returns how many |
| `JobTable.Table.QuarantineProtected` | src/db.rs:144-232 | the pass succeeds if and only if every row parses, and otherwise stops at the least id that does not; of the rows it reaches, those that fail the boundary are scrubbed and entered in the ledger and the others have their texts redacted; on success it returns how many failed and none fails any more |
| `JobTable.Table.RecoverRunning` | src/db.rs:1571-1592 | afterwards no job is running |
| `JobTable.Table.MarkPurged` | src/db.rs:310-343 | the purge takes effect exactly when the ledger entry is pending |
| `ReportPages.PageIsPrefix` | src/db.rs:1207-1222 | a page is a prefix of its order |
| `ReportPages.PageIsLongestPrefix` | src/db.rs:2014-2019 | a page stays within both budgets and the next row would exceed one, or it is a single row |
| `ReportPages.NextRest` | src/db.rs:1984-2034 | following the cursor removes exactly the page, and the page reports completeness exactly when nothing is left |
| `ReportPages.InventoryPaging` | src/db.rs:1984-2034 | pages are nonempty, disjoint and descending, and exactly the page that completes the inventory says so |
| `ReportPages.TraversalCompletes` | src/db.rs:1984-2034 | any traversal, wherever it stands, goes on to cover the whole inventory |
| `ReportFairness.InterleavingIsTotal` | src/db.rs:1207-1216 | group position and round priority decide between any two rows |
| `ReportFairness.GroupPrefix` | src/db.rs:1183-1222 | within each group a page takes a prefix of the rotation |
| `ReportFairness.FavouredGroupReports` | src/db.rs:1198-1222 | the group a round favours gets a row into the page |
| `ReportFairness.CursorRotates` | src/db.rs:1183-1197 | moving the cursor to the last reported id rotates the order, for any cursor, present or deleted |
| `ReportFairness.RotationOfList` | src/db.rs:1183-1197 | the rotated order is the id-descending list rotated by the number of ids at or above the cursor, and a row's position is its place there |
| `ReportFairness.EveryJobIsReported` | src/db.rs:1148-1233 | every job of a group of n that does not change is reported within 4n rounds, whatever cursor, budgets and other groups |
| `ReportTurns.ReportPageMeans` | src/db.rs:1148-1233 | the page on the job table: the managed jobs form three queues (going on, refused, other outcomes), each by descending id from below its cursor; they take turns, in the lane order of the round; the page holds the first jobs in this order, within both budgets unless it is one job, and the next would exceed one |
| `ReportTurns.QueuesExist` | src/db.rs:1183-1197 | every job table has these queues |
| `BootEvents.NewestCount` | src/db.rs:1092-1107 | the limited selection has exactly the limit, or all when there are fewer |
| `BootEvents.PrunedMeans` | src/db.rs:1089-1114 | what pruning keeps, without ranks |
| `BootEvents.NewestOfPruned` | src/db.rs:1089-1114 | dropping rows that are not among the newest does not change which are |
| `BootEvents.PruneCatchesUp` | src/db.rs:1089-1114 | pruning a table that covers the history gives the pruned history |
| `BootEvents.Log.Prune` | src/db.rs:1089-1114 | after any inserts and prunes, the table is exactly the newest events of the whole history and the newest boots of a known device into a profile, unchanged |
| `BootEvents.Log.InsertWithRetention` | src/db.rs:1060-1087 | the same after every insert |
| `UsageProtocol.RunAgrees` | src/cache_usage.rs:14-54 | in every state of every interleaving a lock is held exactly by the call that is past it and has not returned, every running scan belongs to a live scanning call or to one dropped while it ran, every reading is younger than its entry and every live entry than the last drop of its root |
| `UsageProtocol.OneScanPerEntry` | src/cache_usage.rs:25-32 | live calls that scan one entry are the same call |
| `UsageProtocol.OverlapNeedsDrop` | src/cache_usage.rs:25-36 | of two running scans of one entry, one belongs to a call dropped while it ran |
| `UsageProtocol.OverlapCondition` | src/cache_usage.rs:25-32 | the exact condition, on the state before, for a call to begin a scan beside another one of its entry |
| `UsageProtocol.ScansNeverOverlap` | src/cache_usage.rs:14-37 | over every run that drops no scanning call, no two scans of one entry run at once |
| `UsageProtocol.FreshAfterDrop` | src/cache_usage.rs:14-54 | over every run, a call that starts after a mutation of its root was dropped never returns a scan begun before that drop |
| `UsageProtocol.SectionMeans` | src/cache_usage.rs:14-54 | each section by what it leaves: the entry found or made in a table of at most sixteen, a reading returned if and only if it is less than sixty seconds old, the result stored, the lock given up |
| `UsageProtocol.CancelledScanOverlaps` | src/cache_usage.rs:25-36 | a concrete run in which a dropped call's scan overlaps the next |
| `UsageCache.Cache.LetTimePass` | src/cache_usage.rs:26-28 | time passes and nothing else changes, as one step of the run |
| `UsageCache.Cache.StartCall` | src/cache_usage.rs:14-25 | a call finds the live entry, or makes one after the table of sixteen is cleared, and queues for its lock |
| `UsageCache.Cache.AcquireLock` | src/cache_usage.rs:25 | a waiting call takes a lock nobody holds |
| `UsageCache.Cache.ReadOrScan` | src/cache_usage.rs:26-32 | a call returns a reading less than a minute old or begins a scan, beside another one under exactly the condition above |
| `UsageCache.Cache.ScanEnds` | src/cache_usage.rs:32 | a blocking scan ends, whether or not its call still waits |
| `UsageCache.Cache.FinishCall` | src/cache_usage.rs:35-37 | the result is stored with its time, returned, and the lock released |
| `UsageCache.Cache.CancelCall` | src/cache_usage.rs:25-34 | a dropped call releases its lock and leaves its scan running |
| `UsageCache.Cache.EndMutation` | src/cache_usage.rs:45-54 | the root's entry is removed, and every scan and reading begun so far lies before the new fence |
| `LineFramer.OverlongLine` | src/bounded_io.rs:44-56 | an over-limit line is one marker, and none of its bytes reach a later frame |
| `LineFramer.FramesOfLine` | src/bounded_io.rs:31-63 | each terminated line is exactly one frame |
| `LineFramer.FramesMean` | src/bounded_io.rs:31-75 | the frames of a stream are those of its lines, in order: the marker for a line over the limit, and otherwise the decoded line without its one trailing carriage return |
| `LineFramer.CutExists` | src/bounded_io.rs:31-63 | every stream has lines |
| `LineFramer.Lines.Take` | src/bounded_io.rs:41-62 | one read, wherever it is cut, takes at most one frame off what is to come and keeps the buffer within the limit |
| `LineFramer.Lines.Next` | src/bounded_io.rs:31-63 | the next frame of the one-pass split, the end of the stream, or a cancelled read that loses nothing |
| `LineFramer.ReadAll` | src/bounded_io.rs:31-75 | for every stream, every split into reads and any cancellations, the frames are those of one pass, one for each line |
| `UpdateQueue.Queue.Enqueue` | src/appliance.rs:134-142 | the update replaces what was pending, and a worker is started exactly when none is live |
| `UpdateQueue.Queue.Take` | src/appliance.rs:246-259 | the worker takes the pending update or stops |
| `UpdateQueue.Queue.NothingIsLost` | src/appliance.rs:235-269 | in every reachable state processed updates are a subsequence of those enqueued, a pending update has its one worker, and with no live worker the last update processed is the last enqueued |
| `Readiness.Tracker.AttentionSince` | src/console_status.rs:325-342 | a continuing attention keeps the time it began |
| `Readiness.Tracker.Evaluate` | src/console_status.rs:201-317 | the three fields always equal what the whole history says, and the status is the one that history calls for: its attention, since when, the stage or the silence, said on the observations |
| `Readiness.InForceIsLongest` | src/console_status.rs:319-342 | the attention in force has continued since the observation recorded, and since no earlier one |
| `Readiness.NotReadyIsEarned` | src/console_status.rs:283-303 | NotReady follows at least six waiting evaluations with nothing settled since the first, which is at least 75 seconds old |
| `Readiness.OverdueMeans` | src/console_status.rs:273-303 | NotReady is called for if and only if the latest observation ends such a wait, counted from its first observation |
| `Readiness.ObservationMeans` | src/console_status.rs:201-282 | what one observation is: a failure, settled (first boot, more than ten minutes without contact since the daemon is up, or running units that are healthy or not yet enrolled) or waiting |

## Left out

- Filesystem, lock, HTTP and subprocess mechanics: safe opens, renames, fsync, `nix copy` and downloads are atomic map updates or oracles, and the cache mutation lock is taken to exclude every other locked operation.
- SHA-256, Ed25519, base64 and JSON: oracles.
- The text of a NARInfo: a file is a list of key and value lines with flags for encoding, line ends and spacing; bytes below that level are not modelled.
- Free-space checks before a replica fetch, and the time stamp of the last verification.
- A recorded NARInfo path that names a file of the cache root without the `.narinfo` suffix: remediation stops with an error there, and the model treats the path as foreign.
- Job columns that no guard reads: progress percentage and message, output digest and size, exit code and time stamps other than the creation time.
- BuildJobs.StepEvolvesRow: runs of the lifecycle theorems exclude `update_build_job_report`, which sets a status directly; it is a step of the quarantine theorem only.
- The estimated size of a reported job is any number: the sum of column lengths is not modelled.
- Normalisers and validators of job fields, and the text of rejection reasons: identities and metadata are arbitrary strings.
- Fitting a report body into its exact byte limit, and the reporting client around the two page queries.
- A worker that panics: the update queue and the build workers are taken to survive a failed store or build.
- Errors of the underlying reader in the line framer, and a disk scan that panics, which the cache counts as zero bytes.
- The Ubuntu appliance code, configuration, boot rendering, host sampling, asset serving and cache egress counters: independent validators, text and counters that would only add easy members.

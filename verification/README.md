# Verification of eas-local-cache

eas-local-cache keeps finished iOS and Android builds in a content-addressed store beside a project, can compress them,
restores them on a hit, prunes them, and exchanges them with other machines of a local network. This project models the
parts of it that must not go wrong quietly, and proves what they promise for all inputs and all runs.

* **Archive codec** (`PathText`, `FileTree`, `SourceRecords`, `AppTree*`, `Containment`). The ELCAPP1 archive has a printer
  and a strict one-pass parser. The parser accepts exactly the printed archives of well-formed trees, so encoding and
  extracting undo each other in both directions, and no path of names in an extracted tree, over any number of links, leaves it.
* **Integrity** (`Json`, `TreeStream`, `TreeWalk`, `Integrity`). The stream fed to the tree digest can be decoded in one way
  only, and does not depend on how directories are read.
* **Compression and space** (`Capacity`, `Compression`, `Restoring`). Live staging bytes stay within what was reserved at every
  point, for any codec, whether the work succeeds or fails halfway; a payload that is kept restores to the artifact it came
  from, and the store serves it to whoever has the codec and the room.
* **The store as a protocol** (`Access`, `Entries`, `Slot`, `Store`, `StoreRuns`, `Lock`, `Prune`). Failing renames leave a
  slot as it was or published. Over any run of uploads, imports, resolves, prunes and damage, a hit returns the very artifact
  that was committed, leases hold, and a valid generation is replaced at most once; `StoreRuns.Serve` shows that the calls of
  one store object make such a run. The entry lock is modelled at single file operations: it excludes, and it is freed and
  taken over when it should be.
* **The wire** (`Wire`, `Transfer`). A package is accepted exactly if it is the printed form of a consistent header, manifest
  and body; exporting an entry and importing it into an empty slot publishes the same manifest and contents.
* **Pairing and replay** (`ReplayGuard`, `LanAuth`, `Coordinator`, `PairingRuns`). One activation per pairing window, and no
  request accepted twice, over whole runs.
* **Identity and diff** (`CanonicalJson`, `EnvironmentKey`, `InsightSources`, `InsightDiff`). Canonical text is equal exactly for
  equal values; the diff total is a metric, and its items lead from the earlier list to the later one.
* **Spelled-out formats** (`AppTreeOctets`, `Spelling`). Archives, packages, digest streams, signed texts and hashed payloads
  in octets and characters, apart from the constants that their writers and readers share.

Conventions: a thrown error is `None` or a failed outcome; a file tree is a map from paths to nodes; what the code takes from
its host (UTF-8 and NFC tests, alias keys, `lchmod`, locale order, hashes, codecs, random tokens, clocks, failing file
operations) is an argument. SHA-256 is an arbitrary function, assumed collision-free only where a lemma says so. A read or a
write may deliver any positive part of what was asked. `dafny verify dfyconfig.toml` checks everything.

Places where the code does less than its surroundings suggest, each with the exact condition and a lemma that shows the gap:

* A removal by `pruneCache` goes ahead when the access record of a leased entry cannot be read (src/cache/cleanup.ts:468-474),
  while auxiliary data in the same position is kept (src/cache/cleanup.ts:338-345): `StoreRuns.LeaseSafety` needs a readable
  record, `StoreRuns.UnreadableRecordProtectsNothing` shows why.
* An import touches the access record after it has released the entry lock (src/lan/import.ts:556-567), so a record it read
  before a hit can replace the longer lease of that hit: `StoreRuns.LeaseSafety` asks that no such touch is written after the
  hit, `StoreRuns.StaleTouchEndsLease` is a run in which one is.
* A failed read during validation makes an entry invalid (src/cache/validation.ts:92-98): a valid entry is then replaced without
  its payload being named, by `StoreRuns.UnnamedReplacementIffUnreadable` exactly then.
* Removing a tombstone may fail an upload whose entry is already in place (src/cache/store.ts:534-544): the exact faults are in
  `Store.CacheStore.Upload`.
* Publishing into a slot without an entry does not look for a restore: `StoreRuns.PublishedSlotIsClean` gives the exact
  condition, and `StoreRuns.PruningInvalidEntryOrphansRestore` is a run from an empty slot that ends in the other case. Such a
  restore is never served, by `StoreRuns.HitFidelity`.
* A pairing whose state update fails has already reserved the window, so an id handed out by an earlier server can activate:
  `PairingRuns.AckNeedsHandedOutId` is an equivalence, `PairingRuns.UnsavedPairingCanActivate` a run.
* The stale test and the rename of `breakStaleLock` are separate operations: `Lock.SeparateRenameBreaksExclusion` is a run in
  which a crash leads to two holders, `Lock.LateOwnerBreaksExclusion` one in which an owner record comes too late.
* A nonce must outlive the whole window of its timestamp: `LanAuth.ReplayFreeIffOutlives` is exact, the defaults satisfy it.
* An off-mode base hash is not kept apart from derived fingerprints (src/cache/environment-key.ts:121-129). Exactly the base
  hashes made of the prefix and 64 hexadecimal digits can collide, by `EnvironmentKey.CollidesIffLooksDerived`;
  `EnvironmentKey.DerivedFingerprintIsAlsoABase` builds the colliding input, and without one
  `EnvironmentKey.FingerprintIffSameEnvironment` holds across both key schemas.

## Model

| member | source | states |
|---|---|---|
| `PathText.ValidateSymlinkTarget` | src/cache/app-tree.ts:113-152 | accepts exactly the canonical relative targets whose leading parents do not outnumber the directories above the link |
| `PathText.ValidPathSpelled` | src/cache/app-tree.ts:87-111 | an accepted path is exactly names with slashes between them, in at most 4096 octets of plain text |
| `PathText.ValidTargetSpelled` | src/cache/app-tree.ts:113-152 | an accepted target is exactly some leading climbs, no more than the link has slashes, and then names, in plain text |
| `SourceRecords.ReadDirectory` | src/cache/app-tree.ts:218-219 | every name of a directory comes exactly once, in no particular order |
| `SourceRecords.Collector.Push` | src/cache/app-tree.ts:225-244 | adds one record, or refuses only where no complete walk could be accepted |
| `SourceRecords.Collector.Visit` | src/cache/app-tree.ts:213-247 | the recursion collects exactly what lies below the directory |
| `SourceRecords.CheckAliases` | src/cache/app-tree.ts:253-272 | accepts exactly lists in which no two paths share an alias key |
| `SourceRecords.CollectSourceRecords` | src/cache/app-tree.ts:201-274 | succeeds exactly on collectable trees, and then returns the one path-sorted listing of the tree, whatever the order of directory reads |
| `AppTreeEncoder.MeasureRecords` | src/cache/app-tree.ts:288-306 | totals exactly the regular files, and refuses exactly special entries and oversized totals |
| `AppTreeEncoder.WriteRecords` | src/cache/app-tree.ts:319-442 | writes the printed records, and fails exactly on a link that cannot be restored or a bound that would be passed; what is written by then is within the bound |
| `AppTreeEncoder.EncodeAppTree` | src/cache/app-tree.ts:282-452 | succeeds exactly on encodable trees, and writes their one archive with its true statistics; also when it fails it has written no more than the bound for the size and file count of its source |
| `AppTreeReader.ArchiveReader.Read` | src/cache/app-tree.ts:467-496 | returns exactly the next octets, or leaves the offset alone when they are not all there |
| `AppTreeReader.ArchiveReader.CopyTo` | src/cache/app-tree.ts:498-505 | copies exactly the next octets in bounded chunks, and says how many are out when they are not all there |
| `AppTreeReader.ValidateParentDirectories` | src/cache/app-tree.ts:532-554 | accepts exactly the paths all of whose proper prefixes are real directories on disk |
| `AppTreeFormat.ReadPrinted` | src/cache/app-tree.ts:636-680 | a printed record is read back with the offset after it |
| `AppTreeFormat.PrintedRead` | src/cache/app-tree.ts:636-680 | whatever is read as a record is the printed form of that record: no second spelling |
| `AppTreeLaws.ParseSound` | src/cache/app-tree.ts:636-757 | whatever the one-pass parser accepts is the printed form of the records it returns |
| `AppTreeLaws.ParseComplete` | src/cache/app-tree.ts:636-757 | the one-pass parser accepts the printed form of every stepwise admissible list |
| `AppTreeLaws.AcceptsExactlyThePrinted` | src/cache/app-tree.ts:572-787 | an archive is accepted, as these records, if and only if they are well formed, match the declaration, and print to these bytes |
| `AppTreeLaws.EncodableIsWellFormed` | src/cache/app-tree.ts:282-452 | encoding succeeds exactly on trees whose listing a reader with the matching declaration accepts |
| `AppTreeLaws.EncodeThenExtract` | src/cache/app-tree.ts:572-787 | an encoded archive extracts, under the encoder's own size and count and any cap it fits, to the same paths, kinds, modes, data and targets |
| `AppTreeLaws.ExtractThenEncode` | src/cache/app-tree.ts:201-274 | an accepted archive is the one archive of the tree it yields: encoding that tree succeeds and gives back the same bytes |
| `AppTreeLaws.ExtractionIsInjective` | src/cache/app-tree.ts:572-787 | two accepted archives with the same extracted tree are the same bytes, whatever was declared |
| `AppTreeOctets.ArchiveIsOctets` | src/cache/app-tree.ts:319-442 | for all records the archive is the magic octets, then type, path length, path, mode, data length and data of each record with type 1, 2 or 3 and big-endian widths 4, 4 and 8, then a zero octet, without reference to the shared constants |
| `AppTreeOctets.ThreeRecords` | src/cache/app-tree.ts:5-8 | the octets of the archive of any one directory, one file and one link |
| `AppTreeOctets.ArchivesAreOctets` | src/cache/app-tree.ts:319-452 | what is encoded, and what is accepted for extraction, are these octets of the listing of the tree |
| `AppTreeOctets.AcceptedInTerms` | src/cache/app-tree.ts:572-787 | an archive is accepted with these records exactly if it is these octets and meets the order, alias, parent, path, target, mode, declaration and size conditions, all in numbers |
| `AppTreeExtractor.Extraction.ExtractRecord` | src/cache/app-tree.ts:638-756 | one turn of the loop admits exactly the next admissible record and stores it on disk; never is more written than was read, also when a file is cut short |
| `AppTreeExtractor.ApplyDirectoryModes` | src/cache/app-tree.ts:762-776 | deepest first, every directory gets its final mode while it can still be reached, so the disk ends as the archived tree |
| `AppTreeExtractor.ExtractAppTree` | src/cache/app-tree.ts:572-787 | accepts exactly the archives of the parser specification into an empty destination, and leaves exactly their tree; what it wrote when it ended, well or not, is no more than the archive |
| `Containment.WalkStaysInside` | src/cache/app-tree.ts:113-152 | in a tree whose links climb no further than their own directory, a path that climbs at its start only, and no further than its start is deep, never leaves the root, through any number of links, at any fuel; a path that climbs again after crossing a link is not covered |
| `Containment.WalkReachesNode` | src/cache/app-tree.ts:697-755 | the path of every node that is no link leads to that node |
| `Containment.AcceptedTreeContainsItsLinks` | src/cache/app-tree.ts:697-755 | in the tree of every accepted archive no path of names, which is what programs open, leaves the root |
| `Containment.LinkBeyondDepthEscapes` | src/cache/app-tree.ts:144-150 | a link that climbs further than its directory lets its own path escape |
| `Containment.ContainmentIsExact` | src/cache/app-tree.ts:131-150 | bounded links are equivalent to containment of every walk |
| `Json.ReadQuote` | src/cache/integrity.ts:146-149 | quoted text is read back, and its end found, whatever follows |
| `Json.ReadDecimal` | src/cache/integrity.ts:146-149 | a printed number is read back unless digits follow |
| `TreeStream.FrameUnique` | src/cache/integrity.ts:139-150 | a frame and its continuation determine each other's parts |
| `TreeStream.SectionUnique` | src/cache/integrity.ts:266-332 | a frame with content is cut off at the right place even if the content holds NULs |
| `TreeStream.StreamUnique` | src/cache/integrity.ts:266-332 | the stream of a list of ordinary records determines the list |
| `TreeStream.StreamDeterminesTree` | src/cache/integrity.ts:266-332 | two trees with the same stream have the same paths, kinds, modes, sizes, contents and link targets |
| `TreeWalk.WalkUnique` | src/cache/integrity.ts:162-193 | two ordered walks over the same paths are the same sequence |
| `TreeWalk.Walker.Walk` | src/cache/integrity.ts:165-189 | the recursion lists exactly what is below the directory, in order |
| `TreeWalk.CollectRelativePaths` | src/cache/integrity.ts:162-193 | succeeds exactly within the entry limit, and returns the one ordered walk of the whole tree |
| `Integrity.HashOpenedFile` | src/cache/integrity.ts:98-137 | chunked reading feeds exactly the file |
| `Integrity.HashEntry` | src/cache/integrity.ts:266-328 | feeds exactly one section, and refuses exactly special entries and links that lexically leave the artifact |
| `Integrity.HashNext` | src/cache/integrity.ts:299-331 | an entry is taken exactly if it fits the remaining size and count |
| `Integrity.InspectDirectory` | src/cache/integrity.ts:236-350 | accepts exactly the inspectable bundles and reports the digest of their stream with their true size and count |
| `Integrity.InspectFile` | src/cache/integrity.ts:195-234 | accepts exactly non-empty packages of the expected size and reports the digest of the content |
| `Integrity.InspectPayloadFile` | src/cache/integrity.ts:362-393 | accepts exactly non-empty payloads of the expected size and reports the digest of the content |
| `Integrity.InspectArtifact` | src/cache/integrity.ts:352-360 | accepts exactly acceptable artifacts of the platform, with an integrity that attests them |
| `Integrity.IntegrityIsAFunction` | src/cache/integrity.ts:236-350 | the report depends on the tree alone, not on its location or on directory reads |
| `Integrity.DigestDeterminesTree` | src/cache/integrity.ts:266-332 | with a collision-free hash, equal tree digests mean equal trees |
| `Integrity.AttestedIsUnique` | src/cache/integrity.ts:352-360 | two artifacts of either platform that one integrity attests are the same artifact |
| `Integrity.ValidTargetPointsInside` | src/cache/integrity.ts:279-291 | archive-valid targets pass the lexical test at every location |
| `Integrity.PointsInsideOrComesBack` | src/cache/integrity.ts:152-160 | a target of climbs and names is refused exactly if it climbs out of the artifact and does not come back by the very names it left |
| `Integrity.ResolveIgnoresDots` | src/cache/integrity.ts:282-286 | empty and "." segments of a target lead nowhere |
| `Integrity.EscapingLinkIsRefused` | src/cache/integrity.ts:279-291 | an artifact with an absolute link, or one that climbs out and ends there, is not accepted |
| `Capacity.ArchiveBoundsAgree` | src/cache/capacity.ts:29-76 | the reserved archive bound equals the bound the archive format enforces |
| `Capacity.CapacityParts` | src/cache/capacity.ts:46-66 | how each reservation is made up of what can be alive together and a reserve between 512 MiB and 5 GiB |
| `Capacity.BundleCapacityExists` | src/cache/capacity.ts:29-76 | a bundle can be reserved for exactly if its allowance and the largest sum are safe integers |
| `Capacity.PackageCapacityExists` | src/cache/capacity.ts:29-76 | the same for a package |
| `Capacity.SmallerCopyFits` | src/cache/capacity.ts:30-70 | a smaller copy can be reserved for where a larger one can, with the same archive bound |
| `Compression.ExtractedFits` | src/cache/app-tree.ts:572-787 | what is extracted from an archive is never larger than the archive |
| `Compression.EncodedFits` | src/cache/compression.ts:66-69 | the archive of a source stays within the bound reserved from the source's integrity |
| `Compression.RestoreFits` | src/cache/capacity.ts:59-65 | decoding and extracting into empty staging needs exactly the restore reservation at most |
| `Compression.UploadFits` | src/cache/capacity.ts:50-58 | input, payload, decoded stream and decoded artifact together stay within the upload reservation |
| `Compression.DecodeArtifact` | src/cache/restore.ts:373-409 | yields exactly the artifact the decoded stream stands for; its live bytes exceed what was there by no more than the decode bound, also when the extraction fails halfway, by the octets it had written |
| `Compression.RoundTrip` | src/cache/compression.ts:83-109 | keeps a payload exactly if the codec output decodes and extracts to an acceptable artifact of the same integrity, and what it adds to the logical stream is bounded |
| `Compression.KeptIffSmaller` | src/cache/compression.ts:111-135 | a payload that survives is kept exactly if with its manifest it takes strictly less than the artifact with its own |
| `Compression.PrepareCompressedEntry` | src/cache/compression.ts:30-146 | the work starts exactly with a codec, an acceptable copy, a capacity, and free space that is unknown or at least the upload requirement; then live staging bytes never exceed the upload reservation, nor known free space, while the copy keeps its size and file count until it is encoded; only a payload is left behind; the result is compressed exactly if a second inspection finds the copy unchanged and the payload survives the round trip and is strictly smaller with its metadata |
| `Compression.KeptPayloadRestores` | src/cache/compression.ts:94-134 | a kept payload is described correctly and restores, with the same codec, to the very copy that was inspected first, whatever was read in between |
| `Access.TouchExtends` | src/cache/access.ts:152-159 | a touch leaves a full lease from now, never shortens a readable one, and leaves nothing longer than either |
| `Access.AccessFile.Renewed` | src/cache/access.ts:122-173 | the record to write is made from what is there when it is read |
| `Access.AccessFile.Replace` | src/cache/access.ts:174-190 | the rename puts the record in place whatever is there by then |
| `Access.AccessFile.Read` | src/cache/access.ts:89-105 | fails exactly on something that is there but is no record |
| `Access.AccessFile.Touch` | src/cache/access.ts:122-190 | with nothing in between, replaces the record by the merged one, or leaves it exactly where it cannot |
| `Access.AccessFile.Remove` | src/cache/access.ts:192-209 | deletes the record, or leaves it exactly where it cannot |
| `Entries.MatchesManifest` | src/cache/validation.ts:73-89 | holds exactly if the artifact in place is acceptable there and is the one the manifest names |
| `Entries.ValidateEntry` | src/cache/validation.ts:18-99 | valid exactly if the files can be read, the manifest names this slot, and payload or artifact are what it names; a failed read looks like an invalid entry |
| `Entries.ManifestNamesOneArtifact` | src/cache/validation.ts:73-91 | one manifest cannot be matched by two artifacts |
| `Entries.ValidEntryInTerms` | src/cache/validation.ts:18-99 | a valid entry in full: identity, ids, algorithm, sizes, and payload or artifact |
| `Slot.SlotDirs.QuarantineEntry` | src/cache/store.ts:88-142 | entry and restore both leave, or both stay; exactly which faults fail it; nothing is lost even if the undo fails |
| `Slot.SlotDirs.ReplaceEntry` | src/cache/store.ts:479-544 | whichever rename fails, old entry and old restore are both back, or the staged entry is in place and no restore of a replaced entry is; if only a tombstone cannot be removed the entry is in place, the call fails, and exactly what was not removed stays in the trash |
| `Slot.SlotDirs.ReplaceByImport` | src/lan/import.ts:485-548 | the same for the nested undo of an import |
| `Slot.SlotDirs.PublishNew` | src/lan/import.ts:551-555 | one rename: published, or everything as it was |
| `Slot.SlotDirs.RemoveEntry` | src/cache/cleanup.ts:476-522 | entry and restore both go to the trash, or the entry is back |
| `Slot.SlotDirs.RemoveRestore` | src/cache/restore.ts:254-271 | the restore goes, or stays where the rename fails |
| `Slot.SlotDirs.RemoveInvalidEntry` | src/cache/cleanup.ts:347-357 | the entry goes and its restore stays where it is |
| `Store.ServedInTerms` | src/cache/restore.ts:59-84 | a restore serves exactly if its record names this entry, this payload and this artifact, and its artifact is the one |
| `Store.CacheStore.Materialize` | src/cache/restore.ts:273-473 | restores exactly if a valid readable restore is in place or one can be made; answers invalid exactly if the capacity cannot be computed, the codec calls the payload malformed, or what it decodes to is not the artifact; lets the entry be replaced exactly for want of a codec; the result is what the manifest names; staging stays within the restore reservation and known free space |
| `Store.CacheStore.Resolve` | src/cache/store.ts:175-271 | hits exactly on an entry found valid whose artifact is at hand, with the artifact the manifest names; quarantines an entry found invalid, and a valid one exactly if restoring it shows that the entry is to blame; any other failure leaves entry and record alone, and names the payload exactly for want of a codec |
| `Store.CacheStore.MakeWay` | src/cache/store.ts:336-371 | keeps an entry found valid unless its payload digest was named, quarantines any other |
| `Store.CacheStore.StageUpload` | src/cache/store.ts:383-477 | builds an entry exactly for a source that can be inspected and validated in staging; it attests its source |
| `Store.CacheStore.PublishStaged` | src/cache/store.ts:479-552 | exactly which faults refuse the publication, and which leave it in place and fail the call; refused leaves the slot as it was if the undo works |
| `Store.CacheStore.Upload` | src/cache/store.ts:335-561 | publishes exactly a stageable source into a slot that gives way: the kept payload with its metadata if there is one and no replacement was asked for, otherwise the source itself; a readable valid entry gives way only to a schema 1 entry and only if its payload was named; if a tombstone cannot be removed the entry is published but the call fails and the access record is untouched |
| `Store.CacheStore.ImportIsNeedless` | src/lan/import.ts:370-385 | the first look finds exactly a readable valid entry that does not give way |
| `Store.CacheStore.Import` | src/lan/import.ts:422-558 | publishes exactly a staged entry that validates into a slot that gives way; a readable valid entry survives a failed import |
| `Store.CacheStore.PruneEntry` | src/cache/cleanup.ts:440-536 | removes exactly an entry whose readable access record still allows it, with its restore; otherwise nothing changes |
| `Store.CacheStore.PruneRestore` | src/cache/cleanup.ts:300-372 | removes exactly a restore whose access record is absent or expired |
| `Store.CacheStore.PruneInvalidEntry` | src/cache/cleanup.ts:300-372 | removes exactly an entry whose access record is absent or expired, without validating it again |
| `StoreRuns.EveryManifestIsCommitted` | src/cache/store.ts:464-512 | in a slot that started empty, a manifest in place was committed by some earlier publication |
| `StoreRuns.HitFidelity` | src/cache/store.ts:190-262 | in every run with arbitrary damage and any codec, a hit returns the artifact named by the committed manifest: the uploaded source, or what the import unpacked |
| `StoreRuns.LeaseIsKept` | src/cache/cleanup.ts:427-502 | only damage to the record, or a touch that wrote over it what it had read before the lease, ends a lease, and no prune step takes anything under it |
| `StoreRuns.LeaseSafety` | src/cache/cleanup.ts:322-337 | in every run with a clock that never goes back and a readable record, no prune changes a slot within fifteen minutes of a hit, upload or import, unless an unlocked touch reads the record no later than that step and writes it after |
| `StoreRuns.AccessSavesFromPlan` | src/cache/cleanup.ts:322-337 | in every run with a readable record, an entry accessed after a plan was made is not removed by that plan, nor one accessed within the retention period as expired |
| `StoreRuns.RemovalIffUnused` | src/cache/cleanup.ts:322-337 | a removal goes through exactly if nothing accessed the entry after the plan, no lease is left, and an expired one is still past its retention |
| `StoreRuns.UnreadableRecordProtectsNothing` | src/cache/cleanup.ts:468-474 | a run in which an unreadable record lets a leased entry be removed at once |
| `StoreRuns.StaleTouchEndsLease` | src/lan/import.ts:556-567 | a run in which the touch of an import reads before a hit and writes after it, so that a prune removes the leased entry, possible exactly from the end of the older lease on |
| `StoreRuns.Serve` | src/cache/store.ts:175-561 | any calls of one store object, with import touches read and written in between, make a run, so what is proved of runs holds of the object |
| `StoreRuns.ReplacementNamesPayload` | src/cache/store.ts:344-359 | a valid entry whose files could be read is followed by another only when its payload digest was named, and then by a schema 1 entry |
| `StoreRuns.UnnamedReplacementIffUnreadable` | src/cache/validation.ts:92-98 | an import can replace a valid entry whose payload was not named exactly if a file of the entry could not be read |
| `StoreRuns.AtMostOneChange` | src/lan/import.ts:360-366 | between two times a slot is empty or invalid its entry changes at most once, as long as its files can be read |
| `StoreRuns.PublishedSlotIsClean` | src/cache/store.ts:479-496 | a publication leaves no older restore exactly when it replaced an entry or found no restore |
| `StoreRuns.PruningInvalidEntryOrphansRestore` | src/cache/cleanup.ts:347-357 | a run from an empty slot: a compressed entry is published, materialized and damaged, a prune removes it as invalid, and another entry is published beside its restore |
| `Restoring.KeptIsServable` | src/cache/compression.ts:83-134 | a kept payload, published as an entry, can be served wherever the same codec runs and there is room |
| `Restoring.UploadThenResolve` | src/cache/store.ts:175-262 | on the store: after an upload of a kept payload into an empty slot, a lookup with the codec and room returns the very artifact that was uploaded |
| `Restoring.ReplaceWithoutCodec` | src/cache/store.ts:222-233 | on the store: where the codec is gone, a lookup names the payload, an upload that names it publishes the artifact uncompressed exactly if it can be staged, and the next lookup returns it |
| `Lock.StepKeepsOwners` | src/cache/lock.ts:176-231 | exactly the late renames, those that hit a directory its maker has not finished with, disturb an owner; no other step does |
| `Lock.ExclusionWithoutCrashes` | src/cache/lock.ts:69-87 | while nobody exits and owners write in time, at most one process holds the lock at single file operations, removals hit only the own directory, and no lock is broken |
| `Lock.ExclusionWithCrashes` | src/cache/lock.ts:146-161 | with crashes at any point the same holds if the stale test and the rename are one step |
| `Lock.ReleaseFrees` | src/cache/lock.ts:224-231 | over all runs with timely owners in which nobody exits, or test and rename are one step, each step of a release gets on and the last leaves no directory |
| `Lock.ReleaseHandsOver` | src/cache/lock.ts:224-231 | a holder that releases leaves no directory and is done, and another process then acquires the lock |
| `Lock.ForeignRecordStays` | src/cache/lock.ts:225-228 | a holder whose directory carries another token, or none, leaves it alone |
| `Lock.FailedWriteFrees` | src/cache/lock.ts:186-195 | a process that cannot write its record takes its directory away |
| `Lock.TakesOverIffStale` | src/cache/lock.ts:69-87 | a lock that is found is broken and taken over exactly if its recorded process is gone, or it has no record and is older than the stale age; otherwise it stays |
| `Lock.SeparateRenameBreaksExclusion` | src/cache/lock.ts:204-205 | with crashes and separate steps two live processes can hold the lock |
| `Lock.LateOwnerBreaksExclusion` | src/cache/lock.ts:179-191 | an owner record written past the stale age lets two live processes hold the lock |
| `Prune.Planner.Select` | src/cache/cleanup.ts:60-74 | takes the next of the queue exactly if it is not protected |
| `Prune.Planner.SelectExpired` | src/cache/cleanup.ts:76-83 | selects exactly the expired prefix of the queue |
| `Prune.Planner.SelectForCount` | src/cache/cleanup.ts:90-97 | extends the prefix until the count limit is met, and no further |
| `Prune.Planner.SelectForSize` | src/cache/cleanup.ts:99-106 | extends the prefix until the byte limit is met, and no further |
| `Prune.PhasesAreShortest` | src/cache/cleanup.ts:76-106 | the three stopping points together are the shortest sufficient prefix |
| `Prune.ShortestIsUnique` | src/cache/cleanup.ts:76-106 | there is one such prefix |
| `Prune.PlanPrune` | src/cache/cleanup.ts:39-109 | exactly the shortest sufficient prefix of the unprotected entries in least-recently-used order, each with its reason; in terms of the inputs: nothing protected or leased goes, everything expired goes, nothing goes before an older entry, what stays is within both limits, and each reason holds |
| `Prune.PlanIgnoresListing` | src/cache/cleanup.ts:78-88 | the plan does not depend on the order in which entries were listed |
| `Wire.HeaderIffPrinted` | src/lan/wire.ts:73-118 | a header text is accepted, as this header, if and only if it is the printed form of a valid one |
| `Wire.InspectIffPrinted` | src/lan/wire.ts:291-412 | a package is accepted, as these sections, if and only if it is the printed form of a consistent header, manifest and body |
| `Wire.InspectedBodyIsNamed` | src/lan/wire.ts:190-229 | an inspected package is of the expected slot, and its body is the payload, package or bounded archive its manifest names |
| `Wire.ReadExactly` | src/lan/wire.ts:231-251 | returns exactly the range, or fails exactly if the file ends before it |
| `Wire.HashFileSection` | src/lan/wire.ts:253-289 | the digest of exactly the range |
| `Wire.WriteAll` | src/lan/wire.ts:423-435 | appends exactly the bytes |
| `Wire.CopyFileSection` | src/lan/wire.ts:437-467 | appends exactly the range |
| `Wire.InspectWirePackage` | src/lan/wire.ts:291-412 | decides the package specification with positioned reads |
| `Transfer.ExportBody` | src/lan/export.ts:175-194 | the payload, the package, or the archive of the bundle |
| `Transfer.CreateWirePackage` | src/lan/export.ts:113-285 | succeeds exactly for a readable valid entry with an exact manifest, a body and a header that can be written, and the package then inspects to this manifest and body |
| `Transfer.BodyMaps` | src/lan/wire.ts:190-229 | the exported body of a valid entry always passes the mapping checks |
| `Transfer.CopyWireBody` | src/lan/import.ts:70-160 | copies out exactly the inspected body |
| `Transfer.UnpackWirePackage` | src/lan/import.ts:387-420 | unpacks exactly what the package specification says |
| `Transfer.ImportWirePackage` | src/lan/import.ts:296-582 | publishes exactly the unpacked files, and changes nothing if the package is refused |
| `Transfer.ExportThenImport` | src/lan/import.ts:387-440 | whatever was exported unpacks to the same manifest bytes and the same artifact or payload, valid in staging and in place |
| `Transfer.ExportAndImport` | src/lan/export.ts:174-275 | after a successful export an import into an empty slot publishes unless a rename or a read of the staged files fails, and then exactly the exported manifest and contents, as a valid entry |
| `ReplayGuard.PurgeRepresents` | src/lan/auth.ts:157-166 | the purged map of maps stands for the live part of one plain table |
| `ReplayGuard.NonceReplayGuard.Consume` | src/lan/auth.ts:156-184 | accepts exactly a nonce the plain table of live nonces does not hold and has room for, and remembers exactly that |
| `ReplayGuard.NonceReplayGuard.Revoke` | src/lan/auth.ts:186-188 | forgets exactly one client |
| `ReplayGuard.ConsumeKeepsBounds` | src/lan/auth.ts:168-181 | neither the number of clients nor any client's number of nonces passes its limit |
| `ReplayGuard.RevokeKeepsBounds` | src/lan/auth.ts:186-188 | revoking keeps both limits |
| `ReplayGuard.ConsumeInTerms` | src/lan/auth.ts:156-183 | a nonce is accepted exactly if it is not remembered, its client has room and is known or one more is admitted; then it is remembered until its time is over, and of the rest exactly what has not expired |
| `ReplayGuard.RevokeInTerms` | src/lan/auth.ts:185-188 | a revoked client is forgotten, and nobody else |
| `LanAuth.CanonicalIsInjective` | src/lan/auth.ts:76-107 | no two requests share a canonical text |
| `LanAuth.TimestampInTerms` | src/lan/auth.ts:88-91 | a timestamp is accepted exactly if it is the decimal text of a number below 10^13 |
| `LanAuth.SignableInTerms` | src/lan/auth.ts:26-74 | a request can be signed exactly if its parts have these characters, lengths and ranges |
| `LanAuth.SignedVerifies` | src/lan/auth.ts:115-142 | what was signed verifies with the same secret exactly within the skew of its timestamp |
| `LanAuth.VerifyAuthHeaders` | src/lan/auth.ts:191-238 | accepts exactly a well-formed, correctly signed request inside the clock window that the guard admits, and asks the guard only then |
| `LanAuth.NoReplay` | src/lan/auth.ts:156-238 | over whole runs, two successes never share client, nonce and timestamp while the nonce outlives its window and the client is not revoked between |
| `LanAuth.SignatureWorksOnce` | src/lan/auth.ts:221-237 | with a collision-free keyed hash a recorded signature never works twice |
| `LanAuth.ReplayFreeIffOutlives` | src/lan/auth.ts:213-215 | runs are replay-free exactly if the nonce lifetime is at least twice the skew plus one second |
| `LanAuth.DefaultsOutlive` | src/lan/auth.ts:151-153 | the default settings satisfy it |
| `Coordinator.ServerCoordinator.Pair` | src/lan/coordinator.ts:76-161 | succeeds exactly inside the window for the reserved client with a capability that decodes to the expected 32 octets, and the reply is what was stored |
| `Coordinator.ServerCoordinator.Authenticate` | src/lan/coordinator.ts:163-213 | succeeds exactly for an active client, or a pending one on the acknowledgement route, whose request verifies, and grants read and write exactly as stored |
| `Coordinator.ServerCoordinator.AcknowledgePairing` | src/lan/coordinator.ts:215-248 | succeeds exactly for the reserved pending client with its stored id before expiry; then that client is active without its pairing id, otherwise as it was, every other client is unchanged, and the window is consumed |
| `Coordinator.ServerCoordinator.DiscardPendingPairing` | src/lan/coordinator.ts:250-264 | removes exactly the reserved pending client and frees the reservation |
| `PairingRuns.OneActivation` | src/lan/coordinator.ts:215-248 | after one acknowledgement nothing is acknowledged or paired again and no pending client gets in |
| `PairingRuns.PendingOnlyAcknowledges` | src/lan/coordinator.ts:168-186 | a pending client gets in only to acknowledge, while it holds the window, before expiry |
| `PairingRuns.AckNeedsHandedOutId` | src/lan/coordinator.ts:231-238 | an acknowledgement succeeds only for the reserved client before expiry; its id was handed out in this run exactly if the reservation was saved |
| `PairingRuns.OnlyHandedOutActivates` | src/lan/coordinator.ts:215-248 | if every admitted pairing is saved, only handed-out ids activate |
| `PairingRuns.UnsavedPairingCanActivate` | src/lan/coordinator.ts:90-98 | otherwise an id of an earlier server can |
| `PairingRuns.PairingInTerms` | src/lan/coordinator.ts:76-90 | a pairing is admitted exactly inside the window for a well-formed client id and a capability that decodes to the expected 32 octets, while no other client holds the window |
| `PairingRuns.AcknowledgementInTerms` | src/lan/coordinator.ts:215-248 | an acknowledgement succeeds exactly inside the window for the reserved client, pending with this id for less than five minutes, if a list of at most 128 well-formed clients can be written |
| `PairingRuns.PendingAuthenticatesInTerms` | src/lan/coordinator.ts:163-213 | the exact conditions under which a pending client authenticates |
| `PairingRuns.PairedThenActive` | src/lan/coordinator.ts:76-248 | a new pairing is acknowledged exactly before expiry and within five minutes, and the client is then active with its secret, may read, and may write exactly if the window allows it |
| `PairingRuns.PairingKeepsOthers` | src/lan/coordinator.ts:97-103 | a pairing keeps every other client but those left pending for five minutes or more |
| `PairingRuns.AcknowledgedAuthenticates` | src/lan/coordinator.ts:163-213 | from its acknowledgement on a client authenticates with exactly the signed, timely requests the guard admits, on any route |
| `PairingRuns.RetryIsIdempotent` | src/lan/coordinator.ts:106-127 | a retry within five minutes gets the same id, secret and capabilities, a later one new ones |
| `PairingRuns.DiscardUndoesPairing` | src/lan/coordinator.ts:250-264 | discarding after a pairing takes out exactly the paired client and frees the window |
| `PairingRuns.DiscardKeepsOthers` | src/lan/coordinator.ts:250-264 | a discard takes out at most the reserved client, pending with the reserved id |
| `PairingRuns.AtMost128Clients` | src/lan/state.ts:268-275 | over whole runs the stored list never grows beyond 128 clients |
| `PairingRuns.ActiveGainsAtMostOne` | src/lan/coordinator.ts:239-242 | over a whole run the active set gains at most the acknowledged client |
| `PairingRuns.ActiveGainsTheAcknowledged` | src/lan/coordinator.ts:239-242 | from an acknowledgement on the active set is what it was before and the acknowledged client |
| `PairingRuns.ActiveStaysUnlessPaired` | src/lan/coordinator.ts:90-142 | an active client stays as it is for as long as it is not paired again |
| `PairingRuns.RequestAuthenticatesOnce` | src/lan/coordinator.ts:187-205 | while the clock never goes back the server never accepts one request twice |
| `CanonicalJson.CanonicalIsPrintedNormal` | src/cache/environment-key.ts:83-87 | canonical text is the plain text of the value with its keys sorted at every depth |
| `CanonicalJson.ParsePrinted` | src/cache/environment-key.ts:63-88 | a parser inverts the printer, whatever follows the value |
| `CanonicalJson.ParseCanonical` | src/cache/environment-key.ts:63-88 | the parser recovers a value from its canonical text up to key order |
| `CanonicalJson.CanonicalIffSame` | src/cache/environment-key.ts:63-88 | canonical text is equal exactly for values equal up to the order of object keys |
| `EnvironmentKey.OffIsApart` | src/cache/environment-key.ts:96-112 | off-mode payloads never agree with safe or strict ones |
| `EnvironmentKey.PayloadTextIffSameEnvironment` | src/cache/environment-key.ts:90-113 | two inputs serialize alike exactly if they agree on everything an identity depends on |
| `EnvironmentKey.FingerprintIffSameEnvironment` | src/cache/environment-key.ts:115-142 | a shared effective fingerprint means a shared environment and the other way round, for any two inputs of one key schema, and across key schemas unless a base hash in use as a fingerprint is the prefix and 64 hexadecimal digits; the hash need not collide on the two payloads |
| `EnvironmentKey.DerivedFingerprintIsAlsoABase` | src/cache/environment-key.ts:121-137 | the failing family: for any input with a derived fingerprint, whatever the hash, the off-mode input with that fingerprint as its base hash is valid, another environment, and has the same fingerprint |
| `EnvironmentKey.CollidesIffLooksDerived` | src/cache/environment-key.ts:121-137 | the guard is exact: an off-mode input without a digest can share its fingerprint with another environment if and only if its base hash is the prefix and 64 hexadecimal digits |
| `EnvironmentKey.IdentityIffSameEnvironment` | src/cache/environment-key.ts:115-142 | whole identities are equal exactly for the same environment, in any case |
| `EnvironmentKey.IdentityTells` | src/cache/environment-key.ts:115-142 | an identity exists exactly for a bounded base hash without control characters and a well-formed digest, and keeps base hash, mode and digest; its schema and fingerprint by case |
| `InsightSources.SourceKeyIsInjective` | src/cache/insight/diff.ts:20-21 | a source key determines kind, comparator and occurrence |
| `InsightSources.SanitizeFingerprintSources` | src/cache/insight/sources.ts:183-235 | succeeds exactly on readable lists within the limit, keeps every source, and numbers like sources in order |
| `InsightSources.HasSequentialSourceOccurrences` | src/cache/insight/schema.ts:247-260 | accepts exactly lists numbered that way |
| `InsightSources.SequentialKeysAreUnique` | src/cache/insight/sources.ts:215-217 | numbered lists have unique keys |
| `InsightDiff.PrimaryIsMostSpecific` | src/cache/insight/diff.ts:23-34 | the most specific category either side has, whichever side is called before |
| `InsightDiff.DiffInsights` | src/cache/insight/diff.ts:36-100 | lists removals and changes in order, then additions, with their counts and groups |
| `InsightDiff.CountsAreKeys` | src/cache/insight/diff.ts:48-90 | the counts are the numbers of keys that came, went, and changed their digest |
| `InsightDiff.TotalZeroIffSame` | src/cache/insight/diff.ts:92-98 | the total is zero exactly if both lists give every key the same digest |
| `InsightDiff.SwapIsSymmetric` | src/cache/insight/diff.ts:48-90 | swapping the lists swaps added and removed and keeps the rest |
| `InsightDiff.TriangleInequality` | src/cache/insight/diff.ts:92-98 | going through a third list never shortens the distance |
| `InsightDiff.TotalOfNumbered` | src/cache/insight/diff.ts:36-100 | on numbered lists the total is the number of keys whose digests disagree, in either direction |
| `InsightDiff.ItemsLeadToAfter` | src/cache/insight/diff.ts:40-104 | taking the earlier sides of the items out of the earlier sources and putting the later sides in gives the keys and digests of the later list |
| `InsightDiff.ItemsShowDifferences` | src/cache/insight/diff.ts:40-104 | each item shows the two sides of one key that differs, with its operation and category |
| `InsightDiff.GroupsSumToTotal` | src/cache/insight/diff.ts:77-87 | groups carry exact positive counts that add up to the total, largest first |
| `Spelling.AuthTextSpelled` | src/lan/auth.ts:76-107 | the signed text, field by field with newlines between |
| `Spelling.TokensSpelled` | src/lan/auth.ts:27 | the characters of ids, nonces and secrets |
| `Spelling.SecretsSpelled` | src/lan/auth.ts:65-74 | a secret is 43 of them of which the last carries four bits |
| `Spelling.AlphabetSpelled` | src/lan/auth.ts:65-74 | the base64url value of each character |
| `Spelling.FileSpelled` | src/cache/integrity.ts:139-150 | what a file contributes to the tree digest: its JSON frame, a NUL, its content, a NUL |
| `Spelling.DirectorySpelled` | src/cache/integrity.ts:139-150 | the same for a directory |
| `Spelling.LinkSpelled` | src/cache/integrity.ts:279-296 | the same for a link |
| `Spelling.HeaderIsSpelled` | src/lan/wire.ts:414-421 | the wire header as JSON text, key by key |
| `Spelling.HeadersInTerms` | src/lan/wire.ts:414-421 | a header can be written exactly if its ids and digests are hexadecimal and its sizes in range: it is never too long |
| `Spelling.PackageSpelled` | src/lan/wire.ts:8-12 | "ELCWIRE1", the length of the header in four octets, header, manifest, body |
| `Spelling.PayloadSpelled` | src/cache/environment-key.ts:101-112 | the hashed environment text: seven properties in code-unit order |
| `Spelling.OffPayloadSpelled` | src/cache/environment-key.ts:96-100 | the same for mode off: three properties |
| `Spelling.ObjectSpelled` | src/cache/environment-key.ts:83-87 | an object is written in braces with its keys in code-unit order, whatever order they had |
| `Spelling.ArraySpelled` | src/cache/environment-key.ts:75-77 | an array in brackets |
| `Spelling.LeavesSpelled` | src/cache/environment-key.ts:63-74 | null, booleans and integers |
| `Spelling.EscapesSpelled` | src/cache/environment-key.ts:67-69 | the escapes of quoted text |
| `Spelling.SourceKeySpelled` | src/cache/insight/sources.ts:209-216 | kind, comparator and number with NULs between, and what the comparator hashes |
| `Spelling.WordsSpelled` | src/cache/paths.ts:62-65 | the words that name platforms, files and kinds of body |
| `Spelling.LimitsSpelled` | src/cache/app-tree.ts:10-17 | the limits as numbers |

## Left out

- Sockets, TLS, HTTP routing, mDNS, certificates and the transport client and server: authenticated requests enter the model as
  operations of the coordinator.
- zstd, streams, timers and child processes: a codec is any function with bounded output; the classification of its failures
  (src/cache/restore.ts:114-252) is an arbitrary choice between unavailable, for want of the tool or not, and invalid.
- Deadlines in the archive, integrity and wire code: an abort at any point is one of the failing operations.
- Files that change while they are inspected, encoded or exported: each of these operations sees one tree. The comparison of an
  export with a second reading (src/lan/export.ts:198-214) is therefore not modelled.
- Text decoding: the shortest-form UTF-8 and NFC tests and alias keys are functions of the host; link targets and names that
  are not UTF-8, which Node decodes with replacement characters before hashing, are outside the model.
- Names that compare equal in the locale order although they differ: `localeCompare` is taken to be a strict total order.
- `JSON.parse` of manifests, access records, restore records and the stored list of clients: parsed values, or their absence,
  are the model's data. A wire manifest with the exact shape but malformed fields is refused by inspection here, by the staged
  validation there; neither changes a slot.
- Numbers in environment values other than integers, whose shortest decimal form JSON prints.
- The rounded products in the reservations (1 and 5 per cent) are arbitrary functions; `calculatePathSize` is the size of all
  file contents and link targets, given to the upload.
- Partial output of a failed extraction or encoding is counted as live bytes, not kept as contents.
- The stored list of authorized clients is a map by client id: its order is not modelled.
- Legacy entries (src/cache/store.ts:273-297), insights stored beside an entry, telemetry, CLI, logging, doctor and toolchain
  discovery.
- The choice of auxiliary data to prune and byte accounting (src/cache/cleanup-auxiliary.ts, src/cache/catalog.ts): runs allow
  any choice; only the locked removals are modelled.
- `copyArtifact` and `validateSourceArtifact`: an upload starts from the copied source.
- Reading raw fingerprint sources, reason categories and display paths: a raw source is what the reader made of it.
- Ranking of insight candidates and the environment diff (src/cache/insight/diff.ts:106-277).
- Locks of other hosts, whose staleness is decided by age alone: all processes of the lock model are on one host.
- Transfer locks and the lock waits of resolve and import: operations on a slot take turns.

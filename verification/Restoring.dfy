/** From a compressed upload back to its artifact: whoever has the codec and the room is served what was uploaded, and where
    the codec is gone an uncompressed upload takes the slot. */
module Restoring {
  import opened Options
  import opened Bytes
  import opened PathText
  import opened FileTree
  import opened AppTreeFormat
  import opened AppTreeLaws
  import opened Platforms
  import opened Integrity
  import opened Capacity
  import opened Compression
  import opened Entries
  import opened Access
  import opened Store
  import Slot
  import Transfer

  /** How a payload came about, apart from the copy it was made of. */
  datatype Origin = Origin(apparent: nat, insightBytes: nat, sizes: ManifestSizes, capacity: Capacity, codec: Codec, at: Places)

  /** The preparation is a payload that was kept, and `i` the integrity of what was inspected first. */
  ghost predicate KeptFrom(prepared: Preparation, copy: Snapshots, i: Integrity, from: Origin, c: Context)
  {
    && prepared.Compressed? && Stored(copy.first) && PlatformOf(copy.first) == c.identity.platform
    && from.apparent == ApparentBytes(copy.first)
    && Snapshotted(i, copy.first, c.identity.platform, from.apparent, from.capacity, c.site.world)
    && Decided(prepared, copy, i, c.identity.platform, from.apparent, from.insightBytes, from.sizes, from.capacity, from.codec,
               from.at, c.site.world)
  }

  /** The same codec, free space unknown or sufficient, and nothing that fails. */
  ghost predicate Unhindered(env: Environment, m: Manifest, codec: Codec, c: Context)
  {
    && env.codec == Some(codec) && !env.storageFails && !env.interrupted && !env.publishFails
    && (env.freeBytes.Some? && CapacityFor(m, c).Some? ==> CapacityFor(m, c).value.restoreRequiredBytes <= env.freeBytes.value)
  }

  /** An artifact that came out of a decoder and was acceptable there is acceptable anywhere, in its own shape. */
  lemma DecodedIsAcceptable(a: Artifact, i: Integrity, stream: seq<Byte>, platform: Platform, bound: nat, at: seq<Segment>,
                            there: seq<Segment>, world: World)
    requires ArtifactOf(stream, platform, ShapeOf(i), bound, world.host) == Some(a)
    requires Attests(i, a, world.inspector) && Acceptable(a, at, None, world.inspector)
    ensures Acceptable(a, there, Some(ShapeOf(i)), world.inspector)
  {
    hide ExtractedTree, IsIntegrityOf, Encoded, Rooted, PointsInside, TreeBytes, TreeFiles;
    match a
    case Apk(data) =>
    case App(t) =>
      var decl := Declaration(i.sizeBytes, i.fileCount, Some(bound));
      ExtractThenEncode(stream, decl, world.host);
      DeclaredFiles(stream, decl, world.host);
      TreeAlgorithm(i, t, world.inspector);
      Transfer.AcceptableElsewhere(t, at, there, None, world.inspector, world.host);
  }

  lemma DeclaredFiles(stream: seq<Byte>, decl: Declaration, host: Host)
    requires ExtractedTree(stream, decl, host).Some?
    ensures decl.fileCount >= 1
  {
    hide ParseFrom, Sum, ToTree;
  }

  /** A kept payload, published as an entry, can be served wherever the codec runs. */
  lemma KeptIsServable(prepared: Preparation, copy: Snapshots, i: Integrity, from: Origin, s: SlotState, env: Environment,
                       c: Context)
    requires CollisionFree(c.site.world.inspector.hash) && StrictTotal(c.site.world.inspector.before)
    requires KeptFrom(prepared, copy, i, from, c)
    requires s.entry == Some(EntryFor(copy.first, i, prepared, false, c)) && s.restore.None?
    requires Unhindered(env, s.entry.value.manifest.value, from.codec, c)
    ensures Servable(s, env, c)
  {
    hide CollisionFree, StrictTotal, Attests, Acceptable, ArtifactOf, GetCompressionCapacity, Stored, ApparentBytes, Unchanged;
    var m, platform := s.entry.value.manifest.value, c.identity.platform;
    AttestedSizes(i, copy.first, c.site.world.inspector);
    SmallerCopyFits(platform, i.sizeBytes, from.apparent, i.sizeBytes, i.fileCount, c.site.world.rounding);
    KeptPayloadRestores(prepared, copy, i, platform, from.apparent, from.insightBytes, from.sizes, from.capacity, from.codec,
                        from.at, c.site.world);
    var stream := from.codec.decode(prepared.payload, from.capacity.archiveBound).output;
    KeptWasAcceptable(prepared, copy, i, from, c);
    DecodedIsAcceptable(copy.first, i, stream, platform, from.capacity.archiveBound, from.at.decoded,
                        c.site.restoreStagingAt + [ArtifactName(platform)], c.site.world);
  }

  /** What was decoded while the payload was made was acceptable where it was put. */
  lemma KeptWasAcceptable(prepared: Preparation, copy: Snapshots, i: Integrity, from: Origin, c: Context)
    requires CollisionFree(c.site.world.inspector.hash) && StrictTotal(c.site.world.inspector.before)
    requires KeptFrom(prepared, copy, i, from, c)
    ensures Acceptable(copy.first, from.at.decoded, None, c.site.world.inspector)
    ensures from.codec.decode(prepared.payload, from.capacity.archiveBound).ok
  {
    hide CollisionFree, StrictTotal, Attests, Acceptable, ArtifactOf, GetCompressionCapacity, Stored, ApparentBytes, Unchanged;
    KeptPayloadRestores(prepared, copy, i, c.identity.platform, from.apparent, from.insightBytes, from.sizes, from.capacity,
                        from.codec, from.at, c.site.world);
  }

  // ---- On the store ----

  /** A compressed entry is valid in one directory exactly if it is in another. */
  lemma PayloadIsValidAnywhere(e: Entry, dir: seq<Segment>, there: seq<Segment>, c: Context)
    requires ValidEntry(e, c.identity, c.id, dir, c.site) && e.manifest.value.payload.Some?
    ensures ValidEntry(e, c.identity, c.id, there, c.site)
  {
    hide HoldsArtifact, WellFormedManifest, HoldsPayload;
  }

  lemma HitIs(s: SlotState, t: SlotState, o: ResolveOutcome, seen: Access, nowMs: int, writable: bool, source: Artifact,
              c: Context)
    requires CollisionFree(c.site.world.inspector.hash) && StrictTotal(c.site.world.inspector.before)
    requires ResolveStep(s, t, o, seen, nowMs, writable, c) && o.Hit?
    requires s.entry.Some? && MadeFrom(s.entry.value, source, c)
    ensures o == Hit(source)
  {
    hide CollisionFree, StrictTotal, Attests, ValidEntry;
    AttestedIsUnique(s.entry.value.manifest.value.artifact, o.artifact, source, c.site.world.inspector);
  }

  /** A kept payload that an upload publishes into an empty slot is what every later lookup with the codec and room returns:
      the very artifact that was uploaded. */
  method UploadThenResolve(store: CacheStore, prepared: Preparation, copy: Snapshots, sourceAt: seq<Segment>, ghost from: Origin,
                           ghost i: Integrity, readable: Readable, quarantine: Slot.Faults, f: Slot.Faults, env: Environment,
                           nowMs: int, writable: bool)
    returns (o: PublishOutcome, found: ResolveOutcome)
    requires store.Valid() && store.dirs.entry.None? && store.dirs.restore.None?
    requires CollisionFree(store.c.site.world.inspector.hash) && KeptFrom(prepared, copy, i, from, store.c)
    requires Bounded(from.codec) && !env.undecodable.Restored? && env.codec == Some(from.codec)
    modifies store.dirs, store.accessFile
    ensures (o.Published? && env.entryReadable
             && Unhindered(env, EntryFor(copy.first, i, prepared, false, store.c).manifest.value, from.codec, store.c)) ==>
      found == Hit(copy.first)
  {
    hide CollisionFree, StrictTotal, KeptFrom, Stored, ValidEntry, Attests, Bounded, Unhindered, Servable, MadeFrom, Stageable;
    hide EntryFor, EntryIsBlamed, CodecIsMissed;
    ghost var c := store.c;
    KeptIsStored(prepared, copy, i, from, c);
    ghost var attested;
    o, attested := store.Upload(copy.first, sourceAt, prepared, None, readable, quarantine, f, nowMs, writable);
    ghost var s := store.View();
    EntryForIs(copy.first, i, prepared, false, c);
    found := store.Resolve(env, nowMs, false);
    ghost var m := EntryFor(copy.first, i, prepared, false, c).manifest.value;
    if o.Published? && env.entryReadable && Unhindered(env, m, from.codec, c) {
      UploadedIsKept(s, prepared, copy, i, attested, c);
      KeptIsServable(prepared, copy, i, from, s, env, c);
      HitIs(s, store.View(), found, s.access, nowMs, env.writable, copy.first, c);
    }
  }

  lemma KeptIsStored(prepared: Preparation, copy: Snapshots, i: Integrity, from: Origin, c: Context)
    requires KeptFrom(prepared, copy, i, from, c)
    ensures Stored(copy.first) && Attests(i, copy.first, c.site.world.inspector) && prepared.Compressed?
  {
    hide Attests, Stored, Decided, ApparentBytes;
  }

  /** What an upload of a kept payload published. */
  lemma UploadedIsKept(s: SlotState, prepared: Preparation, copy: Snapshots, i: Integrity, attested: Integrity, c: Context)
    requires StrictTotal(c.site.world.inspector.before) && Attests(i, copy.first, c.site.world.inspector)
    requires prepared.Compressed? && s.entry == Some(EntryFor(copy.first, attested, prepared, false, c))
    requires Fresh(s.entry.value, c) && MadeFrom(s.entry.value, copy.first, c)
    requires s.entry.value.manifest.value.artifact == attested
    ensures attested == i && ValidNow(s, c)
  {
    hide StrictTotal, Attests, ValidEntry;
    AttestationIsUnique(i, attested, copy.first, c.site.world.inspector);
    PayloadIsValidAnywhere(s.entry.value, c.site.stagingAt, c.site.entryAt, c);
  }

  /** No fault is met, and every file can be read. */
  predicate Smooth(readable: Readable, f: Slot.Faults)
  {
    && readable.entry && readable.staged
    && !f.prepare && !f.moveRestore && !f.moveEntry && !f.publish && !f.dropEntry && !f.dropRestore
  }

  lemma CodecIsGone(s: SlotState, env: Environment, c: Context)
    requires IsCompressed(s) && env.codec.None? && !env.discardFails
    requires !Served(s.restore, s.entry.value.manifest.value, env.restoreReadable, c)
    ensures CodecIsMissed(s, env, c) && !EntryIsBlamed(s, env, c) && !Servable(s, env, c)
  {
    hide Served, CapacityFor;
  }

  /** Where the codec is gone, a lookup names the payload it cannot restore, an upload that names it publishes the artifact
      uncompressed in its place, and the next lookup needs no codec: it returns that artifact. */
  method ReplaceWithoutCodec(store: CacheStore, source: Artifact, sourceAt: seq<Segment>, prepared: Preparation,
                             readable: Readable, quarantine: Slot.Faults, f: Slot.Faults, env: Environment, nowMs: int,
                             writable: bool)
    returns (miss: ResolveOutcome, o: PublishOutcome, found: ResolveOutcome, ghost between: SlotState, ghost i: Integrity)
    requires store.Valid() && Stored(source) && CollisionFree(store.c.site.world.inspector.hash)
    requires env.codec.None? && !env.undecodable.Restored? && env.entryReadable && !env.discardFails && Smooth(readable, f)
    requires ValidNow(store.View(), store.c) && store.dirs.entry.value.manifest.value.payload.Some?
    requires !Served(store.dirs.restore, store.dirs.entry.value.manifest.value, env.restoreReadable, store.c)
    modifies store.dirs, store.accessFile
    ensures miss == Miss(Some(old(store.dirs.entry.value.manifest.value.payload.value.digest)))
    ensures o.Published? <==> Stageable(source, sourceAt, i, prepared, true, store.c)
    ensures o.Published? ==> between.entry.Some? && between.entry.value.artifact == Some(source)
    ensures o.Published? && ValidNow(between, store.c) ==> found == Hit(source)
  {
    hide CollisionFree, StrictTotal, Stored, ValidEntry, Attests, MadeFrom, Stageable, EntryFor, Blamed, Restorable, Served;
    ghost var c := store.c;
    ghost var s := store.View();
    PayloadIsThere(store.dirs.entry.value, c);
    CodecIsGone(s, env, c);
    miss := store.Resolve(env, nowMs, false);
    o, i := store.Upload(source, sourceAt, prepared, miss.named, readable, quarantine, f, nowMs, writable);
    between := store.View();
    found := store.Resolve(env, nowMs, false);
    if o.Published? && ValidNow(between, c) {
      HitIs(between, store.View(), found, between.access, nowMs, env.writable, source, c);
    }
  }
}

/** One slot of the store under its entry lock: resolve, upload, import, and the removals of a prune. */
module Store {
  import opened Options
  import opened Bytes
  import opened PathText
  import opened Json
  import opened Platforms
  import opened Integrity
  import opened Capacity
  import opened Compression
  import opened Entries
  import opened Access
  import opened Slot
  import Prune

  /** `restore.json` */
  datatype RestoreRecord = RestoreRecord(platform: Platform, entryId: Text, payloadDigest: Digest, artifactDigest: Digest)

  datatype Restore = Restore(record: Option<RestoreRecord>, artifact: Option<Artifact>)

  datatype SlotState = SlotState(entry: Option<Entry>, restore: Option<Restore>, access: Access)

  /** Which slot: its identity, its id, and the site it is at. */
  datatype Context = Context(identity: Identity, id: Text, site: StoreSite)

  function RecordFor(m: Manifest): RestoreRecord
    requires m.payload.Some?
  {
    RestoreRecord(m.identity.platform, m.entryId, m.payload.value.digest, m.artifact.digest)
  }

  ghost predicate ValidRestore(r: Restore, m: Manifest, site: StoreSite)
    requires m.payload.Some?
  {
    r.record == Some(RecordFor(m)) && HoldsArtifact(r.artifact, m, site.restoreAt, site)
  }

  ghost predicate ValidNow(s: SlotState, c: Context)
  {
    s.entry.Some? && ValidEntry(s.entry.value, c.identity, c.id, c.site.entryAt, c.site)
  }

  /** Validation finds the entry in place valid. */
  ghost predicate FoundValid(s: SlotState, readable: bool, c: Context) { readable && ValidNow(s, c) }

  ghost predicate StoredRestore(r: Restore) { r.artifact.Some? ==> Stored(r.artifact.value) }

  // ---- What each operation may do to the slot ----

  /** Nothing moves, or what moved is out of the slot. */
  predicate OnlyRemoves(s: SlotState, t: SlotState)
  {
    (t.entry == s.entry || t.entry.None?) && (t.restore == s.restore || t.restore.None?) && t.access == s.access
  }

  /** The record after a touch that read `seen` and then wrote over `a`. */
  function AfterTouch(a: Access, seen: Access, nowMs: int, writable: bool): Access
  {
    if writable && !seen.Irregular? then Touched(seen, nowMs, DEFAULT_ACCESS_LEASE_MS) else a
  }

  /** A miss names the payload in place where an uncompressed entry may take its slot. */
  datatype ResolveOutcome = Hit(artifact: Artifact) | Miss(named: Option<Digest>) | Thrown

  ghost predicate ResolveStep(s: SlotState, t: SlotState, o: ResolveOutcome, seen: Access, nowMs: int, writable: bool,
                              c: Context)
  {
    match o
    case Hit(artifact) =>
      && ValidNow(s, c) && t.entry == s.entry && t.access == AfterTouch(s.access, seen, nowMs, writable)
      && Attests(s.entry.value.manifest.value.artifact, artifact, c.site.world.inspector)
      && (if s.entry.value.manifest.value.payload.Some? then t.restore.Some? && t.restore.value.artifact == Some(artifact)
          else t.restore == s.restore && s.entry.value.artifact == Some(artifact))
    case Miss(named) =>
      OnlyRemoves(s, t) && (named.Some? ==> ValidNow(s, c) && Names(named, s.entry.value) && t.entry == s.entry)
    case Thrown => OnlyRemoves(s, t)
  }

  /** `Untidy`: published, but a tombstone of the replaced entry stays and the call fails. */
  datatype PublishOutcome = Existing | Published | Untidy | Refused

  /** What an upload finds in the slot: an entry to keep, a slot to publish into, or an invalid entry that will not move. */
  datatype Way = Kept | Cleared | Blocked

  /** A fresh entry for this slot, valid where it was staged. */
  ghost predicate Fresh(e: Entry, c: Context)
  {
    && e.manifest.Some? && NamesSlot(e.manifest.value, c.identity, c.id, c.site)
    && ValidEntry(e, c.identity, c.id, c.site.stagingAt, c.site)
  }

  /** The caller names the compressed payload that is in place. */
  predicate Names(replace: Option<Digest>, e: Entry)
  {
    e.manifest.Some? && e.manifest.value.payload.Some? && replace == Some(e.manifest.value.payload.value.digest)
  }

  predicate IsPublished(o: PublishOutcome) { o.Published? || o.Untidy? }

  /** Publication: an entry found valid gives way only to a schema 1 entry, and only if its payload digest was named. */
  ghost predicate PublishStep(s: SlotState, t: SlotState, o: PublishOutcome, replace: Option<Digest>, readable: bool,
                              c: Context)
  {
    match o
    case Existing => FoundValid(s, readable, c) && t.entry == s.entry && t.restore == s.restore
    case Published | Untidy =>
      && t.entry.Some? && Fresh(t.entry.value, c)
      && (FoundValid(s, readable, c) ==> Names(replace, s.entry.value) && t.entry.value.manifest.value.payload.None?)
      && t.restore == (if s.entry.Some? then None else s.restore)
    case Refused => OnlyRemoves(s, t)
  }

  /** What an uploaded entry says of its source. */
  ghost predicate MadeFrom(e: Entry, source: Artifact, c: Context)
  {
    && e.manifest.Some? && Attests(e.manifest.value.artifact, source, c.site.world.inspector)
    && (e.manifest.value.payload.None? ==> e.artifact == Some(source))
  }

  /** An upload touches the entry it kept or published, unless it failed. */
  function UploadTouch(o: PublishOutcome, a: Access, seen: Access, nowMs: int, writable: bool): Access
  {
    if o.Refused? || o.Untidy? then a else AfterTouch(a, seen, nowMs, writable)
  }

  datatype Removal = Removal(reason: Prune.Reason, plannedAccess: int, policy: Prune.Policy, nowMs: int)

  /** `isStillEligible`, after the test that nothing accessed the entry since the plan was made. */
  predicate StillEligible(a: Access, r: Removal)
    requires a.Record?
  {
    && a.lastAccessedAt <= r.plannedAccess
    && a.protectedUntil <= r.nowMs
    && (r.reason.Expired? ==>
          r.policy.retentionMs.Some? && a.lastAccessedAt < r.nowMs - r.policy.retentionMs.value)
  }

  /** A record that cannot be read does not stop the removal of an entry. */
  predicate EntryMayGo(a: Access, r: Removal) { Parses(a) ==> StillEligible(a, r) }

  /** A record that cannot be read does stop the removal of auxiliary data. */
  predicate AuxiliaryMayGo(a: Access, nowMs: int) { a.Missing? || (Parses(a) && a.protectedUntil <= nowMs) }

  /** Whether the files of the entry in place and of the staged one can be read when they are validated. */
  datatype Readable = Readable(entry: bool, staged: bool)

  datatype Environment = Environment(
    entryReadable: bool, restoreReadable: bool,
    codec: Option<Codec>, discardFails: bool, freeBytes: Option<nat>, storageFails: bool, undecodable: RestoreResult,
    interrupted: bool, publishFails: bool, quarantine: Faults, writable: bool)

  datatype RestoreResult = Restored(artifact: Artifact) | Unavailable(mayReplace: bool) | Invalid

  function CapacityFor(m: Manifest, c: Context): Option<Capacity>
  {
    GetCompressionCapacity(m.identity.platform, m.artifact.sizeBytes, m.artifact.sizeBytes, m.artifact.fileCount,
                           c.site.world.rounding)
  }

  /** There is a codec, the declarations can be reserved for, and nothing says that there is no room. */
  predicate DecodeStarts(m: Manifest, env: Environment, c: Context)
  {
    && env.codec.Some? && CapacityFor(m, c).Some? && !env.storageFails
    && (env.freeBytes.Some? ==> CapacityFor(m, c).value.restoreRequiredBytes <= env.freeBytes.value)
  }

  /** The codec takes the payload. */
  predicate Decodes(m: Manifest, payload: seq<Byte>, env: Environment, c: Context)
    requires DecodeStarts(m, env, c)
  {
    env.codec.value.decode(payload, CapacityFor(m, c).value.archiveBound).ok
  }

  /** What it makes of the payload is the artifact the manifest names. */
  ghost predicate DecodesToArtifact(m: Manifest, payload: seq<Byte>, env: Environment, c: Context)
    requires DecodeStarts(m, env, c)
  {
    var bound := CapacityFor(m, c).value.archiveBound;
    HoldsArtifact(ArtifactOf(env.codec.value.decode(payload, bound).output, m.identity.platform, ShapeOf(m.artifact), bound,
                             c.site.world.host), m, c.site.restoreStagingAt, c.site)
  }

  /** A restore can be made afresh. */
  ghost predicate Restorable(m: Manifest, payload: seq<Byte>, env: Environment, c: Context)
  {
    && DecodeStarts(m, env, c) && Decodes(m, payload, env, c) && DecodesToArtifact(m, payload, env, c)
    && !env.interrupted && !env.publishFails
  }

  /** The entry itself is to blame: its declarations cannot be reserved for, the codec calls the payload malformed, or what
      comes out is not the artifact, though nothing interrupted the work. */
  ghost predicate Blamed(m: Manifest, payload: seq<Byte>, env: Environment, c: Context)
  {
    || (env.codec.Some? && CapacityFor(m, c).None?)
    || (DecodeStarts(m, env, c)
        && if Decodes(m, payload, env, c) then !env.interrupted && !DecodesToArtifact(m, payload, env, c)
           else env.undecodable.Invalid?)
  }

  /** There is no codec, or it turned out not to run. */
  predicate LacksCodec(m: Manifest, payload: seq<Byte>, env: Environment, c: Context)
  {
    || env.codec.None?
    || (DecodeStarts(m, env, c) && !Decodes(m, payload, env, c) && env.undecodable == Unavailable(true))
  }

  /** No restore in place serves the manifest, and one that is there can be discarded. */
  ghost predicate NeedsRestore(restore: Option<Restore>, m: Manifest, env: Environment, c: Context)
    requires m.payload.Some?
  {
    !Served(restore, m, env.restoreReadable, c) && (restore.Some? ==> !env.discardFails)
  }

  ghost predicate IsCompressed(s: SlotState)
  {
    s.entry.Some? && s.entry.value.manifest.Some? && s.entry.value.manifest.value.payload.Some? && s.entry.value.payload.Some?
  }

  /** Resolving fails on a compressed entry, and the entry is to blame. */
  ghost predicate EntryIsBlamed(s: SlotState, env: Environment, c: Context)
  {
    && IsCompressed(s) && NeedsRestore(s.restore, s.entry.value.manifest.value, env, c)
    && Blamed(s.entry.value.manifest.value, s.entry.value.payload.value, env, c)
  }

  /** Resolving fails on a compressed entry for want of a codec. */
  ghost predicate CodecIsMissed(s: SlotState, env: Environment, c: Context)
  {
    && IsCompressed(s) && NeedsRestore(s.restore, s.entry.value.manifest.value, env, c)
    && LacksCodec(s.entry.value.manifest.value, s.entry.value.payload.value, env, c)
  }

  /** The restore in place serves the manifest. */
  ghost predicate Served(restore: Option<Restore>, m: Manifest, readable: bool, c: Context)
    requires m.payload.Some?
  {
    restore.Some? && readable && ValidRestore(restore.value, m, c.site)
  }

  /** A valid entry's artifact is at hand: in the entry, in a restore, or a restore can be made. */
  ghost predicate Servable(s: SlotState, env: Environment, c: Context)
  {
    && s.entry.Some? && s.entry.value.manifest.Some?
    && var m := s.entry.value.manifest.value;
    m.payload.None? || Served(s.restore, m, env.restoreReadable, c)
    || (s.entry.value.payload.Some? && (s.restore.Some? ==> !env.discardFails)
        && Restorable(m, s.entry.value.payload.value, env, c))
  }

  predicate QuarantineFails(s: SlotState, f: Faults)
  {
    s.entry.Some? && (f.prepare || (s.restore.Some? && f.moveRestore) || f.moveEntry)
  }

  /** Publication of a staged entry fails on a fault met on the way; an invalid entry is quarantined first. */
  ghost predicate PublicationFails(s: SlotState, readable: bool, quarantine: Faults, f: Faults, late: bool, c: Context)
  {
    || f.publish
    || (FoundValid(s, readable, c) && (f.prepare || (s.restore.Some? && f.moveRestore) || late || f.moveEntry))
    || (!FoundValid(s, readable, c) && QuarantineFails(s, quarantine))
  }

  /** A tombstone of what was replaced cannot be removed. */
  predicate DropFails(s: SlotState, f: Faults) { s.entry.Some? && (f.dropEntry || (s.restore.Some? && f.dropRestore)) }

  /** The entry an upload builds for its source. */
  function EntryFor(source: Artifact, i: Integrity, prepared: Preparation, plain: bool, c: Context): Entry
  {
    if prepared.Compressed? && !plain
    then Entry(Some(Manifest(c.identity, c.id, i, Some(prepared.info))), None, Some(prepared.payload))
    else Entry(Some(Manifest(c.identity, c.id, i, None)), Some(source), None)
  }

  lemma EntryForIs(source: Artifact, i: Integrity, prepared: Preparation, plain: bool, c: Context)
    ensures var e := EntryFor(source, i, prepared, plain, c);
      && e.manifest.Some? && e.manifest.value.artifact == i
      && (prepared.Compressed? && !plain ==>
            e.payload == Some(prepared.payload) && e.artifact.None? && e.manifest.value.payload == Some(prepared.info))
      && (prepared.Fallback? || plain ==>
            e.artifact == Some(source) && e.payload.None? && e.manifest.value.payload.None?)
  {
  }

  /** The source can be inspected where it was copied, and its entry is valid in staging. */
  ghost predicate Stageable(source: Artifact, sourceAt: seq<Segment>, i: Integrity, prepared: Preparation,
                            plain: bool, c: Context)
  {
    && PlatformOf(source) == c.identity.platform && Acceptable(source, sourceAt, None, c.site.world.inspector)
    && Attests(i, source, c.site.world.inspector)
    && ValidEntry(EntryFor(source, i, prepared, plain, c), c.identity, c.id, c.site.stagingAt, c.site)
  }

  /** What restoring the manifest's artifact reserves, if its declarations can be reserved for at all. */
  function RestoreWorkingBytes(m: Manifest, c: Context): nat
  {
    match CapacityFor(m, c)
    case Some(capacity) => capacity.restoreWorkingBytes
    case None => 0
  }

  /** A restore serves a manifest exactly if its record names this entry, this payload and this artifact, and the artifact in
      it is the one. */
  lemma ServedInTerms(restore: Option<Restore>, m: Manifest, readable: bool, c: Context)
    requires m.payload.Some?
    ensures Served(restore, m, readable, c) <==>
      && restore.Some? && readable && restore.value.record.Some?
      && var record := restore.value.record.value;
      && record.platform == m.identity.platform && record.entryId == m.entryId
      && record.payloadDigest == m.payload.value.digest && record.artifactDigest == m.artifact.digest
      && HoldsArtifact(restore.value.artifact, m, c.site.restoreAt, c.site)
  {
    hide HoldsArtifact;
  }

  /** Decoding into empty staging takes no more than was asked for before. */
  lemma RestoreHasRoom(m: Manifest, c: Context)
    requires CapacityFor(m, c).Some?
    ensures var capacity := CapacityFor(m, c).value;
            && LiveBytes(map[]) + DecodeBytes(m.identity.platform, capacity) == RestoreWorkingBytes(m, c)
            && RestoreWorkingBytes(m, c) < capacity.restoreRequiredBytes
  {
    hide GetCompressionCapacity;
    RestoreFits(m.identity.platform, m.artifact.sizeBytes, m.artifact.sizeBytes, m.artifact.fileCount, c.site.world.rounding);
    CapacityParts(m.identity.platform, m.artifact.sizeBytes, m.artifact.sizeBytes, m.artifact.fileCount, c.site.world.rounding);
  }

  /** The codec made this artifact of the payload. */
  ghost predicate DecodedFrom(a: Artifact, m: Manifest, payload: seq<Byte>, env: Environment, c: Context)
  {
    && env.codec.Some? && CapacityFor(m, c).Some?
    && var bound := CapacityFor(m, c).value.archiveBound;
    Some(a) == ArtifactOf(env.codec.value.decode(payload, bound).output, m.identity.platform, ShapeOf(m.artifact), bound,
                          c.site.world.host)
  }

  class CacheStore {
    const c: Context
    const dirs: SlotDirs<Entry, Restore>
    const accessFile: AccessFile

    ghost function View(): SlotState
      reads dirs, accessFile
    {
      SlotState(dirs.entry, dirs.restore, accessFile.stored)
    }

    /** No staged entry is left over between calls. */
    ghost predicate Valid()
      reads dirs
    {
      Sound() && dirs.staging.None?
    }

    ghost predicate Sound()
      reads dirs
    {
      && StrictTotal(c.site.world.inspector.before)
      && (dirs.entry.Some? ==> StoredEntry(dirs.entry.value))
      && (dirs.restore.Some? ==> StoredRestore(dirs.restore.value))
    }

    constructor (c: Context, s: SlotState)
      requires StrictTotal(c.site.world.inspector.before)
      requires s.entry.Some? ==> StoredEntry(s.entry.value)
      requires s.restore.Some? ==> StoredRestore(s.restore.value)
      ensures Valid() && fresh(dirs) && fresh(accessFile) && this.c == c && View() == s
    {
      var directories := new SlotDirs(s.entry, s.restore);
      var file := new AccessFile(s.access);
      this.c := c;
      this.dirs := directories;
      this.accessFile := file;
    }

    /** `materializeCompressedArtifact`: a valid restore is reused, any other is discarded and made again. It answers
        `Invalid` exactly where the entry is to blame, and lets the entry be replaced exactly for want of a codec. */
    method Materialize(m: Manifest, payload: seq<Byte>, env: Environment, staging: Staging) returns (r: RestoreResult)
      requires Valid() && m.payload.Some?
      requires env.codec.Some? ==> Bounded(env.codec.value)
      requires !env.undecodable.Restored? && staging.files == map[]
      modifies dirs`restore, dirs`restoreTrash, staging
      ensures Valid()
      ensures r.Restored? ==>
        && Attests(m.artifact, r.artifact, c.site.world.inspector)
        && dirs.restore.Some? && dirs.restore.value.artifact == Some(r.artifact)
        && dirs.restore.value.record == Some(RecordFor(m))
      ensures r.Restored? <==>
        || Served(old(dirs.restore), m, env.restoreReadable, c)
        || (NeedsRestore(old(dirs.restore), m, env, c) && Restorable(m, payload, env, c))
      ensures r.Invalid? <==> NeedsRestore(old(dirs.restore), m, env, c) && Blamed(m, payload, env, c)
      ensures r == Unavailable(true) <==> NeedsRestore(old(dirs.restore), m, env, c) && LacksCodec(m, payload, env, c)
      ensures Served(old(dirs.restore), m, env.restoreReadable, c) ==> dirs.restore == old(dirs.restore)
      ensures r.Restored? && !Served(old(dirs.restore), m, env.restoreReadable, c) ==> DecodedFrom(r.artifact, m, payload, env, c)
      ensures !r.Restored? ==> dirs.restore == if env.discardFails then old(dirs.restore) else None
      ensures staging.peak <= Max(old(staging.peak), RestoreWorkingBytes(m, c))
      ensures staging.peak > old(staging.peak) && env.freeBytes.Some? ==> staging.peak <= env.freeBytes.value
    {
      hide StrictTotal, Attests, Stored, Acceptable, DecodedFrom, RestoreWorkingBytes, Blamed, LacksCodec, Restorable, Bounded;
      if dirs.restore.Some? {
        var existing := dirs.restore.value;
        if env.restoreReadable && existing.record == Some(RecordFor(m)) {
          var ok := MatchesManifest(existing.artifact, m, c.site.restoreAt, c.site);
          if ok {
            return Restored(existing.artifact.value);
          }
        }
        var discarded := dirs.RemoveRestore(env.discardFails);
        if discarded.Failed? {
          return Unavailable(false);
        }
      }
      r := MakeRestore(m, payload, env, staging);
    }

    /** The second half of `materializeCompressedArtifact`, with nothing in the restore's place. */
    method MakeRestore(m: Manifest, payload: seq<Byte>, env: Environment, staging: Staging) returns (r: RestoreResult)
      requires Valid() && m.payload.Some? && dirs.restore.None?
      requires env.codec.Some? ==> Bounded(env.codec.value)
      requires !env.undecodable.Restored? && staging.files == map[]
      modifies dirs`restore, staging
      ensures Valid()
      ensures r.Restored? ==>
        && Attests(m.artifact, r.artifact, c.site.world.inspector) && DecodedFrom(r.artifact, m, payload, env, c)
        && dirs.restore == Some(Restore(Some(RecordFor(m)), Some(r.artifact)))
      ensures !r.Restored? ==> dirs.restore.None?
      ensures r.Restored? <==> Restorable(m, payload, env, c)
      ensures r.Invalid? <==> Blamed(m, payload, env, c)
      ensures r == Unavailable(true) <==> LacksCodec(m, payload, env, c)
      ensures staging.peak <= Max(old(staging.peak), RestoreWorkingBytes(m, c))
      ensures staging.peak > old(staging.peak) && env.freeBytes.Some? ==> staging.peak <= env.freeBytes.value
    {
      hide StrictTotal, Attests, Stored, Acceptable, ArtifactOf, CapacityFor, Bounded;
      if env.codec.None? {
        return Unavailable(true);
      }
      var capacity := CapacityFor(m, c);
      if capacity.None? {
        return Invalid;
      }
      if env.freeBytes.Some? && env.freeBytes.value < capacity.value.restoreRequiredBytes {
        return Unavailable(false);
      }
      if env.storageFails {
        return Unavailable(false);
      }
      RestoreHasRoom(m, c);
      var decoding := DecodeArtifact(payload, m.identity.platform, ShapeOf(m.artifact), capacity.value, env.codec.value,
                                     c.site.world, staging);
      if decoding.Undecodable? {
        return env.undecodable;
      }
      if env.interrupted {
        return Unavailable(false);
      }
      var artifact := if decoding.Decoded? then Some(decoding.artifact) else None;
      var matches := MatchesManifest(artifact, m, c.site.restoreStagingAt, c.site);
      if !matches {
        return Invalid;
      }
      if env.publishFails {
        return Unavailable(false);
      }
      dirs.PutRestore(Restore(Some(RecordFor(m)), artifact));
      return Restored(artifact.value);
    }

    method Quarantine(f: Faults) returns (outcome: Outcome)
      requires Sound()
      modifies dirs`entry, dirs`restore, dirs`entryTrash, dirs`restoreTrash
      ensures Sound() && OnlyRemoves(old(View()), View())
      ensures outcome.Done? ==> dirs.entry.None? && (old(dirs.entry).Some? ==> dirs.restore.None?)
      ensures outcome.Done? && old(dirs.entry).None? ==> dirs.restore == old(dirs.restore)
      ensures outcome.Failed? <==> old(QuarantineFails(View(), f))
      ensures outcome.Failed? && (!f.backRestore || old(dirs.restore).None?) ==> View() == old(View())
    {
      hide StrictTotal;
      outcome := dirs.QuarantineEntry(f);
    }

    /** The locked part of `resolveCacheEntryDetailed`. */
    method Resolve(env: Environment, nowMs: int, lockBusy: bool) returns (o: ResolveOutcome)
      requires Valid() && (env.codec.Some? ==> Bounded(env.codec.value)) && !env.undecodable.Restored?
      modifies dirs, accessFile
      ensures Valid() && ResolveStep(old(View()), View(), o, old(accessFile.stored), nowMs, env.writable, c)
      ensures o.Hit? <==> !lockBusy && old(FoundValid(View(), env.entryReadable, c)) && old(Servable(View(), env, c))
      ensures lockBusy || old(dirs.entry).None? ==> o == Miss(None) && View() == old(View())
      ensures !lockBusy && old(dirs.entry).Some? && !old(FoundValid(View(), env.entryReadable, c)) ==>
        if old(QuarantineFails(View(), env.quarantine))
        then o.Thrown? && (!env.quarantine.backRestore ==> View() == old(View()))
        else o == Miss(None) && View() == SlotState(None, None, old(accessFile.stored))
      ensures !lockBusy && old(FoundValid(View(), env.entryReadable, c)) && old(EntryIsBlamed(View(), env, c)) ==>
        if env.quarantine.prepare || env.quarantine.moveEntry
        then o.Thrown? && View() == SlotState(old(dirs.entry), None, old(accessFile.stored))
        else o == Miss(None) && View() == SlotState(None, None, old(accessFile.stored))
      ensures (!lockBusy && old(FoundValid(View(), env.entryReadable, c)) && !old(Servable(View(), env, c))
               && !old(EntryIsBlamed(View(), env, c))) ==>
        && View() == old(View()).(restore := if env.discardFails then old(dirs.restore) else None)
        && o == Miss(if old(CodecIsMissed(View(), env, c)) then Some(old(dirs.entry.value.manifest.value.payload.value.digest))
                     else None)
    {
      hide StrictTotal, ValidEntry, Attests, Stored, HoldsArtifact, Bounded, RestoreWorkingBytes, ArtifactOf, Served, Restorable;
      if dirs.entry.None? || lockBusy {
        return Miss(None);
      }
      var entry := dirs.entry.value;
      var validated := ValidateEntry(entry, c.identity, c.id, c.site.entryAt, c.site, env.entryReadable);
      if validated.None? {
        var moved := Quarantine(env.quarantine);
        return if moved.Done? then Miss(None) else Thrown;
      }
      var m := validated.value;
      var artifact;
      if m.payload.Some? {
        PayloadIsThere(entry, c);
        var staging := new Staging();
        var restored := Materialize(m, entry.payload.value, env, staging);
        match restored {
          case Unavailable(mayReplace) => return Miss(if mayReplace then Some(m.payload.value.digest) else None);
          case Invalid =>
            var moved := Quarantine(env.quarantine);
            return if moved.Done? then Miss(None) else Thrown;
          case Restored(a) => artifact := a;
        }
      } else {
        ArtifactIsThere(entry, c);
        artifact := entry.artifact.value;
      }
      var touched := accessFile.Touch(nowMs, DEFAULT_ACCESS_LEASE_MS, env.writable);
      return Hit(artifact);
    }

    /** `uploadCacheEntry` from the moment it holds the entry lock. `prepared` is what compression made of the source,
        when it was asked for. */
    method Upload(source: Artifact, sourceAt: seq<Segment>, prepared: Preparation, replace: Option<Digest>,
                  readable: Readable, quarantine: Faults, f: Faults, nowMs: int, writable: bool)
      returns (o: PublishOutcome, ghost i: Integrity)
      requires Valid() && Stored(source)
      modifies dirs, accessFile
      ensures Valid() && PublishStep(old(View()), View(), o, replace, readable.entry, c)
      ensures o.Existing? <==> old(FoundValid(View(), readable.entry, c) && !Names(replace, dirs.entry.value))
      ensures IsPublished(o) <==>
        && !old(FoundValid(View(), readable.entry, c) && !Names(replace, dirs.entry.value))
        && readable.staged && Stageable(source, sourceAt, i, prepared, replace.Some?, c)
        && !old(PublicationFails(View(), readable.entry, quarantine, f, false, c))
      ensures o.Untidy? <==> IsPublished(o) && old(FoundValid(View(), readable.entry, c) && DropFails(View(), f))
      ensures IsPublished(o) ==> dirs.entry == Some(EntryFor(source, i, prepared, replace.Some?, c))
      ensures IsPublished(o) ==> MadeFrom(dirs.entry.value, source, c) && dirs.entry.value.manifest.value.artifact == i
      ensures IsPublished(o) && prepared.Compressed? && replace.None? ==>
        && dirs.entry.value.payload == Some(prepared.payload) && dirs.entry.value.artifact.None?
        && dirs.entry.value.manifest.value.payload == Some(prepared.info)
      ensures IsPublished(o) && (prepared.Fallback? || replace.Some?) ==>
        && dirs.entry.value.artifact == Some(source) && dirs.entry.value.payload.None?
        && dirs.entry.value.manifest.value.payload.None?
      ensures accessFile.stored == UploadTouch(o, old(accessFile.stored), old(accessFile.stored), nowMs, writable)
      ensures o.Refused? && old(FoundValid(View(), readable.entry, c)) && RollbackWorks(f) ==> View() == old(View())
    {
      hide StrictTotal, ValidEntry, MadeFrom, StoredEntry, Stored, NamesSlot, Stageable, EntryFor, AfterTouch;
      i := Integrity(Sha256, [], 0, 0);
      var ready := MakeWay(replace, readable.entry, quarantine, nowMs, writable);
      if !ready.Cleared? {
        return if ready.Kept? then Existing else Refused, i;
      }
      var staged, attested := StageUpload(source, sourceAt, prepared, replace.Some?, readable.staged);
      i := attested;
      if staged.None? {
        return Refused, i;
      }
      o := PublishStaged(staged.value, f, nowMs, writable);
      EntryForIs(source, i, prepared, replace.Some?, c);
    }

    /** The first part of an upload: keeps a valid entry unless its payload was named, quarantines an invalid one. */
    method MakeWay(replace: Option<Digest>, readable: bool, quarantine: Faults, nowMs: int, writable: bool) returns (w: Way)
      requires Valid()
      modifies dirs, accessFile
      ensures Valid()
      ensures w.Kept? <==> old(FoundValid(View(), readable, c) && !Names(replace, dirs.entry.value))
      ensures w.Kept? ==> dirs.entry == old(dirs.entry) && dirs.restore == old(dirs.restore)
      ensures accessFile.stored ==
        if w.Kept? then AfterTouch(old(accessFile.stored), old(accessFile.stored), nowMs, writable) else old(accessFile.stored)
      ensures w.Blocked? <==> !old(FoundValid(View(), readable, c)) && old(QuarantineFails(View(), quarantine))
      ensures !w.Kept? ==> OnlyRemoves(old(View()), View())
      ensures w.Cleared? ==>
        if old(FoundValid(View(), readable, c)) || old(dirs.entry).None? then View() == old(View())
        else dirs.entry.None? && dirs.restore.None?
    {
      hide StrictTotal, ValidEntry, Stored;
      if dirs.entry.None? {
        return Cleared;
      }
      var existing := ValidateEntry(dirs.entry.value, c.identity, c.id, c.site.entryAt, c.site, readable);
      if existing.None? {
        var moved := Quarantine(quarantine);
        return if moved.Failed? then Blocked else Cleared;
      }
      var m := existing.value;
      if replace.None? || m.payload.None? || replace.value != m.payload.value.digest {
        var touched := accessFile.Touch(nowMs, DEFAULT_ACCESS_LEASE_MS, writable);
        return Kept;
      }
      return Cleared;
    }

    /** The last part of an upload: the staged entry takes the slot, and the entry is touched. */
    method PublishStaged(e: Entry, f: Faults, nowMs: int, writable: bool) returns (o: PublishOutcome)
      requires Valid() && StoredEntry(e)
      modifies dirs, accessFile
      ensures Valid()
      ensures IsPublished(o) <==>
        !f.publish && (old(dirs.entry).Some? ==> !f.prepare && !(old(dirs.restore).Some? && f.moveRestore) && !f.moveEntry)
      ensures o.Untidy? <==> IsPublished(o) && old(DropFails(View(), f))
      ensures IsPublished(o) ==>
        dirs.entry == Some(e) && dirs.restore == (if old(dirs.entry).Some? then None else old(dirs.restore))
      ensures accessFile.stored == UploadTouch(o, old(accessFile.stored), old(accessFile.stored), nowMs, writable)
      ensures !IsPublished(o) ==> o.Refused? && OnlyRemoves(old(View()), View())
      ensures !IsPublished(o) && RollbackWorks(f) ==> View() == old(View())
    {
      hide StrictTotal, Stored;
      dirs.Stage(e);
      var outcome := dirs.ReplaceEntry(f);
      if outcome.Unchanged? {
        dirs.DropStaging();
        return Refused;
      }
      if outcome.Cluttered? {
        return Untidy;
      }
      var touched := accessFile.Touch(nowMs, DEFAULT_ACCESS_LEASE_MS, writable);
      return Published;
    }

    /** Builds and validates the entry an upload is about to publish; it reads the source only, not the slot. */
    method StageUpload(source: Artifact, sourceAt: seq<Segment>, prepared: Preparation, plain: bool, readable: bool)
      returns (r: Option<Entry>, ghost i: Integrity)
      requires StrictTotal(c.site.world.inspector.before) && Stored(source)
      ensures r.Some? <==> readable && Stageable(source, sourceAt, i, prepared, plain, c)
      ensures r.Some? ==> r.value == EntryFor(source, i, prepared, plain, c)
      ensures r.Some? ==>
        && StoredEntry(r.value) && Fresh(r.value, c) && MadeFrom(r.value, source, c)
        && (plain ==> r.value.manifest.value.payload.None?)
    {
      hide StrictTotal, Attests, Stored, HoldsArtifact, HoldsPayload, WellFormedManifest, Acceptable;
      i := Integrity(Sha256, [], 0, 0);
      var integrity := InspectArtifact(source, c.identity.platform, sourceAt, None, c.site.world.inspector);
      if integrity.None? {
        return None, i;
      }
      i := integrity.value;
      var entry := EntryFor(source, integrity.value, prepared, plain, c);
      var validated := ValidateEntry(entry, c.identity, c.id, c.site.stagingAt, c.site, readable);
      if validated.None? {
        return None, i;
      }
      return Some(entry), i;
    }

    /** The first look of `importWirePackage`, without the entry lock: whether a valid entry makes the import needless. */
    method ImportIsNeedless(m: Manifest, replace: Option<Digest>, readable: bool) returns (needless: bool)
      requires Valid()
      ensures needless <==> FoundValid(View(), readable, c) && !(m.payload.None? && Names(replace, dirs.entry.value))
    {
      hide StrictTotal, ValidEntry, Stored;
      if dirs.entry.None? {
        return false;
      }
      var existing := ValidateEntry(dirs.entry.value, c.identity, c.id, c.site.entryAt, c.site, readable);
      return existing.Some? && !(m.payload.None? && Names(replace, dirs.entry.value));
    }

    /** `importWirePackage` from the staged entry on: validation, then publication under the entry lock. `late` is the
        deadline tested before the old entry moves. */
    method Import(staged: Entry, replace: Option<Digest>, readable: Readable, quarantine: Faults, f: Faults, late: bool)
      returns (o: PublishOutcome)
      requires Valid() && StoredEntry(staged)
      modifies dirs
      ensures Valid() && PublishStep(old(View()), View(), o, replace, readable.entry, c) && View().access == old(View()).access
      ensures o.Published? ==> dirs.entry == Some(staged)
      ensures !o.Untidy?
      ensures o.Existing? <==>
        && readable.staged && ValidEntry(staged, c.identity, c.id, c.site.stagingAt, c.site)
        && old(FoundValid(View(), readable.entry, c))
        && old(!(staged.manifest.value.payload.None? && Names(replace, dirs.entry.value)))
      ensures o.Published? <==>
        && readable.staged && ValidEntry(staged, c.identity, c.id, c.site.stagingAt, c.site)
        && !old(FoundValid(View(), readable.entry, c) && !(staged.manifest.value.payload.None? && Names(replace, dirs.entry.value)))
        && !old(PublicationFails(View(), readable.entry, quarantine, f, late, c))
      ensures o.Refused? && old(FoundValid(View(), readable.entry, c)) && RollbackWorks(f) ==>
        dirs.entry == old(dirs.entry) && dirs.restore == old(dirs.restore)
    {
      hide StrictTotal, ValidEntry, Attests, Stored, HoldsArtifact, HoldsPayload, WellFormedManifest;
      var mine := ValidateEntry(staged, c.identity, c.id, c.site.stagingAt, c.site, readable.staged);
      if mine.None? {
        return Refused;
      }
      assert NamesSlot(mine.value, c.identity, c.id, c.site) by {
        ValidNamesSlot(staged, c);
      }
      dirs.Stage(staged);
      if dirs.entry.Some? {
        var existing := ValidateEntry(dirs.entry.value, c.identity, c.id, c.site.entryAt, c.site, readable.entry);
        if existing.Some? && !(mine.value.payload.None? && Names(replace, dirs.entry.value)) {
          dirs.DropStaging();
          return Existing;
        }
        if existing.Some? {
          var replaced := dirs.ReplaceByImport(f, late);
          if replaced.Failed? {
            dirs.DropStaging();
            return Refused;
          }
          return Published;
        }
        var moved := Quarantine(quarantine);
        if moved.Failed? {
          dirs.DropStaging();
          return Refused;
        }
      }
      var published := dirs.PublishNew(f);
      if published.Failed? {
        dirs.DropStaging();
      }
      return if published.Failed? then Refused else Published;
    }

    /** The locked removal of one planned entry in `pruneCache`. */
    method PruneEntry(r: Removal, f: Faults, removable: bool) returns (removed: bool)
      requires Valid()
      modifies dirs, accessFile
      ensures Valid()
      ensures removed <==>
        && old(dirs.entry).Some? && EntryMayGo(old(accessFile.stored), r)
        && !f.moveEntry && !(old(dirs.restore).Some? && f.moveRestore)
      ensures removed ==> dirs.entry.None? && dirs.restore.None?
      ensures removed ==> accessFile.stored.Missing? || accessFile.stored == old(accessFile.stored)
      ensures !removed ==> OnlyRemoves(old(View()), View())
      ensures !removed && (!f.backEntry || !EntryMayGo(old(accessFile.stored), r)) ==> View() == old(View())
    {
      hide StrictTotal;
      if dirs.entry.None? {
        return false;
      }
      var current := accessFile.Read();
      if current.Some? && current.value.Record? && !StillEligible(current.value, r) {
        return false;
      }
      var outcome := dirs.RemoveEntry(f);
      if outcome.Failed? {
        return false;
      }
      var forgotten := accessFile.Remove(removable);
      return true;
    }

    /** The locked removal of a restore chosen as auxiliary data. */
    method PruneRestore(nowMs: int, fails: bool) returns (removed: bool)
      requires Valid()
      modifies dirs
      ensures Valid() && dirs.entry == old(dirs.entry)
      ensures removed <==> old(dirs.restore).Some? && AuxiliaryMayGo(accessFile.stored, nowMs) && !fails
      ensures dirs.restore == if removed then None else old(dirs.restore)
    {
      hide StrictTotal;
      if dirs.restore.None? {
        return false;
      }
      var current := accessFile.Read();
      if current.None? || (current.value.Record? && current.value.protectedUntil > nowMs) {
        return false;
      }
      var outcome := dirs.RemoveRestore(fails);
      return outcome.Done?;
    }

    /** The locked removal of an entry chosen as invalid; it is not validated again. */
    method PruneInvalidEntry(nowMs: int, fails: bool) returns (removed: bool)
      requires Valid()
      modifies dirs
      ensures Valid() && dirs.restore == old(dirs.restore)
      ensures removed <==> old(dirs.entry).Some? && AuxiliaryMayGo(accessFile.stored, nowMs) && !fails
      ensures dirs.entry == if removed then None else old(dirs.entry)
    {
      hide StrictTotal;
      if dirs.entry.None? {
        return false;
      }
      var current := accessFile.Read();
      if current.None? || (current.value.Record? && current.value.protectedUntil > nowMs) {
        return false;
      }
      var outcome := dirs.RemoveInvalidEntry(fails);
      return outcome.Done?;
    }
  }

  lemma PayloadIsThere(e: Entry, c: Context)
    requires ValidEntry(e, c.identity, c.id, c.site.entryAt, c.site) && e.manifest.value.payload.Some?
    ensures e.manifest.Some? && e.payload.Some?
  {
    hide HoldsArtifact, WellFormedManifest;
  }

  lemma ArtifactIsThere(e: Entry, c: Context)
    requires ValidEntry(e, c.identity, c.id, c.site.entryAt, c.site) && e.manifest.value.payload.None?
    ensures e.artifact.Some? && Attests(e.manifest.value.artifact, e.artifact.value, c.site.world.inspector)
  {
    hide Acceptable, Attests, WellFormedManifest;
  }

  lemma ValidNamesSlot(e: Entry, c: Context)
    requires ValidEntry(e, c.identity, c.id, c.site.stagingAt, c.site)
    ensures NamesSlot(e.manifest.value, c.identity, c.id, c.site)
  {
    hide HoldsArtifact, HoldsPayload, WellFormedManifest;
  }
}

/** Cache entries and `validateEntry`. */
module Entries {
  import opened Options
  import opened Bytes
  import opened PathText
  import opened Json
  import opened Platforms
  import opened AppTreeFormat
  import opened Integrity
  import opened Compression

  /** What an entry is looked up by. */
  datatype Identity = Identity(platform: Platform, fingerprintHash: Text)

  /** Schema 2 carries payload metadata, schema 1 none. */
  datatype Manifest = Manifest(identity: Identity, entryId: Text, artifact: Integrity, payload: Option<PayloadInfo>)

  /** An entry directory; `manifest` is `None` where the file is missing or refused. */
  datatype Entry = Entry(manifest: Option<Manifest>, artifact: Option<Artifact>, payload: Option<seq<Byte>>)

  /** The store around one slot: its host, the id of an identity, and where the slot's directories are. */
  datatype StoreSite = StoreSite(world: World, entryId: Identity -> Text, entryAt: seq<Segment>, stagingAt: seq<Segment>,
                       restoreAt: seq<Segment>, restoreStagingAt: seq<Segment>)

  /** "artifact.apk" and "artifact.app" */
  function ArtifactName(p: Platform): Segment
  {
    [0x61, 0x72, 0x74, 0x69, 0x66, 0x61, 0x63, 0x74, 0x2E, 0x61, 0x70] + (if p.Android? then [0x6B] else [0x70])
  }

  function ExpectedAlgorithm(p: Platform): Algorithm { if p.Android? then Sha256 else Sha256TreeV1 }

  function ShapeOf(i: Integrity): Shape { Shape(i.sizeBytes, i.fileCount) }

  /** `readManifest` accepts the fields. */
  predicate WellFormedManifest(m: Manifest)
  {
    && m.identity.fingerprintHash != [] && HexText(m.entryId)
    && m.artifact.algorithm == ExpectedAlgorithm(m.identity.platform)
    && m.artifact.sizeBytes <= MAX_SAFE_INTEGER && 1 <= m.artifact.fileCount <= MAX_SAFE_INTEGER
    && (m.payload.Some? ==> 0 < m.payload.value.sizeBytes <= MAX_LOGICAL_BYTES && m.artifact.sizeBytes <= MAX_LOGICAL_BYTES)
  }

  predicate NamesSlot(m: Manifest, identity: Identity, id: Text, site: StoreSite)
  {
    WellFormedManifest(m) && m.identity == identity && m.entryId == id && site.entryId(identity) == id
  }

  ghost predicate StoredEntry(e: Entry) { e.artifact.Some? ==> Stored(e.artifact.value) }

  /** The artifact in place is acceptable there and is the one the manifest names. */
  ghost predicate HoldsArtifact(a: Option<Artifact>, m: Manifest, dir: seq<Segment>, site: StoreSite)
  {
    && a.Some? && PlatformOf(a.value) == m.identity.platform
    && Acceptable(a.value, dir + [ArtifactName(m.identity.platform)], Some(ShapeOf(m.artifact)), site.world.inspector)
    && Attests(m.artifact, a.value, site.world.inspector)
  }

  predicate HoldsPayload(p: Option<seq<Byte>>, info: PayloadInfo, site: StoreSite)
  {
    p.Some? && 0 < |p.value| <= MAX_LOGICAL_BYTES && |p.value| == info.sizeBytes
    && site.world.inspector.hash(p.value) == info.digest
  }

  /** `validateEntry` calls the directory valid. */
  ghost predicate ValidEntry(e: Entry, identity: Identity, id: Text, dir: seq<Segment>, site: StoreSite)
  {
    && e.manifest.Some? && NamesSlot(e.manifest.value, identity, id, site)
    && if e.manifest.value.payload.Some? then HoldsPayload(e.payload, e.manifest.value.payload.value, site)
       else HoldsArtifact(e.artifact, e.manifest.value, dir, site)
  }

  /** `inspectArtifact` against a manifest. */
  method MatchesManifest(a: Option<Artifact>, m: Manifest, dir: seq<Segment>, site: StoreSite) returns (ok: bool)
    requires a.Some? ==> Stored(a.value)
    requires StrictTotal(site.world.inspector.before)
    ensures ok <==> HoldsArtifact(a, m, dir, site)
  {
    hide StrictTotal, Stored, Acceptable, Attests, ArtifactName;
    if a.None? {
      return false;
    }
    var integrity := InspectArtifact(a.value, m.identity.platform, dir + [ArtifactName(m.identity.platform)],
                                     Some(ShapeOf(m.artifact)), site.world.inspector);
    if integrity.None? {
      return false;
    }
    ok := integrity.value == m.artifact;
    if Attests(m.artifact, a.value, site.world.inspector) {
      AttestationIsUnique(integrity.value, m.artifact, a.value, site.world.inspector);
    }
  }

  /** `validateEntry`; `readable` is whether every file it opens can be read. A failed read looks like an invalid entry. */
  method ValidateEntry(e: Entry, identity: Identity, id: Text, dir: seq<Segment>, site: StoreSite, readable: bool)
    returns (r: Option<Manifest>)
    requires StoredEntry(e) && StrictTotal(site.world.inspector.before)
    ensures r.Some? <==> readable && ValidEntry(e, identity, id, dir, site)
    ensures r.Some? ==> r == e.manifest
  {
    hide StrictTotal, Stored, HoldsArtifact, WellFormedManifest;
    if !readable {
      return None;
    }
    if e.manifest.None? || !WellFormedManifest(e.manifest.value) {
      return None;
    }
    var m := e.manifest.value;
    if m.identity != identity || m.entryId != id || site.entryId(identity) != id {
      return None;
    }
    match m.payload
    case Some(info) =>
      if e.payload.None? {
        return None;
      }
      var payload := InspectPayloadFile(e.payload.value, Some(info.sizeBytes), site.world.inspector.hash);
      if payload.None? || payload.value.1 != info.digest {
        return None;
      }
      return Some(m);
    case None =>
      var ok := MatchesManifest(e.artifact, m, dir, site);
      return if ok then Some(m) else None;
  }

  /** What a valid entry is, in full. */
  lemma ValidEntryInTerms(e: Entry, identity: Identity, id: Text, dir: seq<Segment>, site: StoreSite)
    ensures ValidEntry(e, identity, id, dir, site) <==>
      && e.manifest.Some?
      && var m := e.manifest.value;
      && m.identity == identity && identity.fingerprintHash != []
      && m.entryId == id && site.entryId(identity) == id && HexText(id)
      && m.artifact.algorithm == (if identity.platform.Android? then Sha256 else Sha256TreeV1)
      && m.artifact.sizeBytes <= 9_007_199_254_740_991 && 1 <= m.artifact.fileCount <= 9_007_199_254_740_991
      && match m.payload
         case Some(info) =>
           && m.artifact.sizeBytes <= 107_374_182_400 && 0 < info.sizeBytes <= 107_374_182_400
           && e.payload.Some? && |e.payload.value| == info.sizeBytes
           && site.world.inspector.hash(e.payload.value) == info.digest
         case None =>
           && e.artifact.Some? && PlatformOf(e.artifact.value) == identity.platform
           && Acceptable(e.artifact.value, dir + [ArtifactName(identity.platform)],
                         Some(Shape(m.artifact.sizeBytes, m.artifact.fileCount)), site.world.inspector)
           && Attests(m.artifact, e.artifact.value, site.world.inspector)
  {
    hide Acceptable, Attests, ArtifactName, HexText;
  }

  /** Two valid entries under one manifest that hold artifacts hold the same one. */
  lemma ManifestNamesOneArtifact(a: Option<Artifact>, b: Option<Artifact>, m: Manifest, at: seq<Segment>,
                                 there: seq<Segment>, site: StoreSite)
    requires CollisionFree(site.world.inspector.hash) && StrictTotal(site.world.inspector.before)
    requires HoldsArtifact(a, m, at, site) && HoldsArtifact(b, m, there, site)
    ensures a == b
  {
    hide StrictTotal, Acceptable, Attests;
    AttestedIsUnique(m.artifact, a.value, b.value, site.world.inspector);
  }
}

/** `createWirePackage` and `importWirePackage`: exporting an entry and importing the package gives the entry back. */
module Transfer {
  import opened Options
  import opened Bytes
  import opened PathText
  import opened FileTree
  import opened Json
  import opened Platforms
  import opened AppTreeFormat
  import opened AppTreeLaws
  import opened AppTreeEncoder
  import opened Integrity
  import opened Compression
  import opened Entries
  import opened Wire
  import Slot
  import Store

  /** The files of an entry directory. */
  datatype Files = Files(manifestBytes: seq<Byte>, artifact: Option<Artifact>, payload: Option<seq<Byte>>)

  function EntryOf(f: Files, reader: ManifestReader): Entry
  {
    Entry(if 0 < |f.manifestBytes| <= MAX_MANIFEST_BYTES then reader.read(f.manifestBytes) else None, f.artifact, f.payload)
  }

  function ProtocolOf(site: StoreSite, reader: ManifestReader): Protocol
  {
    Protocol(reader, site.world.inspector.hash, site.entryId)
  }

  /** The bytes a valid entry is exported as. */
  ghost function BodyOf(f: Files, m: Manifest, host: Host): Option<seq<Byte>>
  {
    match WireBodyKind(m)
    case Zstd => f.payload
    case RawApk => if f.artifact.Some? && f.artifact.value.Apk? then Some(f.artifact.value.data) else None
    case AppTree => if f.artifact.Some? && f.artifact.value.App? then Encoded(f.artifact.value.tree, host) else None
  }

  function HeaderFor(m: Manifest, id: Text, manifestBytes: seq<Byte>, body: seq<Byte>, hash: Hash): Header
  {
    Header(m.identity.platform, id, Part(|manifestBytes|, hash(manifestBytes)), WireBodyKind(m), Part(|body|, hash(body)))
  }

  /** What a successful export has produced. */
  ghost predicate Exported(p: seq<Byte>, f: Files, platform: Platform, id: Text, site: StoreSite, reader: ManifestReader)
  {
    var m := EntryOf(f, reader).manifest;
    && m.Some? && m.value.identity.platform == platform
    && ValidEntry(EntryOf(f, reader), m.value.identity, id, site.entryAt, site)
    && BodyOf(f, m.value, site.world.host).Some?
    && var body := BodyOf(f, m.value, site.world.host).value;
    && |body| > 0
    && Inspect(p, platform, id, ProtocolOf(site, reader)) ==
       Some(Inspected(HeaderFor(m.value, id, f.manifestBytes, body, site.world.inspector.hash), m.value, f.manifestBytes, body))
  }

  /** What an export needs: a valid entry, an exact manifest, a body that is not empty, and a header that can be written. */
  ghost predicate Exportable(f: Files, platform: Platform, id: Text, site: StoreSite, reader: ManifestReader)
  {
    var m := EntryOf(f, reader).manifest;
    && m.Some? && m.value.identity.platform == platform
    && ValidEntry(EntryOf(f, reader), m.value.identity, id, site.entryAt, site)
    && reader.exact(f.manifestBytes)
    && BodyOf(f, m.value, site.world.host).Some?
    && var body := BodyOf(f, m.value, site.world.host).value;
    |body| > 0 && SerializeHeader(HeaderFor(m.value, id, f.manifestBytes, body, site.world.inspector.hash)).Some?
  }

  /** `createWirePackage`; `readable` is whether the entry's files can be read when it is validated. */
  method CreateWirePackage(f: Files, platform: Platform, id: Text, site: StoreSite, reader: ManifestReader, readable: bool)
    returns (r: Option<seq<Byte>>)
    requires (f.artifact.Some? ==> Stored(f.artifact.value)) && StrictTotal(site.world.inspector.before)
    ensures r.Some? <==> readable && Exportable(f, platform, id, site, reader)
    ensures r.Some? ==> Exported(r.value, f, platform, id, site, reader)
  {
    hide StrictTotal, ValidEntry, Stored, Encoded, Inspect, SerializeHeader, PackageOf, BodyOf;
    var entry := EntryOf(f, reader);
    if entry.manifest.None? || entry.manifest.value.identity.platform != platform {
      return None;
    }
    var m :- ValidateEntry(entry, entry.manifest.value.identity, id, site.entryAt, site, readable);
    var body :- ExportBody(f, m, site);
    if |body| == 0 {
      return None;
    }
    var digest := HashFileSection(body, 0, |body|, site.world.inspector.hash);
    assert body[0..0 + |body|] == body;
    var header := Header(platform, id, Part(|f.manifestBytes|, site.world.inspector.hash(f.manifestBytes)),
                         WireBodyKind(m), Part(|body|, digest.value));
    var headerBytes :- SerializeHeader(header);
    var output := WritePackage(headerBytes, f.manifestBytes, body);
    var inspected := InspectWirePackage(output, platform, id, ProtocolOf(site, reader));
    WrittenIsInspected(f, m, body, platform, id, site, reader);
    if inspected.None? {
      return None;
    }
    InspectedIsExported(header, output, headerBytes, f, m, body, inspected.value, platform, id, site, reader);
    return Some(output);
  }

  /** The package just written passes its own inspection exactly when the manifest has the exact shape: the body always
      maps to the manifest of a valid entry. */
  lemma WrittenIsInspected(f: Files, m: Manifest, body: seq<Byte>, platform: Platform, id: Text, site: StoreSite,
                           reader: ManifestReader)
    requires f.artifact.Some? ==> Stored(f.artifact.value)
    requires EntryOf(f, reader).manifest == Some(m) && m.identity.platform == platform
    requires ValidEntry(EntryOf(f, reader), m.identity, id, site.entryAt, site)
    requires BodyOf(f, m, site.world.host) == Some(body)
    requires SerializeHeader(HeaderFor(m, id, f.manifestBytes, body, site.world.inspector.hash)).Some?
    ensures var h := HeaderFor(m, id, f.manifestBytes, body, site.world.inspector.hash);
            Inspect(PackageOf(SerializeHeader(h).value, f.manifestBytes, body), platform, id, ProtocolOf(site, reader)).Some?
            <==> reader.exact(f.manifestBytes)
  {
    hide SerializeHeader, PackageOf, ValidEntry, Mapped, BodyOf, Sections, Stored;
    var h := HeaderFor(m, id, f.manifestBytes, body, site.world.inspector.hash);
    BodyMaps(f, m, body, id, site, reader);
    SectionsOfPackage(h, f.manifestBytes, body);
  }

  lemma BodyMaps(f: Files, m: Manifest, body: seq<Byte>, id: Text, site: StoreSite, reader: ManifestReader)
    requires f.artifact.Some? ==> Stored(f.artifact.value)
    requires EntryOf(f, reader).manifest == Some(m)
    requires ValidEntry(EntryOf(f, reader), m.identity, id, site.entryAt, site)
    requires BodyOf(f, m, site.world.host) == Some(body)
    ensures Mapped(HeaderFor(m, id, f.manifestBytes, body, site.world.inspector.hash), m, ProtocolOf(site, reader))
  {
    ArtifactOfValid(f, m, id, site, reader);
    hide ValidEntry, Acceptable, Encoded, IsIntegrityOf, Rooted, WellFormedManifest;
    if WireBodyKind(m).AppTree? {
      TreeAlgorithm(m.artifact, f.artifact.value.tree, site.world.inspector);
      EncodedWithinBound(f.artifact.value.tree, site.world.host);
    }
  }

  /** The body file: the payload, the package, or a temporary archive of the bundle. */
  method ExportBody(f: Files, m: Manifest, site: StoreSite) returns (body: Option<seq<Byte>>)
    requires f.artifact.Some? ==> Stored(f.artifact.value)
    ensures body == BodyOf(f, m, site.world.host)
  {
    hide Encoded, Rooted;
    if m.payload.Some? {
      return f.payload;
    }
    if f.artifact.None? {
      return None;
    }
    match f.artifact.value
    case Apk(data) =>
      return if m.identity.platform.Android? then Some(data) else None;
    case App(tree) =>
      if m.identity.platform.Android? {
        return None;
      }
      var encoded, _ := EncodeAppTree(tree, site.world.host);
      return if encoded.Some? then Some(encoded.value.0) else None;
  }

  /** The ordered writes of an export. */
  method WritePackage(headerBytes: seq<Byte>, manifestBytes: seq<Byte>, body: seq<Byte>) returns (output: seq<Byte>)
    ensures output == PackageOf(headerBytes, manifestBytes, body)
  {
    output := WriteAll([], Prefix(|headerBytes|));
    output := WriteAll(output, headerBytes);
    output := WriteAll(output, manifestBytes);
    var whole := CopyFileSection(output, body, 0, |body|);
    assert body[0..0 + |body|] == body;
    output := whole.value;
  }

  /** Inspection reads back the sections that were written. */
  lemma InspectedIsExported(h: Header, p: seq<Byte>, headerBytes: seq<Byte>, f: Files, m: Manifest, body: seq<Byte>,
                            i: Inspected, platform: Platform, id: Text, site: StoreSite, reader: ManifestReader)
    requires SerializeHeader(h) == Some(headerBytes) && p == PackageOf(headerBytes, f.manifestBytes, body)
    requires h.manifest.sizeBytes == |f.manifestBytes| && h.body.sizeBytes == |body|
    requires Inspect(p, platform, id, ProtocolOf(site, reader)) == Some(i)
    requires 0 < |f.manifestBytes| <= MAX_MANIFEST_BYTES && EntryOf(f, reader).manifest == Some(m)
    ensures i == Inspected(h, m, f.manifestBytes, body)
  {
    hide SerializeHeader, PackageOf, Mapped;
    SectionsOfPackage(h, f.manifestBytes, body);
    hide Sections;
  }

  // ---- Import ----

  /** What a package unpacks to in staging, before it is validated there. */
  ghost function Unpacked(p: seq<Byte>, platform: Platform, id: Text, site: StoreSite,
                          reader: ManifestReader): Option<Files>
  {
    var i :- Inspect(p, platform, id, ProtocolOf(site, reader));
    match i.header.kind
    case Zstd => Some(Files(i.manifestBytes, None, Some(i.body)))
    case RawApk => Some(Files(i.manifestBytes, Some(Apk(i.body)), None))
    case AppTree =>
      var t :- ExtractedTree(i.body, Declaration(i.manifest.artifact.sizeBytes, i.manifest.artifact.fileCount, Some(|i.body|)),
                             site.world.host);
      Some(Files(i.manifestBytes, Some(App(t)), None))
  }

  /** `copyWireBody` and the extraction of `importWirePackage`. */
  method UnpackWirePackage(p: seq<Byte>, platform: Platform, id: Text, site: StoreSite, reader: ManifestReader)
    returns (r: Option<Files>)
    ensures r == Unpacked(p, platform, id, site, reader)
    ensures r.Some? && r.value.artifact.Some? ==> Stored(r.value.artifact.value)
  {
    hide Inspect, ExtractedTree, Rooted, ApparentBytes;
    var i :- InspectWirePackage(p, platform, id, ProtocolOf(site, reader));
    var body := CopyWireBody(p, i, platform, id, site, reader);
    match i.header.kind
    case Zstd => return Some(Files(i.manifestBytes, None, Some(body)));
    case RawApk => return Some(Files(i.manifestBytes, Some(Apk(body)), None));
    case AppTree =>
      var t, _ :- Extract(body, Declaration(i.manifest.artifact.sizeBytes, i.manifest.artifact.fileCount, Some(|body|)),
                       site.world.host);
      return Some(Files(i.manifestBytes, Some(App(t)), None));
  }

  /** `copyWireBody`: the body section of the package file, copied out. */
  method CopyWireBody(p: seq<Byte>, i: Inspected, platform: Platform, id: Text, site: StoreSite, reader: ManifestReader)
    returns (body: seq<Byte>)
    requires Inspect(p, platform, id, ProtocolOf(site, reader)) == Some(i)
    ensures body == i.body
  {
    hide Inspect, SerializeHeader, PackageOf;
    BodyIsLast(p, i, platform, id, ProtocolOf(site, reader));
    var offset := |p| - i.header.body.sizeBytes;
    var copied := CopyFileSection([], p, offset, i.header.body.sizeBytes);
    assert p[offset..offset + i.header.body.sizeBytes] == p[offset..];
    body := copied.value;
  }

  lemma BodyIsLast(p: seq<Byte>, i: Inspected, platform: Platform, id: Text, protocol: Protocol)
    requires Inspect(p, platform, id, protocol) == Some(i)
    ensures i.header.body.sizeBytes == |i.body| <= |p| && p[|p| - |i.body|..] == i.body
  {
    hide Inspect, SerializeHeader, Mapped;
    InspectIffPrinted(p, platform, id, i, protocol);
  }

  /** The whole import of a package into a slot. */
  method ImportWirePackage(store: Store.CacheStore, p: seq<Byte>, reader: ManifestReader, replace: Option<Digest>,
                           readable: Store.Readable, quarantine: Slot.Faults, f: Slot.Faults, late: bool)
    returns (o: Store.PublishOutcome, files: Option<Files>)
    requires store.Valid()
    modifies store.dirs
    ensures store.Valid()
    ensures files == Unpacked(p, store.c.identity.platform, store.c.id, store.c.site, reader)
    ensures files.None? ==> o.Refused? && store.View() == old(store.View())
    ensures files.Some? ==> Store.PublishStep(old(store.View()), store.View(), o, replace, readable.entry, store.c)
    ensures o.Published? ==> files.Some? && store.dirs.entry == Some(EntryOf(files.value, reader))
    ensures files.Some? && old(store.dirs.entry).None? ==>
      (o.Published? <==>
        && !f.publish && readable.staged
        && ValidEntry(EntryOf(files.value, reader), store.c.identity, store.c.id, store.c.site.stagingAt, store.c.site))
  {
    hide StrictTotal, ValidEntry, Stored, Unpacked, Store.PublishStep;
    files := UnpackWirePackage(p, store.c.identity.platform, store.c.id, store.c.site, reader);
    if files.None? {
      return Store.Refused, files;
    }
    o := store.Import(EntryOf(files.value, reader), replace, readable, quarantine, f, late);
  }

  // ---- Export, then import ----

  /** A bundle that can be archived is acceptable wherever it is put: its links climb no further than itself. */
  lemma AcceptableElsewhere(t: Tree, at: seq<Segment>, there: seq<Segment>, expected: Option<Shape>,
                            inspector: Inspector, host: Host)
    requires Rooted(t) && Encoded(t, host).Some? && Acceptable(App(t), at, expected, inspector)
    ensures Acceptable(App(t), there, expected, inspector)
  {
    EncodableLinks(t, host);
    hide Rooted, Encoded, ValidTarget, PointsInside, TreeBytes, TreeFiles;
    forall p | p in t ensures Hashable(Record(p, t[p]), Site(inspector.before, there)) {
      assert Hashable(Record(p, t[p]), Site(inspector.before, at));
      if t[p].Symlink? {
        ValidTargetPointsInside(there, t, p, host);
      }
    }
  }

  lemma EncodableLinks(t: Tree, host: Host)
    requires Rooted(t) && Encoded(t, host).Some?
    ensures forall p :: p in t && t[p].Symlink? ==> ValidTarget(t[p].target, p, host)
  {
    hide ValidTarget, ValidPath, Rooted, Sum, Ordinary;
    ListingHas(Listing(t), t);
    forall p | p in t && t[p].Symlink? ensures ValidTarget(t[p].target, p, host) {
      assert Record(p, t[p]) in Listing(t);
      var i :| 0 <= i < |Listing(t)| && Listing(t)[i] == Record(p, t[p]);
    }
  }

  /** The archive of an attested bundle extracts, under the manifest's own declaration, to that bundle. */
  lemma ArchiveComesBack(t: Tree, m: Manifest, inspector: Inspector, host: Host)
    requires Rooted(t) && Encoded(t, host).Some? && Attests(m.artifact, App(t), inspector)
    ensures var body := Encoded(t, host).value;
            ExtractedTree(body, Declaration(m.artifact.sizeBytes, m.artifact.fileCount, Some(|body|)), host) == Some(t)
  {
    TreeAlgorithm(m.artifact, t, inspector);
    EncodedWithinBound(t, host);
    hide Rooted, Encoded, Attests, ExtractedTree;
    EncodeThenExtract(t, Some(|Encoded(t, host).value|), host);
  }

  lemma EncodedWithinBound(t: Tree, host: Host)
    requires Encoded(t, host).Some?
    ensures |Encoded(t, host).value| <= BoundFor(t)
  {
    hide Ordinary, Sum, ValidPath, ValidTarget, AliasFree;
  }

  /** The files an import unpacks: the same manifest, and the same artifact or payload. */
  lemma PackageUnpacks(p: seq<Byte>, f: Files, platform: Platform, id: Text, site: StoreSite, reader: ManifestReader)
    requires f.artifact.Some? ==> Stored(f.artifact.value)
    requires Exported(p, f, platform, id, site, reader)
    ensures var m := EntryOf(f, reader).manifest.value;
            Unpacked(p, platform, id, site, reader) ==
              Some(if m.payload.Some? then Files(f.manifestBytes, None, f.payload) else Files(f.manifestBytes, f.artifact, None))
  {
    var m := EntryOf(f, reader).manifest.value;
    ArtifactOfValid(f, m, id, site, reader);
    hide Inspect, ValidEntry, Attests, Acceptable, Encoded, ExtractedTree, Rooted;
    if WireBodyKind(m).AppTree? {
      ArchiveComesBack(f.artifact.value.tree, m, site.world.inspector, site.world.host);
    }
  }

  lemma ArtifactOfValid(f: Files, m: Manifest, id: Text, site: StoreSite, reader: ManifestReader)
    requires ValidEntry(EntryOf(f, reader), m.identity, id, site.entryAt, site) && EntryOf(f, reader).manifest == Some(m)
    ensures NamesSlot(m, m.identity, id, site)
    ensures m.payload.None? ==>
      && f.artifact.Some? && PlatformOf(f.artifact.value) == m.identity.platform
      && Acceptable(f.artifact.value, site.entryAt + [ArtifactName(m.identity.platform)], Some(ShapeOf(m.artifact)), site.world.inspector)
      && Attests(m.artifact, f.artifact.value, site.world.inspector)
    ensures m.payload.Some? ==> HoldsPayload(f.payload, m.payload.value, site)
  {
    hide Acceptable, Attests, WellFormedManifest;
  }

  /** What was unpacked is valid in any directory of the importer. */
  lemma UnpackedIsValid(f: Files, m: Manifest, id: Text, from: StoreSite, to: StoreSite, dir: seq<Segment>,
                        reader: ManifestReader)
    requires f.artifact.Some? ==> Stored(f.artifact.value)
    requires EntryOf(f, reader).manifest == Some(m) && ValidEntry(EntryOf(f, reader), m.identity, id, from.entryAt, from)
    requires BodyOf(f, m, from.world.host).Some?
    requires to.world == from.world && to.entryId == from.entryId
    ensures var g := if m.payload.Some? then Files(f.manifestBytes, None, f.payload) else Files(f.manifestBytes, f.artifact, None);
            ValidEntry(EntryOf(g, reader), m.identity, id, dir, to)
  {
    ArtifactOfValid(f, m, id, from, reader);
    var g := if m.payload.Some? then Files(f.manifestBytes, None, f.payload) else Files(f.manifestBytes, f.artifact, None);
    assert EntryOf(g, reader).manifest == Some(m);
    hide Attests, Encoded, WellFormedManifest, Rooted, Acceptable, ArtifactName;
    if m.payload.None? {
      var name := ArtifactName(m.identity.platform);
      var a := f.artifact.value;
      assert Acceptable(a, dir + [name], Some(ShapeOf(m.artifact)), to.world.inspector) by {
        if a.App? {
          AcceptableElsewhere(a.tree, from.entryAt + [name], dir + [name], Some(ShapeOf(m.artifact)),
                              from.world.inspector, from.world.host);
        } else {
          PackageAcceptable(a, from.entryAt + [name], dir + [name], Some(ShapeOf(m.artifact)), to.world.inspector);
        }
      }
    }
  }

  lemma PackageAcceptable(a: Artifact, at: seq<Segment>, there: seq<Segment>, expected: Option<Shape>,
                          inspector: Inspector)
    requires a.Apk? && Acceptable(a, at, expected, inspector)
    ensures Acceptable(a, there, expected, inspector)
  {
  }

  /** Whatever was exported unpacks, at a site with the same host, hash and name order, to the same manifest bytes and the
      same artifact or payload, and is valid there: an import into an empty slot publishes it. */
  lemma ExportThenImport(p: seq<Byte>, f: Files, platform: Platform, id: Text, from: StoreSite, to: StoreSite,
                         reader: ManifestReader)
    requires f.artifact.Some? ==> Stored(f.artifact.value)
    requires Exported(p, f, platform, id, from, reader)
    requires to.world == from.world && to.entryId == from.entryId
    ensures Unpacked(p, platform, id, to, reader).Some?
    ensures var g := Unpacked(p, platform, id, to, reader).value;
            var m := EntryOf(f, reader).manifest.value;
            && g.manifestBytes == f.manifestBytes
            && (m.payload.None? ==> g.artifact == f.artifact)
            && (m.payload.Some? ==> g.payload == f.payload)
            && ValidEntry(EntryOf(g, reader), m.identity, id, to.stagingAt, to)
            && ValidEntry(EntryOf(g, reader), m.identity, id, to.entryAt, to)
  {
    var m := EntryOf(f, reader).manifest.value;
    SameProtocol(p, platform, id, from, to, reader);
    PackageUnpacks(p, f, platform, id, from, reader);
    hide Unpacked, ValidEntry, Inspect, Encoded, Stored;
    UnpackedIsValid(f, m, id, from, to, to.stagingAt, reader);
    UnpackedIsValid(f, m, id, from, to, to.entryAt, reader);
  }

  lemma SameProtocol(p: seq<Byte>, platform: Platform, id: Text, from: StoreSite, to: StoreSite, reader: ManifestReader)
    requires to.world == from.world && to.entryId == from.entryId
    ensures Unpacked(p, platform, id, to, reader) == Unpacked(p, platform, id, from, reader)
  {
    hide Inspect, ExtractedTree;
  }

  /** Both ends together: after a successful export, an import into an empty slot of the same identity publishes unless a
      rename or a read fails, and then exactly the exported manifest and contents. */
  method ExportAndImport(f: Files, platform: Platform, id: Text, from: StoreSite, reader: ManifestReader,
                         store: Store.CacheStore, readable: Store.Readable, quarantine: Slot.Faults, faults: Slot.Faults,
                         late: bool)
    returns (o: Option<Store.PublishOutcome>)
    requires (f.artifact.Some? ==> Stored(f.artifact.value)) && StrictTotal(from.world.inspector.before)
    requires store.Valid() && store.dirs.entry.None?
    requires store.c.id == id && store.c.identity.platform == platform
    requires EntryOf(f, reader).manifest.Some? ==> store.c.identity == EntryOf(f, reader).manifest.value.identity
    requires store.c.site.world == from.world && store.c.site.entryId == from.entryId
    modifies store.dirs
    ensures o.Some? <==> readable.entry && Exportable(f, platform, id, from, reader)
    ensures o.Some? ==> (o.value.Published? <==> !faults.publish && readable.staged)
    ensures o.Some? && o.value.Published? ==> EntryOf(f, reader).manifest.Some? && Store.ValidNow(store.View(), store.c)
    ensures o.Some? && o.value.Published? && EntryOf(f, reader).manifest.Some? && store.dirs.entry.Some? ==>
      var m := EntryOf(f, reader).manifest.value;
      && store.dirs.entry.value.manifest == Some(m)
      && (m.payload.None? ==> store.dirs.entry.value.artifact == f.artifact)
      && (m.payload.Some? ==> store.dirs.entry.value.payload == f.payload)
  {
    hide StrictTotal, ValidEntry, Stored, Unpacked, Store.PublishStep, Inspect, BodyOf, Exportable;
    var p := CreateWirePackage(f, platform, id, from, reader, readable.entry);
    if p.None? {
      return None;
    }
    ExportThenImport(p.value, f, platform, id, from, store.c.site, reader);
    var imported, files := ImportWirePackage(store, p.value, reader, None, readable, quarantine, faults, late);
    return Some(imported);
  }
}

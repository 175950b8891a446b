/** `prepareCompressedEntry` and the decoding half of a restore, with the bytes they keep alive in staging. */
module Compression {
  import opened Options
  import opened Bytes
  import opened PathText
  import opened FileTree
  import opened AppTreeFormat
  import opened AppTreeLaws
  import opened AppTreeEncoder
  import opened AppTreeExtractor
  import opened Platforms
  import opened Integrity
  import opened Capacity

  datatype CodecResult = CodecResult(ok: bool, output: seq<Byte>)

  /** Any codec at all; a failed call may leave part of its output. */
  datatype Codec = Codec(encode: (seq<Byte>, nat) -> CodecResult, decode: (seq<Byte>, nat) -> CodecResult)

  /** The codec's only promise: its output never exceeds the limit it is given. */
  ghost predicate Bounded(codec: Codec)
  {
    forall input, max ::
      |codec.encode(input, max).output| <= max && |codec.decode(input, max).output| <= max
  }

  datatype World = World(host: Host, inspector: Inspector, rounding: Rounding)

  /** `calculatePathSize`: file contents and link targets. */
  ghost function ApparentBytes(a: Artifact): nat
  {
    match a
    case Apk(data) => |data|
    case App(tree) => Sum(PayloadSize, Listing(tree))
  }

  /** The artifact a decoded stream stands for. */
  ghost function ArtifactOf(stream: seq<Byte>, platform: Platform, shape: Shape, archiveBound: nat,
                            host: Host): Option<Artifact>
  {
    if platform.Android? then Some(Apk(stream))
    else
      var t :- ExtractedTree(stream, Declaration(shape.sizeBytes, shape.fileCount, Some(archiveBound)), host);
      Some(App(t))
  }

  /** The payload decodes to an artifact with this integrity. */
  ghost predicate RestoresTo(payload: seq<Byte>, i: Integrity, platform: Platform, c: Capacity, codec: Codec,
                             world: World)
  {
    var decoded := codec.decode(payload, c.archiveBound);
    var a := ArtifactOf(decoded.output, platform, Shape(i.sizeBytes, i.fileCount), c.archiveBound, world.host);
    decoded.ok && a.Some? && Attests(i, a.value, world.inspector)
  }

  /** A payload that passed the round trip restores, with the same codec, to the very artifact it was made from. */
  lemma RestoresTheSnapshot(payload: seq<Byte>, i: Integrity, snapshot: Artifact, platform: Platform, c: Capacity,
                            codec: Codec, world: World)
    requires CollisionFree(world.inspector.hash) && StrictTotal(world.inspector.before)
    requires RestoresTo(payload, i, platform, c, codec, world) && Attests(i, snapshot, world.inspector)
    ensures ArtifactOf(codec.decode(payload, c.archiveBound).output, platform, Shape(i.sizeBytes, i.fileCount),
                       c.archiveBound, world.host) == Some(snapshot)
  {
    hide Attests, StrictTotal, ArtifactOf;
    var a := ArtifactOf(codec.decode(payload, c.archiveBound).output, platform, Shape(i.sizeBytes, i.fileCount),
                        c.archiveBound, world.host).value;
    AttestedIsUnique(i, a, snapshot, world.inspector);
  }

  // ---- Sizes ----

  lemma {:induction false} PayloadsArePrinted(rs: seq<Record>)
    ensures Sum(PayloadSize, rs) <= Sum(PrintedSize, rs)
  {
    SumDominated(PayloadSize, PrintedSize, rs);
  }

  /** What is extracted from an archive is never larger than the archive. */
  lemma ExtractedFits(a: seq<Byte>, decl: Declaration, host: Host)
    requires ExtractedTree(a, decl, host).Some?
    ensures ApparentBytes(App(ExtractedTree(a, decl, host).value)) <= |a|
  {
    hide ExtractedTree, Encodable, Rooted;
    ExtractThenEncode(a, decl, host);
    PayloadsArePrinted(Listing(ExtractedTree(a, decl, host).value));
  }

  lemma LogicalIsApparent(t: Tree)
    ensures TreeBytes(t) <= ApparentBytes(App(t))
  {
    SumDominated(FileSize, PayloadSize, Listing(t));
  }

  /** The encoder's archive stays within the reservation made from its source's integrity. */
  lemma EncodedFits(t: Tree, host: Host, c: Capacity, apparent: nat, rounding: Rounding)
    requires Encoded(t, host).Some?
    requires GetCompressionCapacity(IOS, TreeBytes(t), apparent, TreeFiles(t), rounding) == Some(c)
    ensures |Encoded(t, host).value| <= c.archiveBound
  {
    hide Ordinary, GetCompressionCapacity, Sum;
    ArchiveBoundsAgree(TreeBytes(t), apparent, TreeFiles(t), rounding);
  }

  // ---- Staging ----

  datatype Name = LogicalStream | PayloadFile | DecodedStream | DecodedArtifact

  ghost function SizeOf(files: map<Name, nat>, name: Name): nat { if name in files then files[name] else 0 }

  ghost function LiveBytes(files: map<Name, nat>): nat
  {
    SizeOf(files, LogicalStream) + SizeOf(files, PayloadFile) + SizeOf(files, DecodedStream) + SizeOf(files, DecodedArtifact)
  }

  ghost function Max(a: nat, b: nat): nat { if a < b then b else a }

  lemma MaxGrows(a: nat, b: nat, c: nat)
    requires b <= c
    ensures Max(a, b) <= Max(a, c)
  {
  }

  lemma MaxBelow(n: nat, a: nat, b: nat, c: nat, limit: nat)
    requires n <= Max(Max(a, b), c) && b <= limit && c <= limit
    ensures n <= Max(a, limit)
  {
  }

  /** The sizes of a staging directory's files, and the most that was ever alive. */
  class Staging {
    ghost var files: map<Name, nat>
    ghost var peak: nat

    constructor ()
      ensures files == map[] && peak == 0
    {
      files := map[];
      peak := 0;
    }

    ghost method Put(name: Name, size: nat)
      modifies this
      ensures files == old(files)[name := size] && peak == Max(old(peak), LiveBytes(files))
    {
      files := files[name := size];
      peak := Max(peak, LiveBytes(files));
    }

    ghost method Remove(name: Name)
      modifies this
      ensures files == old(files) - {name} && peak == old(peak)
    {
      files := files - {name};
    }

    /** A rename: the bytes move, nothing is copied. */
    ghost method Move(from: Name, to: Name)
      requires from in files
      modifies this
      ensures files == (old(files) - {from})[to := old(files)[from]]
      ensures peak == Max(old(peak), LiveBytes(files))
    {
      files := (files - {from})[to := files[from]];
      peak := Max(peak, LiveBytes(files));
    }
  }

  ghost function DecodeBytes(platform: Platform, c: Capacity): nat
  {
    if platform.IOS? then c.archiveBound + c.archiveBound else c.archiveBound
  }

  /** A payload the codec refuses, a stream that is no archive of the declared shape, or an artifact. */
  datatype Decoding = Undecodable | Unextractable | Decoded(artifact: Artifact)

  /** Decodes a payload into staging and turns the stream into an artifact; extraction that fails leaves what it wrote. */
  method DecodeArtifact(payload: seq<Byte>, platform: Platform, shape: Shape, c: Capacity, codec: Codec, world: World,
                        staging: Staging)
    returns (r: Decoding)
    requires Bounded(codec)
    requires DecodedStream !in staging.files && DecodedArtifact !in staging.files
    modifies staging
    ensures r.Undecodable? <==> !codec.decode(payload, c.archiveBound).ok
    ensures r.Decoded? <==>
      && codec.decode(payload, c.archiveBound).ok
      && ArtifactOf(codec.decode(payload, c.archiveBound).output, platform, shape, c.archiveBound, world.host).Some?
    ensures r.Decoded? ==>
      && Some(r.artifact) == ArtifactOf(codec.decode(payload, c.archiveBound).output, platform, shape, c.archiveBound, world.host)
      && PlatformOf(r.artifact) == platform && Stored(r.artifact)
      && SizeOf(staging.files, DecodedArtifact) == ApparentBytes(r.artifact)
    ensures staging.files - {DecodedStream, DecodedArtifact} == old(staging.files)
    ensures staging.peak <= Max(old(staging.peak), LiveBytes(old(staging.files)) + DecodeBytes(platform, c))
  {
    var decoded := codec.decode(payload, c.archiveBound);
    staging.Put(DecodedStream, |decoded.output|);
    if !decoded.ok {
      return Undecodable;
    }
    if platform.Android? {
      staging.Move(DecodedStream, DecodedArtifact);
      return Decoded(Apk(decoded.output));
    }
    var extracted, written :=
      Extract(decoded.output, Declaration(shape.sizeBytes, shape.fileCount, Some(c.archiveBound)), world.host);
    staging.Put(DecodedArtifact, written);
    if extracted.None? {
      return Unextractable;
    }
    return Decoded(App(extracted.value));
  }

  /** `extractAppTree` into a new directory; `written` octets of contents and targets are there when it ends. */
  method Extract(stream: seq<Byte>, decl: Declaration, host: Host) returns (r: Option<Tree>, ghost written: nat)
    ensures r == ExtractedTree(stream, decl, host)
    ensures written <= |stream|
    ensures r.Some? ==> Rooted(r.value) && written == ApparentBytes(App(r.value))
  {
    hide ExtractedTree, Rooted, Encoded, Extracted, ApparentBytes;
    var extracted;
    extracted, written := ExtractAppTree(stream, map[], decl, host);
    if extracted.None? {
      return None, written;
    }
    ExtractThenEncode(stream, decl, host);
    ExtractedBytes(stream, decl, host);
    return Some(extracted.value.0), written;
  }

  lemma ExtractedBytes(a: seq<Byte>, decl: Declaration, host: Host)
    requires ExtractedTree(a, decl, host).Some?
    ensures ApparentBytes(App(ExtractedTree(a, decl, host).value)) == Sum(PayloadSize, Extracted(a, decl, host).value)
  {
    hide Extracted, WellFormed, ToTree, Sum;
    var rs := Extracted(a, decl, host).value;
    AcceptsExactlyThePrinted(a, rs, decl, host);
    ExtractedListing(rs, host);
  }

  lemma ExtractedListing(rs: seq<Record>, host: Host)
    requires WellFormed(rs, host)
    ensures Listing(ToTree(rs)) == rs
  {
    ListingOf(rs);
  }

  /** Decoding into an empty staging directory stays exactly within what a restore reserves. */
  lemma RestoreFits(platform: Platform, size: nat, apparent: nat, count: nat, rounding: Rounding)
    requires GetCompressionCapacity(platform, size, apparent, count, rounding).Some?
    ensures var c := GetCompressionCapacity(platform, size, apparent, count, rounding).value;
            LiveBytes(map[]) + DecodeBytes(platform, c) == c.restoreWorkingBytes
  {
    CapacityParts(platform, size, apparent, count, rounding);
    hide GetCompressionCapacity;
  }

  // ---- Compressing an entry ----

  /** Where the two inspections of an upload find their artifacts. */
  datatype Places = Places(snapshot: seq<Segment>, decoded: seq<Segment>)

  datatype PayloadInfo = PayloadInfo(sizeBytes: nat, digest: Digest, schema1EquivalentBytes: nat)

  datatype Preparation = Compressed(payload: seq<Byte>, info: PayloadInfo) | Fallback

  /** Serialized manifest sizes: without payload metadata, and with it. */
  datatype ManifestSizes = ManifestSizes(plain: nat, compressed: PayloadInfo -> nat)

  ghost function LogicalBound(platform: Platform, c: Capacity): nat { if platform.IOS? then c.archiveBound else 0 }

  ghost predicate StagedForDecode(files: map<Name, nat>, platform: Platform, c: Capacity)
  {
    && files.Keys <= {LogicalStream, PayloadFile}
    && SizeOf(files, LogicalStream) <= LogicalBound(platform, c)
    && SizeOf(files, PayloadFile) <= c.payloadStagingBound
  }

  lemma UploadFits(files: map<Name, nat>, platform: Platform, size: nat, apparent: nat, count: nat, rounding: Rounding)
    requires GetCompressionCapacity(platform, size, apparent, count, rounding).Some? && size <= apparent
    requires StagedForDecode(files, platform, GetCompressionCapacity(platform, size, apparent, count, rounding).value)
    ensures var c := GetCompressionCapacity(platform, size, apparent, count, rounding).value;
            LiveBytes(files) + DecodeBytes(platform, c) <= c.uploadWorkingBytes
  {
    CapacityParts(platform, size, apparent, count, rounding);
    hide GetCompressionCapacity;
  }

  /** The bytes handed to the codec: the archive of a bundle, or the package itself. */
  ghost function CodecInput(read: Artifact, platform: Platform, host: Host): Option<seq<Byte>>
  {
    if PlatformOf(read) != platform then None
    else if read.Apk? then Some(read.data)
    else Encoded(read.tree, host)
  }

  /** What the encoder reads has the size and file count of what was inspected. */
  ghost predicate SameSizes(read: Artifact, i: Integrity)
  {
    read.App? ==> TreeBytes(read.tree) == i.sizeBytes && TreeFiles(read.tree) == i.fileCount
  }

  /** Encodes what is there to be read; encoding that fails leaves what it wrote. The stream stays within the bound for the
      inspected size and file count as long as these are still the ones of what is encoded. */
  method PrepareInput(read: Artifact, i: Integrity, apparent: nat, platform: Platform, c: Capacity, world: World,
                      staging: Staging)
    returns (input: Option<seq<Byte>>)
    requires Stored(read) && staging.files == map[]
    requires GetCompressionCapacity(platform, i.sizeBytes, apparent, i.fileCount, world.rounding) == Some(c)
    modifies staging
    ensures input == CodecInput(read, platform, world.host)
    ensures staging.files.Keys <= {LogicalStream}
    ensures staging.peak == Max(old(staging.peak), SizeOf(staging.files, LogicalStream))
    ensures SameSizes(read, i) ==> SizeOf(staging.files, LogicalStream) <= LogicalBound(platform, c)
  {
    hide GetCompressionCapacity, Encoded, Rooted, TreeBytes, TreeFiles;
    if PlatformOf(read) != platform {
      return None;
    }
    if read.Apk? {
      return Some(read.data);
    }
    var encoded, written := EncodeAppTree(read.tree, world.host);
    if written > 0 && SameSizes(read, i) {
      ArchiveBoundsAgree(i.sizeBytes, apparent, i.fileCount, world.rounding);
    }
    staging.Put(LogicalStream, written);
    if encoded.None? {
      return None;
    }
    return Some(encoded.value.0);
  }

  ghost method CleanUp(staging: Staging)
    modifies staging
    ensures staging.files == old(staging.files) - {LogicalStream, DecodedStream, DecodedArtifact}
    ensures staging.peak == old(staging.peak)
  {
    staging.Remove(LogicalStream);
    staging.Remove(DecodedStream);
    staging.Remove(DecodedArtifact);
  }

  /** The codec's output is a payload, decodes within its bound, and gives back an acceptable artifact of integrity `i`. */
  ghost predicate Survives(input: seq<Byte>, i: Integrity, platform: Platform, c: Capacity, codec: Codec,
                           decodedAt: seq<Segment>, world: World)
  {
    var encoded := codec.encode(input, c.payloadStagingBound);
    && encoded.ok && 0 < |encoded.output| <= MAX_LOGICAL_BYTES
    && RestoresTo(encoded.output, i, platform, c, codec, world)
    && Acceptable(ArtifactOf(codec.decode(encoded.output, c.archiveBound).output, platform, Shape(i.sizeBytes, i.fileCount),
                             c.archiveBound, world.host).value, decodedAt, None, world.inspector)
  }

  /** Encode, decode again, and compare: a payload is kept exactly if it gives back the integrity it came from. */
  method RoundTrip(input: seq<Byte>, before: Integrity, platform: Platform, c: Capacity, codec: Codec,
                   decodedAt: seq<Segment>, world: World, staging: Staging)
    returns (payload: Option<seq<Byte>>)
    requires Bounded(codec) && StrictTotal(world.inspector.before)
    requires staging.files.Keys <= {LogicalStream}
    modifies staging
    ensures payload.Some? <==> Survives(input, before, platform, c, codec, decodedAt, world)
    ensures payload.Some? ==> payload.value == codec.encode(input, c.payloadStagingBound).output
    ensures SizeOf(staging.files, PayloadFile) <= c.payloadStagingBound
    ensures staging.peak <= Max(old(staging.peak),
      SizeOf(old(staging.files), LogicalStream) + c.payloadStagingBound + DecodeBytes(platform, c))
  {
    hide StrictTotal, Acceptable, Attests, ArtifactOf, Stored;
    var encoded := codec.encode(input, c.payloadStagingBound);
    staging.Put(PayloadFile, |encoded.output|);
    if !encoded.ok {
      return None;
    }
    var inspected := InspectPayloadFile(encoded.output, None, world.inspector.hash);
    if inspected.None? {
      return None;
    }
    var decoded := DecodeArtifact(encoded.output, platform, Shape(before.sizeBytes, before.fileCount), c, codec, world, staging);
    assert SizeOf(staging.files, PayloadFile) == SizeOf(staging.files - {DecodedStream, DecodedArtifact}, PayloadFile);
    if !decoded.Decoded? {
      return None;
    }
    var after := InspectArtifact(decoded.artifact, platform, decodedAt, None, world.inspector);
    if after.Some? && Attests(before, decoded.artifact, world.inspector) {
      AttestationIsUnique(after.value, before, decoded.artifact, world.inspector);
    }
    if after.None? || after.value != before {
      return None;
    }
    return Some(encoded.output);
  }

  function InfoFor(payload: seq<Byte>, apparent: nat, insightBytes: nat, sizes: ManifestSizes, hash: Hash): PayloadInfo
  {
    PayloadInfo(|payload|, hash(payload), apparent + sizes.plain + insightBytes)
  }

  /** With its metadata the payload takes strictly less than the entry would have taken uncompressed. */
  predicate Smaller(payload: seq<Byte>, info: PayloadInfo, insightBytes: nat, sizes: ManifestSizes)
  {
    |payload| + sizes.compressed(info) + insightBytes < info.schema1EquivalentBytes
  }

  /** The copy as it is inspected first, as it is read for compression, and as it is inspected again. */
  datatype Snapshots = Snapshots(first: Artifact, read: Artifact, again: Artifact)

  /** The second inspection finds the integrity and the size of the first. */
  ghost predicate Unchanged(again: Artifact, i: Integrity, platform: Platform, apparent: nat, at: Places, world: World)
  {
    && PlatformOf(again) == platform && Acceptable(again, at.snapshot, None, world.inspector)
    && Attests(i, again, world.inspector) && ApparentBytes(again) == apparent
  }

  /** A result is kept exactly when the copy looks unchanged, and it survives the round trip and is smaller. */
  ghost predicate Decided(r: Preparation, copy: Snapshots, i: Integrity, platform: Platform, apparent: nat,
                          insightBytes: nat, sizes: ManifestSizes, c: Capacity, codec: Codec, at: Places, world: World)
  {
    var input := CodecInput(copy.read, platform, world.host);
    if || input.None? || !Unchanged(copy.again, i, platform, apparent, at, world)
       || !Survives(input.value, i, platform, c, codec, at.decoded, world)
    then r.Fallback?
    else
      var payload := codec.encode(input.value, c.payloadStagingBound).output;
      var info := InfoFor(payload, apparent, insightBytes, sizes, world.inspector.hash);
      r == if Smaller(payload, info, insightBytes, sizes) then Compressed(payload, info) else Fallback
  }

  /** A payload that survives is kept exactly if with its manifest it takes strictly less than the artifact with its own. */
  lemma KeptIffSmaller(r: Preparation, copy: Snapshots, i: Integrity, platform: Platform, apparent: nat,
                       insightBytes: nat, sizes: ManifestSizes, c: Capacity, codec: Codec, at: Places, world: World)
    requires Decided(r, copy, i, platform, apparent, insightBytes, sizes, c, codec, at, world)
    requires CodecInput(copy.read, platform, world.host).Some? && Unchanged(copy.again, i, platform, apparent, at, world)
    requires Survives(CodecInput(copy.read, platform, world.host).value, i, platform, c, codec, at.decoded, world)
    ensures var payload := codec.encode(CodecInput(copy.read, platform, world.host).value, c.payloadStagingBound).output;
      var info := PayloadInfo(|payload|, world.inspector.hash(payload), apparent + sizes.plain + insightBytes);
      if |payload| + sizes.compressed(info) < apparent + sizes.plain then r == Compressed(payload, info) else r == Fallback
  {
    hide CodecInput, Unchanged, Survives;
  }

  /** So a kept payload restores to the very artifact that was inspected first, whatever was read in between. */
  lemma KeptPayloadRestores(r: Preparation, copy: Snapshots, i: Integrity, platform: Platform, apparent: nat,
                            insightBytes: nat, sizes: ManifestSizes, c: Capacity, codec: Codec, at: Places, world: World)
    requires CollisionFree(world.inspector.hash) && StrictTotal(world.inspector.before)
    requires Attests(i, copy.first, world.inspector) && r.Compressed?
    requires Decided(r, copy, i, platform, apparent, insightBytes, sizes, c, codec, at, world)
    ensures 0 < |r.payload| == r.info.sizeBytes < r.info.schema1EquivalentBytes && r.info.digest == world.inspector.hash(r.payload)
    ensures ArtifactOf(codec.decode(r.payload, c.archiveBound).output, platform, Shape(i.sizeBytes, i.fileCount),
                       c.archiveBound, world.host) == Some(copy.first)
  {
    hide Attests, Acceptable, ArtifactOf, StrictTotal, CollisionFree, CodecInput, Unchanged;
    RestoresTheSnapshot(r.payload, i, copy.first, platform, c, codec, world);
  }

  ghost predicate Snapshotted(i: Integrity, snapshot: Artifact, platform: Platform, apparent: nat, c: Capacity,
                              world: World)
  {
    && Attests(i, snapshot, world.inspector)
    && GetCompressionCapacity(platform, i.sizeBytes, apparent, i.fileCount, world.rounding) == Some(c)
  }

  /** The size of an attested artifact, as its inspection counted it. */
  lemma AttestedSizes(i: Integrity, a: Artifact, inspector: Inspector)
    requires Attests(i, a, inspector)
    ensures i.sizeBytes <= ApparentBytes(a)
    ensures a.App? ==> i.sizeBytes == TreeBytes(a.tree) && i.fileCount == TreeFiles(a.tree)
  {
    hide IsIntegrityOf, TreeBytes, TreeFiles, ApparentBytes;
    match a
    case Apk(_) => PackageSize(i, a, inspector);
    case App(tree) =>
      TreeAlgorithm(i, tree, inspector);
      LogicalIsApparent(tree);
  }

  lemma PackageSize(i: Integrity, a: Artifact, inspector: Inspector)
    requires a.Apk? && Attests(i, a, inspector)
    ensures i.sizeBytes <= ApparentBytes(a)
  {
  }

  /** The copy can be inspected, and this is its integrity. */
  ghost predicate Compressible(first: Artifact, i: Integrity, platform: Platform, at: Places, world: World)
  {
    && PlatformOf(first) == platform && Acceptable(first, at.snapshot, None, world.inspector)
    && Attests(i, first, world.inspector)
  }

  /** `prepareCompressedEntry`: from an empty staging directory, its live bytes never exceed `uploadWorkingBytes` unless the
      copy changes its size or file count before it is encoded, and nothing but a payload is left behind. */
  method PrepareCompressedEntry(copy: Snapshots, apparent: nat, apparentAgain: nat, platform: Platform, insightBytes: nat,
                                sizes: ManifestSizes, codec: Option<Codec>, freeBytes: Option<nat>, at: Places,
                                world: World, staging: Staging)
    returns (r: Option<Preparation>, ghost i: Integrity, ghost c: Option<Capacity>)
    requires Stored(copy.first) && Stored(copy.read) && Stored(copy.again) && StrictTotal(world.inspector.before)
    requires apparent == ApparentBytes(copy.first) && apparentAgain == ApparentBytes(copy.again)
    requires codec.Some? ==> Bounded(codec.value)
    requires staging.files == map[]
    modifies staging
    ensures staging.files.Keys <= {PayloadFile}
    ensures c.None? ==> staging.peak == old(staging.peak) && (r.None? || r.value.Fallback?)
    ensures c.Some? <==>
      && codec.Some? && Compressible(copy.first, i, platform, at, world)
      && var capacity := GetCompressionCapacity(platform, i.sizeBytes, apparent, i.fileCount, world.rounding);
      capacity.Some? && (freeBytes.Some? ==> freeBytes.value >= capacity.value.uploadRequiredBytes)
    ensures r.None? <==>
      && codec.Some?
      && (Compressible(copy.first, i, platform, at, world) ==>
            GetCompressionCapacity(platform, i.sizeBytes, apparent, i.fileCount, world.rounding).None?)
    ensures (codec.Some? && PlatformOf(copy.first) == platform
             && Acceptable(copy.first, at.snapshot, None, world.inspector)) ==>
      Attests(i, copy.first, world.inspector)
    ensures old(staging.peak) == 0 && freeBytes.Some? && SameSizes(copy.read, i) ==> staging.peak <= freeBytes.value
    ensures c.Some? ==>
      && Snapshotted(i, copy.first, platform, apparent, c.value, world)
      && (SameSizes(copy.read, i) ==> staging.peak <= Max(old(staging.peak), c.value.uploadWorkingBytes))
      && r.Some? && codec.Some?
      && Decided(r.value, copy, i, platform, apparent, insightBytes, sizes, c.value, codec.value, at, world)
  {
    hide StrictTotal, Acceptable, Attests, Stored, ApparentBytes, GetCompressionCapacity, Survives, StagedForDecode, CodecInput;
    i, c := Integrity(Sha256, [], 0, 0), None;
    if codec.None? {
      return Some(Fallback), i, c;
    }
    var before := InspectArtifact(copy.first, platform, at.snapshot, None, world.inspector);
    if before.None? {
      return None, i, c;
    }
    i := before.value;
    var capacity := GetCompressionCapacity(platform, before.value.sizeBytes, apparent, before.value.fileCount, world.rounding);
    if capacity.None? {
      return None, i, c;
    }
    if freeBytes.Some? && freeBytes.value < capacity.value.uploadRequiredBytes {
      return Some(Fallback), i, c;
    }
    c := capacity;
    CapacityParts(platform, i.sizeBytes, apparent, i.fileCount, world.rounding);
    AttestedSizes(i, copy.first, world.inspector);
    var prepared := CompressWithin(copy, apparent, apparentAgain, platform, before.value, capacity.value, codec.value, at,
                                   world, staging);
    if prepared.None? {
      return Some(Fallback), i, c;
    }
    var info := InfoFor(prepared.value, apparent, insightBytes, sizes, world.inspector.hash);
    if !Smaller(prepared.value, info, insightBytes, sizes) {
      return Some(Fallback), i, c;
    }
    return Some(Compressed(prepared.value, info)), i, c;
  }

  /** The guarded part: whatever fails in it, the working files are removed. */
  method CompressWithin(copy: Snapshots, apparent: nat, apparentAgain: nat, platform: Platform, before: Integrity, c: Capacity,
                        codec: Codec, at: Places, world: World, staging: Staging)
    returns (payload: Option<seq<Byte>>)
    requires Stored(copy.read) && Stored(copy.again) && StrictTotal(world.inspector.before) && Bounded(codec)
    requires apparentAgain == ApparentBytes(copy.again) && before.sizeBytes <= apparent
    requires GetCompressionCapacity(platform, before.sizeBytes, apparent, before.fileCount, world.rounding) == Some(c)
    requires staging.files == map[]
    modifies staging
    ensures staging.files.Keys <= {PayloadFile}
    ensures SameSizes(copy.read, before) ==> staging.peak <= Max(old(staging.peak), c.uploadWorkingBytes)
    ensures payload.Some? <==>
      && CodecInput(copy.read, platform, world.host).Some? && Unchanged(copy.again, before, platform, apparent, at, world)
      && Survives(CodecInput(copy.read, platform, world.host).value, before, platform, c, codec, at.decoded, world)
    ensures payload.Some? ==>
      payload.value == codec.encode(CodecInput(copy.read, platform, world.host).value, c.payloadStagingBound).output
  {
    hide StrictTotal, Stored, GetCompressionCapacity, Survives, CodecInput, SameSizes, Unchanged;
    hide DecodeBytes, LogicalBound, Max;
    var input := PrepareInput(copy.read, before, apparent, platform, c, world, staging);
    ghost var logical := SizeOf(staging.files, LogicalStream);
    if logical <= LogicalBound(platform, c) {
      WorkingFits(logical, platform, before.sizeBytes, apparent, before.fileCount, world.rounding);
      MaxGrows(old(staging.peak), logical, c.uploadWorkingBytes);
    }
    var usable := input.Some?;
    if usable {
      usable := LooksUnchanged(copy.again, before, platform, apparent, apparentAgain, at, world);
    }
    if !usable {
      CleanUp(staging);
      OnlyPayload(staging.files);
      return None;
    }
    payload := RoundTrip(input.value, before, platform, c, codec, at.decoded, world, staging);
    if logical <= LogicalBound(platform, c) {
      var most := logical + c.payloadStagingBound + DecodeBytes(platform, c);
      MaxBelow(staging.peak, old(staging.peak), logical, most, c.uploadWorkingBytes);
    }
    CleanUp(staging);
    OnlyPayload(staging.files);
  }

  /** The second inspection, and its comparison with the first. */
  method LooksUnchanged(again: Artifact, before: Integrity, platform: Platform, apparent: nat, apparentAgain: nat, at: Places,
                        world: World)
    returns (ok: bool)
    requires Stored(again) && StrictTotal(world.inspector.before) && apparentAgain == ApparentBytes(again)
    ensures ok <==> Unchanged(again, before, platform, apparent, at, world)
  {
    hide StrictTotal, Acceptable, Attests, Stored, ApparentBytes;
    var after := InspectArtifact(again, platform, at.snapshot, None, world.inspector);
    if after.Some? && Attests(before, again, world.inspector) {
      AttestationIsUnique(after.value, before, again, world.inspector);
    }
    return after.Some? && after.value == before && apparentAgain == apparent;
  }

  /** The logical stream alone, and with everything the round trip adds to it. */
  lemma WorkingFits(logical: nat, platform: Platform, size: nat, apparent: nat, count: nat, rounding: Rounding)
    requires GetCompressionCapacity(platform, size, apparent, count, rounding).Some? && size <= apparent
    requires logical <= LogicalBound(platform, GetCompressionCapacity(platform, size, apparent, count, rounding).value)
    ensures var c := GetCompressionCapacity(platform, size, apparent, count, rounding).value;
            logical + c.payloadStagingBound + DecodeBytes(platform, c) <= c.uploadWorkingBytes
  {
    hide GetCompressionCapacity, DecodeBytes;
    var c := GetCompressionCapacity(platform, size, apparent, count, rounding).value;
    UploadFits(map[LogicalStream := logical, PayloadFile := c.payloadStagingBound], platform, size, apparent, count, rounding);
  }

  lemma OnlyPayload(files: map<Name, nat>)
    requires LogicalStream !in files && DecodedStream !in files && DecodedArtifact !in files
    ensures files.Keys <= {PayloadFile}
  {
    forall n | n in files ensures n == PayloadFile {
      assert n == LogicalStream || n == DecodedStream || n == DecodedArtifact || n == PayloadFile;
    }
  }
}

/** The wire package: magic, header length, canonical JSON header, manifest, body. */
module Wire {
  import opened Options
  import opened Bytes
  import opened Json
  import opened Platforms
  import AppTreeFormat
  import opened Integrity
  import opened Entries

  /** "ELCWIRE1" */
  const WIRE_MAGIC: seq<Byte> := [0x45, 0x4C, 0x43, 0x57, 0x49, 0x52, 0x45, 0x31]
  const WIRE_PREFIX_BYTES := 12
  const MAX_WIRE_HEADER_BYTES := 16 * 1024
  const MAX_MANIFEST_BYTES := 64 * 1024
  const MAX_WIRE_BODY_BYTES := 100 * 0x4000_0000

  datatype BodyKind = RawApk | AppTree | Zstd

  /** The size and digest of a section. */
  datatype Part = Part(sizeBytes: nat, sha256: Text)

  datatype Header = Header(platform: Platform, entryId: Text, manifest: Part, kind: BodyKind, body: Part)

  // ---- The header text ----

  function KindWord(k: BodyKind): Text
  {
    match k
    case RawApk => Ascii("raw-apk-v1")
    case AppTree => Ascii("elc-app-tree-v1")
    case Zstd => Ascii("zstd-v1")
  }

  function PlatformNamed(t: Text): Option<Platform>
  {
    if t == PlatformName(Android) then Some(Android) else if t == PlatformName(IOS) then Some(IOS) else None
  }

  function KindNamed(t: Text): Option<BodyKind>
  {
    if t == KindWord(RawApk) then Some(RawApk)
    else if t == KindWord(AppTree) then Some(AppTree)
    else if t == KindWord(Zstd) then Some(Zstd)
    else None
  }

  lemma WordsAreNames(p: Platform, k: BodyKind)
    ensures PlatformNamed(PlatformName(p)) == Some(p) && KindNamed(KindWord(k)) == Some(k)
  {
    assert |PlatformName(Android)| == 7 && |PlatformName(IOS)| == 3;
    assert |KindWord(RawApk)| == 10 && |KindWord(AppTree)| == 15 && |KindWord(Zstd)| == 7;
  }

  const SIZE_KEY: Text := [0x22, 0x73, 0x69, 0x7A, 0x65, 0x42, 0x79, 0x74, 0x65, 0x73, 0x22, 0x3A]  // "sizeBytes":

  function ShaKey(): Text { Ascii(",\"sha256\":") }

  function PartText(p: Part, rest: Text): Text
  {
    SIZE_KEY + (Decimal(p.sizeBytes) + (ShaKey() + (Quote(p.sha256) + ([0x7D] + rest))))
  }

  function Opening(): Text { Ascii("{\"schemaVersion\":1,\"platform\":") }

  function EntryKey(): Text { Ascii(",\"entryId\":") }

  function ManifestKey(): Text { Ascii(",\"manifest\":{") }

  function BodyKey(): Text { Ascii(",\"body\":{\"kind\":") }

  function BodyText(h: Header): Text { BodyKey() + (Quote(KindWord(h.kind)) + ([COMMA] + PartText(h.body, [0x7D]))) }

  /** `JSON.stringify` of the header, its keys in the order the protocol fixes. */
  function HeaderText(h: Header): Text
  {
    Opening() + (Quote(PlatformName(h.platform)) + (EntryKey() + (Quote(h.entryId) + (ManifestKey()
      + PartText(h.manifest, BodyText(h))))))
  }

  predicate ValidHeader(h: Header)
  {
    && HexText(h.entryId) && HexText(h.manifest.sha256) && HexText(h.body.sha256)
    && 1 <= h.manifest.sizeBytes <= MAX_MANIFEST_BYTES
    && 1 <= h.body.sizeBytes <= MAX_WIRE_BODY_BYTES
  }

  // ---- Reading it ----

  function Expect(text: Text, piece: Text): Option<Text>
  {
    if piece <= text then Some(text[|piece|..]) else None
  }

  function ReadPart(text: Text): Option<(Part, Text)>
  {
    var a :- Expect(text, SIZE_KEY);
    var (size, b) := ReadDigits(a, 0);
    var c :- Expect(b, ShaKey());
    var sha :- ReadQuoted(c);
    var rest :- Expect(sha.1, [0x7D]);
    Some((Part(size, sha.0), rest))
  }

  function ReadBody(text: Text): Option<(BodyKind, Part)>
  {
    var a :- Expect(text, BodyKey());
    var word :- ReadQuoted(a);
    var kind :- KindNamed(word.0);
    var b :- Expect(word.1, [COMMA]);
    var part :- ReadPart(b);
    if part.1 == [0x7D] then Some((kind, part.0)) else None
  }

  function ReadFields(text: Text): Option<Header>
  {
    var a :- Expect(text, Opening());
    var word :- ReadQuoted(a);
    var platform :- PlatformNamed(word.0);
    var b :- Expect(word.1, EntryKey());
    var id :- ReadQuoted(b);
    var c :- Expect(id.1, ManifestKey());
    var manifest :- ReadPart(c);
    var body :- ReadBody(manifest.1);
    Some(Header(platform, id.0, manifest.0, body.0, body.1))
  }

  /** `parseWireHeader`: the fields are checked, and the text must be what printing them gives. */
  function ParseHeader(text: Text): Option<Header>
  {
    var h :- ReadFields(text);
    if ValidHeader(h) && HeaderText(h) == text then Some(h) else None
  }

  lemma ExpectPiece(piece: Text, rest: Text)
    ensures Expect(piece + rest, piece) == Some(rest)
  {
    assert (piece + rest)[|piece|..] == rest;
  }

  lemma ReadPrintedPart(p: Part, rest: Text)
    ensures ReadPart(PartText(p, rest)) == Some((p, rest))
  {
    hide ReadQuoted, ReadDigits, Quote, Decimal, Expect;
    var d := [0x7D] + rest;
    var c := ShaKey() + (Quote(p.sha256) + d);
    ExpectPiece(SIZE_KEY, Decimal(p.sizeBytes) + c);
    assert !StartsWithDigit(c) by {
      assert ShaKey()[0] == COMMA;
    }
    ReadDecimal(p.sizeBytes, c);
    ExpectPiece(ShaKey(), Quote(p.sha256) + d);
    ReadQuote(p.sha256, d);
    ExpectPiece([0x7D], rest);
  }

  lemma ReadPrintedBody(h: Header)
    ensures ReadBody(BodyText(h)) == Some((h.kind, h.body))
  {
    hide ReadQuoted, Quote, Expect, ReadPart, PartText, KindWord, KindNamed, BodyKey;
    WordsAreNames(h.platform, h.kind);
    var b := [COMMA] + PartText(h.body, [0x7D]);
    ExpectPiece(BodyKey(), Quote(KindWord(h.kind)) + b);
    ReadQuote(KindWord(h.kind), b);
    ExpectPiece([COMMA], PartText(h.body, [0x7D]));
    ReadPrintedPart(h.body, [0x7D]);
  }

  lemma ReadPrintedHeader(h: Header)
    ensures ReadFields(HeaderText(h)) == Some(h)
  {
    hide ReadQuoted, Quote, Expect, ReadPart, PartText, PlatformName, PlatformNamed, ReadBody, BodyText;
    hide Opening, EntryKey, ManifestKey;
    WordsAreNames(h.platform, h.kind);
    var c := PartText(h.manifest, BodyText(h));
    var b := EntryKey() + (Quote(h.entryId) + (ManifestKey() + c));
    ExpectPiece(Opening(), Quote(PlatformName(h.platform)) + b);
    ReadQuote(PlatformName(h.platform), b);
    ExpectPiece(EntryKey(), Quote(h.entryId) + (ManifestKey() + c));
    ReadQuote(h.entryId, ManifestKey() + c);
    ExpectPiece(ManifestKey(), c);
    ReadPrintedPart(h.manifest, BodyText(h));
    ReadPrintedBody(h);
  }

  /** A header text is accepted, as this header, exactly when it is the printed form of a valid one. */
  lemma HeaderIffPrinted(text: Text, h: Header)
    ensures ParseHeader(text) == Some(h) <==> ValidHeader(h) && text == HeaderText(h)
  {
    hide HeaderText, ReadFields, ValidHeader;
    if text == HeaderText(h) {
      ReadPrintedHeader(h);
    }
  }

  // ---- Header text as octets ----

  predicate IsOctets(t: Text) { forall i :: 0 <= i < |t| ==> t[i] < 256 }

  function Octets(t: Text): (bs: seq<Byte>)
    requires IsOctets(t)
    ensures bs == t
  {
    seq(|t|, i requires 0 <= i < |t| => t[i])
  }

  lemma {:induction false} EscapeIsOctets(s: Text)
    requires IsOctets(s)
    ensures IsOctets(Escape(s))
    decreases |s|
  {
    if s != [] {
      EscapeIsOctets(s[1..]);
      assert s[0] < 256;
      assert Escape(s) == EscapeUnit(s[0]) + Escape(s[1..]);
    }
  }

  lemma PartIsOctets(p: Part, rest: Text)
    requires HexText(p.sha256) && IsOctets(rest)
    ensures IsOctets(PartText(p, rest))
  {
    EscapeIsOctets(p.sha256);
    hide Escape, Decimal, ShaKey;
    assert IsOctets(Quote(p.sha256)) && IsOctets(Decimal(p.sizeBytes));
    assert IsOctets(ShaKey()) by {
      assert forall i :: 0 <= i < |ShaKey()| ==> Ascii(",\"sha256\":")[i] < 128;
    }
  }

  lemma WordsAreOctets(p: Platform, k: BodyKind)
    ensures IsOctets(Quote(PlatformName(p))) && IsOctets(Quote(KindWord(k)))
    ensures IsOctets(Opening()) && IsOctets(EntryKey()) && IsOctets(ManifestKey()) && IsOctets(BodyKey())
  {
    hide Ascii, Escape;
    EscapeIsOctets(PlatformName(p));
    EscapeIsOctets(KindWord(k));
  }

  lemma HeaderIsOctets(h: Header)
    requires ValidHeader(h)
    ensures IsOctets(HeaderText(h))
  {
    hide Escape, PlatformName, KindWord, Opening, EntryKey, ManifestKey, BodyKey, PartText;
    WordsAreOctets(h.platform, h.kind);
    EscapeIsOctets(h.entryId);
    PartIsOctets(h.body, [0x7D]);
    assert IsOctets(BodyText(h));
    PartIsOctets(h.manifest, BodyText(h));
    assert IsOctets(Quote(h.entryId));
  }

  /** `serializeWireHeader`: refused when too long, or when it would not be accepted back. */
  function SerializeHeader(h: Header): Option<seq<Byte>>
  {
    if ValidHeader(h) && |HeaderText(h)| <= MAX_WIRE_HEADER_BYTES then
      HeaderIsOctets(h);
      Some(Octets(HeaderText(h)))
    else None
  }

  // ---- Packages ----

  /** What the code reads manifests with: `readManifest`, and the exact-shape check of the wire format. */
  datatype ManifestReader = ManifestReader(read: seq<Byte> -> Option<Manifest>, exact: seq<Byte> -> bool)

  datatype Protocol = Protocol(reader: ManifestReader, hash: Hash, entryId: Identity -> Text)

  datatype Inspected = Inspected(header: Header, manifest: Manifest, manifestBytes: seq<Byte>, body: seq<Byte>)

  function WireBodyKind(m: Manifest): BodyKind
  {
    if m.payload.Some? then Zstd else if m.identity.platform.Android? then RawApk else AppTree
  }

  /** `assertManifestAndBodyMapping` */
  predicate Mapped(h: Header, m: Manifest, protocol: Protocol)
  {
    && m.identity.platform == h.platform && m.entryId == h.entryId && protocol.entryId(m.identity) == h.entryId
    && WireBodyKind(m) == h.kind
    && match h.kind
       case Zstd => h.body.sizeBytes == m.payload.value.sizeBytes && h.body.sha256 == m.payload.value.digest
       case RawApk => h.body.sizeBytes == m.artifact.sizeBytes && h.body.sha256 == m.artifact.digest
       case AppTree =>
         var bound := AppTreeFormat.ArchiveBound(m.artifact.sizeBytes, m.artifact.fileCount);
         bound.Some? && h.body.sizeBytes <= bound.value
  }

  function Prefix(headerLength: nat): seq<Byte> { WIRE_MAGIC + BigEndian(headerLength, 4) }

  function PackageOf(headerBytes: seq<Byte>, manifestBytes: seq<Byte>, body: seq<Byte>): seq<Byte>
  {
    Prefix(|headerBytes|) + headerBytes + manifestBytes + body
  }

  /** The sections of a package, before their contents are looked at. */
  function Sections(p: seq<Byte>): Option<(Header, seq<Byte>, seq<Byte>)>
  {
    if |p| < WIRE_PREFIX_BYTES + 2 || p[..8] != WIRE_MAGIC then None else
    var headerLength := FromBigEndian(p[8..12]);
    if headerLength == 0 || headerLength > MAX_WIRE_HEADER_BYTES || |p| < 12 + headerLength then None else
    var header :- ParseHeader(p[12..12 + headerLength]);
    var manifestAt := 12 + headerLength;
    var bodyAt := manifestAt + header.manifest.sizeBytes;
    if bodyAt + header.body.sizeBytes != |p| then None
    else Some((header, p[manifestAt..bodyAt], p[bodyAt..]))
  }

  predicate Consistent(h: Header, m: Manifest, manifestBytes: seq<Byte>, body: seq<Byte>, protocol: Protocol)
  {
    && |manifestBytes| == h.manifest.sizeBytes && protocol.hash(manifestBytes) == h.manifest.sha256
    && protocol.reader.exact(manifestBytes) && protocol.reader.read(manifestBytes) == Some(m)
    && Mapped(h, m, protocol)
    && |body| == h.body.sizeBytes && protocol.hash(body) == h.body.sha256
  }

  /** `inspectWirePackage` with the identity the caller expects. */
  function Inspect(p: seq<Byte>, platform: Platform, id: Text, protocol: Protocol): Option<Inspected>
  {
    var (header, manifestBytes, body) :- Sections(p);
    var m :- protocol.reader.read(manifestBytes);
    if header.platform == platform && header.entryId == id && Consistent(header, m, manifestBytes, body, protocol)
    then Some(Inspected(header, m, manifestBytes, body))
    else None
  }

  lemma PackageSlices(headerBytes: seq<Byte>, manifestBytes: seq<Byte>, body: seq<Byte>)
    requires |headerBytes| <= MAX_WIRE_HEADER_BYTES
    ensures var p := PackageOf(headerBytes, manifestBytes, body);
            var m := 12 + |headerBytes|;
            var b := m + |manifestBytes|;
            && |p| == b + |body|
            && p[..8] == WIRE_MAGIC && FromBigEndian(p[8..12]) == |headerBytes|
            && p[12..m] == headerBytes && p[m..b] == manifestBytes && p[b..] == body
  {
    var p := PackageOf(headerBytes, manifestBytes, body);
    assert p[8..12] == BigEndian(|headerBytes|, 4);
    Range4();
    ReadWritten(|headerBytes|, 4);
    assert p[12..12 + |headerBytes|] == headerBytes;
  }

  lemma SectionsAre(p: seq<Byte>, headerBytes: seq<Byte>, h: Header, manifestBytes: seq<Byte>, body: seq<Byte>)
    requires 0 < |headerBytes| <= MAX_WIRE_HEADER_BYTES && ParseHeader(headerBytes) == Some(h)
    requires 0 < |manifestBytes| == h.manifest.sizeBytes && 0 < |body| == h.body.sizeBytes
    requires |p| == 12 + |headerBytes| + |manifestBytes| + |body|
    requires p[..8] == WIRE_MAGIC && FromBigEndian(p[8..12]) == |headerBytes| && p[12..12 + |headerBytes|] == headerBytes
    requires p[12 + |headerBytes|..12 + |headerBytes| + |manifestBytes|] == manifestBytes
    requires p[12 + |headerBytes| + |manifestBytes|..] == body
    ensures Sections(p) == Some((h, manifestBytes, body))
  {
    hide ParseHeader, FromBigEndian;
  }

  lemma SectionsOfPackage(h: Header, manifestBytes: seq<Byte>, body: seq<Byte>)
    requires SerializeHeader(h).Some?
    requires |manifestBytes| == h.manifest.sizeBytes && |body| == h.body.sizeBytes
    ensures Sections(PackageOf(SerializeHeader(h).value, manifestBytes, body)) == Some((h, manifestBytes, body))
  {
    var headerBytes := SerializeHeader(h).value;
    HeaderIffPrinted(headerBytes, h);
    HeaderIsNotEmpty(h);
    assert headerBytes == HeaderText(h);
    hide HeaderText, PackageOf, ParseHeader, SerializeHeader, Sections, FromBigEndian, HexText;
    PackageSlices(headerBytes, manifestBytes, body);
    SectionsAre(PackageOf(headerBytes, manifestBytes, body), headerBytes, h, manifestBytes, body);
  }

  lemma HeaderIsNotEmpty(h: Header)
    ensures HeaderText(h) != []
  {
    assert |Opening()| > 0;
  }

  /** The sections are slices of the package. */
  lemma SectionsSlice(p: seq<Byte>)
    requires Sections(p).Some?
    ensures var (h, manifestBytes, body) := Sections(p).value;
            var n := FromBigEndian(p[8..12]);
            && |p| >= 12 + n && n <= MAX_WIRE_HEADER_BYTES && p[..8] == WIRE_MAGIC
            && ParseHeader(p[12..12 + n]) == Some(h)
            && p[12 + n..] == manifestBytes + body
            && |manifestBytes| == h.manifest.sizeBytes && |body| == h.body.sizeBytes
  {
    hide ParseHeader, FromBigEndian;
  }

  lemma PackageOfSections(p: seq<Byte>)
    requires Sections(p).Some?
    ensures var (h, manifestBytes, body) := Sections(p).value;
            && SerializeHeader(h).Some? && p == PackageOf(SerializeHeader(h).value, manifestBytes, body)
            && |manifestBytes| == h.manifest.sizeBytes && |body| == h.body.sizeBytes
  {
    hide Sections, ParseHeader, FromBigEndian, SerializeHeader, PackageOf;
    SectionsSlice(p);
    var sections := Sections(p).value;
    PackageFromSlices(p, FromBigEndian(p[8..12]), sections.0, sections.1, sections.2);
  }

  lemma PackageFromSlices(p: seq<Byte>, n: nat, h: Header, manifestBytes: seq<Byte>, body: seq<Byte>)
    requires |p| >= 12 + n && n <= MAX_WIRE_HEADER_BYTES && p[..8] == WIRE_MAGIC && n == FromBigEndian(p[8..12])
    requires ParseHeader(p[12..12 + n]) == Some(h) && p[12 + n..] == manifestBytes + body
    ensures SerializeHeader(h).Some? && p == PackageOf(SerializeHeader(h).value, manifestBytes, body)
  {
    hide ParseHeader, FromBigEndian, BigEndian, SerializeHeader, PackageOf;
    SerializedSlice(p[12..12 + n], h);
    WriteRead(p[8..12]);
    JoinSlices(p, n, manifestBytes, body);
  }

  lemma SerializedSlice(headerBytes: seq<Byte>, h: Header)
    requires ParseHeader(headerBytes) == Some(h) && |headerBytes| <= MAX_WIRE_HEADER_BYTES
    ensures SerializeHeader(h) == Some(headerBytes)
  {
    HeaderIffPrinted(headerBytes, h);
    hide HeaderText, ParseHeader, ValidHeader;
  }

  lemma JoinSlices(p: seq<Byte>, n: nat, manifestBytes: seq<Byte>, body: seq<Byte>)
    requires |p| >= 12 + n && p[..8] == WIRE_MAGIC && p[8..12] == BigEndian(n, 4)
    requires p[12 + n..] == manifestBytes + body
    ensures p == PackageOf(p[12..12 + n], manifestBytes, body)
  {
    hide BigEndian;
    assert p == p[..8] + p[8..12] + p[12..12 + n] + p[12 + n..];
  }

  /** A package is accepted, as these sections, exactly when it is the printed form of a consistent header, manifest and
      body: no byte of it is free. */
  lemma InspectIffPrinted(p: seq<Byte>, platform: Platform, id: Text, i: Inspected, protocol: Protocol)
    ensures Inspect(p, platform, id, protocol) == Some(i) <==>
      && i.header.platform == platform && i.header.entryId == id
      && SerializeHeader(i.header).Some?
      && Consistent(i.header, i.manifest, i.manifestBytes, i.body, protocol)
      && p == PackageOf(SerializeHeader(i.header).value, i.manifestBytes, i.body)
  {
    hide PackageOf, SerializeHeader, Mapped;
    if Inspect(p, platform, id, protocol) == Some(i) {
      hide Sections;
      PackageOfSections(p);
    } else if SerializeHeader(i.header).Some? && Consistent(i.header, i.manifest, i.manifestBytes, i.body, protocol) {
      hide Sections;
      SectionsOfPackage(i.header, i.manifestBytes, i.body);
    }
  }

  /** An inspected package is of the expected slot, and its body is what its manifest names: a payload or package of the
      stated size and digest, or an archive within the bound for the stated contents. */
  lemma InspectedBodyIsNamed(p: seq<Byte>, platform: Platform, id: Text, i: Inspected, protocol: Protocol)
    requires Inspect(p, platform, id, protocol) == Some(i)
    ensures i.manifest.identity.platform == platform && i.manifest.entryId == id && protocol.entryId(i.manifest.identity) == id
    ensures 1 <= |i.manifestBytes| <= 65_536 && protocol.reader.read(i.manifestBytes) == Some(i.manifest)
    ensures protocol.reader.exact(i.manifestBytes)
    ensures if i.manifest.payload.Some? then
              |i.body| == i.manifest.payload.value.sizeBytes && protocol.hash(i.body) == i.manifest.payload.value.digest
            else if platform.Android? then
              |i.body| == i.manifest.artifact.sizeBytes && protocol.hash(i.body) == i.manifest.artifact.digest
            else
              var count := i.manifest.artifact.fileCount;
              1 <= |i.body| <= i.manifest.artifact.sizeBytes
                               + if count < 130_048 then 0x80_0000 + count * 0x2000 else 0x4000_0000
  {
    hide Inspect, PackageOf, SerializeHeader, HexText;
    InspectIffPrinted(p, platform, id, i, protocol);
    PrintedIsValid(i.header);
  }

  lemma PrintedIsValid(h: Header)
    requires SerializeHeader(h).Some?
    ensures ValidHeader(h)
  {
    hide HeaderText;
  }

  // ---- Reading and writing files in pieces ----

  const COPY_BUFFER_BYTES := 1024 * 1024

  /** `readExactly`: `None` where the file ends early. */
  method ReadExactly(file: seq<Byte>, offset: nat, length: nat) returns (r: Option<seq<Byte>>)
    ensures r == if offset + length <= |file| then Some(file[offset..offset + length]) else None
  {
    var output: seq<Byte> := [];
    while |output| < length
      invariant |output| <= length
      invariant |output| > 0 ==> offset + |output| <= |file|
      invariant offset + |output| <= |file| ==> output == file[offset..offset + |output|]
    {
      var at := offset + |output|;
      if at >= |file| {
        return None;
      }
      var left := length - |output|;
      var available := |file| - at;
      var count :| 1 <= count <= if left < available then left else available;
      output := output + file[at..at + count];
    }
    if offset > |file| {
      return None;
    }
    return Some(output);
  }

  /** `hashFileSection`: `None` where the file ends early. */
  method HashFileSection(file: seq<Byte>, offset: nat, length: nat, hash: Hash) returns (r: Option<Digest>)
    requires offset <= |file|
    ensures r == if offset + length <= |file| then Some(hash(file[offset..offset + length])) else None
  {
    var fed: seq<Byte> := [];
    var read := 0;
    while read < length
      invariant 0 <= read <= length && offset + read <= |file|
      invariant fed == file[offset..offset + read]
    {
      var left := if COPY_BUFFER_BYTES < length - read then COPY_BUFFER_BYTES else length - read;
      var available := |file| - (offset + read);
      if available == 0 {
        return None;
      }
      var count :| 1 <= count <= if left < available then left else available;
      fed := fed + file[offset + read..offset + read + count];
      read := read + count;
    }
    return Some(hash(fed));
  }

  /** `writeAll` */
  method WriteAll(output: seq<Byte>, bytes: seq<Byte>) returns (more: seq<Byte>)
    ensures more == output + bytes
  {
    more := output;
    var offset := 0;
    while offset < |bytes|
      invariant 0 <= offset <= |bytes| && more == output + bytes[..offset]
    {
      var count :| 1 <= count <= |bytes| - offset;
      assert bytes[..offset + count] == bytes[..offset] + bytes[offset..offset + count];
      more := more + bytes[offset..offset + count];
      offset := offset + count;
    }
    assert bytes[..|bytes|] == bytes;
  }

  /** `copyFileSection`: `None` where the source ends early. */
  method CopyFileSection(output: seq<Byte>, file: seq<Byte>, offset: nat, length: nat) returns (more: Option<seq<Byte>>)
    requires offset <= |file|
    ensures more == if offset + length <= |file| then Some(output + file[offset..offset + length]) else None
  {
    var copied := 0;
    var written := output;
    while copied < length
      invariant 0 <= copied <= length && offset + copied <= |file|
      invariant written == output + file[offset..offset + copied]
    {
      var left := if COPY_BUFFER_BYTES < length - copied then COPY_BUFFER_BYTES else length - copied;
      var available := |file| - (offset + copied);
      if available == 0 {
        return None;
      }
      var count :| 1 <= count <= if left < available then left else available;
      var chunk := file[offset + copied..offset + copied + count];
      assert file[offset..offset + copied] + chunk == file[offset..offset + copied + count];
      written := WriteAll(written, chunk);
      copied := copied + count;
    }
    return Some(written);
  }

  /** `inspectWirePackage` */
  method InspectWirePackage(p: seq<Byte>, platform: Platform, id: Text, protocol: Protocol) returns (r: Option<Inspected>)
    ensures r == Inspect(p, platform, id, protocol)
  {
    hide ParseHeader, Mapped;
    if |p| < WIRE_PREFIX_BYTES + 2 {
      return None;
    }
    // The sizes tested so far leave no read short.
    var prefixRead := ReadExactly(p, 0, WIRE_PREFIX_BYTES);
    var prefix := prefixRead.value;
    if prefix[..8] != WIRE_MAGIC {
      return None;
    }
    assert prefix[..8] == p[..8] && prefix[8..12] == p[8..12];
    var headerLength := FromBigEndian(prefix[8..12]);
    if headerLength == 0 || headerLength > MAX_WIRE_HEADER_BYTES {
      return None;
    }
    var headerBytes :- ReadExactly(p, WIRE_PREFIX_BYTES, headerLength);
    var header :- ParseHeader(headerBytes);
    if header.platform != platform || header.entryId != id {
      return None;
    }
    var manifestAt := WIRE_PREFIX_BYTES + headerLength;
    var bodyAt := manifestAt + header.manifest.sizeBytes;
    if bodyAt + header.body.sizeBytes != |p| {
      return None;
    }
    var manifestRead := ReadExactly(p, manifestAt, header.manifest.sizeBytes);
    var manifestBytes := manifestRead.value;
    assert p[bodyAt..bodyAt + header.body.sizeBytes] == p[bodyAt..];
    var digest := HashFileSection(p, bodyAt, header.body.sizeBytes, protocol.hash);
    if protocol.hash(manifestBytes) != header.manifest.sha256 || !protocol.reader.exact(manifestBytes) {
      return None;
    }
    var m :- protocol.reader.read(manifestBytes);
    if !Mapped(header, m, protocol) || digest.value != header.body.sha256 {
      return None;
    }
    return Some(Inspected(header, m, manifestBytes, p[bodyAt..]));
  }
}

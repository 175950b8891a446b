/** The texts and octets that leave the process, spelled out apart from the constants and functions that their writers and
    readers share. */
module Spelling {
  import opened Options
  import opened Bytes
  import opened Json
  import opened Platforms
  import opened FileTree
  import AppTreeFormat
  import TreeStream
  import Integrity
  import Entries
  import Wire
  import LanAuth
  import InsightSources
  import TreeWalk
  import AppTreeReader
  import ReplayGuard
  import Coordinator
  import opened CanonicalJson
  import EnvironmentKey
  import AppTreeOctets

  // ---- Names ----

  /** The words that name platforms, files and kinds of body. */
  lemma WordsSpelled()
    ensures PlatformName(Android) == Ascii("android") && PlatformName(IOS) == Ascii("ios")
    ensures Integrity.INFO_PLIST == Ascii("Info.plist")
    ensures Entries.ArtifactName(Android) == Ascii("artifact.apk") && Entries.ArtifactName(IOS) == Ascii("artifact.app")
    ensures Wire.KindWord(Wire.RawApk) == Ascii("raw-apk-v1") && Wire.KindWord(Wire.Zstd) == Ascii("zstd-v1")
    ensures Wire.KindWord(Wire.AppTree) == Ascii("elc-app-tree-v1")
  {
  }

  /** The limits, as numbers. */
  lemma LimitsSpelled()
    ensures AppTreeFormat.MAX_RECORDS == 1_000_000 == TreeWalk.MAX_ENTRIES && AppTreeFormat.MAX_METADATA_BYTES == 1_073_741_824
    ensures AppTreeFormat.MAX_LOGICAL_BYTES == 107_374_182_400 == Wire.MAX_WIRE_BODY_BYTES
    ensures AppTreeFormat.MAX_HEADER_BYTES == 65_536 == Wire.MAX_MANIFEST_BYTES && Wire.MAX_WIRE_HEADER_BYTES == 16_384
    ensures MAX_SAFE_INTEGER == 9_007_199_254_740_991 && InsightSources.MAX_INSIGHT_SOURCES == 10_000
    ensures forall m: Mode :: AppTreeReader.Searchable(m) <==> m / 64 % 8 in {1, 3, 5, 7}
    ensures AppTreeReader.PRIVATE_MODE == 448 && AppTreeFormat.LINK_MODE == 511
    ensures Coordinator.MAX_CLIENTS == 128 && Coordinator.CLOCK_SKEW_SECONDS == 60
    ensures Coordinator.LIMITS == ReplayGuard.Limits(300_000, 2_048, 128)
  {
  }

  // ---- Quoted text ----

  /** Neither a quote nor a backslash, a control character or half of a surrogate pair. */
  predicate Ordinary(s: Text) { forall i :: 0 <= i < |s| ==> 0x20 <= s[i] < 0xD800 && s[i] != 0x22 && s[i] != 0x5C }

  lemma {:induction false} OrdinaryIsQuoted(s: Text)
    requires Ordinary(s)
    ensures Quote(s) == [0x22] + s + [0x22]
  {
    OrdinaryStays(s);
  }

  lemma {:induction false} OrdinaryStays(s: Text)
    requires Ordinary(s)
    ensures Escape(s) == s
  {
    if s != [] {
      OrdinaryStays(s[1..]);
      assert EscapeUnit(s[0]) == [s[0]];
    }
  }

  /** The escapes `JSON.stringify` uses, of section 7 of RFC 8259. */
  lemma EscapesSpelled()
    ensures EscapeUnit(0x22) == Ascii("\\\"") && EscapeUnit(0x5C) == Ascii("\\\\")
    ensures EscapeUnit(0x08) == Ascii("\\b") && EscapeUnit(0x09) == Ascii("\\t") && EscapeUnit(0x0A) == Ascii("\\n")
    ensures EscapeUnit(0x0C) == Ascii("\\f") && EscapeUnit(0x0D) == Ascii("\\r")
    ensures EscapeUnit(0x01) == Ascii("\\u0001") && EscapeUnit(0x1F) == Ascii("\\u001f")
    ensures EscapeUnit(0xD83D) == Ascii("\\ud83d")
  {
  }

  // ---- Signed requests ----

  /** The alphabet of section 5 of RFC 4648. */
  lemma AlphabetSpelled(i: nat)
    ensures i < 26 ==> LanAuth.Base64Value(Ascii("ABCDEFGHIJKLMNOPQRSTUVWXYZ")[i]) == i
    ensures i < 26 ==> LanAuth.Base64Value(Ascii("abcdefghijklmnopqrstuvwxyz")[i]) == 26 + i
    ensures i < 12 ==> LanAuth.Base64Value(Ascii("0123456789-_")[i]) == 52 + i
  {
    hide LanAuth.Base64Value, Ascii;
    if i < 26 {
      UpperCaseSpelled(i);
      LowerCaseSpelled(i);
    }
    if i < 12 {
      DigitsSpelled(i);
    }
  }

  lemma UpperCaseSpelled(i: nat)
    requires i < 26
    ensures LanAuth.Base64Value(Ascii("ABCDEFGHIJKLMNOPQRSTUVWXYZ")[i]) == i
  {
  }

  lemma LowerCaseSpelled(i: nat)
    requires i < 26
    ensures LanAuth.Base64Value(Ascii("abcdefghijklmnopqrstuvwxyz")[i]) == 26 + i
  {
  }

  lemma DigitsSpelled(i: nat)
    requires i < 12
    ensures LanAuth.Base64Value(Ascii("0123456789-_")[i]) == 52 + i
  {
  }

  lemma TokensSpelled(u: Unit)
    ensures LanAuth.IsToken(u) <==>
      || 'A' as nat <= u <= 'Z' as nat || 'a' as nat <= u <= 'z' as nat || '0' as nat <= u <= '9' as nat
      || u == '-' as nat || u == '_' as nat
  {
  }

  /** The last character of a secret carries four bits. */
  lemma SecretsSpelled(s: Text)
    ensures LanAuth.SecretText(s) <==>
      |s| == 43 && (forall i :: 0 <= i < 43 ==> LanAuth.IsToken(s[i])) && s[42] in Ascii("AEIMQUYcgkosw048")
  {
    if |s| == 43 && LanAuth.IsToken(s[42]) {
      LastCharacters(s[42]);
    }
  }

  lemma LastCharacters(u: Unit)
    requires LanAuth.IsToken(u)
    ensures LanAuth.Base64Value(u) % 4 == 0 <==> u in Ascii("AEIMQUYcgkosw048")
  {
    var t := Ascii("AEIMQUYcgkosw048");
    assert t == [65, 69, 73, 77, 81, 85, 89, 99, 103, 107, 111, 115, 119, 48, 52, 56];
    hide Ascii;
  }

  lemma AuthTextSpelled(r: LanAuth.Request)
    requires LanAuth.Canonicalize(r).Some?
    ensures LanAuth.Canonicalize(r).value ==
      Ascii("ELCAUTH1") + [10] + r.clientId + [10] + r.verb + [10] + r.pathname + [10] + r.timestamp + [10] + r.nonce + [10]
      + Decimal(r.contentLength) + [10] + r.contentSha256
  {
    hide Decimal;
    var f := LanAuth.Fields(r);
    LinesOf8(f);
    assert LanAuth.AUTH_TAG == Ascii("ELCAUTH1");
    hide Ascii, LanAuth.WellFormed, LanAuth.Lines;
  }

  lemma LinesOf8(f: seq<Text>)
    requires |f| == 8
    ensures LanAuth.Lines(f) ==
      f[0] + [10] + f[1] + [10] + f[2] + [10] + f[3] + [10] + f[4] + [10] + f[5] + [10] + f[6] + [10] + f[7]
  {
    hide LanAuth.Lines;
    LinesOf4(f, 4, f[7]);
    var rest := LanAuth.Lines(f[4..]);
    assert rest == f[4] + [10] + f[5] + [10] + f[6] + [10] + f[7];
    LinesOf4(f, 0, rest);
    assert f[0..] == f;
    FlattenLines(f[0] + [10] + f[1] + [10] + f[2] + [10] + f[3] + [10], f[4], f[5], f[6], f[7]);
  }

  lemma FlattenLines(front: Text, a: Text, b: Text, c: Text, d: Text)
    ensures front + (a + [10] + b + [10] + c + [10] + d) == front + a + [10] + b + [10] + c + [10] + d
  {
  }

  /** Four lines from the `k`-th on, before what the rest of the lines make. */
  lemma LinesOf4(f: seq<Text>, k: nat, rest: Text)
    requires k + 4 <= |f|
    requires k + 4 < |f| ==> rest == LanAuth.Lines(f[k + 4..])
    requires k + 4 == |f| ==> rest == f[k + 3]
    ensures LanAuth.Lines(f[k..]) ==
      f[k] + [10] + f[k + 1] + [10] + f[k + 2] + [10] + (if k + 4 < |f| then f[k + 3] + [10] + rest else rest)
  {
    hide LanAuth.Lines;
    LinesFrom(f, k);
    LinesFrom(f, k + 1);
    LinesFrom(f, k + 2);
    LinesFrom(f, k + 3);
  }

  lemma LinesFrom(f: seq<Text>, k: nat)
    requires k < |f|
    ensures LanAuth.Lines(f[k..]) == if k + 1 == |f| then f[k] else f[k] + [10] + LanAuth.Lines(f[k + 1..])
  {
    assert f[k..][1..] == f[k + 1..];
  }

  // ---- The tree digest ----

  function FrameSpelled(kind: Text, path: Text, mode: nat, size: nat): Text
  {
    Ascii("{\"type\":\"") + kind + Ascii("\",\"relativePath\":") + Quote(path) + Ascii(",\"mode\":") + Decimal(mode)
    + Ascii(",\"size\":") + Decimal(size) + Ascii("}") + [0]
  }

  lemma FrameIsSpelled(kind: Text, path: Text, mode: nat, size: nat, rest: Text)
    requires Ordinary(kind)
    ensures TreeStream.Frame(kind, path, mode, size, rest) == FrameSpelled(kind, path, mode, size) + rest
  {
    hide Ascii, Quote, Decimal, TreeStream.PathField;
    OrdinaryIsQuoted(kind);
    FrameWords();
    PathIsSpelled(path, mode, size, [0] + rest);
    var tail := Quote(path) + Ascii(",\"mode\":") + Decimal(mode) + Ascii(",\"size\":") + Decimal(size) + Ascii("}");
    InQuotes(Ascii("{\"type\":"), kind, Ascii(",\"relativePath\":") + (tail + ([0] + rest)));
  }

  lemma PathIsSpelled(path: Text, mode: nat, size: nat, rest: Text)
    ensures TreeStream.PathField(path, mode, size, rest) ==
      Ascii(",\"relativePath\":")
      + ((Quote(path) + Ascii(",\"mode\":") + Decimal(mode) + Ascii(",\"size\":") + Decimal(size) + Ascii("}")) + rest)
  {
    hide Ascii, Quote, Decimal, TreeStream.SizeField;
    SizeIsSpelled(size, rest);
  }

  lemma SizeIsSpelled(size: nat, rest: Text)
    ensures TreeStream.SizeField(size, rest) == Ascii(",\"size\":") + Decimal(size) + Ascii("}") + rest
  {
    hide Ascii, Decimal;
  }

  lemma FrameWords()
    ensures Ascii("{\"type\":\"") == Ascii("{\"type\":") + [0x22]
    ensures Ascii("\",\"relativePath\":") == [0x22] + Ascii(",\"relativePath\":")
  {
  }

  lemma KindsAreOrdinary()
    ensures Ordinary(Ascii("directory")) && Ordinary(Ascii("file")) && Ordinary(Ascii("symlink"))
  {
  }

  lemma DirectorySpelled(path: seq<Byte>, mode: Mode, rest: Text)
    ensures TreeStream.Section(Record(path, Directory(mode)), rest) == FrameSpelled(Ascii("directory"), path, mode, 0) + rest
  {
    hide Ascii, FrameSpelled, TreeStream.Frame;
    KindsAreOrdinary();
    FrameIsSpelled(Ascii("directory"), path, mode, 0, rest);
  }

  lemma FileSpelled(path: seq<Byte>, mode: Mode, data: seq<Byte>, rest: Text)
    ensures TreeStream.Section(Record(path, File(mode, data)), rest)
         == FrameSpelled(Ascii("file"), path, mode, |data|) + data + [0] + rest
  {
    hide Ascii, FrameSpelled, TreeStream.Frame;
    KindsAreOrdinary();
    FrameIsSpelled(Ascii("file"), path, mode, |data|, data + ([0] + rest));
  }

  lemma LinkSpelled(path: seq<Byte>, mode: Mode, target: seq<Byte>, rest: Text)
    ensures TreeStream.Section(Record(path, Symlink(mode, target)), rest)
         == FrameSpelled(Ascii("symlink"), path, mode, |target|) + target + [0] + rest
  {
    hide Ascii, FrameSpelled, TreeStream.Frame;
    KindsAreOrdinary();
    FrameIsSpelled(Ascii("symlink"), path, mode, |target|, target + ([0] + rest));
  }

  // ---- The wire package ----

  function PartSpelled(p: Wire.Part): Text
  {
    Ascii("\"sizeBytes\":") + Decimal(p.sizeBytes) + Ascii(",\"sha256\":\"") + p.sha256 + Ascii("\"}")
  }

  function BodySpelled(h: Wire.Header): Text
  {
    Ascii(",\"body\":{\"kind\":\"") + Wire.KindWord(h.kind) + Ascii("\",") + PartSpelled(h.body) + Ascii("}")
  }

  function HeaderSpelled(h: Wire.Header): Text
  {
    Ascii("{\"schemaVersion\":1,\"platform\":\"") + PlatformName(h.platform) + Ascii("\",\"entryId\":\"") + h.entryId
    + Ascii("\",\"manifest\":{") + PartSpelled(h.manifest) + BodySpelled(h)
  }

  lemma PartIsSpelled(p: Wire.Part, rest: Text)
    requires HexText(p.sha256)
    ensures Wire.PartText(p, rest) == PartSpelled(p) + rest
  {
    hide Ascii, Decimal, Quote;
    OrdinaryIsQuoted(p.sha256);
    PartWords();
  }

  lemma PartWords()
    ensures Wire.SIZE_KEY == Ascii("\"sizeBytes\":")
    ensures Ascii(",\"sha256\":\"") == Wire.ShaKey() + [0x22] && Ascii("\"}") == [0x22, 0x7D]
  {
  }

  lemma HeaderWords()
    ensures Ascii("{\"schemaVersion\":1,\"platform\":\"") == Wire.Opening() + [0x22]
    ensures Ascii("\",\"entryId\":\"") == [0x22] + Wire.EntryKey() + [0x22]
    ensures Ascii("\",\"manifest\":{") == [0x22] + Wire.ManifestKey()
    ensures Ascii(",\"body\":{\"kind\":\"") == Wire.BodyKey() + [0x22]
    ensures Ascii("\",") == [0x22, 0x2C] && Ascii("}") == [0x7D]
  {
  }

  lemma BodyIsSpelled(h: Wire.Header)
    requires HexText(h.body.sha256)
    ensures Wire.BodyText(h) == BodySpelled(h)
  {
    hide Ascii, PartSpelled, Wire.PartText, Quote, Wire.BodyKey, Wire.KindWord;
    HeaderWords();
    WordsAreOrdinary(h.platform, h.kind);
    OrdinaryIsQuoted(Wire.KindWord(h.kind));
    PartIsSpelled(h.body, [0x7D]);
  }

  lemma HeaderIsSpelled(h: Wire.Header)
    requires Wire.ValidHeader(h)
    ensures Wire.HeaderText(h) == HeaderSpelled(h)
  {
    hide Ascii, PartSpelled, BodySpelled, Wire.PartText, Quote, Wire.Opening, Wire.EntryKey, Wire.ManifestKey, Wire.BodyText;
    hide PlatformName;
    HeaderWords();
    WordsAreOrdinary(h.platform, h.kind);
    OrdinaryIsQuoted(PlatformName(h.platform));
    OrdinaryIsQuoted(h.entryId);
    BodyIsSpelled(h);
    PartIsSpelled(h.manifest, BodySpelled(h));
    var rest := PartSpelled(h.manifest) + BodySpelled(h);
    InQuotes(Wire.EntryKey(), h.entryId, Wire.ManifestKey() + rest);
    InQuotes(Wire.Opening(), PlatformName(h.platform), Wire.EntryKey() + (Quote(h.entryId) + (Wire.ManifestKey() + rest)));
    Regroup(h, rest);
  }

  lemma InQuotes(key: Text, word: Text, rest: Text)
    ensures key + ([0x22] + word + [0x22] + rest) == (key + [0x22]) + (word + ([0x22] + rest))
  {
  }

  lemma Regroup(h: Wire.Header, rest: Text)
    ensures Wire.Opening() + [0x22] + (PlatformName(h.platform) + ([0x22] + (Wire.EntryKey() + [0x22]
              + (h.entryId + ([0x22] + (Wire.ManifestKey() + rest))))))
         == (Wire.Opening() + [0x22]) + PlatformName(h.platform) + ([0x22] + Wire.EntryKey() + [0x22]) + h.entryId
            + ([0x22] + Wire.ManifestKey()) + rest
  {
    hide PlatformName, Wire.Opening, Wire.EntryKey, Wire.ManifestKey;
  }

  lemma WordsAreOrdinary(p: Platform, k: Wire.BodyKind)
    ensures Ordinary(PlatformName(p)) && Ordinary(Wire.KindWord(k))
  {
  }

  lemma PartLength(p: Wire.Part)
    requires HexText(p.sha256) && p.sizeBytes < 1_000_000_000_000
    ensures |PartSpelled(p)| <= 110
  {
    hide Ascii, Decimal;
    LanAuth.DigitsOf(p.sizeBytes, 12);
    LanAuth.Power12();
  }

  /** A header can be written exactly if its ids and digests are hexadecimal and its sizes are in range: it is never too long. */
  lemma HeadersInTerms(h: Wire.Header)
    ensures Wire.SerializeHeader(h).Some? <==>
      && HexText(h.entryId) && HexText(h.manifest.sha256) && HexText(h.body.sha256)
      && 1 <= h.manifest.sizeBytes <= 65_536 && 1 <= h.body.sizeBytes <= 107_374_182_400
  {
    hide Wire.HeaderText;
    if Wire.ValidHeader(h) {
      HeaderLength(h);
    }
  }

  lemma HeaderLength(h: Wire.Header)
    requires Wire.ValidHeader(h)
    ensures |Wire.HeaderText(h)| <= 16_384
  {
    hide Ascii, PartSpelled, Wire.HeaderText, Wire.KindWord, PlatformName;
    HeaderIsSpelled(h);
    PartLength(h.manifest);
    PartLength(h.body);
    WordLengths(h.platform, h.kind);
  }

  lemma WordLengths(p: Platform, k: Wire.BodyKind)
    ensures |PlatformName(p)| <= 7 && |Wire.KindWord(k)| <= 15
  {
  }

  /** "ELCWIRE1", the header's length in four octets, the header, the manifest, the body. */
  lemma PackageSpelled(headerBytes: seq<Byte>, manifestBytes: seq<Byte>, body: seq<Byte>)
    ensures Wire.PackageOf(headerBytes, manifestBytes, body) ==
      [0x45, 0x4C, 0x43, 0x57, 0x49, 0x52, 0x45, 0x31] + AppTreeOctets.Octets4(|headerBytes|) + headerBytes + manifestBytes + body
  {
    hide BigEndian, AppTreeOctets.Octets4;
    AppTreeOctets.WrittenIn4(|headerBytes|);
  }

  // ---- Fingerprint sources ----

  function KindSpelled(k: InsightSources.SourceKind): Text
  {
    match k
    case FileSource => Ascii("file")
    case DirSource => Ascii("dir")
    case ContentsSource => Ascii("contents")
  }

  /** NULs between the kind, what it is compared by, and the number; and between the kind and the hashed identity. */
  lemma SourceKeySpelled(s: InsightSources.Source, raw: InsightSources.RawSource, hash: TextHash)
    ensures InsightSources.SourceKey(s) == KindSpelled(s.kind) + [0] + s.comparatorHash + [0] + Decimal(s.occurrence)
    ensures InsightSources.Readable(raw) ==>
      InsightSources.ComparatorHash(raw, hash) == hash(KindSpelled(raw.kind.value) + [0] + raw.identity.value)
  {
    hide Ascii, Decimal;
  }

  // ---- Canonical values ----

  lemma LeavesSpelled(n: int)
    ensures Canonicalize(Null) == Ascii("null")
    ensures Canonicalize(Bool(true)) == Ascii("true") && Canonicalize(Bool(false)) == Ascii("false")
    ensures Canonicalize(Number(n)) == if n < 0 then Ascii("-") + Decimal(-n) else Decimal(n)
  {
  }

  lemma ArraySpelled(v: Value, w: Value)
    ensures Canonicalize(Array([v, w])) == Ascii("[") + Canonicalize(v) + Ascii(",") + Canonicalize(w) + Ascii("]")
  {
    hide Canonicalize, JoinItems;
    TwoItems(v, w);
    ArrayOf([v, w]);
  }

  lemma ArrayOf(items: seq<Value>)
    ensures Canonicalize(Array(items)) == [0x5B] + JoinItems(items) + [0x5D]
  {
    hide JoinItems;
  }

  lemma TwoItems(v: Value, w: Value)
    ensures JoinItems([v, w]) == Canonicalize(v) + [0x2C] + Canonicalize(w)
  {
    hide Canonicalize;
    assert [v, w][1..] == [w];
    assert JoinItems([w]) == Canonicalize(w);
  }

  lemma ObjectSpelled(v: Value, w: Value, k: Text, l: Text)
    requires Less(k, l)
    ensures Canonicalize(Object([Field(l, w), Field(k, v)])) ==
      Ascii("{") + Quote(k) + Ascii(":") + Canonicalize(v) + Ascii(",") + Quote(l) + Ascii(":") + Canonicalize(w) + Ascii("}")
  {
    hide Canonicalize, Quote, SortedEntries, JoinEntries;
    TwoSorted(v, w, k, l);
    TwoJoined(Entry(k, Canonicalize(v)), Entry(l, Canonicalize(w)));
    ObjectOf([Field(l, w), Field(k, v)]);
  }

  lemma ObjectOf(fields: seq<Field>)
    ensures Canonicalize(Object(fields)) == Ascii("{") + JoinEntries(SortedEntries(fields)) + Ascii("}")
  {
    hide JoinEntries, SortedEntries;
  }

  lemma TwoJoined(a: Entry, b: Entry)
    ensures JoinEntries([a, b]) == Quote(a.key) + Ascii(":") + a.text + Ascii(",") + Quote(b.key) + Ascii(":") + b.text
  {
    hide Quote, JoinEntries;
    JoinFrom([a, b], 0);
    JoinFrom([a, b], 1);
    assert [a, b][0..] == [a, b];
  }

  lemma TwoSorted(v: Value, w: Value, k: Text, l: Text)
    requires Less(k, l)
    ensures SortedEntries([Field(l, w), Field(k, v)]) == [Entry(k, Canonicalize(v)), Entry(l, Canonicalize(w))]
  {
    var a, b := Entry(k, Canonicalize(v)), Entry(l, Canonicalize(w));
    assert [Field(l, w), Field(k, v)][1..] == [Field(k, v)];
    assert SortedEntries([Field(k, v)]) == InsertEntry(a, []);
    hide SortedEntries, Canonicalize;
    LessAsymmetric(k, l);
    InsertLater(b, [a]);
    assert [a][1..] == [];
  }

  lemma InsertLater(e: Entry, es: seq<Entry>)
    requires es != [] && !Less(e.key, es[0].key)
    ensures InsertEntry(e, es) == [es[0]] + InsertEntry(e, es[1..])
  {
  }

  lemma JoinFrom(es: seq<Entry>, k: nat)
    requires k < |es|
    ensures JoinEntries(es[k..]) ==
      Quote(es[k].key) + [0x3A] + es[k].text + (if k + 1 == |es| then [] else [0x2C] + JoinEntries(es[k + 1..]))
  {
    hide Quote;
    assert es[k..][1..] == es[k + 1..];
  }

  lemma {:induction false} LessAsymmetric(a: Text, b: Text)
    requires Less(a, b)
    ensures !Less(b, a)
  {
    if a != [] && b != [] && a[0] == b[0] {
      LessAsymmetric(a[1..], b[1..]);
    }
  }

  // ---- Environment payloads ----

  lemma KeysSpelled()
    ensures EnvironmentKey.SchemaKey() == Ascii("schema") && EnvironmentKey.BaseKey() == Ascii("baseFingerprintHash")
    ensures EnvironmentKey.PlatformKey() == Ascii("platform") && EnvironmentKey.ProfileKey() == Ascii("runProfile")
    ensures EnvironmentKey.ToolchainKey() == Ascii("toolchain")
  {
    hide Ascii;
  }

  lemma MoreKeysSpelled()
    ensures EnvironmentKey.ModeKey() == Ascii("toolchainMode")
    ensures EnvironmentKey.DigestKey() == Ascii("environmentKeyDigest")
  {
    hide Ascii;
  }

  lemma SchemaSpelled()
    ensures EnvironmentKey.SchemaName() == SchemaText()
  {
    hide Ascii;
  }

  /** "key": and a value. */
  function Member(key: Text, value: Text): Text { [0x22] + key + Ascii("\":") + value }

  lemma MemberFrom(es: seq<Entry>, k: nat)
    requires k < |es| && Ordinary(es[k].key)
    ensures JoinEntries(es[k..]) ==
      Member(es[k].key, es[k].text) + (if k + 1 == |es| then [] else Ascii(",") + JoinEntries(es[k + 1..]))
  {
    hide Quote, JoinEntries;
    OrdinaryIsQuoted(es[k].key);
    JoinFrom(es, k);
  }

  /** An entry goes behind those it is not before, and in front of the rest. */
  lemma {:induction false} InsertBetween(e: Entry, front: seq<Entry>, back: seq<Entry>)
    requires forall i :: 0 <= i < |front| ==> !Less(e.key, front[i].key)
    requires back != [] ==> Less(e.key, back[0].key)
    ensures InsertEntry(e, front + back) == front + [e] + back
  {
    hide Less;
    if front == [] {
      assert front + back == back;
    } else {
      InsertLater(e, front + back);
      InsertBetween(e, front[1..], back);
      assert (front + back)[1..] == front[1..] + back;
    }
  }

  lemma Inserted(e: Entry, es: seq<Entry>, front: seq<Entry>, back: seq<Entry>, all: seq<Entry>)
    requires es == front + back && all == front + [e] + back
    requires forall i :: 0 <= i < |front| ==> !Less(e.key, front[i].key)
    requires back != [] ==> Less(e.key, back[0].key)
    ensures InsertEntry(e, es) == all
  {
    hide Less, InsertEntry;
    InsertBetween(e, front, back);
  }

  lemma SortedFrom(fields: seq<Field>, k: nat)
    requires k < |fields|
    ensures SortedEntries(fields[k..]) ==
      InsertEntry(Entry(fields[k].key, Canonicalize(fields[k].value)), SortedEntries(fields[k + 1..]))
  {
    hide Canonicalize, InsertEntry;
    assert fields[k..][1..] == fields[k + 1..];
  }

  /** The property names of a payload, in code-unit order. */
  function Keys(): (keys: seq<Text>)
    ensures |keys| == 7
  {
    [EnvironmentKey.BaseKey(), EnvironmentKey.DigestKey(), EnvironmentKey.PlatformKey(), EnvironmentKey.ProfileKey(),
     EnvironmentKey.SchemaKey(), EnvironmentKey.ToolchainKey(), EnvironmentKey.ModeKey()]
  }

  lemma FirstDecides(a: Text, b: Text)
    requires a != [] && b != [] && a[0] < b[0]
    ensures Less(a, b)
  {
  }

  lemma FirstsOfKeys()
    ensures Keys()[0][0] == 0x62 && Keys()[1][0] == 0x65 && Keys()[2][0] == 0x70 && Keys()[3][0] == 0x72
    ensures Keys()[4][0] == 0x73 && Keys()[5][0] == 0x74 && Keys()[6][0] == 0x74
  {
  }

  lemma ToolchainFirst()
    ensures Less(EnvironmentKey.ToolchainKey(), EnvironmentKey.ModeKey())
  {
    PrefixLess(EnvironmentKey.ToolchainKey(), EnvironmentKey.ModeKey());
  }

  lemma KeysInOrder(i: nat, j: nat)
    requires i < j < 7
    ensures Less(Keys()[i], Keys()[j]) && !Less(Keys()[j], Keys()[i])
  {
    FirstsOfKeys();
    if i == 5 {
      ToolchainFirst();
    } else {
      FirstDecides(Keys()[i], Keys()[j]);
    }
    LessAsymmetric(Keys()[i], Keys()[j]);
  }

  function EntryAt(fields: seq<Field>, k: nat): Entry
    requires k < |fields|
  {
    Entry(fields[k].key, Canonicalize(fields[k].value))
  }

  /** Fields whose keys are those of a payload, in the order the code writes them, come out in code-unit order. */
  lemma {:induction false} SevenSorted(f: seq<Field>)
    requires |f| == 7 && f[0].key == Keys()[4] && f[1].key == Keys()[0] && f[2].key == Keys()[2] && f[3].key == Keys()[3]
    requires f[4].key == Keys()[6] && f[5].key == Keys()[5] && f[6].key == Keys()[1]
    ensures SortedEntries(f) ==
      [EntryAt(f, 1), EntryAt(f, 6), EntryAt(f, 2), EntryAt(f, 3), EntryAt(f, 0), EntryAt(f, 5), EntryAt(f, 4)]
  {
    hide Keys, Less, SortedEntries, InsertEntry;
    forall i, j | 0 <= i < j < 7 ensures Less(Keys()[i], Keys()[j]) && !Less(Keys()[j], Keys()[i]) {
      KeysInOrder(i, j);
    }
    var b, d, p, r := EntryAt(f, 1), EntryAt(f, 6), EntryAt(f, 2), EntryAt(f, 3);
    var s, t, m := EntryAt(f, 0), EntryAt(f, 5), EntryAt(f, 4);
    SortedFrom(f, 6);
    NoEntries(f[7..]);
    Inserted(d, [], [], [], [d]);
    SortedFrom(f, 5);
    Inserted(t, [d], [d], [], [d, t]);
    SortedFrom(f, 4);
    Inserted(m, [d, t], [d, t], [], [d, t, m]);
    SortedFrom(f, 3);
    Inserted(r, [d, t, m], [d], [t, m], [d, r, t, m]);
    SortedFrom(f, 2);
    Inserted(p, [d, r, t, m], [d], [r, t, m], [d, p, r, t, m]);
    SortedFrom(f, 1);
    Inserted(b, [d, p, r, t, m], [], [d, p, r, t, m], [b, d, p, r, t, m]);
    SortedFrom(f, 0);
    Inserted(s, [b, d, p, r, t, m], [b, d, p, r], [t, m], [b, d, p, r, s, t, m]);
    assert f[0..] == f;
  }

  lemma NoEntries(fields: seq<Field>)
    requires fields == []
    ensures SortedEntries(fields) == []
  {
  }

  lemma KeysAreOrdinary(k: nat)
    requires k < 7
    ensures Ordinary(Keys()[k])
  {
    LongKeysAreOrdinary();
    ShortKeysAreOrdinary();
  }

  lemma LongKeysAreOrdinary()
    ensures Ordinary(EnvironmentKey.BaseKey()) && Ordinary(EnvironmentKey.DigestKey()) && Ordinary(EnvironmentKey.ModeKey())
  {
  }

  lemma ShortKeysAreOrdinary()
    ensures Ordinary(EnvironmentKey.SchemaKey()) && Ordinary(EnvironmentKey.PlatformKey())
    ensures Ordinary(EnvironmentKey.ProfileKey()) && Ordinary(EnvironmentKey.ToolchainKey())
  {
  }

  /** Members between braces, with commas. */
  function Members(es: seq<Entry>): Text
  {
    if es == [] then [] else Member(es[0].key, es[0].text) + (if |es| == 1 then [] else Ascii(",") + Members(es[1..]))
  }

  lemma {:induction false} JoinedAreMembers(es: seq<Entry>)
    requires forall i :: 0 <= i < |es| ==> Ordinary(es[i].key)
    ensures JoinEntries(es) == Members(es)
  {
    hide Quote, Member;
    if es != [] {
      MemberFrom(es, 0);
      assert es[0..] == es;
      JoinedAreMembers(es[1..]);
    }
  }

  function FirstMembers(i: EnvironmentKey.Input): seq<Entry>
  {
    [Entry(Ascii("baseFingerprintHash"), Quote(i.baseFingerprintHash)),
     Entry(Ascii("environmentKeyDigest"), DigestSpelled(i.environmentKeyDigest))]
  }

  function MiddleMembers(i: EnvironmentKey.Input): seq<Entry>
  {
    [Entry(Ascii("platform"), Quote(PlatformName(i.platform))), Entry(Ascii("runProfile"), Canonicalize(i.runProfile))]
  }

  function SchemaText(): Text { Ascii("eas-local-cache/environment-key/v1") }

  function SchemaMember(): Entry { Entry(Ascii("schema"), Quote(SchemaText())) }

  function LastMembers(i: EnvironmentKey.Input): seq<Entry>
  {
    [Entry(Ascii("toolchain"), Canonicalize(i.toolchain)), Entry(Ascii("toolchainMode"), Quote(ModeSpelled(i.mode)))]
  }

  /** The text that is hashed for a mode other than off: seven properties in code-unit order. */
  lemma PayloadSpelled(i: EnvironmentKey.Input)
    requires !i.mode.Off? && EnvironmentKey.SerializePayload(i).Some?
    ensures EnvironmentKey.SerializePayload(i).value ==
      Ascii("{") + Members(FirstMembers(i) + MiddleMembers(i) + [SchemaMember()] + LastMembers(i)) + Ascii("}")
  {
    hide Ascii, Members, PlatformName, Quote, Canonicalize, EnvironmentKey.ValidInput, SortedEntries;
    hide EnvironmentKey.SchemaKey, EnvironmentKey.BaseKey, EnvironmentKey.PlatformKey, EnvironmentKey.ProfileKey;
    hide EnvironmentKey.ModeKey, EnvironmentKey.ToolchainKey, EnvironmentKey.DigestKey, EnvironmentKey.SchemaName;
    var f := EnvironmentKey.PayloadFields(i);
    ObjectOf(f);
    SevenSorted(f);
    PayloadEntries(i);
    KeysSpelled();
    MoreKeysSpelled();
    SchemaSpelled();
    forall k | 0 <= k < 7 ensures Ordinary(SortedEntries(f)[k].key) {
      KeysAreOrdinary(k);
    }
    JoinedAreMembers(SortedEntries(f));
    assert SortedEntries(f) == FirstMembers(i) + MiddleMembers(i) + [SchemaMember()] + LastMembers(i);
  }

  /** In mode off there are three properties. */
  lemma OffPayloadSpelled(i: EnvironmentKey.Input)
    requires i.mode.Off? && EnvironmentKey.SerializePayload(i).Some?
    ensures EnvironmentKey.SerializePayload(i).value ==
      Ascii("{") + Members(FirstMembers(i) + [SchemaMember()]) + Ascii("}")
  {
    hide Ascii, Members, Quote, Canonicalize, EnvironmentKey.ValidInput, SortedEntries;
    hide EnvironmentKey.SchemaKey, EnvironmentKey.BaseKey, EnvironmentKey.DigestKey, EnvironmentKey.SchemaName;
    var f := EnvironmentKey.PayloadFields(i);
    ObjectOf(f);
    ThreeSorted(f);
    OffEntries(i);
    KeysSpelled();
    MoreKeysSpelled();
    SchemaSpelled();
    KeysAreOrdinary(0);
    KeysAreOrdinary(1);
    KeysAreOrdinary(4);
    JoinedAreMembers(SortedEntries(f));
    assert SortedEntries(f) == FirstMembers(i) + [SchemaMember()];
  }

  lemma {:induction false} ThreeSorted(f: seq<Field>)
    requires |f| == 3 && f[0].key == Keys()[4] && f[1].key == Keys()[0] && f[2].key == Keys()[1]
    ensures SortedEntries(f) == [EntryAt(f, 1), EntryAt(f, 2), EntryAt(f, 0)]
  {
    hide Keys, Less, SortedEntries, InsertEntry;
    KeysInOrder(0, 1);
    KeysInOrder(0, 4);
    KeysInOrder(1, 4);
    SortedFrom(f, 2);
    NoEntries(f[3..]);
    Inserted(EntryAt(f, 2), [], [], [], [EntryAt(f, 2)]);
    SortedFrom(f, 1);
    Inserted(EntryAt(f, 1), [EntryAt(f, 2)], [], [EntryAt(f, 2)], [EntryAt(f, 1), EntryAt(f, 2)]);
    SortedFrom(f, 0);
    Inserted(EntryAt(f, 0), [EntryAt(f, 1), EntryAt(f, 2)], [EntryAt(f, 1), EntryAt(f, 2)], [],
             [EntryAt(f, 1), EntryAt(f, 2), EntryAt(f, 0)]);
    assert f[0..] == f;
  }

  lemma OffEntries(i: EnvironmentKey.Input)
    requires i.mode.Off?
    ensures var f := EnvironmentKey.PayloadFields(i);
      && EntryAt(f, 0).text == Quote(EnvironmentKey.SchemaName()) && EntryAt(f, 1).text == Quote(i.baseFingerprintHash)
      && EntryAt(f, 2).text == DigestSpelled(i.environmentKeyDigest)
  {
    hide Ascii, Quote, EnvironmentKey.SchemaKey, EnvironmentKey.BaseKey, EnvironmentKey.DigestKey, EnvironmentKey.SchemaName;
    NullSpelled();
  }

  function DigestSpelled(d: Option<Text>): Text { if d.Some? then Quote(d.value) else Ascii("null") }

  function ModeSpelled(m: EnvironmentKey.ToolchainMode): Text
  {
    match m
    case Off => Ascii("off")
    case Safe => Ascii("safe")
    case Strict => Ascii("strict")
  }

  lemma PayloadEntries(i: EnvironmentKey.Input)
    requires !i.mode.Off?
    ensures var f := EnvironmentKey.PayloadFields(i);
      && EntryAt(f, 0).text == Quote(EnvironmentKey.SchemaName()) && EntryAt(f, 1).text == Quote(i.baseFingerprintHash)
      && EntryAt(f, 2).text == Quote(PlatformName(i.platform)) && EntryAt(f, 3).text == Canonicalize(i.runProfile)
      && EntryAt(f, 4).text == Quote(ModeSpelled(i.mode)) && EntryAt(f, 5).text == Canonicalize(i.toolchain)
      && EntryAt(f, 6).text == DigestSpelled(i.environmentKeyDigest)
  {
    hide Ascii, Quote, PlatformName;
    hide EnvironmentKey.SchemaKey, EnvironmentKey.BaseKey, EnvironmentKey.PlatformKey, EnvironmentKey.ProfileKey;
    hide EnvironmentKey.ModeKey, EnvironmentKey.ToolchainKey, EnvironmentKey.DigestKey, EnvironmentKey.SchemaName;
    NullSpelled();
  }

  lemma NullSpelled()
    ensures Canonicalize(Null) == Ascii("null")
  {
  }
}

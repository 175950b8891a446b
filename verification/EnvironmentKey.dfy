/** The environment identity: which inputs share a fingerprint. */
module EnvironmentKey {
  import opened Options
  import opened Json
  import opened CanonicalJson
  import opened Platforms

  datatype ToolchainMode = Off | Safe | Strict

  datatype Input = Input(baseFingerprintHash: Text, platform: Platform, runProfile: Value, mode: ToolchainMode,
                         toolchain: Value, environmentKeyDigest: Option<Text>)

  datatype KeySchema = ExpoBase | EnvironmentV1

  datatype Identity = Identity(baseFingerprintHash: Text, effectiveFingerprintHash: Text, keySchema: KeySchema,
                               mode: ToolchainMode, environmentKeyDigest: Option<Text>)

  const PREFIX: Text := [0x65, 0x6C, 0x63, 0x2D, 0x65, 0x6E, 0x76, 0x2D, 0x76, 0x31, 0x3A]

  predicate IsControl(u: Unit) { u <= 0x1F || 0x7F <= u <= 0x9F }

  predicate ValidBaseHash(t: Text) { 0 < |t| <= 256 && forall i :: 0 <= i < |t| ==> !IsControl(t[i]) }

  predicate ValidInput(i: Input)
  {
    && ValidBaseHash(i.baseFingerprintHash)
    && (i.environmentKeyDigest.Some? ==> HexText(i.environmentKeyDigest.value))
  }

  /** The run profile and the toolchain are objects with each key once. */
  predicate ProperInput(i: Input) { Proper(i.runProfile) && Proper(i.toolchain) }

  function ModeText(m: ToolchainMode): Text
  {
    match m
    case Off => Ascii("off")
    case Safe => Ascii("safe")
    case Strict => Ascii("strict")
  }

  function DigestValue(d: Option<Text>): Value { if d.Some? then String(d.value) else Null }

  // The property names, each known by its length.

  function SchemaKey(): (t: Text)
    ensures |t| == 6
  { Ascii("schema") }

  function BaseKey(): (t: Text)
    ensures |t| == 19
  { Ascii("baseFingerprintHash") }

  function PlatformKey(): (t: Text)
    ensures |t| == 8
  { Ascii("platform") }

  function ProfileKey(): (t: Text)
    ensures |t| == 10
  { Ascii("runProfile") }

  function ModeKey(): (t: Text)
    ensures |t| == 13
  { Ascii("toolchainMode") }

  function ToolchainKey(): (t: Text)
    ensures |t| == 9
  { Ascii("toolchain") }

  function DigestKey(): (t: Text)
    ensures |t| == 20
  { Ascii("environmentKeyDigest") }

  function SchemaName(): Text { Ascii("eas-local-cache/environment-key/v1") }

  function PayloadFields(i: Input): (fields: seq<Field>)
    ensures |fields| == if i.mode.Off? then 3 else 7
  {
    if i.mode.Off? then
      [ Field(SchemaKey(), String(SchemaName())),
        Field(BaseKey(), String(i.baseFingerprintHash)),
        Field(DigestKey(), DigestValue(i.environmentKeyDigest)) ]
    else
      [ Field(SchemaKey(), String(SchemaName())),
        Field(BaseKey(), String(i.baseFingerprintHash)),
        Field(PlatformKey(), String(PlatformName(i.platform))),
        Field(ProfileKey(), i.runProfile),
        Field(ModeKey(), String(ModeText(i.mode))),
        Field(ToolchainKey(), i.toolchain),
        Field(DigestKey(), DigestValue(i.environmentKeyDigest)) ]
  }

  function Payload(i: Input): Value { Object(PayloadFields(i)) }

  /** `serializeEnvironmentKeyPayload` */
  function SerializePayload(i: Input): Option<Text>
  {
    if ValidInput(i) then Some(Canonicalize(Payload(i))) else None
  }

  /** What an identity is meant to depend on. */
  predicate SameEnvironment(i: Input, j: Input)
  {
    && i.baseFingerprintHash == j.baseFingerprintHash
    && i.environmentKeyDigest == j.environmentKeyDigest
    && i.mode == j.mode
    && (!i.mode.Off? ==> i.platform == j.platform && Same(i.runProfile, j.runProfile) && Same(i.toolchain, j.toolchain))
  }

  // ---- Equal payloads ----

  /** The values at the one key of a given length must agree. */
  lemma AtKey(f: seq<Field>, g: seq<Field>, a: nat, b: nat)
    requires Same(Object(f), Object(g)) && a < |f| && b < |g|
    requires forall j :: 0 <= j < |g| && j != b ==> |g[j].key| != |f[a].key|
    ensures Same(f[a].value, g[b].value)
  {
    assert FoundIn(f[a], g);
    hide Same;
  }

  lemma KeyMustBeFound(f: seq<Field>, g: seq<Field>, a: nat)
    requires Same(Object(f), Object(g)) && a < |f|
    ensures exists j :: 0 <= j < |g| && f[a].key == g[j].key
  {
    assert FoundIn(f[a], g);
    hide Same;
  }

  lemma KeyMustBeCovered(f: seq<Field>, g: seq<Field>, b: nat)
    requires Same(Object(f), Object(g)) && b < |g|
    ensures exists i :: 0 <= i < |f| && f[i].key == g[b].key
  {
    assert Covers(f, g[b]);
    hide Same;
  }

  lemma KeyLengths(i: Input)
    ensures i.mode.Off? ==> |PayloadFields(i)[0].key| == 6 && |PayloadFields(i)[1].key| == 19 && |PayloadFields(i)[2].key| == 20
    ensures !i.mode.Off? ==>
      && |PayloadFields(i)[0].key| == 6 && |PayloadFields(i)[1].key| == 19 && |PayloadFields(i)[2].key| == 8
      && |PayloadFields(i)[3].key| == 10 && |PayloadFields(i)[4].key| == 13 && |PayloadFields(i)[5].key| == 9
      && |PayloadFields(i)[6].key| == 20
  {
    hide SchemaKey, BaseKey, PlatformKey, ProfileKey, ModeKey, ToolchainKey, DigestKey, SchemaName, PlatformName, ModeText;
  }

  lemma PayloadIsProper(i: Input)
    requires ProperInput(i)
    ensures Proper(Payload(i))
  {
    KeyLengths(i);
    hide SchemaKey, BaseKey, PlatformKey, ProfileKey, ModeKey, ToolchainKey, DigestKey, SchemaName, PlatformName, ModeText;
  }

  /** Off-mode payloads and the others never agree. */
  lemma OffIsApart(i: Input, j: Input)
    requires i.mode.Off? && !j.mode.Off?
    ensures !Same(Payload(i), Payload(j)) && !Same(Payload(j), Payload(i))
  {
    KeyLengths(i);
    KeyLengths(j);
    hide PayloadFields, Same;
    var f, g := PayloadFields(i), PayloadFields(j);
    if Same(Payload(j), Payload(i)) {
      KeyMustBeFound(g, f, 2);
    }
    if Same(Payload(i), Payload(j)) {
      KeyMustBeCovered(f, g, 2);
    }
  }

  lemma TextsDiffer(p: Platform, q: Platform, m: ToolchainMode, n: ToolchainMode)
    ensures PlatformName(p) == PlatformName(q) ==> p == q
    ensures ModeText(m) == ModeText(n) ==> m == n
  {
  }

  lemma PayloadsAgree(i: Input, j: Input)
    requires Same(Payload(i), Payload(j))
    ensures SameEnvironment(i, j)
  {
    hide Same, PayloadFields;
    if i.mode.Off? && !j.mode.Off? {
      OffIsApart(i, j);
    } else if !i.mode.Off? && j.mode.Off? {
      OffIsApart(j, i);
    } else {
      CommonFieldsAgree(i, j);
      if !i.mode.Off? {
        OtherFieldsAgree(i, j);
      }
    }
  }

  lemma OtherFieldsAgree(i: Input, j: Input)
    requires Same(Payload(i), Payload(j)) && !i.mode.Off? && !j.mode.Off?
    ensures i.platform == j.platform && i.mode == j.mode
    ensures Same(i.runProfile, j.runProfile) && Same(i.toolchain, j.toolchain)
  {
    KeyLengths(i);
    KeyLengths(j);
    hide SchemaKey, BaseKey, PlatformKey, ProfileKey, ModeKey, ToolchainKey, DigestKey, SchemaName;
    hide PlatformName, ModeText, Same;
    var f, g := PayloadFields(i), PayloadFields(j);
    AtKey(f, g, 2, 2);
    AtKey(f, g, 3, 3);
    AtKey(f, g, 4, 4);
    AtKey(f, g, 5, 5);
    LeavesAgree(f[2].value, g[2].value);
    LeavesAgree(f[4].value, g[4].value);
    TextsDiffer(i.platform, j.platform, i.mode, j.mode);
  }

  lemma LeavesAgree(v: Value, w: Value)
    requires Same(v, w) && !v.Object? && !v.Array?
    ensures v == w
  {
  }

  lemma CommonFieldsAgree(i: Input, j: Input)
    requires Same(Payload(i), Payload(j)) && i.mode.Off? == j.mode.Off?
    ensures i.baseFingerprintHash == j.baseFingerprintHash && i.environmentKeyDigest == j.environmentKeyDigest
  {
    KeyLengths(i);
    KeyLengths(j);
    hide Same, SchemaKey, BaseKey, PlatformKey, ProfileKey, ModeKey, ToolchainKey, DigestKey, SchemaName;
    hide PlatformName, ModeText;
    var f, g := PayloadFields(i), PayloadFields(j);
    var last := |f| - 1;
    AtKey(f, g, 1, 1);
    AtKey(f, g, last, last);
    LeavesAgree(f[1].value, g[1].value);
    LeavesAgree(f[last].value, g[last].value);
  }

  lemma EnvironmentsAgree(i: Input, j: Input)
    requires SameEnvironment(i, j)
    ensures Same(Payload(i), Payload(j))
  {
    var f, g := PayloadFields(i), PayloadFields(j);
    hide SchemaKey, BaseKey, PlatformKey, ProfileKey, ModeKey, ToolchainKey, DigestKey, SchemaName, PlatformName, ModeText;
    forall k | 0 <= k < |f| ensures f[k].key == g[k].key && Same(f[k].value, g[k].value) {
    }
    hide PayloadFields, SameEnvironment;
    forall k | 0 <= k < |f| ensures FoundIn(f[k], g) && Covers(f, g[k]) {
    }
  }

  /** Two inputs serialize alike exactly when they agree on everything an identity depends on. */
  lemma PayloadTextIffSameEnvironment(i: Input, j: Input)
    requires ProperInput(i) && ProperInput(j) && SerializePayload(i).Some? && SerializePayload(j).Some?
    ensures SerializePayload(i) == SerializePayload(j) <==> SameEnvironment(i, j)
  {
    PayloadIsProper(i);
    PayloadIsProper(j);
    hide Payload, Same, Canonicalize, SameEnvironment, Proper;
    CanonicalIffSame(Payload(i), Payload(j));
    if Same(Payload(i), Payload(j)) {
      PayloadsAgree(i, j);
    }
    if SameEnvironment(i, j) {
      EnvironmentsAgree(i, j);
    }
  }

  // ---- Identities ----

  /** Whether the base hash itself is the fingerprint. */
  predicate UsesBase(i: Input) { i.mode.Off? && i.environmentKeyDigest.None? }

  /** `createEffectiveEnvironmentIdentity` */
  function CreateIdentity(i: Input, hash: TextHash): Option<Identity>
  {
    if !ValidInput(i) then None
    else if UsesBase(i) then
      Some(Identity(i.baseFingerprintHash, i.baseFingerprintHash, ExpoBase, Off, None))
    else
      var payload :- SerializePayload(i);
      Some(Identity(i.baseFingerprintHash, PREFIX + hash(payload), EnvironmentV1, i.mode, i.environmentKeyDigest))
  }

  /** Spelled like a derived fingerprint. */
  predicate LooksDerived(t: Text) { PREFIX <= t && HexText(t[|PREFIX|..]) }

  /** An input whose fingerprint shows its key schema. */
  predicate ShowsSchema(i: Input) { UsesBase(i) ==> !LooksDerived(i.baseFingerprintHash) }

  /** What is asked of the hash on two payloads: digests in hexadecimal, and no collision. */
  predicate SoundOn(hash: TextHash, a: Text, b: Text)
  {
    HexText(hash(a)) && HexText(hash(b)) && (hash(a) == hash(b) ==> a == b)
  }

  predicate SameFingerprint(i: Input, j: Input, hash: TextHash)
    requires ValidInput(i) && ValidInput(j)
  {
    CreateIdentity(i, hash).value.effectiveFingerprintHash == CreateIdentity(j, hash).value.effectiveFingerprintHash
  }

  lemma DerivedLooksDerived(digest: Text)
    requires HexText(digest)
    ensures LooksDerived(PREFIX + digest) && ValidBaseHash(PREFIX + digest)
  {
    assert (PREFIX + digest)[|PREFIX|..] == digest;
  }

  /**
   * A shared effective fingerprint means a shared environment, whatever the key schemas, as long as no base hash that is
   * used as a fingerprint is spelled like a derived one. Inputs under one key schema need not show it.
   */
  lemma FingerprintIffSameEnvironment(i: Input, j: Input, hash: TextHash)
    requires ProperInput(i) && ProperInput(j) && ValidInput(i) && ValidInput(j)
    requires SoundOn(hash, SerializePayload(i).value, SerializePayload(j).value)
    requires UsesBase(i) == UsesBase(j) || (ShowsSchema(i) && ShowsSchema(j))
    ensures SameFingerprint(i, j, hash) <==> SameEnvironment(i, j)
  {
    hide Canonicalize, Payload, Same, Proper, ValidInput, HexText, LooksDerived;
    var a, b := SerializePayload(i).value, SerializePayload(j).value;
    DerivedLooksDerived(hash(a));
    DerivedLooksDerived(hash(b));
    if !UsesBase(i) && !UsesBase(j) {
      PayloadTextIffSameEnvironment(i, j);
      if PREFIX + hash(a) == PREFIX + hash(b) {
        Cancel(PREFIX, hash(a), hash(b));
      }
    }
  }

  /** The whole identity tells environments apart in any case: it also names the key schema. */
  lemma IdentityIffSameEnvironment(i: Input, j: Input, hash: TextHash)
    requires ProperInput(i) && ProperInput(j) && ValidInput(i) && ValidInput(j)
    requires SoundOn(hash, SerializePayload(i).value, SerializePayload(j).value)
    ensures CreateIdentity(i, hash) == CreateIdentity(j, hash) <==> SameEnvironment(i, j)
  {
    hide Canonicalize, Payload, Same, Proper, ValidInput, HexText, LooksDerived;
    if UsesBase(i) == UsesBase(j) {
      FingerprintIffSameEnvironment(i, j, hash);
    }
  }

  /** What an identity says of its input: base hash, mode and digest as they are, and the schema by which the fingerprint was
      made. Off without a digest is the Expo base hash itself; anything else is "elc-env-v1:" and a digest. */
  lemma IdentityTells(i: Input, hash: TextHash)
    ensures CreateIdentity(i, hash).Some? <==>
      && 0 < |i.baseFingerprintHash| <= 256
      && (forall k :: 0 <= k < |i.baseFingerprintHash| ==>
            0x20 <= i.baseFingerprintHash[k] < 0x7F || i.baseFingerprintHash[k] >= 0xA0)
      && (i.environmentKeyDigest.Some? ==> HexText(i.environmentKeyDigest.value))
    ensures CreateIdentity(i, hash).Some? ==>
      var identity := CreateIdentity(i, hash).value;
      && identity.baseFingerprintHash == i.baseFingerprintHash && identity.mode == i.mode
      && identity.environmentKeyDigest == i.environmentKeyDigest
      && (if i.mode == Off && i.environmentKeyDigest == None
          then identity.keySchema == ExpoBase && identity.effectiveFingerprintHash == i.baseFingerprintHash
          else identity.keySchema == EnvironmentV1
               && identity.effectiveFingerprintHash == Ascii("elc-env-v1:") + hash(SerializePayload(i).value))
  {
    hide Canonicalize, Payload, HexText;
    assert PREFIX == Ascii("elc-env-v1:");
    hide Ascii;
  }

  /** The base hash that collides with a given derived fingerprint, whatever the hash. */
  lemma DerivedFingerprintIsAlsoABase(j: Input, hash: TextHash)
    requires ProperInput(j) && ValidInput(j) && !UsesBase(j) && HexText(hash(SerializePayload(j).value))
    ensures var base := PREFIX + hash(SerializePayload(j).value);
      var i := j.(mode := Off, environmentKeyDigest := None, baseFingerprintHash := base);
      ProperInput(i) && ValidInput(i) && UsesBase(i) && SameFingerprint(i, j, hash) && !SameEnvironment(i, j)
  {
    DerivedLooksDerived(hash(SerializePayload(j).value));
    hide Canonicalize, Payload, Same, Proper, HexText, LooksDerived, ValidBaseHash;
  }

  /** Some sound hash gives the input the fingerprint of another environment. */
  ghost predicate CanCollide(i: Input)
    requires ValidInput(i)
  {
    exists j: Input, hash: TextHash :: Collides(i, j, hash)
  }

  predicate Collides(i: Input, j: Input, hash: TextHash)
    requires ValidInput(i)
  {
    && ProperInput(j) && ValidInput(j) && SoundOn(hash, SerializePayload(i).value, SerializePayload(j).value)
    && SameFingerprint(i, j, hash) && !SameEnvironment(i, j)
  }

  /** The guard on one base hash is exact: without it some other environment can have the same fingerprint. */
  lemma CollidesIffLooksDerived(i: Input)
    requires ProperInput(i) && ValidInput(i) && UsesBase(i)
    ensures CanCollide(i) <==> LooksDerived(i.baseFingerprintHash)
  {
    if LooksDerived(i.baseFingerprintHash) {
      LookingDerivedCollides(i);
    }
    forall j: Input, hash: TextHash | Collides(i, j, hash) ensures LooksDerived(i.baseFingerprintHash) {
      CollisionLooksDerived(i, j, hash);
    }
  }

  lemma CollisionLooksDerived(i: Input, j: Input, hash: TextHash)
    requires ProperInput(i) && ValidInput(i) && UsesBase(i) && Collides(i, j, hash)
    ensures LooksDerived(i.baseFingerprintHash)
  {
    hide Canonicalize, Payload, Same, Proper, HexText, ValidInput, LooksDerived, SoundOn, SerializePayload, SameFingerprint;
    if !LooksDerived(i.baseFingerprintHash) {
      FingerprintIffSameEnvironment(i, j, hash);
      assert false;
    }
  }

  /** A hash that takes one text to a chosen digest and every other text to another one. */
  function Chosen(text: Text, digest: Text, other: Text): TextHash { t => if t == text then digest else other }

  lemma LookingDerivedCollides(i: Input)
    requires ProperInput(i) && ValidInput(i) && UsesBase(i) && LooksDerived(i.baseFingerprintHash)
    ensures CanCollide(i)
  {
    var j := i.(mode := Safe);
    var digest := i.baseFingerprintHash[|PREFIX|..];
    var other := AnotherDigest(digest);
    var text := SerializePayload(j).value;
    var hash := Chosen(text, digest, other);
    PayloadTextIffSameEnvironment(i, j);
    ChosenCollides(i, j, text, digest, other);
    assert Collides(i, j, hash);
  }

  lemma ChosenCollides(i: Input, j: Input, text: Text, digest: Text, other: Text)
    requires ProperInput(i) && ValidInput(i) && UsesBase(i) && j == i.(mode := Safe)
    requires SerializePayload(j) == Some(text) && SerializePayload(i) != Some(text)
    requires HexText(digest) && HexText(other) && other != digest && i.baseFingerprintHash == PREFIX + digest
    ensures Collides(i, j, Chosen(text, digest, other))
  {
    hide Canonicalize, Payload, Same, Proper, HexText, LooksDerived, ValidBaseHash, SerializePayload;
  }

  function AnotherDigest(digest: Text): (other: Text)
    requires HexText(digest)
    ensures HexText(other) && other != digest
  {
    [if digest[0] == 0x30 then 0x31 else 0x30] + digest[1..]
  }
}

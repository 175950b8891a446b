/** Fingerprint sources: occurrence numbering (`sanitizeFingerprintSources`), its check, and the key it makes unique. */
module InsightSources {
  import opened Options
  import opened Json

  const MAX_INSIGHT_SOURCES := 10_000
  const NUL: Unit := 0

  datatype SourceKind = FileSource | DirSource | ContentsSource

  datatype Category = ExpoConfig | NativeDependencies | NativeProject | ProjectMetadata | Other

  datatype Source = Source(kind: SourceKind, comparatorHash: Text, occurrence: nat, displayPath: Option<Text>,
                           digest: Option<Text>, categories: seq<Category>)

  /** A raw source as it was read: `None` where the reader refuses the kind, the identity or the hash. */
  datatype RawSource = RawSource(kind: Option<SourceKind>, identity: Option<Text>, displayPath: Option<Text>,
                                 hash: Option<Option<Text>>, categories: seq<Category>)

  function KindName(k: SourceKind): Text
  {
    match k
    case FileSource => Ascii("file")
    case DirSource => Ascii("dir")
    case ContentsSource => Ascii("contents")
  }

  function OccurrenceKey(kind: SourceKind, comparatorHash: Text): Text { KindName(kind) + [NUL] + comparatorHash }

  function SourceKey(s: Source): Text { KindName(s.kind) + [NUL] + (s.comparatorHash + [NUL] + Decimal(s.occurrence)) }

  lemma KindNames(k: SourceKind, l: SourceKind)
    ensures NUL !in KindName(k)
    ensures KindName(k) == KindName(l) ==> k == l
  {
    assert |KindName(k)| == if k.FileSource? then 4 else if k.DirSource? then 3 else 8;
  }

  /** Keys are injective: their parts contain no NUL. */
  lemma SourceKeyIsInjective(s: Source, t: Source)
    requires HexText(s.comparatorHash) && HexText(t.comparatorHash)
    requires SourceKey(s) == SourceKey(t)
    ensures s.kind == t.kind && s.comparatorHash == t.comparatorHash && s.occurrence == t.occurrence
  {
    KindNames(s.kind, t.kind);
    KindNames(t.kind, s.kind);
    hide KindName, Decimal;
    assert NUL !in s.comparatorHash && NUL !in t.comparatorHash;
    var a, b := s.comparatorHash + [NUL] + Decimal(s.occurrence), t.comparatorHash + [NUL] + Decimal(t.occurrence);
    SeparatedUnique(NUL, KindName(s.kind), KindName(t.kind), a, b);
    SeparatedUnique(NUL, s.comparatorHash, t.comparatorHash, Decimal(s.occurrence), Decimal(t.occurrence));
    DecimalUnique(s.occurrence, t.occurrence, [], []);
  }

  lemma OccurrenceKeyIsInjective(k: SourceKind, c: Text, l: SourceKind, d: Text)
    requires OccurrenceKey(k, c) == OccurrenceKey(l, d)
    ensures k == l && c == d
  {
    KindNames(k, l);
    KindNames(l, k);
    hide KindName;
    SeparatedUnique(NUL, KindName(k), KindName(l), c, d);
  }

  // ---- Numbering ----

  /** How many sources of the list share a kind and comparator. */
  function CountLike(ss: seq<Source>, kind: SourceKind, comparatorHash: Text): nat
  {
    if ss == [] then 0
    else
      var last := ss[|ss| - 1];
      CountLike(ss[..|ss| - 1], kind, comparatorHash)
      + if last.kind == kind && last.comparatorHash == comparatorHash then 1 else 0
  }

  /** Each source carries the number of like sources before it. */
  predicate Sequential(ss: seq<Source>)
  {
    forall i :: 0 <= i < |ss| ==> ss[i].occurrence == CountLike(ss[..i], ss[i].kind, ss[i].comparatorHash)
  }

  /** The occurrence map counts what the list holds so far. */
  ghost predicate Counts(occurrences: map<Text, nat>, ss: seq<Source>)
  {
    forall k, c :: CountLike(ss, k, c) ==
      if OccurrenceKey(k, c) in occurrences then occurrences[OccurrenceKey(k, c)] else 0
  }

  lemma CountNext(occurrences: map<Text, nat>, ss: seq<Source>, s: Source)
    requires Counts(occurrences, ss)
    requires s.occurrence == CountLike(ss, s.kind, s.comparatorHash)
    ensures Counts(occurrences[OccurrenceKey(s.kind, s.comparatorHash) := s.occurrence + 1], ss + [s])
  {
    hide OccurrenceKey, CountLike;
    var next := occurrences[OccurrenceKey(s.kind, s.comparatorHash) := s.occurrence + 1];
    forall k, c ensures CountLike(ss + [s], k, c) == if OccurrenceKey(k, c) in next then next[OccurrenceKey(k, c)] else 0 {
      CountAppend(ss, s, k, c);
      if OccurrenceKey(k, c) == OccurrenceKey(s.kind, s.comparatorHash) {
        OccurrenceKeyIsInjective(k, c, s.kind, s.comparatorHash);
      }
    }
  }

  lemma CountAppend(ss: seq<Source>, s: Source, kind: SourceKind, comparatorHash: Text)
    ensures CountLike(ss + [s], kind, comparatorHash) ==
      CountLike(ss, kind, comparatorHash) + if s.kind == kind && s.comparatorHash == comparatorHash then 1 else 0
  {
    assert (ss + [s])[..|ss|] == ss;
  }

  lemma SequentialNext(ss: seq<Source>, s: Source)
    requires Sequential(ss) && s.occurrence == CountLike(ss, s.kind, s.comparatorHash)
    ensures Sequential(ss + [s])
  {
    hide CountLike;
    forall i | 0 <= i < |ss + [s]|
      ensures (ss + [s])[i].occurrence == CountLike((ss + [s])[..i], (ss + [s])[i].kind, (ss + [s])[i].comparatorHash)
    {
      assert (ss + [s])[..i] == ss[..i];
    }
  }

  predicate Readable(raw: RawSource) { raw.kind.Some? && raw.identity.Some? && raw.hash.Some? }

  function ComparatorHash(raw: RawSource, hash: TextHash): Text
    requires Readable(raw)
  {
    hash(KindName(raw.kind.value) + [NUL] + raw.identity.value)
  }

  /** A sanitized source says of its raw source all but the occurrence. */
  predicate Describes(s: Source, raw: RawSource, hash: TextHash)
  {
    && Readable(raw)
    && s.kind == raw.kind.value && s.comparatorHash == ComparatorHash(raw, hash)
    && s.displayPath == raw.displayPath && s.digest == raw.hash.value && s.categories == raw.categories
  }

  /** `sanitizeFingerprintSources` */
  method SanitizeFingerprintSources(sources: seq<RawSource>, hash: TextHash) returns (r: Option<seq<Source>>)
    ensures r.Some? <==> |sources| <= MAX_INSIGHT_SOURCES && forall i :: 0 <= i < |sources| ==> Readable(sources[i])
    ensures r.Some? ==> |r.value| == |sources| && Sequential(r.value)
    ensures r.Some? ==> forall i :: 0 <= i < |sources| ==> Describes(r.value[i], sources[i], hash)
  {
    if |sources| > MAX_INSIGHT_SOURCES {
      return None;
    }
    hide KindName, OccurrenceKey, CountLike, Sequential;
    var occurrences: map<Text, nat> := map[];
    var sanitized: seq<Source> := [];
    assert Counts(occurrences, sanitized) && Sequential(sanitized) by {
      NothingCounted();
    }
    var i := 0;
    while i < |sources|
      invariant 0 <= i <= |sources| == |sources| && |sanitized| == i
      invariant Counts(occurrences, sanitized) && Sequential(sanitized)
      invariant forall j :: 0 <= j < i ==> Describes(sanitized[j], sources[j], hash)
    {
      hide Counts, ComparatorHash;
      var raw := sources[i];
      if raw.kind.None? || raw.identity.None? {
        return None;
      }
      var comparatorHash := hash(KindName(raw.kind.value) + [NUL] + raw.identity.value);
      var key := OccurrenceKey(raw.kind.value, comparatorHash);
      var occurrence := if key in occurrences then occurrences[key] else 0;
      CountedAt(occurrences, sanitized, raw.kind.value, comparatorHash);
      if raw.hash.None? {
        return None;
      }
      var s := Source(raw.kind.value, comparatorHash, occurrence, raw.displayPath, raw.hash.value, raw.categories);
      CountNext(occurrences, sanitized, s);
      SequentialNext(sanitized, s);
      SourceDescribes(s, raw, hash);
      occurrences := occurrences[key := occurrence + 1];
      sanitized := sanitized + [s];
      i := i + 1;
    }
    return Some(sanitized);
  }

  lemma SourceDescribes(s: Source, raw: RawSource, hash: TextHash)
    requires Readable(raw)
    requires s == Source(raw.kind.value, hash(KindName(raw.kind.value) + [NUL] + raw.identity.value), s.occurrence,
                         raw.displayPath, raw.hash.value, raw.categories)
    ensures Describes(s, raw, hash)
  {
  }

  lemma NothingCounted()
    ensures Counts(map[], []) && Sequential([])
  {
  }

  lemma CountedAt(occurrences: map<Text, nat>, ss: seq<Source>, kind: SourceKind, comparatorHash: Text)
    requires Counts(occurrences, ss)
    ensures var key := OccurrenceKey(kind, comparatorHash);
            CountLike(ss, kind, comparatorHash) == if key in occurrences then occurrences[key] else 0
  {
    hide OccurrenceKey;
  }

  /** `hasSequentialSourceOccurrences` */
  method HasSequentialSourceOccurrences(sources: seq<Source>) returns (r: bool)
    ensures r == Sequential(sources)
  {
    hide OccurrenceKey, CountLike;
    var occurrences: map<Text, nat> := map[];
    NothingCounted();
    var i := 0;
    while i < |sources|
      invariant 0 <= i <= |sources|
      invariant Counts(occurrences, sources[..i]) && Sequential(sources[..i])
    {
      hide Counts;
      var s := sources[i];
      var key := OccurrenceKey(s.kind, s.comparatorHash);
      var expected := if key in occurrences then occurrences[key] else 0;
      CountedAt(occurrences, sources[..i], s.kind, s.comparatorHash);
      if s.occurrence != expected {
        return false;
      }
      hide Sequential;
      CountNext(occurrences, sources[..i], s);
      SequentialNext(sources[..i], s);
      assert sources[..i + 1] == sources[..i] + [s];
      occurrences := occurrences[key := expected + 1];
      i := i + 1;
    }
    assert sources[..|sources|] == sources;
    return true;
  }

  // ---- Unique keys ----

  predicate UniqueKeys(ss: seq<Source>) { forall i, j :: 0 <= i < j < |ss| ==> SourceKey(ss[i]) != SourceKey(ss[j]) }

  predicate HexComparators(ss: seq<Source>) { forall i :: 0 <= i < |ss| ==> HexText(ss[i].comparatorHash) }

  lemma {:induction false} CountGrows(ss: seq<Source>, i: nat, j: nat, kind: SourceKind, comparatorHash: Text)
    requires i < j <= |ss|
    ensures CountLike(ss[..i], kind, comparatorHash) <= CountLike(ss[..j], kind, comparatorHash)
    ensures ss[i].kind == kind && ss[i].comparatorHash == comparatorHash ==>
      CountLike(ss[..i], kind, comparatorHash) < CountLike(ss[..j], kind, comparatorHash)
    decreases j
  {
    assert ss[..j][..j - 1] == ss[..j - 1];
    if i < j - 1 {
      CountGrows(ss, i, j - 1, kind, comparatorHash);
    }
  }

  /** Numbered sources have unique keys. */
  lemma SequentialKeysAreUnique(ss: seq<Source>)
    requires Sequential(ss) && HexComparators(ss)
    ensures UniqueKeys(ss)
  {
    forall i, j | 0 <= i < j < |ss| ensures SourceKey(ss[i]) != SourceKey(ss[j]) {
      if SourceKey(ss[i]) == SourceKey(ss[j]) {
        SourceKeyIsInjective(ss[i], ss[j]);
        hide SourceKey, CountLike;
        CountGrows(ss, i, j, ss[i].kind, ss[i].comparatorHash);
      }
    }
  }
}

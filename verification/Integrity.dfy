/** `inspectArtifact`: the tree digest of an iOS bundle and the file digest of an Android package. */
module Integrity {
  import opened Options
  import opened Bytes
  import opened PathText
  import opened FileTree
  import opened AppTreeFormat
  import opened AppTreeLaws
  import opened TreeStream
  import opened TreeWalk
  import opened Json
  import opened Platforms

  /** A digest is compared, never computed with; the hash itself is an argument, collision-free where it matters. */
  type Digest = seq<Byte>
  type Hash = Text -> Digest

  ghost predicate CollisionFree(hash: Hash) { forall a, b :: hash(a) == hash(b) ==> a == b }

  datatype Algorithm = Sha256 | Sha256TreeV1

  datatype Integrity = Integrity(algorithm: Algorithm, digest: Digest, sizeBytes: nat, fileCount: nat)

  datatype Shape = Shape(sizeBytes: int, fileCount: int)

  const INFO_PLIST: Path := [0x49, 0x6E, 0x66, 0x6F, 0x2E, 0x70, 0x6C, 0x69, 0x73, 0x74]

  /** Where the hash runs: the name order of its locale, and the absolute location of the artifact. */
  datatype Site = Site(before: NameOrder, location: seq<Segment>)

  // ---- Links must point inside, lexically ----

  /** `path.resolve` from an absolute directory. */
  function Resolve(base: seq<Segment>, segments: seq<Segment>): seq<Segment>
    decreases |segments|
  {
    if segments == [] then base
    else if segments[0] == [] || segments[0] == DOT then Resolve(base, segments[1..])
    else if segments[0] == DOT_DOT then Resolve(if base == [] then [] else base[..|base| - 1], segments[1..])
    else Resolve(base + [segments[0]], segments[1..])
  }

  predicate PointsInside(location: seq<Segment>, link: Path, target: seq<Byte>)
  {
    && !(target != [] && target[0] == SLASH)
    && location <= Resolve(location + SegmentsOf(Parent(link)), Split(target))
  }

  lemma {:induction false} ResolvePlain(base: seq<Segment>, segments: seq<Segment>)
    requires forall i :: 0 <= i < |segments| ==> PlainSegment(segments[i])
    ensures base <= Resolve(base, segments)
    decreases |segments|
  {
    if segments != [] {
      assert PlainSegment(segments[0]);
      ResolvePlain(base + [segments[0]], segments[1..]);
    }
  }

  lemma {:induction false} ResolveClimb(location: seq<Segment>, under: seq<Segment>, target: seq<Segment>)
    requires CanonicalTarget(target) && LeadingParents(target) <= |under|
    ensures location <= Resolve(location + under, target)
  {
    if LeadingParents(target) == 0 {
      ResolvePlain(location + under, target);
    } else {
      var up := under[..|under| - 1];
      assert (location + under)[..|location + under| - 1] == location + up;
      assert CanonicalTarget(target[1..]) by {
        forall i | LeadingParents(target[1..]) <= i < |target[1..]| ensures PlainSegment(target[1..][i]) {
          assert target[1..][i] == target[i + 1];
        }
      }
      ResolveClimb(location, up, target[1..]);
    }
  }

  /** A link the archive format accepts points inside wherever the artifact is put. */
  lemma ValidTargetPointsInside(location: seq<Segment>, t: Tree, link: Path, host: Host)
    requires Rooted(t) && link in t && t[link].Symlink? && ValidTarget(t[link].target, link, host)
    ensures PointsInside(location, link, t[link].target)
  {
    SegmentsOfChild(Parent(link), Name(link));
    assert SegmentsOf(link) == Split(link);
    ResolveClimb(location, SegmentsOf(Parent(link)), Split(t[link].target));
  }

  /** The segments that move. */
  function Moving(segments: seq<Segment>): seq<Segment>
  {
    if segments == [] then []
    else (if segments[0] == [] || segments[0] == [0x2E] then [] else [segments[0]]) + Moving(segments[1..])
  }

  /** Empty and "." segments lead nowhere. */
  lemma {:induction false} ResolveIgnoresDots(base: seq<Segment>, segments: seq<Segment>)
    ensures Resolve(base, segments) == Resolve(base, Moving(segments))
    decreases |segments|
  {
    if segments != [] {
      var moving := Moving(segments[1..]);
      if segments[0] == [] || segments[0] == [0x2E] {
        ResolveIgnoresDots(base, segments[1..]);
        assert Moving(segments) == moving;
      } else {
        assert Moving(segments)[1..] == moving;
        ResolveIgnoresDots(if segments[0] == DOT_DOT then if base == [] then [] else base[..|base| - 1] else base + [segments[0]],
                           segments[1..]);
      }
    }
  }

  lemma {:induction false} ResolveNames(base: seq<Segment>, names: seq<Segment>)
    requires forall i :: 0 <= i < |names| ==> PlainSegment(names[i])
    ensures Resolve(base, names) == base + names
    decreases |names|
  {
    if names != [] {
      assert PlainSegment(names[0]);
      ResolveNames(base + [names[0]], names[1..]);
      assert base + [names[0]] + names[1..] == base + names;
    } else {
      assert base + names == base;
    }
  }

  /** What is left of a directory after climbing. */
  function Climbed(base: seq<Segment>, up: nat): seq<Segment> { base[..if up < |base| then |base| - up else 0] }

  lemma {:induction false} ResolveCanonical(base: seq<Segment>, target: seq<Segment>)
    requires CanonicalTarget(target)
    ensures Resolve(base, target) == Climbed(base, LeadingParents(target)) + target[LeadingParents(target)..]
    decreases |target|
  {
    if LeadingParents(target) == 0 {
      ResolveNames(base, target);
      assert Climbed(base, 0) == base && target[0..] == target;
    } else {
      var up := if base == [] then [] else base[..|base| - 1];
      assert CanonicalTarget(target[1..]) by {
        forall i | LeadingParents(target[1..]) <= i < |target[1..]| ensures PlainSegment(target[1..][i]) {
          assert target[1..][i] == target[i + 1];
        }
      }
      ResolveCanonical(up, target[1..]);
      assert Climbed(up, LeadingParents(target) - 1) == Climbed(base, LeadingParents(target));
      assert target[1..][LeadingParents(target) - 1..] == target[LeadingParents(target)..];
    }
  }

  /** A link that climbs and then goes on with names is refused exactly if it climbs out of the artifact and does not come
      back by the very names it left. */
  lemma PointsInsideOrComesBack(location: seq<Segment>, link: Path, target: seq<Byte>)
    requires target != [] && target[0] != SLASH && CanonicalTarget(Split(target))
    ensures var depth, up := |SegmentsOf(Parent(link))|, LeadingParents(Split(target));
      PointsInside(location, link, target) <==>
        || up <= depth
        || (var left := if up - depth < |location| then |location| - (up - depth) else 0;
            location[left..] <= Split(target)[up..])
  {
    var under, segments := SegmentsOf(Parent(link)), Split(target);
    var base, up := location + under, LeadingParents(segments);
    ResolveCanonical(base, segments);
    var kept := Climbed(base, up);
    hide Resolve, SegmentsOf, LeadingParents, Split;
    if up <= |under| {
      assert location <= kept;
    } else {
      var left := if up - |under| < |location| then |location| - (up - |under|) else 0;
      assert kept == location[..left];
      ComesBack(location, left, segments[up..]);
    }
  }

  lemma ComesBack(location: seq<Segment>, left: nat, names: seq<Segment>)
    requires left <= |location|
    ensures location <= location[..left] + names <==> location[left..] <= names
  {
    var whole := location[..left] + names;
    if location[left..] <= names {
      assert location == location[..left] + location[left..];
    }
    if location <= whole {
      assert whole[left..] == names;
      assert location[left..] == whole[left..|location|];
    }
  }

  /** A link to an absolute path, or one that climbs further than it is deep and ends there, makes the artifact unacceptable. */
  lemma EscapingLinkIsRefused(t: Tree, link: Path, site: Site, expected: Option<Shape>)
    requires link in t && t[link].Symlink? && site.location != []
    requires var target := t[link].target;
      || (target != [] && target[0] == 0x2F)
      || (target != [] && target[0] != SLASH && CanonicalTarget(Split(target))
          && |Split(target)| == LeadingParents(Split(target)) > |SegmentsOf(Parent(link))|)
    ensures !Inspectable(t, site, expected)
  {
    var target := t[link].target;
    if target[0] != SLASH {
      PointsInsideOrComesBack(site.location, link, target);
      assert Split(target)[LeadingParents(Split(target))..] == [];
    }
    hide PointsInside, TreeBytes, TreeFiles;
    assert Inspectable(t, site, expected) ==> Hashable(Record(link, t[link]), site);
  }

  // ---- Directories ----

  ghost predicate IsWalkOf(rs: seq<Record>, t: Tree, before: NameOrder)
  {
    exists ps :: IsWalk(ps, t, before) && SetOf(ps) == t.Keys && WalkRecords(rs, ps, t)
  }

  ghost predicate WalkRecords(rs: seq<Record>, ps: seq<Path>, t: Tree)
  {
    |rs| == |ps| && forall i :: 0 <= i < |ps| ==> ps[i] in t && rs[i] == Record(ps[i], t[ps[i]])
  }

  lemma WalkOfUnique(rs: seq<Record>, ss: seq<Record>, t: Tree, before: NameOrder)
    requires StrictTotal(before) && IsWalkOf(rs, t, before) && IsWalkOf(ss, t, before)
    ensures rs == ss
  {
    var ps :| IsWalk(ps, t, before) && SetOf(ps) == t.Keys && WalkRecords(rs, ps, t);
    var qs :| IsWalk(qs, t, before) && SetOf(qs) == t.Keys && WalkRecords(ss, qs, t);
    WalkUnique(ps, qs, t.Keys, before);
  }

  /** A walk visits each node once, so it weighs what the tree weighs. */
  lemma WalkWeighs(rs: seq<Record>, t: Tree, before: NameOrder, w: Record -> nat)
    requires StrictTotal(before) && IsWalkOf(rs, t, before)
    ensures Sum(w, rs) == Sum(w, Listing(t)) && ToTree(rs) == t
  {
    var ps :| IsWalk(ps, t, before) && SetOf(ps) == t.Keys && WalkRecords(rs, ps, t);
    hide PathBefore, StrictTotal;
    forall i, j | 0 <= i < j < |rs| ensures rs[i].path != rs[j].path {
      assert PathBefore(ps[i], ps[j], before);
      NotBeforeItself(ps[i], before);
    }
    forall p | p in t ensures Record(p, t[p]) in rs {
      assert p in SetOf(ps);
      var i :| 0 <= i < |ps| && ps[i] == p;
      assert rs[i] == Record(p, t[p]);
    }
    SameWeight(rs, t, w);
  }

  lemma SameWeight(rs: seq<Record>, t: Tree, w: Record -> nat)
    requires Distinct(rs)
    requires forall i :: 0 <= i < |rs| ==> rs[i].path in t && t[rs[i].path] == rs[i].node
    requires forall p :: p in t ==> Record(p, t[p]) in rs
    ensures Sum(w, rs) == Sum(w, Listing(t)) && ToTree(rs) == t
  {
    var ls := Listing(t);
    ListingHas(ls, t);
    SortedIsDistinct(ls);
    forall r | r in rs ensures r in ls {
      assert Record(r.path, t[r.path]) in ls;
    }
    forall r | r in ls ensures r in rs {
      assert r == Record(r.path, t[r.path]);
    }
    SumOfPart(w, rs, ls);
    SumOfPart(w, ls, rs);
    forall p | p in t ensures exists i :: 0 <= i < |rs| && rs[i].path == p {
      var i :| 0 <= i < |rs| && rs[i] == Record(p, t[p]);
      assert rs[i].path == p;
    }
    ToTreeIs(rs, t);
  }

  ghost predicate ShapeIsSound(expected: Option<Shape>)
  {
    expected.Some? ==> 0 <= expected.value.sizeBytes <= MAX_LOGICAL_BYTES && 0 < expected.value.fileCount
  }

  predicate Hashable(r: Record, site: Site)
  {
    !r.node.Special? && (r.node.Symlink? ==> PointsInside(site.location, r.path, r.node.target))
  }

  /** `inspectDirectory` accepts the tree. */
  ghost predicate Inspectable(t: Tree, site: Site, expected: Option<Shape>)
  {
    && ShapeIsSound(expected)
    && INFO_PLIST in t && t[INFO_PLIST].File?
    && |t| <= MAX_ENTRIES
    && (forall p :: p in t ==> Hashable(Record(p, t[p]), site))
    && (if expected.Some? then TreeBytes(t) == expected.value.sizeBytes && TreeFiles(t) == expected.value.fileCount
        else TreeBytes(t) <= MAX_LOGICAL_BYTES)
  }

  /** What `inspectDirectory` reports for the tree. */
  ghost predicate IsIntegrityOf(i: Integrity, t: Tree, before: NameOrder, hash: Hash)
  {
    exists rs :: IsWalkOf(rs, t, before) && i == Integrity(Sha256TreeV1, hash(Stream(rs)), TreeBytes(t), TreeFiles(t))
  }

  /** The report is a function of the tree alone: not of where it is, nor of how its directories are read. */
  lemma IntegrityIsAFunction(i: Integrity, j: Integrity, t: Tree, before: NameOrder, hash: Hash)
    requires StrictTotal(before) && IsIntegrityOf(i, t, before, hash) && IsIntegrityOf(j, t, before, hash)
    ensures i == j
  {
    hide IsWalkOf, Stream, StrictTotal;
    var rs :| IsWalkOf(rs, t, before) && i == Integrity(Sha256TreeV1, hash(Stream(rs)), TreeBytes(t), TreeFiles(t));
    var ss :| IsWalkOf(ss, t, before) && j == Integrity(Sha256TreeV1, hash(Stream(ss)), TreeBytes(t), TreeFiles(t));
    WalkOfUnique(rs, ss, t, before);
  }

  predicate NoSpecial(t: Tree) { forall p :: p in t ==> !t[p].Special? }

  lemma WalkIsOrdinary(rs: seq<Record>, t: Tree, before: NameOrder)
    requires IsWalkOf(rs, t, before) && NoSpecial(t)
    ensures Ordinary(rs)
  {
    var ps :| IsWalk(ps, t, before) && SetOf(ps) == t.Keys && WalkRecords(rs, ps, t);
  }

  /** Equal tree digests mean equal trees: same paths, kinds, modes, contents and link targets. */
  lemma DigestDeterminesTree(i: Integrity, t: Tree, j: Integrity, u: Tree, before: NameOrder, hash: Hash)
    requires CollisionFree(hash) && StrictTotal(before)
    requires NoSpecial(t) && NoSpecial(u)
    requires IsIntegrityOf(i, t, before, hash) && IsIntegrityOf(j, u, before, hash)
    requires i.digest == j.digest
    ensures t == u
  {
    hide IsWalkOf, Stream, StrictTotal;
    var rs :| IsWalkOf(rs, t, before) && i == Integrity(Sha256TreeV1, hash(Stream(rs)), TreeBytes(t), TreeFiles(t));
    var ss :| IsWalkOf(ss, u, before) && j == Integrity(Sha256TreeV1, hash(Stream(ss)), TreeBytes(u), TreeFiles(u));
    WalkWeighs(rs, t, before, FileSize);
    WalkWeighs(ss, u, before, FileSize);
    WalkIsOrdinary(rs, t, before);
    WalkIsOrdinary(ss, u, before);
    StreamDeterminesTree(t, u, rs, ss);
  }

  const HASH_CHUNK_BYTES := 1024 * 1024

  /** `hashOpenedFile`: feeds a file to the hash in bounded chunks. */
  method HashOpenedFile(fed: Text, data: seq<Byte>) returns (more: Text)
    ensures more == fed + data
  {
    more := fed;
    var position := 0;
    while position < |data|
      invariant position <= |data|
      invariant more == fed + data[..position]
    {
      var left := |data| - position;
      var bytesRead :| 1 <= bytesRead <= if HASH_CHUNK_BYTES < left then HASH_CHUNK_BYTES else left;
      assert data[..position + bytesRead] == data[..position] + data[position..position + bytesRead];
      more := more + data[position..position + bytesRead];
      position := position + bytesRead;
    }
    assert data[..|data|] == data;
  }

  /** Feeds one entry to the hash, or refuses it. */
  method HashEntry(fed: Text, r: Record, site: Site) returns (more: Option<Text>)
    ensures more.Some? <==> Hashable(r, site)
    ensures more.Some? ==> more.value == fed + Section(r, [])
  {
    hide Frame, PointsInside;
    SectionPieces(r);
    match r.node
    case Directory(mode) =>
      return Some(fed + Frame(TypeName(r.node), r.path, mode, 0, []));
    case Symlink(mode, target) =>
      if !PointsInside(site.location, r.path, target) {
        return None;
      }
      return Some(fed + Frame(TypeName(r.node), r.path, mode, |target|, []) + target + [0]);
    case Special(_) =>
      return None;
    case File(mode, data) =>
      var frame := Frame(TypeName(r.node), r.path, mode, |data|, []);
      var content := HashOpenedFile(fed + frame, data);
      assert fed + frame + data + [0] == fed + (frame + (data + [0]));
      return Some(content + [0]);
  }

  lemma NextWeight(rs: seq<Record>, k: nat)
    requires k < |rs|
    ensures Sum(FileSize, rs[..k + 1]) == Sum(FileSize, rs[..k]) + FileSize(rs[k]) <= Sum(FileSize, rs)
    ensures Sum(FileUnit, rs[..k + 1]) == Sum(FileUnit, rs[..k]) + FileUnit(rs[k]) <= Sum(FileUnit, rs)
    ensures Stream(rs[..k + 1]) == Stream(rs[..k]) + Section(rs[k], [])
  {
    hide Sum, Stream, Section;
    assert rs[..k + 1] == rs[..k] + [rs[k]];
    StreamAppend(rs[..k], rs[k]);
    SumAppend(FileSize, rs[..k], rs[k]);
    SumAppend(FileUnit, rs[..k], rs[k]);
    SumPrefix(FileSize, rs, k + 1);
    SumPrefix(FileUnit, rs, k + 1);
  }

  function ByteLimit(expected: Option<Shape>): int
  {
    if expected.Some? then expected.value.sizeBytes else MAX_LOGICAL_BYTES
  }

  /** One turn of the loop of `inspectDirectory`: checks and feeds one entry. */
  method HashNext(fed: Text, sizeBytes: nat, fileCount: nat, r: Record, site: Site, expected: Option<Shape>)
    returns (next: Option<(Text, nat, nat)>)
    requires ShapeIsSound(expected) && sizeBytes <= ByteLimit(expected)
    ensures next.Some? <==>
      && Hashable(r, site)
      && sizeBytes + FileSize(r) <= ByteLimit(expected)
      && (r.node.File? && expected.Some? ==> fileCount < expected.value.fileCount)
    ensures next.Some? ==> next.value == (fed + Section(r, []), sizeBytes + FileSize(r), fileCount + FileUnit(r))
  {
    hide Section, Hashable;
    if r.node.File? {
      if expected.Some? && fileCount >= expected.value.fileCount {
        return None;
      }
      if |r.node.data| > MAX_LOGICAL_BYTES || |r.node.data| > ByteLimit(expected) - sizeBytes {
        return None;
      }
    }
    var more :- HashEntry(fed, r, site);
    return Some((more, sizeBytes + FileSize(r), fileCount + FileUnit(r)));
  }

  /** The loop of `inspectDirectory` over the collected entries. */
  method HashEntries(rs: seq<Record>, site: Site, expected: Option<Shape>) returns (r: Option<(Text, nat, nat)>)
    requires ShapeIsSound(expected)
    ensures r.Some? ==> r.value == (Stream(rs), Sum(FileSize, rs), Sum(FileUnit, rs))
    ensures r.Some? ==> forall i :: 0 <= i < |rs| ==> Hashable(rs[i], site)
    ensures r.Some? ==> Sum(FileSize, rs) <= ByteLimit(expected)
    ensures r.None? ==>
      || Sum(FileSize, rs) > ByteLimit(expected)
      || (expected.Some? && Sum(FileUnit, rs) > expected.value.fileCount)
      || (exists i :: 0 <= i < |rs| && !Hashable(rs[i], site))
  {
    hide Section, Hashable;
    var fed: Text, sizeBytes, fileCount, k := [], 0, 0, 0;
    while k < |rs|
      invariant k <= |rs|
      invariant fed == Stream(rs[..k])
      invariant sizeBytes == Sum(FileSize, rs[..k]) <= ByteLimit(expected)
      invariant fileCount == Sum(FileUnit, rs[..k])
      invariant forall i :: 0 <= i < k ==> Hashable(rs[i], site)
    {
      hide Stream, Sum, ByteLimit, ShapeIsSound, FileSize;
      NextWeight(rs, k);
      var next :- HashNext(fed, sizeBytes, fileCount, rs[k], site, expected);
      fed, sizeBytes, fileCount := next.0, next.1, next.2;
      k := k + 1;
    }
    assert rs[..|rs|] == rs;
    return Some((fed, sizeBytes, fileCount));
  }

  /** The records of a complete walk: what they weigh, and that checking them is checking the tree. */
  lemma WalkStandsForTree(rs: seq<Record>, ps: seq<Path>, t: Tree, site: Site)
    requires StrictTotal(site.before) && IsWalk(ps, t, site.before) && SetOf(ps) == t.Keys && WalkRecords(rs, ps, t)
    requires INFO_PLIST in t && t[INFO_PLIST].File?
    ensures IsWalkOf(rs, t, site.before)
    ensures Sum(FileSize, rs) == TreeBytes(t) && 0 < Sum(FileUnit, rs) == TreeFiles(t)
    ensures (forall i :: 0 <= i < |rs| ==> Hashable(rs[i], site)) <==> forall p :: p in t ==> Hashable(Record(p, t[p]), site)
  {
    hide StrictTotal, IsWalk, Hashable, Sum;
    WalkWeighs(rs, t, site.before, FileSize);
    WalkWeighs(rs, t, site.before, FileUnit);
    InfoPlistIsCounted(rs, t);
    HashableEverywhere(rs, t, site);
  }

  /** `inspectDirectory`: accepts exactly the inspectable trees and reports their integrity. */
  method InspectDirectory(t: Tree, site: Site, expected: Option<Shape>, hash: Hash) returns (r: Option<Integrity>)
    requires Rooted(t) && StrictTotal(site.before)
    ensures r.Some? <==> Inspectable(t, site, expected)
    ensures r.Some? ==> IsIntegrityOf(r.value, t, site.before, hash)
  {
    hide Rooted, StrictTotal, IsWalk, IsWalkOf, Stream, Hashable, Sum, TreeBytes, TreeFiles, PointsInside;
    if expected.Some? && !(0 <= expected.value.sizeBytes <= MAX_LOGICAL_BYTES && 0 < expected.value.fileCount) {
      return None;
    }
    if INFO_PLIST !in t || !t[INFO_PLIST].File? {
      return None;
    }
    var paths :- CollectRelativePaths(t, site.before);
    WalkHas(paths, t, site.before);
    var rs := seq(|paths|, i requires 0 <= i < |paths| => Record(paths[i], t[paths[i]]));
    WalkStandsForTree(rs, paths, t, site);
    var totals :- HashEntries(rs, site, expected);
    var (fed, sizeBytes, fileCount) := totals;
    if fileCount == 0 {
      return None;
    }
    if expected.Some? && (sizeBytes != expected.value.sizeBytes || fileCount != expected.value.fileCount) {
      return None;
    }
    return Some(Integrity(Sha256TreeV1, hash(fed), sizeBytes, fileCount));
  }

  lemma WalkHas(ps: seq<Path>, t: Tree, before: NameOrder)
    requires IsWalk(ps, t, before)
    ensures SetOf(ps) == t.Keys && forall i :: 0 <= i < |ps| ==> ps[i] in t
  {
    forall i | 0 <= i < |ps| ensures ps[i] in t {
      assert ps[i] in SetOf(ps);
    }
  }

  lemma InfoPlistIsCounted(rs: seq<Record>, t: Tree)
    requires ToTree(rs) == t && INFO_PLIST in t && t[INFO_PLIST].File?
    ensures Sum(FileUnit, rs) > 0
  {
    if rs != [] && rs[|rs| - 1].path != INFO_PLIST {
      InfoPlistIsCounted(rs[..|rs| - 1], ToTree(rs[..|rs| - 1]));
    }
  }

  lemma HashableEverywhere(rs: seq<Record>, t: Tree, site: Site)
    requires exists ps :: SetOf(ps) == t.Keys && WalkRecords(rs, ps, t)
    ensures (forall i :: 0 <= i < |rs| ==> Hashable(rs[i], site)) <==> forall p :: p in t ==> Hashable(Record(p, t[p]), site)
  {
    var ps :| SetOf(ps) == t.Keys && WalkRecords(rs, ps, t);
    if forall i :: 0 <= i < |rs| ==> Hashable(rs[i], site) {
      forall p | p in t ensures Hashable(Record(p, t[p]), site) {
        assert p in SetOf(ps);
        var i :| 0 <= i < |ps| && ps[i] == p;
        assert rs[i] == Record(p, t[p]);
      }
    }
  }

  // ---- Single files ----

  /** `inspectFile`: an Android package is one non-empty file. */
  method InspectFile(data: seq<Byte>, expected: Option<Shape>, hash: Hash) returns (r: Option<Integrity>)
    ensures r.Some? <==>
      && 0 < |data| <= MAX_LOGICAL_BYTES
      && (expected.Some? ==> expected.value == Shape(|data|, 1))
    ensures r.Some? ==> r.value == Integrity(Sha256, hash(data), |data|, 1)
  {
    if expected.Some? && expected.value.fileCount != 1 {
      return None;
    }
    if expected.Some? && !(0 <= expected.value.sizeBytes <= MAX_LOGICAL_BYTES) {
      return None;
    }
    if |data| > MAX_LOGICAL_BYTES || (expected.Some? && |data| != expected.value.sizeBytes) || |data| == 0 {
      return None;
    }
    var fed := HashOpenedFile([], data);
    assert fed == data;
    return Some(Integrity(Sha256, hash(fed), |data|, 1));
  }

  /** `inspectPayloadFile`: a compressed payload is one non-empty file of the expected size. */
  method InspectPayloadFile(data: seq<Byte>, expected: Option<int>, hash: Hash) returns (r: Option<(nat, Digest)>)
    ensures r.Some? <==> 0 < |data| <= MAX_LOGICAL_BYTES && (expected.Some? ==> expected.value == |data|)
    ensures r.Some? ==> r.value == (|data|, hash(data))
  {
    if |data| == 0 || |data| > MAX_LOGICAL_BYTES || (expected.Some? && |data| != expected.value) {
      return None;
    }
    var fed := HashOpenedFile([], data);
    assert fed == data;
    return Some((|data|, hash(fed)));
  }

  // ---- Artifacts of either platform ----

  datatype Artifact = Apk(data: seq<Byte>) | App(tree: Tree)

  function PlatformOf(a: Artifact): Platform { if a.Apk? then Android else IOS }

  /** What the file system guarantees of an artifact. */
  ghost predicate Stored(a: Artifact) { a.App? ==> Rooted(a.tree) }

  /** What the inspections assume of their host, apart from the location. */
  datatype Inspector = Inspector(before: NameOrder, hash: Hash)

  ghost predicate Acceptable(a: Artifact, location: seq<Segment>, expected: Option<Shape>, inspector: Inspector)
  {
    match a
    case Apk(data) => 0 < |data| <= MAX_LOGICAL_BYTES && (expected.Some? ==> expected.value == Shape(|data|, 1))
    case App(tree) => Inspectable(tree, Site(inspector.before, location), expected)
  }

  /** `i` is what an inspection of the artifact reports, wherever it lies. */
  ghost predicate Attests(i: Integrity, a: Artifact, inspector: Inspector)
  {
    match a
    case Apk(data) => i == Integrity(Sha256, inspector.hash(data), |data|, 1)
    case App(tree) => NoSpecial(tree) && IsIntegrityOf(i, tree, inspector.before, inspector.hash)
  }

  /** `inspectArtifact` */
  method InspectArtifact(a: Artifact, platform: Platform, location: seq<Segment>, expected: Option<Shape>,
                         inspector: Inspector)
    returns (r: Option<Integrity>)
    requires Stored(a) && StrictTotal(inspector.before)
    ensures r.Some? <==> PlatformOf(a) == platform && Acceptable(a, location, expected, inspector)
    ensures r.Some? ==> Attests(r.value, a, inspector)
  {
    hide StrictTotal, IsIntegrityOf, Rooted, TreeBytes, TreeFiles, PointsInside;
    match a
    case Apk(data) =>
      if !platform.Android? {
        return None;
      }
      r := InspectFile(data, expected, inspector.hash);
    case App(tree) =>
      if !platform.IOS? {
        return None;
      }
      r := InspectDirectory(tree, Site(inspector.before, location), expected, inspector.hash);
  }

  /** Two artifacts that one integrity attests are the same artifact. */
  lemma AttestedIsUnique(i: Integrity, a: Artifact, b: Artifact, inspector: Inspector)
    requires CollisionFree(inspector.hash) && StrictTotal(inspector.before)
    requires Attests(i, a, inspector) && Attests(i, b, inspector)
    ensures a == b
  {
    hide StrictTotal, IsIntegrityOf;
    if a.App? && b.App? {
      DigestDeterminesTree(i, a.tree, i, b.tree, inspector.before, inspector.hash);
    } else if a.App? {
      TreeAlgorithm(i, a.tree, inspector);
    } else if b.App? {
      TreeAlgorithm(i, b.tree, inspector);
    }
  }

  lemma TreeAlgorithm(i: Integrity, t: Tree, inspector: Inspector)
    requires IsIntegrityOf(i, t, inspector.before, inspector.hash)
    ensures i.algorithm == Sha256TreeV1 && i.sizeBytes == TreeBytes(t) && i.fileCount == TreeFiles(t)
  {
    hide IsWalkOf, Stream;
  }

  /** An artifact has one integrity. */
  lemma AttestationIsUnique(i: Integrity, j: Integrity, a: Artifact, inspector: Inspector)
    requires StrictTotal(inspector.before) && Attests(i, a, inspector) && Attests(j, a, inspector)
    ensures i == j
  {
    hide StrictTotal, IsIntegrityOf;
    if a.App? {
      IntegrityIsAFunction(i, j, a.tree, inspector.before, inspector.hash);
    }
  }
}

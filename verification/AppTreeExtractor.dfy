/** `extractAppTree`: the extraction loop over its maps and counters, then the directory modes. */
module AppTreeExtractor {
  import opened Options
  import opened Bytes
  import opened PathText
  import opened FileTree
  import opened AppTreeFormat
  import opened AppTreeLaws
  import opened AppTreeEncoder
  import opened SourceRecords
  import opened AppTreeReader

  // ---- Directory modes, deepest first ----

  predicate DeepestFirst(dirs: seq<(Path, Mode)>)
  {
    forall i, j :: 0 <= i < j < |dirs| ==> Depth(dirs[i].0) >= Depth(dirs[j].0)
  }

  function InsertByDepth(d: (Path, Mode), dirs: seq<(Path, Mode)>): (r: seq<(Path, Mode)>)
    ensures multiset(r) == multiset(dirs) + multiset{d}
  {
    if dirs == [] then [d]
    else if Depth(dirs[0].0) >= Depth(d.0) then
      assert dirs == [dirs[0]] + dirs[1..];
      [dirs[0]] + InsertByDepth(d, dirs[1..])
    else [d] + dirs
  }

  /** `directoryModes.sort` by descending number of segments. */
  function SortByDepth(dirs: seq<(Path, Mode)>): (r: seq<(Path, Mode)>)
    ensures multiset(r) == multiset(dirs)
  {
    if dirs == [] then []
    else
      assert dirs == dirs[..|dirs| - 1] + [dirs[|dirs| - 1]];
      InsertByDepth(dirs[|dirs| - 1], SortByDepth(dirs[..|dirs| - 1]))
  }

  lemma {:induction false} InsertKeepsDeepestFirst(d: (Path, Mode), dirs: seq<(Path, Mode)>)
    requires DeepestFirst(dirs)
    ensures DeepestFirst(InsertByDepth(d, dirs))
  {
    if dirs != [] && Depth(dirs[0].0) >= Depth(d.0) {
      InsertKeepsDeepestFirst(d, dirs[1..]);
      var tail := InsertByDepth(d, dirs[1..]);
      forall j | 0 <= j < |tail| ensures Depth(dirs[0].0) >= Depth(tail[j].0) {
        assert tail[j] in multiset(tail);
        if tail[j] != d {
          assert tail[j] in dirs[1..];
        }
      }
    }
  }

  lemma {:induction false} SortIsDeepestFirst(dirs: seq<(Path, Mode)>)
    ensures DeepestFirst(SortByDepth(dirs))
  {
    if dirs != [] {
      SortIsDeepestFirst(dirs[..|dirs| - 1]);
      InsertKeepsDeepestFirst(dirs[|dirs| - 1], SortByDepth(dirs[..|dirs| - 1]));
    }
  }

  lemma {:induction false} SplitAround(x: seq<Byte>, y: seq<Byte>)
    ensures |Split(x + [SLASH] + y)| == |Split(x)| + |Split(y)|
  {
    var whole := x + [SLASH] + y;
    if x == [] {
      assert whole[1..] == y;
    } else {
      SplitAround(x[1..], y);
      assert whole[1..] == x[1..] + [SLASH] + y;
    }
  }

  lemma AncestorIsShallower(p: Path, i: nat)
    requires i < |p| && p[i] == SLASH
    ensures Depth(p[..i]) < Depth(p)
  {
    SplitAround(p[..i], p[i + 1..]);
    assert p == p[..i] + [SLASH] + p[i + 1..];
  }

  ghost function Firsts(dirs: seq<(Path, Mode)>): set<Path> { set i | 0 <= i < |dirs| :: dirs[i].0 }

  /** Directories already given their own mode; everything else as it was while extracting. */
  ghost predicate PartlyApplied(disk: Tree, t: Tree, applied: set<Path>)
  {
    disk.Keys == t.Keys && forall p :: p in t ==> disk[p] == if p in applied then t[p] else Private(t[p])
  }

  /** `dirs` lists directories of `t` with their modes. */
  ghost predicate ListsDirectories(dirs: seq<(Path, Mode)>, t: Tree)
  {
    && (forall i :: 0 <= i < |dirs| ==> dirs[i].0 in t && t[dirs[i].0] == Directory(dirs[i].1))
    && (forall p :: p in t && t[p].Directory? ==> (p, t[p].mode) in dirs)
  }

  lemma {:induction false} DirectoriesListed(rs: seq<Record>)
    requires Distinct(rs)
    ensures ListsDirectories(DirectoriesOf(rs), ToTree(rs))
  {
    if rs != [] {
      var n := |rs| - 1;
      DirectoriesListed(rs[..n]);
      ToTreeKeys(rs[..n]);
    }
  }

  lemma SortedListsDirectories(dirs: seq<(Path, Mode)>, t: Tree)
    requires ListsDirectories(dirs, t)
    ensures ListsDirectories(SortByDepth(dirs), t)
  {
    var s := SortByDepth(dirs);
    forall i | 0 <= i < |s| ensures s[i] in dirs {
      assert s[i] in multiset(s);
    }
    forall p | p in t && t[p].Directory? ensures (p, t[p].mode) in s {
      assert (p, t[p].mode) in multiset(dirs);
    }
  }

  lemma {:induction false} AncestorInTree(t: Tree, p: Path, i: nat)
    requires Rooted(t) && p in t && i < |p| && p[i] == SLASH
    ensures p[..i] in t && t[p[..i]].Directory?
    decreases |p|
  {
    ParentIsLastPrefix(p, i);
    if p[..i] != Parent(p) {
      AncestorInTree(t, Parent(p), i);
    } else {
      assert p[0] != SLASH;
    }
  }

  lemma NotYetApplied(dirs: seq<(Path, Mode)>, k: nat, a: Path)
    requires k < |dirs| && DeepestFirst(dirs) && Depth(a) < Depth(dirs[k].0)
    ensures a !in Firsts(dirs[..k])
  {
    forall j | 0 <= j < k ensures dirs[..k][j].0 != a {
      assert Depth(dirs[j].0) >= Depth(dirs[k].0);
    }
  }

  /** Deepest first, no directory is closed before the directories inside it were reached. */
  lemma StillReachable(disk: Tree, t: Tree, dirs: seq<(Path, Mode)>, k: nat)
    requires Rooted(t) && k < |dirs| && DeepestFirst(dirs) && ListsDirectories(dirs, t)
    requires PartlyApplied(disk, t, Firsts(dirs[..k]))
    ensures Reachable(disk, dirs[k].0)
  {
    var p := dirs[k].0;
    forall i | 0 <= i < |p| && p[i] == SLASH ensures RealDirectory(disk, p[..i]) {
      AncestorInTree(t, p, i);
      AncestorIsShallower(p, i);
      NotYetApplied(dirs, k, p[..i]);
    }
  }

  lemma ApplyOne(disk: Tree, t: Tree, dirs: seq<(Path, Mode)>, k: nat)
    requires k < |dirs| && ListsDirectories(dirs, t)
    requires PartlyApplied(disk, t, Firsts(dirs[..k]))
    ensures PartlyApplied(disk[dirs[k].0 := Directory(dirs[k].1)], t, Firsts(dirs[..k + 1]))
  {
    assert Firsts(dirs[..k + 1]) == Firsts(dirs[..k]) + {dirs[k].0} by {
      assert dirs[..k + 1][k] == dirs[k];
      forall i | 0 <= i < k ensures dirs[..k + 1][i] == dirs[..k][i] {}
      forall p | p in Firsts(dirs[..k]) ensures p in Firsts(dirs[..k + 1]) {
        var i :| 0 <= i < k && dirs[..k][i].0 == p;
        assert dirs[..k + 1][i].0 == p;
      }
    }
  }

  lemma AllApplied(disk: Tree, t: Tree, dirs: seq<(Path, Mode)>)
    requires ListsDirectories(dirs, t) && PartlyApplied(disk, t, Firsts(dirs))
    ensures disk == t
  {
    forall p | p in t ensures disk[p] == t[p] {
      if t[p].Directory? {
        var i :| 0 <= i < |dirs| && dirs[i] == (p, t[p].mode);
        assert dirs[i].0 == p;
      }
    }
  }

  lemma AdmissibleIsNew(done: seq<Record>, r: Record, decl: Declaration, host: Host)
    requires Admissible(done, r, decl, host)
    ensures !r.node.Special? && NoAlias(done, r.path, host)
  {
  }

  // ---- The loop ----

  /** The destination on disk and the loop's counters and maps. `done` is the list of records so far. */
  class Extraction {
    var disk: Tree
    var previousPath: Option<Path>
    var decodedSize: nat
    var decodedFiles: nat
    var recordCount: nat
    var nodeTypes: map<Path, Byte>
    var aliases: map<seq<Byte>, Path>
    var directoryModes: seq<(Path, Mode)>
    ghost var done: seq<Record>
    ghost var written: nat  // octets of file contents and link targets on disk

    constructor ()
      ensures disk == map[] && done == [] && written == 0
      ensures forall decl, host :: Valid(decl, host)
    {
      disk, previousPath, decodedSize, decodedFiles, recordCount := map[], None, 0, 0, 0;
      nodeTypes, aliases, directoryModes, done, written := map[], map[], [], [], 0;
    }

    ghost predicate Counted()
      reads this
    {
      && previousPath == (if done == [] then None else Some(done[|done| - 1].path))
      && decodedSize == Sum(FileSize, done)
      && decodedFiles == Sum(FileUnit, done)
      && recordCount == |done|
      && directoryModes == DirectoriesOf(done)
      && written == Sum(PayloadSize, done)
    }

    ghost predicate Mapped(host: Host)
      reads this
    {
      && Provisional(disk, ToTree(done))
      && TypesMatch(nodeTypes, ToTree(done))
      && AliasesMatch(aliases, done, host)
    }

    ghost predicate Valid(decl: Declaration, host: Host)
      reads this
    {
      Stepwise(done, decl, host) && Counted() && Mapped(host)
    }

    /** The header tests, in the loop's own terms. */
    method AdmitHead(h: Head, decl: Declaration, host: Host) returns (ok: bool)
      requires Valid(decl, host)
      ensures ok <==> HeadAdmissible(done, h, decl, host)
    {
      hide ValidPath, Stepwise, Less, Parent, Sum, ToTree, NoAlias, AliasesMatch, Provisional;
      if h.tag != DIRECTORY && h.tag != FILE && h.tag != SYMLINK {
        return false;
      }
      if recordCount + 1 > MAX_RECORDS || !ValidPath(h.path, host) {
        return false;
      }
      if previousPath.Some? && !Less(previousPath.value, h.path) {
        return false;
      }
      if h.tag == SYMLINK && h.mode != LINK_MODE && !host.lchmod {
        return false;
      }
      if h.tag == DIRECTORY && h.dataLength != 0 {
        return false;
      }
      if h.tag == FILE && (h.dataLength > MAX_LOGICAL_BYTES || decodedSize + h.dataLength > decl.sizeBytes
                           || decodedFiles + 1 > decl.fileCount) {
        return false;
      }
      if h.tag == SYMLINK && h.dataLength > MAX_PATH_BYTES {
        return false;
      }
      var parent := Parent(h.path);
      if parent != ROOT && !(parent in nodeTypes && nodeTypes[parent] == DIRECTORY) {
        return false;
      }
      AliasTest(aliases, done, h.path, host);
      var key := host.aliasKey(h.path);
      return !(key in aliases && aliases[key] != h.path);
    }

    /** Puts one admitted record on disk and into the maps. */
    method Store(r: Record, decl: Declaration, host: Host)
      requires Valid(decl, host) && Admissible(done, r, decl, host)
      modifies this
      ensures Valid(decl, host) && done == old(done) + [r] && written == old(written) + PayloadSize(r)
    {
      hide Stepwise, Provisional, TypesMatch, AliasesMatch, NoAlias, Admissible, PayloadSize, Private, Tag, ToTree;
      hide Sum, DirectoriesOf;
      StepwiseAppend(done, r, decl, host);
      AdmissibleIsNew(done, r, decl, host);
      DiskStep(disk, nodeTypes, done, r);
      AliasStep(aliases, done, r, host);
      disk := disk[r.path := Private(r.node)];
      aliases := aliases[host.aliasKey(r.path) := r.path];
      nodeTypes := nodeTypes[r.path := Tag(r.node)];
      Count(r);
    }

    /** Counts one record that is on disk now. */
    method Count(r: Record)
      requires Counted() && !r.node.Special?
      modifies this`previousPath, this`decodedSize, this`decodedFiles, this`recordCount, this`directoryModes
      modifies this`done, this`written
      ensures Counted() && done == old(done) + [r] && written == old(written) + PayloadSize(r)
    {
      hide Sum, DirectoriesOf, PayloadSize;
      CountStep(done, r);
      match r.node {
        case Directory(mode) =>
          directoryModes := directoryModes + [(r.path, mode)];
        case File(_, data) =>
          decodedSize := decodedSize + |data|;
          decodedFiles := decodedFiles + 1;
        case Symlink(_, _) =>
      }
      previousPath := Some(r.path);
      recordCount := recordCount + 1;
      done, written := done + [r], written + PayloadSize(r);
    }

    /** Copies a record's data out, or reads and tests its target. A file that is cut short stays on disk as it is. */
    method TakeData(reader: ArchiveReader, h: Head, host: Host) returns (node: Option<Node>)
      requires reader.Valid() && reader.offset == h.data && written <= reader.offset
      requires h.tag == DIRECTORY || h.tag == FILE || h.tag == SYMLINK
      requires h.tag == DIRECTORY ==> h.dataLength == 0
      modifies this`written, reader
      ensures reader.Valid() && written <= reader.offset
      ensures var end := h.data + h.dataLength;
        && (node.Some? <==> end <= |reader.archive|
                            && (h.tag == SYMLINK ==> ValidTarget(reader.archive[h.data..end], h.path, host)))
        && (node.Some? ==>
              && node == NodeOf(h.tag, h.mode, reader.archive[h.data..end])
              && reader.offset == end && written == old(written) && written + |Payload(node.value)| <= end)
      ensures node.None? ==> written == old(written) + if h.tag == FILE then reader.offset - h.data else 0
    {
      hide ValidTarget;
      var data, copied := reader.CopyTo(h.dataLength);
      if data.None? {
        written := written + if h.tag == FILE then copied else 0;
        return None;
      }
      if h.tag == SYMLINK {
        var valid := ValidateSymlinkTarget(data.value, h.path, host);
        if !valid {
          return None;
        }
      }
      return NodeOf(h.tag, h.mode, data.value);
    }

    /** One turn of the loop, after its tag: header, tests, parents, data. What is on disk was read before, also when
        the turn fails halfway through a file. */
    method ExtractRecord(reader: ArchiveReader, tag: Byte, decl: Declaration, host: Host) returns (ok: bool)
      requires Valid(decl, host) && reader.Valid()
      requires 0 < reader.offset && reader.archive[reader.offset - 1] == tag
      requires written <= reader.offset
      modifies this, reader
      ensures reader.Valid() && written <= reader.offset
      ensures var parsed := RecordAt(reader.archive, old(reader.offset) - 1);
        && (ok <==> parsed.Some? && Admissible(old(done), parsed.value.0, decl, host))
        && (ok ==> Valid(decl, host) && done == old(done) + [parsed.value.0] && reader.offset == parsed.value.1)
    {
      hide Stepwise, Admissible, Provisional, TypesMatch, ValidTarget, AliasesMatch, HeadAt, ToTree, HasParent, Sum;
      ghost var at := reader.offset - 1;
      var head := ReadHead(reader, tag);
      if head.None? {
        return false;
      }
      var h := head.value;
      HeadThenData(reader.archive, at, done, decl, host);
      var admitted := AdmitHead(h, decl, host);
      if !admitted {
        return false;
      }
      ReachableOnDisk(disk, done, h, decl, host);
      var reachable := ValidateParentDirectories(disk, h.path);
      if !reachable || h.path in disk {
        return false;
      }
      var node := TakeData(reader, h, host);
      if node.None? {
        return false;
      }
      Store(Record(h.path, node.value), decl, host);
      return true;
    }
  }

  /** On disk an admitted record has entered directories above it and nothing in its place. */
  lemma ReachableOnDisk(disk: Tree, done: seq<Record>, h: Head, decl: Declaration, host: Host)
    requires Stepwise(done, decl, host) && Provisional(disk, ToTree(done)) && HeadAdmissible(done, h, decl, host)
    ensures Reachable(disk, h.path) && h.path !in disk
  {
    hide Stepwise, Split, Sum, NoAlias, ValidRecord, AliasFree;
    StepsWellFormed(done, decl, host);
    WellFormedIsRooted(done, host);
    ParentIsEnough(disk, ToTree(done), h.path);
    NewPath(done, h.path);
  }

  /** Reads what follows a record's tag up to its data. */
  method ReadHead(reader: ArchiveReader, tag: Byte) returns (h: Option<Head>)
    requires reader.Valid() && 0 < reader.offset && reader.archive[reader.offset - 1] == tag
    modifies reader
    ensures reader.Valid() && old(reader.offset) <= reader.offset
    ensures h == HeadAt(reader.archive, old(reader.offset) - 1)
    ensures h.Some? ==> reader.offset == h.value.data && h.value.tag == tag
  {
    ghost var a, at := reader.archive, reader.offset - 1;
    var lengthBytes := reader.Read(4);
    if lengthBytes.None? {
      return None;
    }
    var pathLength := FromBigEndian(lengthBytes.value);
    if 1 + 4 + pathLength + 4 + 8 > MAX_HEADER_BYTES {
      return None;
    }
    var path := reader.Read(pathLength);
    if path.None? {
      return None;
    }
    var modeBytes := reader.Read(4);
    if modeBytes.None? {
      return None;
    }
    var mode := FromBigEndian(modeBytes.value);
    if mode > 0xFFF {
      return None;
    }
    var dataLengthBytes := reader.Read(8);
    if dataLengthBytes.None? {
      return None;
    }
    var dataLength := FromBigEndian(dataLengthBytes.value);
    if dataLength > MAX_SAFE_INTEGER {
      return None;
    }
    return Some(Head(tag, path.value, mode, dataLength, reader.offset));
  }

  /** Gives the directories their own modes, deepest first; no directory is shut before its turn. */
  method ApplyDirectoryModes(start: Tree, directoryModes: seq<(Path, Mode)>, ghost t: Tree) returns (ok: bool, disk: Tree)
    requires Rooted(t) && Provisional(start, t) && ListsDirectories(directoryModes, t)
    ensures ok && disk == t
  {
    hide Rooted, Reachable, DeepestFirst, Provisional;
    var dirs := SortByDepth(directoryModes);
    SortIsDeepestFirst(directoryModes);
    SortedListsDirectories(directoryModes, t);
    disk := start;
    assert dirs[..0] == [];
    NothingApplied(disk, t);
    for k := 0 to |dirs|
      invariant PartlyApplied(disk, t, Firsts(dirs[..k]))
    {
      StillReachable(disk, t, dirs, k);
      ApplyOne(disk, t, dirs, k);
      var reachable := ValidateParentDirectories(disk, dirs[k].0);
      if !reachable {
        return false, disk;
      }
      disk := disk[dirs[k].0 := Directory(dirs[k].1)];
    }
    assert dirs[..|dirs|] == dirs;
    AllApplied(disk, t, dirs);
    return true, disk;
  }

  lemma NothingApplied(disk: Tree, t: Tree)
    requires Provisional(disk, t)
    ensures PartlyApplied(disk, t, Firsts([]))
  {
  }

  /** The loop of `extractAppTree` over the records, up to the end marker. No more is written than was read. */
  method ExtractRecords(extraction: Extraction, reader: ArchiveReader, decl: Declaration, host: Host) returns (ok: bool)
    requires extraction.Valid(decl, host) && reader.Valid() && extraction.written <= reader.offset
    modifies extraction, reader
    ensures extraction.written <= |reader.archive|
    ensures ok ==> extraction.Valid(decl, host)
    ensures var parsed := ParseFrom(reader.archive, old(reader.offset), old(extraction.done), decl, host);
      (ok <==> parsed.Some?) && (ok ==> extraction.done == parsed.value)
  {
    hide Admissible, RecordAt, Stepwise;
    while true
      invariant extraction.Valid(decl, host) && reader.Valid() && extraction.written <= reader.offset
      invariant ParseFrom(reader.archive, old(reader.offset), old(extraction.done), decl, host)
             == ParseFrom(reader.archive, reader.offset, extraction.done, decl, host)
      decreases |reader.archive| - reader.offset
    {
      var tagByte := reader.Read(1);
      if tagByte.None? {
        return false;
      }
      var tag := tagByte.value[0];
      if tag == END {
        return reader.offset == |reader.archive|;
      }
      var extracted := extraction.ExtractRecord(reader, tag, decl, host);
      if !extracted {
        return false;
      }
    }
  }

  /** The whole extractor: into an empty destination it accepts exactly the archives of the format, and leaves
      exactly their tree. The octets it wrote before it ended, well or not, never outnumber those of the archive. */
  method ExtractAppTree(archive: seq<Byte>, destination: Tree, decl: Declaration, host: Host)
    returns (r: Option<(Tree, Stats)>, ghost written: nat)
    ensures written <= |archive|
    ensures r.Some? <==> destination == map[] && ExtractedTree(archive, decl, host).Some?
    ensures r.Some? ==>
      && ExtractedTree(archive, decl, host) == Some(r.value.0)
      && r.value.1 == Stats(|archive|, decl.sizeBytes, decl.fileCount, |Extracted(archive, decl, host).value|)
      && written == Sum(PayloadSize, Extracted(archive, decl, host).value)
  {
    hide Stepwise, Provisional, TypesMatch, AliasesMatch, ParseFrom, Sum, ToTree, WellFormed;
    written := 0;
    var maxArchiveBytes :- DeclaredBound(decl);
    if |archive| <= |MAGIC| || |archive| > maxArchiveBytes {
      return None, written;
    }
    var reader := new ArchiveReader(archive);
    var magic := reader.Read(|MAGIC|);
    if magic.None? || magic.value != MAGIC {
      return None, written;
    }
    if destination != map[] {
      return None, written;
    }
    var extraction := new Extraction();
    var complete := ExtractRecords(extraction, reader, decl, host);
    written := extraction.written;
    if !complete || extraction.decodedSize != decl.sizeBytes || extraction.decodedFiles != decl.fileCount {
      return None, written;
    }
    StepsWellFormed(extraction.done, decl, host);
    WellFormedIsRooted(extraction.done, host);
    WellFormedIsDistinct(extraction.done, host);
    DirectoriesListed(extraction.done);
    var ok, disk := ApplyDirectoryModes(extraction.disk, extraction.directoryModes, ToTree(extraction.done));
    if !ok {
      return None, written;
    }
    return Some((disk, Stats(|archive|, extraction.decodedSize, extraction.decodedFiles, extraction.recordCount))), written;
  }

  lemma WellFormedIsDistinct(rs: seq<Record>, host: Host)
    requires WellFormed(rs, host)
    ensures Distinct(rs)
  {
    SortedIsDistinct(rs);
  }
}

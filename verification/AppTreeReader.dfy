/** `extractAppTree`: a bounded reader, the destination directory, and the extraction loop. */
module AppTreeReader {
  import opened Options
  import opened Bytes
  import opened PathText
  import opened FileTree
  import opened AppTreeFormat
  import opened SourceRecords
  import opened AppTreeEncoder

  const PRIVATE_MODE: Mode := 0x1C0  // 0o700

  /** Reads an archive from an offset it never moves past the end. */
  class ArchiveReader {
    const archive: seq<Byte>
    var offset: nat

    constructor (archive: seq<Byte>)
      ensures this.archive == archive && offset == 0
    {
      this.archive := archive;
      offset := 0;
    }

    ghost predicate Valid()
      reads this
    {
      offset <= |archive|
    }

    method Read(length: nat) returns (r: Option<seq<Byte>>)
      requires Valid()
      modifies this
      ensures Valid()
      ensures r.Some? <==> length <= MAX_SAFE_INTEGER && old(offset) + length <= |archive|
      ensures r.Some? ==> offset == old(offset) + length && r.value == archive[old(offset)..offset]
      ensures r.None? ==> offset == old(offset)
    {
      if length > MAX_SAFE_INTEGER || offset + length > |archive| {
        return None;
      }
      var result: seq<Byte> := [];
      while |result| < length
        invariant offset == old(offset) && |result| <= length
        invariant result == archive[offset..offset + |result|]
      {
        var count :| 1 <= count <= length - |result|;
        var at := offset + |result|;
        Glue(archive, offset, at, at + count);
        result := result + archive[at..at + count];
      }
      offset := offset + length;
      return Some(result);
    }

    /** Copies `length` octets out in bounded chunks; `copied` of them are out when a chunk is not all there. */
    method CopyTo(length: nat) returns (r: Option<seq<Byte>>, ghost copied: nat)
      requires Valid()
      modifies this
      ensures Valid() && old(offset) + copied == offset
      ensures r.Some? ==> copied == length
      ensures r.Some? <==> old(offset) + length <= |archive|
      ensures r.Some? ==> offset == old(offset) + length && r.value == archive[old(offset)..offset]
    {
      var output: seq<Byte> := [];
      var remaining := length;
      while remaining > 0
        invariant Valid() && 0 <= remaining <= length && offset + remaining == old(offset) + length
        invariant output == archive[old(offset)..offset]
      {
        var chunk := Read(if IO_BUFFER_BYTES < remaining then IO_BUFFER_BYTES else remaining);
        if chunk.None? {
          return None, |output|;
        }
        Glue(archive, old(offset), offset - |chunk.value|, offset);
        output := output + chunk.value;
        remaining := remaining - |chunk.value|;
      }
      return Some(output), |output|;
    }
  }

  // ---- The destination ----

  /** The owner may search the directory: bit 0o100. */
  predicate Searchable(m: Mode) { m / 0x40 % 2 == 1 }

  predicate RealDirectory(t: Tree, p: Path) { p in t && t[p].Directory? && Searchable(t[p].mode) }

  /** Every directory on the way to `p` is real and can be entered. */
  predicate Reachable(t: Tree, p: Path)
  {
    forall i :: 0 <= i < |p| && p[i] == SLASH ==> RealDirectory(t, p[..i])
  }

  /** `validateParentDirectories`: walks the ancestors from the root. */
  method ValidateParentDirectories(t: Tree, p: Path) returns (ok: bool)
    ensures ok <==> Reachable(t, p)
  {
    for i := 0 to |p|
      invariant forall j :: 0 <= j < i && p[j] == SLASH ==> RealDirectory(t, p[..j])
    {
      if p[i] == SLASH && !RealDirectory(t, p[..i]) {
        return false;
      }
    }
    return true;
  }

  /** While extraction runs, directories keep a private mode; their own modes come last. */
  function Private(n: Node): Node { if n.Directory? then Directory(PRIVATE_MODE) else n }

  ghost predicate Provisional(disk: Tree, t: Tree)
  {
    disk.Keys == t.Keys && forall p :: p in t ==> disk[p] == Private(t[p])
  }

  /** In a rooted destination the walk from the root agrees with looking at the parent alone. */
  lemma {:induction false} ParentIsEnough(disk: Tree, t: Tree, p: Path)
    requires Rooted(t) && Provisional(disk, t)
    requires p != ROOT && p[0] != SLASH && HasParent(p, t)
    ensures Reachable(disk, p)
    decreases |p|
  {
    var d := Parent(p);
    if d != ROOT {
      ParentIsEnough(disk, t, d);
    }
    forall i | 0 <= i < |p| && p[i] == SLASH ensures RealDirectory(disk, p[..i]) {
      ParentIsLastPrefix(p, i);
    }
  }

  // ---- One record ----

  /** The tests the loop makes on a header, before it touches the record's data. */
  predicate HeadAdmissible(done: seq<Record>, h: Head, decl: Declaration, host: Host)
  {
    && (h.tag == DIRECTORY || h.tag == FILE || h.tag == SYMLINK)
    && |done| + 1 <= MAX_RECORDS
    && ValidPath(h.path, host)
    && (done != [] ==> Less(done[|done| - 1].path, h.path))
    && (h.tag == SYMLINK ==> (h.mode == LINK_MODE || host.lchmod) && h.dataLength <= MAX_PATH_BYTES)
    && (h.tag == DIRECTORY ==> h.dataLength == 0)
    && (h.tag == FILE ==>
          && h.dataLength <= MAX_LOGICAL_BYTES
          && Sum(FileSize, done) + h.dataLength <= decl.sizeBytes
          && Sum(FileUnit, done) + 1 <= decl.fileCount)
    && HasParent(h.path, ToTree(done))
    && NoAlias(done, h.path, host)
  }

  lemma HeadThenData(a: seq<Byte>, at: nat, done: seq<Record>, decl: Declaration, host: Host)
    requires HeadAt(a, at).Some?
    ensures var h := HeadAt(a, at).value; var end := h.data + h.dataLength;
      RecordAt(a, at).Some? && Admissible(done, RecordAt(a, at).value.0, decl, host)
      <==> HeadAdmissible(done, h, decl, host) && end <= |a|
           && (h.tag == SYMLINK ==> ValidTarget(a[h.data..end], h.path, host))
  {
    hide ValidPath, NoAlias, HasParent, CanonicalTarget, LeadingParents, Split;
  }

  // ---- The maps of the loop ----

  ghost predicate TypesMatch(types: map<Path, Byte>, t: Tree)
  {
    types.Keys == t.Keys && forall p :: p in t ==> !t[p].Special? && types[p] == Tag(t[p])
  }

  function DirectoriesOf(rs: seq<Record>): seq<(Path, Mode)>
  {
    if rs == [] then []
    else
      var last := rs[|rs| - 1];
      DirectoriesOf(rs[..|rs| - 1]) + if last.node.Directory? then [(last.path, last.node.mode)] else []
  }

  lemma NewPath(done: seq<Record>, p: Path)
    requires StrictlySorted(done) && (done != [] ==> Less(done[|done| - 1].path, p))
    ensures p !in ToTree(done)
  {
    ToTreeKeys(done);
    if p in ToTree(done) {
      var i :| 0 <= i < |done| && done[i].path == p;
      if i < |done| - 1 {
        LessTransitive(p, done[|done| - 1].path, p);
      }
      LessIrreflexive(p);
    }
  }

  lemma DiskStep(disk: Tree, types: map<Path, Byte>, done: seq<Record>, r: Record)
    requires Provisional(disk, ToTree(done)) && TypesMatch(types, ToTree(done)) && !r.node.Special?
    ensures Provisional(disk[r.path := Private(r.node)], ToTree(done + [r]))
    ensures TypesMatch(types[r.path := Tag(r.node)], ToTree(done + [r]))
  {
    hide ToTree, Tag;
    ToTreeAppend(done, r);
  }

  lemma CountStep(done: seq<Record>, r: Record)
    ensures Sum(FileSize, done + [r]) == Sum(FileSize, done) + FileSize(r)
    ensures Sum(FileUnit, done + [r]) == Sum(FileUnit, done) + FileUnit(r)
    ensures DirectoriesOf(done + [r]) ==
      DirectoriesOf(done) + if r.node.Directory? then [(r.path, r.node.mode)] else []
    ensures Sum(PayloadSize, done + [r]) == Sum(PayloadSize, done) + PayloadSize(r)
  {
    assert (done + [r])[..|done|] == done;
  }
}

/** The ELCAPP1 archive as a format: how records are printed, what a reader accepts, and the theorem
    that a reader accepts exactly the printed form of the well-formed record lists. */
module AppTreeFormat {
  import opened Options
  import opened Bytes
  import opened PathText
  import opened FileTree

  const MAGIC: seq<Byte> := [0x45, 0x4C, 0x43, 0x41, 0x50, 0x50, 0x31, 0x0A]  // "ELCAPP1\n"
  const END: Byte := 0
  const DIRECTORY: Byte := 1
  const FILE: Byte := 2
  const SYMLINK: Byte := 3

  const MAX_RECORDS := 1_000_000
  const MAX_HEADER_BYTES := 64 * 1024
  const MAX_LOGICAL_BYTES := 100 * 0x4000_0000
  const MAX_METADATA_BYTES := 0x4000_0000
  const BASE_METADATA_BYTES := 8 * 0x10_0000
  const METADATA_BYTES_PER_FILE := 8 * 1024
  const LINK_MODE: Mode := 0x1FF  // 0o777

  // ---- Printing ----

  function Tag(n: Node): Byte
    requires !n.Special?
  {
    match n
    case Directory(_) => DIRECTORY
    case File(_, _) => FILE
    case Symlink(_, _) => SYMLINK
  }

  function Payload(n: Node): seq<Byte>
  {
    match n
    case Directory(_) => []
    case File(_, data) => data
    case Symlink(_, target) => target
    case Special(_) => []
  }

  /** Type, path length, path, mode and data length: `1 + 4 + |path| + 4 + 8` octets. */
  function HeaderSize(r: Record): nat { 1 + 4 + |r.path| + 4 + 8 }

  function Header(tag: Byte, path: Path, mode: Mode, dataLength: nat): (h: seq<Byte>)
    ensures |h| == 1 + 4 + |path| + 4 + 8
  {
    [tag] + BigEndian(|path|, 4) + path + BigEndian(mode, 4) + BigEndian(dataLength, 8)
  }

  /** What a record puts on disk: file contents or a link target. */
  function PayloadSize(r: Record): nat { |Payload(r.node)| }

  function PrintedSize(r: Record): nat { HeaderSize(r) + PayloadSize(r) }

  function Printed(r: Record): (bs: seq<Byte>)
    requires !r.node.Special?
    ensures |bs| == PrintedSize(r)
  {
    Header(Tag(r.node), r.path, r.node.mode, |Payload(r.node)|) + Payload(r.node)
  }

  predicate Ordinary(rs: seq<Record>) { forall i :: 0 <= i < |rs| ==> !rs[i].node.Special? }

  function Body(rs: seq<Record>): (bs: seq<Byte>)
    requires Ordinary(rs)
    ensures |bs| == Sum(PrintedSize, rs)
  {
    if rs == [] then [] else Body(rs[..|rs| - 1]) + Printed(rs[|rs| - 1])
  }

  function ArchiveOf(rs: seq<Record>): (bs: seq<Byte>)
    requires Ordinary(rs)
    ensures |bs| == |MAGIC| + Sum(PrintedSize, rs) + 1
  {
    MAGIC + Body(rs) + [END]
  }

  lemma BodyAppend(rs: seq<Record>, r: Record)
    requires Ordinary(rs) && !r.node.Special?
    ensures Body(rs + [r]) == Body(rs) + Printed(r)
  {
    assert (rs + [r])[..|rs|] == rs;
  }

  lemma {:induction false} BodyPrefix(rs: seq<Record>, k: nat)
    requires Ordinary(rs) && k <= |rs|
    ensures Body(rs[..k]) <= Body(rs)
  {
    if k == |rs| {
      assert rs[..k] == rs;
    } else {
      BodyPrefix(rs[..|rs| - 1], k);
      assert rs[..|rs| - 1][..k] == rs[..k];
    }
  }

  // ---- Bounds ----

  /** `appTreeArchiveBound`: the declared content plus a metadata allowance. */
  function ArchiveBound(sizeBytes: int, fileCount: int): Option<nat>
  {
    if 0 <= sizeBytes <= MAX_LOGICAL_BYTES && 1 <= fileCount <= MAX_RECORDS then
      var allowance := BASE_METADATA_BYTES + fileCount * METADATA_BYTES_PER_FILE;
      Some(sizeBytes + if allowance < MAX_METADATA_BYTES then allowance else MAX_METADATA_BYTES)
    else None
  }

  datatype Declaration = Declaration(sizeBytes: int, fileCount: int, maxArchiveBytes: Option<int>)

  /** The largest archive a declaration admits, unless the declaration itself is refused. */
  function DeclaredBound(decl: Declaration): Option<nat>
  {
    var hard :- ArchiveBound(decl.sizeBytes, decl.fileCount);
    match decl.maxArchiveBytes
    case None => Some(hard)
    case Some(max) => if 1 <= max <= hard then Some(max) else None
  }

  // ---- Reading one record ----

  /** A record header and the offset of the data after it. */
  datatype Head = Head(tag: Byte, path: Path, mode: Mode, dataLength: nat, data: nat)

  function HeadAt(a: seq<Byte>, at: nat): (h: Option<Head>)
    ensures h.Some? ==> at + 17 <= h.value.data <= |a|
  {
    if |a| < at + 5 then None else
    var pathLength := FromBigEndian(a[at + 1..at + 5]);
    if 1 + 4 + pathLength + 4 + 8 > MAX_HEADER_BYTES then None else
    var data := at + 1 + 4 + pathLength + 4 + 8;
    if |a| < data then None else
    var mode := FromBigEndian(a[data - 12..data - 8]);
    var dataLength := FromBigEndian(a[data - 8..data]);
    if mode > 0xFFF || dataLength > MAX_SAFE_INTEGER then None
    else Some(Head(a[at], a[at + 5..data - 12], mode, dataLength, data))
  }

  function NodeOf(tag: Byte, mode: Mode, payload: seq<Byte>): Option<Node>
  {
    if tag == DIRECTORY && payload == [] then Some(Directory(mode))
    else if tag == FILE then Some(File(mode, payload))
    else if tag == SYMLINK then Some(Symlink(mode, payload))
    else None
  }

  /** The record at an offset and the offset after it, by its syntax alone. */
  function RecordAt(a: seq<Byte>, at: nat): (r: Option<(Record, nat)>)
    ensures r.Some? ==> at < r.value.1 <= |a|
  {
    var h :- HeadAt(a, at);
    if |a| < h.data + h.dataLength then None else
    var node :- NodeOf(h.tag, h.mode, a[h.data..h.data + h.dataLength]);
    Some((Record(h.path, node), h.data + h.dataLength))
  }

  predicate Sized(r: Record)
  {
    !r.node.Special? && HeaderSize(r) <= MAX_HEADER_BYTES && |Payload(r.node)| <= MAX_SAFE_INTEGER
  }

  predicate PrintedAt(a: seq<Byte>, at: nat, r: Record)
    requires !r.node.Special?
  {
    at + PrintedSize(r) <= |a| && a[at..at + PrintedSize(r)] == Printed(r)
  }

  lemma Within<T>(a: seq<T>, at: nat, w: seq<T>, i: nat, j: nat)
    requires at + |w| <= |a| && a[at..at + |w|] == w && i <= j <= |w|
    ensures a[at + i..at + j] == w[i..j]
  {
    forall k | i <= k < j ensures a[at + k] == w[k] {
      assert a[at..at + |w|][k] == a[at + k];
    }
  }

  lemma Glue<T>(a: seq<T>, i: nat, j: nat, k: nat)
    requires i <= j <= k <= |a|
    ensures a[i..k] == a[i..j] + a[j..k]
  {
  }

  lemma HeaderParts(tag: Byte, path: Path, mode: Mode, dataLength: nat)
    ensures var h := Header(tag, path, mode, dataLength);
      && h[0..1] == [tag]
      && h[1..5] == BigEndian(|path|, 4)
      && h[5..5 + |path|] == path
      && h[5 + |path|..9 + |path|] == BigEndian(mode, 4)
      && h[9 + |path|..17 + |path|] == BigEndian(dataLength, 8)
  {
  }

  lemma HeadPrinted(a: seq<Byte>, at: nat, tag: Byte, path: Path, mode: Mode, n: nat)
    requires 17 + |path| <= MAX_HEADER_BYTES && n <= MAX_SAFE_INTEGER
    requires at + 17 + |path| <= |a| && a[at..at + 17 + |path|] == Header(tag, path, mode, n)
    ensures HeadAt(a, at) == Some(Head(tag, path, mode, n, at + 17 + |path|))
  {
    var h, p := Header(tag, path, mode, n), |path|;
    HeaderParts(tag, path, mode, n);
    hide Header, BigEndian, FromBigEndian;
    Within(a, at, h, 0, 1);
    assert a[at] == a[at..at + 1][0];
    Within(a, at, h, 1, 5);
    Within(a, at, h, 5, 5 + p);
    Within(a, at, h, 5 + p, 9 + p);
    Within(a, at, h, 9 + p, 17 + p);
    Range4();
    Range8();
    ReadWritten(p, 4);
    ReadWritten(mode, 4);
    ReadWritten(n, 8);
  }

  lemma HeadRead(a: seq<Byte>, at: nat)
    requires HeadAt(a, at).Some?
    ensures var h := HeadAt(a, at).value;
      && 17 + |h.path| <= MAX_HEADER_BYTES && h.dataLength <= MAX_SAFE_INTEGER
      && h.data == at + 17 + |h.path|
      && a[at..h.data] == Header(h.tag, h.path, h.mode, h.dataLength)
  {
    var data := HeadAt(a, at).value.data;
    WriteRead(a[at + 1..at + 5]);
    WriteRead(a[data - 12..data - 8]);
    WriteRead(a[data - 8..data]);
    Glue(a, at, at + 1, at + 5);
    Glue(a, at, at + 5, data - 12);
    Glue(a, at, data - 12, data - 8);
    Glue(a, at, data - 8, data);
    assert a[at..at + 1] == [a[at]];
  }

  lemma ReadPrinted(a: seq<Byte>, at: nat, r: Record)
    requires Sized(r) && PrintedAt(a, at, r)
    ensures RecordAt(a, at) == Some((r, at + PrintedSize(r)))
  {
    var payload := Payload(r.node);
    var w := Printed(r);
    var data := at + HeaderSize(r);
    Within(a, at, w, 0, HeaderSize(r));
    assert w[0..HeaderSize(r)] == Header(Tag(r.node), r.path, r.node.mode, |payload|);
    HeadPrinted(a, at, Tag(r.node), r.path, r.node.mode, |payload|);
    Within(a, at, w, HeaderSize(r), |w|);
    assert w[HeaderSize(r)..|w|] == payload;
  }

  lemma PrintedRead(a: seq<Byte>, at: nat)
    requires RecordAt(a, at).Some?
    ensures var (r, next) := RecordAt(a, at).value; Sized(r) && next == at + PrintedSize(r) && PrintedAt(a, at, r)
  {
    HeadRead(a, at);
    var h := HeadAt(a, at).value;
    var (r, next) := RecordAt(a, at).value;
    NodeRead(h.tag, h.mode, a[h.data..h.data + h.dataLength]);
    JoinPrinted(a, at, h.data, r);
  }

  lemma JoinPrinted(a: seq<Byte>, at: nat, data: nat, r: Record)
    requires !r.node.Special? && data == at + HeaderSize(r) && data + |Payload(r.node)| <= |a|
    requires a[at..data] == Header(Tag(r.node), r.path, r.node.mode, |Payload(r.node)|)
    requires a[data..data + |Payload(r.node)|] == Payload(r.node)
    ensures PrintedAt(a, at, r)
  {
    hide Header, Payload, Tag;
    Glue(a, at, data, data + |Payload(r.node)|);
  }

  lemma NodeRead(tag: Byte, mode: Mode, payload: seq<Byte>)
    requires NodeOf(tag, mode, payload).Some?
    ensures var n := NodeOf(tag, mode, payload).value;
            !n.Special? && Tag(n) == tag && n.mode == mode && Payload(n) == payload
  {
  }

  // ---- Reading an archive ----

  predicate ModeRestorable(n: Node, host: Host) { n.Symlink? ==> n.mode == LINK_MODE || host.lchmod }

  /** Tests that concern one record alone. */
  predicate ValidRecord(r: Record, host: Host)
  {
    && !r.node.Special?
    && ValidPath(r.path, host)
    && ModeRestorable(r.node, host)
    && (r.node.File? ==> |r.node.data| <= MAX_LOGICAL_BYTES)
    && (r.node.Symlink? ==> ValidTarget(r.node.target, r.path, host))
  }

  predicate HasParent(p: Path, t: Tree)
  {
    Parent(p) == ROOT || (Parent(p) in t && t[Parent(p)].Directory?)
  }

  predicate NoAlias(done: seq<Record>, p: Path, host: Host)
  {
    forall i :: 0 <= i < |done| ==> host.aliasKey(done[i].path) == host.aliasKey(p) ==> done[i].path == p
  }

  /** The extraction loop accepts `r` after the records `done`. */
  predicate Admissible(done: seq<Record>, r: Record, decl: Declaration, host: Host)
  {
    && |done| + 1 <= MAX_RECORDS
    && ValidRecord(r, host)
    && (done != [] ==> Less(done[|done| - 1].path, r.path))
    && (r.node.File? ==> Sum(FileSize, done) + |r.node.data| <= decl.sizeBytes && Sum(FileUnit, done) + 1 <= decl.fileCount)
    && HasParent(r.path, ToTree(done))
    && NoAlias(done, r.path, host)
  }

  /** The extraction loop, from an offset and with the records already extracted. */
  function ParseFrom(a: seq<Byte>, at: nat, done: seq<Record>, decl: Declaration, host: Host): Option<seq<Record>>
    decreases |a| - at
  {
    if at >= |a| then None
    else if a[at] == END then if at + 1 == |a| then Some(done) else None
    else
      var (r, next) :- RecordAt(a, at);
      if Admissible(done, r, decl, host) then ParseFrom(a, next, done + [r], decl, host) else None
  }

  /** `extractAppTree`: the records of an accepted archive. */
  function Extracted(a: seq<Byte>, decl: Declaration, host: Host): Option<seq<Record>>
  {
    var max :- DeclaredBound(decl);
    if |a| <= |MAGIC| || |a| > max || a[..|MAGIC|] != MAGIC then None else
    var rs :- ParseFrom(a, |MAGIC|, [], decl, host);
    if Sum(FileSize, rs) == decl.sizeBytes && Sum(FileUnit, rs) == decl.fileCount then Some(rs) else None
  }

  // ---- Well-formed record lists, without reference to a reader ----

  ghost predicate AliasFree(rs: seq<Record>, host: Host)
  {
    forall i, j :: 0 <= i < |rs| && 0 <= j < |rs| && i != j ==> host.aliasKey(rs[i].path) != host.aliasKey(rs[j].path)
  }

  /** Sorted, alias-free, closed under parents, and valid record by record. */
  ghost predicate WellFormed(rs: seq<Record>, host: Host)
  {
    && |rs| <= MAX_RECORDS
    && StrictlySorted(rs)
    && (forall i :: 0 <= i < |rs| ==> ValidRecord(rs[i], host))
    && (forall i :: 0 <= i < |rs| ==> HasParent(rs[i].path, ToTree(rs)))
    && AliasFree(rs, host)
  }

  ghost predicate Declares(decl: Declaration, rs: seq<Record>)
  {
    && Sum(FileSize, rs) == decl.sizeBytes
    && Sum(FileUnit, rs) == decl.fileCount
    && DeclaredBound(decl).Some?
    && |MAGIC| + Sum(PrintedSize, rs) + 1 <= DeclaredBound(decl).value
  }

  ghost predicate Stepwise(rs: seq<Record>, decl: Declaration, host: Host)
  {
    forall k :: 0 <= k < |rs| ==> Admissible(rs[..k], rs[k], decl, host)
  }
}

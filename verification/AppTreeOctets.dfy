/** The ELCAPP1 archive in octets, spelled out apart from the constants and functions that writer and reader share. */
module AppTreeOctets {
  import opened Options
  import opened Bytes
  import opened PathText
  import opened FileTree
  import opened AppTreeFormat
  import opened AppTreeLaws

  function Octets4(n: nat): seq<Byte> { [n / 0x100_0000 % 0x100, n / 0x1_0000 % 0x100, n / 0x100 % 0x100, n % 0x100] }

  function Octets8(n: nat): seq<Byte> { Octets4(n / 0x1_0000_0000) + Octets4(n) }

  /** A type octet, the path and the mode with their widths, the length of the data, and the data. */
  function RecordOctets(r: Record): seq<Byte>
    requires !r.node.Special?
  {
    match r.node
    case Directory(mode) => [1] + Octets4(|r.path|) + r.path + Octets4(mode) + [0, 0, 0, 0, 0, 0, 0, 0]
    case File(mode, data) => [2] + Octets4(|r.path|) + r.path + Octets4(mode) + Octets8(|data|) + data
    case Symlink(mode, target) => [3] + Octets4(|r.path|) + r.path + Octets4(mode) + Octets8(|target|) + target
  }

  function BodyOctets(rs: seq<Record>): seq<Byte>
    requires Ordinary(rs)
  {
    if rs == [] then [] else RecordOctets(rs[0]) + BodyOctets(rs[1..])
  }

  /** "ELCAPP1" and a newline, the records, and a zero octet. */
  function ArchiveOctets(rs: seq<Record>): seq<Byte>
    requires Ordinary(rs)
  {
    [0x45, 0x4C, 0x43, 0x41, 0x50, 0x50, 0x31, 0x0A] + BodyOctets(rs) + [0]
  }

  lemma WrittenIn4(n: nat)
    ensures BigEndian(n, 4) == Octets4(n)
  {
    assert BigEndian(n / 0x100_0000, 1) == [n / 0x100_0000 % 0x100];
    assert BigEndian(n / 0x1_0000, 2) == BigEndian(n / 0x1_0000 / 256, 1) + [n / 0x1_0000 % 0x100];
    assert BigEndian(n / 0x100, 3) == BigEndian(n / 0x100 / 256, 2) + [n / 0x100 % 0x100];
  }

  lemma {:induction false} WrittenFurther(n: nat, width: nat)
    ensures BigEndian(n, width + 4) == BigEndian(n / 0x1_0000_0000, width) + Octets4(n)
  {
    hide Octets4;
    var a, b, c, d := n / 256, n / 256 / 256, n / 256 / 256 / 256, n / 256 / 256 / 256 / 256;
    assert BigEndian(n, width + 4) == BigEndian(a, width + 3) + [n % 256];
    assert BigEndian(a, width + 3) == BigEndian(b, width + 2) + [a % 256];
    assert BigEndian(b, width + 2) == BigEndian(c, width + 1) + [b % 256];
    assert BigEndian(c, width + 1) == BigEndian(d, width) + [c % 256];
    FourOctets(n);
  }

  lemma FourOctets(n: nat)
    ensures Octets4(n) == [n / 256 / 256 / 256 % 256, n / 256 / 256 % 256, n / 256 % 256, n % 256]
    ensures n / 256 / 256 / 256 / 256 == n / 0x1_0000_0000
  {
  }

  lemma WrittenIn8(n: nat)
    ensures BigEndian(n, 8) == Octets8(n)
  {
    hide BigEndian, Octets4;
    WrittenFurther(n, 4);
    WrittenIn4(n / 0x1_0000_0000);
  }

  lemma PrintedIsOctets(r: Record)
    requires !r.node.Special?
    ensures Printed(r) == RecordOctets(r)
  {
    hide BigEndian, Octets4;
    WrittenIn4(|r.path|);
    WrittenIn4(r.node.mode);
    WrittenIn8(|Payload(r.node)|);
    NoOctets();
  }

  lemma NoOctets()
    ensures Octets8(0) == [0, 0, 0, 0, 0, 0, 0, 0]
  {
  }

  lemma {:induction false} BodyIsOctets(rs: seq<Record>)
    requires Ordinary(rs)
    ensures Body(rs) == BodyOctets(rs)
  {
    hide Printed, RecordOctets;
    if rs != [] {
      PrintedIsOctets(rs[0]);
      BodyIsOctets(rs[1..]);
      BodyHead(rs);
    }
  }

  lemma {:induction false} BodyHead(rs: seq<Record>)
    requires Ordinary(rs) && rs != []
    ensures Body(rs) == Printed(rs[0]) + Body(rs[1..])
  {
    hide Printed, Body;
    var n := |rs| - 1;
    LastOfBody(rs);
    if n == 0 {
      EmptyBody(rs[..n]);
      EmptyBody(rs[1..]);
    } else {
      BodyHead(rs[..n]);
      LastOfBody(rs[1..]);
      assert rs[..n][1..] == rs[1..][..n - 1];
    }
  }

  lemma LastOfBody(rs: seq<Record>)
    requires Ordinary(rs) && rs != []
    ensures Body(rs) == Body(rs[..|rs| - 1]) + Printed(rs[|rs| - 1])
  {
    hide Printed;
  }

  lemma EmptyBody(rs: seq<Record>)
    requires rs == []
    ensures Body(rs) == []
  {
  }

  /** The format in octets: every archive is the magic octets, its records in turn, and the end octet. */
  lemma ArchiveIsOctets(rs: seq<Record>)
    requires Ordinary(rs)
    ensures ArchiveOf(rs) == ArchiveOctets(rs)
  {
    hide Body, BodyOctets;
    BodyIsOctets(rs);
  }

  /** What is encoded, and what is extracted, is an archive in octets of the records of the tree. */
  lemma ArchivesAreOctets(a: seq<Byte>, t: Tree, decl: Declaration, host: Host)
    ensures Encoded(t, host) == Some(a) ==> Ordinary(Listing(t)) && a == ArchiveOctets(Listing(t))
    ensures ExtractedTree(a, decl, host) == Some(t) ==> Ordinary(Listing(t)) && a == ArchiveOctets(Listing(t))
  {
    hide Extracted, Encodable, ArchiveOctets, Rooted;
    if ExtractedTree(a, decl, host) == Some(t) {
      ExtractThenEncode(a, decl, host);
    }
    if Encoded(t, host) == Some(a) {
      EncodableIsOrdinary(Listing(t), host);
      ArchiveIsOctets(Listing(t));
    }
  }

  lemma EncodableIsOrdinary(rs: seq<Record>, host: Host)
    requires Encodable(rs, host)
    ensures Ordinary(rs)
  {
    hide ValidPath, ValidTarget, AliasFree, Sum;
  }

  /** 8 MiB and 8 KiB for each file, up to 1 GiB, on top of the contents. */
  function Allowed(sizeBytes: nat, fileCount: nat): nat
  {
    sizeBytes + if 0x80_0000 + fileCount * 0x2000 < 0x4000_0000 then 0x80_0000 + fileCount * 0x2000 else 0x4000_0000
  }

  /** The reader as a whole: what it accepts, in octets and numbers. */
  lemma AcceptedInTerms(a: seq<Byte>, rs: seq<Record>, decl: Declaration, host: Host)
    ensures Extracted(a, decl, host) == Some(rs) <==>
      && Ordinary(rs) && a == ArchiveOctets(rs)
      && |rs| <= 1_000_000 && StrictlySorted(rs) && AliasFree(rs, host)
      && (forall i :: 0 <= i < |rs| ==>
            && ValidPath(rs[i].path, host)
            && HasParent(rs[i].path, ToTree(rs))
            && (rs[i].node.Symlink? ==>
                  ValidTarget(rs[i].node.target, rs[i].path, host) && (rs[i].node.mode == 0x1FF || host.lchmod)))
      && Sum(FileSize, rs) == decl.sizeBytes <= 107_374_182_400
      && 1 <= Sum(FileUnit, rs) == decl.fileCount <= 1_000_000
      && |a| <= Allowed(decl.sizeBytes, decl.fileCount)
      && (decl.maxArchiveBytes.Some? ==>
            |a| <= decl.maxArchiveBytes.value <= Allowed(decl.sizeBytes, decl.fileCount))
  {
    hide ArchiveOctets, ValidPath, ValidTarget, HasParent, AliasFree, StrictlySorted, ToTree, Extracted, ArchiveOf, Sum;
    AcceptsExactlyThePrinted(a, rs, decl, host);
    if Ordinary(rs) {
      ArchiveIsOctets(rs);
      if Sum(FileSize, rs) <= MAX_LOGICAL_BYTES {
        SmallFiles(rs);
      }
    }
  }

  /** One directory, one file and one link, for any paths, modes and contents. */
  lemma ThreeRecords(d: Path, dm: Mode, f: Path, fm: Mode, data: seq<Byte>, l: Path, lm: Mode, target: seq<Byte>)
    ensures ArchiveOf([Record(d, Directory(dm)), Record(f, File(fm, data)), Record(l, Symlink(lm, target))]) ==
      [0x45, 0x4C, 0x43, 0x41, 0x50, 0x50, 0x31, 0x0A]
      + ([1] + Octets4(|d|) + d + Octets4(dm) + [0, 0, 0, 0, 0, 0, 0, 0])
      + ([2] + Octets4(|f|) + f + Octets4(fm) + Octets8(|data|) + data)
      + ([3] + Octets4(|l|) + l + Octets4(lm) + Octets8(|target|) + target)
      + [0]
  {
    hide ArchiveOf, Octets4, Octets8, ArchiveOctets;
    ThreeArchived(Record(d, Directory(dm)), Record(f, File(fm, data)), Record(l, Symlink(lm, target)));
  }

  lemma ThreeArchived(a: Record, b: Record, c: Record)
    requires !a.node.Special? && !b.node.Special? && !c.node.Special?
    ensures ArchiveOf([a, b, c]) ==
      [0x45, 0x4C, 0x43, 0x41, 0x50, 0x50, 0x31, 0x0A] + RecordOctets(a) + RecordOctets(b) + RecordOctets(c) + [0]
  {
    hide ArchiveOf, RecordOctets, BodyOctets;
    ArchiveIsOctets([a, b, c]);
    ThreeBodies(a, b, c);
  }

  lemma ThreeBodies(a: Record, b: Record, c: Record)
    requires !a.node.Special? && !b.node.Special? && !c.node.Special?
    ensures BodyOctets([a, b, c]) == RecordOctets(a) + RecordOctets(b) + RecordOctets(c)
  {
    hide RecordOctets;
    assert [a, b, c][1..] == [b, c] && [b, c][1..] == [c] && [c][1..] == [];
    assert BodyOctets([c]) == RecordOctets(c);
    assert BodyOctets([b, c]) == RecordOctets(b) + RecordOctets(c);
  }
}

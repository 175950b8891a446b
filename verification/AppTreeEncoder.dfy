/** `encodeAppTree`: measures the collected records, then writes them under a running bound. */
module AppTreeEncoder {
  import opened Options
  import opened Bytes
  import opened PathText
  import opened FileTree
  import opened AppTreeFormat
  import opened AppTreeLaws
  import opened SourceRecords

  const IO_BUFFER_BYTES := 64 * 1024

  datatype Stats = Stats(archiveBytes: nat, sizeBytes: nat, fileCount: nat, recordCount: nat)

  predicate LinkRestorable(r: Record, host: Host)
  {
    ModeRestorable(r.node, host) && (r.node.Symlink? ==> ValidTarget(r.node.target, r.path, host))
  }

  lemma MeasuredSoFar(records: seq<Record>, k: nat)
    requires k < |records|
    ensures Sum(FileSize, records[..k + 1]) == Sum(FileSize, records[..k]) + FileSize(records[k]) <= Sum(FileSize, records)
    ensures Sum(FileUnit, records[..k + 1]) == Sum(FileUnit, records[..k]) + FileUnit(records[k])
    ensures records[..k + 1] == records[..k] + [records[k]]
  {
    hide Sum, FileSize, FileUnit;
    assert records[..k + 1] == records[..k] + [records[k]];
    SumAppend(FileSize, records[..k], records[k]);
    SumAppend(FileUnit, records[..k], records[k]);
    SumPrefix(FileSize, records, k + 1);
  }

  /** Totals the regular files; anything but directories, files and links is refused. */
  method MeasureRecords(records: seq<Record>) returns (r: Option<(nat, nat)>)
    ensures r.Some? <==> Ordinary(records) && Sum(FileSize, records) <= MAX_LOGICAL_BYTES
    ensures r.Some? ==> r.value == (Sum(FileSize, records), Sum(FileUnit, records))
  {
    hide Sum;
    var sizeBytes, fileCount := 0, 0;
    NothingMeasured();
    for k := 0 to |records|
      invariant Ordinary(records[..k])
      invariant sizeBytes == Sum(FileSize, records[..k]) <= MAX_LOGICAL_BYTES
      invariant fileCount == Sum(FileUnit, records[..k])
    {
      var record := records[k];
      MeasuredSoFar(records, k);
      if record.node.File? {
        if |record.node.data| > MAX_LOGICAL_BYTES || sizeBytes + |record.node.data| > MAX_LOGICAL_BYTES {
          return None;
        }
        sizeBytes := sizeBytes + |record.node.data|;
        fileCount := fileCount + 1;
      } else if record.node.Special? {
        return None;
      }
    }
    assert records[..|records|] == records;
    return Some((sizeBytes, fileCount));
  }

  lemma NothingMeasured()
    ensures Sum(FileSize, []) == 0 == Sum(FileUnit, [])
  {
  }

  /** Copies a file through a bounded buffer; a read may deliver any positive part of what was asked. */
  method CopyData(archive: seq<Byte>, data: seq<Byte>) returns (more: seq<Byte>)
    ensures more == archive + data
  {
    more := archive;
    var remaining := |data|;
    while remaining > 0
      invariant 0 <= remaining <= |data|
      invariant more == archive + data[..|data| - remaining]
    {
      var asked := if IO_BUFFER_BYTES < remaining then IO_BUFFER_BYTES else remaining;
      var read :| 1 <= read <= asked;
      var at := |data| - remaining;
      assert data[..at + read] == data[..at] + data[at..at + read];
      more := more + data[at..at + read];
      remaining := remaining - read;
    }
    assert data[..|data|] == data;
  }

  method WriteRecord(archive: seq<Byte>, record: Record, bound: nat, host: Host) returns (r: Option<seq<Byte>>)
    requires !record.node.Special?
    ensures r.Some? <==> LinkRestorable(record, host) && |archive| + PrintedSize(record) + 1 <= bound
    ensures r.Some? ==> r.value == archive + Printed(record)
  {
    hide ValidTarget;
    var headerLength := 1 + 4 + |record.path| + 4 + 8;
    match record.node
    case Directory(mode) =>
      if |archive| + headerLength + 1 > bound {
        return None;
      }
      return Some(archive + Header(DIRECTORY, record.path, mode, 0));
    case Symlink(mode, target) =>
      if mode != LINK_MODE && !host.lchmod {
        return None;
      }
      var valid := ValidateSymlinkTarget(target, record.path, host);
      if !valid || |archive| + headerLength + |target| + 1 > bound {
        return None;
      }
      return Some(archive + Header(SYMLINK, record.path, mode, |target|) + target);
    case File(mode, data) =>
      if |archive| + headerLength + |data| + 1 > bound {
        return None;
      }
      var more := CopyData(archive + Header(FILE, record.path, mode, |data|), data);
      return Some(more);
  }

  /** Writes the archive; `written` octets are in the file when it ends, well or not. */
  method WriteRecords(records: seq<Record>, bound: nat, host: Host) returns (r: Option<seq<Byte>>, ghost written: nat)
    requires Ordinary(records)
    requires |MAGIC| + 1 <= bound
    ensures written <= bound
    ensures r.Some? <==> (forall i :: 0 <= i < |records| ==> LinkRestorable(records[i], host))
                         && |MAGIC| + Sum(PrintedSize, records) + 1 <= bound
    ensures r.Some? ==> r.value == ArchiveOf(records) && written == |r.value|
  {
    hide LinkRestorable, Printed, PrintedSize, Sum;
    var archive := MAGIC;
    for k := 0 to |records|
      invariant forall i :: 0 <= i < k ==> LinkRestorable(records[i], host)
      invariant archive == MAGIC + Body(records[..k]) && |archive| + 1 <= bound
    {
      PrintedSoFar(records, k);
      var more := WriteRecord(archive, records[k], bound, host);
      if more.None? {
        return None, |archive|;
      }
      archive := more.value;
    }
    assert records[..|records|] == records;
    return Some(archive + [END]), |archive| + 1;
  }

  lemma PrintedSoFar(records: seq<Record>, k: nat)
    requires Ordinary(records) && k < |records|
    ensures Body(records[..k + 1]) == Body(records[..k]) + Printed(records[k])
    ensures |Body(records[..k])| + PrintedSize(records[k]) <= Sum(PrintedSize, records)
  {
    hide Printed, PrintedSize;
    assert records[..k + 1] == records[..k] + [records[k]];
    BodyAppend(records[..k], records[k]);
    SumAppend(PrintedSize, records[..k], records[k]);
    SumPrefix(PrintedSize, records, k + 1);
  }

  lemma EncodableParts(rs: seq<Record>, host: Host)
    ensures Encodable(rs, host) <==>
      && Collectable(rs, host)
      && Ordinary(rs) && Sum(FileSize, rs) <= MAX_LOGICAL_BYTES
      && Sum(FileUnit, rs) > 0
      && ArchiveBound(Sum(FileSize, rs), Sum(FileUnit, rs)).Some?
      && (forall i :: 0 <= i < |rs| ==> LinkRestorable(rs[i], host))
      && |MAGIC| + Sum(PrintedSize, rs) + 1 <= ArchiveBound(Sum(FileSize, rs), Sum(FileUnit, rs)).value
  {
    hide ValidPath, ValidTarget;
  }

  /** The whole encoder: it succeeds exactly on encodable trees and writes their one archive. What it wrote before it
      ended, well or not, is within the bound for the size and file count of the source. */
  method EncodeAppTree(t: Tree, host: Host) returns (r: Option<(seq<Byte>, Stats)>, ghost written: nat)
    requires Rooted(t)
    ensures r.Some? <==> Encoded(t, host).Some?
    ensures r.Some? ==>
      && Encoded(t, host) == Some(r.value.0)
      && r.value.1 == Stats(|r.value.0|, TreeBytes(t), TreeFiles(t), |Listing(t)|)
      && written == |r.value.0|
    ensures written > 0 ==>
      ArchiveBound(TreeBytes(t), TreeFiles(t)).Some? && written <= ArchiveBound(TreeBytes(t), TreeFiles(t)).value
  {
    EncodableParts(Listing(t), host);
    hide Encodable, Collectable, LinkRestorable, Ordinary, Sum, ArchiveOf;
    written := 0;
    var records :- CollectSourceRecords(t, host);
    var measured :- MeasureRecords(records);
    var (sizeBytes, fileCount) := measured;
    if fileCount == 0 {
      return None, written;
    }
    var bound :- ArchiveBound(sizeBytes, fileCount);
    var archive: Option<seq<Byte>>;
    archive, written := WriteRecords(records, bound, host);
    if archive.None? {
      return None, written;
    }
    return Some((archive.value, Stats(|archive.value|, sizeBytes, fileCount, |records|))), written;
  }
}

/** `getCompressionCapacity`: the space reserved before compressing an entry or restoring one. */
module Capacity {
  import opened Options
  import opened Bytes
  import opened Platforms
  import AppTreeFormat

  const MEBIBYTE := 0x10_0000
  const GIBIBYTE := 0x4000_0000

  /** The two rounded products of the code, `ceil(0.01 * n)` and `ceil(0.05 * n)`. */
  datatype Rounding = Rounding(onePercent: nat -> nat, fivePercent: nat -> nat)

  datatype Capacity = Capacity(
    metadataAllowance: nat, archiveBound: nat, payloadStagingBound: nat, extractedArtifactBound: nat,
    uploadWorkingBytes: nat, restoreWorkingBytes: nat, uploadRequiredBytes: nat, restoreRequiredBytes: nat)

  function Total(values: seq<nat>): nat { if values == [] then 0 else values[0] + Total(values[1..]) }

  function CheckedAdd(values: seq<nat>): Option<nat>
  {
    if Total(values) <= MAX_SAFE_INTEGER then Some(Total(values)) else None
  }

  function RestoreReserve(logicalSizeBytes: nat, rounding: Rounding): nat
  {
    var part := rounding.fivePercent(logicalSizeBytes);
    var atLeast := if part > 512 * MEBIBYTE then part else 512 * MEBIBYTE;
    if atLeast < 5 * GIBIBYTE then atLeast else 5 * GIBIBYTE
  }

  /** `getArchiveMetadataAllowance` */
  function MetadataAllowance(platform: Platform, fileCount: nat): Option<nat>
  {
    if platform.Android? then Some(0)
    else
      var sum :- CheckedAdd([8 * MEBIBYTE, fileCount * 8 * 1024]);
      Some(if sum < GIBIBYTE then sum else GIBIBYTE)
  }

  /** `getCompressionCapacity` */
  function GetCompressionCapacity(platform: Platform, logicalSizeBytes: nat, snapshotApparentBytes: nat, fileCount: nat,
                                  rounding: Rounding): Option<Capacity>
  {
    var metadataAllowance :- MetadataAllowance(platform, fileCount);
    var archiveBound :- CheckedAdd([logicalSizeBytes, metadataAllowance]);
    var payloadStagingBound :- CheckedAdd([archiveBound, rounding.onePercent(archiveBound), MEBIBYTE]);
    var reserve := RestoreReserve(logicalSizeBytes, rounding);
    var extractedArtifactBound :-
      if platform.IOS? then CheckedAdd([snapshotApparentBytes, metadataAllowance]) else Some(logicalSizeBytes);
    var uploadWorkingBytes :-
      if platform.IOS? then CheckedAdd([archiveBound, payloadStagingBound, archiveBound, extractedArtifactBound])
      else CheckedAdd([payloadStagingBound, extractedArtifactBound]);
    // The extracted artifact is bounded by the same sum as the archive.
    var restoreWorkingBytes :-
      if platform.IOS? then CheckedAdd([archiveBound, archiveBound]) else Some(logicalSizeBytes);
    var uploadRequiredBytes :- CheckedAdd([uploadWorkingBytes, reserve]);
    var restoreRequiredBytes :- CheckedAdd([restoreWorkingBytes, reserve]);
    Some(Capacity(metadataAllowance, archiveBound, payloadStagingBound, extractedArtifactBound,
                  uploadWorkingBytes, restoreWorkingBytes, uploadRequiredBytes, restoreRequiredBytes))
  }

  lemma Totals(a: nat, b: nat, c: nat, d: nat)
    ensures Total([a, b]) == a + b
    ensures Total([a, b, c]) == a + b + c
    ensures Total([a, b, c, d]) == a + b + c + d
  {
    assert Total([]) == 0;
    assert [d][1..] == [] && [c, d][1..] == [d] && [b, c, d][1..] == [c, d] && [a, b, c, d][1..] == [b, c, d];
    assert Total([d]) == d && Total([c, d]) == c + d && Total([b, c, d]) == b + c + d;
    assert [c][1..] == [] && [b, c][1..] == [c] && [a, b, c][1..] == [b, c];
    assert Total([c]) == c && Total([b, c]) == b + c;
    assert [b][1..] == [] && [a, b][1..] == [b];
    assert Total([b]) == b;
  }

  /** How the reservations are made up of what can be alive together. */
  lemma CapacityParts(platform: Platform, logicalSizeBytes: nat, snapshotApparentBytes: nat, fileCount: nat,
                      rounding: Rounding)
    requires GetCompressionCapacity(platform, logicalSizeBytes, snapshotApparentBytes, fileCount, rounding).Some?
    ensures var c := GetCompressionCapacity(platform, logicalSizeBytes, snapshotApparentBytes, fileCount, rounding).value;
            && c.archiveBound == logicalSizeBytes + c.metadataAllowance
            && (platform.Android? ==>
                  && c.archiveBound == logicalSizeBytes == c.restoreWorkingBytes
                  && c.uploadWorkingBytes == c.payloadStagingBound + logicalSizeBytes)
            && (platform.IOS? ==>
                  && c.extractedArtifactBound == snapshotApparentBytes + c.metadataAllowance
                  && c.uploadWorkingBytes == c.archiveBound + c.payloadStagingBound + c.archiveBound + c.extractedArtifactBound
                  && c.restoreWorkingBytes == c.archiveBound + c.archiveBound)
            && c.payloadStagingBound == c.archiveBound + rounding.onePercent(c.archiveBound) + 0x10_0000
            && c.uploadRequiredBytes - c.uploadWorkingBytes == c.restoreRequiredBytes - c.restoreWorkingBytes
            && c.uploadRequiredBytes - c.uploadWorkingBytes
               == (if rounding.fivePercent(logicalSizeBytes) < 0x2000_0000 then 0x2000_0000
                   else if rounding.fivePercent(logicalSizeBytes) > 0x1_4000_0000 then 0x1_4000_0000
                   else rounding.fivePercent(logicalSizeBytes))
            && c.uploadRequiredBytes <= MAX_SAFE_INTEGER && c.restoreRequiredBytes <= MAX_SAFE_INTEGER
  {
    hide Total;
    var c := GetCompressionCapacity(platform, logicalSizeBytes, snapshotApparentBytes, fileCount, rounding).value;
    var reserve := RestoreReserve(logicalSizeBytes, rounding);
    Totals(logicalSizeBytes, c.metadataAllowance, 0, 0);
    Totals(snapshotApparentBytes, c.metadataAllowance, 0, 0);
    Totals(c.archiveBound, c.payloadStagingBound, c.archiveBound, c.extractedArtifactBound);
    Totals(c.payloadStagingBound, c.extractedArtifactBound, 0, 0);
    Totals(c.archiveBound, c.archiveBound, 0, 0);
    Totals(c.restoreWorkingBytes, reserve, 0, 0);
    Totals(c.uploadWorkingBytes, reserve, 0, 0);
    Totals(c.archiveBound, rounding.onePercent(c.archiveBound), MEBIBYTE, 0);
  }

  /** A capacity for a package exists exactly if its largest sum is a safe integer. */
  lemma PackageCapacityExists(size: nat, apparent: nat, count: nat, rounding: Rounding)
    ensures var staged := size + rounding.onePercent(size) + 0x10_0000;
            GetCompressionCapacity(Android, size, apparent, count, rounding).Some? <==>
              staged + size + RestoreReserve(size, rounding) <= 9_007_199_254_740_991
  {
    hide Total, RestoreReserve;
    var staged := size + rounding.onePercent(size) + 0x10_0000;
    Totals(size, 0, 0, 0);
    Totals(size, rounding.onePercent(size), MEBIBYTE, 0);
    Totals(staged, size, 0, 0);
    Totals(staged + size, RestoreReserve(size, rounding), 0, 0);
    Totals(size, RestoreReserve(size, rounding), 0, 0);
  }

  /** A capacity for a bundle exists exactly if its allowance and its largest sum are safe integers. */
  lemma BundleCapacityExists(size: nat, apparent: nat, count: nat, rounding: Rounding)
    ensures var sum := 0x80_0000 + count * 0x2000;
            var allowance := if sum < 0x4000_0000 then sum else 0x4000_0000;
            var archive := size + allowance;
            var staged := archive + rounding.onePercent(archive) + 0x10_0000;
            GetCompressionCapacity(IOS, size, apparent, count, rounding).Some? <==>
              && sum <= 9_007_199_254_740_991
              && archive + staged + archive + (apparent + allowance) + RestoreReserve(size, rounding) <= 9_007_199_254_740_991
  {
    hide Total, RestoreReserve;
    var sum := 0x80_0000 + count * 0x2000;
    Totals(8 * MEBIBYTE, count * 8 * 1024, 0, 0);
    var allowance := if sum < 0x4000_0000 then sum else 0x4000_0000;
    var archive := size + allowance;
    var staged := archive + rounding.onePercent(archive) + 0x10_0000;
    Totals(size, allowance, 0, 0);
    Totals(apparent, allowance, 0, 0);
    Totals(archive, rounding.onePercent(archive), MEBIBYTE, 0);
    Totals(archive, staged, archive, apparent + allowance);
    Totals(archive, archive, 0, 0);
    Totals(archive + staged + archive + (apparent + allowance), RestoreReserve(size, rounding), 0, 0);
    Totals(archive + archive, RestoreReserve(size, rounding), 0, 0);
  }

  /** What could be reserved for with a larger copy can be with a smaller one, and the archive bound is the same. */
  lemma SmallerCopyFits(platform: Platform, size: nat, larger: nat, smaller: nat, count: nat, rounding: Rounding)
    requires GetCompressionCapacity(platform, size, larger, count, rounding).Some? && smaller <= larger
    ensures GetCompressionCapacity(platform, size, smaller, count, rounding).Some?
    ensures GetCompressionCapacity(platform, size, smaller, count, rounding).value.archiveBound
         == GetCompressionCapacity(platform, size, larger, count, rounding).value.archiveBound
  {
    hide Total, MetadataAllowance;
    CapacityParts(platform, size, larger, count, rounding);
    var c := GetCompressionCapacity(platform, size, larger, count, rounding).value;
    var reserve := RestoreReserve(size, rounding);
    var extracted := if platform.IOS? then smaller + c.metadataAllowance else size;
    var upload := if platform.IOS? then c.archiveBound + c.payloadStagingBound + c.archiveBound + extracted
                  else c.payloadStagingBound + extracted;
    Totals(smaller, c.metadataAllowance, 0, 0);
    Totals(c.archiveBound, c.payloadStagingBound, c.archiveBound, extracted);
    Totals(c.payloadStagingBound, extracted, 0, 0);
    Totals(upload, reserve, 0, 0);
  }

  /** The reservation for an archive is exactly the bound the archive format itself enforces. */
  lemma ArchiveBoundsAgree(logicalSizeBytes: nat, snapshotApparentBytes: nat, fileCount: nat, rounding: Rounding)
    requires GetCompressionCapacity(IOS, logicalSizeBytes, snapshotApparentBytes, fileCount, rounding).Some?
    requires AppTreeFormat.ArchiveBound(logicalSizeBytes, fileCount).Some?
    ensures var c := GetCompressionCapacity(IOS, logicalSizeBytes, snapshotApparentBytes, fileCount, rounding).value;
            AppTreeFormat.ArchiveBound(logicalSizeBytes, fileCount) == Some(c.archiveBound)
  {
    Totals(8 * MEBIBYTE, fileCount * 8 * 1024, 0, 0);
    CapacityParts(IOS, logicalSizeBytes, snapshotApparentBytes, fileCount, rounding);
    AllowanceIsTaken(logicalSizeBytes, snapshotApparentBytes, fileCount, rounding);
    hide Total, GetCompressionCapacity;
  }

  lemma AllowanceIsTaken(logicalSizeBytes: nat, snapshotApparentBytes: nat, fileCount: nat, rounding: Rounding)
    requires GetCompressionCapacity(IOS, logicalSizeBytes, snapshotApparentBytes, fileCount, rounding).Some?
    ensures var c := GetCompressionCapacity(IOS, logicalSizeBytes, snapshotApparentBytes, fileCount, rounding).value;
            MetadataAllowance(IOS, fileCount) == Some(c.metadataAllowance)
  {
    hide MetadataAllowance, CheckedAdd;
  }
}

/** What an ELCAPP1 archive means: a reader accepts exactly the printed well-formed listings, and
    encoding and extraction are inverse to each other on whole trees. */
module AppTreeLaws {
  import opened Options
  import opened Bytes
  import opened PathText
  import opened FileTree
  import opened AppTreeFormat

  // ---- The reader's loop against the printed form ----

  lemma StepwiseAppend(done: seq<Record>, r: Record, decl: Declaration, host: Host)
    requires Stepwise(done, decl, host) && Admissible(done, r, decl, host)
    ensures Stepwise(done + [r], decl, host)
  {
    var all := done + [r];
    forall k | 0 <= k < |all| ensures Admissible(all[..k], all[k], decl, host) {
      if k < |done| {
        assert all[..k] == done[..k];
      } else {
        assert all[..k] == done;
      }
    }
  }

  lemma PrefixGrows(a: seq<Byte>, at: nat, done: seq<Record>)
    requires RecordAt(a, at).Some?
    requires Ordinary(done) && at <= |a| && a[..at] == MAGIC + Body(done)
    ensures var (r, next) := RecordAt(a, at).value;
      Ordinary(done + [r]) && next <= |a| && a[..next] == MAGIC + Body(done + [r])
  {
    hide RecordAt, Printed, Body;
    var (r, next) := RecordAt(a, at).value;
    PrintedRead(a, at);
    BodyAppend(done, r);
    Glue(a, 0, at, next);
    assert a[..next] == a[..at] + Printed(r);
  }

  lemma {:induction false} ParseSound(a: seq<Byte>, at: nat, done: seq<Record>, decl: Declaration, host: Host)
    requires Stepwise(done, decl, host)
    requires at <= |a| && Ordinary(done) && a[..at] == MAGIC + Body(done)
    requires ParseFrom(a, at, done, decl, host).Some?
    ensures var all := ParseFrom(a, at, done, decl, host).value;
      Stepwise(all, decl, host) && Ordinary(all) && a == ArchiveOf(all)
    decreases |a| - at
  {
    hide Admissible, RecordAt, Body, Printed;
    if a[at] == END {
      assert a == a[..at] + [END];
    } else {
      var (r, next) := RecordAt(a, at).value;
      PrefixGrows(a, at, done);
      StepwiseAppend(done, r, decl, host);
      ParseSound(a, next, done + [r], decl, host);
    }
  }

  lemma AdmissibleIsSized(done: seq<Record>, r: Record, decl: Declaration, host: Host)
    requires Admissible(done, r, decl, host)
    ensures Sized(r)
  {
  }

  /** Where the record after the first `k` starts. */
  function Offset(all: seq<Record>, k: nat): nat
    requires Ordinary(all) && k <= |all|
  {
    |MAGIC| + |Body(all[..k])|
  }

  lemma LastOffset(all: seq<Record>)
    requires Ordinary(all)
    ensures Offset(all, |all|) + 1 == |ArchiveOf(all)| && ArchiveOf(all)[Offset(all, |all|)] == END
  {
    assert all[..|all|] == all;
  }

  lemma RecordIsNotEnd(a: seq<Byte>, at: nat)
    requires RecordAt(a, at).Some?
    ensures at < |a| && a[at] != END
  {
  }

  lemma NextPrinted(all: seq<Record>, k: nat)
    requires Ordinary(all) && k < |all|
    ensures PrintedAt(ArchiveOf(all), Offset(all, k), all[k])
    ensures Offset(all, k) + PrintedSize(all[k]) == Offset(all, k + 1)
    ensures Offset(all, k + 1) < |ArchiveOf(all)|
  {
    hide Printed;
    assert all[..k + 1] == all[..k] + [all[k]];
    BodyAppend(all[..k], all[k]);
    BodyPrefix(all, k + 1);
    MiddlePart(MAGIC, Body(all[..k]), Printed(all[k]), Body(all), [END]);
  }

  /** Where a prefix of the middle stands in the whole. */
  lemma MiddlePart(head: seq<Byte>, here: seq<Byte>, next: seq<Byte>, body: seq<Byte>, tail: seq<Byte>)
    requires here + next <= body
    ensures var whole := head + body + tail; var at := |head| + |here|;
            at + |next| + |tail| <= |whole| && whole[at..at + |next|] == next
  {
    var rest := body[|here + next|..];
    assert body == here + next + rest;
    assert head + body + tail == (head + here) + next + (rest + tail);
  }

  lemma NextIsRead(all: seq<Record>, k: nat)
    requires Ordinary(all) && k < |all| && Sized(all[k])
    ensures var a := ArchiveOf(all);
      RecordAt(a, Offset(all, k)) == Some((all[k], Offset(all, k + 1))) && a[Offset(all, k)] != END
  {
    hide RecordAt, Offset, Printed, PrintedAt, Sized, ArchiveOf;
    NextPrinted(all, k);
    ReadPrinted(ArchiveOf(all), Offset(all, k), all[k]);
    RecordIsNotEnd(ArchiveOf(all), Offset(all, k));
  }

  /** One turn of the reader's loop. */
  lemma ParseStep(a: seq<Byte>, at: nat, done: seq<Record>, decl: Declaration, host: Host)
    requires RecordAt(a, at).Some? && a[at] != END && Admissible(done, RecordAt(a, at).value.0, decl, host)
    ensures var (r, next) := RecordAt(a, at).value;
      ParseFrom(a, at, done, decl, host) == ParseFrom(a, next, done + [r], decl, host)
  {
    hide RecordAt, Admissible;
  }

  lemma {:induction false} ParseComplete(a: seq<Byte>, k: nat, all: seq<Record>, decl: Declaration, host: Host)
    requires Stepwise(all, decl, host) && Ordinary(all) && k <= |all|
    requires a == ArchiveOf(all)
    ensures ParseFrom(a, Offset(all, k), all[..k], decl, host) == Some(all)
    decreases |all| - k
  {
    hide Admissible, RecordAt, Offset, Sized, ArchiveOf;
    if k == |all| {
      assert all[..k] == all;
      LastOffset(all);
    } else {
      hide ParseFrom;
      AdmissibleIsSized(all[..k], all[k], decl, host);
      NextIsRead(all, k);
      ParseStep(a, Offset(all, k), all[..k], decl, host);
      ParseComplete(a, k + 1, all, decl, host);
      assert all[..k] + [all[k]] == all[..k + 1];
    }
  }

  // ---- The loop's step-by-step tests against the whole-list conditions ----

  lemma {:induction false} ListedFirst(rs: seq<Record>, k: nat, p: Path)
    requires StrictlySorted(rs) && k < |rs|
    requires p in ToTree(rs) && Less(p, rs[k].path)
    ensures p in ToTree(rs[..k]) && ToTree(rs[..k])[p] == ToTree(rs)[p]
  {
    var n := |rs| - 1;
    if p == rs[n].path {
      if k < n { LessTransitive(p, rs[k].path, rs[n].path); }
      LessIrreflexive(p);
    }
    assert rs[..n][..k] == rs[..k];
    if k < n {
      ListedFirst(rs[..n], k, p);
    }
  }

  lemma {:induction false} ListedLater(rs: seq<Record>, k: nat, p: Path)
    requires Distinct(rs) && k <= |rs| && p in ToTree(rs[..k])
    ensures p in ToTree(rs) && ToTree(rs)[p] == ToTree(rs[..k])[p]
  {
    ToTreeKeys(rs[..k]);
    var i :| 0 <= i < k && rs[..k][i].path == p;
    ToTreeNode(rs, i);
    ToTreeNode(rs[..k], i);
  }

  lemma {:induction false} SumPrefix(w: Record -> nat, rs: seq<Record>, k: nat)
    requires k <= |rs|
    ensures Sum(w, rs[..k]) <= Sum(w, rs)
  {
    assert rs == rs[..k] + rs[k..];
    SumConcat(w, rs[..k], rs[k..]);
  }

  lemma ParentIsListed(rs: seq<Record>, k: nat)
    requires StrictlySorted(rs) && k < |rs| && HasParent(rs[k].path, ToTree(rs))
    ensures HasParent(rs[k].path, ToTree(rs[..k]))
  {
    hide ToTree, Less;
    var p := rs[k].path;
    if Parent(p) != ROOT {
      PrefixLess(Parent(p), p);
      ListedFirst(rs, k, Parent(p));
    }
  }

  lemma NextIsDeclared(rs: seq<Record>, k: nat)
    requires k < |rs|
    ensures Sum(FileSize, rs[..k]) + FileSize(rs[k]) <= Sum(FileSize, rs)
    ensures Sum(FileUnit, rs[..k]) + FileUnit(rs[k]) <= Sum(FileUnit, rs)
  {
    assert rs[..k + 1] == rs[..k] + [rs[k]];
    SumAppend(FileSize, rs[..k], rs[k]);
    SumAppend(FileUnit, rs[..k], rs[k]);
    SumPrefix(FileSize, rs, k + 1);
    SumPrefix(FileUnit, rs, k + 1);
  }

  lemma NoEarlierAlias(rs: seq<Record>, k: nat, host: Host)
    requires AliasFree(rs, host) && k < |rs|
    ensures NoAlias(rs[..k], rs[k].path, host)
  {
  }

  /** Byte order lists every directory before its contents, so the whole-list conditions admit each step. */
  lemma WellFormedSteps(rs: seq<Record>, decl: Declaration, host: Host)
    requires WellFormed(rs, host)
    requires Sum(FileSize, rs) <= decl.sizeBytes && Sum(FileUnit, rs) <= decl.fileCount
    ensures Stepwise(rs, decl, host)
  {
    hide ValidRecord, HasParent, NoAlias, AliasFree, Sum, ToTree, Less;
    forall k | 0 <= k < |rs| ensures Admissible(rs[..k], rs[k], decl, host) {
      NextIsDeclared(rs, k);
      ParentIsListed(rs, k);
      NoEarlierAlias(rs, k, host);
    }
  }

  lemma {:induction false} AdjacentSorted(rs: seq<Record>)
    requires forall k :: 0 < k < |rs| ==> Less(rs[k - 1].path, rs[k].path)
    ensures StrictlySorted(rs)
  {
    if rs != [] {
      var n := |rs| - 1;
      AdjacentSorted(rs[..n]);
      forall i | 0 <= i < n ensures Less(rs[i].path, rs[n].path) {
        if i < n - 1 {
          assert Less(rs[..n][i].path, rs[..n][n - 1].path);
          LessTransitive(rs[i].path, rs[n - 1].path, rs[n].path);
        }
      }
    }
  }

  lemma StepsWellFormed(rs: seq<Record>, decl: Declaration, host: Host)
    requires Stepwise(rs, decl, host)
    ensures WellFormed(rs, host)
  {
    forall k | 0 < k < |rs| ensures Less(rs[k - 1].path, rs[k].path) {
      assert Admissible(rs[..k], rs[k], decl, host);
    }
    AdjacentSorted(rs);
    SortedIsDistinct(rs);
    forall i | 0 <= i < |rs| ensures ValidRecord(rs[i], host) && HasParent(rs[i].path, ToTree(rs)) {
      assert Admissible(rs[..i], rs[i], decl, host);
      if Parent(rs[i].path) != ROOT {
        ListedLater(rs, i, Parent(rs[i].path));
      }
    }
    forall i, j | 0 <= i < j < |rs| ensures host.aliasKey(rs[i].path) != host.aliasKey(rs[j].path) {
      assert Admissible(rs[..j], rs[j], decl, host);
      assert rs[..j][i] == rs[i];
    }
    if rs != [] {
      assert Admissible(rs[..|rs| - 1], rs[|rs| - 1], decl, host);
    }
  }

  /** A reader accepts an archive, and reads these records, exactly when they are well formed, match the
      declaration, and print to these very bytes. */
  lemma AcceptsExactlyThePrinted(a: seq<Byte>, rs: seq<Record>, decl: Declaration, host: Host)
    ensures Extracted(a, decl, host) == Some(rs)
      <==> WellFormed(rs, host) && Declares(decl, rs) && Ordinary(rs) && a == ArchiveOf(rs)
  {
    hide ValidRecord, HasParent, AliasFree, Admissible, RecordAt, ToTree, ParseFrom, Body;
    if Extracted(a, decl, host) == Some(rs) {
      assert Stepwise([], decl, host);
      ParseSound(a, |MAGIC|, [], decl, host);
      StepsWellFormed(rs, decl, host);
    }
    if WellFormed(rs, host) && Declares(decl, rs) && Ordinary(rs) && a == ArchiveOf(rs) {
      WellFormedSteps(rs, decl, host);
      ParseComplete(a, 0, rs, decl, host);
      assert rs[..0] == [];
    }
  }

  // ---- Encoding ----

  ghost predicate Encodable(rs: seq<Record>, host: Host)
  {
    // collectSourceRecords
    && (forall i :: 0 <= i < |rs| ==> ValidPath(rs[i].path, host))
    && Sum(HeaderSize, rs) <= MAX_METADATA_BYTES
    && |rs| <= MAX_RECORDS
    && AliasFree(rs, host)
    // encodeAppTree
    && Ordinary(rs)
    && Sum(FileSize, rs) <= MAX_LOGICAL_BYTES
    && Sum(FileUnit, rs) > 0
    && (forall i :: 0 <= i < |rs| ==>
          && ModeRestorable(rs[i].node, host)
          && (rs[i].node.Symlink? ==> ValidTarget(rs[i].node.target, rs[i].path, host)))
    && ArchiveBound(Sum(FileSize, rs), Sum(FileUnit, rs)).Some?
    && |MAGIC| + Sum(PrintedSize, rs) + 1 <= ArchiveBound(Sum(FileSize, rs), Sum(FileUnit, rs)).value
  }

  /** `encodeAppTree` on a source tree. */
  ghost function Encoded(t: Tree, host: Host): Option<seq<Byte>>
  {
    var rs := Listing(t);
    if Encodable(rs, host) then Some(ArchiveOf(rs)) else None
  }

  /** `extractAppTree` into an empty destination. */
  ghost function ExtractedTree(a: seq<Byte>, decl: Declaration, host: Host): Option<Tree>
  {
    var rs :- Extracted(a, decl, host);
    Some(ToTree(rs))
  }

  ghost function TreeBytes(t: Tree): nat { Sum(FileSize, Listing(t)) }

  ghost function TreeFiles(t: Tree): nat { Sum(FileUnit, Listing(t)) }

  /** The declaration an encoder reports for its source. */
  ghost function DeclarationOf(t: Tree, max: Option<int>): Declaration
  {
    Declaration(TreeBytes(t), TreeFiles(t), max)
  }

  lemma {:induction false} SumDominated(v: Record -> nat, w: Record -> nat, rs: seq<Record>)
    requires forall i :: 0 <= i < |rs| ==> v(rs[i]) <= w(rs[i])
    ensures Sum(v, rs) <= Sum(w, rs)
  {
    if rs != [] {
      SumDominated(v, w, rs[..|rs| - 1]);
    }
  }

  lemma {:induction false} FileSizeIsIn(rs: seq<Record>, i: nat)
    requires i < |rs|
    ensures FileSize(rs[i]) <= Sum(FileSize, rs)
  {
    if i < |rs| - 1 {
      FileSizeIsIn(rs[..|rs| - 1], i);
    }
  }

  /** Headers and file contents are disjoint parts of the printed records. */
  lemma {:induction false} PartsOfPrinted(rs: seq<Record>)
    ensures Sum(HeaderSize, rs) + Sum(FileSize, rs) <= Sum(PrintedSize, rs)
  {
    if rs != [] {
      PartsOfPrinted(rs[..|rs| - 1]);
    }
  }

  lemma RootedListing(t: Tree, host: Host)
    requires Rooted(t)
    ensures forall i :: 0 <= i < |Listing(t)| ==> HasParent(Listing(t)[i].path, ToTree(Listing(t)))
  {
    ListingHas(Listing(t), t);
  }

  lemma SmallFiles(rs: seq<Record>)
    requires Sum(FileSize, rs) <= MAX_LOGICAL_BYTES
    ensures forall i :: 0 <= i < |rs| && rs[i].node.File? ==> |rs[i].node.data| <= MAX_LOGICAL_BYTES
  {
    forall i | 0 <= i < |rs| && rs[i].node.File? ensures |rs[i].node.data| <= MAX_LOGICAL_BYTES {
      FileSizeIsIn(rs, i);
    }
  }

  /** The part of encodability that concerns the records one by one. */
  lemma RecordsAreValid(rs: seq<Record>, host: Host)
    requires Sum(FileSize, rs) <= MAX_LOGICAL_BYTES
    ensures (forall i :: 0 <= i < |rs| ==> ValidRecord(rs[i], host)) <==>
      && (forall i :: 0 <= i < |rs| ==> ValidPath(rs[i].path, host))
      && Ordinary(rs)
      && (forall i :: 0 <= i < |rs| ==>
            && ModeRestorable(rs[i].node, host)
            && (rs[i].node.Symlink? ==> ValidTarget(rs[i].node.target, rs[i].path, host)))
  {
    SmallFiles(rs);
    hide ValidPath, ValidTarget, ModeRestorable, Sum;
  }

  /** Encoding succeeds exactly on the trees whose listing a reader with the matching declaration accepts. */
  lemma EncodableIsWellFormed(t: Tree, host: Host)
    requires Rooted(t)
    ensures var rs := Listing(t);
      Encodable(rs, host) <==> WellFormed(rs, host) && Declares(DeclarationOf(t, None), rs)
  {
    hide ValidPath, ValidTarget, ModeRestorable, ValidRecord, Sum, HasParent, AliasFree, ToTree, Listing, Ordinary;
    var rs := Listing(t);
    RootedListing(t, host);
    PartsOfPrinted(rs);
    if Sum(FileSize, rs) <= MAX_LOGICAL_BYTES {
      RecordsAreValid(rs, host);
    }
  }

  /** The default cap on an archive of `t`; meaningful when its size and count are within the limits. */
  ghost function BoundFor(t: Tree): int
  {
    match ArchiveBound(TreeBytes(t), TreeFiles(t))
    case Some(bound) => bound
    case None => 0
  }

  /** Encode, then extract with the encoder's own size and file count: the same tree comes back. The caller
      may also cap the archive, at anything from its actual length up to the default bound. */
  lemma EncodeThenExtract(t: Tree, max: Option<int>, host: Host)
    requires Rooted(t) && Encoded(t, host).Some?
    requires max.Some? ==> |Encoded(t, host).value| <= max.value <= BoundFor(t)
    ensures ExtractedTree(Encoded(t, host).value, DeclarationOf(t, max), host) == Some(t)
  {
    EncodableIsWellFormed(t, host);
    AcceptsExactlyThePrinted(ArchiveOf(Listing(t)), Listing(t), DeclarationOf(t, max), host);
  }

  lemma WellFormedIsRooted(rs: seq<Record>, host: Host)
    requires WellFormed(rs, host)
    ensures Rooted(ToTree(rs))
  {
    ToTreeKeys(rs);
    forall p | p in ToTree(rs) ensures p != ROOT && p[0] != SLASH && HasParent(p, ToTree(rs)) {
      var i :| 0 <= i < |rs| && rs[i].path == p;
      assert ValidRecord(rs[i], host);
    }
  }

  /** Extract, then encode: an accepted archive is the one and only archive of the tree it yields. */
  lemma ExtractThenEncode(a: seq<Byte>, decl: Declaration, host: Host)
    requires ExtractedTree(a, decl, host).Some?
    ensures var t := ExtractedTree(a, decl, host).value;
      Rooted(t) && Encoded(t, host) == Some(a)
  {
    var rs := Extracted(a, decl, host).value;
    AcceptsExactlyThePrinted(a, rs, decl, host);
    WellFormedIsRooted(rs, host);
    ListingOf(rs);
    var t := ToTree(rs);
    var own := DeclarationOf(t, None);
    assert own.sizeBytes == decl.sizeBytes && own.fileCount == decl.fileCount;
    assert Declares(own, rs);
    EncodableIsWellFormed(t, host);
  }

  /** Two accepted archives with the same extracted tree are the same archive, whatever was declared. */
  lemma ExtractionIsInjective(a: seq<Byte>, b: seq<Byte>, declA: Declaration, declB: Declaration, host: Host)
    requires ExtractedTree(a, declA, host).Some?
    requires ExtractedTree(a, declA, host) == ExtractedTree(b, declB, host)
    ensures a == b
  {
    ExtractThenEncode(a, declA, host);
    ExtractThenEncode(b, declB, host);
  }
}

/** `collectSourceRecords`: the directory walk, the sort and the alias test that precede encoding. */
module SourceRecords {
  import opened Sets
  import opened Options
  import opened Bytes
  import opened PathText
  import opened FileTree
  import opened AppTreeFormat

  /** The walk accepts a source with this listing. */
  ghost predicate Walkable(rs: seq<Record>, host: Host)
  {
    && (forall i :: 0 <= i < |rs| ==> ValidPath(rs[i].path, host))
    && Sum(HeaderSize, rs) <= MAX_METADATA_BYTES
    && |rs| <= MAX_RECORDS
  }

  ghost function PathsOf(rs: seq<Record>): set<Path>
  {
    if rs == [] then {} else PathsOf(rs[..|rs| - 1]) + {rs[|rs| - 1].path}
  }

  lemma {:induction false} PathsOfHas(rs: seq<Record>)
    ensures forall i :: 0 <= i < |rs| ==> rs[i].path in PathsOf(rs)
    ensures forall p :: p in PathsOf(rs) ==> exists i :: 0 <= i < |rs| && rs[i].path == p
  {
    if rs != [] {
      var n := |rs| - 1;
      PathsOfHas(rs[..n]);
      forall p | p in PathsOf(rs) ensures exists i :: 0 <= i < |rs| && rs[i].path == p {
        if p == rs[n].path {
          assert rs[n].path == p;
        } else {
          var i :| 0 <= i < n && rs[..n][i].path == p;
          assert rs[i].path == p;
        }
      }
      forall i | 0 <= i < |rs| ensures rs[i].path in PathsOf(rs) {
        if i < n {
          assert rs[..n][i] == rs[i];
        }
      }
    }
  }

  ghost predicate Agrees(rs: seq<Record>, t: Tree)
  {
    forall i :: 0 <= i < |rs| ==> rs[i].path in t && t[rs[i].path] == rs[i].node
  }

  lemma AgreeingPart(rs: seq<Record>, t: Tree)
    requires Distinct(rs) && Agrees(rs, t)
    ensures Sum(HeaderSize, rs) <= Sum(HeaderSize, Listing(t)) && |rs| <= |Listing(t)|
  {
    ListingHas(Listing(t), t);
    forall r | r in rs ensures r in Listing(t) {
      assert Record(r.path, t[r.path]) in Listing(t);
    }
    SumOfPart(HeaderSize, rs, Listing(t));
  }

  lemma PushKeeps(rs: seq<Record>, p: Path, t: Tree)
    requires Distinct(rs) && Agrees(rs, t) && p in t && p !in PathsOf(rs)
    ensures var more := rs + [Record(p, t[p])];
      && Distinct(more) && Agrees(more, t)
      && PathsOf(more) == PathsOf(rs) + {p}
      && Sum(HeaderSize, more) == Sum(HeaderSize, rs) + HeaderSize(Record(p, t[p]))
  {
    var more := rs + [Record(p, t[p])];
    PathsOfHas(rs);
    assert more[..|rs|] == rs;
  }

  /** With one more record the limits alone decide, and where they are passed the whole source passes them. */
  lemma PushedIsWalkable(rs: seq<Record>, p: Path, t: Tree, host: Host)
    requires Distinct(rs) && Agrees(rs, t) && p in t && p !in PathsOf(rs)
    requires Walkable(rs, host) && ValidPath(p, host)
    ensures var more := rs + [Record(p, t[p])];
      && (Walkable(more, host) <==> Sum(HeaderSize, more) <= MAX_METADATA_BYTES && |more| <= MAX_RECORDS)
      && (!Walkable(more, host) ==> !Walkable(Listing(t), host))
  {
    hide ValidPath, Distinct, Agrees, PathsOf, Listing, Sum, ToTree;
    PushKeeps(rs, p, t);
    AgreeingPart(rs + [Record(p, t[p])], t);
  }

  lemma BadPathNotWalkable(p: Path, t: Tree, host: Host)
    requires p in t && !ValidPath(p, host)
    ensures !Walkable(Listing(t), host)
  {
    hide ValidPath;
    ListingHas(Listing(t), t);
    assert Record(p, t[p]) in Listing(t);
  }

  ghost function NamedPaths(d: Path, names: seq<Segment>): set<Path>
  {
    if names == [] then {} else NamedPaths(d, names[..|names| - 1]) + {Child(d, names[|names| - 1])}
  }

  /** No name repeats an earlier one. */
  ghost predicate FreshNames(d: Path, names: seq<Segment>)
  {
    forall k :: 0 <= k < |names| ==> Child(d, names[k]) !in NamedPaths(d, names[..k])
  }

  lemma {:induction false} NamedPathsHas(d: Path, names: seq<Segment>, k: nat)
    requires k < |names|
    ensures Child(d, names[k]) in NamedPaths(d, names)
  {
    if k < |names| - 1 {
      NamedPathsHas(d, names[..|names| - 1], k);
    }
  }

  lemma NamedPathsAppend(d: Path, names: seq<Segment>, name: Segment)
    requires FreshNames(d, names) && Child(d, name) !in NamedPaths(d, names)
    ensures FreshNames(d, names + [name])
    ensures NamedPaths(d, names + [name]) == NamedPaths(d, names) + {Child(d, name)}
  {
    var more := names + [name];
    assert more[..|names|] == names;
    forall k | 0 <= k < |more| ensures Child(d, more[k]) !in NamedPaths(d, more[..k]) {
      if k < |names| {
        assert more[..k] == names[..k];
      }
    }
  }

  lemma NextName(t: Tree, d: Path, names: seq<Segment>, k: nat)
    requires k < |names| && NamedPaths(d, names) == Children(t, d) && FreshNames(d, names)
    ensures var p := Child(d, names[k]);
      && p in Children(t, d) && p in t && p !in NamedPaths(d, names[..k])
      && NamedPaths(d, names[..k + 1]) == NamedPaths(d, names[..k]) + {p}
  {
    NamedPathsHas(d, names, k);
    assert names[..k + 1][..k] == names[..k];
  }

  lemma NameOfChild(t: Tree, d: Path, p: Path)
    requires Rooted(t) && p in Children(t, d)
    ensures Child(d, Name(p)) == p && p in t
  {
  }

  /** `readdirSync`: the names in a directory, each once, in no particular order. */
  method ReadDirectory(t: Tree, d: Path) returns (names: seq<Segment>)
    requires Rooted(t)
    ensures NamedPaths(d, names) == Children(t, d) && FreshNames(d, names)
  {
    hide Rooted, NamedPaths, FreshNames, Child, Name;
    names := [];
    NoNames(d);
    var rest := set p | p in t && p != ROOT && Parent(p) == d;
    assert rest == Children(t, d);
    while rest != {}
      invariant rest <= Children(t, d)
      invariant NamedPaths(d, names) == Children(t, d) - rest && FreshNames(d, names)
      decreases |rest|
    {
      hide Children;
      var p :| p in rest;
      ReadName(t, d, names, rest, p);
      names := names + [Name(p)];
      rest := rest - {p};
    }
  }

  lemma NoNames(d: Path)
    ensures NamedPaths(d, []) == {} && FreshNames(d, [])
  {
  }

  lemma ReadName(t: Tree, d: Path, names: seq<Segment>, rest: set<Path>, p: Path)
    requires Rooted(t) && p in rest && rest <= Children(t, d)
    requires NamedPaths(d, names) == Children(t, d) - rest && FreshNames(d, names)
    ensures NamedPaths(d, names + [Name(p)]) == Children(t, d) - (rest - {p}) && FreshNames(d, names + [Name(p)])
  {
    NameOfChild(t, d, p);
    hide Rooted, Children, NamedPaths, FreshNames, Child, Name;
    NamedPathsAppend(d, names, Name(p));
  }

  /** The state the recursive visit shares: the records found and their total header size. */
  class Collector {
    var records: seq<Record>
    var collectedHeaderBytes: nat

    constructor ()
      ensures records == [] && collectedHeaderBytes == 0
    {
      records := [];
      collectedHeaderBytes := 0;
    }

    ghost predicate Valid(t: Tree)
      reads this
    {
      && Distinct(records)
      && Agrees(records, t)
      && collectedHeaderBytes == Sum(HeaderSize, records)
    }

    /** Adds one entry unless the source breaks a limit. */
    method Push(t: Tree, p: Path, host: Host) returns (ok: bool)
      requires Valid(t) && Walkable(records, host) && p in t && p !in PathsOf(records)
      modifies this
      ensures Valid(t)
      ensures ok ==> Walkable(records, host)
      ensures ok ==> records == old(records) + [Record(p, t[p])]
      ensures ok ==> PathsOf(records) == old(PathsOf(records)) + {p}
      ensures !ok ==> !Walkable(Listing(t), host)
    {
      hide ValidPath, Distinct, Agrees, PathsOf, Listing, Sum, ToTree;
      if !ValidPath(p, host) {
        BadPathNotWalkable(p, t, host);
        return false;
      }
      PushKeeps(records, p, t);
      PushedIsWalkable(records, p, t, host);
      collectedHeaderBytes := collectedHeaderBytes + 1 + 4 + |p| + 4 + 8;
      records := records + [Record(p, t[p])];
      return collectedHeaderBytes <= MAX_METADATA_BYTES && |records| <= MAX_RECORDS;
    }

    /** Visits everything below `d`, each entry once, whatever order the names come in. */
    method Visit(t: Tree, d: Path, host: Host) returns (ok: bool)
      requires Rooted(t) && Valid(t) && Walkable(records, host)
      requires PathsOf(records) !! Below(t, d)
      modifies this
      ensures Valid(t)
      ensures ok ==> Walkable(records, host)
      ensures ok ==> PathsOf(records) == old(PathsOf(records)) + Below(t, d)
      ensures !ok ==> !Walkable(Listing(t), host)
      decreases |Below(t, d)|, 0
    {
      var names := ReadDirectory(t, d);
      ghost var start := PathsOf(records);
      assert Covered(t, d, NamedPaths(d, names[..0])) == {};
      hide ValidPath, Walkable, Rooted, Children, NamedPaths, FreshNames, Child, Covered, Below, PathsOf, Distinct, Agrees;
      for k := 0 to |names|
        invariant Valid(t) && Walkable(records, host)
        invariant PathsOf(records) == start + Covered(t, d, NamedPaths(d, names[..k]))
      {
        var p := Child(d, names[k]);
        NextEntry(t, d, names, k, start);
        var visited := VisitEntry(t, p, host);
        if !visited {
          return false;
        }
      }
      assert names[..|names|] == names;
      CoverAll(t, d, NamedPaths(d, names));
      return true;
    }

    /** One turn of the loop in `Visit`: records an entry and descends into it if it is a directory. */
    method VisitEntry(t: Tree, p: Path, host: Host) returns (ok: bool)
      requires Rooted(t) && Valid(t) && Walkable(records, host)
      requires p in t && p !in Below(t, p) && (!t[p].Directory? ==> Below(t, p) == {})
      requires PathsOf(records) !! {p} + Below(t, p)
      modifies this
      ensures Valid(t)
      ensures ok ==> Walkable(records, host)
      ensures ok ==> PathsOf(records) == old(PathsOf(records)) + {p} + Below(t, p)
      ensures !ok ==> !Walkable(Listing(t), host)
      decreases |Below(t, p)|, 1
    {
      hide ValidPath, Walkable, Rooted, Below, PathsOf, Distinct, Agrees;
      ok := Push(t, p, host);
      if ok && t[p].Directory? {
        ok := Visit(t, p, host);
      }
    }
  }

  /** What the visit of the `k`-th name needs, and what it adds to the paths already covered. */
  lemma NextEntry(t: Tree, d: Path, names: seq<Segment>, k: nat, start: set<Path>)
    requires Rooted(t) && NamedPaths(d, names) == Children(t, d) && FreshNames(d, names) && k < |names|
    requires start !! Below(t, d)
    ensures var p, done, next := Child(d, names[k]), NamedPaths(d, names[..k]), NamedPaths(d, names[..k + 1]);
      && p in t && p !in Below(t, p) && (!t[p].Directory? ==> Below(t, p) == {})
      && start + Covered(t, d, done) !! {p} + Below(t, p)
      && start + Covered(t, d, done) + {p} + Below(t, p) == start + Covered(t, d, next)
      && |Below(t, p)| < |Below(t, d)|
  {
    hide Covered, Below, Children, NamedPaths, FreshNames, Rooted, Child;
    var p, done := Child(d, names[k]), NamedPaths(d, names[..k]);
    NextName(t, d, names, k);
    CoverOne(t, d, done, p);
    CoveredIsBelow(t, d, done + {p});
    ChildIsSmaller(t, p, d);
  }

  lemma CoveredIsBelow(t: Tree, d: Path, done: set<Path>)
    ensures Covered(t, d, done) <= Below(t, d)
  {
  }

  lemma ChildIsSmaller(t: Tree, c: Path, d: Path)
    requires Rooted(t) && c in Children(t, d)
    ensures |Below(t, c)| < |Below(t, d)|
  {
    CoverOne(t, d, {}, c);
    CoveredIsBelow(t, d, {c});
    assert {} + {c} == {c};
    assert Below(t, c) + {c} <= Below(t, d);
    SubsetSize(Below(t, c) + {c}, Below(t, d));
  }

  // ---- Alias keys ----

  /** The alias map after the loop has seen `done`. */
  ghost predicate AliasesMatch(aliases: map<seq<Byte>, Path>, done: seq<Record>, host: Host)
  {
    && (forall i :: 0 <= i < |done| ==>
          host.aliasKey(done[i].path) in aliases && aliases[host.aliasKey(done[i].path)] == done[i].path)
    && (forall k :: k in aliases ==> exists i :: 0 <= i < |done| && host.aliasKey(done[i].path) == k)
  }

  lemma AliasTest(aliases: map<seq<Byte>, Path>, done: seq<Record>, p: Path, host: Host)
    requires AliasesMatch(aliases, done, host)
    ensures var key := host.aliasKey(p);
      (key in aliases && aliases[key] != p) <==> !NoAlias(done, p, host)
  {
    var key := host.aliasKey(p);
    if key in aliases {
      var i :| 0 <= i < |done| && host.aliasKey(done[i].path) == key;
      assert aliases[key] == done[i].path;
    }
  }

  lemma AliasStep(aliases: map<seq<Byte>, Path>, done: seq<Record>, r: Record, host: Host)
    requires AliasesMatch(aliases, done, host) && NoAlias(done, r.path, host)
    ensures AliasesMatch(aliases[host.aliasKey(r.path) := r.path], done + [r], host)
  {
    var more, key := done + [r], host.aliasKey(r.path);
    var after := aliases[key := r.path];
    forall k | k in after ensures exists i :: 0 <= i < |more| && host.aliasKey(more[i].path) == k {
      if k == key {
        assert host.aliasKey(more[|done|].path) == k;
      } else {
        var i :| 0 <= i < |done| && host.aliasKey(done[i].path) == k;
        assert host.aliasKey(more[i].path) == k;
      }
    }
  }

  lemma AliasFreeStep(rs: seq<Record>, k: nat, host: Host)
    requires Distinct(rs) && k < |rs| && AliasFree(rs[..k], host) && NoAlias(rs[..k], rs[k].path, host)
    ensures AliasFree(rs[..k + 1], host) && rs[..k + 1] == rs[..k] + [rs[k]]
  {
    var more := rs[..k + 1];
    forall i, j | 0 <= i < |more| && 0 <= j < |more| && i != j
      ensures host.aliasKey(more[i].path) != host.aliasKey(more[j].path)
    {
      if i < k && j < k {
        assert rs[..k][i] == more[i] && rs[..k][j] == more[j];
      } else {
        assert rs[..k][if i < k then i else j].path != rs[k].path;
      }
    }
  }

  lemma AliasFound(rs: seq<Record>, k: nat, host: Host)
    requires k < |rs| && !NoAlias(rs[..k], rs[k].path, host)
    ensures !AliasFree(rs, host)
  {
    var i :| 0 <= i < k && host.aliasKey(rs[..k][i].path) == host.aliasKey(rs[k].path);
    assert rs[..k][i] == rs[i];
  }

  /** The loop that refuses two paths with one alias key. */
  method CheckAliases(records: seq<Record>, host: Host) returns (ok: bool)
    requires StrictlySorted(records)
    ensures ok <==> AliasFree(records, host)
  {
    hide NoAlias, AliasFree, AliasesMatch, Less;
    var aliases: map<seq<Byte>, Path> := map[];
    SortedIsDistinct(records);
    NoAliases(host);
    for k := 0 to |records|
      invariant AliasFree(records[..k], host) && AliasesMatch(aliases, records[..k], host)
    {
      var key := host.aliasKey(records[k].path);
      AliasTest(aliases, records[..k], records[k].path, host);
      if key in aliases && aliases[key] != records[k].path {
        AliasFound(records, k, host);
        return false;
      }
      AliasFreeStep(records, k, host);
      AliasStep(aliases, records[..k], records[k], host);
      aliases := aliases[key := records[k].path];
    }
    assert records[..|records|] == records;
    return true;
  }

  lemma NoAliases(host: Host)
    ensures AliasFree([], host) && AliasesMatch(map[], [], host)
  {
  }

  ghost predicate Collectable(rs: seq<Record>, host: Host) { Walkable(rs, host) && AliasFree(rs, host) }

  /** The records of a source, sorted by path; the walk order leaves no trace in the result. */
  method CollectSourceRecords(t: Tree, host: Host) returns (r: Option<seq<Record>>)
    requires Rooted(t)
    ensures r.Some? <==> Collectable(Listing(t), host)
    ensures r.Some? ==> r.value == Listing(t)
  {
    var collector := new Collector();
    assert collector.Valid(t) && Walkable(collector.records, host);
    hide ValidPath, Walkable;
    var ok := collector.Visit(t, ROOT, host);
    if !ok {
      return None;
    }
    var records := collector.records;
    WalkedAll(records, t);
    SortedIsWalkable(records, host);
    ListingUnique(SortByPath(records), Listing(t), t);
    records := SortByPath(records);
    var index := 1;
    while index < |records|
    {
      if !Less(records[index - 1].path, records[index].path) {
        return None;
      }
      index := index + 1;
    }
    ok := CheckAliases(records, host);
    return if ok then Some(records) else None;
  }

  lemma SortedIsWalkable(rs: seq<Record>, host: Host)
    requires Distinct(rs) && Walkable(rs, host)
    ensures Walkable(SortByPath(rs), host)
  {
    hide ValidPath;
    SortIsListing(rs);
    var s := SortByPath(rs);
    SortedIsDistinct(s);
    assert |s| == |multiset(s)| == |multiset(rs)| == |rs|;
    forall r | r in s ensures r in rs {
      assert r in multiset(s);
    }
    SumOfPart(HeaderSize, s, rs);
    forall i | 0 <= i < |s| ensures ValidPath(s[i].path, host) {
      assert s[i] in rs;
    }
  }

  lemma WalkedAll(rs: seq<Record>, t: Tree)
    requires Rooted(t) && Distinct(rs) && Agrees(rs, t) && PathsOf(rs) == Below(t, ROOT)
    ensures IsListing(SortByPath(rs), t)
  {
    forall p | p in t ensures Record(p, t[p]) in rs {
      UnderRoot(p);
      assert p in Below(t, ROOT);
      PathsOfHas(rs);
      var i :| 0 <= i < |rs| && rs[i].path == p;
      assert rs[i] == Record(p, t[p]);
    }
    SortedListing(rs, t);
  }
}

/** `collectRelativePaths`: a depth-first walk with sorted siblings. The walk amounts to one sort of all paths,
    segment by segment, so its result does not depend on how directories are read. */
module TreeWalk {
  import opened Sets
  import opened Options
  import opened Bytes
  import opened PathText
  import opened FileTree
  import opened SourceRecords

  /** Segment-wise lexicographic order. */
  predicate SegmentsBefore(a: seq<Segment>, b: seq<Segment>, before: NameOrder)
  {
    b != [] && (a == [] || before(a[0], b[0]) || (a[0] == b[0] && SegmentsBefore(a[1..], b[1..], before)))
  }

  predicate PathBefore(p: Path, q: Path, before: NameOrder) { SegmentsBefore(Split(p), Split(q), before) }

  lemma {:induction false} SegmentsIrreflexive(a: seq<Segment>, before: NameOrder)
    requires StrictTotal(before)
    ensures !SegmentsBefore(a, a, before)
  {
    if a != [] {
      SegmentsIrreflexive(a[1..], before);
    }
  }

  lemma {:induction false} SegmentsTransitive(a: seq<Segment>, b: seq<Segment>, c: seq<Segment>, before: NameOrder)
    requires StrictTotal(before) && SegmentsBefore(a, b, before) && SegmentsBefore(b, c, before)
    ensures SegmentsBefore(a, c, before)
  {
    if a != [] && a[0] == b[0] == c[0] && !before(a[0], c[0]) {
      SegmentsTransitive(a[1..], b[1..], c[1..], before);
    }
  }

  lemma {:induction false} PrefixBefore(a: seq<Segment>, b: seq<Segment>, before: NameOrder)
    requires a < b
    ensures SegmentsBefore(a, b, before)
  {
    if a != [] {
      assert a[1..] < b[1..];
      PrefixBefore(a[1..], b[1..], before);
    }
  }

  /** Sequences that part at a segment are ordered by that segment, whatever follows. */
  lemma {:induction false} PartBefore(common: seq<Segment>, x: Segment, y: Segment, a: seq<Segment>, b: seq<Segment>,
                                      before: NameOrder)
    requires before(x, y)
    requires common + [x] <= a && common + [y] <= b
    ensures SegmentsBefore(a, b, before)
  {
    if common == [] {
      assert ([] + [x])[0] == a[0] && ([] + [y])[0] == b[0];
    } else {
      assert (common + [x])[0] == common[0] == a[0] == b[0];
      assert (common + [x])[1..] == common[1..] + [x] && (common + [y])[1..] == common[1..] + [y];
      PartBefore(common[1..], x, y, a[1..], b[1..], before);
    }
  }

  // ---- Paths below a directory share its segments ----

  /** The segments of a directory; the root has none. */
  function SegmentsOf(d: Path): seq<Segment> { if d == ROOT then [] else Split(d) }

  lemma SegmentsOfChild(d: Path, name: Segment)
    requires IsSegment(name) && Child(d, name) != ROOT
    ensures SegmentsOf(Child(d, name)) == SegmentsOf(d) + [name]
  {
    if d == ROOT {
      SplitSegment(name);
    } else {
      JoinSplit(d);
      JoinAppend(Split(d), name);
      SplitJoin(Split(d) + [name]);
    }
  }

  lemma {:induction false} BelowExtends(t: Tree, p: Path, c: Path)
    requires Rooted(t) && p in t && c != ROOT && (p == c || Under(p, c))
    ensures SegmentsOf(c) <= SegmentsOf(p) && (p != c ==> SegmentsOf(c) < SegmentsOf(p))
    decreases |p|
  {
    if p != c {
      SegmentsOfChild(Parent(p), Name(p));
      if Parent(p) != c {
        BelowExtends(t, Parent(p), c);
      }
    }
  }

  /** Everything in one sibling's subtree comes before everything in a later sibling's. */
  lemma SiblingsApart(t: Tree, d: Path, c: Path, c': Path, p: Path, p': Path, before: NameOrder)
    requires Rooted(t) && c in Children(t, d) && c' in Children(t, d) && before(Name(c), Name(c'))
    requires p in t && (p == c || Under(p, c)) && p' in t && (p' == c' || Under(p', c'))
    ensures PathBefore(p, p', before)
  {
    BelowExtends(t, p, c);
    BelowExtends(t, p', c');
    SegmentsOfChild(d, Name(c));
    SegmentsOfChild(d, Name(c'));
    PartBefore(SegmentsOf(d), Name(c), Name(c'), Split(p), Split(p'), before);
  }

  lemma ParentBefore(t: Tree, c: Path, p: Path, before: NameOrder)
    requires Rooted(t) && c != ROOT && p in t && Under(p, c)
    ensures PathBefore(c, p, before)
  {
    UnderIsLonger(p, c);
    BelowExtends(t, p, c);
    PrefixBefore(Split(c), Split(p), before);
  }

  // ---- Sorted walks ----

  ghost predicate Ordered(ps: seq<Path>, before: NameOrder)
  {
    forall i, j :: 0 <= i < j < |ps| ==> PathBefore(ps[i], ps[j], before)
  }

  ghost function SetOf(ps: seq<Path>): set<Path> { set p | p in ps }

  /** `ps` is every path of `t` in segment order. */
  ghost predicate IsWalk(ps: seq<Path>, t: Tree, before: NameOrder) { Ordered(ps, before) && SetOf(ps) == t.Keys }

  lemma LastOfWalk(ps: seq<Path>, s: set<Path>, p: Path, before: NameOrder)
    requires Ordered(ps, before) && SetOf(ps) == s && p in s
    ensures ps != [] && (p == ps[|ps| - 1] || PathBefore(p, ps[|ps| - 1], before))
  {
    assert p in ps;
    var i :| 0 <= i < |ps| && ps[i] == p;
  }

  lemma DropLastOfWalk(ps: seq<Path>, s: set<Path>, before: NameOrder)
    requires StrictTotal(before) && Ordered(ps, before) && SetOf(ps) == s && ps != []
    ensures Ordered(ps[..|ps| - 1], before) && SetOf(ps[..|ps| - 1]) == s - {ps[|ps| - 1]}
  {
    hide PathBefore;
    var n := |ps| - 1;
    forall i | 0 <= i < n ensures ps[i] != ps[n] {
      assert PathBefore(ps[i], ps[n], before);
      NotBeforeItself(ps[n], before);
    }
    assert ps == ps[..n] + [ps[n]];
    forall p | p in s && p != ps[n] ensures p in ps[..n] {
      assert p in ps;
    }
    forall p | p in ps[..n] ensures p in s && p != ps[n] {
      var i :| 0 <= i < n && ps[..n][i] == p;
      assert p == ps[i] && p in ps;
    }
  }

  lemma NotBeforeItself(p: Path, before: NameOrder)
    requires StrictTotal(before)
    ensures !PathBefore(p, p, before)
  {
    SegmentsIrreflexive(Split(p), before);
  }

  /** There is one walk of a tree. */
  lemma {:induction false} WalkUnique(ps: seq<Path>, qs: seq<Path>, s: set<Path>, before: NameOrder)
    requires StrictTotal(before)
    requires Ordered(ps, before) && Ordered(qs, before) && SetOf(ps) == SetOf(qs) == s
    ensures ps == qs
    decreases |ps|
  {
    hide PathBefore, StrictTotal, Ordered;
    if ps == [] || qs == [] {
      EmptyWalk(ps);
      EmptyWalk(qs);
    } else {
      var x, y := ps[|ps| - 1], qs[|qs| - 1];
      assert x in ps && y in qs;
      LastOfWalk(ps, s, y, before);
      LastOfWalk(qs, s, x, before);
      OneWay(x, y, before);
      DropLastOfWalk(ps, s, before);
      DropLastOfWalk(qs, s, before);
      WalkUnique(ps[..|ps| - 1], qs[..|qs| - 1], s - {x}, before);
      assert ps == ps[..|ps| - 1] + [x] && qs == qs[..|qs| - 1] + [y];
    }
  }

  lemma OneWay(x: Path, y: Path, before: NameOrder)
    requires StrictTotal(before)
    ensures !(PathBefore(x, y, before) && PathBefore(y, x, before))
  {
    SegmentsIrreflexive(Split(x), before);
    if PathBefore(x, y, before) && PathBefore(y, x, before) {
      SegmentsTransitive(Split(x), Split(y), Split(x), before);
    }
  }

  lemma EmptyWalk(ps: seq<Path>)
    ensures ps == [] <==> SetOf(ps) == {}
  {
    if ps != [] {
      assert ps[0] in SetOf(ps);
    }
  }

  // ---- The walk itself ----

  const MAX_ENTRIES := 1_000_000

  ghost predicate NamesOrdered(cs: seq<Path>, before: NameOrder)
  {
    forall i, j :: 0 <= i < j < |cs| ==> before(Name(cs[i]), Name(cs[j]))
  }

  function InsertChild(c: Path, cs: seq<Path>, before: NameOrder): (r: seq<Path>)
    ensures SetOf(r) == SetOf(cs) + {c}
  {
    if cs == [] then [c]
    else if before(Name(cs[0]), Name(c)) then
      var tail := InsertChild(c, cs[1..], before);
      assert SetOf(cs) == {cs[0]} + SetOf(cs[1..]) && SetOf([cs[0]] + tail) == {cs[0]} + SetOf(tail);
      [cs[0]] + tail
    else [c] + cs
  }

  lemma {:induction false} InsertChildOrdered(c: Path, cs: seq<Path>, before: NameOrder)
    requires StrictTotal(before) && NamesOrdered(cs, before)
    requires forall i :: 0 <= i < |cs| ==> Name(cs[i]) != Name(c)
    ensures NamesOrdered(InsertChild(c, cs, before), before)
  {
    hide Name;
    if cs != [] {
      if before(Name(cs[0]), Name(c)) {
        InsertChildOrdered(c, cs[1..], before);
        var tail := InsertChild(c, cs[1..], before);
        forall j | 0 <= j < |tail| ensures before(Name(cs[0]), Name(tail[j])) {
          assert tail[j] in SetOf(tail);
          assert tail[j] == c || tail[j] in cs[1..];
        }
      } else {
        assert before(Name(c), Name(cs[0]));
      }
    }
  }

  /** `readdirSync(...).sort(localeCompare)`, as the paths of the children. */
  method SortedChildren(t: Tree, d: Path, before: NameOrder) returns (cs: seq<Path>)
    requires Rooted(t) && StrictTotal(before)
    ensures SetOf(cs) == Children(t, d) && NamesOrdered(cs, before)
  {
    var names := ReadDirectory(t, d);
    cs := [];
    assert names[..0] == [];
    for k := 0 to |names|
      invariant SetOf(cs) == NamedPaths(d, names[..k]) && NamesOrdered(cs, before)
    {
      hide Rooted, Children, Child, Name, NamesOrdered, InsertChild, NamedPaths, FreshNames;
      var c := Child(d, names[k]);
      NextName(t, d, names, k);
      forall i | 0 <= i < |cs| ensures Name(cs[i]) != Name(c) {
        assert cs[i] in SetOf(cs);
        EarlierIsChild(t, d, names, k, cs[i]);
        SameNameSameChild(t, d, cs[i], c);
      }
      InsertChildOrdered(c, cs, before);
      cs := InsertChild(c, cs, before);
    }
    assert names[..|names|] == names;
  }

  lemma {:induction false} EarlierIsChild(t: Tree, d: Path, names: seq<Segment>, k: nat, c: Path)
    requires NamedPaths(d, names) == Children(t, d) && k <= |names| && c in NamedPaths(d, names[..k])
    ensures c in Children(t, d)
    decreases |names| - k
  {
    NamedPrefix(d, names, k);
  }

  lemma {:induction false} NamedPrefix(d: Path, names: seq<Segment>, k: nat)
    requires k <= |names|
    ensures NamedPaths(d, names[..k]) <= NamedPaths(d, names)
  {
    if k < |names| {
      NamedPrefix(d, names[..|names| - 1], k);
      assert names[..|names| - 1][..k] == names[..k];
    } else {
      assert names[..k] == names;
    }
  }

  lemma SameNameSameChild(t: Tree, d: Path, a: Path, b: Path)
    requires Rooted(t) && a in Children(t, d) && b in Children(t, d) && a != b
    ensures Name(a) != Name(b)
  {
    NameOfChild(t, d, a);
    NameOfChild(t, d, b);
  }

  /** Appending the next child and its subtree keeps the walk so far in order. */
  lemma AppendSubtree(t: Tree, d: Path, cs: seq<Path>, k: nat, part: seq<Path>, sub: seq<Path>, before: NameOrder)
    requires Rooted(t) && StrictTotal(before)
    requires SetOf(cs) == Children(t, d) && NamesOrdered(cs, before) && k < |cs|
    requires Ordered(part, before) && SetOf(part) == Covered(t, d, SetOf(cs[..k]))
    requires Ordered(sub, before) && SetOf(sub) == Below(t, cs[k])
    ensures Ordered(part + [cs[k]] + sub, before)
    ensures SetOf(part + [cs[k]] + sub) == Covered(t, d, SetOf(cs[..k + 1]))
  {
    hide PathBefore, StrictTotal, Rooted;
    var c := cs[k];
    NextChild(t, d, cs, k, before);
    var whole := part + [c] + sub;
    CoverOne(t, d, SetOf(cs[..k]), c);
    forall i, j | 0 <= i < j < |whole| ensures PathBefore(whole[i], whole[j], before) {
      if i < |part| <= j {
        assert whole[i] in SetOf(part);
        assert whole[j] == c || whole[j] in SetOf(sub);
        EarlierSubtree(t, d, cs, k, whole[i], whole[j], before);
      } else if i == |part| {
        assert whole[j] in SetOf(sub);
        ParentBefore(t, c, whole[j], before);
      } else if |part| < i {
        assert whole[i] == sub[i - |part| - 1] && whole[j] == sub[j - |part| - 1];
      }
    }
    assert SetOf(whole) == SetOf(part) + {c} + SetOf(sub);
  }

  lemma NextChild(t: Tree, d: Path, cs: seq<Path>, k: nat, before: NameOrder)
    requires StrictTotal(before) && SetOf(cs) == Children(t, d) && NamesOrdered(cs, before) && k < |cs|
    ensures cs[k] in Children(t, d) && cs[k] in t && cs[k] != ROOT && cs[k] !in SetOf(cs[..k])
    ensures SetOf(cs[..k + 1]) == SetOf(cs[..k]) + {cs[k]}
  {
    assert cs[k] in SetOf(cs);
    assert cs[..k + 1] == cs[..k] + [cs[k]];
    forall i | 0 <= i < k ensures cs[..k][i] != cs[k] {
      assert before(Name(cs[i]), Name(cs[k]));
    }
  }

  lemma EarlierSubtree(t: Tree, d: Path, cs: seq<Path>, k: nat, p: Path, p': Path, before: NameOrder)
    requires Rooted(t) && SetOf(cs) == Children(t, d) && NamesOrdered(cs, before) && k < |cs|
    requires p in Covered(t, d, SetOf(cs[..k])) && p' in t && (p' == cs[k] || Under(p', cs[k]))
    ensures PathBefore(p, p', before)
  {
    var c := ChildToward(p, d);
    assert c in cs[..k];
    var i :| 0 <= i < k && cs[..k][i] == c;
    assert cs[i] in SetOf(cs) && cs[k] in SetOf(cs);
    SiblingsApart(t, d, c, cs[k], p, p', before);
  }

  lemma {:induction false} OrderedLength(ps: seq<Path>, before: NameOrder)
    requires StrictTotal(before) && Ordered(ps, before)
    ensures |ps| == |SetOf(ps)|
  {
    hide PathBefore, StrictTotal;
    if ps != [] {
      DropLastOfWalk(ps, SetOf(ps), before);
      OrderedLength(ps[..|ps| - 1], before);
      assert ps[|ps| - 1] in SetOf(ps);
    }
  }

  /** The list the recursive walk appends to. */
  class Walker {
    var entries: seq<Path>

    constructor ()
      ensures entries == []
    {
      entries := [];
    }

    method Walk(t: Tree, d: Path, before: NameOrder) returns (ok: bool, ghost part: seq<Path>)
      requires Rooted(t) && StrictTotal(before)
      requires |entries| <= MAX_ENTRIES && |entries| + |Below(t, d)| <= |t|
      modifies this
      ensures ok ==> entries == old(entries) + part && Ordered(part, before) && SetOf(part) == Below(t, d)
      ensures if ok then |entries| <= MAX_ENTRIES else |t| > MAX_ENTRIES
      decreases |Below(t, d)|, 1
    {
      hide Ordered, Rooted, StrictTotal, Children, Covered, Below, NamesOrdered, SetOf, InOrder;
      part := [];
      var children := SortedChildren(t, d, before);
      StartOfWalk(t, d, children, before);
      for k := 0 to |children|
        invariant entries == old(entries) + part && |entries| <= MAX_ENTRIES
        invariant InOrder(t, d, children, k, part, before)
      {
        ok, part := WalkChild(t, d, children, k, part, before);
        if !ok {
          return;
        }
      }
      EndOfWalk(t, d, children, part, before);
      ok := true;
    }

    /** One turn of the loop in `Walk`. */
    method WalkChild(t: Tree, ghost d: Path, children: seq<Path>, k: nat, ghost part: seq<Path>, before: NameOrder)
      returns (ok: bool, ghost more: seq<Path>)
      requires Rooted(t) && StrictTotal(before) && k < |children| && InOrder(t, d, children, k, part, before)
      requires |part| <= |entries| <= MAX_ENTRIES && |entries| - |part| + |Below(t, d)| <= |t|
      modifies this
      ensures ok ==> part <= more && entries == old(entries) + more[|part|..] && InOrder(t, d, children, k + 1, more, before)
      ensures if ok then |entries| <= MAX_ENTRIES else |t| > MAX_ENTRIES
      decreases |Below(t, d)|, 0, |children| - k
    {
      hide Ordered, Rooted, StrictTotal, Children, Covered, Below, NamesOrdered, SetOf;
      var child := children[k];
      Ready(t, d, children, k, part, before);
      ghost var sub: seq<Path> := [];
      entries := entries + [child];
      ok := |entries| <= MAX_ENTRIES;
      if ok && t[child].Directory? {
        ok, sub := Walk(t, child, before);
      }
      more := part + [child] + sub;
      if ok {
        AppendSubtree(t, d, children, k, part, sub, before);
      }
    }
  }

  /** `part` holds the first `k` children and their subtrees, in order. */
  ghost predicate InOrder(t: Tree, d: Path, cs: seq<Path>, k: nat, part: seq<Path>, before: NameOrder)
    requires k <= |cs|
  {
    && SetOf(cs) == Children(t, d) && NamesOrdered(cs, before)
    && Ordered(part, before) && SetOf(part) == Covered(t, d, SetOf(cs[..k]))
  }

  lemma StartOfWalk(t: Tree, d: Path, cs: seq<Path>, before: NameOrder)
    requires SetOf(cs) == Children(t, d) && NamesOrdered(cs, before)
    ensures InOrder(t, d, cs, 0, [], before)
  {
    assert cs[..0] == [];
  }

  lemma EndOfWalk(t: Tree, d: Path, cs: seq<Path>, part: seq<Path>, before: NameOrder)
    requires Rooted(t) && InOrder(t, d, cs, |cs|, part, before)
    ensures Ordered(part, before) && SetOf(part) == Below(t, d)
  {
    assert cs[..|cs|] == cs;
    CoverAll(t, d, SetOf(cs));
  }

  /** Counting: the paths covered so far, the next child and its subtree all fit below `d`. */
  lemma Room(t: Tree, d: Path, done: set<Path>, c: Path)
    requires Rooted(t) && c in Children(t, d) && c !in done
    ensures |Covered(t, d, done)| + 1 + |Below(t, c)| <= |Below(t, d)|
    ensures |Below(t, c)| < |Below(t, d)|
  {
    hide Covered, Below, Rooted, Children;
    CoverOne(t, d, done, c);
    CoveredIsBelow(t, d, done + {c});
    var x, y := Covered(t, d, done), {c} + Below(t, c);
    Disjoint(x, y);
    Disjoint({c}, Below(t, c));
    assert x + y == Covered(t, d, done + {c});
    SubsetSize(x + y, Below(t, d));
  }

  lemma Disjoint<T>(a: set<T>, b: set<T>)
    requires a !! b
    ensures |a + b| == |a| + |b|
  {
    if a != {} {
      var x :| x in a;
      Disjoint(a - {x}, b);
      assert a + b == (a - {x} + b) + {x};
    } else {
      assert a + b == b;
    }
  }

  lemma NothingBelow(t: Tree, d: Path, done: set<Path>, c: Path, before: NameOrder)
    requires Rooted(t) && c in Children(t, d) && c !in done
    ensures !t[c].Directory? ==> SetOf([]) == Below(t, c) && Ordered([], before)
  {
    CoverOne(t, d, done, c);
  }

  lemma Ready(t: Tree, d: Path, cs: seq<Path>, k: nat, part: seq<Path>, before: NameOrder)
    requires Rooted(t) && StrictTotal(before) && k < |cs| && InOrder(t, d, cs, k, part, before)
    ensures cs[k] in t && |part| + 1 + |Below(t, cs[k])| <= |Below(t, d)| && |Below(t, cs[k])| < |Below(t, d)|
    ensures !t[cs[k]].Directory? ==> SetOf([]) == Below(t, cs[k]) && Ordered([], before)
  {
    hide Ordered, Rooted, StrictTotal, Children, Covered, Below, NamesOrdered, SetOf;
    NextChild(t, d, cs, k, before);
    OrderedLength(part, before);
    Room(t, d, SetOf(cs[..k]), cs[k]);
    NothingBelow(t, d, SetOf(cs[..k]), cs[k], before);
  }

  /** Every path of the tree, in the one order the walk can produce. */
  method CollectRelativePaths(t: Tree, before: NameOrder) returns (r: Option<seq<Path>>)
    requires Rooted(t) && StrictTotal(before)
    ensures r.Some? <==> |t| <= MAX_ENTRIES
    ensures r.Some? ==> IsWalk(r.value, t, before)
  {
    var walker := new Walker();
    AllBelowRoot(t);
    var ok, part := walker.Walk(t, ROOT, before);
    if !ok {
      return None;
    }
    OrderedLength(part, before);
    assert walker.entries == part;
    return Some(walker.entries);
  }

  lemma AllBelowRoot(t: Tree)
    requires Rooted(t)
    ensures Below(t, ROOT) == t.Keys && |Below(t, ROOT)| == |t|
  {
    forall p | p in t ensures Under(p, ROOT) {
      UnderRoot(p);
    }
    assert |t| == |t.Keys|;
  }
}

/** A file tree as the code observes it: relative paths mapped to nodes, and its path-sorted listing. */
module FileTree {
  import opened Bytes
  import opened PathText

  /** The permission bits `st_mode & 0o7777`. */
  type Mode = m: nat | m < 0x1000

  datatype Node =
    | Directory(mode: Mode)
    | File(mode: Mode, data: seq<Byte>)
    | Symlink(mode: Mode, target: seq<Byte>)
    | Special(mode: Mode)  // sockets, pipes and devices

  type Tree = map<Path, Node>

  datatype Record = Record(path: Path, node: Node)

  /** What a file system guarantees: every node sits in a directory of the tree, or in the root. */
  ghost predicate Rooted(t: Tree)
  {
    forall p :: p in t ==>
      && p != ROOT && p[0] != SLASH
      && (Parent(p) == ROOT || (Parent(p) in t && t[Parent(p)].Directory?))
  }

  // ---- Sums over records ----

  function Sum(w: Record -> nat, rs: seq<Record>): nat
  {
    if rs == [] then 0 else Sum(w, rs[..|rs| - 1]) + w(rs[|rs| - 1])
  }

  function FileSize(r: Record): nat { if r.node.File? then |r.node.data| else 0 }

  function FileUnit(r: Record): nat { if r.node.File? then 1 else 0 }

  lemma SumAppend(w: Record -> nat, rs: seq<Record>, r: Record)
    ensures Sum(w, rs + [r]) == Sum(w, rs) + w(r)
  {
    assert (rs + [r])[..|rs|] == rs;
  }

  lemma {:induction false} SumConcat(w: Record -> nat, a: seq<Record>, b: seq<Record>)
    ensures Sum(w, a + b) == Sum(w, a) + Sum(w, b)
  {
    if b == [] {
      assert a + b == a;
    } else {
      SumConcat(w, a, b[..|b| - 1]);
      assert a + b == a + b[..|b| - 1] + [b[|b| - 1]];
      SumAppend(w, a + b[..|b| - 1], b[|b| - 1]);
    }
  }

  ghost predicate Distinct(rs: seq<Record>)
  {
    forall i, j :: 0 <= i < j < |rs| ==> rs[i].path != rs[j].path
  }

  /** Records drawn without repetition from others weigh no more than those others. */
  lemma {:induction false} SumOfPart(w: Record -> nat, part: seq<Record>, whole: seq<Record>)
    requires Distinct(part)
    requires forall r :: r in part ==> r in whole
    ensures Sum(w, part) <= Sum(w, whole)
    ensures |part| <= |whole|
  {
    if part != [] {
      var last := part[|part| - 1];
      assert last in part;
      var j :| 0 <= j < |whole| && whole[j] == last;
      var others := whole[..j] + whole[j + 1..];
      forall r | r in part[..|part| - 1] ensures r in others {
        var i :| 0 <= i < |part| - 1 && part[i] == r;
        assert r in part && r != last;
        var k :| 0 <= k < |whole| && whole[k] == r;
        assert r == if k < j then others[k] else others[k - 1];
      }
      assert whole == whole[..j] + [last] + whole[j + 1..];
      SumAppend(w, whole[..j], last);
      SumConcat(w, whole[..j] + [last], whole[j + 1..]);
      SumConcat(w, whole[..j], whole[j + 1..]);
      SumOfPart(w, part[..|part| - 1], others);
    }
  }

  // ---- Listings ----

  ghost predicate StrictlySorted(rs: seq<Record>)
  {
    forall i, j :: 0 <= i < j < |rs| ==> Less(rs[i].path, rs[j].path)
  }

  lemma SortedIsDistinct(rs: seq<Record>)
    requires StrictlySorted(rs)
    ensures Distinct(rs)
  {
    forall i, j | 0 <= i < j < |rs| ensures rs[i].path != rs[j].path {
      LessIrreflexive(rs[i].path);
    }
  }

  /** The tree a sequence of records describes. */
  function ToTree(rs: seq<Record>): Tree
  {
    if rs == [] then map[] else ToTree(rs[..|rs| - 1])[rs[|rs| - 1].path := rs[|rs| - 1].node]
  }

  lemma ToTreeAppend(rs: seq<Record>, r: Record)
    ensures ToTree(rs + [r]) == ToTree(rs)[r.path := r.node]
  {
    assert (rs + [r])[..|rs|] == rs;
  }

  lemma {:induction false} ToTreeKeys(rs: seq<Record>)
    ensures forall i :: 0 <= i < |rs| ==> rs[i].path in ToTree(rs)
    ensures forall p :: p in ToTree(rs) ==> exists i :: 0 <= i < |rs| && rs[i].path == p
  {
    if rs != [] {
      var n := |rs| - 1;
      ToTreeKeys(rs[..n]);
      forall p | p in ToTree(rs) ensures exists i :: 0 <= i < |rs| && rs[i].path == p {
        if p == rs[n].path {
          assert rs[n].path == p;
        } else {
          var i :| 0 <= i < n && rs[..n][i].path == p;
          assert rs[i].path == p;
        }
      }
      forall i | 0 <= i < |rs| ensures rs[i].path in ToTree(rs) {
        if i < n {
          assert rs[..n][i] == rs[i];
        }
      }
    }
  }

  lemma {:induction false} ToTreeNode(rs: seq<Record>, i: nat)
    requires Distinct(rs) && i < |rs|
    ensures rs[i].path in ToTree(rs) && ToTree(rs)[rs[i].path] == rs[i].node
  {
    var n := |rs| - 1;
    if i < n {
      ToTreeNode(rs[..n], i);
    }
  }

  /** Records without repetition that agree with a tree and cover it describe exactly that tree. */
  lemma ToTreeIs(rs: seq<Record>, t: Tree)
    requires Distinct(rs)
    requires forall i :: 0 <= i < |rs| ==> rs[i].path in t && t[rs[i].path] == rs[i].node
    requires forall p :: p in t ==> exists i :: 0 <= i < |rs| && rs[i].path == p
    ensures ToTree(rs) == t
  {
    ToTreeKeys(rs);
    forall p | p in t ensures p in ToTree(rs) && ToTree(rs)[p] == t[p] {
      var i :| 0 <= i < |rs| && rs[i].path == p;
      ToTreeNode(rs, i);
    }
  }

  /** `rs` lists `t` in strictly increasing path order. */
  ghost predicate IsListing(rs: seq<Record>, t: Tree) { StrictlySorted(rs) && ToTree(rs) == t }

  lemma ListingHas(rs: seq<Record>, t: Tree)
    requires IsListing(rs, t)
    ensures forall i :: 0 <= i < |rs| ==> rs[i].path in t && t[rs[i].path] == rs[i].node
    ensures forall p :: p in t ==> exists i :: 0 <= i < |rs| && rs[i] == Record(p, t[p])
    ensures forall p :: p in t ==> Record(p, t[p]) in rs
  {
    SortedIsDistinct(rs);
    forall i | 0 <= i < |rs| ensures rs[i].path in t && t[rs[i].path] == rs[i].node {
      ToTreeNode(rs, i);
    }
    ToTreeKeys(rs);
    forall p | p in t ensures exists i :: 0 <= i < |rs| && rs[i] == Record(p, t[p]) {
      var i :| 0 <= i < |rs| && rs[i].path == p;
      assert rs[i] == Record(p, t[p]);
    }
  }

  lemma LastIsGreatest(a: seq<Record>, t: Tree, p: Path)
    requires IsListing(a, t) && p in t
    ensures a != [] && (p == a[|a| - 1].path || Less(p, a[|a| - 1].path))
  {
    ListingHas(a, t);
    var i :| 0 <= i < |a| && a[i] == Record(p, t[p]);
  }

  lemma LastIsIn(a: seq<Record>, t: Tree)
    requires IsListing(a, t) && a != []
    ensures a[|a| - 1].path in t && t[a[|a| - 1].path] == a[|a| - 1].node
  {
    SortedIsDistinct(a);
    ToTreeNode(a, |a| - 1);
  }

  /** A tree has only one listing. */
  lemma {:induction false} ListingUnique(a: seq<Record>, b: seq<Record>, t: Tree)
    requires IsListing(a, t) && IsListing(b, t)
    ensures a == b
    decreases |a|
  {
    if a == [] {
      if b != [] { LastIsIn(b, t); }
    } else {
      LastIsIn(a, t);
      var x := a[|a| - 1].path;
      LastIsGreatest(b, t, x);
      LastIsIn(b, t);
      var y := b[|b| - 1].path;
      LastIsGreatest(a, t, y);
      if x != y {
        LessTransitive(x, y, x);
        LessIrreflexive(x);
      }
      DropLast(a, t);
      DropLast(b, t);
      ListingUnique(a[..|a| - 1], b[..|b| - 1], t - {x});
      assert a == a[..|a| - 1] + [a[|a| - 1]];
      assert b == b[..|b| - 1] + [b[|b| - 1]];
    }
  }

  lemma DropLast(a: seq<Record>, t: Tree)
    requires IsListing(a, t) && a != []
    ensures IsListing(a[..|a| - 1], t - {a[|a| - 1].path})
  {
    var m := |a| - 1;
    SortedIsDistinct(a);
    ToTreeKeys(a[..m]);
    assert a[m].path !in ToTree(a[..m]);
  }

  function InsertSorted(r: Record, rs: seq<Record>): seq<Record>
  {
    if rs == [] then [r]
    else if Less(rs[0].path, r.path) then [rs[0]] + InsertSorted(r, rs[1..])
    else [r] + rs
  }

  /** `records.sort` by `Buffer.compare` of the paths. */
  function SortByPath(rs: seq<Record>): seq<Record>
  {
    if rs == [] then [] else InsertSorted(rs[|rs| - 1], SortByPath(rs[..|rs| - 1]))
  }

  lemma {:induction false} InsertSortedIsSorted(r: Record, rs: seq<Record>)
    requires StrictlySorted(rs)
    requires forall i :: 0 <= i < |rs| ==> rs[i].path != r.path
    ensures StrictlySorted(InsertSorted(r, rs))
    ensures multiset(InsertSorted(r, rs)) == multiset(rs) + multiset{r}
  {
    if rs == [] {
    } else if Less(rs[0].path, r.path) {
      hide Less;
      assert rs == [rs[0]] + rs[1..];
      InsertSortedIsSorted(r, rs[1..]);
      var tail := InsertSorted(r, rs[1..]);
      forall j | 0 <= j < |tail| ensures Less(rs[0].path, tail[j].path) {
        assert tail[j] in multiset(tail);
        assert tail[j] == r || tail[j] in rs[1..];
      }
      FirstThenSorted(rs[0], tail);
    } else {
      LessTotal(rs[0].path, r.path);
      hide Less;
      forall j | 0 <= j < |rs| ensures Less(r.path, rs[j].path) {
        if j > 0 {
          LessTransitive(r.path, rs[0].path, rs[j].path);
        }
      }
      FirstThenSorted(r, rs);
    }
  }

  lemma FirstThenSorted(r: Record, rs: seq<Record>)
    requires StrictlySorted(rs) && forall j :: 0 <= j < |rs| ==> Less(r.path, rs[j].path)
    ensures StrictlySorted([r] + rs)
  {
    hide Less;
  }

  /** Sorting records without repetition gives the same records, strictly in order. */
  lemma {:induction false} SortIsListing(rs: seq<Record>)
    requires Distinct(rs)
    ensures StrictlySorted(SortByPath(rs))
    ensures multiset(SortByPath(rs)) == multiset(rs)
  {
    if rs != [] {
      var n := |rs| - 1;
      SortIsListing(rs[..n]);
      assert rs == rs[..n] + [rs[n]];
      var sorted := SortByPath(rs[..n]);
      forall i | 0 <= i < |sorted| ensures sorted[i].path != rs[n].path {
        assert sorted[i] in multiset(sorted);
        var k :| 0 <= k < n && rs[..n][k] == sorted[i];
      }
      InsertSortedIsSorted(rs[n], sorted);
    }
  }

  /** The same records in another order weigh the same and describe the same tree. */
  lemma SortedListing(rs: seq<Record>, t: Tree)
    requires Distinct(rs)
    requires forall i :: 0 <= i < |rs| ==> rs[i].path in t && t[rs[i].path] == rs[i].node
    requires forall p :: p in t ==> Record(p, t[p]) in rs
    ensures IsListing(SortByPath(rs), t)
  {
    SortIsListing(rs);
    var s := SortByPath(rs);
    SortedIsDistinct(s);
    forall i | 0 <= i < |s| ensures s[i].path in t && t[s[i].path] == s[i].node {
      assert s[i] in multiset(s);
    }
    forall p | p in t ensures exists i :: 0 <= i < |s| && s[i].path == p {
      assert Record(p, t[p]) in multiset(rs);
      var i :| 0 <= i < |s| && s[i] == Record(p, t[p]);
      assert s[i].path == p;
    }
    ToTreeIs(s, t);
  }

  /** Every tree has a listing. */
  ghost function Listing(t: Tree): (rs: seq<Record>)
    ensures IsListing(rs, t)
  {
    var raw := AnyOrder(t);
    SortedListing(raw, t);
    SortByPath(raw)
  }

  ghost function AnyOrder(t: Tree): (rs: seq<Record>)
    ensures Distinct(rs)
    ensures forall i :: 0 <= i < |rs| ==> rs[i].path in t && t[rs[i].path] == rs[i].node
    ensures forall p :: p in t ==> Record(p, t[p]) in rs
    decreases |t|
  {
    if t == map[] then []
    else
      var p :| p in t;
      assert |t - {p}| == |t| - 1 by { SmallerMap(t, p); }
      var rest := AnyOrder(t - {p});
      assert forall q :: q in t && q != p ==> q in t - {p} && Record(q, t[q]) in rest;
      rest + [Record(p, t[p])]
  }

  lemma SmallerMap(t: Tree, p: Path)
    requires p in t
    ensures |t - {p}| == |t| - 1
  {
    assert (t - {p}).Keys == t.Keys - {p};
    assert |t| == |t.Keys|;
    assert |t - {p}| == |(t - {p}).Keys|;
  }

  lemma ListingOf(rs: seq<Record>)
    requires StrictlySorted(rs)
    ensures Listing(ToTree(rs)) == rs
  {
    ListingUnique(Listing(ToTree(rs)), rs, ToTree(rs));
  }

  // ---- The subtree below a directory ----

  predicate Under(p: Path, d: Path)
    decreases |p|
  {
    p != ROOT && (Parent(p) == d || Under(Parent(p), d))
  }

  /** The child of `d` on the way to `p`. */
  function ChildToward(p: Path, d: Path): (c: Path)
    requires Under(p, d)
    ensures c != ROOT && Parent(c) == d && (p == c || Under(p, c))
    decreases |p|
  {
    if Parent(p) == d then p else ChildToward(Parent(p), d)
  }

  lemma {:induction false} UnderIsLonger(p: Path, d: Path)
    requires Under(p, d)
    ensures |d| < |p| && d <= p
    decreases |p|
  {
    if Parent(p) != d {
      UnderIsLonger(Parent(p), d);
    }
  }

  lemma {:induction false} UnderRoot(p: Path)
    requires p != ROOT
    ensures Under(p, ROOT)
    decreases |p|
  {
    if Parent(p) != ROOT {
      UnderRoot(Parent(p));
    }
  }

  /** A path lies under a directory exactly when it is, or lies under, one of that directory's children. */
  lemma {:induction false} UnderThrough(p: Path, c: Path, d: Path)
    requires c != ROOT && Parent(c) == d
    requires p == c || Under(p, c)
    ensures Under(p, d) && ChildToward(p, d) == c
    decreases |p|
  {
    if p != c {
      UnderIsLonger(p, c);
      assert |d| < |c|;
      if Parent(p) != c {
        UnderThrough(Parent(p), c, d);
        UnderIsLonger(Parent(p), c);
      } 
      assert Parent(p) != d;
    }
  }

  ghost function Below(t: Tree, d: Path): set<Path> { set p | p in t && Under(p, d) }

  ghost function Children(t: Tree, d: Path): set<Path> { set p | p in t && p != ROOT && Parent(p) == d }

  /** The part of the subtree below `d` that is reached through the children in `done`. */
  ghost function Covered(t: Tree, d: Path, done: set<Path>): set<Path>
  {
    set p | p in t && Under(p, d) && ChildToward(p, d) in done
  }

  lemma CoverOne(t: Tree, d: Path, done: set<Path>, c: Path)
    requires Rooted(t) && c in Children(t, d) && c !in done
    ensures Covered(t, d, done + {c}) == Covered(t, d, done) + {c} + Below(t, c)
    ensures Covered(t, d, done) !! ({c} + Below(t, c))
    ensures c !in Below(t, c)
    ensures !t[c].Directory? ==> Below(t, c) == {}
  {
    forall p | p in t && (p == c || Under(p, c)) ensures Under(p, d) && ChildToward(p, d) == c {
      UnderThrough(p, c, d);
    }
    if Under(c, c) {
      UnderIsLonger(c, c);
    }
    if p :| p in Below(t, c) {
      TopDirectory(t, p, c);
    }
  }

  lemma {:induction false} TopDirectory(t: Tree, p: Path, c: Path)
    requires Rooted(t) && p in t && c != ROOT && Under(p, c)
    ensures c in t && t[c].Directory?
    decreases |p|
  {
    if Parent(p) != c {
      TopDirectory(t, Parent(p), c);
    }
  }

  lemma CoverAll(t: Tree, d: Path, done: set<Path>)
    requires Rooted(t) && Children(t, d) <= done
    ensures Covered(t, d, done) == Below(t, d)
  {
    forall p | p in t && Under(p, d) ensures ChildToward(p, d) in done {
      ChildInTree(t, p, d);
    }
  }

  lemma {:induction false} ChildInTree(t: Tree, p: Path, d: Path)
    requires Rooted(t) && p in t && Under(p, d)
    ensures ChildToward(p, d) in t
    decreases |p|
  {
    if Parent(p) != d {
      assert Parent(p) != ROOT;
      ChildInTree(t, Parent(p), d);
    }
  }
}

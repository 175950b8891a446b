/** Symlink containment: following any chain of links in an accepted tree stays inside the extraction root. */
module Containment {
  import opened Bytes
  import opened PathText
  import opened FileTree
  import opened AppTreeFormat
  import opened AppTreeLaws

  datatype Walked = Escaped | Dangling | OutOfFuel | Reached(place: seq<Segment>)

  /** POSIX resolution of `rest` from the real directory `base`, following links; each link costs one fuel. */
  function Walk(t: Tree, base: seq<Segment>, rest: seq<Segment>, fuel: nat): Walked
    decreases fuel, |rest|
  {
    if rest == [] then Reached(base)
    else if rest[0] == DOT_DOT then
      if base == [] then Escaped else Walk(t, base[..|base| - 1], rest[1..], fuel)
    else
      var here := base + [rest[0]];
      if Join(here) !in t then Dangling
      else match t[Join(here)]
        case Directory(_) => Walk(t, here, rest[1..], fuel)
        case Symlink(_, target) => if fuel == 0 then OutOfFuel else Walk(t, base, Split(target) + rest[1..], fuel - 1)
        case _ => if |rest| == 1 then Reached(here) else Dangling
  }

  /** Every link carries leading parents only, and no more of them than its own directory is deep. */
  ghost predicate LinksBounded(t: Tree)
  {
    forall p :: p in t && t[p].Symlink? ==>
      CanonicalTarget(Split(t[p].target)) && LeadingParents(Split(t[p].target)) <= Depth(p)
  }

  predicate AreSegments(s: seq<Segment>) { forall i :: 0 <= i < |s| ==> IsSegment(s[i]) }

  /** Parents first, then no more parents; and no more of them than there are directories to leave. */
  predicate ClimbsAtMost(rest: seq<Segment>, depth: nat)
  {
    && LeadingParents(rest) <= depth
    && forall i :: LeadingParents(rest) <= i < |rest| ==> rest[i] != DOT_DOT
  }

  lemma AppendPlain(target: seq<Segment>, rest: seq<Segment>, depth: nat)
    requires CanonicalTarget(target) && LeadingParents(target) <= depth
    requires forall i :: 0 <= i < |rest| ==> rest[i] != DOT_DOT
    ensures ClimbsAtMost(target + rest, depth)
  {
    LeadingParentsOfPrefix(target, rest);
    var both := target + rest;
    forall i | LeadingParents(both) <= i < |both| ensures both[i] != DOT_DOT {
      if i < |target| {
        assert PlainSegment(target[i]);
      }
    }
  }

  lemma {:induction false} LeadingParentsOfPrefix(target: seq<Segment>, rest: seq<Segment>)
    requires forall i :: 0 <= i < |rest| ==> rest[i] != DOT_DOT
    ensures LeadingParents(target + rest) == LeadingParents(target)
  {
    if target == [] {
      assert target + rest == rest;
    } else {
      assert (target + rest)[1..] == target[1..] + rest;
      LeadingParentsOfPrefix(target[1..], rest);
    }
  }

  /** The walk never leaves the root, through any number of links, and what it reaches is a node of the tree. */
  lemma {:induction false} WalkStaysInside(t: Tree, base: seq<Segment>, rest: seq<Segment>, fuel: nat)
    requires LinksBounded(t)
    requires AreSegments(base) && AreSegments(rest) && ClimbsAtMost(rest, |base|)
    ensures var w := Walk(t, base, rest, fuel);
      && w != Escaped
      && (w.Reached? ==> w.place == [] || w.place <= base || Join(w.place) in t)
    decreases fuel, |rest|
  {
    if rest == [] {
    } else if rest[0] == DOT_DOT {
      WalkStaysInside(t, base[..|base| - 1], rest[1..], fuel);
    } else {
      assert LeadingParents(rest) == 0;
      var here := base + [rest[0]];
      if Join(here) in t {
        match t[Join(here)] {
          case Directory(_) =>
            WalkFromChild(t, base, rest, fuel);
          case Symlink(_, target) =>
            if fuel > 0 {
              WalkThroughLink(t, base, rest, fuel);
            }
          case _ =>
        }
      }
    }
  }

  lemma {:induction false} WalkFromChild(t: Tree, base: seq<Segment>, rest: seq<Segment>, fuel: nat)
    requires LinksBounded(t) && rest != []
    requires AreSegments(base) && AreSegments(rest) && ClimbsAtMost(rest, |base|) && rest[0] != DOT_DOT
    requires Join(base + [rest[0]]) in t
    ensures var w := Walk(t, base + [rest[0]], rest[1..], fuel);
      && w != Escaped
      && (w.Reached? ==> w.place == [] || w.place <= base || Join(w.place) in t)
    decreases fuel, |rest|, 0
  {
    var here := base + [rest[0]];
    assert LeadingParents(rest) == 0;
    if |rest| > 1 {
      assert rest[1..][0] == rest[1];
    }
    WalkStaysInside(t, here, rest[1..], fuel);
    var w := Walk(t, here, rest[1..], fuel);
    if w.Reached? && w.place <= here && w.place != here {
      assert w.place == here[..|w.place|] == base[..|w.place|];
    }
  }

  lemma {:induction false} WalkThroughLink(t: Tree, base: seq<Segment>, rest: seq<Segment>, fuel: nat)
    requires LinksBounded(t) && rest != [] && fuel > 0
    requires AreSegments(base) && AreSegments(rest) && ClimbsAtMost(rest, |base|) && rest[0] != DOT_DOT
    requires Join(base + [rest[0]]) in t && t[Join(base + [rest[0]])].Symlink?
    ensures var w := Walk(t, base, Split(t[Join(base + [rest[0]])].target) + rest[1..], fuel - 1);
      && w != Escaped
      && (w.Reached? ==> w.place == [] || w.place <= base || Join(w.place) in t)
    decreases fuel, |rest|, 0
  {
    var here := base + [rest[0]];
    var target := Split(t[Join(here)].target);
    SplitJoin(here);
    assert Depth(Join(here)) == |base|;
    AppendPlain(target, rest[1..], |base|);
    WalkStaysInside(t, base, target + rest[1..], fuel - 1);
  }

  predicate NamesOnly(rest: seq<Segment>)
  {
    AreSegments(rest) && forall i :: 0 <= i < |rest| ==> rest[i] != DOT_DOT
  }

  lemma NamesClimbNothing(rest: seq<Segment>)
    requires NamesOnly(rest)
    ensures ClimbsAtMost(rest, 0)
  {
  }

  lemma AcceptedLinksAreBounded(a: seq<Byte>, decl: Declaration, host: Host)
    requires ExtractedTree(a, decl, host).Some?
    ensures LinksBounded(ExtractedTree(a, decl, host).value)
  {
    hide CanonicalSyntax, CanonicalTarget, ValidPath;
    var rs := Extracted(a, decl, host).value;
    AcceptsExactlyThePrinted(a, rs, decl, host);
    var t := ToTree(rs);
    SortedIsDistinct(rs);
    ToTreeKeys(rs);
    forall p | p in t && t[p].Symlink?
      ensures CanonicalTarget(Split(t[p].target)) && LeadingParents(Split(t[p].target)) <= Depth(p)
    {
      var i :| 0 <= i < |rs| && rs[i].path == p;
      ToTreeNode(rs, i);
      assert ValidRecord(rs[i], host);
    }
  }

  /** In an accepted tree every path of names, however many links it crosses, stays inside the root. */
  lemma AcceptedTreeContainsItsLinks(a: seq<Byte>, decl: Declaration, host: Host, rest: seq<Segment>, fuel: nat)
    requires ExtractedTree(a, decl, host).Some?
    requires NamesOnly(rest)
    ensures var t := ExtractedTree(a, decl, host).value;
      && Walk(t, [], rest, fuel) != Escaped
      && (Walk(t, [], rest, fuel).Reached? ==>
            var place := Walk(t, [], rest, fuel).place; place == [] || Join(place) in t)
  {
    AcceptedLinksAreBounded(a, decl, host);
    NamesClimbNothing(rest);
    WalkStaysInside(ExtractedTree(a, decl, host).value, [], rest, fuel);
  }

  // ---- The depth test is also necessary ----

  /** Paths of plain segments and targets of parents followed by plain segments. */
  ghost predicate CanonicalNames(t: Tree)
  {
    && (forall p :: p in t ==> forall i :: 0 <= i < |Split(p)| ==> PlainSegment(Split(p)[i]))
    && (forall p :: p in t && t[p].Symlink? ==> CanonicalTarget(Split(t[p].target)))
  }

  lemma {:induction false} ClimbEscapes(t: Tree, base: seq<Segment>, rest: seq<Segment>, fuel: nat)
    requires LeadingParents(rest) > |base|
    ensures Walk(t, base, rest, fuel) == Escaped
    decreases |rest|
  {
    if base != [] {
      ClimbEscapes(t, base[..|base| - 1], rest[1..], fuel);
    }
  }

  lemma ParentOfJoin(base: seq<Segment>, name: Segment)
    requires base != [] && base[0] != [] && IsSegment(name)
    ensures Parent(Join(base + [name])) == Join(base) != ROOT
  {
    JoinAppend(base, name);
    ParentOfChild(Join(base), name);
  }

  /** Every node that is no link is where its path leads. */
  lemma WalkReachesNode(t: Tree, p: Path, fuel: nat)
    requires Rooted(t) && p in t && !t[p].Symlink?
    requires forall s :: s in Split(p) ==> PlainSegment(s)
    ensures Walk(t, [], Split(p), fuel) == Reached(Split(p))
  {
    var segments := Split(p);
    var n := |segments| - 1;
    JoinSplit(p);
    forall i | 0 <= i < |segments| ensures PlainSegment(segments[i]) {
      assert segments[i] in segments;
    }
    WalkToDirectory(t, segments, 0, fuel);
    assert segments[0..] == segments && segments[..0] == [];
    assert segments[n..] == [segments[n]] && segments[..n] + [segments[n]] == segments;
    assert Walk(t, segments, [], fuel) == Reached(segments);
  }

  /** Walking the directories above a node arrives at the node's own directory. */
  lemma {:induction false} WalkToDirectory(t: Tree, segments: seq<Segment>, k: nat, fuel: nat)
    requires Rooted(t) && 0 < |segments| && k < |segments|
    requires AreSegments(segments) && forall i :: 0 <= i < |segments| ==> PlainSegment(segments[i])
    requires Join(segments) in t
    ensures k > 0 ==> Join(segments[..k]) in t && t[Join(segments[..k])].Directory?
    ensures Walk(t, segments[..k], segments[k..], fuel)
         == Walk(t, segments[..|segments| - 1], segments[|segments| - 1..], fuel)
    decreases |segments| - k
  {
    var next := segments[..k + 1];
    assert next == segments[..k] + [segments[k]];
    if k + 1 < |segments| {
      WalkToDirectory(t, segments, k + 1, fuel);
      assert segments[k..][1..] == segments[k + 1..];
    } else {
      assert next == segments;
    }
    if k > 0 {
      ParentOfJoin(segments[..k], segments[k]);
    }
  }

  /** A link with more leading parents than directories above it leads out of the root when followed. */
  lemma LinkBeyondDepthEscapes(t: Tree, p: Path, fuel: nat)
    requires Rooted(t) && CanonicalNames(t) && p in t && t[p].Symlink? && fuel > 0
    requires LeadingParents(Split(t[p].target)) > Depth(p)
    ensures NamesOnly(Split(p)) && Walk(t, [], Split(p), fuel) == Escaped
  {
    var segments := Split(p);
    JoinSplit(p);
    var n := |segments| - 1;
    WalkToDirectory(t, segments, 0, fuel);
    assert segments[..0] == [] && segments[0..] == segments;
    assert segments[..n] + [segments[n..][0]] == segments;
    var target := Split(t[p].target);
    assert target + segments[n..][1..] == target;
    ClimbEscapes(t, segments[..n], target, fuel - 1);
  }

  /** The depth test is exactly what containment needs: it passes for every link of a tree if and only if no
      path of names, at any fuel, escapes. */
  lemma ContainmentIsExact(t: Tree)
    requires Rooted(t) && CanonicalNames(t)
    ensures LinksBounded(t) <==> forall rest, fuel :: NamesOnly(rest) ==> Walk(t, [], rest, fuel) != Escaped
  {
    if LinksBounded(t) {
      forall rest, fuel | NamesOnly(rest) ensures Walk(t, [], rest, fuel) != Escaped {
        NamesClimbNothing(rest);
        WalkStaysInside(t, [], rest, fuel);
      }
    } else {
      var p :| p in t && t[p].Symlink? && LeadingParents(Split(t[p].target)) > Depth(p);
      LinkBeyondDepthEscapes(t, p, 1);
    }
  }
}

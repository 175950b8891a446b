/** Relative POSIX paths as octet strings: splitting, parents, and the archive's syntax rules. */
module PathText {
  import opened Bytes

  type Path = seq<Byte>
  type Segment = seq<Byte>

  const SLASH: Byte := 0x2F
  const BACKSLASH: Byte := 0x5C
  const DOT: Segment := [0x2E]
  const DOT_DOT: Segment := [0x2E, 0x2E]
  const ROOT: Path := []

  const MAX_PATH_BYTES := 4 * 1024

  /** What the code takes from its host: the shortest-form UTF-8 and NFC test (section 3 of RFC 3629),
      the case- and normalisation-folding alias key, and whether `lchmod` exists. */
  datatype Host = Host(canonicalText: seq<Byte> -> bool, aliasKey: Path -> seq<Byte>, lchmod: bool)

  // ---- Splitting and joining ----

  predicate IsSegment(s: Segment) { SLASH !in s }

  function Split(b: seq<Byte>): (segments: seq<Segment>)
    ensures |segments| > 0
    ensures forall i :: 0 <= i < |segments| ==> IsSegment(segments[i])
  {
    if b == [] then [[]]
    else if b[0] == SLASH then [[]] + Split(b[1..])
    else var tail := Split(b[1..]); [[b[0]] + tail[0]] + tail[1..]
  }

  function Join(segments: seq<Segment>): seq<Byte>
    requires |segments| > 0
  {
    if |segments| == 1 then segments[0] else segments[0] + [SLASH] + Join(segments[1..])
  }

  lemma {:induction false} JoinAppend(base: seq<Segment>, name: Segment)
    requires base != []
    ensures Join(base + [name]) == Join(base) + [SLASH] + name
  {
    assert (base + [name])[1..] == base[1..] + [name];
    if |base| > 1 {
      JoinAppend(base[1..], name);
    }
  }

  lemma {:induction false} JoinSplit(b: seq<Byte>)
    ensures Join(Split(b)) == b
  {
    if b != [] {
      JoinSplit(b[1..]);
      var tail := Split(b[1..]);
      if b[0] == SLASH {
        assert Split(b)[1..] == tail;
      } else {
        assert Split(b)[1..] == tail[1..];
      }
    }
  }

  lemma {:induction false} SplitCons(s: Segment, rest: seq<Byte>)
    requires IsSegment(s)
    ensures Split(s + [SLASH] + rest) == [s] + Split(rest)
  {
    var whole := s + [SLASH] + rest;
    if s == [] {
      assert whole[1..] == rest;
    } else {
      SplitCons(s[1..], rest);
      assert whole[1..] == s[1..] + [SLASH] + rest;
      assert [s[0]] + s[1..] == s;
    }
  }

  lemma {:induction false} SplitSegment(s: Segment)
    requires IsSegment(s)
    ensures Split(s) == [s]
  {
    if s != [] {
      SplitSegment(s[1..]);
      assert [s[0]] + s[1..] == s;
    }
  }

  lemma {:induction false} SplitJoin(segments: seq<Segment>)
    requires |segments| > 0
    requires forall s :: s in segments ==> IsSegment(s)
    ensures Split(Join(segments)) == segments
  {
    if |segments| == 1 {
      SplitSegment(segments[0]);
    } else {
      SplitJoin(segments[1..]);
      SplitCons(segments[0], Join(segments[1..]));
      assert segments == [segments[0]] + segments[1..];
    }
  }

  // ---- Parents ----

  /** `path.posix.dirname`, with the extraction root written as the empty path instead of ".". */
  function Parent(p: Path): (d: Path)
    ensures |d| <= |p|
    ensures p != [] ==> |d| < |p| && d < p
  {
    if p == [] then ROOT
    else if p[|p| - 1] == SLASH then p[..|p| - 1]
    else Parent(p[..|p| - 1])
  }

  /** A directory's path followed by one of its entry names. */
  function Child(d: Path, name: Segment): Path
  {
    if d == ROOT then name else d + [SLASH] + name
  }

  function Name(p: Path): (name: Segment)
    ensures IsSegment(name)
    ensures p != [] && p[0] != SLASH ==> p == Child(Parent(p), name)
  {
    if p == [] || p[|p| - 1] == SLASH then []
    else
      var shorter := p[..|p| - 1];
      assert p == shorter + [p[|p| - 1]];
      Name(shorter) + [p[|p| - 1]]
  }

  lemma {:induction false} ParentOfChild(d: Path, name: Segment)
    requires IsSegment(name)
    ensures Parent(Child(d, name)) == d
  {
    var p := Child(d, name);
    if name == [] {
      assert d != ROOT ==> p[..|p| - 1] == d;
    } else {
      var shorter := name[..|name| - 1];
      assert p[..|p| - 1] == Child(d, shorter);
      assert p[|p| - 1] == name[|name| - 1] && p[|p| - 1] != SLASH;
      ParentOfChild(d, shorter);
    }
  }

  /** The ancestors a walk from the root visits are the prefixes that end before a slash; the last is the parent. */
  lemma {:induction false} ParentIsLastPrefix(p: Path, i: nat)
    requires i < |p| && p[i] == SLASH
    ensures p[..i] == Parent(p) || (i < |Parent(p)| && Parent(p)[i] == SLASH && p[..i] == Parent(p)[..i])
  {
    if i < |p| - 1 && p[|p| - 1] != SLASH {
      var shorter := p[..|p| - 1];
      ParentIsLastPrefix(shorter, i);
      assert shorter[..i] == p[..i];
    } else if i < |p| - 1 {
      assert Parent(p)[..i] == p[..i];
    }
  }

  // ---- Syntax rules ----

  predicate HasDoubleSlash(b: seq<Byte>)
  {
    exists i :: 0 <= i < |b| - 1 && b[i] == SLASH && b[i + 1] == SLASH
  }

  /** The tests shared by `validatePath` and `validateSymlinkTarget`. */
  predicate CanonicalSyntax(b: seq<Byte>, host: Host)
  {
    && 0 < |b| <= MAX_PATH_BYTES
    && host.canonicalText(b)
    && 0 !in b
    && b[0] != SLASH
    && BACKSLASH !in b
    && b[|b| - 1] != SLASH
    && !HasDoubleSlash(b)
  }

  predicate PlainSegment(s: Segment) { s != [] && s != DOT && s != DOT_DOT }

  /** `validatePath` accepts. */
  predicate ValidPath(b: seq<Byte>, host: Host)
  {
    CanonicalSyntax(b, host) && forall s :: s in Split(b) ==> PlainSegment(s)
  }

  /** How many ".." segments a target starts with. */
  function LeadingParents(segments: seq<Segment>): (n: nat)
    ensures n <= |segments|
    ensures forall i :: 0 <= i < n ==> segments[i] == DOT_DOT
    ensures n < |segments| ==> segments[n] != DOT_DOT
  {
    if segments == [] || segments[0] != DOT_DOT then 0 else 1 + LeadingParents(segments[1..])
  }

  /** Leading parents, then plain segments only. */
  predicate CanonicalTarget(segments: seq<Segment>)
  {
    forall i :: LeadingParents(segments) <= i < |segments| ==> PlainSegment(segments[i])
  }

  /** How many directories above a path lie inside the root. */
  function Depth(p: Path): nat { |Split(p)| - 1 }

  /** `validateSymlinkTarget` accepts. */
  predicate ValidTarget(target: seq<Byte>, link: Path, host: Host)
  {
    && CanonicalSyntax(target, host)
    && CanonicalTarget(Split(target))
    && LeadingParents(Split(target)) <= Depth(link)
  }

  /** The body of `validateSymlinkTarget`, with its two loops. */
  method ValidateSymlinkTarget(target: seq<Byte>, link: Path, host: Host) returns (ok: bool)
    ensures ok <==> ValidTarget(target, link, host)
  {
    if !CanonicalSyntax(target, host) {
      return false;
    }
    var segments := Split(target);
    var leadingParents := 0;
    while leadingParents < |segments| && segments[leadingParents] == DOT_DOT
      invariant leadingParents <= |segments|
      invariant leadingParents + LeadingParents(segments[leadingParents..]) == LeadingParents(segments)
    {
      assert segments[leadingParents..][1..] == segments[leadingParents + 1..];
      leadingParents := leadingParents + 1;
    }
    if exists i :: 0 <= i < |segments| && (i < leadingParents ==> segments[i] != DOT_DOT)
                   && (i >= leadingParents ==> !PlainSegment(segments[i])) {
      return false;
    }
    var resolved := Split(link);
    resolved := resolved[..|resolved| - 1];
    for index := 0 to leadingParents
      invariant |resolved| == Depth(link) - index
    {
      if resolved == [] {
        return false;
      }
      resolved := resolved[..|resolved| - 1];
    }
    return true;
  }

  // ---- The accepted texts, spelled out ----

  function Slashed(names: seq<Segment>): seq<Byte>
    requires names != []
  {
    if |names| == 1 then names[0] else names[0] + [0x2F] + Slashed(names[1..])
  }

  /** Neither empty nor "." nor "..", and without a slash. */
  predicate IsName(s: Segment) { s != [] && s != [0x2E] && s != [0x2E, 0x2E] && 0x2F !in s }

  /** At most 4096 octets of canonical text, without NUL and backslash. */
  predicate IsPlainText(b: seq<Byte>, host: Host) { |b| <= 4096 && host.canonicalText(b) && 0 !in b && 0x5C !in b }

  lemma {:induction false} SlashedIsJoin(names: seq<Segment>)
    requires names != []
    ensures Slashed(names) == Join(names)
  {
    if |names| > 1 {
      SlashedIsJoin(names[1..]);
    }
  }

  /** Segments that are not empty make no double slash, and no slash at either end. */
  lemma {:induction false} JoinedEnds(names: seq<Segment>)
    requires names != [] && forall i :: 0 <= i < |names| ==> names[i] != [] && IsSegment(names[i])
    ensures var b := Join(names); b != [] && b[0] != SLASH && b[|b| - 1] != SLASH && !HasDoubleSlash(b)
  {
    if |names| > 1 {
      var tail := Join(names[1..]);
      JoinedEnds(names[1..]);
      var b := names[0] + [SLASH] + tail;
      forall i | 0 <= i < |b| - 1 ensures !(b[i] == SLASH && b[i + 1] == SLASH) {
        if i > |names[0]| {
          assert b[i] == tail[i - |names[0]| - 1] && b[i + 1] == tail[i - |names[0]|];
        }
      }
    }
  }

  /** A path is accepted exactly if it is names with slashes between them, in plain text. */
  lemma ValidPathSpelled(b: seq<Byte>, host: Host)
    ensures ValidPath(b, host) <==>
      IsPlainText(b, host) && exists names :: names != [] && b == Slashed(names) && forall s :: s in names ==> IsName(s)
  {
    if ValidPath(b, host) {
      JoinSplit(b);
      SlashedIsJoin(Split(b));
      forall s | s in Split(b) ensures IsName(s) {
        assert PlainSegment(s);
      }
    }
    if names :| names != [] && b == Slashed(names) && forall s :: s in names ==> IsName(s) {
      SlashedIsJoin(names);
      SplitJoin(names);
      forall i | 0 <= i < |names| ensures IsName(names[i]) {
      }
      JoinedEnds(names);
    }
  }

  /** How many slashes a path has. */
  lemma {:induction false} DepthSpelled(p: Path)
    ensures Depth(p) == multiset(p)[0x2F]
  {
    if p != [] {
      DepthSpelled(p[1..]);
      assert p == [p[0]] + p[1..];
      assert multiset(p) == multiset{p[0]} + multiset(p[1..]);
    }
  }

  /** Some ".." and then names. */
  predicate ClimbsThenNames(segments: seq<Segment>, up: nat)
  {
    && up <= |segments| && segments != []
    && (forall i :: 0 <= i < up ==> segments[i] == [0x2E, 0x2E])
    && (forall i :: up <= i < |segments| ==> IsName(segments[i]))
  }

  /** A target is accepted exactly if it climbs at its start only, no further than the link has slashes, and goes on with
      names, in plain text. */
  lemma ValidTargetSpelled(target: seq<Byte>, link: Path, host: Host)
    ensures ValidTarget(target, link, host) <==>
      IsPlainText(target, host)
      && exists segments, up: nat :: ClimbsThenNames(segments, up) && target == Slashed(segments) && up <= multiset(link)[0x2F]
  {
    DepthSpelled(link);
    hide Depth, Slashed, ValidTarget;
    if ValidTarget(target, link, host) {
      TargetIsClimbsThenNames(target, link, host);
    }
    if segments, up: nat :| ClimbsThenNames(segments, up) && target == Slashed(segments) && up <= multiset(link)[0x2F] {
      if IsPlainText(target, host) {
        ClimbsThenNamesIsTarget(segments, up, link, host);
      }
    }
  }

  lemma TargetIsClimbsThenNames(target: seq<Byte>, link: Path, host: Host)
    requires ValidTarget(target, link, host)
    ensures IsPlainText(target, host) && LeadingParents(Split(target)) <= Depth(link)
    ensures ClimbsThenNames(Split(target), LeadingParents(Split(target))) && target == Slashed(Split(target))
  {
    hide Depth, HasDoubleSlash;
    JoinSplit(target);
    SlashedIsJoin(Split(target));
  }

  lemma ClimbsThenNamesIsTarget(segments: seq<Segment>, up: nat, link: Path, host: Host)
    requires ClimbsThenNames(segments, up) && up <= Depth(link) && IsPlainText(Slashed(segments), host)
    ensures ValidTarget(Slashed(segments), link, host)
  {
    hide Depth, HasDoubleSlash, Slashed, Join;
    SlashedIsJoin(segments);
    forall s | s in segments ensures IsSegment(s) {
    }
    SplitJoin(segments);
    JoinedEnds(segments);
    LeadingParentsAre(segments, up);
  }

  lemma {:induction false} LeadingParentsAre(segments: seq<Segment>, up: nat)
    requires ClimbsThenNames(segments, up)
    ensures LeadingParents(segments) == up
  {
    if up > 0 && |segments| > 1 {
      LeadingParentsAre(segments[1..], up - 1);
    }
  }
}

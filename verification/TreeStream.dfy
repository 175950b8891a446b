/** The byte stream `inspectDirectory` feeds to its hash, and why it determines the tree. */
module TreeStream {
  import opened FileTree
  import opened AppTreeFormat
  import opened Json

  function TypeName(n: Node): Text
  {
    match n
    case Directory(_) => Ascii("directory")
    case File(_, _) => Ascii("file")
    case Symlink(_, _) => Ascii("symlink")
    case Special(_) => Ascii("special")
  }

  // The JSON text of a frame, field by field, each continued by what follows it.

  function SizeField(size: nat, rest: Text): Text { Ascii(",\"size\":") + (Decimal(size) + (Ascii("}") + rest)) }

  function ModeField(mode: nat, size: nat, rest: Text): Text
  {
    Ascii(",\"mode\":") + (Decimal(mode) + SizeField(size, rest))
  }

  function PathField(path: Text, mode: nat, size: nat, rest: Text): Text
  {
    Ascii(",\"relativePath\":") + (Quote(path) + ModeField(mode, size, rest))
  }

  /** `hashFrame`: the JSON object, then one NUL, then `rest`. */
  function Frame(kind: Text, path: Text, mode: nat, size: nat, rest: Text): Text
  {
    Ascii("{\"type\":") + (Quote(kind) + PathField(path, mode, size, [0] + rest))
  }

  /** What one entry contributes: its frame, and for files and links their content and a NUL. */
  function Section(r: Record, rest: Text): Text
  {
    var n := r.node;
    Frame(TypeName(n), r.path, n.mode, |Payload(n)|, if n.Directory? then rest else Payload(n) + ([0] + rest))
  }

  function Stream(rs: seq<Record>): Text
  {
    if rs == [] then [] else Section(rs[0], Stream(rs[1..]))
  }

  // ---- One frame can be read back ----

  lemma SizeFieldUnique(m: nat, n: nat, a: Text, b: Text)
    requires SizeField(m, a) == SizeField(n, b)
    ensures m == n && a == b
  {
    Cancel(Ascii(",\"size\":"), Decimal(m) + (Ascii("}") + a), Decimal(n) + (Ascii("}") + b));
    assert !StartsWithDigit(Ascii("}") + a) && !StartsWithDigit(Ascii("}") + b);
    DecimalUnique(m, n, Ascii("}") + a, Ascii("}") + b);
    Cancel(Ascii("}"), a, b);
  }

  lemma ModeFieldUnique(m: nat, n: nat, k: nat, l: nat, a: Text, b: Text)
    requires ModeField(m, k, a) == ModeField(n, l, b)
    ensures m == n && k == l && a == b
  {
    Cancel(Ascii(",\"mode\":"), Decimal(m) + SizeField(k, a), Decimal(n) + SizeField(l, b));
    assert Ascii(",\"size\":")[0] == COMMA;
    assert !StartsWithDigit(SizeField(k, a)) && !StartsWithDigit(SizeField(l, b));
    DecimalUnique(m, n, SizeField(k, a), SizeField(l, b));
    SizeFieldUnique(k, l, a, b);
  }

  lemma FrameUnique(kind: Text, path: Text, mode: nat, size: nat, a: Text, kind': Text, path': Text, mode': nat,
                    size': nat, b: Text)
    requires Frame(kind, path, mode, size, a) == Frame(kind', path', mode', size', b)
    ensures kind == kind' && path == path' && mode == mode' && size == size' && a == b
  {
    var x, y := PathField(path, mode, size, [0] + a), PathField(path', mode', size', [0] + b);
    Cancel(Ascii("{\"type\":"), Quote(kind) + x, Quote(kind') + y);
    QuoteUnique(kind, kind', x, y);
    var v, w := ModeField(mode, size, [0] + a), ModeField(mode', size', [0] + b);
    Cancel(Ascii(",\"relativePath\":"), Quote(path) + v, Quote(path') + w);
    QuoteUnique(path, path', v, w);
    ModeFieldUnique(mode, mode', size, size', [0] + a, [0] + b);
    Cancel([0], a, b);
  }

  lemma TypeNameUnique(m: Node, n: Node)
    requires TypeName(m) == TypeName(n)
    ensures (m.Directory? <==> n.Directory?) && (m.File? <==> n.File?) && (m.Symlink? <==> n.Symlink?)
  {
    assert |Ascii("directory")| == 9 && |Ascii("file")| == 4;
    assert Ascii("symlink")[1] == 'y' as nat && Ascii("special")[1] == 'p' as nat;
  }

  /** The frame carries the content length, so content is cut off at the right place even if it holds NULs. */
  lemma SectionUnique(r: Record, s: Record, a: Text, b: Text)
    requires Section(r, a) == Section(s, b)
    requires !r.node.Special? && !s.node.Special?
    ensures r == s && a == b
  {
    hide Frame, TypeName;
    var m, n := r.node, s.node;
    var x := if m.Directory? then a else Payload(m) + ([0] + a);
    var y := if n.Directory? then b else Payload(n) + ([0] + b);
    FrameUnique(TypeName(m), r.path, m.mode, |Payload(m)|, x, TypeName(n), s.path, n.mode, |Payload(n)|, y);
    TypeNameUnique(m, n);
    if !m.Directory? {
      CancelSameLength(Payload(m), Payload(n), [0] + a, [0] + b);
      Cancel([0], a, b);
    }
  }

  lemma FrameIsNotEmpty(r: Record, rest: Text)
    ensures Section(r, rest) != []
  {
    assert |Ascii("{\"type\":")| > 0;
  }

  /** The stream determines the entries: paths, kinds, modes, sizes, contents and link targets. */
  lemma {:induction false} StreamUnique(rs: seq<Record>, ss: seq<Record>)
    requires Ordinary(rs) && Ordinary(ss)
    requires Stream(rs) == Stream(ss)
    ensures rs == ss
  {
    hide Section;
    if rs == [] || ss == [] {
      if rs != [] { FrameIsNotEmpty(rs[0], Stream(rs[1..])); }
      if ss != [] { FrameIsNotEmpty(ss[0], Stream(ss[1..])); }
    } else {
      SectionUnique(rs[0], ss[0], Stream(rs[1..]), Stream(ss[1..]));
      StreamUnique(rs[1..], ss[1..]);
      assert rs == [rs[0]] + rs[1..] && ss == [ss[0]] + ss[1..];
    }
  }

  /** Two trees whose streams agree, each listed in whatever order, are the same tree. */
  lemma StreamDeterminesTree(t: Tree, u: Tree, rs: seq<Record>, ss: seq<Record>)
    requires Ordinary(rs) && Ordinary(ss)
    requires ToTree(rs) == t && ToTree(ss) == u
    requires Stream(rs) == Stream(ss)
    ensures t == u
  {
    StreamUnique(rs, ss);
  }

  // ---- Appending ----

  lemma SizeFieldAppend(size: nat, a: Text, b: Text)
    ensures SizeField(size, a + b) == SizeField(size, a) + b
  {
    assert Ascii("}") + (a + b) == (Ascii("}") + a) + b;
    assert Decimal(size) + ((Ascii("}") + a) + b) == (Decimal(size) + (Ascii("}") + a)) + b;
  }

  lemma ModeFieldAppend(mode: nat, size: nat, a: Text, b: Text)
    ensures ModeField(mode, size, a + b) == ModeField(mode, size, a) + b
  {
    hide SizeField;
    SizeFieldAppend(size, a, b);
    assert Decimal(mode) + (SizeField(size, a) + b) == (Decimal(mode) + SizeField(size, a)) + b;
  }

  lemma FrameAppend(kind: Text, path: Text, mode: nat, size: nat, a: Text, b: Text)
    ensures Frame(kind, path, mode, size, a + b) == Frame(kind, path, mode, size, a) + b
  {
    hide ModeField;
    var tail := ModeField(mode, size, [0] + a);
    assert [0] + (a + b) == ([0] + a) + b;
    ModeFieldAppend(mode, size, [0] + a, b);
    assert Quote(path) + (tail + b) == (Quote(path) + tail) + b;
    assert PathField(path, mode, size, ([0] + a) + b) == PathField(path, mode, size, [0] + a) + b;
    assert Quote(kind) + (PathField(path, mode, size, [0] + a) + b) == (Quote(kind) + PathField(path, mode, size, [0] + a)) + b;
  }

  lemma SectionAppend(r: Record, a: Text, b: Text)
    ensures Section(r, a + b) == Section(r, a) + b
  {
    hide Frame;
    var n := r.node;
    var x := if n.Directory? then a else Payload(n) + ([0] + a);
    assert Payload(n) + ([0] + (a + b)) == Payload(n) + ([0] + a) + b;
    FrameAppend(TypeName(n), r.path, n.mode, |Payload(n)|, x, b);
  }

  lemma {:induction false} StreamAppend(rs: seq<Record>, r: Record)
    ensures Stream(rs + [r]) == Stream(rs) + Section(r, [])
  {
    hide Section;
    if rs == [] {
      assert rs + [r] == [r] && [r][1..] == [];
      SectionAppend(r, [], []);
    } else {
      assert (rs + [r])[1..] == rs[1..] + [r];
      StreamAppend(rs[1..], r);
      SectionAppend(rs[0], Stream(rs[1..]), Section(r, []));
    }
  }

  /** The pieces a hash is updated with, in order: the frame, the content, the closing NUL. */
  lemma SectionPieces(r: Record)
    ensures Section(r, []) ==
      Frame(TypeName(r.node), r.path, r.node.mode, |Payload(r.node)|, [])
      + if r.node.Directory? then [] else Payload(r.node) + [0]
  {
    hide Frame;
    var n := r.node;
    FrameAppend(TypeName(n), r.path, n.mode, |Payload(n)|, [], Payload(n) + [0]);
    assert [] + (Payload(n) + [0]) == Payload(n) + ([0] + []);
  }
}

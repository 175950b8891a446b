/** Octet strings: big-endian integers and the unsigned lexicographic order of `Buffer.compare`. */
module Bytes {

  type Byte = n: nat | n < 256

  /** `Number.MAX_SAFE_INTEGER` */
  const MAX_SAFE_INTEGER := 0x1F_FFFF_FFFF_FFFF

  // ---- Big-endian integers ----

  /** 256 to the power `width`. */
  function Range(width: nat): (r: nat)
    ensures r > 0
  {
    if width == 0 then 1 else Range(width - 1) * 256
  }

  /** `width` octets of `n`, most significant first (`writeUInt32BE`, `writeBigUInt64BE`). */
  function BigEndian(n: nat, width: nat): (bs: seq<Byte>)
    ensures |bs| == width
  {
    if width == 0 then [] else BigEndian(n / 256, width - 1) + [n % 256]
  }

  /** `readUInt32BE`, `readBigUInt64BE`. */
  function FromBigEndian(bs: seq<Byte>): (n: nat)
    ensures n < Range(|bs|)
  {
    if bs == [] then 0 else FromBigEndian(bs[..|bs| - 1]) * 256 + bs[|bs| - 1]
  }

  lemma {:induction false} ReadWritten(n: nat, width: nat)
    requires n < Range(width)
    ensures FromBigEndian(BigEndian(n, width)) == n
  {
    if width > 0 {
      ReadWritten(n / 256, width - 1);
      assert BigEndian(n, width)[..width - 1] == BigEndian(n / 256, width - 1);
    }
  }

  lemma {:induction false} WriteRead(bs: seq<Byte>)
    ensures BigEndian(FromBigEndian(bs), |bs|) == bs
  {
    if bs != [] {
      WriteRead(bs[..|bs| - 1]);
      assert bs == bs[..|bs| - 1] + [bs[|bs| - 1]];
    }
  }

  lemma Range4()
    ensures Range(4) == 0x1_0000_0000
  {
    assert Range(1) == 256;
    assert Range(2) == 65536;
    assert Range(3) == 16777216;
  }

  lemma Range8()
    ensures Range(8) == 0x1_0000_0000_0000_0000
  {
    Range4();
    assert Range(5) == 0x100_0000_0000;
    assert Range(6) == 0x1_0000_0000_0000;
    assert Range(7) == 0x100_0000_0000_0000;
  }

  // ---- Order ----

  /** `Buffer.compare(a, b) < 0`; also the UTF-16 code-unit order of strings. */
  predicate Less(a: seq<nat>, b: seq<nat>)
  {
    b != [] && (a == [] || a[0] < b[0] || (a[0] == b[0] && Less(a[1..], b[1..])))
  }

  lemma {:induction false} LessIrreflexive(a: seq<nat>)
    ensures !Less(a, a)
  {
    if a != [] {
      LessIrreflexive(a[1..]);
    }
  }

  lemma {:induction false} LessTransitive(a: seq<nat>, b: seq<nat>, c: seq<nat>)
    requires Less(a, b) && Less(b, c)
    ensures Less(a, c)
  {
    if a != [] && a[0] == b[0] == c[0] {
      LessTransitive(a[1..], b[1..], c[1..]);
    }
  }

  lemma {:induction false} LessTotal(a: seq<nat>, b: seq<nat>)
    ensures a == b || Less(a, b) || Less(b, a)
  {
    if a != [] && b != [] && a[0] == b[0] {
      LessTotal(a[1..], b[1..]);
      assert a == [a[0]] + a[1..] && b == [b[0]] + b[1..];
    }
  }

  /** A proper prefix sorts first: this puts a directory before everything inside it. */
  lemma {:induction false} PrefixLess(a: seq<nat>, b: seq<nat>)
    requires a < b
    ensures Less(a, b)
  {
    if a != [] {
      assert a[1..] < b[1..];
      PrefixLess(a[1..], b[1..]);
    }
  }

  // ---- Locale order ----

  /** The order of names; `localeCompare` is taken to be a strict total order on them. */
  type NameOrder = (seq<Byte>, seq<Byte>) -> bool

  ghost predicate StrictTotal(before: NameOrder)
  {
    && (forall a :: !before(a, a))
    && (forall a, b :: a == b || before(a, b) || before(b, a))
    && (forall a, b, c :: before(a, b) && before(b, c) ==> before(a, c))
  }
}

/** The fragments of `JSON.stringify` the code relies on, over UTF-16 code units: quoted strings and decimal
    integers, each with a reader that inverts it. Text below U+0100 stands for itself as octets, so the same
    definitions serve UTF-8 byte strings: only ASCII characters are ever escaped. */
module Json {
  import opened Options

  type Unit = u: nat | u < 0x10000
  type Text = seq<Unit>

  /** A hash of text, given as text: lower-case hexadecimal. */
  type TextHash = Text -> Text

  const QUOTE: Unit := 0x22
  const BACKSLASH: Unit := 0x5C
  const COMMA: Unit := 0x2C
  const LOWER_U: Unit := 0x75

  // ---- Strings ----

  /** The text of an ASCII literal. */
  function Ascii(s: string): (t: Text)
    requires forall i :: 0 <= i < |s| ==> s[i] < 128 as char
    ensures |t| == |s|
    ensures forall i :: 0 <= i < |t| ==> t[i] < 128
  {
    seq(|s|, i requires 0 <= i < |s| => s[i] as nat)
  }

  predicate IsHigh(u: Unit) { 0xD800 <= u < 0xDC00 }

  predicate IsLow(u: Unit) { 0xDC00 <= u < 0xE000 }

  /** Lower-case hexadecimal digit. */
  function HexDigit(d: nat): Unit
    requires d < 16
  {
    if d < 10 then 0x30 + d else 0x61 + d - 10
  }

  function HexValue(u: Unit): Option<nat>
  {
    if 0x30 <= u < 0x3A then Some(u - 0x30)
    else if 0x61 <= u < 0x67 then Some(u - 0x61 + 10)
    else None
  }

  function UnicodeEscape(u: Unit): Text
  {
    [BACKSLASH, LOWER_U, HexDigit(u / 16 / 16 / 16), HexDigit(u / 16 / 16 % 16), HexDigit(u / 16 % 16), HexDigit(u % 16)]
  }

  /** The letter of a two-character escape, if the unit has one. */
  function ShortEscape(u: Unit): Option<Unit>
  {
    if u == QUOTE || u == BACKSLASH then Some(u)
    else if u == 0x08 then Some(0x62)
    else if u == 0x09 then Some(0x74)
    else if u == 0x0A then Some(0x6E)
    else if u == 0x0C then Some(0x66)
    else if u == 0x0D then Some(0x72)
    else None
  }

  function EscapeUnit(u: Unit): Text
  {
    match ShortEscape(u)
    case Some(letter) => [BACKSLASH, letter]
    case None => if u < 0x20 || IsHigh(u) || IsLow(u) then UnicodeEscape(u) else [u]
  }

  /** Escapes quotes, backslashes, control characters and lone surrogates. */
  function Escape(s: Text): Text
  {
    if s == [] then []
    else if |s| > 1 && IsHigh(s[0]) && IsLow(s[1]) then [s[0], s[1]] + Escape(s[2..])
    else EscapeUnit(s[0]) + Escape(s[1..])
  }

  /** `JSON.stringify` of a string. */
  function Quote(s: Text): Text { [QUOTE] + Escape(s) + [QUOTE] }

  function Unescaped(letter: Unit): Option<Unit>
  {
    if letter == QUOTE || letter == BACKSLASH then Some(letter)
    else if letter == 0x62 then Some(0x08)
    else if letter == 0x74 then Some(0x09)
    else if letter == 0x6E then Some(0x0A)
    else if letter == 0x66 then Some(0x0C)
    else if letter == 0x72 then Some(0x0D)
    else None
  }

  function UnicodeValue(text: Text): Option<Unit>
    requires |text| >= 6
  {
    var a :- HexValue(text[2]);
    var b :- HexValue(text[3]);
    var c :- HexValue(text[4]);
    var d :- HexValue(text[5]);
    if a < 16 && b < 16 && c < 16 && d < 16 then Some(a * 0x1000 + b * 0x100 + c * 0x10 + d) else None
  }

  /** Reads escaped text up to its closing quote; returns the string and what follows the quote. */
  function ReadEscaped(text: Text): (r: Option<(Text, Text)>)
    ensures r.Some? ==> |r.value.1| < |text|
  {
    if text == [] then None
    else if text[0] == QUOTE then Some(([], text[1..]))
    else if text[0] != BACKSLASH then
      var tail :- ReadEscaped(text[1..]);
      Some(([text[0]] + tail.0, tail.1))
    else if |text| >= 2 && text[1] != LOWER_U then
      var u :- Unescaped(text[1]);
      var tail :- ReadEscaped(text[2..]);
      Some(([u] + tail.0, tail.1))
    else if |text| >= 6 then
      var u :- UnicodeValue(text);
      var tail :- ReadEscaped(text[6..]);
      Some(([u] + tail.0, tail.1))
    else None
  }

  function ReadQuoted(text: Text): (r: Option<(Text, Text)>)
    ensures r.Some? ==> |r.value.1| < |text|
  {
    if text == [] || text[0] != QUOTE then None else ReadEscaped(text[1..])
  }

  lemma HexRoundTrip(d: nat)
    requires d < 16
    ensures HexValue(HexDigit(d)) == Some(d)
  {
  }

  lemma UnicodeRoundTrip(u: Unit, rest: Text)
    ensures UnicodeValue(UnicodeEscape(u) + rest) == Some(u)
  {
    HexRoundTrip(u / 16 / 16 / 16);
    HexRoundTrip(u / 16 / 16 % 16);
    HexRoundTrip(u / 16 % 16);
    HexRoundTrip(u % 16);
    hide HexDigit, HexValue;
  }

  lemma ReadEscapedUnit(u: Unit, rest: Text)
    requires ReadEscaped(rest).Some?
    ensures ReadEscaped(EscapeUnit(u) + rest) == Some(([u] + ReadEscaped(rest).value.0, ReadEscaped(rest).value.1))
  {
    var text := EscapeUnit(u) + rest;
    if ShortEscape(u).Some? {
      assert text[2..] == rest;
    } else if u < 0x20 || IsHigh(u) || IsLow(u) {
      UnicodeRoundTrip(u, rest);
      assert text[6..] == rest;
    } else {
      assert text[1..] == rest;
    }
  }

  lemma ReadPair(high: Unit, low: Unit, rest: Text)
    requires IsHigh(high) && IsLow(low) && ReadEscaped(rest).Some?
    ensures ReadEscaped([high, low] + rest) ==
            Some(([high, low] + ReadEscaped(rest).value.0, ReadEscaped(rest).value.1))
  {
    var text := [high, low] + rest;
    assert text[1..] == [low] + rest && text[1..][1..] == rest;
    var inner := ReadEscaped(rest).value.0;
    assert ReadEscaped(text[1..]) == Some(([low] + inner, ReadEscaped(rest).value.1));
    assert [high] + ([low] + inner) == [high, low] + inner;
  }

  lemma {:induction false} ReadEscape(s: Text, rest: Text)
    ensures ReadEscaped(Escape(s) + [QUOTE] + rest) == Some((s, rest))
  {
    hide EscapeUnit;
    var text := Escape(s) + [QUOTE] + rest;
    if s == [] {
      assert text[1..] == rest;
    } else if |s| > 1 && IsHigh(s[0]) && IsLow(s[1]) {
      ReadEscape(s[2..], rest);
      ReadPair(s[0], s[1], Escape(s[2..]) + [QUOTE] + rest);
      assert text == [s[0], s[1]] + (Escape(s[2..]) + [QUOTE] + rest);
      assert [s[0], s[1]] + s[2..] == s;
    } else {
      ReadEscape(s[1..], rest);
      assert text == EscapeUnit(s[0]) + (Escape(s[1..]) + [QUOTE] + rest);
      ReadEscapedUnit(s[0], Escape(s[1..]) + [QUOTE] + rest);
      assert [s[0]] + s[1..] == s;
    }
  }

  /** A quoted string is read back, and its end found, whatever follows it. */
  lemma ReadQuote(s: Text, rest: Text)
    ensures ReadQuoted(Quote(s) + rest) == Some((s, rest))
  {
    ReadEscape(s, rest);
    assert (Quote(s) + rest)[1..] == Escape(s) + [QUOTE] + rest;
  }

  // ---- Integers ----

  predicate IsDigit(u: Unit) { 0x30 <= u < 0x3A }

  predicate IsHex(u: Unit) { IsDigit(u) || 0x61 <= u <= 0x66 }

  /** A SHA-256 digest in lower-case hexadecimal. */
  predicate HexText(s: Text) { |s| == 64 && forall i :: 0 <= i < |s| ==> IsHex(s[i]) }

  predicate StartsWithDigit(text: Text) { text != [] && IsDigit(text[0]) }

  function Decimal(n: nat): (t: Text)
    ensures |t| > 0
    ensures forall i :: 0 <= i < |t| ==> IsDigit(t[i])
  {
    if n < 10 then [0x30 + n] else Decimal(n / 10) + [0x30 + n % 10]
  }

  /** Reads digits onto a value; returns the number and what follows it. */
  function ReadDigits(text: Text, value: nat): (r: (nat, Text))
    ensures |r.1| <= |text|
    ensures StartsWithDigit(text) ==> |r.1| < |text|
    decreases |text|
  {
    if StartsWithDigit(text) then ReadDigits(text[1..], value * 10 + (text[0] - 0x30)) else (value, text)
  }

  lemma {:induction false} ReadDecimalOnto(n: nat, rest: Text)
    ensures ReadDigits(Decimal(n) + rest, 0) == ReadDigits(rest, n)
  {
    if n < 10 {
      assert (Decimal(n) + rest)[1..] == rest;
    } else {
      var tail := [0x30 + n % 10] + rest;
      assert Decimal(n) + rest == Decimal(n / 10) + tail;
      ReadDecimalOnto(n / 10, tail);
      assert tail[1..] == rest;
    }
  }

  lemma ReadDecimal(n: nat, rest: Text)
    requires !StartsWithDigit(rest)
    ensures ReadDigits(Decimal(n) + rest, 0) == (n, rest)
  {
    ReadDecimalOnto(n, rest);
  }

  lemma {:induction false} ReadDigitsAppend(s: Text, u: Unit, value: nat)
    requires (forall i :: 0 <= i < |s| ==> IsDigit(s[i])) && IsDigit(u)
    ensures ReadDigits(s, value).1 == [] && ReadDigits(s + [u], value) == (ReadDigits(s, value).0 * 10 + (u - 0x30), [])
    decreases |s|
  {
    if s == [] {
      assert (s + [u])[1..] == [];
    } else {
      ReadDigitsAppend(s[1..], u, value * 10 + (s[0] - 0x30));
      assert (s + [u])[1..] == s[1..] + [u];
    }
  }

  /** Digits without a leading zero are the decimal text of the number they spell. */
  lemma {:induction false} DecimalOfDigits(s: Text)
    requires s != [] && (forall i :: 0 <= i < |s| ==> IsDigit(s[i])) && (s[0] == 0x30 ==> |s| == 1)
    ensures Decimal(ReadDigits(s, 0).0) == s && (ReadDigits(s, 0).0 == 0 ==> s == [0x30])
    decreases |s|
  {
    var n := |s| - 1;
    ReadDigitsAppend(s[..n], s[n], 0);
    assert s == s[..n] + [s[n]];
    if n > 0 {
      DecimalOfDigits(s[..n]);
    } else {
      assert ReadDigits([], 0) == (0, []);
    }
  }

  // ---- Unique decomposition ----

  /** A common prefix can be cancelled. */
  lemma Cancel<T>(prefix: seq<T>, a: seq<T>, b: seq<T>)
    requires prefix + a == prefix + b
    ensures a == b
  {
    assert (prefix + a)[|prefix|..] == a;
    assert (prefix + b)[|prefix|..] == b;
  }

  lemma CancelSameLength<T>(x: seq<T>, y: seq<T>, a: seq<T>, b: seq<T>)
    requires |x| == |y| && x + a == y + b
    ensures x == y && a == b
  {
    assert (x + a)[..|x|] == x && (y + b)[..|y|] == y;
    Cancel(x, a, b);
  }

  /** What stands before the first separator can be read off. */
  lemma SeparatedUnique(separator: Unit, a: Text, b: Text, x: Text, y: Text)
    requires separator !in a && separator !in b
    requires a + [separator] + x == b + [separator] + y
    ensures a == b && x == y
  {
    var whole := a + [separator] + x;
    assert whole[|a|] == separator && whole[|b|] == separator;
    assert a + [separator] + x == a + ([separator] + x) && b + [separator] + y == b + ([separator] + y);
    CancelSameLength(a, b, [separator] + x, [separator] + y);
    Cancel([separator], x, y);
  }

  lemma QuoteUnique(s: Text, t: Text, a: Text, b: Text)
    requires Quote(s) + a == Quote(t) + b
    ensures s == t && a == b
  {
    ReadQuote(s, a);
    ReadQuote(t, b);
  }

  lemma DecimalUnique(m: nat, n: nat, a: Text, b: Text)
    requires !StartsWithDigit(a) && !StartsWithDigit(b)
    requires Decimal(m) + a == Decimal(n) + b
    ensures m == n && a == b
  {
    ReadDecimal(m, a);
    ReadDecimal(n, b);
  }
}

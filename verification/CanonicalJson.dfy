/** `canonicalize`: text of a value with object keys sorted, and the parser that inverts it. */
module CanonicalJson {
  import opened Options
  import opened Bytes
  import opened Json

  /** Environment values; numbers are integers. An object is the list of its properties as they were added. */
  datatype Value =
    | Null
    | Bool(flag: bool)
    | Number(number: int)
    | String(text: Text)
    | Array(items: seq<Value>)
    | Object(fields: seq<Field>)

  datatype Field = Field(key: Text, value: Value)

  const COLON: Unit := 0x3A
  const MINUS: Unit := 0x2D
  const OPEN_ARRAY: Unit := 0x5B
  const CLOSE_ARRAY: Unit := 0x5D
  const OPEN_OBJECT: Unit := 0x7B
  const CLOSE_OBJECT: Unit := 0x7D
  const NULL_TEXT: Text := [0x6E, 0x75, 0x6C, 0x6C]
  const TRUE_TEXT: Text := [0x74, 0x72, 0x75, 0x65]
  const FALSE_TEXT: Text := [0x66, 0x61, 0x6C, 0x73, 0x65]

  /** An object has each key once. */
  predicate Proper(v: Value)
    decreases v
  {
    match v
    case Array(items) => forall i :: 0 <= i < |items| ==> Proper(items[i])
    case Object(fields) => UniqueKeys(fields) && forall i :: 0 <= i < |fields| ==> Proper(fields[i].value)
    case _ => true
  }

  predicate UniqueKeys(fields: seq<Field>) { forall i, j :: 0 <= i < j < |fields| ==> fields[i].key != fields[j].key }

  /** Equal up to the order of object keys, at every depth. */
  predicate Same(v: Value, w: Value)
    decreases v
  {
    match v
    case Array(items) =>
      w.Array? && |items| == |w.items| && forall i :: 0 <= i < |items| ==> Same(items[i], w.items[i])
    case Object(fields) =>
      && w.Object?
      && (forall i :: 0 <= i < |fields| ==> FoundIn(fields[i], w.fields))
      && (forall j :: 0 <= j < |w.fields| ==> Covers(fields, w.fields[j]))
    case _ => v == w
  }

  predicate FoundIn(f: Field, others: seq<Field>)
    decreases f
  {
    exists j :: 0 <= j < |others| && f.key == others[j].key && Same(f.value, others[j].value)
  }

  predicate Covers(fields: seq<Field>, other: Field)
    decreases fields, 0
  {
    exists i :: 0 <= i < |fields| && fields[i].key == other.key && Same(fields[i].value, other.value)
  }

  // ---- The printer ----

  function NumberText(n: int): Text { if n < 0 then [MINUS] + Decimal(-n) else Decimal(n) }

  datatype Entry = Entry(key: Text, text: Text)

  function InsertEntry(e: Entry, es: seq<Entry>): seq<Entry>
  {
    if es == [] || Less(e.key, es[0].key) then [e] + es else [es[0]] + InsertEntry(e, es[1..])
  }

  /** The entries of an object, by key in code-unit order. */
  function SortedEntries(fields: seq<Field>): seq<Entry>
    decreases fields
  {
    if fields == [] then []
    else InsertEntry(Entry(fields[0].key, Canonicalize(fields[0].value)), SortedEntries(fields[1..]))
  }

  function JoinEntries(es: seq<Entry>): Text
  {
    if es == [] then []
    else Quote(es[0].key) + [COLON] + es[0].text + (if |es| == 1 then [] else [COMMA] + JoinEntries(es[1..]))
  }

  function JoinItems(items: seq<Value>): Text
    decreases items
  {
    if items == [] then []
    else Canonicalize(items[0]) + (if |items| == 1 then [] else [COMMA] + JoinItems(items[1..]))
  }

  function Canonicalize(v: Value): Text
    decreases v
  {
    match v
    case Null => NULL_TEXT
    case Bool(flag) => if flag then TRUE_TEXT else FALSE_TEXT
    case Number(n) => NumberText(n)
    case String(t) => Quote(t)
    case Array(items) => [OPEN_ARRAY] + JoinItems(items) + [CLOSE_ARRAY]
    case Object(fields) => [OPEN_OBJECT] + JoinEntries(SortedEntries(fields)) + [CLOSE_OBJECT]
  }

  // ---- The normal form ----

  function InsertField(f: Field, fields: seq<Field>): seq<Field>
  {
    if fields == [] || Less(f.key, fields[0].key) then [f] + fields else [fields[0]] + InsertField(f, fields[1..])
  }

  function NormalFields(fields: seq<Field>): seq<Field>
    decreases fields
  {
    if fields == [] then []
    else InsertField(Field(fields[0].key, Normal(fields[0].value)), NormalFields(fields[1..]))
  }

  function NormalItems(items: seq<Value>): (r: seq<Value>)
    ensures |r| == |items|
    decreases items
  {
    if items == [] then [] else [Normal(items[0])] + NormalItems(items[1..])
  }

  /** The same value with its object keys in code-unit order. */
  function Normal(v: Value): Value
    decreases v
  {
    match v
    case Array(items) => Array(NormalItems(items))
    case Object(fields) => Object(NormalFields(fields))
    case _ => v
  }

  function PrintFields(fields: seq<Field>): Text
    decreases fields
  {
    if fields == [] then []
    else Quote(fields[0].key) + [COLON] + Print(fields[0].value)
         + (if |fields| == 1 then [] else [COMMA] + PrintFields(fields[1..]))
  }

  function PrintItems(items: seq<Value>): Text
    decreases items
  {
    if items == [] then []
    else Print(items[0]) + (if |items| == 1 then [] else [COMMA] + PrintItems(items[1..]))
  }

  /** `JSON.stringify`: properties in the order they have. */
  function Print(v: Value): Text
    decreases v
  {
    match v
    case Null => NULL_TEXT
    case Bool(flag) => if flag then TRUE_TEXT else FALSE_TEXT
    case Number(n) => NumberText(n)
    case String(t) => Quote(t)
    case Array(items) => [OPEN_ARRAY] + PrintItems(items) + [CLOSE_ARRAY]
    case Object(fields) => [OPEN_OBJECT] + PrintFields(fields) + [CLOSE_OBJECT]
  }

  function EntriesOf(fields: seq<Field>): (es: seq<Entry>)
    ensures |es| == |fields|
    ensures forall i :: 0 <= i < |es| ==> es[i] == Entry(fields[i].key, Print(fields[i].value))
  {
    if fields == [] then [] else [Entry(fields[0].key, Print(fields[0].value))] + EntriesOf(fields[1..])
  }

  lemma {:induction false} InsertMatches(f: Field, fields: seq<Field>)
    ensures InsertEntry(Entry(f.key, Print(f.value)), EntriesOf(fields)) == EntriesOf(InsertField(f, fields))
  {
    hide Print, Less;
    if fields != [] {
      assert EntriesOf(fields)[1..] == EntriesOf(fields[1..]);
      InsertMatches(f, fields[1..]);
    }
  }

  lemma {:induction false} JoinMatches(fields: seq<Field>)
    ensures JoinEntries(EntriesOf(fields)) == PrintFields(fields)
  {
    hide Print, Quote;
    if fields != [] {
      assert EntriesOf(fields)[1..] == EntriesOf(fields[1..]);
      JoinMatches(fields[1..]);
    }
  }

  lemma {:induction false} SortedMatches(fields: seq<Field>)
    ensures SortedEntries(fields) == EntriesOf(NormalFields(fields))
    decreases fields
  {
    hide Print, Canonicalize;
    if fields != [] {
      SortedMatches(fields[1..]);
      CanonicalIsPrintedNormal(fields[0].value);
      InsertMatches(Field(fields[0].key, Normal(fields[0].value)), NormalFields(fields[1..]));
    }
  }

  lemma {:induction false} ItemsMatch(items: seq<Value>)
    ensures JoinItems(items) == PrintItems(NormalItems(items))
    decreases items
  {
    hide Print, Canonicalize;
    if items != [] {
      CanonicalIsPrintedNormal(items[0]);
      ItemsMatch(items[1..]);
      assert NormalItems(items)[1..] == NormalItems(items[1..]);
    }
  }

  /** Canonical text is the plain text of the normal form. */
  lemma {:induction false} CanonicalIsPrintedNormal(v: Value)
    ensures Canonicalize(v) == Print(Normal(v))
    decreases v
  {
    match v
    case Array(items) => ItemsMatch(items);
    case Object(fields) =>
      SortedMatches(fields);
      JoinMatches(NormalFields(fields));
    case _ =>
  }

  // ---- The parser ----

  function Literal(text: Text, word: Text, v: Value): (r: Option<(Value, Text)>)
    requires word != []
    ensures r.Some? ==> |r.value.1| < |text|
  {
    if |text| >= |word| && text[..|word|] == word then Some((v, text[|word|..])) else None
  }

  function ParseNumber(text: Text): (r: Option<(Value, Text)>)
    ensures r.Some? ==> |r.value.1| < |text|
  {
    if StartsWithDigit(text) then
      var (n, rest) := ReadDigits(text, 0); Some((Number(n), rest))
    else if text != [] && text[0] == MINUS && StartsWithDigit(text[1..]) then
      var r := ReadDigits(text[1..], 0); Some((Number(-(r.0 as int)), r.1))
    else None
  }

  /** Reads one value; returns it and what follows it. */
  function Parse(text: Text): (r: Option<(Value, Text)>)
    ensures r.Some? ==> |r.value.1| < |text|
    decreases |text|, 0
  {
    if text == [] then None
    else if text[0] == QUOTE then
      var t :- ReadQuoted(text); Some((String(t.0), t.1))
    else if text[0] == OPEN_ARRAY then
      if |text| > 1 && text[1] == CLOSE_ARRAY then Some((Array([]), text[2..]))
      else var items :- ParseItems(text[1..]); Some((Array(items.0), items.1))
    else if text[0] == OPEN_OBJECT then
      if |text| > 1 && text[1] == CLOSE_OBJECT then Some((Object([]), text[2..]))
      else var fields :- ParseFields(text[1..]); Some((Object(fields.0), fields.1))
    else if text[0] == 0x6E then Literal(text, NULL_TEXT, Null)
    else if text[0] == 0x74 then Literal(text, TRUE_TEXT, Bool(true))
    else if text[0] == 0x66 then Literal(text, FALSE_TEXT, Bool(false))
    else ParseNumber(text)
  }

  function ParseItems(text: Text): (r: Option<(seq<Value>, Text)>)
    ensures r.Some? ==> |r.value.1| < |text|
    decreases |text|, 1
  {
    var first :- Parse(text);
    if first.1 == [] then None
    else if first.1[0] == CLOSE_ARRAY then Some(([first.0], first.1[1..]))
    else if first.1[0] == COMMA then
      var more :- ParseItems(first.1[1..]); Some(([first.0] + more.0, more.1))
    else None
  }

  function ParseFields(text: Text): (r: Option<(seq<Field>, Text)>)
    ensures r.Some? ==> |r.value.1| < |text|
    decreases |text|, 1
  {
    var key :- ReadQuoted(text);
    if key.1 == [] || key.1[0] != COLON then None
    else
      var first :- Parse(key.1[1..]);
      if first.1 == [] then None
      else if first.1[0] == CLOSE_OBJECT then Some(([Field(key.0, first.0)], first.1[1..]))
      else if first.1[0] == COMMA then
        var more :- ParseFields(first.1[1..]); Some(([Field(key.0, first.0)] + more.0, more.1))
      else None
  }

  lemma FirstOfPrint(v: Value)
    ensures Print(v) != [] && Print(v)[0] != CLOSE_ARRAY
  {
  }

  lemma ParsePrintedNumber(n: int, rest: Text)
    requires !StartsWithDigit(rest)
    ensures Parse(NumberText(n) + rest) == Some((Number(n), rest))
  {
    hide ReadDigits, Decimal, Parse;
    var m := if n < 0 then -n else n;
    ReadDecimal(m, rest);
    var digits := Decimal(m) + rest;
    assert StartsWithDigit(digits);
    if n < 0 {
      assert NumberText(n) + rest == [MINUS] + digits;
      assert ([MINUS] + digits)[1..] == digits;
    }
    ParseIsNumber(NumberText(n) + rest);
  }

  lemma ParseIsNumber(text: Text)
    requires text != [] && (IsDigit(text[0]) || text[0] == MINUS)
    ensures Parse(text) == ParseNumber(text)
  {
    hide ParseNumber, ReadQuoted, Literal;
  }

  lemma ParsePrintedLeaf(v: Value, rest: Text)
    requires !v.Array? && !v.Object? && !v.Number?
    ensures Parse(Print(v) + rest) == Some((v, rest))
  {
    if v.String? {
      ReadQuote(v.text, rest);
      hide ReadQuoted, Escape;
    } else {
      assert (Print(v) + rest)[|Print(v)|..] == rest;
      assert (Print(v) + rest)[..|Print(v)|] == Print(v);
    }
  }

  lemma {:induction false} ParsePrintedItems(items: seq<Value>, rest: Text)
    requires items != []
    ensures ParseItems(PrintItems(items) + [CLOSE_ARRAY] + rest) == Some((items, rest))
    decreases items
  {
    hide Print, Parse;
    var text := PrintItems(items) + [CLOSE_ARRAY] + rest;
    if |items| == 1 {
      var tail := [CLOSE_ARRAY] + rest;
      assert text == Print(items[0]) + tail;
      ParsePrinted(items[0], tail);
      assert tail[1..] == rest && items == [items[0]];
    } else {
      var more := PrintItems(items[1..]) + [CLOSE_ARRAY] + rest;
      assert text == Print(items[0]) + ([COMMA] + more);
      ParsePrinted(items[0], [COMMA] + more);
      assert ([COMMA] + more)[1..] == more;
      ParsePrintedItems(items[1..], rest);
      assert [items[0]] + items[1..] == items;
    }
  }

  lemma {:induction false} ParsePrintedFields(fields: seq<Field>, rest: Text)
    requires fields != []
    ensures ParseFields(PrintFields(fields) + [CLOSE_OBJECT] + rest) == Some((fields, rest))
    decreases fields
  {
    hide Print, Parse, Quote, ReadQuoted, ParseFields;
    var f, tail := fields[0], TailText(fields, rest);
    PrintedByField(fields, rest);
    ParsePrinted(f.value, tail);
    FirstField(f, tail);
    if |fields| == 1 {
      assert tail[1..] == rest && fields == [f];
    } else {
      ParsePrintedFields(fields[1..], rest);
      assert tail[1..] == PrintFields(fields[1..]) + [CLOSE_OBJECT] + rest;
      assert [f] + fields[1..] == fields;
    }
  }

  /** What follows the first property of a list. */
  function TailText(fields: seq<Field>, rest: Text): Text
    requires fields != []
  {
    if |fields| == 1 then [CLOSE_OBJECT] + rest else [COMMA] + (PrintFields(fields[1..]) + [CLOSE_OBJECT] + rest)
  }

  lemma PrintedByField(fields: seq<Field>, rest: Text)
    requires fields != []
    ensures PrintFields(fields) + [CLOSE_OBJECT] + rest == FieldText(fields[0], TailText(fields, rest))
  {
    hide Print, Quote;
  }

  function FieldText(f: Field, tail: Text): Text { Quote(f.key) + ([COLON] + (Print(f.value) + tail)) }

  /** One property is read, then its end or the rest of the list. */
  lemma FirstField(f: Field, tail: Text)
    requires Parse(Print(f.value) + tail) == Some((f.value, tail)) && tail != []
    ensures tail[0] == CLOSE_OBJECT ==> ParseFields(FieldText(f, tail)) == Some(([f], tail[1..]))
    ensures tail[0] == COMMA && ParseFields(tail[1..]).Some? ==>
      ParseFields(FieldText(f, tail)) ==
      Some(([f] + ParseFields(tail[1..]).value.0, ParseFields(tail[1..]).value.1))
  {
    hide Print, Parse, Quote, ReadQuoted;
    ReadQuote(f.key, [COLON] + (Print(f.value) + tail));
    assert ([COLON] + (Print(f.value) + tail))[1..] == Print(f.value) + tail;
  }

  /** The parser inverts the printer, whatever follows the value. */
  lemma {:induction false} ParsePrinted(v: Value, rest: Text)
    requires !StartsWithDigit(rest)
    ensures Parse(Print(v) + rest) == Some((v, rest))
    decreases v
  {
    match v
    case Number(n) => ParsePrintedNumber(n, rest);
    case Array(items) =>
      var body := PrintItems(items) + [CLOSE_ARRAY] + rest;
      assert Print(v) + rest == [OPEN_ARRAY] + body;
      assert ([OPEN_ARRAY] + body)[1..] == body;
      if items == [] {
        assert body[1..] == rest && ([OPEN_ARRAY] + body)[2..] == rest;
      } else {
        FirstOfPrint(items[0]);
        ParsePrintedItems(items, rest);
        hide ParseItems, Print;
      }
    case Object(fields) =>
      var body := PrintFields(fields) + [CLOSE_OBJECT] + rest;
      assert Print(v) + rest == [OPEN_OBJECT] + body;
      assert ([OPEN_OBJECT] + body)[1..] == body;
      if fields == [] {
        assert body[1..] == rest && ([OPEN_OBJECT] + body)[2..] == rest;
      } else {
        ParsePrintedFields(fields, rest);
        hide ParseFields, Print;
      }
    case _ => ParsePrintedLeaf(v, rest);
  }

  // ---- Equal text means equal value ----

  predicate KeySorted(fields: seq<Field>) { forall i, j :: 0 <= i < j < |fields| ==> Less(fields[i].key, fields[j].key) }

  function NormalField(f: Field): Field { Field(f.key, Normal(f.value)) }

  lemma {:induction false} InsertedFields(f: Field, fields: seq<Field>)
    ensures forall x :: x in InsertField(f, fields) <==> x == f || x in fields
  {
    hide Less;
    if fields != [] && !Less(f.key, fields[0].key) {
      InsertedFields(f, fields[1..]);
    }
  }

  lemma {:induction false} InsertedSorted(f: Field, fields: seq<Field>)
    requires KeySorted(fields) && forall i :: 0 <= i < |fields| ==> fields[i].key != f.key
    ensures KeySorted(InsertField(f, fields))
  {
    hide Less;
    if fields == [] {
    } else if Less(f.key, fields[0].key) {
      forall j | 0 < j < |fields| ensures Less(f.key, fields[j].key) {
        LessTransitive(f.key, fields[0].key, fields[j].key);
      }
    } else {
      LessTotal(f.key, fields[0].key);
      InsertedSorted(f, fields[1..]);
      InsertedFields(f, fields[1..]);
      var rest := InsertField(f, fields[1..]);
      forall j | 0 <= j < |rest| ensures Less(fields[0].key, rest[j].key) {
        assert rest[j] == f || rest[j] in fields[1..];
      }
    }
  }

  lemma {:induction false} NormalFieldsAre(fields: seq<Field>)
    ensures forall x :: x in NormalFields(fields) <==> exists i :: 0 <= i < |fields| && x == NormalField(fields[i])
  {
    hide InsertField, Normal;
    if fields != [] {
      NormalFieldsAre(fields[1..]);
      InsertedFields(NormalField(fields[0]), NormalFields(fields[1..]));
      forall x ensures x in NormalFields(fields) <==> exists i :: 0 <= i < |fields| && x == NormalField(fields[i]) {
        if i :| 0 <= i < |fields| && x == NormalField(fields[i]) {
          assert i == 0 || x == NormalField(fields[1..][i - 1]);
        }
        if x in NormalFields(fields[1..]) {
          var i :| 0 <= i < |fields[1..]| && x == NormalField(fields[1..][i]);
          assert x == NormalField(fields[i + 1]);
        }
      }
    }
  }

  lemma {:induction false} NormalFieldsSorted(fields: seq<Field>)
    requires UniqueKeys(fields)
    ensures KeySorted(NormalFields(fields))
  {
    hide InsertField, Normal, Less;
    if fields != [] {
      NormalFieldsSorted(fields[1..]);
      NormalFieldsAre(fields[1..]);
      var rest := NormalFields(fields[1..]);
      forall i | 0 <= i < |rest| ensures rest[i].key != fields[0].key {
        assert rest[i] in rest;
        var j :| 0 <= j < |fields[1..]| && rest[i] == NormalField(fields[1..][j]);
        assert fields[1..][j] == fields[j + 1];
      }
      InsertedSorted(NormalField(fields[0]), rest);
    }
  }

  lemma SortedHeads(a: seq<Field>, b: seq<Field>)
    requires KeySorted(a) && KeySorted(b) && a != [] && b != [] && a[0] in b && b[0] in a
    ensures a[0] == b[0]
  {
    var i :| 0 <= i < |a| && a[i] == b[0];
    var j :| 0 <= j < |b| && b[j] == a[0];
    LessIrreflexive(a[0].key);
    hide Less;
    assert forall k :: 0 < k < |a| ==> Less(a[0].key, a[k].key);
    assert forall k :: 0 < k < |b| ==> Less(b[0].key, b[k].key);
    if i > 0 && j > 0 {
      LessTransitive(a[0].key, b[0].key, a[0].key);
    }
  }

  lemma TailMembers(a: seq<Field>)
    requires KeySorted(a) && a != []
    ensures forall x :: x in a[1..] <==> x in a && x != a[0]
  {
    LessIrreflexive(a[0].key);
    hide Less;
    assert forall k :: 0 < k < |a| ==> Less(a[0].key, a[k].key);
    forall x ensures x in a[1..] <==> x in a && x != a[0] {
      if k :| 0 <= k < |a[1..]| && x == a[1..][k] {
        assert x == a[k + 1];
      }
    }
  }

  lemma {:induction false} SortedFieldsUnique(a: seq<Field>, b: seq<Field>)
    requires KeySorted(a) && KeySorted(b) && forall x :: x in a <==> x in b
    ensures a == b
  {
    hide Less;
    if a == [] {
      assert forall k :: 0 <= k < |b| ==> b[k] in a;
    } else {
      assert a[0] in b && |b| > 0;
      assert b[0] in a;
      SortedHeads(a, b);
      TailMembers(a);
      TailMembers(b);
      SortedFieldsUnique(a[1..], b[1..]);
      assert a == [a[0]] + a[1..] && b == [b[0]] + b[1..];
    }
  }

  lemma {:induction false} NormalItemsAt(items: seq<Value>, i: nat)
    requires i < |items|
    ensures NormalItems(items)[i] == Normal(items[i])
  {
    hide Normal;
    if i > 0 {
      NormalItemsAt(items[1..], i - 1);
    }
  }

  lemma {:induction false} EqualNormalsAreSame(v: Value, w: Value)
    requires Normal(v) == Normal(w)
    ensures Same(v, w)
    decreases v
  {
    match v
    case Array(items) =>
      EqualNormalItems(items, w.items);
    case Object(fields) =>
      SameFieldsAt(fields, w.fields);
      hide FoundIn, Covers;
    case _ =>
  }

  lemma {:induction false} EqualNormalItems(a: seq<Value>, b: seq<Value>)
    requires NormalItems(a) == NormalItems(b)
    ensures |a| == |b| && forall i :: 0 <= i < |a| ==> Same(a[i], b[i])
    decreases a, 0
  {
    hide Normal, NormalItems;
    forall i | 0 <= i < |a| ensures Same(a[i], b[i]) {
      NormalItemsAt(a, i);
      NormalItemsAt(b, i);
      EqualNormalsAreSame(a[i], b[i]);
    }
  }

  lemma {:induction false} SameFieldsAt(f: seq<Field>, g: seq<Field>)
    requires NormalFields(f) == NormalFields(g)
    ensures forall i :: 0 <= i < |f| ==> FoundIn(f[i], g)
    ensures forall j :: 0 <= j < |g| ==> Covers(f, g[j])
    decreases f, 0
  {
    NormalFieldsAre(f);
    NormalFieldsAre(g);
    hide Normal, NormalFields, Same;
    forall i | 0 <= i < |f| ensures FoundIn(f[i], g) {
      assert NormalField(f[i]) in NormalFields(g);
      var j :| 0 <= j < |g| && NormalField(f[i]) == NormalField(g[j]);
      EqualNormalsAreSame(f[i].value, g[j].value);
    }
    forall j | 0 <= j < |g| ensures Covers(f, g[j]) {
      assert NormalField(g[j]) in NormalFields(f);
      var i :| 0 <= i < |f| && NormalField(g[j]) == NormalField(f[i]);
      EqualNormalsAreSame(f[i].value, g[j].value);
    }
  }

  lemma {:induction false} SameHasEqualNormals(v: Value, w: Value)
    requires Proper(v) && Proper(w) && Same(v, w)
    ensures Normal(v) == Normal(w)
    decreases v
  {
    match v
    case Array(items) =>
      forall i | 0 <= i < |items| ensures NormalItems(items)[i] == NormalItems(w.items)[i] {
        NormalItemsAt(items, i);
        NormalItemsAt(w.items, i);
        SameHasEqualNormals(items[i], w.items[i]);
      }
      assert NormalItems(items) == NormalItems(w.items);
    case Object(fields) =>
      EqualNormalFields(fields, w.fields);
    case _ =>
  }

  lemma {:induction false} NormalOfFound(f: Field, g: seq<Field>)
    requires Proper(f.value) && (forall j :: 0 <= j < |g| ==> Proper(g[j].value)) && FoundIn(f, g)
    ensures NormalField(f) in NormalFields(g)
    decreases f, 1
  {
    NormalFieldsAre(g);
    hide Normal, NormalFields, Proper;
    var j :| 0 <= j < |g| && f.key == g[j].key && Same(f.value, g[j].value);
    hide Same;
    SameHasEqualNormals(f.value, g[j].value);
    assert NormalField(f) == NormalField(g[j]);
  }

  lemma {:induction false} NormalOfCovered(f: seq<Field>, g: Field)
    requires Proper(g.value) && (forall i :: 0 <= i < |f| ==> Proper(f[i].value)) && Covers(f, g)
    ensures NormalField(g) in NormalFields(f)
    decreases f, 0
  {
    NormalFieldsAre(f);
    hide Normal, NormalFields, Proper;
    var i :| 0 <= i < |f| && f[i].key == g.key && Same(f[i].value, g.value);
    hide Same;
    SameHasEqualNormals(f[i].value, g.value);
    assert NormalField(f[i]) == NormalField(g);
  }

  lemma {:induction false} EqualNormalFields(f: seq<Field>, g: seq<Field>)
    requires Proper(Object(f)) && Proper(Object(g)) && Same(Object(f), Object(g))
    ensures NormalFields(f) == NormalFields(g)
    decreases f, 1
  {
    NormalFieldsSorted(f);
    NormalFieldsSorted(g);
    hide Normal, NormalFields, KeySorted, FoundIn, Covers, NormalField;
    forall i | 0 <= i < |f| ensures NormalField(f[i]) in NormalFields(g) {
      NormalOfFound(f[i], g);
    }
    forall j | 0 <= j < |g| ensures NormalField(g[j]) in NormalFields(f) {
      NormalOfCovered(f, g[j]);
    }
    hide Same, Proper;
    NormalFieldsAre(f);
    NormalFieldsAre(g);
    SortedFieldsUnique(NormalFields(f), NormalFields(g));
  }

  /** Canonical text is equal exactly for values equal up to the order of object keys. */
  lemma CanonicalIffSame(v: Value, w: Value)
    requires Proper(v) && Proper(w)
    ensures Canonicalize(v) == Canonicalize(w) <==> Same(v, w)
  {
    CanonicalIsPrintedNormal(v);
    CanonicalIsPrintedNormal(w);
    hide Canonicalize, Print, Normal, Same, Proper, Parse;
    if Canonicalize(v) == Canonicalize(w) {
      ParsePrinted(Normal(v), []);
      ParsePrinted(Normal(w), []);
      EqualNormalsAreSame(v, w);
    }
    if Same(v, w) {
      SameHasEqualNormals(v, w);
    }
  }

  /** The parser recovers a value from its canonical text, up to the order of object keys. */
  lemma ParseCanonical(v: Value)
    requires Proper(v)
    ensures Parse(Canonicalize(v)) == Some((Normal(v), [])) && Normal(Normal(v)) == Normal(v)
  {
    CanonicalIsPrintedNormal(v);
    ParsePrinted(Normal(v), []);
    assert Print(Normal(v)) + [] == Print(Normal(v));
    NormalIsNormal(v);
  }

  lemma {:induction false} NormalIsNormal(v: Value)
    requires Proper(v)
    ensures Normal(Normal(v)) == Normal(v)
    decreases v
  {
    match v
    case Array(items) =>
      var n := NormalItems(items);
      forall i | 0 <= i < |items| ensures NormalItems(n)[i] == n[i] {
        NormalItemsAt(items, i);
        NormalItemsAt(n, i);
        NormalIsNormal(items[i]);
      }
      assert NormalItems(n) == n;
    case Object(fields) =>
      NormalFieldsSorted(fields);
      NormalFieldsAre(fields);
      var n := NormalFields(fields);
      hide NormalFields, Normal;
      forall j | 0 <= j < |n| ensures NormalField(n[j]) == n[j] {
        assert n[j] in n;
        var i :| 0 <= i < |fields| && n[j] == NormalField(fields[i]);
        NormalIsNormal(fields[i].value);
      }
      SortedStays(n);
      NormalOfObject(n);
      NormalOfObject(fields);
    case _ =>
  }

  lemma NormalOfObject(fields: seq<Field>)
    ensures Normal(Object(fields)) == Object(NormalFields(fields))
  {
  }

  lemma {:induction false} SortedStays(fields: seq<Field>)
    requires KeySorted(fields) && forall j :: 0 <= j < |fields| ==> NormalField(fields[j]) == fields[j]
    ensures NormalFields(fields) == fields
  {
    hide Normal, Less;
    if fields != [] {
      SortedStays(fields[1..]);
      assert NormalField(fields[0]) == fields[0];
      assert |fields| > 1 ==> Less(fields[0].key, fields[1].key);
    }
  }
}

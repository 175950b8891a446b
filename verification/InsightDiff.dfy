/** `diffInsights`: the differences between two source lists, and why their number is a distance. */
module InsightDiff {
  import opened Options
  import opened Json
  import opened InsightSources
  import opened Sets

  datatype Operation = Added | Removed | Changed

  datatype Item = Item(operation: Operation, category: Category, before: Option<Source>, after: Option<Source>)

  datatype Group = Group(category: Category, count: nat)

  datatype Diff = Diff(items: seq<Item>, added: nat, removed: nat, changed: nat, total: nat, groups: seq<Group>)

  const CATEGORIES: seq<Category> := [ExpoConfig, NativeDependencies, NativeProject, ProjectMetadata, Other]

  function Rank(c: Category): nat
  {
    match c
    case ExpoConfig => 0
    case NativeDependencies => 1
    case NativeProject => 2
    case ProjectMetadata => 3
    case Other => 4
  }

  function CategoriesOf(s: Option<Source>): seq<Category> { if s.Some? then s.value.categories else [] }

  function FirstIn(order: seq<Category>, present: seq<Category>): Option<Category>
  {
    if order == [] then None else if order[0] in present then Some(order[0]) else FirstIn(order[1..], present)
  }

  function PrimaryCategory(before: Option<Source>, after: Option<Source>): Category
  {
    var first := FirstIn(CATEGORIES, CategoriesOf(before) + CategoriesOf(after));
    if first.Some? then first.value else Other
  }

  /** The most specific category either side has, whichever side is called before. */
  lemma PrimaryIsMostSpecific(before: Option<Source>, after: Option<Source>)
    ensures var all := CategoriesOf(before) + CategoriesOf(after);
            var primary := PrimaryCategory(before, after);
            && (all != [] ==> primary in all)
            && (forall c :: c in all ==> Rank(primary) <= Rank(c))
    ensures PrimaryCategory(before, after) == PrimaryCategory(after, before)
    ensures var all := CategoriesOf(before) + CategoriesOf(after);
            PrimaryCategory(before, after) ==
              if ExpoConfig in all then ExpoConfig
              else if NativeDependencies in all then NativeDependencies
              else if NativeProject in all then NativeProject
              else if ProjectMetadata in all then ProjectMetadata
              else Other
  {
    var all := CategoriesOf(before) + CategoriesOf(after);
    FirstInOrder(all);
    FirstInOrder(CategoriesOf(after) + CategoriesOf(before));
    assert all != [] ==> all[0] in all;
    assert forall c :: c in all <==> c in CategoriesOf(after) + CategoriesOf(before);
  }

  lemma FirstInOrder(present: seq<Category>)
    ensures FirstIn(CATEGORIES, present) ==
      if ExpoConfig in present then Some(ExpoConfig)
      else if NativeDependencies in present then Some(NativeDependencies)
      else if NativeProject in present then Some(NativeProject)
      else if ProjectMetadata in present then Some(ProjectMetadata)
      else if Other in present then Some(Other)
      else None
    ensures forall c :: c in present ==> FirstIn(CATEGORIES, present).Some?
  {
    var d: seq<Category> := [Other];
    var c := [ProjectMetadata] + d;
    var b := [NativeProject] + c;
    var a := [NativeDependencies] + b;
    assert d[1..] == [] && c[1..] == d && b[1..] == c && a[1..] == b && CATEGORIES[1..] == a;
    assert FirstIn(d, present) == if Other in present then Some(Other) else None;
    assert FirstIn(c, present) == if ProjectMetadata in present then Some(ProjectMetadata) else FirstIn(d, present);
    assert FirstIn(b, present) == if NativeProject in present then Some(NativeProject) else FirstIn(c, present);
    assert FirstIn(a, present) == if NativeDependencies in present then Some(NativeDependencies) else FirstIn(b, present);
    forall x | x in present ensures FirstIn(CATEGORIES, present).Some? {
      assert x == ExpoConfig || x == NativeDependencies || x == NativeProject || x == ProjectMetadata || x == Other;
    }
  }

  // ---- The item list ----

  /** `new Map(sources.map(...))`: a later source with the same key wins. */
  function ByKey(ss: seq<Source>): map<Text, Source>
  {
    if ss == [] then map[] else ByKey(ss[..|ss| - 1])[SourceKey(ss[|ss| - 1]) := ss[|ss| - 1]]
  }

  /** What one source of the earlier list contributes. */
  function Departure(s: Source, after: map<Text, Source>): seq<Item>
  {
    var key := SourceKey(s);
    if key !in after then [Item(Removed, PrimaryCategory(Some(s), None), Some(s), None)]
    else if s.digest != after[key].digest then
      [Item(Changed, PrimaryCategory(Some(s), Some(after[key])), Some(s), Some(after[key]))]
    else []
  }

  function Arrival(s: Source, before: map<Text, Source>): seq<Item>
  {
    if SourceKey(s) !in before then [Item(Added, PrimaryCategory(None, Some(s)), None, Some(s))] else []
  }

  function Departures(ss: seq<Source>, after: map<Text, Source>): seq<Item>
  {
    if ss == [] then [] else Departures(ss[..|ss| - 1], after) + Departure(ss[|ss| - 1], after)
  }

  function Arrivals(ss: seq<Source>, before: map<Text, Source>): seq<Item>
  {
    if ss == [] then [] else Arrivals(ss[..|ss| - 1], before) + Arrival(ss[|ss| - 1], before)
  }

  function CountOperation(items: seq<Item>, op: Operation): nat
  {
    if items == [] then 0
    else CountOperation(items[..|items| - 1], op) + if items[|items| - 1].operation == op then 1 else 0
  }

  function CountCategory(items: seq<Item>, c: Category): nat
  {
    if items == [] then 0
    else CountCategory(items[..|items| - 1], c) + if items[|items| - 1].category == c then 1 else 0
  }

  function PositiveGroups(items: seq<Item>, order: seq<Category>): seq<Group>
  {
    if order == [] then []
    else
      var n := CountCategory(items, order[0]);
      (if n > 0 then [Group(order[0], n)] else []) + PositiveGroups(items, order[1..])
  }

  predicate Before(a: Group,
                   b: Group) { a.count > b.count || (a.count == b.count && Rank(a.category) < Rank(b.category)) }

  function InsertGroup(g: Group, gs: seq<Group>): seq<Group>
  {
    if gs == [] || Before(g, gs[0]) then [g] + gs else [gs[0]] + InsertGroup(g, gs[1..])
  }

  function SortGroups(gs: seq<Group>): seq<Group> { if gs == [] then [] else InsertGroup(gs[0], SortGroups(gs[1..])) }

  function DiffItems(before: seq<Source>, after: seq<Source>): seq<Item>
  {
    Departures(before, ByKey(after)) + Arrivals(after, ByKey(before))
  }

  method DiffInsights(before: seq<Source>, after: seq<Source>) returns (diff: Diff)
    ensures diff.items == DiffItems(before, after)
    ensures diff.added == CountOperation(diff.items, Added)
    ensures diff.removed == CountOperation(diff.items, Removed)
    ensures diff.changed == CountOperation(diff.items, Changed)
    ensures diff.total == diff.added + diff.removed + diff.changed
    ensures diff.groups == SortGroups(PositiveGroups(diff.items, CATEGORIES))
  {
    hide Departure, Arrival, ByKey, CountOperation, SortGroups, PositiveGroups, SourceKey, PrimaryCategory;
    var beforeByKey := ByKey(before);
    var afterByKey := ByKey(after);
    var items: seq<Item> := [];
    var i := 0;
    while i < |before|
      invariant 0 <= i <= |before|
      invariant items == Departures(before[..i], afterByKey)
    {
      assert before[..i + 1][..i] == before[..i];
      items := AddDeparture(items, before[i], afterByKey);
      i := i + 1;
    }
    assert before[..|before|] == before;
    ghost var departures := items;
    i := 0;
    while i < |after|
      invariant 0 <= i <= |after|
      invariant items == departures + Arrivals(after[..i], beforeByKey)
    {
      assert after[..i + 1][..i] == after[..i];
      items := AddArrival(items, after[i], beforeByKey);
      i := i + 1;
    }
    assert after[..|after|] == after;
    var added := CountOperation(items, Added);
    var removed := CountOperation(items, Removed);
    var changed := CountOperation(items, Changed);
    return Diff(items, added, removed, changed, added + removed + changed, SortGroups(PositiveGroups(items, CATEGORIES)));
  }

  method AddDeparture(items: seq<Item>, s: Source, after: map<Text, Source>) returns (more: seq<Item>)
    ensures more == items + Departure(s, after)
  {
    hide PrimaryCategory, SourceKey;
    more := items;
    var key := SourceKey(s);
    if key !in after {
      more := more + [Item(Removed, PrimaryCategory(Some(s), None), Some(s), None)];
    } else if s.digest != after[key].digest {
      more := more + [Item(Changed, PrimaryCategory(Some(s), Some(after[key])), Some(s), Some(after[key]))];
    }
  }

  method AddArrival(items: seq<Item>, s: Source, before: map<Text, Source>) returns (more: seq<Item>)
    ensures more == items + Arrival(s, before)
  {
    hide PrimaryCategory, SourceKey;
    more := items;
    if SourceKey(s) !in before {
      more := more + [Item(Added, PrimaryCategory(None, Some(s)), None, Some(s))];
    }
  }

  // ---- Counting against sets of keys ----

  function Keys(ss: seq<Source>): set<Text> { set s | s in ss :: SourceKey(s) }

  /** The digest each key has. */
  function Digests(ss: seq<Source>): map<Text, Option<Text>>
  {
    if ss == [] then map[] else Digests(ss[..|ss| - 1])[SourceKey(ss[|ss| - 1]) := ss[|ss| - 1].digest]
  }

  function Gone(m: map<Text, Option<Text>>, n: map<Text, Option<Text>>): set<Text> { set k | k in m && k !in n }

  function Altered(m: map<Text, Option<Text>>, n: map<Text,
                   Option<Text>>): set<Text> { set k | k in m && k in n && m[k] != n[k] }

  /** The keys on which two digest maps disagree. */
  function Differing(m: map<Text, Option<Text>>, n: map<Text, Option<Text>>): set<Text>
  {
    Gone(m, n) + Gone(n, m) + Altered(m, n)
  }

  lemma {:induction false} DigestsOf(ss: seq<Source>)
    ensures Digests(ss).Keys == ByKey(ss).Keys == Keys(ss)
    ensures forall k :: k in ByKey(ss) ==> Digests(ss)[k] == ByKey(ss)[k].digest
  {
    hide SourceKey;
    if ss != [] {
      DigestsOf(ss[..|ss| - 1]);
      KeysOfLast(ss);
    }
  }

  lemma KeysOfLast(ss: seq<Source>)
    requires ss != []
    ensures Keys(ss) == Keys(ss[..|ss| - 1]) + {SourceKey(ss[|ss| - 1])}
  {
    hide SourceKey;
    assert ss == ss[..|ss| - 1] + [ss[|ss| - 1]];
  }

  lemma LastKeyIsNew(ss: seq<Source>)
    requires UniqueKeys(ss) && ss != []
    ensures SourceKey(ss[|ss| - 1]) !in Keys(ss[..|ss| - 1]) && UniqueKeys(ss[..|ss| - 1])
  {
    hide SourceKey;
    forall s | s in ss[..|ss| - 1] ensures SourceKey(s) != SourceKey(ss[|ss| - 1]) {
      var i :| 0 <= i < |ss| - 1 && ss[i] == s;
    }
  }

  lemma {:induction false} OperationsAppend(a: seq<Item>, b: seq<Item>, op: Operation)
    ensures CountOperation(a + b, op) == CountOperation(a, op) + CountOperation(b, op)
  {
    if b == [] {
      assert a + b == a;
    } else {
      OperationsAppend(a, b[..|b| - 1], op);
      assert (a + b)[..|a + b| - 1] == a + b[..|b| - 1];
    }
  }

  lemma OneOperation(s: Source, other: map<Text, Source>)
    ensures CountOperation(Departure(s, other), Added) == 0
    ensures CountOperation(Departure(s, other), Removed) == if SourceKey(s) !in other then 1 else 0
    ensures CountOperation(Departure(s, other), Changed) ==
            if SourceKey(s) in other && s.digest != other[SourceKey(s)].digest then 1 else 0
    ensures CountOperation(Arrival(s, other), Removed) == CountOperation(Arrival(s, other), Changed) == 0
    ensures CountOperation(Arrival(s, other), Added) == if SourceKey(s) !in other then 1 else 0
  {
    hide SourceKey, PrimaryCategory;
  }

  lemma {:induction false} DepartureCounts(ss: seq<Source>, other: seq<Source>)
    requires UniqueKeys(ss)
    ensures CountOperation(Departures(ss, ByKey(other)), Added) == 0
    ensures CountOperation(Departures(ss, ByKey(other)), Removed) == |Gone(Digests(ss), Digests(other))|
    ensures CountOperation(Departures(ss, ByKey(other)), Changed) == |Altered(Digests(ss), Digests(other))|
  {
    hide SourceKey, CountOperation, Departure;
    if ss == [] {
      NoOperations(Added);
      NoOperations(Removed);
      NoOperations(Changed);
    } else {
      var init, last := ss[..|ss| - 1], ss[|ss| - 1];
      LastKeyIsNew(ss);
      DepartureCounts(init, other);
      DigestsOf(other);
      DigestsOf(init);
      OneOperation(last, ByKey(other));
      OperationsAppend(Departures(init, ByKey(other)), Departure(last, ByKey(other)), Added);
      OperationsAppend(Departures(init, ByKey(other)), Departure(last, ByKey(other)), Removed);
      OperationsAppend(Departures(init, ByKey(other)), Departure(last, ByKey(other)), Changed);
      OneMoreKey(Digests(init), SourceKey(last), last.digest, Digests(other));
    }
  }

  lemma NoOperations(op: Operation)
    ensures CountOperation([], op) == 0
  {
  }

  lemma OneMoreKey(m: map<Text, Option<Text>>, k: Text, d: Option<Text>, n: map<Text, Option<Text>>)
    requires k !in m
    ensures |Gone(m[k := d], n)| == |Gone(m, n)| + if k !in n then 1 else 0
    ensures |Altered(m[k := d], n)| == |Altered(m, n)| + if k in n && d != n[k] then 1 else 0
  {
    OneMoreGone(m, k, d, n);
    OneMoreAltered(m, k, d, n);
  }

  lemma OneMoreGone(m: map<Text, Option<Text>>, k: Text, d: Option<Text>, n: map<Text, Option<Text>>)
    requires k !in m
    ensures |Gone(m[k := d], n)| == |Gone(m, n)| + if k !in n then 1 else 0
  {
    assert k !in Gone(m, n);
    if k !in n {
      assert Gone(m[k := d], n) == Gone(m, n) + {k};
    } else {
      assert Gone(m[k := d], n) == Gone(m, n);
    }
  }

  lemma OneMoreAltered(m: map<Text, Option<Text>>, k: Text, d: Option<Text>, n: map<Text, Option<Text>>)
    requires k !in m
    ensures |Altered(m[k := d], n)| == |Altered(m, n)| + if k in n && d != n[k] then 1 else 0
  {
    assert k !in Altered(m, n);
    if k in n && d != n[k] {
      assert Altered(m[k := d], n) == Altered(m, n) + {k};
    } else {
      assert Altered(m[k := d], n) == Altered(m, n);
    }
  }

  lemma {:induction false} ArrivalCounts(ss: seq<Source>, other: seq<Source>)
    requires UniqueKeys(ss)
    ensures CountOperation(Arrivals(ss, ByKey(other)), Added) == |Gone(Digests(ss), Digests(other))|
    ensures CountOperation(Arrivals(ss, ByKey(other)), Removed) == 0
    ensures CountOperation(Arrivals(ss, ByKey(other)), Changed) == 0
  {
    hide SourceKey, CountOperation, Arrival;
    if ss == [] {
      NoOperations(Added);
      NoOperations(Removed);
      NoOperations(Changed);
    } else {
      var init, last := ss[..|ss| - 1], ss[|ss| - 1];
      LastKeyIsNew(ss);
      ArrivalCounts(init, other);
      DigestsOf(other);
      DigestsOf(init);
      OneOperation(last, ByKey(other));
      OperationsAppend(Arrivals(init, ByKey(other)), Arrival(last, ByKey(other)), Added);
      OperationsAppend(Arrivals(init, ByKey(other)), Arrival(last, ByKey(other)), Removed);
      OperationsAppend(Arrivals(init, ByKey(other)), Arrival(last, ByKey(other)), Changed);
      OneMoreKey(Digests(init), SourceKey(last), last.digest, Digests(other));
    }
  }

  function Count(before: seq<Source>, after: seq<Source>, op: Operation): nat
  {
    CountOperation(DiffItems(before, after), op)
  }

  function Total(before: seq<Source>, after: seq<Source>): nat
  {
    Count(before, after, Added) + Count(before, after, Removed) + Count(before, after, Changed)
  }

  /** The three counts are the numbers of keys that came, went, and changed their digest. */
  lemma CountsAreKeys(before: seq<Source>, after: seq<Source>)
    requires UniqueKeys(before) && UniqueKeys(after)
    ensures Count(before, after, Added) == |Gone(Digests(after), Digests(before))|
    ensures Count(before, after, Removed) == |Gone(Digests(before), Digests(after))|
    ensures Count(before, after, Changed) == |Altered(Digests(before), Digests(after))|
  {
    hide CountOperation, Departures, Arrivals, ByKey, UniqueKeys, Gone, Altered, Digests;
    DepartureCounts(before, after);
    ArrivalCounts(after, before);
    var a, b := Departures(before, ByKey(after)), Arrivals(after, ByKey(before));
    OperationsAppend(a, b, Added);
    OperationsAppend(a, b, Removed);
    OperationsAppend(a, b, Changed);
  }

  lemma DifferingSize(m: map<Text, Option<Text>>, n: map<Text, Option<Text>>)
    ensures |Differing(m, n)| == |Gone(m, n)| + |Gone(n, m)| + |Altered(m, n)|
  {
    assert Gone(m, n) !! Gone(n, m) && (Gone(m, n) + Gone(n, m)) !! Altered(m, n);
    hide Gone, Altered;
    var x := Gone(m, n) + Gone(n, m);
    assert |x| == |Gone(m, n)| + |Gone(n, m)|;
  }

  lemma TotalIsDiffering(before: seq<Source>, after: seq<Source>)
    requires UniqueKeys(before) && UniqueKeys(after)
    ensures Total(before, after) == |Differing(Digests(before), Digests(after))|
  {
    CountsAreKeys(before, after);
    DifferingSize(Digests(before), Digests(after));
  }

  /** Zero exactly when both lists give every key the same digest. */
  lemma TotalZeroIffSame(before: seq<Source>, after: seq<Source>)
    requires UniqueKeys(before) && UniqueKeys(after)
    ensures Total(before, after) == 0 <==> Digests(before) == Digests(after)
  {
    TotalIsDiffering(before, after);
    var m, n := Digests(before), Digests(after);
    hide Total, Digests;
    if Differing(m, n) == {} {
      forall k ensures (k in m <==> k in n) && (k in m && k in n ==> m[k] == n[k]) {
        assert k !in Gone(m, n) && k !in Gone(n, m) && k !in Altered(m, n);
      }
    } else {
      var k :| k in Differing(m, n);
    }
  }

  /** Swapping the lists swaps added and removed, and keeps the rest. */
  lemma SwapIsSymmetric(before: seq<Source>, after: seq<Source>)
    requires UniqueKeys(before) && UniqueKeys(after)
    ensures Count(before, after, Added) == Count(after, before, Removed)
    ensures Count(before, after, Removed) == Count(after, before, Added)
    ensures Count(before, after, Changed) == Count(after, before, Changed)
    ensures Total(before, after) == Total(after, before)
  {
    CountsAreKeys(before, after);
    CountsAreKeys(after, before);
    hide Count, Digests;
    assert Altered(Digests(before), Digests(after)) == Altered(Digests(after), Digests(before));
  }

  /** Going through a third list never shortens the distance. */
  lemma TriangleInequality(a: seq<Source>, b: seq<Source>, c: seq<Source>)
    requires UniqueKeys(a) && UniqueKeys(b) && UniqueKeys(c)
    ensures Total(a, c) <= Total(a, b) + Total(b, c)
  {
    TotalIsDiffering(a, b);
    TotalIsDiffering(b, c);
    TotalIsDiffering(a, c);
    hide Total, Digests, UniqueKeys;
    DifferingTriangle(Digests(a), Digests(b), Digests(c));
  }

  lemma DifferingTriangle(m: map<Text, Option<Text>>, n: map<Text, Option<Text>>, p: map<Text, Option<Text>>)
    ensures |Differing(m, p)| <= |Differing(m, n)| + |Differing(n, p)|
  {
    var x, y, z := Differing(m, n), Differing(n, p), Differing(m, p);
    assert z <= x + y;
    hide Differing;
    SubsetSize(z, x + y);
    assert |x + y| + |x * y| == |x| + |y|;
  }

  /** `diffInsights` on two numbered lists: its total is zero exactly for equal digests, and equals the reverse total. */
  lemma TotalOfNumbered(before: seq<Source>, after: seq<Source>)
    requires Sequential(before) && HexComparators(before) && Sequential(after) && HexComparators(after)
    ensures Total(before, after) == 0 <==> Digests(before) == Digests(after)
    ensures Total(before, after) == Total(after, before) == |Differing(Digests(before), Digests(after))|
  {
    SequentialKeysAreUnique(before);
    SequentialKeysAreUnique(after);
    hide Sequential, UniqueKeys, Total, Digests, Differing;
    TotalZeroIffSame(before, after);
    SwapIsSymmetric(before, after);
    TotalIsDiffering(before, after);
  }

  // ---- The items lead from the earlier list to the later one ----

  /** Takes an item's earlier side out and puts its later side in. */
  function Patched(m: map<Text, Source>, items: seq<Item>): map<Text, Source>
  {
    if items == [] then m
    else
      var init, last := Patched(m, items[..|items| - 1]), items[|items| - 1];
      var left := if last.before.Some? then init - {SourceKey(last.before.value)} else init;
      if last.after.Some? then left[SourceKey(last.after.value) := last.after.value] else left
  }

  lemma {:induction false} PatchedTwice(m: map<Text, Source>, a: seq<Item>, b: seq<Item>)
    ensures Patched(m, a + b) == Patched(Patched(m, a), b)
  {
    hide SourceKey;
    if b == [] {
      assert a + b == a;
    } else {
      PatchedTwice(m, a, b[..|b| - 1]);
      assert (a + b)[..|a + b| - 1] == a + b[..|b| - 1];
    }
  }

  lemma {:induction false} ByKeyHas(ss: seq<Source>)
    ensures ByKey(ss).Keys == Keys(ss)
    ensures forall k :: k in ByKey(ss) ==> ByKey(ss)[k] in ss && SourceKey(ByKey(ss)[k]) == k
  {
    hide SourceKey;
    if ss != [] {
      ByKeyHas(ss[..|ss| - 1]);
      KeysOfLast(ss);
    }
  }

  lemma PatchedByDeparture(m: map<Text, Source>, s: Source, after: map<Text, Source>)
    requires forall k :: k in after ==> SourceKey(after[k]) == k
    ensures var k := SourceKey(s);
      Patched(m, Departure(s, after)) ==
        if k !in after then m - {k} else if s.digest != after[k].digest then m[k := after[k]] else m
  {
    hide SourceKey, PrimaryCategory;
    var items := Departure(s, after);
    if items != [] {
      assert items[..|items| - 1] == [] && Patched(m, []) == m;
    }
  }

  lemma PatchedByArrival(m: map<Text, Source>, s: Source, before: map<Text, Source>)
    ensures Patched(m, Arrival(s, before)) == if SourceKey(s) !in before then m[SourceKey(s) := s] else m
  {
    hide SourceKey, PrimaryCategory;
    var items := Arrival(s, before);
    if items != [] {
      assert items[..|items| - 1] == [] && Patched(m, []) == m;
    }
  }

  /** After the departures of `ss` its keys that stay have their later digests, and those that go are gone. */
  lemma {:induction false} PatchedByDepartures(m: map<Text, Source>, ss: seq<Source>, after: map<Text, Source>)
    requires forall k :: k in after ==> SourceKey(after[k]) == k
    requires Keys(ss) <= m.Keys
    ensures var r := Patched(m, Departures(ss, after));
      && r.Keys == m.Keys - (Keys(ss) - after.Keys)
      && (forall k :: k in r ==> r[k] == m[k] || (k in after && r[k] == after[k]))
      && (forall s :: s in ss && SourceKey(s) in after && s.digest != after[SourceKey(s)].digest ==>
            r[SourceKey(s)] == after[SourceKey(s)])
  {
    hide SourceKey, Departure, Keys, Patched;
    if ss == [] {
      NothingPatched(m);
    } else {
      var init, last := ss[..|ss| - 1], ss[|ss| - 1];
      KeysOfLast(ss);
      PatchedByDepartures(m, init, after);
      PatchedTwice(m, Departures(init, after), Departure(last, after));
      PatchedByDeparture(Patched(m, Departures(init, after)), last, after);
      LastOrEarlier(ss);
      var r := Patched(m, Departures(ss, after));
      forall s | s in ss && SourceKey(s) in after && s.digest != after[SourceKey(s)].digest
        ensures SourceKey(s) in r && r[SourceKey(s)] == after[SourceKey(s)]
      {
        KeyOfMember(ss, s);
        assert s in init ==> Patched(m, Departures(init, after))[SourceKey(s)] == after[SourceKey(s)];
      }
    }
  }

  lemma NothingPatched(m: map<Text, Source>)
    ensures Patched(m, []) == m && Keys([]) == {}
  {
  }

  lemma KeyOfMember(ss: seq<Source>, s: Source)
    requires s in ss
    ensures SourceKey(s) in Keys(ss)
  {
  }

  lemma LastOrEarlier(ss: seq<Source>)
    requires ss != []
    ensures forall s :: s in ss ==> s in ss[..|ss| - 1] || s == ss[|ss| - 1]
  {
    assert ss == ss[..|ss| - 1] + [ss[|ss| - 1]];
  }

  /** After the arrivals of `ss` its keys that are new are in, each with its last source. */
  lemma {:induction false} PatchedByArrivals(m: map<Text, Source>, ss: seq<Source>, before: map<Text, Source>)
    ensures var r := Patched(m, Arrivals(ss, before));
      && r.Keys == m.Keys + (Keys(ss) - before.Keys)
      && ByKey(ss).Keys == Keys(ss)
      && (forall k :: k in r ==> if k in Keys(ss) && k !in before then r[k] == ByKey(ss)[k] else r[k] == m[k])
  {
    hide SourceKey, Arrival, Keys, Patched;
    if ss == [] {
      NothingPatched(m);
    } else {
      var init, last := ss[..|ss| - 1], ss[|ss| - 1];
      KeysOfLast(ss);
      PatchedByArrivals(m, init, before);
      PatchedTwice(m, Arrivals(init, before), Arrival(last, before));
      PatchedByArrival(Patched(m, Arrivals(init, before)), last, before);
    }
  }

  /** Taking the earlier sides out of the earlier sources and putting the later sides in gives the keys and digests of the
      later list, also where keys repeat. */
  lemma ItemsLeadToAfter(before: seq<Source>, after: seq<Source>)
    ensures var r := Patched(ByKey(before), DiffItems(before, after));
      && r.Keys == ByKey(after).Keys
      && forall k :: k in r ==> r[k].digest == ByKey(after)[k].digest
  {
    hide SourceKey, Departures, Arrivals, ByKey, Patched, Keys;
    ByKeyHas(before);
    ByKeyHas(after);
    var m := Patched(ByKey(before), Departures(before, ByKey(after)));
    PatchedByDepartures(ByKey(before), before, ByKey(after));
    PatchedByArrivals(m, after, ByKey(before));
    PatchedTwice(ByKey(before), Departures(before, ByKey(after)), Arrivals(after, ByKey(before)));
  }

  // ---- Each item by itself ----

  /** An item shows the two sides of one key: where only one list has it, or the digests differ. */
  ghost predicate Shows(item: Item, before: map<Text, Source>, after: map<Text, Source>)
  {
    && (item.before.Some? || item.after.Some?)
    && (item.before.Some? && item.after.Some? ==>
          && SourceKey(item.before.value) == SourceKey(item.after.value)
          && item.before.value.digest != item.after.value.digest)
    && (item.before.Some? ==> SourceKey(item.before.value) in before)
    && (item.after.Some? ==> SourceKey(item.after.value) in after)
    && (item.before.None? ==> SourceKey(item.after.value) !in before)
    && (item.after.None? ==> SourceKey(item.before.value) !in after)
    && item.operation == (if item.before.None? then Added else if item.after.None? then Removed else Changed)
    && item.category == PrimaryCategory(item.before, item.after)
  }

  lemma {:induction false} DeparturesShow(ss: seq<Source>, before: map<Text, Source>, after: map<Text, Source>)
    requires Keys(ss) <= before.Keys && forall k :: k in after ==> SourceKey(after[k]) == k
    ensures forall item :: item in Departures(ss, after) ==> Shows(item, before, after)
  {
    hide SourceKey, PrimaryCategory, Keys;
    if ss != [] {
      KeysOfLast(ss);
      DeparturesShow(ss[..|ss| - 1], before, after);
    }
  }

  lemma {:induction false} ArrivalsShow(ss: seq<Source>, before: map<Text, Source>, after: map<Text, Source>)
    requires Keys(ss) <= after.Keys
    ensures forall item :: item in Arrivals(ss, before) ==> Shows(item, before, after)
  {
    hide SourceKey, PrimaryCategory, Keys;
    if ss != [] {
      KeysOfLast(ss);
      ArrivalsShow(ss[..|ss| - 1], before, after);
    }
  }

  /** Every item of a diff shows one key that differs, with its operation and category. */
  lemma ItemsShowDifferences(before: seq<Source>, after: seq<Source>)
    ensures forall item :: item in DiffItems(before, after) ==> Shows(item, ByKey(before), ByKey(after))
  {
    hide SourceKey, Departures, Arrivals, ByKey, Keys, Shows;
    ByKeyHas(before);
    ByKeyHas(after);
    DeparturesShow(before, ByKey(before), ByKey(after));
    ArrivalsShow(after, ByKey(before), ByKey(after));
  }

  // ---- Groups ----

  function GroupSum(gs: seq<Group>): nat { if gs == [] then 0 else gs[0].count + GroupSum(gs[1..]) }

  predicate GroupsSorted(gs: seq<Group>) { forall i, j :: 0 <= i < j < |gs| ==> Before(gs[i], gs[j]) }

  lemma {:induction false} EveryItemCounts(items: seq<Item>)
    ensures CountOperation(items, Added) + CountOperation(items, Removed) + CountOperation(items, Changed) == |items|
    ensures CountCategory(items, ExpoConfig) + CountCategory(items, NativeDependencies) + CountCategory(items, NativeProject)
            + CountCategory(items, ProjectMetadata) + CountCategory(items, Other) == |items|
  {
    if items != [] {
      EveryItemCounts(items[..|items| - 1]);
    }
  }

  lemma {:induction false} InsertedGroup(g: Group, gs: seq<Group>)
    requires GroupsSorted(gs) && forall h :: h in gs ==> h.category != g.category
    ensures GroupsSorted(InsertGroup(g, gs)) && GroupSum(InsertGroup(g, gs)) == g.count + GroupSum(gs)
    ensures forall h :: h in InsertGroup(g, gs) <==> h == g || h in gs
  {
    if gs != [] && !Before(g, gs[0]) {
      assert gs[0] in gs;
      InsertedGroup(g, gs[1..]);
      var rest := InsertGroup(g, gs[1..]);
      assert GroupSum(gs) == gs[0].count + GroupSum(gs[1..]);
      forall j | 0 <= j < |rest| ensures Before(gs[0], rest[j]) {
        assert rest[j] in rest;
      }
    } else {
      assert ([g] + gs)[1..] == gs;
    }
  }

  lemma {:induction false} SortedGroups(gs: seq<Group>)
    requires OnePerCategory(gs)
    ensures GroupsSorted(SortGroups(gs)) && GroupSum(SortGroups(gs)) == GroupSum(gs)
    ensures forall h :: h in SortGroups(gs) <==> h in gs
  {
    if gs != [] {
      SortedGroups(gs[1..]);
      InsertedGroup(gs[0], SortGroups(gs[1..]));
    }
  }

  lemma {:induction false} PositiveGroupsAre(items: seq<Item>, order: seq<Category>)
    requires forall i, j :: 0 <= i < j < |order| ==> order[i] != order[j]
    ensures forall g :: g in PositiveGroups(items, order) <==>
      g.category in order && g.count > 0 && g.count == CountCategory(items, g.category)
    ensures OnePerCategory(PositiveGroups(items, order))
  {
    hide CountCategory;
    if order != [] {
      PositiveGroupsAre(items, order[1..]);
      var rest := PositiveGroups(items, order[1..]);
      forall j | 0 <= j < |rest| ensures rest[j].category != order[0] {
        assert rest[j] in rest;
        var k :| 0 <= k < |order[1..]| && order[1..][k] == rest[j].category;
        assert order[k + 1] == rest[j].category;
      }
      assert order == [order[0]] + order[1..];
      var gs := PositiveGroups(items, order);
      assert gs == rest || (gs == [gs[0]] + rest && gs[0].category == order[0]);
      if gs != rest {
        OneMoreCategory(gs[0], rest);
      }
    }
  }

  predicate OnePerCategory(gs: seq<Group>) { forall i, j :: 0 <= i < j < |gs| ==> gs[i].category != gs[j].category }

  lemma OneMoreCategory(g: Group, rest: seq<Group>)
    requires OnePerCategory(rest) && forall j :: 0 <= j < |rest| ==> rest[j].category != g.category
    ensures OnePerCategory([g] + rest)
  {
  }

  function CategorySum(items: seq<Item>, order: seq<Category>): nat
  {
    if order == [] then 0 else CountCategory(items, order[0]) + CategorySum(items, order[1..])
  }

  lemma {:induction false} PositiveSum(items: seq<Item>, order: seq<Category>)
    ensures GroupSum(PositiveGroups(items, order)) == CategorySum(items, order)
  {
    hide CountCategory;
    if order != [] {
      PositiveSum(items, order[1..]);
      var rest := PositiveGroups(items, order[1..]);
      assert CountCategory(items, order[0]) > 0 ==>
        PositiveGroups(items, order) == [Group(order[0], CountCategory(items, order[0]))] + rest
        && PositiveGroups(items, order)[1..] == rest;
      assert CountCategory(items, order[0]) == 0 ==> PositiveGroups(items, order) == rest;
    }
  }

  /** From the most specific category to the least. */
  function Position(c: Category): nat
  {
    if c.ExpoConfig? then 1 else if c.NativeDependencies? then 2 else if c.NativeProject? then 3
    else if c.ProjectMetadata? then 4 else 5
  }

  /** The groups account for every item once: exact positive counts that add up to the total, largest first. */
  lemma GroupsSumToTotal(before: seq<Source>, after: seq<Source>)
    ensures var groups := SortGroups(PositiveGroups(DiffItems(before, after), CATEGORIES));
            && GroupSum(groups) == Total(before, after) == |DiffItems(before, after)|
            && (forall i, j :: 0 <= i < j < |groups| ==>
                  groups[i].count > groups[j].count
                  || (groups[i].count == groups[j].count && Position(groups[i].category) < Position(groups[j].category)))
            && forall g :: g in groups <==> g.count > 0 && g.count == CountCategory(DiffItems(before, after), g.category)
  {
    var items := DiffItems(before, after);
    hide DiffItems, CountOperation, CountCategory, PositiveGroups, SortGroups, GroupsSorted, Position;
    EveryItemCounts(items);
    PositiveGroupsAre(items, CATEGORIES);
    PositiveSum(items, CATEGORIES);
    FiveCategories(items);
    SortedGroups(PositiveGroups(items, CATEGORIES));
    SortedInTerms(SortGroups(PositiveGroups(items, CATEGORIES)));
    assert forall c: Category :: c in CATEGORIES by {
      forall c: Category ensures c in CATEGORIES {
        assert CATEGORIES[Rank(c)] == c;
      }
    }
  }

  lemma SortedInTerms(gs: seq<Group>)
    requires GroupsSorted(gs)
    ensures forall i, j :: 0 <= i < j < |gs| ==>
      gs[i].count > gs[j].count || (gs[i].count == gs[j].count && Position(gs[i].category) < Position(gs[j].category))
  {
    forall i, j | 0 <= i < j < |gs| ensures Before(gs[i], gs[j]) {
    }
  }

  lemma FiveCategories(items: seq<Item>)
    ensures CategorySum(items, CATEGORIES) == CountCategory(items, ExpoConfig) + CountCategory(items, NativeDependencies)
      + CountCategory(items, NativeProject) + CountCategory(items, ProjectMetadata) + CountCategory(items, Other)
  {
    hide CountCategory;
    var d: seq<Category> := [Other];
    var c := [ProjectMetadata] + d;
    var b := [NativeProject] + c;
    var a := [NativeDependencies] + b;
    assert d[1..] == [] && c[1..] == d && b[1..] == c && a[1..] == b && CATEGORIES[1..] == a;
    assert CategorySum(items, d) == CountCategory(items, Other);
    assert CategorySum(items, c) == CountCategory(items, ProjectMetadata) + CategorySum(items, d);
    assert CategorySum(items, b) == CountCategory(items, NativeProject) + CategorySum(items, c);
    assert CategorySum(items, a) == CountCategory(items, NativeDependencies) + CategorySum(items, b);
  }
}

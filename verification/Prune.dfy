/** `planPrune`: three phases of selection, shown to be one least-recently-used prefix. */
module Prune {
  import opened Options
  import opened Bytes
  import opened Platforms

  datatype Entry = Entry(platform: Platform, entryId: seq<Byte>, sizeBytes: int, lastAccessedAt: int, createdAt: int,
                         protectedUntil: Option<int>)

  datatype Policy = Policy(retentionMs: Option<int>, maxEntries: Option<int>, maxSizeBytes: Option<int>)

  datatype Reason = Expired | MaxEntries | MaxSize

  datatype Candidate = Candidate(entry: Entry, reason: Reason)

  /** What one planning call looks at besides the entries. */
  datatype Plan = Plan(policy: Policy, nowMs: int, protectedIds: set<seq<Byte>>, before: NameOrder)

  // ---- The order ----

  function Label(e: Entry): seq<Byte> { PlatformName(e.platform) + [0x3A] + e.entryId }

  /** `compareLru` is negative. */
  predicate OlderThan(a: Entry, b: Entry, before: NameOrder)
  {
    || a.lastAccessedAt < b.lastAccessedAt
    || (a.lastAccessedAt == b.lastAccessedAt &&
        (a.createdAt < b.createdAt || (a.createdAt == b.createdAt && before(Label(a), Label(b)))))
  }

  lemma LabelsDiffer(a: Entry, b: Entry)
    requires a.entryId != b.entryId
    ensures Label(a) != Label(b)
  {
    if a.platform == b.platform {
      var n := |PlatformName(a.platform)| + 1;
      assert Label(a)[n..] == a.entryId && Label(b)[n..] == b.entryId;
    } else {
      assert Label(a)[0] != Label(b)[0];
    }
  }

  predicate UniqueIds(es: seq<Entry>) { forall i, j :: 0 <= i < j < |es| ==> es[i].entryId != es[j].entryId }

  predicate LruSorted(es: seq<Entry>, before: NameOrder)
  {
    forall i, j :: 0 <= i < j < |es| ==> OlderThan(es[i], es[j], before)
  }

  function InsertLru(e: Entry, es: seq<Entry>, before: NameOrder): seq<Entry>
  {
    if es == [] || OlderThan(e, es[0], before) then [e] + es else [es[0]] + InsertLru(e, es[1..], before)
  }

  /** `[...entries].sort(compareLru)` */
  function SortLru(es: seq<Entry>, before: NameOrder): seq<Entry>
  {
    if es == [] then [] else InsertLru(es[0], SortLru(es[1..], before), before)
  }

  lemma {:induction false} InsertKeeps(e: Entry, es: seq<Entry>, before: NameOrder)
    ensures multiset(InsertLru(e, es, before)) == multiset{e} + multiset(es)
    ensures |InsertLru(e, es, before)| == |es| + 1
  {
    if es != [] && !OlderThan(e, es[0], before) {
      InsertKeeps(e, es[1..], before);
      assert es == [es[0]] + es[1..];
    }
  }

  lemma InsertHas(e: Entry, es: seq<Entry>, before: NameOrder, x: Entry)
    ensures x in InsertLru(e, es, before) <==> x == e || x in es
  {
    InsertKeeps(e, es, before);
    assert x in multiset(InsertLru(e, es, before)) <==> x in multiset{e} + multiset(es);
  }

  lemma {:induction false} InsertSorted(e: Entry, es: seq<Entry>, before: NameOrder)
    requires StrictTotal(before) && LruSorted(es, before) && forall x :: x in es ==> x.entryId != e.entryId
    ensures LruSorted(InsertLru(e, es, before), before)
  {
    if es == [] {
    } else if OlderThan(e, es[0], before) {
      forall j | 0 <= j < |es| ensures OlderThan(e, es[j], before) {
        if j > 0 {
          assert OlderThan(es[0], es[j], before);
          OlderTransitive(e, es[0], es[j], before);
        }
      }
    } else {
      assert es[0] in es;
      OlderTotal(es[0], e, before);
      InsertSorted(e, es[1..], before);
      var rest := InsertLru(e, es[1..], before);
      forall j | 0 <= j < |rest| ensures OlderThan(es[0], rest[j], before) {
        InsertHas(e, es[1..], before, rest[j]);
      }
    }
  }

  lemma OlderTransitive(a: Entry, b: Entry, c: Entry, before: NameOrder)
    requires StrictTotal(before) && OlderThan(a, b, before) && OlderThan(b, c, before)
    ensures OlderThan(a, c, before)
  {
    hide Label;
  }

  lemma OlderTotal(a: Entry, b: Entry, before: NameOrder)
    requires StrictTotal(before) && a.entryId != b.entryId
    ensures OlderThan(a, b, before) || OlderThan(b, a, before)
  {
    LabelsDiffer(a, b);
    hide Label;
  }

  lemma {:induction false} SortKeeps(es: seq<Entry>, before: NameOrder)
    ensures multiset(SortLru(es, before)) == multiset(es) && |SortLru(es, before)| == |es|
  {
    if es != [] {
      SortKeeps(es[1..], before);
      InsertKeeps(es[0], SortLru(es[1..], before), before);
      assert es == [es[0]] + es[1..];
    }
  }

  lemma SortHas(es: seq<Entry>, before: NameOrder, x: Entry)
    ensures x in SortLru(es, before) <==> x in es
  {
    SortKeeps(es, before);
    assert x in multiset(SortLru(es, before)) <==> x in multiset(es);
  }

  lemma {:induction false} SortSorts(es: seq<Entry>, before: NameOrder)
    requires StrictTotal(before) && UniqueIds(es)
    ensures LruSorted(SortLru(es, before), before)
  {
    if es != [] {
      SortSorts(es[1..], before);
      forall x | x in SortLru(es[1..], before) ensures x.entryId != es[0].entryId {
        SortHas(es[1..], before, x);
      }
      InsertSorted(es[0], SortLru(es[1..], before), before);
    }
  }

  // ---- The one-pass specification ----

  predicate CanSelect(e: Entry, plan: Plan)
  {
    e.entryId !in plan.protectedIds && (e.protectedUntil.Some? ==> e.protectedUntil.value <= plan.nowMs)
  }

  predicate IsExpired(e: Entry, plan: Plan)
  {
    plan.policy.retentionMs.Some? && e.lastAccessedAt < plan.nowMs - plan.policy.retentionMs.value
  }

  function Selectable(es: seq<Entry>, plan: Plan): seq<Entry>
  {
    if es == [] then []
    else (if CanSelect(es[0], plan) then [es[0]] else []) + Selectable(es[1..], plan)
  }

  function TotalBytes(es: seq<Entry>): int { if es == [] then 0 else TotalBytes(es[..|es| - 1]) + es[|es| - 1].sizeBytes }

  /** The unprotected entries, least recently used first. */
  function Queue(entries: seq<Entry>, plan: Plan): seq<Entry> { Selectable(SortLru(entries, plan.before), plan) }

  predicate CountMet(entries: seq<Entry>, n: nat, plan: Plan)
  {
    plan.policy.maxEntries.Some? ==> |entries| - n <= plan.policy.maxEntries.value
  }

  predicate BytesMet(entries: seq<Entry>, n: nat, plan: Plan)
    requires n <= |Queue(entries, plan)|
  {
    plan.policy.maxSizeBytes.Some? ==>
      TotalBytes(entries) - TotalBytes(Queue(entries, plan)[..n]) <= plan.policy.maxSizeBytes.value
  }

  predicate ExpiredCovered(entries: seq<Entry>, n: nat, plan: Plan)
  {
    forall i :: n <= i < |Queue(entries, plan)| ==> !IsExpired(Queue(entries, plan)[i], plan)
  }

  /** Removing the first `n` of the queue drops everything expired and meets both limits. */
  predicate Enough(entries: seq<Entry>, n: nat, plan: Plan)
    requires n <= |Queue(entries, plan)|
  {
    ExpiredCovered(entries, n, plan) && CountMet(entries, n, plan) && BytesMet(entries, n, plan)
  }

  /** The shortest sufficient prefix of the queue, or all of it. */
  predicate Shortest(entries: seq<Entry>, n: nat, plan: Plan)
  {
    && n <= |Queue(entries, plan)|
    && (n < |Queue(entries, plan)| ==> Enough(entries, n, plan))
    && (forall m :: 0 <= m < n ==> !Enough(entries, m, plan))
  }

  lemma ShortestIsUnique(entries: seq<Entry>, m: nat, n: nat, plan: Plan)
    requires Shortest(entries, m, plan) && Shortest(entries, n, plan)
    ensures m == n
  {
  }

  function ReasonOf(entries: seq<Entry>, k: nat, plan: Plan): Reason
    requires k < |Queue(entries, plan)|
  {
    if IsExpired(Queue(entries, plan)[k], plan) then Expired
    else if !CountMet(entries, k, plan) then MaxEntries
    else MaxSize
  }

  // ---- The three phases ----

  lemma {:induction false} SelectableIsPart(es: seq<Entry>, plan: Plan, before: NameOrder)
    requires LruSorted(es, before)
    ensures LruSorted(Selectable(es, plan), before)
    ensures forall x :: x in Selectable(es, plan) <==> x in es && CanSelect(x, plan)
  {
    if es != [] {
      SelectableIsPart(es[1..], plan, before);
      var rest := Selectable(es[1..], plan);
      forall j | 0 <= j < |rest| ensures OlderThan(es[0], rest[j], before) {
        assert rest[j] in es[1..];
      }
    }
  }

  lemma SortedAreDistinct(es: seq<Entry>, before: NameOrder)
    requires StrictTotal(before) && LruSorted(es, before)
    ensures forall i, j :: 0 <= i < j < |es| ==> es[i] != es[j]
  {
    hide Label;
    forall i, j | 0 <= i < j < |es| ensures es[i] != es[j] {
      assert OlderThan(es[i], es[j], before);
    }
  }

  function Ids(es: seq<Entry>): set<seq<Byte>> { set e | e in es :: e.entryId }

  /** The part of a list that is not selected. */
  function Unselected(es: seq<Entry>, selected: set<seq<Byte>>): seq<Entry>
  {
    if es == [] then []
    else (if es[0].entryId !in selected then [es[0]] else []) + Unselected(es[1..], selected)
  }

  /** The closure variables of `planPrune`. */
  class Planner {
    const entries: seq<Entry>
    const plan: Plan
    var selected: set<seq<Byte>>
    var candidates: seq<Candidate>
    var remainingCount: int
    var remainingBytes: int

    /** Exactly the first `n` of the queue are selected. */
    ghost predicate Chosen(n: nat)
      reads this
    {
      var queue := Queue(entries, plan);
      && n <= |queue|
      && selected == Ids(queue[..n])
      && |candidates| == n
      && (forall i :: 0 <= i < n ==> candidates[i] == Candidate(queue[i], ReasonOf(entries, i, plan)))
      && remainingCount == |entries| - n
      && remainingBytes == TotalBytes(entries) - TotalBytes(queue[..n])
    }

    constructor (entries: seq<Entry>, plan: Plan)
      ensures this.entries == entries && this.plan == plan && Chosen(0)
    {
      this.entries := entries;
      this.plan := plan;
      this.selected := {};
      this.candidates := [];
      this.remainingCount := |entries|;
      this.remainingBytes := TotalBytes(entries);
    }

    /** Takes the next of the queue; refuses what is protected. */
    method Select(entry: Entry, reason: Reason, ghost n: nat)
      requires Chosen(n) && UniqueIds(entries) && StrictTotal(plan.before)
      requires CanSelect(entry, plan) ==>
        n < |Queue(entries, plan)| && entry == Queue(entries, plan)[n] && reason == ReasonOf(entries, n, plan)
      modifies this
      ensures Chosen(if CanSelect(entry, plan) then n + 1 else n)
    {
      hide Queue, ReasonOf, StrictTotal;
      if !CanSelect(entry, plan) {
        return;
      }
      NextIsNew(entries, n, plan);
      if entry.entryId in selected {
        return;
      }
      selected := selected + {entry.entryId};
      remainingCount := remainingCount - 1;
      remainingBytes := remainingBytes - entry.sizeBytes;
      candidates := candidates + [Candidate(entry, reason)];
    }

    /** One turn of the first phase. */
    method VisitExpired(entry: Entry, ghost e: nat, ghost m: nat) returns (ghost f: nat)
      requires Chosen(e) && UniqueIds(entries) && StrictTotal(plan.before) && ExpiredSoFar(entries, e, m, plan)
      requires CanSelect(entry, plan) ==> m < |Queue(entries, plan)| && entry == Queue(entries, plan)[m]
      modifies this
      ensures Chosen(f) && ExpiredSoFar(entries, f, if CanSelect(entry, plan) then m + 1 else m, plan)
    {
      hide Queue, ReasonOf, StrictTotal, Chosen, CanSelect, ExpiredSoFar;
      f := e;
      if CanSelect(entry, plan) {
        ExpiryStep(entries, e, m, plan);
      }
      if IsExpired(entry, plan) {
        Select(entry, Expired, e);
        if CanSelect(entry, plan) {
          f := e + 1;
        }
      }
    }

    /** The first phase: whatever expired, least recently used first. */
    method SelectExpired() returns (ghost e: nat)
      requires Chosen(0) && UniqueIds(entries) && StrictTotal(plan.before)
      modifies this
      ensures Chosen(e) && ExpiredSoFar(entries, e, |Queue(entries, plan)|, plan)
    {
      hide Queue, ReasonOf, StrictTotal, Chosen, CanSelect;
      e := 0;
      if plan.policy.retentionMs.None? {
        return;
      }
      QueueIs(entries, plan);
      ghost var m := 0;
      var sorted := SortLru(entries, plan.before);
      var i := 0;
      while i < |sorted|
        invariant 0 <= i <= |sorted| && m <= |Queue(entries, plan)|
        invariant Chosen(e) && ExpiredSoFar(entries, e, m, plan)
        invariant Selectable(sorted[i..], plan) == Queue(entries, plan)[m..]
      {
        hide Selectable, ExpiredSoFar, SortLru;
        SelectableStep(sorted, i, Queue(entries, plan), m, plan);
        e := VisitExpired(sorted[i], e, m);
        if CanSelect(sorted[i], plan) {
          m := m + 1;
        }
        i := i + 1;
      }
    }

    /** `remainingLru` */
    method RemainingLru(ghost n: nat) returns (left: seq<Entry>)
      requires Chosen(n) && UniqueIds(entries) && StrictTotal(plan.before)
      ensures Selectable(left, plan) == Queue(entries, plan)[n..]
    {
      LeftoverIsRest(entries, n, plan);
      left := SortLru(Unselected(entries, selected), plan.before);
    }

    /** The second phase: until few enough entries remain. */
    method SelectForCount(ghost e: nat) returns (ghost n: nat)
      requires Chosen(e) && UniqueIds(entries) && StrictTotal(plan.before)
      requires ExpiredSoFar(entries, e, |Queue(entries, plan)|, plan)
      modifies this
      ensures Chosen(n) && CountFront(entries, e, n, plan)
      ensures n < |Queue(entries, plan)| ==> CountMet(entries, n, plan)
    {
      hide Queue, StrictTotal, CanSelect, ExpiredSoFar;
      n := e;
      if plan.policy.maxEntries.None? {
        return;
      }
      var left := RemainingLru(n);
      var i := 0;
      while i < |left|
        invariant 0 <= i <= |left|
        invariant Chosen(n) && CountFront(entries, e, n, plan)
        invariant Selectable(left[i..], plan) == Queue(entries, plan)[n..]
      {
        hide Selectable;
        if remainingCount <= plan.policy.maxEntries.value {
          break;
        }
        SelectableStep(left, i, Queue(entries, plan), n, plan);
        ReasonForCount(entries, e, n, plan);
        hide Chosen;
        Select(left[i], MaxEntries, n);
        if CanSelect(left[i], plan) {
          n := n + 1;
        }
        i := i + 1;
      }
    }

    /** The third phase: until few enough bytes remain. */
    method SelectForSize(ghost e: nat, ghost c: nat) returns (ghost n: nat)
      requires Chosen(c) && UniqueIds(entries) && StrictTotal(plan.before)
      requires ExpiredSoFar(entries, e, |Queue(entries, plan)|, plan) && CountFront(entries, e, c, plan)
      requires c < |Queue(entries, plan)| ==> CountMet(entries, c, plan)
      modifies this
      ensures Chosen(n) && SizeFront(entries, c, n, plan)
      ensures n < |Queue(entries, plan)| ==> BytesMet(entries, n, plan)
    {
      hide Queue, StrictTotal, CanSelect, ExpiredSoFar, CountMet;
      n := c;
      if plan.policy.maxSizeBytes.None? {
        return;
      }
      var left := RemainingLru(n);
      var i := 0;
      while i < |left|
        invariant 0 <= i <= |left|
        invariant Chosen(n) && SizeFront(entries, c, n, plan)
        invariant Selectable(left[i..], plan) == Queue(entries, plan)[n..]
      {
        hide Selectable;
        if remainingBytes <= plan.policy.maxSizeBytes.value {
          break;
        }
        SelectableStep(left, i, Queue(entries, plan), n, plan);
        ReasonForSize(entries, e, c, n, plan);
        hide Chosen;
        Select(left[i], MaxSize, n);
        if CanSelect(left[i], plan) {
          n := n + 1;
        }
        i := i + 1;
      }
    }
  }

  predicate CountFront(entries: seq<Entry>, e: nat, n: nat, plan: Plan)
  {
    e <= n <= |Queue(entries, plan)| && forall m :: e <= m < n ==> !CountMet(entries, m, plan)
  }

  predicate SizeFront(entries: seq<Entry>, c: nat, n: nat, plan: Plan)
  {
    c <= n <= |Queue(entries, plan)| && forall m :: c <= m < n ==> !BytesMet(entries, m, plan)
  }

  lemma ReasonForCount(entries: seq<Entry>, e: nat, n: nat, plan: Plan)
    requires ExpiredSoFar(entries, e, |Queue(entries, plan)|, plan) && CountFront(entries, e, n, plan)
    requires !CountMet(entries, n, plan)
    ensures n < |Queue(entries, plan)| ==>
      ReasonOf(entries, n, plan) == MaxEntries && CountFront(entries, e, n + 1, plan)
  {
    hide Queue, CountMet, IsExpired;
  }

  lemma ReasonForSize(entries: seq<Entry>, e: nat, c: nat, n: nat, plan: Plan)
    requires ExpiredSoFar(entries, e, |Queue(entries, plan)|, plan) && e <= c
    requires c < |Queue(entries, plan)| ==> CountMet(entries, c, plan)
    requires SizeFront(entries, c, n, plan) && !BytesMet(entries, n, plan)
    ensures n < |Queue(entries, plan)| ==>
      ReasonOf(entries, n, plan) == MaxSize && SizeFront(entries, c, n + 1, plan)
  {
    hide Queue, IsExpired;
  }

  /** The three stopping points together are the shortest sufficient prefix. */
  lemma PhasesAreShortest(entries: seq<Entry>, e: nat, c: nat, n: nat, plan: Plan)
    requires ExpiredSoFar(entries, e, |Queue(entries, plan)|, plan)
    requires CountFront(entries, e, c, plan) && (c < |Queue(entries, plan)| ==> CountMet(entries, c, plan))
    requires SizeFront(entries, c, n, plan) && (n < |Queue(entries, plan)| ==> BytesMet(entries, n, plan))
    ensures Shortest(entries, n, plan)
  {
    hide Queue, IsExpired, TotalBytes;
    forall m | 0 <= m < n ensures !Enough(entries, m, plan) {
      if m < e {
        assert IsExpired(Queue(entries, plan)[m], plan);
        assert !ExpiredCovered(entries, m, plan);
      } else if m < c {
        assert !CountMet(entries, m, plan);
      } else {
        assert !BytesMet(entries, m, plan);
      }
    }
  }

  /** `planPrune`: the shortest prefix of the unprotected entries, least recently used first, that drops everything
      expired and meets both limits, or all of them if none does; with the reason each entry is there. */
  method PlanPrune(entries: seq<Entry>, plan: Plan) returns (candidates: seq<Candidate>)
    requires UniqueIds(entries) && StrictTotal(plan.before)
    ensures Shortest(entries, |candidates|, plan)
    ensures forall i :: 0 <= i < |candidates| ==>
      candidates[i] == Candidate(Queue(entries, plan)[i], ReasonOf(entries, i, plan))
    ensures OnlyUnprotected(entries, Entries(candidates), plan) && AllExpired(entries, Entries(candidates), plan)
    ensures OldestFirst(entries, Entries(candidates), plan) && WithinLimits(entries, Entries(candidates), plan)
    ensures forall k :: 0 <= k < |candidates| ==> RightReason(entries, Entries(candidates), k, candidates[k].reason, plan)
  {
    hide Queue, StrictTotal, UniqueIds, ExpiredSoFar, CountFront, SizeFront, Shortest, ReasonOf, BytesMet, CountMet;
    hide OnlyUnprotected, AllExpired, OldestFirst, WithinLimits, RightReason;
    var planner := new Planner(entries, plan);
    ghost var e := planner.SelectExpired();
    ghost var c := planner.SelectForCount(e);
    ghost var n := planner.SelectForSize(e, c);
    PhasesAreShortest(entries, e, c, n, plan);
    PlanInTerms(entries, n, plan);
    EntriesOfPlan(entries, planner.candidates, plan);
    return planner.candidates;
  }

  // ---- The plan in the terms of its inputs ----

  function Entries(candidates: seq<Candidate>): seq<Entry>
  {
    seq(|candidates|, i requires 0 <= i < |candidates| => candidates[i].entry)
  }

  /** Nothing goes that is named by the caller or still under a lease. */
  predicate OnlyUnprotected(entries: seq<Entry>, gone: seq<Entry>, plan: Plan)
  {
    forall x :: x in gone ==>
      x in entries && x.entryId !in plan.protectedIds && (x.protectedUntil.None? || x.protectedUntil.value <= plan.nowMs)
  }

  /** Whatever was last accessed before the retention period goes, unless it is protected. */
  predicate AllExpired(entries: seq<Entry>, gone: seq<Entry>, plan: Plan)
  {
    forall x :: x in entries && x !in gone && plan.policy.retentionMs.Some? ==>
      || x.lastAccessedAt + plan.policy.retentionMs.value >= plan.nowMs
      || x.entryId in plan.protectedIds || (x.protectedUntil.Some? && x.protectedUntil.value > plan.nowMs)
  }

  /** Nothing goes before an unprotected entry that was accessed earlier, or else created earlier, or else has the earlier
      "platform:id". */
  predicate OldestFirst(entries: seq<Entry>, gone: seq<Entry>, plan: Plan)
  {
    forall x, y :: (x in entries && y in gone
                    && (x.lastAccessedAt < y.lastAccessedAt
                        || (x.lastAccessedAt == y.lastAccessedAt && x.createdAt < y.createdAt)
                        || (x.lastAccessedAt == y.lastAccessedAt && x.createdAt == y.createdAt
                            && plan.before(PlatformName(x.platform) + [0x3A] + x.entryId,
                                           PlatformName(y.platform) + [0x3A] + y.entryId)))) ==>
      || x in gone
      || x.entryId in plan.protectedIds || (x.protectedUntil.Some? && x.protectedUntil.value > plan.nowMs)
  }

  /** What stays is within both limits, or all of it is protected. */
  predicate WithinLimits(entries: seq<Entry>, gone: seq<Entry>, plan: Plan)
  {
    (exists x :: x in entries && x !in gone && x.entryId !in plan.protectedIds
                 && (x.protectedUntil.None? || x.protectedUntil.value <= plan.nowMs)) ==>
      && (plan.policy.maxEntries.Some? ==> |entries| - |gone| <= plan.policy.maxEntries.value)
      && (plan.policy.maxSizeBytes.Some? ==> TotalBytes(entries) - TotalBytes(gone) <= plan.policy.maxSizeBytes.value)
  }

  /** The `k`-th to go is expired, or one of the limits is still passed when only those before it are gone. */
  predicate RightReason(entries: seq<Entry>, gone: seq<Entry>, k: nat, reason: Reason, plan: Plan)
    requires k < |gone|
  {
    var policy := plan.policy;
    match reason
    case Expired => policy.retentionMs.Some? && gone[k].lastAccessedAt < plan.nowMs - policy.retentionMs.value
    case MaxEntries =>
      && (policy.retentionMs.Some? ==> gone[k].lastAccessedAt >= plan.nowMs - policy.retentionMs.value)
      && policy.maxEntries.Some? && |entries| - k > policy.maxEntries.value
    case MaxSize =>
      && (policy.retentionMs.Some? ==> gone[k].lastAccessedAt >= plan.nowMs - policy.retentionMs.value)
      && (policy.maxEntries.Some? ==> |entries| - k <= policy.maxEntries.value)
      && policy.maxSizeBytes.Some? && TotalBytes(entries) - TotalBytes(gone[..k]) > policy.maxSizeBytes.value
  }

  /** The shortest sufficient prefix of the queue is all that. */
  lemma PlanInTerms(entries: seq<Entry>, n: nat, plan: Plan)
    requires UniqueIds(entries) && StrictTotal(plan.before) && Shortest(entries, n, plan)
    ensures var gone := Queue(entries, plan)[..n];
            && OnlyUnprotected(entries, gone, plan) && AllExpired(entries, gone, plan)
            && OldestFirst(entries, gone, plan) && WithinLimits(entries, gone, plan)
    ensures forall k :: 0 <= k < n ==>
      RightReason(entries, Queue(entries, plan)[..n], k, ReasonOf(entries, k, plan), plan)
  {
    hide Queue, StrictTotal, UniqueIds, OnlyUnprotected, AllExpired, OldestFirst, WithinLimits, RightReason;
    QueueHasUniqueIds(entries, plan);
    GoneIsUnprotected(entries, n, plan);
    ExpiredIsGone(entries, n, plan);
    OlderIsGone(entries, n, plan);
    RestIsWithin(entries, n, plan);
    forall k | 0 <= k < n ensures RightReason(entries, Queue(entries, plan)[..n], k, ReasonOf(entries, k, plan), plan) {
      ReasonIsRight(entries, n, k, plan);
    }
  }

  lemma GoneIsUnprotected(entries: seq<Entry>, n: nat, plan: Plan)
    requires n <= |Queue(entries, plan)| && forall x :: x in Queue(entries, plan) <==> x in entries && CanSelect(x, plan)
    ensures OnlyUnprotected(entries, Queue(entries, plan)[..n], plan)
  {
    hide Queue;
    forall x | x in Queue(entries, plan)[..n] ensures x in Queue(entries, plan) {
    }
  }

  lemma ExpiredIsGone(entries: seq<Entry>, n: nat, plan: Plan)
    requires Shortest(entries, n, plan) && forall x :: x in Queue(entries, plan) <==> x in entries && CanSelect(x, plan)
    ensures AllExpired(entries, Queue(entries, plan)[..n], plan)
  {
    hide Queue, BytesMet, CountMet;
    var queue := Queue(entries, plan);
    forall x | x in entries && x !in queue[..n] && CanSelect(x, plan) ensures !IsExpired(x, plan) {
      var i :| 0 <= i < |queue| && queue[i] == x;
      assert i >= n;
    }
  }

  lemma OlderIsGone(entries: seq<Entry>, n: nat, plan: Plan)
    requires n <= |Queue(entries, plan)| && forall x :: x in Queue(entries, plan) <==> x in entries && CanSelect(x, plan)
    requires LruSorted(Queue(entries, plan), plan.before) && StrictTotal(plan.before)
    ensures OldestFirst(entries, Queue(entries, plan)[..n], plan)
  {
    hide Queue;
    var queue := Queue(entries, plan);
    forall x, y | x in entries && CanSelect(x, plan) && y in queue[..n] && x !in queue[..n] ensures !OlderThan(x, y, plan.before) {
      var i :| 0 <= i < |queue| && queue[i] == x;
      var j :| 0 <= j < n && queue[..n][j] == y;
      assert j < n <= i;
      OlderAsymmetric(y, x, plan.before);
    }
  }

  lemma OlderAsymmetric(a: Entry, b: Entry, before: NameOrder)
    requires StrictTotal(before) && OlderThan(a, b, before)
    ensures !OlderThan(b, a, before)
  {
    hide Label;
  }

  lemma RestIsWithin(entries: seq<Entry>, n: nat, plan: Plan)
    requires Shortest(entries, n, plan) && forall x :: x in Queue(entries, plan) <==> x in entries && CanSelect(x, plan)
    ensures WithinLimits(entries, Queue(entries, plan)[..n], plan)
  {
    hide Queue, ExpiredCovered, TotalBytes;
    var queue := Queue(entries, plan);
    if n == |queue| {
      assert queue[..n] == queue;
    }
  }

  lemma ReasonIsRight(entries: seq<Entry>, n: nat, k: nat, plan: Plan)
    requires Shortest(entries, n, plan) && k < n && LruSorted(Queue(entries, plan), plan.before)
    ensures RightReason(entries, Queue(entries, plan)[..n], k, ReasonOf(entries, k, plan), plan)
  {
    hide Queue, TotalBytes;
    var queue := Queue(entries, plan);
    assert queue[..n][..k] == queue[..k] && queue[..n][k] == queue[k];
    assert !Enough(entries, k, plan);
    if !IsExpired(queue[k], plan) {
      forall i | k <= i < |queue| ensures !IsExpired(queue[i], plan) {
        assert i > k ==> OlderThan(queue[k], queue[i], plan.before);
      }
    }
  }

  lemma EntriesOfPlan(entries: seq<Entry>, candidates: seq<Candidate>, plan: Plan)
    requires |candidates| <= |Queue(entries, plan)|
    requires forall i :: 0 <= i < |candidates| ==> candidates[i] == Candidate(Queue(entries, plan)[i], ReasonOf(entries, i, plan))
    ensures Entries(candidates) == Queue(entries, plan)[..|candidates|]
  {
    hide Queue, ReasonOf;
  }

  /** The plan does not depend on the order in which the entries were listed. */
  lemma PlanIgnoresListing(entries: seq<Entry>, others: seq<Entry>, n: nat, plan: Plan)
    requires UniqueIds(entries) && UniqueIds(others) && StrictTotal(plan.before)
    requires multiset(entries) == multiset(others)
    requires Shortest(entries, n, plan)
    ensures Shortest(others, n, plan) && Queue(entries, plan) == Queue(others, plan)
  {
    QueueHasUniqueIds(entries, plan);
    QueueHasUniqueIds(others, plan);
    forall x ensures x in entries <==> x in others {
      assert x in multiset(entries) <==> x in multiset(others);
    }
    assert |multiset(entries)| == |multiset(others)|;
    BytesIgnoreOrder(entries, others);
    hide Queue, OlderThan, StrictTotal, UniqueIds, LruSorted, CanSelect;
    SortedUnique(Queue(entries, plan), Queue(others, plan), plan.before);
    forall m: nat | m <= |Queue(entries, plan)| ensures Enough(entries, m, plan) == Enough(others, m, plan) {
    }
  }

  lemma {:induction false} BytesIgnoreOrder(a: seq<Entry>, b: seq<Entry>)
    requires multiset(a) == multiset(b)
    ensures TotalBytes(a) == TotalBytes(b)
    decreases |a|
  {
    if a == [] {
      assert multiset(b) == multiset{};
      assert b == [];
    } else {
      var last := a[|a| - 1];
      assert last in multiset(b);
      var j :| 0 <= j < |b| && b[j] == last;
      var rest := b[..j] + b[j + 1..];
      assert a == a[..|a| - 1] + [last];
      assert b == b[..j] + [last] + b[j + 1..];
      SameRest(a[..|a| - 1], rest, b[..j], last, b[j + 1..]);
      BytesIgnoreOrder(a[..|a| - 1], rest);
      BytesSplit(b[..j], last, b[j + 1..]);
    }
  }

  lemma SameRest(a: seq<Entry>, rest: seq<Entry>, c: seq<Entry>, e: Entry, d: seq<Entry>)
    requires rest == c + d && multiset(a + [e]) == multiset(c + [e] + d)
    ensures multiset(a) == multiset(rest)
  {
    assert multiset(a) == multiset(a + [e]) - multiset{e};
    assert multiset(c + d) == multiset(c + [e] + d) - multiset{e};
  }

  lemma {:induction false} BytesSplit(a: seq<Entry>, e: Entry, b: seq<Entry>)
    ensures TotalBytes(a + [e] + b) == TotalBytes(a + b) + e.sizeBytes
  {
    if b == [] {
      assert a + [e] + b == a + [e] && a + b == a;
    } else {
      var c := b[..|b| - 1];
      BytesSplit(a, e, c);
      assert (a + [e] + b)[..|a + [e] + b| - 1] == a + [e] + c;
      assert (a + b)[..|a + b| - 1] == a + c;
    }
  }

  /** Of the first `m` of the queue, exactly the first `e` are expired. */
  predicate ExpiredSoFar(entries: seq<Entry>, e: nat, m: nat, plan: Plan)
  {
    var queue := Queue(entries, plan);
    e <= m <= |queue| && forall k :: 0 <= k < m ==> (IsExpired(queue[k], plan) <==> k < e)
  }

  lemma ExpiryStep(entries: seq<Entry>, e: nat, m: nat, plan: Plan)
    requires UniqueIds(entries) && StrictTotal(plan.before) && ExpiredSoFar(entries, e, m, plan)
    requires m < |Queue(entries, plan)|
    ensures IsExpired(Queue(entries, plan)[m], plan) ==>
      e == m && ReasonOf(entries, m, plan) == Expired && ExpiredSoFar(entries, e + 1, m + 1, plan)
    ensures !IsExpired(Queue(entries, plan)[m], plan) ==> ExpiredSoFar(entries, e, m + 1, plan)
  {
    QueueHasUniqueIds(entries, plan);
    var queue := Queue(entries, plan);
    hide Queue, StrictTotal, UniqueIds;
    if e < m {
      assert OlderThan(queue[e], queue[m], plan.before);
    }
  }

  lemma SelectableStep(sorted: seq<Entry>, i: nat, queue: seq<Entry>, m: nat, plan: Plan)
    requires i < |sorted| && m <= |queue| && Selectable(sorted[i..], plan) == queue[m..]
    ensures CanSelect(sorted[i], plan) ==>
      m < |queue| && queue[m] == sorted[i] && Selectable(sorted[i + 1..], plan) == queue[m + 1..]
    ensures !CanSelect(sorted[i], plan) ==> Selectable(sorted[i + 1..], plan) == queue[m..]
  {
    assert sorted[i..][1..] == sorted[i + 1..];
    if CanSelect(sorted[i], plan) {
      assert queue[m..][0] == sorted[i] && queue[m..][1..] == queue[m + 1..];
    }
  }

  lemma NextIsNew(entries: seq<Entry>, n: nat, plan: Plan)
    requires UniqueIds(entries) && StrictTotal(plan.before) && n < |Queue(entries, plan)|
    ensures Queue(entries, plan)[n].entryId !in Ids(Queue(entries, plan)[..n])
    ensures Ids(Queue(entries, plan)[..n + 1]) == Ids(Queue(entries, plan)[..n]) + {Queue(entries, plan)[n].entryId}
    ensures TotalBytes(Queue(entries, plan)[..n + 1]) == TotalBytes(Queue(entries, plan)[..n]) + Queue(entries, plan)[n].sizeBytes
  {
    QueueHasUniqueIds(entries, plan);
    var queue := Queue(entries, plan);
    hide Queue;
    assert queue[..n + 1] == queue[..n] + [queue[n]];
  }

  lemma QueueHasUniqueIds(entries: seq<Entry>, plan: Plan)
    requires UniqueIds(entries) && StrictTotal(plan.before)
    ensures UniqueIds(Queue(entries, plan)) && LruSorted(Queue(entries, plan), plan.before)
    ensures forall x :: x in Queue(entries, plan) <==> x in entries && CanSelect(x, plan)
  {
    var sorted := SortLru(entries, plan.before);
    SortSorts(entries, plan.before);
    SelectableIsPart(sorted, plan, plan.before);
    var queue := Selectable(sorted, plan);
    SortedAreDistinct(queue, plan.before);
    forall x ensures x in queue <==> x in entries && CanSelect(x, plan) {
      SortHas(entries, plan.before, x);
    }
    hide OlderThan, StrictTotal, SortLru, Selectable;
    forall i, j | 0 <= i < j < |queue| ensures queue[i].entryId != queue[j].entryId {
      assert queue[i] in entries && queue[j] in entries;
    }
  }

  lemma {:induction false} SortedUnique(a: seq<Entry>, b: seq<Entry>, before: NameOrder)
    requires StrictTotal(before) && LruSorted(a, before) && LruSorted(b, before)
    requires forall x :: x in a <==> x in b
    ensures a == b
  {
    if a == [] {
      FirstIsIn(b);
    } else {
      assert a[0] in b && b != [];
      assert b[0] in a;
      SameFirst(a, b, before);
      SortedAreDistinct(a, before);
      SortedAreDistinct(b, before);
      hide OlderThan, StrictTotal;
      forall x ensures x in a[1..] <==> x in b[1..] {
        assert x in a <==> x == a[0] || x in a[1..];
        assert x in b <==> x == b[0] || x in b[1..];
      }
      SortedUnique(a[1..], b[1..], before);
      assert a == [a[0]] + a[1..] && b == [b[0]] + b[1..];
    }
  }

  lemma FirstIsIn(es: seq<Entry>)
    ensures es != [] ==> es[0] in es
  {
  }

  lemma SameFirst(a: seq<Entry>, b: seq<Entry>, before: NameOrder)
    requires StrictTotal(before) && LruSorted(a, before) && LruSorted(b, before)
    requires a != [] && b != [] && a[0] in b && b[0] in a
    ensures a[0] == b[0]
  {
    hide Label;
    var i :| 0 <= i < |a| && a[i] == b[0];
    var j :| 0 <= j < |b| && b[j] == a[0];
    assert forall k :: 0 < k < |a| ==> OlderThan(a[0], a[k], before);
    assert forall k :: 0 < k < |b| ==> OlderThan(b[0], b[k], before);
  }

  lemma {:induction false} UnselectedIs(es: seq<Entry>, selected: set<seq<Byte>>)
    ensures forall x :: x in Unselected(es, selected) <==> x in es && x.entryId !in selected
    ensures UniqueIds(es) ==> UniqueIds(Unselected(es, selected))
  {
    if es != [] {
      UnselectedIs(es[1..], selected);
      var rest := Unselected(es[1..], selected);
      if UniqueIds(es) {
        forall j | 0 <= j < |rest| ensures rest[j].entryId != es[0].entryId {
          assert rest[j] in es[1..];
        }
      }
    }
  }

  /** What is left over after taking the first `n` of the queue is the rest of the queue. */
  lemma LeftoverIsRest(entries: seq<Entry>, n: nat, plan: Plan)
    requires UniqueIds(entries) && StrictTotal(plan.before) && n <= |Queue(entries, plan)|
    ensures var queue := Queue(entries, plan);
            Selectable(SortLru(Unselected(entries, Ids(queue[..n])), plan.before), plan) == queue[n..]
  {
    var queue := Queue(entries, plan);
    var left := Unselected(entries, Ids(queue[..n]));
    UnselectedIs(entries, Ids(queue[..n]));
    QueueHasUniqueIds(entries, plan);
    QueueHasUniqueIds(left, plan);
    LeftoverMembers(entries, queue, left, n, plan);
    hide Queue, Unselected, Ids, OlderThan, StrictTotal;
    SortedUnique(Queue(left, plan), queue[n..], plan.before);
    assert Queue(left, plan) == Selectable(SortLru(left, plan.before), plan) by {
      QueueIs(left, plan);
    }
  }

  lemma QueueIs(entries: seq<Entry>, plan: Plan)
    ensures Queue(entries, plan) == Selectable(SortLru(entries, plan.before), plan)
  {
  }

  lemma LeftoverMembers(entries: seq<Entry>, queue: seq<Entry>, left: seq<Entry>, n: nat, plan: Plan)
    requires n <= |queue| && UniqueIds(queue)
    requires forall x :: x in queue <==> x in entries && CanSelect(x, plan)
    requires forall x :: x in left <==> x in entries && x.entryId !in Ids(queue[..n])
    ensures forall x :: (x in left && CanSelect(x, plan)) <==> x in queue[n..]
  {
    forall x | x in queue[n..] ensures x.entryId !in Ids(queue[..n]) {
      var j :| n <= j < |queue| && queue[j] == x;
      assert forall i :: 0 <= i < n ==> queue[i].entryId != queue[j].entryId;
    }
    forall x ensures (x in left && CanSelect(x, plan)) <==> x in queue[n..] {
      assert x in queue <==> x in queue[..n] || x in queue[n..];
    }
  }

}

/** Runs of one slot: resolvers, uploaders, importers and pruners take turns under the entry lock, imports touch the access
    record after they released it, and anything but the manifest may be damaged in between. */
module StoreRuns {
  import opened Options
  import opened Bytes
  import opened PathText
  import opened Integrity
  import opened Compression
  import opened Entries
  import opened Access
  import opened Slot
  import opened Store

  /** `at` is the number of the state whose access record the step's touch read. */
  datatype Step =
    | Resolve(o: ResolveOutcome, at: nat, time: int, writable: bool)
    | Upload(p: PublishOutcome, source: Artifact, replace: Option<Digest>, readable: bool, at: nat, time: int, writable: bool)
    | Import(p: PublishOutcome, replace: Option<Digest>, readable: bool, time: int)
    | Touch(at: nat, nowMs: int, time: int, writable: bool)  // after an import: read at `nowMs`, written at `time`
    | PruneEntry(removal: Removal, removed: bool, time: int)
    | PruneRestore(nowMs: int, time: int)
    | PruneInvalid(nowMs: int, time: int)
    | Damage(time: int)
    | DamageAccess(access: Access, time: int)

  /** States before, between and after the steps. */
  datatype Run = Run(states: seq<SlotState>, steps: seq<Step>)

  /** Damage reaches contents and restores, not the manifest. */
  predicate Damaged(s: SlotState, t: SlotState)
  {
    && t.access == s.access
    && (s.entry.None? ==> t.entry.None?)
    && (s.entry.Some? ==> t.entry.Some? && t.entry.value.manifest == s.entry.value.manifest)
  }

  /** One step; `seen` is the access record its touch read. */
  ghost predicate Next(s: SlotState, t: SlotState, step: Step, seen: Access, c: Context)
  {
    match step
    case Resolve(o, _, time, writable) => ResolveStep(s, t, o, seen, time, writable, c)
    case Upload(p, source, replace, readable, _, time, writable) =>
      && PublishStep(s, t, p, replace, readable, c)
      && (IsPublished(p) ==> MadeFrom(t.entry.value, source, c))
      && t.access == UploadTouch(p, s.access, seen, time, writable)
    case Import(p, replace, readable, _) => PublishStep(s, t, p, replace, readable, c) && t.access == s.access
    case Touch(_, nowMs, _, writable) => t == s.(access := AfterTouch(s.access, seen, nowMs, writable))
    case PruneEntry(removal, removed, _) =>
      if removed then s.entry.Some? && EntryMayGo(s.access, removal) && t.entry.None? && t.restore.None?
                      && (t.access.Missing? || t.access == s.access)
      else OnlyRemoves(s, t) && (!EntryMayGo(s.access, removal) ==> t == s)
    case PruneRestore(nowMs, _) => t == s || (AuxiliaryMayGo(s.access, nowMs) && t == s.(restore := None))
    case PruneInvalid(nowMs, _) => t == s || (AuxiliaryMayGo(s.access, nowMs) && t == s.(entry := None))
    case Damage(_) => Damaged(s, t)
    case DamageAccess(access, _) => t == s.(access := access)
  }

  /** The steps that hold the entry lock. */
  predicate Locked(step: Step)
  {
    step.Resolve? || step.Upload? || step.Import? || step.PruneEntry? || step.PruneRestore? || step.PruneInvalid?
  }

  /** The state whose access record the touch of step `k` read, or the current one. */
  function SeenAt(run: Run, k: nat): nat
    requires k < |run.steps|
  {
    if run.steps[k].Resolve? || run.steps[k].Upload? || run.steps[k].Touch? then run.steps[k].at else k
  }

  /** Records are read before they are written; under the lock no other locked step comes in between. */
  predicate ReadsInOrder(run: Run, k: nat)
    requires k < |run.steps|
  {
    SeenAt(run, k) <= k && (Locked(run.steps[k]) ==> forall j :: SeenAt(run, k) <= j < k ==> !Locked(run.steps[j]))
  }

  ghost predicate IsStep(run: Run, k: nat, c: Context)
    requires |run.states| == |run.steps| + 1 && k < |run.steps|
  {
    && ReadsInOrder(run, k)
    && Next(run.states[k], run.states[k + 1], run.steps[k], run.states[SeenAt(run, k)].access, c)
  }

  ghost predicate IsRun(run: Run, c: Context)
  {
    && |run.states| == |run.steps| + 1
    && forall k :: 0 <= k < |run.steps| ==> IsStep(run, k, c)
  }

  ghost predicate World(c: Context)
  {
    CollisionFree(c.site.world.inspector.hash) && StrictTotal(c.site.world.inspector.before)
  }

  // ---- Calls of one store make a run ----

  /** Calls in the order they take the lock. A touch after an import is two calls, its write names the read by number. */
  datatype Call =
    | CallResolve(env: Environment, nowMs: int, lockBusy: bool)
    | CallUpload(source: Artifact, sourceAt: seq<Segment>, prepared: Preparation, replace: Option<Digest>, readable: Readable,
                 quarantine: Faults, f: Faults, nowMs: int, writable: bool)
    | CallImport(staged: Entry, replace: Option<Digest>, readable: Readable, quarantine: Faults, f: Faults, late: bool,
                 time: int)
    | CallPruneEntry(removal: Removal, f: Faults, removable: bool)
    | CallPruneRestore(nowMs: int, fails: bool)
    | CallPruneInvalid(nowMs: int, fails: bool)
    | ReadForTouch(nowMs: int)
    | WriteTouch(n: nat, time: int, writable: bool)

  datatype Pending = Pending(record: Option<Access>, nowMs: int)

  /** What the methods of the store ask of their callers. */
  ghost predicate Callable(call: Call)
  {
    match call
    case CallResolve(env, _, _) => (env.codec.Some? ==> Bounded(env.codec.value)) && !env.undecodable.Restored?
    case CallUpload(source, _, _, _, _, _, _, _, _) => Stored(source)
    case CallImport(staged, _, _, _, _, _, _) => StoredEntry(staged)
    case _ => true
  }

  /** Each locked method of the store is a step; `at` numbers the state it is called in. */
  method Perform(store: CacheStore, call: Call, ghost at: nat) returns (ghost step: Step)
    requires store.Valid() && Callable(call) && !call.ReadForTouch? && !call.WriteTouch?
    modifies store.dirs, store.accessFile
    ensures store.Valid() && Next(old(store.View()), store.View(), step, old(store.View()).access, store.c)
    ensures Locked(step) && (step.Resolve? || step.Upload? ==> step.at == at)
  {
    hide StrictTotal, Bounded, Stored, ResolveStep, PublishStep, MadeFrom, ValidEntry, Servable, Stageable, EntryFor;
    hide PublicationFails;
    match call
    case CallResolve(env, nowMs, lockBusy) =>
      var o := store.Resolve(env, nowMs, lockBusy);
      step := Resolve(o, at, nowMs, env.writable);
    case CallUpload(source, sourceAt, prepared, replace, readable, quarantine, f, nowMs, writable) =>
      var o, _ := store.Upload(source, sourceAt, prepared, replace, readable, quarantine, f, nowMs, writable);
      step := Upload(o, source, replace, readable.entry, at, nowMs, writable);
    case CallImport(staged, replace, readable, quarantine, f, late, time) =>
      var o := store.Import(staged, replace, readable, quarantine, f, late);
      step := Import(o, replace, readable.entry, time);
    case CallPruneEntry(removal, f, removable) =>
      var removed := store.PruneEntry(removal, f, removable);
      step := PruneEntry(removal, removed, removal.nowMs);
    case CallPruneRestore(nowMs, fails) =>
      var removed := store.PruneRestore(nowMs, fails);
      step := PruneRestore(nowMs, nowMs);
    case CallPruneInvalid(nowMs, fails) =>
      var removed := store.PruneInvalidEntry(nowMs, fails);
      step := PruneInvalid(nowMs, nowMs);
  }

  lemma OneMoreStep(run: Run, t: SlotState, step: Step, c: Context)
    requires IsRun(run, c)
    requires var k := |run.steps|; var more := Run(run.states + [t], run.steps + [step]);
      ReadsInOrder(more, k) && Next(run.states[k], t, step, run.states[SeenAt(more, k)].access, c)
    ensures IsRun(Run(run.states + [t], run.steps + [step]), c)
  {
    hide Next;
    var more := Run(run.states + [t], run.steps + [step]);
    forall k | 0 <= k < |more.steps| ensures IsStep(more, k, c) {
      if k < |run.steps| {
        assert IsStep(run, k, c);
      }
    }
  }

  /** A record waiting to be written was made from the state its read saw. */
  ghost predicate ReadAt(run: Run, p: Pending, at: nat)
  {
    && at < |run.states|
    && p.record == if run.states[at].access.Irregular? then None
                   else Some(Touched(run.states[at].access, p.nowMs, DEFAULT_ACCESS_LEASE_MS))
  }

  /** Any calls of one store, with the touches of imports interleaved in any way, make a run of its slot. */
  method Serve(store: CacheStore, calls: seq<Call>) returns (ghost run: Run)
    requires store.Valid() && forall k :: 0 <= k < |calls| ==> Callable(calls[k])
    modifies store.dirs, store.accessFile
    ensures store.Valid() && IsRun(run, store.c)
    ensures run.states[0] == old(store.View()) && run.states[|run.steps|] == store.View()
  {
    hide Callable, Next, Touched, StrictTotal;
    var pending: seq<Pending> := [];
    ghost var seenAt: seq<nat> := [];
    run := Run([store.View()], []);
    for k := 0 to |calls|
      invariant store.Valid() && IsRun(run, store.c)
      invariant run.states[0] == old(store.View()) && run.states[|run.steps|] == store.View()
      invariant |seenAt| == |pending| && forall n :: 0 <= n < |pending| ==> ReadAt(run, pending[n], seenAt[n])
    {
      ghost var at := |run.steps|;
      match calls[k] {
        case ReadForTouch(nowMs) =>
          var record := store.accessFile.Renewed(nowMs, DEFAULT_ACCESS_LEASE_MS);
          pending := pending + [Pending(record, nowMs)];
          seenAt := seenAt + [at];
        case WriteTouch(n, time, writable) =>
          if n < |pending| {
            var written := store.accessFile.Replace(pending[n].record, writable);
            ghost var step := Touch(seenAt[n], pending[n].nowMs, time, writable);
            WriteIsStep(run, store.View(), pending[n], step, store.c);
            OneMoreStep(run, store.View(), step, store.c);
            run := Run(run.states + [store.View()], run.steps + [step]);
          }
        case call =>
          ghost var step := Perform(store, call, at);
          OneMoreStep(run, store.View(), step, store.c);
          run := Run(run.states + [store.View()], run.steps + [step]);
      }
    }
  }

  lemma WriteIsStep(run: Run, t: SlotState, p: Pending, step: Step, c: Context)
    requires IsRun(run, c) && step.Touch? && ReadAt(run, p, step.at) && step.nowMs == p.nowMs
    requires var s := run.states[|run.steps|];
      t == s.(access := if step.writable && p.record.Some? then p.record.value else s.access)
    ensures Next(run.states[|run.steps|], t, step, run.states[step.at].access, c)
  {
    hide IsRun, Touched;
  }

  // ---- Hits return what was committed ----

  predicate Publishes(step: Step) { (step.Upload? || step.Import?) && IsPublished(step.p) }

  /** The manifest in place at `k` was committed by step `j`. */
  predicate CommittedBy(run: Run, j: nat, k: nat)
    requires |run.states| == |run.steps| + 1 && k < |run.states|
  {
    && j < k && Publishes(run.steps[j])
    && run.states[k].entry.Some? && run.states[j + 1].entry.Some?
    && run.states[k].entry.value.manifest == run.states[j + 1].entry.value.manifest
  }

  lemma ManifestStays(s: SlotState, t: SlotState, step: Step, seen: Access, c: Context)
    requires Next(s, t, step, seen, c) && t.entry.Some? && !Publishes(step)
    ensures s.entry.Some? && t.entry.value.manifest == s.entry.value.manifest
  {
    hide ValidEntry, Attests, Fresh, MadeFrom;
  }

  /** A manifest in a slot that started empty was committed by a publication. */
  lemma {:induction false} EveryManifestIsCommitted(run: Run, k: nat, c: Context)
    requires IsRun(run, c) && run.states[0].entry.None? && k < |run.states| && run.states[k].entry.Some?
    ensures exists j :: CommittedBy(run, j, k)
  {
    hide Next;
    if k > 0 {
      if Publishes(run.steps[k - 1]) {
        assert CommittedBy(run, k - 1, k);
      } else {
        assert IsStep(run, k - 1, c);
        ManifestStays(run.states[k - 1], run.states[k], run.steps[k - 1], run.states[SeenAt(run, k - 1)].access, c);
        EveryManifestIsCommitted(run, k - 1, c);
        var j :| CommittedBy(run, j, k - 1);
        assert CommittedBy(run, j, k);
      }
    }
  }

  /** What a publication is known to have committed: an upload its source, an import its unpacked artifact. */
  predicate Committed(run: Run, j: nat, artifact: Artifact)
    requires |run.states| == |run.steps| + 1 && j < |run.steps|
  {
    && (run.steps[j].Upload? ==> artifact == run.steps[j].source)
    && (run.states[j + 1].entry.Some? && run.states[j + 1].entry.value.manifest.Some?
        && run.states[j + 1].entry.value.manifest.value.payload.None? ==>
          run.states[j + 1].entry.value.artifact == Some(artifact))
  }

  lemma CommittedIsUnique(s: SlotState, t: SlotState, step: Step, artifact: Artifact, seen: Access, c: Context)
    requires World(c) && Next(s, t, step, seen, c) && Publishes(step)
    requires t.entry.Some? && t.entry.value.manifest.Some?
    requires Attests(t.entry.value.manifest.value.artifact, artifact, c.site.world.inspector)
    ensures step.Upload? ==> artifact == step.source
    ensures t.entry.value.manifest.value.payload.None? ==> t.entry.value.artifact == Some(artifact)
  {
    var m := t.entry.value.manifest.value;
    hide Attests, Acceptable, StrictTotal, WellFormedManifest, CollisionFree;
    if step.Upload? {
      AttestedIsUnique(m.artifact, artifact, step.source, c.site.world.inspector);
    }
    if m.payload.None? {
      AttestedIsUnique(m.artifact, artifact, t.entry.value.artifact.value, c.site.world.inspector);
    }
  }

  /** A hit returns exactly the artifact named by the committed manifest of this platform and fingerprint: whatever was
      damaged, it is the very artifact that was uploaded, or unpacked from an import. */
  lemma HitFidelity(run: Run, k: nat, c: Context)
    requires World(c) && IsRun(run, c) && run.states[0].entry.None?
    requires k < |run.steps| && run.steps[k].Resolve? && run.steps[k].o.Hit?
    ensures exists j :: CommittedBy(run, j, k) && Committed(run, j, run.steps[k].o.artifact)
    ensures var m := run.states[k].entry.value.manifest;
            && m.Some? && NamesSlot(m.value, c.identity, c.id, c.site)
            && Attests(m.value.artifact, run.steps[k].o.artifact, c.site.world.inspector)
  {
    assert IsStep(run, k, c);
    HitNamesSlot(run.states[k], run.states[k + 1], run.steps[k], run.states[SeenAt(run, k)].access, c);
    hide Next, Attests, Acceptable, StrictTotal, WellFormedManifest, CollisionFree, HoldsPayload, HoldsArtifact, CommittedBy;
    EveryManifestIsCommitted(run, k, c);
    var j :| CommittedBy(run, j, k);
    CommitsTheHit(run, j, k, c);
  }

  lemma HitNamesSlot(s: SlotState, t: SlotState, step: Step, seen: Access, c: Context)
    requires Next(s, t, step, seen, c) && step.Resolve? && step.o.Hit?
    ensures s.entry.Some? && s.entry.value.manifest.Some? && NamesSlot(s.entry.value.manifest.value, c.identity, c.id, c.site)
    ensures Attests(s.entry.value.manifest.value.artifact, step.o.artifact, c.site.world.inspector)
  {
    hide Attests, HoldsPayload, HoldsArtifact, WellFormedManifest;
  }

  lemma CommitsTheHit(run: Run, j: nat, k: nat, c: Context)
    requires World(c) && IsRun(run, c) && k < |run.steps| && run.steps[k].Resolve? && run.steps[k].o.Hit?
    requires CommittedBy(run, j, k)
    ensures Committed(run, j, run.steps[k].o.artifact)
  {
    hide Next, World, Attests;
    assert IsStep(run, k, c) && IsStep(run, j, c);
    HitNamesSlot(run.states[k], run.states[k + 1], run.steps[k], run.states[SeenAt(run, k)].access, c);
    CommittedIsUnique(run.states[j], run.states[j + 1], run.steps[j], run.steps[k].o.artifact,
                      run.states[SeenAt(run, j)].access, c);
  }

  // ---- Leases ----

  /** The step puts an access record in place. */
  predicate Touches(step: Step)
  {
    match step
    case Resolve(o, _, _, writable) => o.Hit? && writable
    case Upload(p, _, _, _, _, _, writable) => (p.Existing? || p.Published?) && writable
    case Touch(_, _, _, writable) => writable
    case _ => false
  }

  /** The clock reading a touch starts its lease from. */
  function TouchedAt(step: Step): int { if step.Touch? then step.nowMs else step.time }

  predicate Leases(run: Run, i: nat)
    requires |run.states| == |run.steps| + 1 && i < |run.steps| && SeenAt(run, i) <= i
  {
    Touches(run.steps[i]) && !run.states[SeenAt(run, i)].access.Irregular?
  }

  function LeaseEnd(step: Step): int { TouchedAt(step) + DEFAULT_ACCESS_LEASE_MS }

  predicate IsPrune(step: Step) { step.PruneEntry? || step.PruneRestore? || step.PruneInvalid? }

  /** The time a prune decided by, read no later than it acts. */
  function DecidedAt(step: Step): int
    requires IsPrune(step)
  {
    match step
    case PruneEntry(removal, _, _) => removal.nowMs
    case PruneRestore(nowMs, _) => nowMs
    case PruneInvalid(nowMs, _) => nowMs
  }

  predicate ClockNeverGoesBack(run: Run)
  {
    && (forall i, j :: 0 <= i <= j < |run.steps| ==> run.steps[i].time <= run.steps[j].time)
    && (forall i :: 0 <= i < |run.steps| && IsPrune(run.steps[i]) ==> DecidedAt(run.steps[i]) <= run.steps[i].time)
    && (forall i :: 0 <= i < |run.steps| ==> TouchedAt(run.steps[i]) <= run.steps[i].time)
  }

  predicate HoldsLease(a: Access, until: int) { Parses(a) && a.protectedUntil >= until }

  lemma LeaseIsTaken(s: SlotState, t: SlotState, step: Step, seen: Access, c: Context)
    requires Next(s, t, step, seen, c) && Touches(step) && !seen.Irregular?
    ensures HoldsLease(t.access, LeaseEnd(step))
  {
    hide ValidEntry, Attests, Fresh, MadeFrom, Touched, Parses;
    TouchExtends(seen, TouchedAt(step), DEFAULT_ACCESS_LEASE_MS);
  }

  /** Nothing but damage to the record, and touches that read it before the lease, ends a lease early; and under the lease
      no prune step takes anything. */
  lemma LeaseIsKept(s: SlotState, t: SlotState, step: Step, seen: Access, until: int, c: Context)
    requires Next(s, t, step, seen, c) && HoldsLease(s.access, until) && !step.DamageAccess?
    requires Touches(step) ==> HoldsLease(seen, until)
    requires IsPrune(step) ==> DecidedAt(step) < until
    ensures HoldsLease(t.access, until)
    ensures IsPrune(step) ==> t == s
  {
    hide ValidEntry, Attests, Fresh, MadeFrom, Touched;
    if Touches(step) {
      TouchExtends(seen, TouchedAt(step), DEFAULT_ACCESS_LEASE_MS);
    }
  }

  /** No touch between the two steps writes over the lease of step `i` what it read before. Two touches under the lock
      never do; an import's touch may, and may suffer it. */
  predicate NoStaleTouch(run: Run, i: nat, k: nat)
    requires i < k <= |run.steps|
  {
    forall j :: i < j < k && Touches(run.steps[j]) && !(Locked(run.steps[i]) && Locked(run.steps[j])) ==> i < SeenAt(run, j)
  }

  lemma SeenAfter(run: Run, i: nat, j: nat, k: nat, c: Context)
    requires IsRun(run, c) && i < j < k <= |run.steps| && NoStaleTouch(run, i, k) && Touches(run.steps[j])
    ensures i < SeenAt(run, j) <= j
  {
    hide Next;
    assert IsStep(run, j, c);
  }

  lemma {:induction false} LeaseLasts(run: Run, i: nat, k: nat, c: Context)
    requires IsRun(run, c) && ClockNeverGoesBack(run) && i < k <= |run.steps| && NoStaleTouch(run, i, k)
    requires IsStep(run, i, c) && Leases(run, i)
    requires forall j :: i < j < k ==> !run.steps[j].DamageAccess?
    requires forall j :: i < j < k && IsPrune(run.steps[j]) ==> run.steps[j].time < LeaseEnd(run.steps[i])
    ensures HoldsLease(run.states[k].access, LeaseEnd(run.steps[i]))
    decreases k
  {
    hide Next, HoldsLease, Touches;
    var last := k - 1;
    assert IsStep(run, last, c);
    var seen := SeenAt(run, last);
    if last == i {
      LeaseIsTaken(run.states[last], run.states[k], run.steps[last], run.states[seen].access, c);
    } else {
      LeaseLasts(run, i, last, c);
      if Touches(run.steps[last]) {
        SeenAfter(run, i, last, k, c);
        LeaseLasts(run, i, seen, c);
      }
      LeaseIsKept(run.states[last], run.states[k], run.steps[last], run.states[seen].access, LeaseEnd(run.steps[i]), c);
    }
  }

  /** While the access record stays readable and no touch writes over the lease what it read before, no prune removes an
      entry or its restore within fifteen minutes of a hit, an upload or an import. */
  lemma LeaseSafety(run: Run, i: nat, k: nat, c: Context)
    requires IsRun(run, c) && ClockNeverGoesBack(run) && i < k < |run.steps| && NoStaleTouch(run, i, k)
    requires IsStep(run, i, c) && Leases(run, i)
    requires forall j :: i < j < k ==> !run.steps[j].DamageAccess?
    requires IsPrune(run.steps[k]) && run.steps[k].time < TouchedAt(run.steps[i]) + 900_000
    ensures run.states[k + 1] == run.states[k]
  {
    hide Next, HoldsLease, Touches;
    LeaseLasts(run, i, k, c);
    assert IsStep(run, k, c);
    PruneTouchesNothing(run.steps[k]);
    LeaseIsKept(run.states[k], run.states[k + 1], run.steps[k], run.states[SeenAt(run, k)].access, LeaseEnd(run.steps[i]), c);
  }

  lemma PruneTouchesNothing(step: Step)
    requires IsPrune(step)
    ensures !Touches(step)
  {
  }

  // ---- An access after the plan ----

  predicate AccessedSince(a: Access, since: int) { Parses(a) && a.lastAccessedAt >= since }

  lemma AccessIsKept(s: SlotState, t: SlotState, step: Step, seen: Access, since: int, c: Context)
    requires Next(s, t, step, seen, c) && AccessedSince(s.access, since) && !step.DamageAccess?
    requires Touches(step) ==> AccessedSince(seen, since)
    requires IsPrune(step) ==> t.access == s.access
    ensures AccessedSince(t.access, since)
  {
    hide ValidEntry, Attests, Fresh, MadeFrom, Touched;
    if Touches(step) {
      TouchExtends(seen, TouchedAt(step), DEFAULT_ACCESS_LEASE_MS);
    }
  }

  lemma AccessIsTaken(s: SlotState, t: SlotState, step: Step, seen: Access, c: Context)
    requires Next(s, t, step, seen, c) && Touches(step) && !seen.Irregular?
    ensures AccessedSince(t.access, TouchedAt(step))
  {
    hide ValidEntry, Attests, Fresh, MadeFrom, Touched, Parses;
    TouchExtends(seen, TouchedAt(step), DEFAULT_ACCESS_LEASE_MS);
  }

  lemma {:induction false} AccessLasts(run: Run, i: nat, k: nat, c: Context)
    requires IsRun(run, c) && i < k <= |run.steps| && NoStaleTouch(run, i, k)
    requires IsStep(run, i, c) && Leases(run, i)
    requires forall j :: i < j < k ==> !run.steps[j].DamageAccess?
    requires forall j :: i < j < k && IsPrune(run.steps[j]) ==> run.states[j + 1].access == run.states[j].access
    ensures AccessedSince(run.states[k].access, TouchedAt(run.steps[i]))
    decreases k
  {
    hide Next, AccessedSince, Touches, IsPrune;
    var last := k - 1;
    assert IsStep(run, last, c);
    var seen := SeenAt(run, last);
    if last == i {
      AccessIsTaken(run.states[last], run.states[k], run.steps[last], run.states[seen].access, c);
    } else {
      AccessLasts(run, i, last, c);
      if Touches(run.steps[last]) {
        SeenAfter(run, i, last, k, c);
        AccessLasts(run, i, seen, c);
      }
      AccessIsKept(run.states[last], run.states[k], run.steps[last], run.states[seen].access, TouchedAt(run.steps[i]), c);
    }
  }

  /** An entry accessed after a plan was made is not removed by that plan, nor one accessed within the retention period as
      expired, however long ago its lease was over. */
  lemma AccessSavesFromPlan(run: Run, i: nat, k: nat, c: Context)
    requires IsRun(run, c) && i < k < |run.steps| && NoStaleTouch(run, i, k)
    requires IsStep(run, i, c) && Leases(run, i)
    requires forall j :: i < j < k ==> !run.steps[j].DamageAccess?
    requires forall j :: i < j < k && IsPrune(run.steps[j]) ==> run.states[j + 1].access == run.states[j].access
    requires run.steps[k].PruneEntry?
    requires var removal := run.steps[k].removal;
      || removal.plannedAccess < TouchedAt(run.steps[i])
      || (removal.reason.Expired? && (removal.policy.retentionMs.None?
                                      || TouchedAt(run.steps[i]) >= removal.nowMs - removal.policy.retentionMs.value))
    ensures run.states[k + 1] == run.states[k]
  {
    hide Next, Touches, IsPrune;
    AccessLasts(run, i, k, c);
    assert IsStep(run, k, c);
    MayNotGo(run.states[k], run.states[k + 1], run.steps[k], run.states[SeenAt(run, k)].access, c);
  }

  lemma MayNotGo(s: SlotState, t: SlotState, step: Step, seen: Access, c: Context)
    requires Next(s, t, step, seen, c) && step.PruneEntry? && !EntryMayGo(s.access, step.removal)
    ensures t == s
  {
  }

  /** A removal goes through exactly if nothing accessed the entry after the plan, no lease is left, and an expired one is
      still past its retention. */
  lemma RemovalIffUnused(s: SlotState, removal: Removal, time: int, c: Context)
    requires s.entry.Some? && s.access.Record? && s.access.lastAccessedAt <= s.access.protectedUntil
    ensures Next(s, SlotState(None, None, Missing), PruneEntry(removal, true, time), s.access, c) <==>
      && s.access.lastAccessedAt <= removal.plannedAccess && s.access.protectedUntil <= removal.nowMs
      && (removal.reason.Expired? ==>
            removal.policy.retentionMs.Some? && s.access.lastAccessedAt + removal.policy.retentionMs.value < removal.nowMs)
  {
  }

  // ---- Both conditions on leases are needed ----

  /** A hit on a plain entry that was never accessed. */
  ghost predicate PlainHit(s: SlotState, o: ResolveOutcome, c: Context)
  {
    && ValidNow(s, c) && s.entry.value.manifest.value.payload.None? && s.access.Missing?
    && o.Hit? && s.entry.value.artifact == Some(o.artifact)
  }

  lemma PlainHitIsStep(s: SlotState, o: ResolveOutcome, time: int, c: Context)
    requires PlainHit(s, o, c)
    ensures Next(s, s.(access := Touched(Missing, time, DEFAULT_ACCESS_LEASE_MS)), Resolve(o, 0, time, true), Missing, c)
  {
    hide ValidEntry, Attests, Touched;
    ArtifactIsThere(s.entry.value, c);
  }

  lemma RemovalIsStep(s: SlotState, removal: Removal, time: int, c: Context)
    requires s.entry.Some? && EntryMayGo(s.access, removal)
    ensures Next(s, SlotState(None, None, Missing), PruneEntry(removal, true, time), s.access, c)
  {
  }

  lemma TouchIsStep(s: SlotState, seen: Access, at: nat, nowMs: int, time: int, c: Context)
    requires !seen.Irregular?
    ensures Next(s, s.(access := Touched(seen, nowMs, DEFAULT_ACCESS_LEASE_MS)), Touch(at, nowMs, time, true), seen, c)
  {
  }

  lemma DamageIsStep(s: SlotState, access: Access, time: int, c: Context)
    ensures Next(s, s.(access := access), DamageAccess(access, time), s.access, c)
  {
  }

  /** Three steps that follow one another make a run. */
  lemma ThreeSteps(run: Run, c: Context)
    requires |run.states| == 4 && |run.steps| == 3
    requires IsStep(run, 0, c) && IsStep(run, 1, c) && IsStep(run, 2, c)
    ensures IsRun(run, c)
  {
    hide IsStep;
  }

  /** The first condition is needed: once the record of a leased entry cannot be read, a removal may go through at once. */
  lemma UnreadableRecordProtectsNothing(s: SlotState, o: ResolveOutcome, time: int, removal: Removal, c: Context)
    requires PlainHit(s, o, c)
    ensures var leased := s.(access := Touched(Missing, time, DEFAULT_ACCESS_LEASE_MS));
            var run := Run([s, leased, leased.(access := Malformed), SlotState(None, None, Missing)],
                           [Resolve(o, 0, time, true), DamageAccess(Malformed, time), PruneEntry(removal, true, time)]);
            IsRun(run, c) && Leases(run, 0) && NoStaleTouch(run, 0, 2) && run.states[3].entry.None?
  {
    hide ValidEntry, Attests, Touched, Next;
    var leased := s.(access := Touched(Missing, time, DEFAULT_ACCESS_LEASE_MS));
    var run := Run([s, leased, leased.(access := Malformed), SlotState(None, None, Missing)],
                   [Resolve(o, 0, time, true), DamageAccess(Malformed, time), PruneEntry(removal, true, time)]);
    PlainHitIsStep(s, o, time, c);
    DamageIsStep(leased, Malformed, time, c);
    RemovalIsStep(leased.(access := Malformed), removal, time, c);
    ThreeSteps(run, c);
  }

  /** A removal that leaves alone what is protected, or was accessed after the plan. */
  predicate ByCount(removal: Removal, accessed: int) { removal.reason.MaxEntries? && accessed <= removal.plannedAccess }

  /** The second condition is needed: the touch of an import reads the record before a hit and writes it after, and the
      leased entry goes as soon as the older lease is over. It goes exactly then. */
  lemma StaleTouchEndsLease(s: SlotState, o: ResolveOutcome, before: int, time: int, removal: Removal, c: Context)
    requires PlainHit(s, o, c) && before < time && ByCount(removal, before)
    requires removal.nowMs < time + DEFAULT_ACCESS_LEASE_MS
    ensures var leased := s.(access := Touched(Missing, time, DEFAULT_ACCESS_LEASE_MS));
            var stale := s.(access := Touched(Missing, before, DEFAULT_ACCESS_LEASE_MS));
            var run := Run([s, leased, stale, SlotState(None, None, Missing)],
                           [Resolve(o, 0, time, true), Touch(0, before, time, true), PruneEntry(removal, true, removal.nowMs)]);
            && (IsRun(run, c) <==> before + DEFAULT_ACCESS_LEASE_MS <= removal.nowMs)
            && Leases(run, 0) && removal.nowMs < LeaseEnd(run.steps[0]) && run.states[3].entry.None?
  {
    hide ValidEntry, Attests, Next;
    var leased := s.(access := Touched(Missing, time, DEFAULT_ACCESS_LEASE_MS));
    var stale := s.(access := Touched(Missing, before, DEFAULT_ACCESS_LEASE_MS));
    var run := Run([s, leased, stale, SlotState(None, None, Missing)],
                   [Resolve(o, 0, time, true), Touch(0, before, time, true), PruneEntry(removal, true, removal.nowMs)]);
    PlainHitIsStep(s, o, time, c);
    TouchIsStep(leased, Missing, 0, before, time, c);
    if before + DEFAULT_ACCESS_LEASE_MS <= removal.nowMs {
      RemovalIsStep(stale, removal, removal.nowMs, c);
      ThreeSteps(run, c);
    }
    if IsRun(run, c) {
      assert IsStep(run, 2, c);
      RemovalNeedsLeave(stale, run.states[3], removal, removal.nowMs, c);
    }
  }

  lemma RemovalNeedsLeave(s: SlotState, t: SlotState, removal: Removal, time: int, c: Context)
    requires Next(s, t, PruneEntry(removal, true, time), s.access, c)
    ensures EntryMayGo(s.access, removal)
  {
  }

  // ---- Generations ----

  predicate Changes(run: Run, k: nat)
    requires |run.states| == |run.steps| + 1 && k < |run.steps|
  {
    run.states[k + 1].entry != run.states[k].entry
  }

  /** Whoever validated the entry could read its files. */
  predicate CouldRead(step: Step) { step.Upload? || step.Import? ==> step.readable }

  /** A valid entry is followed by another entry only when its payload digest was named, and then by a schema 1 entry. */
  lemma ReplacementNamesPayload(s: SlotState, t: SlotState, step: Step, seen: Access, c: Context)
    requires Next(s, t, step, seen, c) && ValidNow(s, c) && !step.Damage? && CouldRead(step)
    requires t.entry.Some? && t.entry != s.entry
    ensures Publishes(step) && Names(step.replace, s.entry.value)
    ensures s.entry.value.manifest.value.payload.Some? && t.entry.value.manifest.Some?
    ensures t.entry.value.manifest.value.payload.None?
  {
    hide ValidEntry, Attests, MadeFrom;
  }

  /** A valid entry gives way unnamed exactly when its files could not be read: a failed read counts as an invalid entry. */
  lemma UnnamedReplacementIffUnreadable(s: SlotState, e: Entry, replace: Option<Digest>, readable: bool, time: int, c: Context)
    requires ValidNow(s, c) && Fresh(e, c)
    requires !(Names(replace, s.entry.value) && e.manifest.value.payload.None?)
    ensures Next(s, SlotState(Some(e), None, s.access), Import(Published, replace, readable, time), s.access, c) <==> !readable
  {
    hide ValidEntry;
  }

  lemma {:induction false} PlainStaysPlain(run: Run, i: nat, j: nat, c: Context)
    requires IsRun(run, c) && i <= j < |run.states|
    requires forall k :: i <= k <= j ==> ValidNow(run.states[k], c)
    requires forall k :: i <= k < j ==> !run.steps[k].Damage? && CouldRead(run.steps[k])
    requires ValidNow(run.states[i], c) && run.states[i].entry.value.manifest.value.payload.None?
    ensures run.states[j].entry == run.states[i].entry
    decreases j
  {
    hide ValidEntry, Next;
    if i < j {
      PlainStaysPlain(run, i, j - 1, c);
      assert IsStep(run, j - 1, c);
      if run.states[j].entry != run.states[j - 1].entry {
        ReplacementNamesPayload(run.states[j - 1], run.states[j], run.steps[j - 1], run.states[SeenAt(run, j - 1)].access, c);
      }
    }
  }

  /** Between two times a slot is empty or invalid, its entry changes at most once, as long as its files can be read. */
  lemma AtMostOneChange(run: Run, i: nat, j: nat, k: nat, l: nat, c: Context)
    requires IsRun(run, c) && i <= k < l < j < |run.states|
    requires forall n :: i <= n <= j ==> ValidNow(run.states[n], c)
    requires forall n :: i <= n < j ==> !run.steps[n].Damage? && CouldRead(run.steps[n])
    ensures !(Changes(run, k) && Changes(run, l))
  {
    hide ValidEntry, Next;
    if Changes(run, k) {
      assert IsStep(run, k, c);
      ReplacementNamesPayload(run.states[k], run.states[k + 1], run.steps[k], run.states[SeenAt(run, k)].access, c);
      PlainStaysPlain(run, k + 1, l, c);
      PlainStaysPlain(run, k + 1, l + 1, c);
    }
  }

  // ---- Stale restores ----

  /** A publication leaves no restore of an earlier generation exactly when it replaced an entry or found no restore. */
  lemma PublishedSlotIsClean(s: SlotState, t: SlotState, step: Step, seen: Access, c: Context)
    requires Next(s, t, step, seen, c) && Publishes(step)
    ensures t.restore.None? <==> s.entry.Some? || s.restore.None?
  {
    hide ValidEntry, Attests, MadeFrom, Fresh;
  }

  /** What an upload of `source` may publish. */
  ghost predicate Uploadable(e: Entry, source: Artifact, c: Context) { Fresh(e, c) && MadeFrom(e, source, c) }

  /** From an empty slot: a compressed entry is published and materialized, its payload is lost, a prune removes the invalid
      entry after the lease, and another entry is published beside the old restore. */
  function OrphaningRun(e: Entry, source: Artifact, other: Entry, otherSource: Artifact, time: int): Run
    requires e.manifest.Some? && e.manifest.value.payload.Some?
  {
    var record := Touched(Missing, time, DEFAULT_ACCESS_LEASE_MS);
    var again := Touched(record, time, DEFAULT_ACCESS_LEASE_MS);
    var later := time + DEFAULT_ACCESS_LEASE_MS;
    var restore := Some(Restore(Some(RecordFor(e.manifest.value)), Some(source)));
    Run([ SlotState(None, None, Missing),
          SlotState(Some(e), None, record),
          SlotState(Some(e), restore, again),
          SlotState(Some(e.(payload := None)), restore, again),
          SlotState(None, restore, again),
          SlotState(Some(other), restore, Touched(again, later, DEFAULT_ACCESS_LEASE_MS)) ],
        [ Upload(Published, source, None, true, 0, time, true),
          Resolve(Hit(source), 1, time, true),
          Damage(time),
          PruneInvalid(later, later),
          Upload(Published, otherSource, None, true, 4, later, true) ])
  }

  lemma PruningInvalidEntryOrphansRestore(e: Entry, source: Artifact, other: Entry, otherSource: Artifact, time: int,
                                          c: Context)
    requires Uploadable(e, source, c) && e.manifest.value.payload.Some? && Uploadable(other, otherSource, c)
    ensures var run := OrphaningRun(e, source, other, otherSource, time);
            && IsRun(run, c) && ClockNeverGoesBack(run) && !ValidNow(run.states[3], c)
            && run.states[5].entry == Some(other) && run.states[5].restore == run.states[2].restore
            && run.states[5].restore.Some?
  {
    hide Next, ValidEntry, NamesSlot, MadeFrom, Touched;
    var run := OrphaningRun(e, source, other, otherSource, time);
    OrphaningSteps(run, e, source, other, otherSource, time, c);
    forall k | 0 <= k < 5 ensures IsStep(run, k, c) {
      ReadsTheCurrentRecord(run, k, c);
    }
  }

  lemma ReadsTheCurrentRecord(run: Run, k: nat, c: Context)
    requires |run.states| == |run.steps| + 1 && k < |run.steps| && SeenAt(run, k) == k
    requires Next(run.states[k], run.states[k + 1], run.steps[k], run.states[k].access, c)
    ensures IsStep(run, k, c)
  {
    hide Next;
  }

  lemma OrphaningSteps(run: Run, e: Entry, source: Artifact, other: Entry, otherSource: Artifact, time: int, c: Context)
    requires Uploadable(e, source, c) && e.manifest.value.payload.Some? && Uploadable(other, otherSource, c)
    requires run == OrphaningRun(e, source, other, otherSource, time)
    ensures Next(run.states[0], run.states[1], run.steps[0], run.states[0].access, c)
    ensures Next(run.states[1], run.states[2], run.steps[1], run.states[1].access, c)
    ensures Next(run.states[2], run.states[3], run.steps[2], run.states[2].access, c)
    ensures Next(run.states[3], run.states[4], run.steps[3], run.states[3].access, c)
    ensures Next(run.states[4], run.states[5], run.steps[4], run.states[4].access, c)
    ensures !ValidNow(run.states[3], c)
  {
    hide Attests, HoldsArtifact, WellFormedManifest;
  }
}

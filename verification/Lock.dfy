/** `acquireEntryLock` and `releaseEntryLock`: processes of one host interleaved at single file operations. */
module Lock {
  import opened Options

  type Pid = nat

  /** What `owner.json` records. */
  datatype Owner = Owner(token: nat, pid: Pid)

  /** The lock directory; `maker` is who created it, which nobody can read. */
  datatype Dir = Absent | Present(owner: Option<Owner>, mtime: int, maker: Pid)

  /** Where a process is between two file operations. */
  datatype Pc =
    | Idle
    | Trying(token: nat)                                                           // about to create the directory
    | Made(token: nat)                                                             // created; owner not yet written
    | Held(token: nat)                                                             // the caller has the lock
    | Clearing                                                                     // about to remove the owner file
    | Removing                                                                     // about to remove the directory
    | Contended                                                                    // the directory already exists
    | Testing(nowMs: int)                                                          // clock read for the stale test
    | SawOwner(nowMs: int, owner: Option<Owner>)                                   // owner file read
    | SawStat(nowMs: int, owner: Option<Owner>, mtime: int)                        // directory times read
    | Breaking                                                                     // judged stale; about to rename
    | Dead

  datatype State = State(dir: Dir, pcs: map<Pid, Pc>, clock: int)

  datatype Step =
    | Start(p: Pid, token: nat)
    | Mkdir(p: Pid)
    | WriteOwner(p: Pid)
    | WriteFails(p: Pid)
    | ReleaseRead(p: Pid)
    | Unlink(p: Pid)
    | Rmdir(p: Pid)
    | ReadClock(p: Pid)
    | ReadOwner(p: Pid)
    | Stat(p: Pid)
    | Judge(p: Pid)
    | Rename(p: Pid)
    | TestAndRename(p: Pid)                                                        // both as one step
    | Exit(p: Pid)
    | Tick(time: int)

  datatype Run = Run(steps: seq<Step>, startMs: int, staleMs: nat)

  function PcOf(s: State, p: Pid): Pc { if p in s.pcs then s.pcs[p] else Idle }

  function Move(s: State, p: Pid, pc: Pc): State { s.(pcs := s.pcs[p := pc]) }

  function OwnerRead(s: State): Option<Owner> { if s.dir.Present? then s.dir.owner else None }

  /** `isStale` on one set of readings; `dead` says whether the recorded process is gone. */
  predicate IsStale(owner: Option<Owner>, dead: bool, ageMs: int, staleMs: nat)
  {
    if owner.None? then ageMs > staleMs else dead
  }

  predicate OwnerDead(s: State, owner: Option<Owner>) { owner.Some? && PcOf(s, owner.value.pid).Dead? }

  predicate Enabled(s: State, step: Step)
  {
    match step
    case Start(p, _) => PcOf(s, p).Idle?
    case Mkdir(p) => PcOf(s, p).Trying?
    case WriteOwner(p) => PcOf(s, p).Made?
    case WriteFails(p) => PcOf(s, p).Made?
    case ReleaseRead(p) => PcOf(s, p).Held?
    case Unlink(p) => PcOf(s, p).Clearing?
    case Rmdir(p) => PcOf(s, p).Removing?
    case ReadClock(p) => PcOf(s, p).Contended?
    case ReadOwner(p) => PcOf(s, p).Testing?
    case Stat(p) => PcOf(s, p).SawOwner?
    case Judge(p) => PcOf(s, p).SawStat?
    case Rename(p) => PcOf(s, p).Breaking?
    case TestAndRename(p) => PcOf(s, p).Contended?
    case Exit(p) => true
    case Tick(time) => s.clock <= time
  }

  function AfterMkdir(s: State, p: Pid): State
    requires PcOf(s, p).Trying?
  {
    if s.dir.Absent? then Move(s.(dir := Present(None, s.clock, p)), p, Made(PcOf(s, p).token))
    else Move(s, p, Contended)
  }

  /** Writing creates the file in whatever directory is there now; without one it fails, and the cleanup follows. */
  function AfterWrite(s: State, p: Pid): State
    requires PcOf(s, p).Made?
  {
    if s.dir.Present? then
      Move(s.(dir := s.dir.(owner := Some(Owner(PcOf(s, p).token, p)), mtime := s.clock)), p, Held(PcOf(s, p).token))
    else Move(s, p, Clearing)
  }

  function AfterReleaseRead(s: State, p: Pid): State
    requires PcOf(s, p).Held?
  {
    var owner := OwnerRead(s);
    Move(s, p, if owner.Some? && owner.value.token == PcOf(s, p).token then Clearing else Idle)
  }

  function AfterUnlink(s: State, p: Pid): State
  {
    Move(if s.dir.Present? && s.dir.owner.Some? then s.(dir := s.dir.(owner := None, mtime := s.clock)) else s, p, Removing)
  }

  /** Only an empty directory can be removed. */
  function AfterRmdir(s: State, p: Pid): State
  {
    Move(if s.dir.Present? && s.dir.owner.None? then s.(dir := Absent) else s, p, Idle)
  }

  function AfterTestAndRename(s: State, p: Pid, staleMs: nat): State
  {
    if s.dir.Present? && IsStale(s.dir.owner, OwnerDead(s, s.dir.owner), s.clock - s.dir.mtime, staleMs)
    then Move(s.(dir := Absent), p, Idle)
    else Move(s, p, Idle)
  }

  /** A step that is not due changes nothing. */
  function Next(s: State, step: Step, staleMs: nat): State
  {
    if !Enabled(s, step) then s else
    match step
    case Start(p, token) => Move(s, p, Trying(token))
    case Mkdir(p) => AfterMkdir(s, p)
    case WriteOwner(p) => AfterWrite(s, p)
    case WriteFails(p) => Move(s, p, Clearing)
    case ReleaseRead(p) => AfterReleaseRead(s, p)
    case Unlink(p) => AfterUnlink(s, p)
    case Rmdir(p) => AfterRmdir(s, p)
    case ReadClock(p) => Move(s, p, Testing(s.clock))
    case ReadOwner(p) => Move(s, p, SawOwner(PcOf(s, p).nowMs, OwnerRead(s)))
    case Stat(p) =>
      Move(s, p, if s.dir.Present? then SawStat(PcOf(s, p).nowMs, PcOf(s, p).owner, s.dir.mtime) else Idle)
    case Judge(p) =>
      var pc := PcOf(s, p);
      Move(s, p, if IsStale(pc.owner, OwnerDead(s, pc.owner), pc.nowMs - pc.mtime, staleMs) then Breaking else Idle)
    case Rename(p) => Move(s.(dir := Absent), p, Idle)
    case TestAndRename(p) => AfterTestAndRename(s, p, staleMs)
    case Exit(p) => Move(s, p, Dead)
    case Tick(time) => s.(clock := time)
  }

  function At(run: Run, k: nat): State
    requires k <= |run.steps|
  {
    if k == 0 then State(Absent, map[], run.startMs) else Next(At(run, k - 1), run.steps[k - 1], run.staleMs)
  }

  /** The process created the directory and has not finished with it. */
  predicate Owns(pc: Pc) { pc.Made? || pc.Held? || pc.Clearing? || pc.Removing? }

  /** A live process never leaves its directory without an owner record for longer than the stale age. */
  predicate InTime(s: State, staleMs: nat)
  {
    s.dir.Present? && s.dir.owner.None? && Owns(PcOf(s, s.dir.maker)) ==> s.clock <= s.dir.mtime + staleMs
  }

  predicate AlwaysInTime(run: Run, k: nat)
    requires k <= |run.steps|
  {
    InTime(At(run, k), run.staleMs) && (k > 0 ==> AlwaysInTime(run, k - 1))
  }

  // ---- What every step keeps ----

  /** The directory in place is the one the process made, in the condition the process left it. */
  predicate Undisturbed(s: State, p: Pid)
  {
    && s.dir.Present? && s.dir.maker == p
    && match PcOf(s, p)
       case Held(token) => s.dir.owner == Some(Owner(token, p))
       case Clearing => s.dir.owner.Some? ==> s.dir.owner.value.pid == p
       case _ => s.dir.owner.None?
  }

  ghost predicate OwnersUndisturbed(s: State) { forall p :: Owns(PcOf(s, p)) ==> Undisturbed(s, p) }

  /** A rename that comes late: by now the directory is one its maker has not finished with. */
  predicate LateRename(s: State, step: Step)
  {
    step.Rename? && Enabled(s, step) && s.dir.Present? && Owns(PcOf(s, s.dir.maker))
  }

  /** Late renames, and no other steps, disturb an owner. */
  lemma StepKeepsOwners(s: State, step: Step, staleMs: nat)
    requires OwnersUndisturbed(s) && InTime(s, staleMs)
    ensures OwnersUndisturbed(Next(s, step, staleMs)) <==> !LateRename(s, step)
  {
    if LateRename(s, step) {
      assert !Undisturbed(Next(s, step, staleMs), s.dir.maker);
      return;
    }
    var t := Next(s, step, staleMs);
    forall q | Owns(PcOf(t, q)) ensures Undisturbed(t, q) {
      assert Owns(PcOf(s, q)) ==> Undisturbed(s, q);
      if !step.Tick? {
        assert Owns(PcOf(s, step.p)) ==> Undisturbed(s, step.p);
      }
    }
  }

  lemma {:induction false} OwnersStay(run: Run, k: nat)
    requires k <= |run.steps| && AlwaysInTime(run, k)
    requires forall i :: 0 <= i < k ==> !run.steps[i].Rename?
    ensures OwnersUndisturbed(At(run, k))
  {
    if k > 0 {
      OwnersStay(run, k - 1);
      hide OwnersUndisturbed, InTime, Next;
      StepKeepsOwners(At(run, k - 1), run.steps[k - 1], run.staleMs);
    }
  }

  /** With crashes at any point, but the stale test and the rename taken as one step, at most one process holds the lock
      and every removal is of the remover's own directory. */
  lemma ExclusionWithCrashes(run: Run, k: nat, p: Pid, q: Pid)
    requires k <= |run.steps| && AlwaysInTime(run, k)
    requires forall i :: 0 <= i < k ==> !run.steps[i].Rename?
    requires Owns(PcOf(At(run, k), p)) && Owns(PcOf(At(run, k), q))
    ensures p == q && At(run, k).dir.Present? && At(run, k).dir.maker == p
  {
    OwnersStay(run, k);
  }

  // ---- Separate operations, nobody exits ----

  /** What a process in the middle of a stale test has seen rules out breaking a live lock. */
  predicate Harmless(s: State, pc: Pc, staleMs: nat)
  {
    match pc
    case Testing(nowMs) => nowMs <= s.clock
    case SawOwner(nowMs, owner) =>
      nowMs <= s.clock && (owner.None? && s.dir.Present? ==> nowMs <= s.dir.mtime + staleMs)
    case SawStat(nowMs, owner, mtime) => owner.None? ==> nowMs <= mtime + staleMs
    case Breaking => false
    case Dead => false
    case _ => true
  }

  ghost predicate Calm(s: State, staleMs: nat)
  {
    && OwnersUndisturbed(s)
    && (s.dir.Present? ==> Owns(PcOf(s, s.dir.maker)))
    && (forall p :: Harmless(s, PcOf(s, p), staleMs))
  }

  lemma StepKeepsCalm(s: State, step: Step, staleMs: nat)
    requires Calm(s, staleMs) && InTime(s, staleMs) && !step.Exit?
    ensures Calm(Next(s, step, staleMs), staleMs)
  {
    assert step.Rename? ==> Harmless(s, PcOf(s, step.p), staleMs);
    StepKeepsOwners(s, step, staleMs);
    MakerStays(s, step, staleMs);
    var t := Next(s, step, staleMs);
    forall p ensures Harmless(t, PcOf(t, p), staleMs) {
      StaysHarmless(s, step, p, staleMs);
    }
  }

  lemma MakerStays(s: State, step: Step, staleMs: nat)
    requires Calm(s, staleMs) && InTime(s, staleMs) && !step.Exit?
    ensures var t := Next(s, step, staleMs); t.dir.Present? ==> Owns(PcOf(t, t.dir.maker))
  {
    if !step.Tick? {
      assert Owns(PcOf(s, step.p)) ==> Undisturbed(s, step.p);
    }
  }

  lemma StaysHarmless(s: State, step: Step, p: Pid, staleMs: nat)
    requires Calm(s, staleMs) && InTime(s, staleMs) && !step.Exit?
    ensures Harmless(Next(s, step, staleMs), PcOf(Next(s, step, staleMs), p), staleMs)
  {
    assert Harmless(s, PcOf(s, p), staleMs);
    hide OwnersUndisturbed, Undisturbed;
    if !step.Tick? {
      assert Harmless(s, PcOf(s, step.p), staleMs);
    }
    if step.Judge? && Enabled(s, step) {
      var owner := PcOf(s, step.p).owner;
      assert owner.Some? ==> Harmless(s, PcOf(s, owner.value.pid), staleMs);
    }
  }

  lemma {:induction false} CalmStays(run: Run, k: nat)
    requires k <= |run.steps| && AlwaysInTime(run, k)
    requires forall i :: 0 <= i < k ==> !run.steps[i].Exit?
    ensures Calm(At(run, k), run.staleMs)
  {
    if k > 0 {
      CalmStays(run, k - 1);
      hide Calm, InTime, Next;
      StepKeepsCalm(At(run, k - 1), run.steps[k - 1], run.staleMs);
    }
  }

  /** While nobody exits, at most one process holds the lock even at single file operations; every removal is of the
      remover's own directory, and no lock is ever broken. */
  lemma ExclusionWithoutCrashes(run: Run, k: nat, p: Pid, q: Pid)
    requires k <= |run.steps| && AlwaysInTime(run, k)
    requires forall i :: 0 <= i < k ==> !run.steps[i].Exit?
    requires Owns(PcOf(At(run, k), p)) && Owns(PcOf(At(run, k), q))
    ensures p == q && At(run, k).dir.Present? && At(run, k).dir.maker == p
    ensures forall r :: !PcOf(At(run, k), r).Breaking?
  {
    CalmStays(run, k);
    assert forall r :: Harmless(At(run, k), PcOf(At(run, k), r), run.staleMs);
  }

  // ---- The lock is freed, and taken again ----

  /** Each step of a release gets on: the record is found to be the own one, it goes, and then the directory goes. */
  lemma ReleaseGetsOn(s: State, step: Step, staleMs: nat)
    requires OwnersUndisturbed(s) && Enabled(s, step)
    ensures var t := Next(s, step, staleMs);
            && (step.ReleaseRead? ==> PcOf(t, step.p).Clearing? && t.dir == s.dir)
            && (step.Unlink? ==> PcOf(t, step.p).Removing? && t.dir.Present? && t.dir.owner.None?)
            && (step.Rmdir? ==> PcOf(t, step.p).Idle? && t.dir.Absent?)
  {
    if step.ReleaseRead? || step.Unlink? || step.Rmdir? {
      assert Undisturbed(s, step.p);
    }
  }

  /** However the steps of others come in between, the last step of a release leaves no directory: in every run with timely
      owners in which nobody exits, or the stale test and the rename are one step. */
  lemma ReleaseFrees(run: Run, k: nat)
    requires k < |run.steps| && AlwaysInTime(run, k) && Enabled(At(run, k), run.steps[k])
    requires (forall i :: 0 <= i < k ==> !run.steps[i].Exit?) || (forall i :: 0 <= i < k ==> !run.steps[i].Rename?)
    ensures var step, t := run.steps[k], At(run, k + 1);
            && (step.ReleaseRead? ==> PcOf(t, step.p).Clearing?)
            && (step.Unlink? ==> PcOf(t, step.p).Removing?)
            && (step.Rmdir? ==> PcOf(t, step.p).Idle? && t.dir.Absent?)
  {
    hide Next, InTime, Enabled;
    if forall i :: 0 <= i < k ==> !run.steps[i].Exit? {
      CalmStays(run, k);
    } else {
      OwnersStay(run, k);
    }
    ReleaseGetsOn(At(run, k), run.steps[k], run.staleMs);
  }

  function Exec(s: State, steps: seq<Step>, staleMs: nat): State
    decreases |steps|
  {
    if steps == [] then s else Exec(Next(s, steps[0], staleMs), steps[1..], staleMs)
  }

  lemma {:induction false} Segment(run: Run, k: nat, part: seq<Step>)
    requires k + |part| <= |run.steps| && run.steps[k..k + |part|] == part
    ensures At(run, k + |part|) == Exec(At(run, k), part, run.staleMs)
    decreases |part|
  {
    hide Next;
    if part != [] {
      assert run.steps[k] == run.steps[k..k + |part|][0];
      assert part[1..] == run.steps[k + 1..k + 1 + |part[1..]|];
      Segment(run, k + 1, part[1..]);
    }
  }

  lemma {:induction false} ExecSplit(s: State, a: seq<Step>, b: seq<Step>, staleMs: nat)
    ensures Exec(s, a + b, staleMs) == Exec(Exec(s, a, staleMs), b, staleMs)
    decreases |a|
  {
    hide Next;
    if a == [] {
      assert a + b == b;
    } else {
      assert (a + b)[1..] == a[1..] + b;
      ExecSplit(Next(s, a[0], staleMs), a[1..], b, staleMs);
    }
  }

  function Acquiring(p: Pid, token: nat): seq<Step> { [Start(p, token), Mkdir(p), WriteOwner(p)] }

  function Judging(p: Pid, token: nat): seq<Step>
  {
    [Start(p, token), Mkdir(p)] + [ReadClock(p), ReadOwner(p)] + [Stat(p), Judge(p)]
  }

  lemma TwoSteps(s: State, a: Step, b: Step, staleMs: nat)
    ensures Exec(s, [a, b], staleMs) == Next(Next(s, a, staleMs), b, staleMs)
  {
    hide Next;
    assert [a, b][1..] == [b];
    assert Exec(Next(s, a, staleMs), [b], staleMs) == Next(Next(s, a, staleMs), b, staleMs);
  }

  lemma Acquires(s: State, p: Pid, token: nat, staleMs: nat)
    requires s.dir.Absent? && PcOf(s, p).Idle?
    ensures Exec(s, Acquiring(p, token), staleMs) ==
            Move(s.(dir := Present(Some(Owner(token, p)), s.clock, p)), p, Held(token))
  {
    assert Acquiring(p, token) == [Start(p, token), Mkdir(p)] + [WriteOwner(p)];
    ExecSplit(s, [Start(p, token), Mkdir(p)], [WriteOwner(p)], staleMs);
    TwoSteps(s, Start(p, token), Mkdir(p), staleMs);
    var made := Next(Next(s, Start(p, token), staleMs), Mkdir(p), staleMs);
    assert made == Move(s.(dir := Present(None, s.clock, p)), p, Made(token));
  }

  lemma Judges(s: State, p: Pid, token: nat, staleMs: nat)
    requires s.dir.Present? && PcOf(s, p).Idle?
    ensures var stale := IsStale(s.dir.owner, OwnerDead(s, s.dir.owner), s.clock - s.dir.mtime, staleMs);
            Exec(s, Judging(p, token), staleMs) == Move(s, p, if stale then Breaking else Idle)
  {
    var a, b, c := [Start(p, token), Mkdir(p)], [ReadClock(p), ReadOwner(p)], [Stat(p), Judge(p)];
    ExecSplit(s, a + b, c, staleMs);
    ExecSplit(s, a, b, staleMs);
    hide Exec, IsStale, OwnerDead;
    TwoSteps(s, Start(p, token), Mkdir(p), staleMs);
    var s2 := Move(s, p, Contended);
    TwoSteps(s2, ReadClock(p), ReadOwner(p), staleMs);
    var s4 := Move(s, p, SawOwner(s.clock, s.dir.owner));
    TwoSteps(s4, Stat(p), Judge(p), staleMs);
    Looks(s, p, token, staleMs);
  }

  lemma Looks(s: State, p: Pid, token: nat, staleMs: nat)
    requires s.dir.Present? && PcOf(s, p).Idle?
    ensures Next(Next(s, Start(p, token), staleMs), Mkdir(p), staleMs) == Move(s, p, Contended)
    ensures var s2 := Move(s, p, Contended);
            Next(Next(s2, ReadClock(p), staleMs), ReadOwner(p), staleMs) == Move(s, p, SawOwner(s.clock, s.dir.owner))
    ensures var s4 := Move(s, p, SawOwner(s.clock, s.dir.owner));
            var stale := IsStale(s.dir.owner, OwnerDead(s, s.dir.owner), s.clock - s.dir.mtime, staleMs);
            Next(Next(s4, Stat(p), staleMs), Judge(p), staleMs) == Move(s, p, if stale then Breaking else Idle)
  {
    var s5 := Move(s, p, SawStat(s.clock, s.dir.owner, s.dir.mtime));
    assert Next(Move(s, p, SawOwner(s.clock, s.dir.owner)), Stat(p), staleMs) == s5;
    SameDead(s, p, s.dir.owner);
  }

  /** What a process in the middle of a test does to itself does not change who is dead. */
  lemma SameDead(s: State, p: Pid, owner: Option<Owner>)
    requires PcOf(s, p).Idle?
    ensures forall nowMs, o, mtime :: OwnerDead(Move(s, p, SawStat(nowMs, o, mtime)), owner) == OwnerDead(s, owner)
  {
  }

  function Releasing(p: Pid): seq<Step> { [ReleaseRead(p), Unlink(p), Rmdir(p)] }

  /** A holder that releases leaves no directory, and another process then acquires the lock. */
  lemma ReleaseHandsOver(s: State, p: Pid, q: Pid, token: nat, next: nat, staleMs: nat)
    requires PcOf(s, p) == Held(token) && s.dir.Present? && s.dir.owner == Some(Owner(token, p))
    requires q != p && PcOf(s, q).Idle?
    ensures Exec(s, Releasing(p), staleMs) == Move(s.(dir := Absent), p, Idle)
    ensures var t := Exec(s, Releasing(p) + Acquiring(q, next), staleMs);
            PcOf(t, q) == Held(next) && t.dir == Present(Some(Owner(next, q)), s.clock, q) && PcOf(t, p).Idle?
  {
    hide Acquiring, Exec, Next;
    ReleasesOwn(s, p, token, staleMs);
    ExecSplit(s, Releasing(p), Acquiring(q, next), staleMs);
    Acquires(Move(s.(dir := Absent), p, Idle), q, next, staleMs);
  }

  lemma ReleasesOwn(s: State, p: Pid, token: nat, staleMs: nat)
    requires PcOf(s, p) == Held(token) && s.dir.Present? && s.dir.owner == Some(Owner(token, p))
    ensures Exec(s, Releasing(p), staleMs) == Move(s.(dir := Absent), p, Idle)
  {
    assert Releasing(p) == [ReleaseRead(p), Unlink(p)] + [Rmdir(p)];
    ExecSplit(s, [ReleaseRead(p), Unlink(p)], [Rmdir(p)], staleMs);
    hide Exec;
    TwoSteps(s, ReleaseRead(p), Unlink(p), staleMs);
    var t := Next(Next(s, ReleaseRead(p), staleMs), Unlink(p), staleMs);
    assert t == Move(s.(dir := Present(None, s.clock, s.dir.maker)), p, Removing);
    OneStep(t, Rmdir(p), staleMs);
  }

  /** A holder whose directory carries another record, or none, leaves it alone. */
  lemma ForeignRecordStays(s: State, p: Pid, token: nat, staleMs: nat)
    requires PcOf(s, p) == Held(token)
    requires s.dir.Present? && s.dir.owner.Some? ==> s.dir.owner.value.token != token
    ensures Exec(s, Releasing(p), staleMs) == Move(s, p, Idle)
  {
    assert Releasing(p) == [ReleaseRead(p), Unlink(p)] + [Rmdir(p)];
    ExecSplit(s, [ReleaseRead(p), Unlink(p)], [Rmdir(p)], staleMs);
    hide Exec;
    TwoSteps(s, ReleaseRead(p), Unlink(p), staleMs);
    OneStep(Move(s, p, Idle), Rmdir(p), staleMs);
  }

  /** A process that cannot write its record takes its directory away again. */
  lemma FailedWriteFrees(s: State, p: Pid, token: nat, staleMs: nat)
    requires PcOf(s, p) == Made(token) && s.dir.Present? && s.dir.owner.None?
    ensures Exec(s, [WriteFails(p), Unlink(p), Rmdir(p)], staleMs) == Move(s.(dir := Absent), p, Idle)
  {
    assert [WriteFails(p), Unlink(p), Rmdir(p)] == [WriteFails(p), Unlink(p)] + [Rmdir(p)];
    ExecSplit(s, [WriteFails(p), Unlink(p)], [Rmdir(p)], staleMs);
    hide Exec;
    TwoSteps(s, WriteFails(p), Unlink(p), staleMs);
    OneStep(Move(s, p, Removing), Rmdir(p), staleMs);
  }

  /** A lock is broken by whoever finds it, and taken over, exactly if its recorded process is gone, or it has no record and
      is older than the stale age; otherwise it stays. */
  lemma TakesOverIffStale(s: State, q: Pid, token: nat, next: nat, staleMs: nat)
    requires s.dir.Present? && PcOf(s, q).Idle?
    ensures var t := Exec(s, Judging(q, token) + [Rename(q)], staleMs);
            if (s.dir.owner.Some? && PcOf(s, s.dir.owner.value.pid).Dead?)
               || (s.dir.owner.None? && s.clock - s.dir.mtime > staleMs)
            then t == Move(s.(dir := Absent), q, Idle) && PcOf(Exec(t, Acquiring(q, next), staleMs), q) == Held(next)
            else t == Move(s, q, Idle)
  {
    hide Acquiring, Judging, Exec, Next;
    ExecSplit(s, Judging(q, token), [Rename(q)], staleMs);
    if IsStale(s.dir.owner, OwnerDead(s, s.dir.owner), s.clock - s.dir.mtime, staleMs) {
      Judges(s, q, token, staleMs);
      OneStep(Move(s, q, Breaking), Rename(q), staleMs);
      NextOf(Move(s, q, Breaking), Rename(q), staleMs);
      assert Move(Move(s, q, Breaking).(dir := Absent), q, Idle) == Move(s.(dir := Absent), q, Idle);
      Acquires(Move(s.(dir := Absent), q, Idle), q, next, staleMs);
    } else {
      Judges(s, q, token, staleMs);
      OneStep(Move(s, q, Idle), Rename(q), staleMs);
      NotBreaking(Move(s, q, Idle), q, staleMs);
    }
  }

  lemma NotBreaking(s: State, q: Pid, staleMs: nat)
    requires !PcOf(s, q).Breaking?
    ensures Next(s, Rename(q), staleMs) == s
  {
  }

  // ---- Both conditions are needed ----

  /** A holder crashes; two others judge its lock stale; one breaks it and acquires; the other then breaks that one. */
  function CrashRun(): seq<Step>
  {
    Acquiring(0, 10) + [Exit(0)] + Judging(1, 11) + Judging(2, 12) + [Rename(2)] + Acquiring(2, 13)
    + [Rename(1)] + Acquiring(1, 14)
  }

  lemma {:induction false} QuietRunIsInTime(run: Run, k: nat)
    requires k <= |run.steps| && forall i :: 0 <= i < k ==> !run.steps[i].Tick?
    ensures AlwaysInTime(run, k) && At(run, k).clock == run.startMs
    ensures At(run, k).dir.Present? ==> At(run, k).dir.mtime == run.startMs
  {
    if k > 0 {
      QuietRunIsInTime(run, k - 1);
    }
  }

  /** Crashes with a separate test and rename: two live processes hold the lock, all of them writing in time. */
  lemma SeparateRenameBreaksExclusion(staleMs: nat)
    ensures var run := Run(CrashRun(), 0, staleMs);
            var n := |run.steps|;
            AlwaysInTime(run, n) && PcOf(At(run, n), 1).Held? && PcOf(At(run, n), 2).Held?
  {
    var run := Run(CrashRun(), 0, staleMs);
    var n := |run.steps|;
    QuietRunIsInTime(run, n);
    assert run.steps[0..0 + n] == CrashRun();
    Segment(run, 0, CrashRun());
    CrashRunStates(At(run, 0), staleMs);
  }

  lemma CrashRunStates(s0: State, staleMs: nat)
    requires s0 == State(Absent, map[], 0)
    ensures var t := Exec(s0, CrashRun(), staleMs); PcOf(t, 1).Held? && PcOf(t, 2).Held?
  {
    hide CrashRun, Acquiring, Judging, Exec, Next;
    Acquires(s0, 0, 10, staleMs);
    var s1 := Exec(s0, Acquiring(0, 10), staleMs);
    var s2 := Move(s1, 0, Dead);
    Judges(s2, 1, 11, staleMs);
    var s3 := Move(s2, 1, Breaking);
    Judges(s3, 2, 12, staleMs);
    var s4 := Move(s3, 2, Breaking);
    var s5 := Move(s4.(dir := Absent), 2, Idle);
    Acquires(s5, 2, 13, staleMs);
    var s6 := Exec(s5, Acquiring(2, 13), staleMs);
    var s7 := Move(s6.(dir := Absent), 1, Idle);
    Acquires(s7, 1, 14, staleMs);
    OneStep(s1, Exit(0), staleMs);
    OneStep(s4, Rename(2), staleMs);
    OneStep(s6, Rename(1), staleMs);
    assert Next(s1, Exit(0), staleMs) == s2 && Next(s4, Rename(2), staleMs) == s5 && Next(s6, Rename(1), staleMs) == s7 by {
      NextOf(s1, Exit(0), staleMs);
      NextOf(s4, Rename(2), staleMs);
      NextOf(s6, Rename(1), staleMs);
    }
    SplitCrashRun(s0, staleMs);
  }

  lemma NextOf(s: State, step: Step, staleMs: nat)
    requires (step.Rename? && PcOf(s, step.p).Breaking?) || step.Exit?
    ensures Next(s, step, staleMs) == if step.Exit? then Move(s, step.p, Dead) else Move(s.(dir := Absent), step.p, Idle)
  {
  }

  lemma OneStep(s: State, step: Step, staleMs: nat)
    ensures Exec(s, [step], staleMs) == Next(s, step, staleMs)
  {
  }

  lemma SplitCrashRun(s: State, staleMs: nat)
    ensures Exec(s, CrashRun(), staleMs) ==
      Exec(Exec(Exec(Exec(Exec(Exec(Exec(Exec(s, Acquiring(0, 10), staleMs), [Exit(0)], staleMs), Judging(1, 11), staleMs),
        Judging(2, 12), staleMs), [Rename(2)], staleMs), Acquiring(2, 13), staleMs), [Rename(1)], staleMs),
        Acquiring(1, 14), staleMs)
  {
    hide Acquiring, Judging, Exec, Next;
    var a := Acquiring(0, 10);
    var b := a + [Exit(0)];
    var c := b + Judging(1, 11);
    var d := c + Judging(2, 12);
    var e := d + [Rename(2)];
    var f := e + Acquiring(2, 13);
    var g := f + [Rename(1)];
    ExecSplit(s, g, Acquiring(1, 14), staleMs);
    ExecSplit(s, f, [Rename(1)], staleMs);
    ExecSplit(s, e, Acquiring(2, 13), staleMs);
    ExecSplit(s, d, [Rename(2)], staleMs);
    ExecSplit(s, c, Judging(2, 12), staleMs);
    ExecSplit(s, b, Judging(1, 11), staleMs);
    ExecSplit(s, a, [Exit(0)], staleMs);
  }

  /** A process makes the directory and pauses past the stale age before writing its owner record. */
  function LateRun(staleMs: nat): seq<Step>
  {
    [Start(0, 10), Mkdir(0)] + [Tick(staleMs + 1)] + Judging(1, 11) + [Rename(1)] + Acquiring(1, 12) + [WriteOwner(0)]
  }

  /** Nobody exits, but one owner record comes late: two live processes hold the lock. */
  lemma LateOwnerBreaksExclusion(staleMs: nat)
    ensures var run := Run(LateRun(staleMs), 0, staleMs);
            var n := |run.steps|;
            PcOf(At(run, n), 0).Held? && PcOf(At(run, n), 1).Held?
    ensures forall i :: 0 <= i < |LateRun(staleMs)| ==> !LateRun(staleMs)[i].Exit?
  {
    var run := Run(LateRun(staleMs), 0, staleMs);
    var n := |run.steps|;
    assert run.steps[0..0 + n] == LateRun(staleMs);
    Segment(run, 0, LateRun(staleMs));
    LateRunStates(At(run, 0), staleMs);
  }

  lemma LateRunStates(s0: State, staleMs: nat)
    requires s0 == State(Absent, map[], 0)
    ensures var t := Exec(s0, LateRun(staleMs), staleMs); PcOf(t, 0).Held? && PcOf(t, 1).Held?
  {
    hide LateRun, Acquiring, Judging, Exec, Next;
    var s1 := Move(s0.(dir := Present(None, 0, 0)), 0, Made(10));
    MakesOnly(s0, 0, 10, staleMs);
    var s2 := s1.(clock := staleMs + 1);
    Judges(s2, 1, 11, staleMs);
    var s3 := Move(s2, 1, Breaking);
    var s4 := Move(s3.(dir := Absent), 1, Idle);
    NextOf(s3, Rename(1), staleMs);
    Acquires(s4, 1, 12, staleMs);
    var s5 := Exec(s4, Acquiring(1, 12), staleMs);
    OneStep(s1, Tick(staleMs + 1), staleMs);
    OneStep(s3, Rename(1), staleMs);
    OneStep(s5, WriteOwner(0), staleMs);
    TickAndWrite(s1, s5, staleMs);
    SplitLateRun(s0, staleMs);
  }

  lemma MakesOnly(s: State, p: Pid, token: nat, staleMs: nat)
    requires s.dir.Absent? && PcOf(s, p).Idle?
    ensures Exec(s, [Start(p, token), Mkdir(p)], staleMs) == Move(s.(dir := Present(None, s.clock, p)), p, Made(token))
  {
    TwoSteps(s, Start(p, token), Mkdir(p), staleMs);
  }

  lemma TickAndWrite(s1: State, s5: State, staleMs: nat)
    requires s1.clock == 0 && s5.dir.Present? && PcOf(s5, 0) == Made(10)
    ensures Next(s1, Tick(staleMs + 1), staleMs) == s1.(clock := staleMs + 1)
    ensures PcOf(Next(s5, WriteOwner(0), staleMs), 0).Held? && PcOf(Next(s5, WriteOwner(0), staleMs), 1) == PcOf(s5, 1)
  {
  }

  lemma SplitLateRun(s: State, staleMs: nat)
    ensures Exec(s, LateRun(staleMs), staleMs) ==
      Exec(Exec(Exec(Exec(Exec(Exec(s, [Start(0, 10), Mkdir(0)], staleMs), [Tick(staleMs + 1)], staleMs),
        Judging(1, 11), staleMs), [Rename(1)], staleMs), Acquiring(1, 12), staleMs), [WriteOwner(0)], staleMs)
  {
    hide Acquiring, Judging, Exec, Next;
    var a := [Start(0, 10), Mkdir(0)];
    var b := a + [Tick(staleMs + 1)];
    var c := b + Judging(1, 11);
    var d := c + [Rename(1)];
    var e := d + Acquiring(1, 12);
    ExecSplit(s, e, [WriteOwner(0)], staleMs);
    ExecSplit(s, d, Acquiring(1, 12), staleMs);
    ExecSplit(s, c, [Rename(1)], staleMs);
    ExecSplit(s, b, Judging(1, 11), staleMs);
    ExecSplit(s, a, [Tick(staleMs + 1)], staleMs);
  }
}

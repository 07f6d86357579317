/** The compaction gate: writers, readers, Close and rebuilds around one lock, one flag and one condition. */
module Gate {
  import opened Text
  import opened Wrappers
  import opened CounterCodec
  import opened Records
  import opened MainLog
  import opened LogIndex
  import opened Engine
  import opened EngineInv
  import opened EngineView
  import Ideal

  /** What a call that goes through lockWrite wants to do. */
  datatype Job = Write(t: Timed) | Close | Rebuild(relieve: bool)

  /** Where a thread stands.  Holding, Entered, Swapping and Lowering own the lock exclusively, Reading shares it;
      from Building to Lowering the thread's gate is up. */
  datatype Pc =
    | Outside
    | Waiting(job: Job)
    | Holding(job: Job)
    | Parked(job: Job)
    | Entered(job: Job)
    | Building(relieve: bool, now: int, next: nat, built: Rewritten)
    | Swapping(relieve: bool, now: int, built: Rewritten)
    | Swapped
    | Lowering
    | Reading(key: string, now: int)

  datatype Lock = Free | Exclusive(owner: nat) | Shared(readers: set<nat>)

  /** `done` is the order in which mutations took effect. */
  datatype System = System(
    disk: Disk, lock: Lock, compacting: bool, closed: bool, pcs: map<nat, Pc>, done: seq<Timed>)

  function At(s: System, t: nat): Pc {
    if t in s.pcs then s.pcs[t] else Outside
  }

  predicate OwnsLock(pc: Pc) {
    pc.Holding? || pc.Entered? || pc.Swapping? || pc.Lowering?
  }

  predicate GateUp(pc: Pc) {
    pc.Building? || pc.Swapping? || pc.Swapped? || pc.Lowering?
  }

  datatype Action =
    | Call(job: Job)
    | Acquire
    | TestGate
    | Perform(now: int)
    | BuildNext
    | BuildFails
    | BuildDone
    | DoSwap
    | LowerLock
    | LowerGate
    | ReadLock(key: string, now: int)
    | ReadUnlock

  ghost predicate Enabled(s: System, t: nat, a: Action) {
    var pc := At(s, t);
    match a
    case Call(job) => pc.Outside? && (job.Write? ==> !Rewrites(job.t.op))
    case Acquire => pc.Waiting? && s.lock == Free
    case TestGate => pc.Holding?
    case Perform(_) => pc.Entered?
    case BuildNext => pc.Building? && pc.next < |LiveKeys(s.disk)|
    case BuildFails => pc.Building?
    case BuildDone => pc.Building? && pc.next == |LiveKeys(s.disk)| && s.lock == Free
    case DoSwap => pc.Swapping?
    case LowerLock => pc.Swapped? && s.lock == Free
    case LowerGate => pc.Lowering?
    case ReadLock(_, _) => pc.Outside? && !s.lock.Exclusive?
    case ReadUnlock => pc.Reading?
  }

  /** One more key of a rebuild, read from the disk as it is at that moment. */
  ghost function Extend(cfg: Config, d: Disk, pc: Pc): Rewritten
    requires pc.Building? && pc.next < |LiveKeys(d)|
  {
    RewriteKey(cfg, d, pc.relieve, pc.built, LiveKeys(d)[pc.next], pc.now)
  }

  /** What the swap installs. */
  function Installed(d: Disk, relieve: bool, rw: Rewritten): Disk {
    if relieve then Disk(rw.recs, map[d.curGen + 1 := rw.blob], d.curGen + 1) else d.(recs := rw.recs)
  }

  /** The broadcast: every parked writer goes back to waiting for the lock. */
  function WakeAll(pcs: map<nat, Pc>): map<nat, Pc> {
    map t | t in pcs :: if pcs[t].Parked? then Waiting(pcs[t].job) else pcs[t]
  }

  ghost function Next(cfg: Config, s: System, t: nat, a: Action): System
    requires Enabled(s, t, a)
  {
    var pc := At(s, t);
    match a
    case Call(job) => s.(pcs := s.pcs[t := Waiting(job)])
    case Acquire => s.(pcs := s.pcs[t := Holding(pc.job)], lock := Exclusive(t))
    case TestGate =>
      if s.compacting then s.(pcs := s.pcs[t := Parked(pc.job)], lock := Free)
      else s.(pcs := s.pcs[t := Entered(pc.job)])
    case Perform(now) => Performed(cfg, s, t, pc.job, now)
    case BuildNext => s.(pcs := s.pcs[t := pc.(next := pc.next + 1, built := Extend(cfg, s.disk, pc))])
    case BuildFails => s.(pcs := s.pcs[t := Swapped])
    case BuildDone => s.(pcs := s.pcs[t := Swapping(pc.relieve, pc.now, pc.built)], lock := Exclusive(t))
    case DoSwap =>
      s.(disk := Installed(s.disk, pc.relieve, pc.built), pcs := s.pcs[t := Swapped], lock := Free,
         done := s.done + [Timed(pc.now, if pc.relieve then OpRelieve else OpCompact)])
    case LowerLock => s.(pcs := s.pcs[t := Lowering], lock := Exclusive(t))
    case LowerGate => s.(pcs := WakeAll(s.pcs)[t := Outside], lock := Free, compacting := false)
    case ReadLock(key, now) =>
      s.(pcs := s.pcs[t := Reading(key, now)],
         lock := Shared(if s.lock.Shared? then s.lock.readers + {t} else {t}))
    case ReadUnlock =>
      s.(pcs := s.pcs[t := Outside],
         lock := if s.lock.Shared? && s.lock.readers != {t} then Shared(s.lock.readers - {t}) else Free)
  }

  /** The critical section of a call that got through the gate; on a closed store it only returns an error. */
  ghost function Performed(cfg: Config, s: System, t: nat, job: Job, now: int): System {
    var out := s.(pcs := s.pcs[t := Outside], lock := Free);
    match job
    case Write(w) => if s.closed then out else out.(disk := Step(cfg, s.disk, w), done := s.done + [w])
    case Close => out.(closed := true)
    case Rebuild(relieve) =>
      if s.closed then out
      else s.(pcs := s.pcs[t := Building(relieve, now, 0, Rewritten([], ""))], lock := Free, compacting := true)
  }

  // ---- the invariant ----

  /** The lock is owned by exactly the threads that think they own it. */
  ghost predicate LockOk(s: System) {
    && (forall t :: OwnsLock(At(s, t)) <==> s.lock == Exclusive(t))
    && (forall t :: At(s, t).Reading? <==> s.lock.Shared? && t in s.lock.readers)
    && (s.lock.Shared? ==> s.lock.readers != {})
  }

  /** The flag is up exactly while one rebuild is in flight; nobody gets past a raised gate, and nobody is
      parked behind a lowered one. */
  ghost predicate GateOk(s: System) {
    && (s.compacting <==> exists t :: GateUp(At(s, t)))
    && (forall t, u :: GateUp(At(s, t)) && GateUp(At(s, u)) ==> t == u)
    && (forall t :: At(s, t).Entered? ==> !s.compacting)
    && (forall t :: At(s, t).Parked? ==> s.compacting)
  }

  /** A rebuild in flight has read exactly what the disk holds now. */
  ghost predicate BuildOk(cfg: Config, s: System) {
    && (forall t :: At(s, t).Building? ==>
          var pc := At(s, t);
          pc.next <= |LiveKeys(s.disk)|
          && pc.built == Rewrite(cfg, s.disk, pc.relieve, LiveKeys(s.disk)[..pc.next], pc.now))
    && (forall t :: At(s, t).Swapping? ==>
          var pc := At(s, t);
          pc.built == Rewrite(cfg, s.disk, pc.relieve, LiveKeys(s.disk), pc.now))
  }

  ghost predicate Linear(cfg: Config, start: Disk, s: System) {
    s.disk == RunAll(cfg, start, s.done)
  }

  ghost predicate Safe(cfg: Config, start: Disk, s: System) {
    LockOk(s) && GateOk(s) && BuildOk(cfg, s) && Linear(cfg, start, s)
  }

  lemma AtNext(cfg: Config, s: System, t: nat, a: Action, u: nat)
    requires Enabled(s, t, a) && u != t
    ensures At(Next(cfg, s, t, a), u) ==
            if a.LowerGate? && At(s, u).Parked? then Waiting(At(s, u).job) else At(s, u)
  {
  }

  lemma LockStep(cfg: Config, s: System, t: nat, a: Action)
    requires LockOk(s) && Enabled(s, t, a)
    ensures LockOk(Next(cfg, s, t, a))
  {
    var s' := Next(cfg, s, t, a);
    forall u
      ensures OwnsLock(At(s', u)) <==> s'.lock == Exclusive(u)
      ensures At(s', u).Reading? <==> s'.lock.Shared? && u in s'.lock.readers
    {
      assert OwnsLock(At(s, t)) <==> s.lock == Exclusive(t);
      if u != t {
        AtNext(cfg, s, t, a, u);
      }
    }
  }

  /** Only the stepping thread can raise or lower a gate of its own. */
  lemma OthersGate(cfg: Config, s: System, t: nat, a: Action, u: nat)
    requires Enabled(s, t, a) && u != t
    ensures var s' := Next(cfg, s, t, a);
      && (GateUp(At(s', u)) <==> GateUp(At(s, u)))
      && (At(s', u).Entered? <==> At(s, u).Entered?)
      && (At(s', u).Parked? ==> At(s, u).Parked? && !a.LowerGate?)
  {
    AtNext(cfg, s, t, a, u);
  }

  /** How the step changes the stepping thread's own gate, and the flag. */
  lemma OwnGate(cfg: Config, s: System, t: nat, a: Action)
    requires Enabled(s, t, a)
    ensures var s' := Next(cfg, s, t, a);
      && (GateUp(At(s', t)) && !GateUp(At(s, t)) ==> At(s, t).Entered? && s'.compacting)
      && (!GateUp(At(s', t)) && GateUp(At(s, t)) ==> a.LowerGate? && !s'.compacting)
      && (GateUp(At(s', t)) == GateUp(At(s, t)) ==> s'.compacting == s.compacting)
      && (At(s', t).Entered? ==> !s'.compacting)
      && (At(s', t).Parked? ==> s'.compacting)
  {
  }

  /** At most one rebuild is in flight, the flag says so, nobody is past a raised gate, and nobody is left
      parked behind a lowered one. */
  lemma GateStep(cfg: Config, s: System, t: nat, a: Action)
    requires LockOk(s) && GateOk(s) && Enabled(s, t, a)
    ensures GateOk(Next(cfg, s, t, a))
  {
    var s' := Next(cfg, s, t, a);
    OwnGate(cfg, s, t, a);
    forall u | u != t
      ensures GateUp(At(s', u)) <==> GateUp(At(s, u))
      ensures At(s', u).Entered? ==> !s'.compacting
      ensures At(s', u).Parked? ==> s'.compacting
    {
      OthersGate(cfg, s, t, a, u);
      if At(s, u).Entered? && OwnsLock(At(s, t)) {
        OneOwner(s, t, u);
      }
    }
    if s'.compacting && !GateUp(At(s', t)) {
      var g :| GateUp(At(s, g));
      assert GateUp(At(s', g));
    }
  }

  /** Two threads cannot both own the lock. */
  lemma OneOwner(s: System, t: nat, u: nat)
    requires LockOk(s) && OwnsLock(At(s, t)) && OwnsLock(At(s, u))
    ensures t == u
  {
    assert s.lock == Exclusive(t);
  }

  // ---- nothing changes under a rebuild ----

  /** The disk changes only when a writer performs, which needs the gate down, or at the swap itself. */
  lemma DiskChangesOnly(cfg: Config, s: System, t: nat, a: Action)
    requires Enabled(s, t, a)
    ensures Next(cfg, s, t, a).disk != s.disk ==>
            (a.Perform? && At(s, t).Entered? && At(s, t).job.Write?) || (a.DoSwap? && At(s, t).Swapping?)
    ensures Next(cfg, s, t, a).done != s.done ==> a.Perform? || a.DoSwap?
  {
  }

  /** While a gate is up only its own swap can change the disk, and the store cannot be closed. */
  lemma FrozenUnderGate(cfg: Config, start: Disk, s: System, t: nat, a: Action)
    requires Safe(cfg, start, s) && Enabled(s, t, a) && s.compacting
    ensures Next(cfg, s, t, a).closed == s.closed
    ensures Next(cfg, s, t, a).disk == s.disk || (a.DoSwap? && GateUp(At(s, t)))
  {
    DiskChangesOnly(cfg, s, t, a);
    assert !At(s, t).Entered?;
  }

  /** While anyone reads, no step of any thread changes the disk or the operations performed. */
  lemma FrozenWhileReading(cfg: Config, start: Disk, s: System, reader: nat, t: nat, a: Action)
    requires Safe(cfg, start, s) && At(s, reader).Reading? && Enabled(s, t, a)
    ensures Next(cfg, s, t, a).disk == s.disk && Next(cfg, s, t, a).done == s.done
  {
    assert At(s, reader).Reading? <==> s.lock.Shared? && reader in s.lock.readers;
    assert OwnsLock(At(s, t)) <==> s.lock == Exclusive(t);
    DiskChangesOnly(cfg, s, t, a);
  }

  lemma RewriteNext(cfg: Config, d: Disk, pc: Pc)
    requires pc.Building? && pc.next < |LiveKeys(d)|
    requires pc.built == Rewrite(cfg, d, pc.relieve, LiveKeys(d)[..pc.next], pc.now)
    ensures Extend(cfg, d, pc) == Rewrite(cfg, d, pc.relieve, LiveKeys(d)[..pc.next + 1], pc.now)
  {
    var ks := LiveKeys(d);
    RewriteSnoc(cfg, d, pc.relieve, ks[..pc.next], ks[pc.next], pc.now);
    assert ks[..pc.next + 1] == ks[..pc.next] + [ks[pc.next]];
  }

  /** What one thread's rebuild must have read. */
  ghost predicate BuildOf(cfg: Config, d: Disk, pc: Pc) {
    && (pc.Building? ==>
          pc.next <= |LiveKeys(d)| && pc.built == Rewrite(cfg, d, pc.relieve, LiveKeys(d)[..pc.next], pc.now))
    && (pc.Swapping? ==> pc.built == Rewrite(cfg, d, pc.relieve, LiveKeys(d), pc.now))
  }

  lemma OwnBuild(cfg: Config, s: System, t: nat, a: Action)
    requires Enabled(s, t, a) && BuildOf(cfg, s.disk, At(s, t))
    ensures var s' := Next(cfg, s, t, a); BuildOf(cfg, s'.disk, At(s', t))
  {
    var pc, s' := At(s, t), Next(cfg, s, t, a);
    if a.BuildNext? {
      RewriteNext(cfg, s.disk, pc);
      assert At(s', t) == pc.(next := pc.next + 1, built := Extend(cfg, s.disk, pc));
    } else if a.BuildDone? {
      assert LiveKeys(s.disk)[..pc.next] == LiveKeys(s.disk);
      assert At(s', t) == Swapping(pc.relieve, pc.now, pc.built);
    } else if a.Perform? && At(s', t).Building? {
      NothingBuilt(cfg, s.disk, At(s', t));
    } else {
      assert !At(s', t).Building? && !At(s', t).Swapping?;
    }
  }

  lemma NothingBuilt(cfg: Config, d: Disk, pc: Pc)
    requires pc.Building? && pc.next == 0 && pc.built == Rewritten([], "")
    ensures BuildOf(cfg, d, pc)
  {
    assert LiveKeys(d)[..0] == [];
  }

  lemma BuildStep(cfg: Config, s: System, t: nat, a: Action)
    requires LockOk(s) && GateOk(s) && BuildOk(cfg, s) && Enabled(s, t, a)
    ensures BuildOk(cfg, Next(cfg, s, t, a))
  {
    var s' := Next(cfg, s, t, a);
    forall u
      ensures BuildOf(cfg, s'.disk, At(s', u))
    {
      assert BuildOf(cfg, s.disk, At(s, u));
      if u == t {
        OwnBuild(cfg, s, t, a);
      } else {
        AtNext(cfg, s, t, a, u);
        DiskChangesOnly(cfg, s, t, a);
      }
    }
  }

  // ---- every run is a sequence of whole operations ----

  lemma RunSnoc(cfg: Config, d: Disk, ts: seq<Timed>, t: Timed)
    ensures RunAll(cfg, d, ts + [t]) == Step(cfg, RunAll(cfg, d, ts), t)
  {
    assert (ts + [t])[..|ts|] == ts;
  }

  /** The piecemeal rebuild installs exactly what an atomic compaction of the current disk would. */
  lemma SwapIsCompaction(cfg: Config, d: Disk, relieve: bool, now: int, built: Rewritten)
    requires built == Rewrite(cfg, d, relieve, LiveKeys(d), now)
    ensures Installed(d, relieve, built) == if relieve then Relieve(cfg, d, now) else Compact(cfg, d, now)
  {
  }

  lemma LinearStep(cfg: Config, start: Disk, s: System, t: nat, a: Action)
    requires Safe(cfg, start, s) && Enabled(s, t, a)
    ensures Linear(cfg, start, Next(cfg, s, t, a))
  {
    var pc, s' := At(s, t), Next(cfg, s, t, a);
    if a.DoSwap? {
      SwapLinear(cfg, start, s, pc);
    } else if a.Perform? && pc.job.Write? && !s.closed {
      RunSnoc(cfg, start, s.done, pc.job.t);
      assert s'.disk == Step(cfg, s.disk, pc.job.t) && s'.done == s.done + [pc.job.t];
    } else {
      assert s'.disk == s.disk && s'.done == s.done;
    }
  }

  lemma SwapLinear(cfg: Config, start: Disk, s: System, pc: Pc)
    requires Linear(cfg, start, s) && pc.Swapping? && BuildOf(cfg, s.disk, pc)
    ensures Installed(s.disk, pc.relieve, pc.built) ==
            RunAll(cfg, start, s.done + [Timed(pc.now, if pc.relieve then OpRelieve else OpCompact)])
  {
    var op := Timed(pc.now, if pc.relieve then OpRelieve else OpCompact);
    SwapIsCompaction(cfg, s.disk, pc.relieve, pc.now, pc.built);
    if pc.relieve {
      StepOfRelieve(cfg, s.disk, op);
    } else {
      StepOfCompact(cfg, s.disk, op);
    }
    RunSnoc(cfg, start, s.done, op);
  }

  /** One scheduled step: a thread and what it does. */
  datatype Sched = Sched(thread: nat, action: Action)

  ghost function Play(cfg: Config, s: System, es: seq<Sched>): Option<System> {
    if es == [] then Some(s)
    else
      var p, e := Play(cfg, s, es[..|es| - 1]), es[|es| - 1];
      if p.Some? && Enabled(p.value, e.thread, e.action) then Some(Next(cfg, p.value, e.thread, e.action)) else None
  }

  function Opened(d: Disk): System {
    System(d, Free, false, false, map[], [])
  }

  lemma OpenedIsSafe(cfg: Config, d: Disk)
    ensures Safe(cfg, d, Opened(d))
  {
  }

  /** In every interleaving at most one rebuild runs, it never misses or duplicates a write, and the disk is the
      result of whole operations in the order they took effect. */
  lemma {:induction false} EveryInterleavingIsSafe(cfg: Config, d: Disk, es: seq<Sched>)
    requires Play(cfg, Opened(d), es).Some?
    ensures Safe(cfg, d, Play(cfg, Opened(d), es).value)
    decreases |es|
  {
    if es == [] {
      OpenedIsSafe(cfg, d);
    } else {
      var init, e := es[..|es| - 1], es[|es| - 1];
      EveryInterleavingIsSafe(cfg, d, init);
      var p := Play(cfg, Opened(d), init).value;
      LockStep(cfg, p, e.thread, e.action);
      GateStep(cfg, p, e.thread, e.action);
      BuildStep(cfg, p, e.thread, e.action);
      LinearStep(cfg, d, p, e.thread, e.action);
    }
  }

  /** A reader holding the lock sees exactly the operations performed so far, in a store that keeps its invariant,
      and nothing any thread can do next changes what it sees. */
  lemma ReadsAreCurrent(cfg: Config, d: Disk, es: seq<Sched>, t: nat)
    requires Lawful(cfg.codec) && Inv(d) && Play(cfg, Opened(d), es).Some?
    requires At(Play(cfg, Opened(d), es).value, t).Reading?
    ensures var s := Play(cfg, Opened(d), es).value;
      && s.disk == RunAll(cfg, d, s.done) && Inv(s.disk)
      && (forall u :: !OwnsLock(At(s, u)))
      && forall u, a :: Enabled(s, u, a) ==> Next(cfg, s, u, a).disk == s.disk
  {
    EveryInterleavingIsSafe(cfg, d, es);
    var s := Play(cfg, Opened(d), es).value;
    RunKeepsInv(cfg, d, s.done);
    forall u
      ensures !OwnsLock(At(s, u))
    {
      assert At(s, t).Reading? <==> s.lock.Shared? && t in s.lock.readers;
      assert OwnsLock(At(s, u)) <==> s.lock == Exclusive(u);
    }
    forall u, a | Enabled(s, u, a)
      ensures Next(cfg, s, u, a).disk == s.disk
    {
      FrozenWhileReading(cfg, d, s, t, u, a);
    }
  }

  /** From taking the read lock to giving it back, whatever else runs meanwhile, a reader faces one and the same
      disk. */
  lemma {:induction false} ReadSpansOneDisk(cfg: Config, d: Disk, es: seq<Sched>, from: nat, t: nat)
    requires from <= |es| && Play(cfg, Opened(d), es).Some?
    requires forall n :: from <= n <= |es| ==> ReadingAfter(cfg, d, es[..n], t)
    ensures Play(cfg, Opened(d), es[..from]).Some?
    ensures Play(cfg, Opened(d), es).value.disk == Play(cfg, Opened(d), es[..from]).value.disk
    decreases |es|
  {
    assert es[..|es|] == es;
    assert ReadingAfter(cfg, d, es[..from], t);
    if from < |es| {
      var init, e := es[..|es| - 1], es[|es| - 1];
      assert forall n :: from <= n <= |init| ==> init[..n] == es[..n];
      ReadSpansOneDisk(cfg, d, init, from, t);
      EveryInterleavingIsSafe(cfg, d, init);
      assert ReadingAfter(cfg, d, es[..|init|], t);
      FrozenWhileReading(cfg, d, Play(cfg, Opened(d), init).value, t, e.thread, e.action);
    }
  }

  ghost predicate ReadingAfter(cfg: Config, d: Disk, es: seq<Sched>, t: nat) {
    var s := Play(cfg, Opened(d), es);
    s.Some? && At(s.value, t).Reading?
  }

  /** With no capped index and a forward clock, every read in every interleaving reports the ideal map of the
      operations that took effect before it. */
  lemma ConcurrentReadsAreIdeal(cfg: Config, d: Disk, es: seq<Sched>, t: nat)
    requires Lawful(cfg.codec) && Inv(d) && Ideal.NoCaps(cfg) && Play(cfg, Opened(d), es).Some?
    requires At(Play(cfg, Opened(d), es).value, t).Reading?
    requires var s := Play(cfg, Opened(d), es).value; Ideal.ClockForward(s.done, At(s, t).now)
    ensures var s := Play(cfg, Opened(d), es).value;
      Visible(s.disk, At(s, t).now) == Alive(Ideal.IdealRun(cfg, View(d), s.done), At(s, t).now)
  {
    EveryInterleavingIsSafe(cfg, d, es);
    var s := Play(cfg, Opened(d), es).value;
    Ideal.RunIsIdeal(cfg, d, s.done, At(s, t).now);
  }
}

/** Progress through the gate: nobody gets stuck, and every schedule without new calls comes to an end. */
module GateProgress {
  import opened Wrappers
  import opened LogIndex
  import opened Engine
  import opened Gate
  import opened GateTrace

  // ---- somebody can always go on ----

  /** A step of a call or read that has already begun, other than giving a rebuild up. */
  predicate GoesOn(a: Action) {
    !a.Call? && !a.ReadLock? && !a.BuildFails?
  }

  /** What a thread that is not blocked does next. */
  ghost predicate CanGoOn(s: System, t: nat) {
    exists a :: GoesOn(a) && Enabled(s, t, a)
  }

  lemma OwnerGoesOn(s: System, t: nat)
    requires OwnsLock(At(s, t))
    ensures CanGoOn(s, t)
  {
    var pc := At(s, t);
    var a := if pc.Holding? then TestGate else if pc.Entered? then Perform(0) else if pc.Swapping? then DoSwap
             else LowerGate;
    assert GoesOn(a) && Enabled(s, t, a);
  }

  /** With the lock free, whoever waits or rebuilds can go on. */
  lemma FreeGoesOn(cfg: Config, s: System, t: nat)
    requires LockOk(s) && BuildOk(cfg, s) && s.lock == Free && (At(s, t).Waiting? || GateUp(At(s, t)))
    ensures CanGoOn(s, t)
  {
    var pc := At(s, t);
    assert !OwnsLock(pc);
    var a := if pc.Waiting? then Acquire else if pc.Swapped? then LowerLock
             else if pc.next < |LiveKeys(s.disk)| then BuildNext else BuildDone;
    assert GoesOn(a) && Enabled(s, t, a);
  }

  /** As long as anyone is inside, someone can go on: no deadlock, and nobody waits for a wake-up that never
      comes. */
  lemma NeverStuck(cfg: Config, start: Disk, s: System, t: nat) returns (u: nat)
    requires Safe(cfg, start, s) && !At(s, t).Outside?
    ensures CanGoOn(s, u)
  {
    match s.lock
    case Exclusive(o) =>
      u := o;
      assert OwnsLock(At(s, o));
      OwnerGoesOn(s, o);
    case Shared(readers) =>
      u :| u in readers;
      assert At(s, u).Reading?;
      assert GoesOn(ReadUnlock) && Enabled(s, u, ReadUnlock);
    case Free =>
      assert !OwnsLock(At(s, t)) && !At(s, t).Reading?;
      u := t;
      if At(s, t).Parked? {
        u :| GateUp(At(s, u));
      }
      FreeGoesOn(cfg, s, u);
  }

  // ---- sums over threads ----

  ghost function Sum(m: map<nat, nat>): nat
    decreases |m|
  {
    if m == map[] then 0
    else
      var k :| k in m;
      assert (m - {k}).Keys == m.Keys - {k};
      m[k] + Sum(m - {k})
  }

  /** Any thread may be taken out first. */
  lemma {:induction false} SumMinus(m: map<nat, nat>, k: nat)
    requires k in m
    ensures Sum(m) == m[k] + Sum(m - {k})
    decreases |m|
  {
    var j :| j in m && Sum(m) == m[j] + Sum(m - {j});
    assert (m - {j}).Keys == m.Keys - {j} && (m - {k}).Keys == m.Keys - {k};
    if j != k {
      SumMinus(m - {j}, k);
      SumMinus(m - {k}, j);
      assert (m - {j}) - {k} == (m - {k}) - {j};
    }
  }

  /** What a thread still has ahead of it: whether its rebuild has not begun, how far its gate is from coming down,
      the keys its rebuild has not read yet, and its steps to the outside. */
  datatype Gauge = Unstarted | Stage | Left | Steps

  ghost function Weight(g: Gauge, d: Disk, pc: Pc): nat {
    match g
    case Unstarted => if Pending(pc) && pc.job.Rebuild? then 1 else 0
    case Stage => if pc.Building? then 4 else if pc.Swapping? then 3 else if pc.Swapped? then 2
                  else if pc.Lowering? then 1 else 0
    case Left => if pc.Building? && pc.next < |LiveKeys(d)| then |LiveKeys(d)| - pc.next else 0
    case Steps => if pc.Waiting? then 3 else if pc.Holding? then 2
                  else if pc.Parked? || pc.Entered? || pc.Reading? then 1 else 0
  }

  ghost function Weights(g: Gauge, s: System): map<nat, nat> {
    map t | t in s.pcs :: Weight(g, s.disk, s.pcs[t])
  }

  ghost function Gauged(g: Gauge, s: System): nat {
    Sum(Weights(g, s))
  }

  /** If one thread's weight changes and no other's, the sum changes with it. */
  lemma GaugedOne(g: Gauge, s: System, s': System, t: nat)
    requires s'.pcs.Keys == s.pcs.Keys + {t}
    requires forall u :: u != t ==> Weight(g, s'.disk, At(s', u)) == Weight(g, s.disk, At(s, u))
    ensures Gauged(g, s') + Weight(g, s.disk, At(s, t)) == Gauged(g, s) + Weight(g, s'.disk, At(s', t))
  {
    var m, m' := Weights(g, s), Weights(g, s');
    assert m' - {t} == m - {t} by {
      forall u | u in m && u != t
        ensures u in m' && m'[u] == m[u]
      {
        assert Weight(g, s'.disk, At(s', u)) == Weight(g, s.disk, At(s, u));
      }
    }
    SumMinus(m', t);
    if t in m {
      SumMinus(m, t);
    } else {
      assert m - {t} == m;
    }
  }

  /** The gauges in order of importance. */
  ghost predicate Lower(s: System, s': System) {
    var u, u' := Gauged(Unstarted, s), Gauged(Unstarted, s');
    var g, g' := Gauged(Stage, s), Gauged(Stage, s');
    var l, l' := Gauged(Left, s), Gauged(Left, s');
    || u' < u
    || (u' == u && g' < g)
    || (u' == u && g' == g && l' < l)
    || (u' == u && g' == g && l' == l && Gauged(Steps, s') < Gauged(Steps, s))
  }

  // ---- every step lowers them ----

  lemma KeysNext(cfg: Config, s: System, t: nat, a: Action)
    requires Enabled(s, t, a)
    ensures Next(cfg, s, t, a).pcs.Keys == s.pcs.Keys + {t}
  {
  }

  /** Another thread's weights stay, but for its steps if the broadcast wakes it and its rebuild if the disk
      changes. */
  lemma OthersWeigh(cfg: Config, s: System, t: nat, a: Action, g: Gauge, u: nat)
    requires Enabled(s, t, a) && u != t
    requires g.Steps? ==> !a.LowerGate?
    requires g.Left? ==> Next(cfg, s, t, a).disk == s.disk || !At(s, u).Building?
    ensures var s' := Next(cfg, s, t, a);
      Weight(g, s'.disk, At(s', u)) == Weight(g, s.disk, At(s, u))
  {
    AtNext(cfg, s, t, a, u);
  }

  lemma GaugedNext(cfg: Config, s: System, t: nat, a: Action, g: Gauge)
    requires Enabled(s, t, a)
    requires g.Steps? ==> !a.LowerGate?
    requires g.Left? ==> Next(cfg, s, t, a).disk == s.disk || forall u :: !At(s, u).Building?
    ensures var s' := Next(cfg, s, t, a);
      Gauged(g, s') + Weight(g, s.disk, At(s, t)) == Gauged(g, s) + Weight(g, s'.disk, At(s', t))
  {
    var s' := Next(cfg, s, t, a);
    KeysNext(cfg, s, t, a);
    forall u | u != t
      ensures Weight(g, s'.disk, At(s', u)) == Weight(g, s.disk, At(s, u))
    {
      OthersWeigh(cfg, s, t, a, g, u);
    }
    GaugedOne(g, s, s', t);
  }

  /** How the step changes the weights of its own thread. */
  lemma OwnWeighs(cfg: Config, s: System, t: nat, a: Action)
    requires Enabled(s, t, a) && !a.Call? && !a.ReadLock?
    ensures var d, pc, d', pc' := s.disk, At(s, t), Next(cfg, s, t, a).disk, At(Next(cfg, s, t, a), t);
      var started := Weight(Unstarted, d', pc') == Weight(Unstarted, d, pc);
      var staged := Weight(Stage, d', pc') == Weight(Stage, d, pc);
      var kept := Weight(Left, d', pc') == Weight(Left, d, pc);
      || Weight(Unstarted, d', pc') < Weight(Unstarted, d, pc)
      || (started && Weight(Stage, d', pc') < Weight(Stage, d, pc))
      || (started && staged && d' == d && Weight(Left, d', pc') < Weight(Left, d, pc))
      || (started && staged && kept && (d' == d || pc.Entered?) && !a.LowerGate?
          && Weight(Steps, d', pc') < Weight(Steps, d, pc))
  {
  }

  /** So a schedule without new calls cannot go on for ever. */
  lemma StepLowers(cfg: Config, start: Disk, s: System, t: nat, a: Action)
    requires Safe(cfg, start, s) && Enabled(s, t, a) && !a.Call? && !a.ReadLock?
    ensures Lower(s, Next(cfg, s, t, a))
  {
    var s' := Next(cfg, s, t, a);
    OwnWeighs(cfg, s, t, a);
    GaugedNext(cfg, s, t, a, Unstarted);
    GaugedNext(cfg, s, t, a, Stage);
    if s'.disk == s.disk {
      GaugedNext(cfg, s, t, a, Left);
    } else if At(s, t).Entered? {
      NobodyBuilds(s, t);
      GaugedNext(cfg, s, t, a, Left);
    }
    if !a.LowerGate? {
      GaugedNext(cfg, s, t, a, Steps);
    }
  }

  lemma NobodyBuilds(s: System, t: nat)
    requires GateOk(s) && At(s, t).Entered?
    ensures forall u :: !At(s, u).Building?
  {
    forall u
      ensures !At(s, u).Building?
    {
      assert GateUp(At(s, u)) ==> s.compacting;
    }
  }

  // ---- so every call comes to an end ----

  lemma {:induction false} PlayConcat(cfg: Config, s: System, a: seq<Sched>, b: seq<Sched>)
    requires Play(cfg, s, a).Some?
    ensures Play(cfg, s, a + b) == Play(cfg, Play(cfg, s, a).value, b)
    decreases |b|
  {
    if b == [] {
      assert a + b == a;
    } else {
      PlayConcat(cfg, s, a, b[..|b| - 1]);
      assert (a + b)[..|a + b| - 1] == a + b[..|b| - 1];
    }
  }

  lemma PlayOne(cfg: Config, s: System, t: nat, a: Action)
    requires Enabled(s, t, a)
    ensures Play(cfg, s, [Sched(t, a)]) == Some(Next(cfg, s, t, a))
  {
    var es := [Sched(t, a)];
    assert es[..|es| - 1] == [] && es[|es| - 1] == Sched(t, a);
    assert Play(cfg, s, []) == Some(s);
  }

  ghost predicate AllOutside(s: System) {
    forall t :: At(s, t).Outside?
  }

  /** From any state the calls and reads that have begun can all be finished, without giving a rebuild up. */
  lemma {:induction false} Drains(cfg: Config, start: Disk, s: System) returns (es: seq<Sched>)
    requires Safe(cfg, start, s)
    ensures Play(cfg, s, es).Some? && AllOutside(Play(cfg, s, es).value)
    ensures forall i :: 0 <= i < |es| ==> GoesOn(es[i].action)
    decreases Gauged(Unstarted, s), Gauged(Stage, s), Gauged(Left, s), Gauged(Steps, s)
  {
    es := [];
    if t :| !At(s, t).Outside? {
      var u, a, s' := GoOn(cfg, start, s, t);
      var rest := Drains(cfg, start, s');
      es := [Sched(u, a)] + rest;
      PlayConcat(cfg, s, [Sched(u, a)], rest);
    }
  }

  /** One step that somebody can take. */
  lemma GoOn(cfg: Config, start: Disk, s: System, t: nat) returns (u: nat, a: Action, s': System)
    requires Safe(cfg, start, s) && !At(s, t).Outside?
    ensures GoesOn(a) && Play(cfg, s, [Sched(u, a)]) == Some(s')
    ensures Safe(cfg, start, s') && Lower(s, s')
  {
    u := NeverStuck(cfg, start, s, t);
    a :| GoesOn(a) && Enabled(s, u, a);
    s' := Next(cfg, s, u, a);
    StepLowers(cfg, start, s, u, a);
    SafeStep(cfg, start, s, u, a);
    PlayOne(cfg, s, u, a);
  }

  lemma SafeStep(cfg: Config, start: Disk, s: System, t: nat, a: Action)
    requires Safe(cfg, start, s) && Enabled(s, t, a)
    ensures Safe(cfg, start, Next(cfg, s, t, a))
  {
    LockStep(cfg, s, t, a);
    GateStep(cfg, s, t, a);
    BuildStep(cfg, s, t, a);
    LinearStep(cfg, start, s, t, a);
  }

  lemma {:induction false} CallsStay(es: seq<Sched>, more: seq<Sched>, t: nat)
    requires forall i :: 0 <= i < |more| ==> GoesOn(more[i].action)
    ensures LastCall(es + more, t) == LastCall(es, t) && GaveUp(es + more, t) == GaveUp(es, t)
    decreases |more|
  {
    if more == [] {
      assert es + more == es;
    } else {
      CallsStay(es, more[..|more| - 1], t);
      assert (es + more)[..|es + more| - 1] == es + more[..|more| - 1];
    }
  }

  /** The thread's call, as far as it has not been given up, has taken effect. */
  ghost predicate Served(es: seq<Sched>, t: nat, done: seq<Timed>) {
    match LastCall(es, t)
    case None => true
    case Some(job) =>
      match job
      case Write(w) => w in done
      case Close => true
      case Rebuild(relieve) => GaveUp(es, t) || exists now :: Timed(now, RewriteOp(relieve)) in done
  }

  /** However a schedule stands, it can be completed so that every thread is outside again, the gate is down and the
      lock free; unless somebody called Close, the last write or rebuild of every thread has then taken effect. */
  lemma EveryCallCanFinish(cfg: Config, d: Disk, es: seq<Sched>) returns (more: seq<Sched>)
    requires Play(cfg, Opened(d), es).Some?
    ensures forall i :: 0 <= i < |more| ==> GoesOn(more[i].action)
    ensures Play(cfg, Opened(d), es + more).Some?
    ensures var s := Play(cfg, Opened(d), es + more).value;
      && AllOutside(s) && !s.compacting && s.lock == Free
      && ((forall i :: 0 <= i < |es| ==> es[i].action != Call(Close)) ==> forall t :: Served(es, t, s.done))
  {
    EveryInterleavingIsSafe(cfg, d, es);
    more := Drains(cfg, d, Play(cfg, Opened(d), es).value);
    PlayConcat(cfg, Opened(d), es, more);
    EveryInterleavingIsSafe(cfg, d, es + more);
    var s := Play(cfg, Opened(d), es + more).value;
    AllQuiet(cfg, d, s);
    EveryScheduleDoesWhatItAsks(cfg, d, es + more);
    if forall i :: 0 <= i < |es| ==> es[i].action != Call(Close) {
      forall t
        ensures Served(es, t, s.done)
      {
        AllServed(es, more, s, t);
      }
    }
  }

  lemma AllServed(es: seq<Sched>, more: seq<Sched>, s: System, t: nat)
    requires Remembers(es + more, s) && AllOutside(s)
    requires forall i :: 0 <= i < |es| ==> es[i].action != Call(Close)
    requires forall i :: 0 <= i < |more| ==> GoesOn(more[i].action)
    ensures Served(es, t, s.done)
  {
    NobodyCloses(es + more);
    CallsStay(es, more, t);
    assert At(s, t).Outside?;
    assert Owes(es + more, t, At(s, t), s.done) && Rebuilt(es + more, t, At(s, t), s.done);
  }

  /** In particular a write, or a rebuild, called for on an idle store gets through. */
  lemma LoneCallTakesEffect(cfg: Config, d: Disk, job: Job) returns (es: seq<Sched>)
    requires job.Write? ==> !Rewrites(job.t.op)
    ensures Play(cfg, Opened(d), es).Some? && AllOutside(Play(cfg, Opened(d), es).value)
    ensures var s := Play(cfg, Opened(d), es).value;
      match job
      case Write(w) => w in s.done
      case Close => true
      case Rebuild(relieve) => exists now :: Timed(now, RewriteOp(relieve)) in s.done
  {
    var first := [Sched(0, Call(job))];
    PlayOne(cfg, Opened(d), 0, Call(job));
    var more := EveryCallCanFinish(cfg, d, first);
    es := first + more;
    assert LastCall(first, 0) == Some(job) && !GaveUp(first, 0);
    if !job.Close? {
      assert Served(first, 0, Play(cfg, Opened(d), es).value.done);
    }
  }

  lemma SomeoneHolds(s: System)
    requires LockOk(s) && s.lock != Free
    ensures exists t :: !At(s, t).Outside?
  {
    if s.lock.Exclusive? {
      assert OwnsLock(At(s, s.lock.owner));
    } else {
      var t :| t in s.lock.readers;
      assert At(s, t).Reading?;
    }
  }

  lemma AllQuiet(cfg: Config, start: Disk, s: System)
    requires Safe(cfg, start, s) && AllOutside(s)
    ensures !s.compacting && s.lock == Free
  {
    if s.lock != Free {
      SomeoneHolds(s);
    }
  }
}

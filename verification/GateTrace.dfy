/** What a schedule through the gate does, read off its calls alone, and that every call comes to an end. */
module GateTrace {
  import opened Wrappers
  import opened LogIndex
  import opened Engine
  import opened EngineInv
  import opened Gate

  // ---- what a schedule asks for ----

  /** What the thread called last. */
  function LastCall(es: seq<Sched>, t: nat): Option<Job> {
    if es == [] then None
    else
      var e := es[|es| - 1];
      if e.thread == t && e.action.Call? then Some(e.action.job) else LastCall(es[..|es| - 1], t)
  }

  /** The clock the thread read when it last performed. */
  function LastClock(es: seq<Sched>, t: nat): Option<int> {
    if es == [] then None
    else
      var e := es[|es| - 1];
      if e.thread == t && e.action.Perform? then Some(e.action.now) else LastClock(es[..|es| - 1], t)
  }

  /** Some thread has performed a Close. */
  predicate ClosedBy(es: seq<Sched>) {
    es != [] &&
    var init, e := es[..|es| - 1], es[|es| - 1];
    ClosedBy(init) || (e.action.Perform? && LastCall(init, e.thread) == Some(Close))
  }

  /** What one more step contributes: the write its thread called for, at its turn and unless the store is closed, or
      at the swap the rewrite it called for, under the clock it read when it started. */
  function Effect(init: seq<Sched>, e: Sched): seq<Timed> {
    var call := LastCall(init, e.thread);
    if call.None? then []
    else if e.action.Perform? && call.value.Write? && !ClosedBy(init) then [call.value.t]
    else if e.action.DoSwap? && call.value.Rebuild? && LastClock(init, e.thread).Some? then
      [Timed(LastClock(init, e.thread).value, RewriteOp(call.value.relieve))]
    else []
  }

  /** The operations a schedule asks for, in the order in which they take effect. */
  function Effects(es: seq<Sched>): seq<Timed> {
    if es == [] then [] else Effects(es[..|es| - 1]) + Effect(es[..|es| - 1], es[|es| - 1])
  }

  /** The thread has given up the rebuild it called for last. */
  predicate GaveUp(es: seq<Sched>, t: nat) {
    es != [] &&
    var e := es[|es| - 1];
    if e.thread == t && e.action.Call? then false
    else (e.thread == t && e.action.BuildFails?) || GaveUp(es[..|es| - 1], t)
  }

  function RewriteOp(relieve: bool): Op {
    if relieve then OpRelieve else OpCompact
  }

  function Calls(es: seq<Sched>, t: nat): nat {
    if es == [] then 0
    else Calls(es[..|es| - 1], t) + if es[|es| - 1].thread == t && es[|es| - 1].action.Call? then 1 else 0
  }

  function Performs(es: seq<Sched>, t: nat): nat {
    if es == [] then 0
    else Performs(es[..|es| - 1], t) + if es[|es| - 1].thread == t && es[|es| - 1].action.Perform? then 1 else 0
  }

  // ---- each thread carries what it called for ----

  /** The thread has called and not performed yet. */
  predicate Pending(pc: Pc) {
    pc.Waiting? || pc.Holding? || pc.Parked? || pc.Entered?
  }

  ghost predicate Owes(es: seq<Sched>, t: nat, pc: Pc, done: seq<Timed>) {
    && (Pending(pc) ==> LastCall(es, t) == Some(pc.job))
    && (pc.Building? || pc.Swapping? ==>
          LastCall(es, t) == Some(Rebuild(pc.relieve)) && LastClock(es, t) == Some(pc.now))
    && (LastCall(es, t).Some? && LastCall(es, t).value.Write? && !Pending(pc) && !ClosedBy(es) ==>
          LastCall(es, t).value.t in done)
    && Calls(es, t) == Performs(es, t) + if Pending(pc) then 1 else 0
  }

  /** A rebuild that was let in and not given up has been swapped in. */
  ghost predicate Rebuilt(es: seq<Sched>, t: nat, pc: Pc, done: seq<Timed>) {
    var call := LastCall(es, t);
    call.Some? && call.value.Rebuild? && !ClosedBy(es) && !GaveUp(es, t)
    && !Pending(pc) && !pc.Building? && !pc.Swapping? ==>
      LastClock(es, t).Some? && Timed(LastClock(es, t).value, RewriteOp(call.value.relieve)) in done
  }

  ghost predicate Remembers(es: seq<Sched>, s: System) {
    && s.closed == ClosedBy(es) && s.done == Effects(es)
    && (forall t :: Owes(es, t, At(s, t), s.done))
    && (forall t :: Rebuilt(es, t, At(s, t), s.done))
  }

  lemma Unsnoc(es: seq<Sched>, e: Sched)
    ensures (es + [e])[..|es + [e]| - 1] == es && (es + [e])[|es + [e]| - 1] == e
  {
  }

  /** The step contributes what the schedule asks for. */
  lemma DoneStep(cfg: Config, s: System, es: seq<Sched>, t: nat, a: Action)
    requires Enabled(s, t, a) && Owes(es, t, At(s, t), s.done) && s.closed == ClosedBy(es)
    ensures var s' := Next(cfg, s, t, a);
      && s'.closed == ClosedBy(es + [Sched(t, a)])
      && s'.done == s.done + Effect(es, Sched(t, a))
  {
    Unsnoc(es, Sched(t, a));
  }

  /** The calling thread after its step, seen through the next state alone. */
  lemma OwesStep(cfg: Config, s: System, es: seq<Sched>, t: nat, a: Action, pc: Pc, done: seq<Timed>)
    requires Enabled(s, t, a) && Owes(es, t, At(s, t), s.done) && s.closed == ClosedBy(es)
    requires pc == At(Next(cfg, s, t, a), t) && done == s.done + Effect(es, Sched(t, a))
    ensures Owes(es + [Sched(t, a)], t, pc, done)
  {
    Unsnoc(es, Sched(t, a));
    var es' := es + [Sched(t, a)];
    if a.Call? {
      assert LastCall(es', t) == Some(a.job) && pc == Waiting(a.job);
    } else {
      assert LastCall(es', t) == LastCall(es, t);
      if a.Perform? {
        assert LastClock(es', t) == Some(a.now);
        assert At(s, t).Entered? && !Pending(pc);
      } else {
        assert LastClock(es', t) == LastClock(es, t) && ClosedBy(es') == ClosedBy(es);
        assert Pending(pc) == Pending(At(s, t));
      }
    }
  }

  lemma RebuiltStep(cfg: Config, s: System, es: seq<Sched>, t: nat, a: Action, pc: Pc, done: seq<Timed>)
    requires Enabled(s, t, a) && Owes(es, t, At(s, t), s.done) && s.closed == ClosedBy(es)
    requires Rebuilt(es, t, At(s, t), s.done)
    requires pc == At(Next(cfg, s, t, a), t) && done == s.done + Effect(es, Sched(t, a))
    ensures Rebuilt(es + [Sched(t, a)], t, pc, done)
  {
    Unsnoc(es, Sched(t, a));
  }

  lemma OtherStep(cfg: Config, s: System, es: seq<Sched>, t: nat, a: Action, u: nat)
    requires Enabled(s, t, a) && Remembers(es, s) && u != t
    requires s.done <= Next(cfg, s, t, a).done
    ensures Owes(es + [Sched(t, a)], u, At(Next(cfg, s, t, a), u), Next(cfg, s, t, a).done)
    ensures Rebuilt(es + [Sched(t, a)], u, At(Next(cfg, s, t, a), u), Next(cfg, s, t, a).done)
  {
    Unsnoc(es, Sched(t, a));
    assert Owes(es, u, At(s, u), s.done) && Rebuilt(es, u, At(s, u), s.done);
    AtNext(cfg, s, t, a, u);
  }

  /** Whatever the threads do and however they interleave, the operations that took effect are exactly those the
      schedule asks for, in that order, and each call performs at most once. */
  lemma {:induction false} EveryScheduleDoesWhatItAsks(cfg: Config, d: Disk, es: seq<Sched>)
    requires Play(cfg, Opened(d), es).Some?
    ensures Remembers(es, Play(cfg, Opened(d), es).value)
    decreases |es|
  {
    if es != [] {
      var init, e := es[..|es| - 1], es[|es| - 1];
      EveryScheduleDoesWhatItAsks(cfg, d, init);
      var p := Play(cfg, Opened(d), init).value;
      assert es == init + [Sched(e.thread, e.action)] && Owes(init, e.thread, At(p, e.thread), p.done);
      DoneStep(cfg, p, init, e.thread, e.action);
      OwesStep(cfg, p, init, e.thread, e.action, At(Next(cfg, p, e.thread, e.action), e.thread),
        p.done + Effect(init, e));
      assert Rebuilt(init, e.thread, At(p, e.thread), p.done);
      RebuiltStep(cfg, p, init, e.thread, e.action, At(Next(cfg, p, e.thread, e.action), e.thread),
        p.done + Effect(init, e));
      forall u | u != e.thread
        ensures Owes(es, u, At(Next(cfg, p, e.thread, e.action), u), Next(cfg, p, e.thread, e.action).done)
        ensures Rebuilt(es, u, At(Next(cfg, p, e.thread, e.action), u), Next(cfg, p, e.thread, e.action).done)
      {
        OtherStep(cfg, p, init, e.thread, e.action, u);
      }
    }
  }

  /** A store is only closed if somebody called for it. */
  lemma {:induction false} NobodyCloses(es: seq<Sched>)
    requires forall i :: 0 <= i < |es| ==> es[i].action != Call(Close)
    ensures !ClosedBy(es) && forall t :: LastCall(es, t) != Some(Close)
    decreases |es|
  {
    if es != [] {
      NobodyCloses(es[..|es| - 1]);
    }
  }

  lemma {:induction false} EffectsGrow(es: seq<Sched>, n: nat)
    requires n <= |es|
    ensures Effects(es[..n]) <= Effects(es)
    decreases |es|
  {
    if n < |es| {
      EffectsGrow(es[..|es| - 1], n);
      assert es[..|es| - 1][..n] == es[..n];
    } else {
      assert es[..n] == es;
    }
  }

  /** No write is lost: once a thread that called for one on a store not closed by then is back outside, the disk
      holds it from then on, whatever else runs. */
  lemma NoWriteIsLost(cfg: Config, d: Disk, es: seq<Sched>, n: nat, t: nat, w: Timed)
    requires n <= |es| && Play(cfg, Opened(d), es).Some?
    requires LastCall(es[..n], t) == Some(Write(w)) && !ClosedBy(es[..n])
    requires Play(cfg, Opened(d), es[..n]).Some? && !Pending(At(Play(cfg, Opened(d), es[..n]).value, t))
    ensures var s := Play(cfg, Opened(d), es).value;
      s.done == Effects(es) && w in s.done && s.disk == RunAll(cfg, d, s.done)
  {
    EveryScheduleDoesWhatItAsks(cfg, d, es);
    EveryScheduleDoesWhatItAsks(cfg, d, es[..n]);
    EveryInterleavingIsSafe(cfg, d, es);
    EffectsGrow(es, n);
    var s := Play(cfg, Opened(d), es[..n]).value;
    assert Owes(es[..n], t, At(s, t), s.done);
    var i :| 0 <= i < |s.done| && s.done[i] == w;
    assert Effects(es)[i] == w;
  }
}

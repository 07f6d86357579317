/** The FIFO gate of the JS binding: bounded in-flight calls, the rest wait their turn. */
module SlotQueue {
  import opened Wrappers

  /** The gate as a caller sees it: who holds, who waits, who was ever let in, who ever asked. */
  datatype Gate = Gate(limit: nat, held: nat, waiting: seq<nat>, admitted: seq<nat>, arrived: seq<nat>)

  datatype Call = Acquire(id: nat) | Release

  predicate Allowed(g: Gate, call: Call) {
    call.Release? ==> g.held > 0
  }

  function Next(g: Gate, call: Call): Gate
    requires Allowed(g, call)
  {
    match call
    case Acquire(id) =>
      if g.held < g.limit then g.(held := g.held + 1, admitted := g.admitted + [id], arrived := g.arrived + [id])
      else g.(waiting := g.waiting + [id], arrived := g.arrived + [id])
    case Release =>
      if g.waiting != [] then g.(waiting := g.waiting[1..], admitted := g.admitted + [g.waiting[0]])
      else g.(held := g.held - 1)
  }

  predicate AllAllowed(g: Gate, calls: seq<Call>)
    decreases |calls|
  {
    calls == [] || (Allowed(g, calls[0]) && AllAllowed(Next(g, calls[0]), calls[1..]))
  }

  function RunGate(g: Gate, calls: seq<Call>): Gate
    requires AllAllowed(g, calls)
    decreases |calls|
  {
    if calls == [] then g else RunGate(Next(g, calls[0]), calls[1..])
  }

  function Idle(limit: nat): Gate {
    Gate(limit, 0, [], [], [])
  }

  /** Never over the limit; a waiter only when full; admission in arrival order, nobody lost. */
  predicate Fair(g: Gate) {
    && g.held <= g.limit
    && (g.waiting != [] ==> g.held == g.limit)
    && g.admitted + g.waiting == g.arrived
  }

  lemma {:induction false} RunIsFair(g: Gate, calls: seq<Call>)
    requires Fair(g) && AllAllowed(g, calls)
    ensures Fair(RunGate(g, calls)) && RunGate(g, calls).limit == g.limit
    decreases |calls|
  {
    if calls != [] {
      var g' := Next(g, calls[0]);
      if calls[0].Acquire? {
        assert g.admitted + g.waiting + [calls[0].id] == g'.arrived;
      } else if g.waiting != [] {
        assert g.waiting == [g.waiting[0]] + g.waiting[1..];
      }
      RunIsFair(g', calls[1..]);
    }
  }

  /** No waiter starves: the next `n` releases admit the `n` oldest waiters, in order. */
  lemma {:induction false} ReleasesDrain(g: Gate, n: nat)
    requires Fair(g) && n <= |g.waiting|
    requires g.limit > 0
    ensures AllAllowed(g, seq(n, _ => Release))
    ensures RunGate(g, seq(n, _ => Release)).admitted == g.admitted + g.waiting[..n]
    decreases n
  {
    var calls := seq(n, _ => Release);
    if n > 0 {
      assert g.held > 0;
      var g' := Next(g, Release);
      assert g.waiting == [g.waiting[0]] + g.waiting[1..];
      ReleasesDrain(g', n - 1);
      assert calls[1..] == seq(n - 1, _ => Release);
      assert g.waiting[..n] == [g.waiting[0]] + g.waiting[1..][..n - 1];
    }
  }

  /** The ids of the callers, in order. */
  function Asked(calls: seq<Call>): seq<nat>
    decreases |calls|
  {
    if calls == [] then [] else (if calls[0].Acquire? then [calls[0].id] else []) + Asked(calls[1..])
  }

  function Releases(calls: seq<Call>): nat
    decreases |calls|
  {
    if calls == [] then 0 else (if calls[0].Release? then 1 else 0) + Releases(calls[1..])
  }

  /** Every caller is recorded, and every release takes back one slot or hands it on. */
  lemma {:induction false} RunCounts(g: Gate, calls: seq<Call>)
    requires AllAllowed(g, calls)
    ensures RunGate(g, calls).arrived == g.arrived + Asked(calls)
    ensures RunGate(g, calls).held + Releases(calls) + |g.admitted| == |RunGate(g, calls).admitted| + g.held
    decreases |calls|
  {
    if calls != [] {
      RunCounts(Next(g, calls[0]), calls[1..]);
    }
  }

  /** After any calls on a fresh gate, who is in and who waits is told by the calls alone: the callers in their order,
      the first of them admitted, as many as there are slots and releases. */
  lemma AdmissionIsFifo(limit: nat, calls: seq<Call>)
    requires AllAllowed(Idle(limit), calls)
    ensures var g, asked := RunGate(Idle(limit), calls), Asked(calls);
      var n := if |asked| <= limit + Releases(calls) then |asked| else limit + Releases(calls);
      && g.admitted == asked[..n] && g.waiting == asked[n..]
      && g.held == n - Releases(calls)
  {
    RunCounts(Idle(limit), calls);
    RunIsFair(Idle(limit), calls);
    var g, asked := RunGate(Idle(limit), calls), Asked(calls);
    assert g.admitted + g.waiting == asked;
    assert asked[..|g.admitted|] == g.admitted && asked[|g.admitted|..] == g.waiting;
  }

  function OrZero(w: Option<nat>): nat {
    if w.Some? then w.value else 0
  }

  /** The waiters behind the dead prefix, oldest first. */
  ghost function Pending(ws: seq<Option<nat>>, head: nat): (p: seq<nat>)
    ensures head <= |ws| ==> |p| == |ws| - head
    ensures head <= |ws| ==> forall i :: 0 <= i < |p| ==> p[i] == OrZero(ws[head + i])
    decreases |ws| - head
  {
    if head >= |ws| then [] else [OrZero(ws[head])] + Pending(ws, head + 1)
  }

  /** Dead slots are empty, the others hold a waiter, and a drained array is reset. */
  predicate Shape(ws: seq<Option<nat>>, head: nat) {
    && head <= |ws|
    && (forall i :: 0 <= i < head ==> ws[i].None?)
    && (forall i :: head <= i < |ws| ==> ws[i].Some?)
  }

  /** Taking the first waiter leaves one more dead slot and the rest of the queue. */
  lemma PendingPop(ws: seq<Option<nat>>, head: nat)
    requires Shape(ws, head) && head < |ws|
    ensures Shape(ws[head := None], head + 1)
    ensures Pending(ws, head) == [ws[head].value] + Pending(ws[head := None], head + 1)
  {
  }

  lemma PendingDrop(ws: seq<Option<nat>>, head: nat)
    requires Shape(ws, head)
    ensures Shape(ws[head..], 0) && Pending(ws[head..], 0) == Pending(ws, head)
  {
  }

  lemma PendingPush(ws: seq<Option<nat>>, head: nat, id: nat)
    requires Shape(ws, head)
    ensures Shape(ws + [Some(id)], head) && Pending(ws + [Some(id)], head) == Pending(ws, head) + [id]
  {
  }

  /** The module's own state: `waiters` keeps a dead prefix [0, head) that is dropped only now and then. */
  class SlotGate {
    const maxInFlight: nat
    var inFlight: nat
    var waiters: seq<Option<nat>>
    var head: nat
    ghost var admitted: seq<nat>
    ghost var arrived: seq<nat>
    ghost var handOffs: nat
    ghost var copied: nat

    ghost predicate Valid()
      reads this
    {
      && Shape(waiters, head)
      && (head == |waiters| ==> head == 0)
      && copied + head <= handOffs
      && Fair(View())
    }

    ghost function Waiting(): seq<nat>
      reads this
    {
      Pending(waiters, head)
    }

    ghost function View(): Gate
      reads this
    {
      Gate(maxInFlight, inFlight, Waiting(), admitted, arrived)
    }

    constructor (limit: nat)
      ensures Valid() && View() == Idle(limit) && copied == 0 && handOffs == 0
    {
      maxInFlight := limit;
      inFlight, waiters, head := 0, [], 0;
      admitted, arrived, handOffs, copied := [], [], 0, 0;
    }

    method Acquire(id: nat) returns (immediate: bool)
      requires Valid()
      modifies this
      ensures Valid()
      ensures View() == Next(old(View()), Call.Acquire(id))
      ensures immediate <==> old(inFlight) < maxInFlight
      ensures handOffs == old(handOffs) && copied == old(copied)
    {
      arrived := arrived + [id];
      if inFlight < maxInFlight {
        inFlight := inFlight + 1;
        admitted := admitted + [id];
        return true;
      }
      PendingPush(waiters, head, id);
      assert admitted + (Waiting() + [id]) == (admitted + Waiting()) + [id];
      waiters := waiters + [Some(id)];
      return false;
    }

    method Release() returns (next: Option<nat>)
      requires Valid() && inFlight > 0
      modifies this
      ensures Valid()
      ensures View() == Next(old(View()), Call.Release)
      ensures next == if old(Waiting()) == [] then None else Some(old(Waiting())[0])
      ensures handOffs == old(handOffs) + (if next.Some? then 1 else 0)
      ensures old(copied) <= copied
    {
      next := None;
      if head < |waiters| {
        PendingPop(waiters, head);
        ghost var rest := Pending(waiters[head := None], head + 1);
        assert admitted + ([waiters[head].value] + rest) == (admitted + [waiters[head].value]) + rest;
        next := waiters[head];
        waiters := waiters[head := None];
        head := head + 1;
        handOffs := handOffs + 1;
        admitted := admitted + [next.value];
        DropDeadPrefix();
        assert old(Waiting()) == [next.value] + rest && Waiting() == rest;
      } else {
        inFlight := inFlight - 1;
      }
    }

    /** Frees a drained array, and compacts a large dead prefix once it is at least half of the array: the copy
        moves no more elements than the head has advanced. */
    method DropDeadPrefix()
      requires Shape(waiters, head) && copied + head <= handOffs
      modifies this`waiters, this`head, this`copied
      ensures Shape(waiters, head) && Waiting() == old(Waiting())
      ensures copied + head <= handOffs && old(copied) <= copied
      ensures head == |waiters| ==> head == 0
    {
      PendingDrop(waiters, head);
      if head == |waiters| {
        waiters := [];
        head := 0;
      } else if head >= 1024 && head * 2 >= |waiters| {
        copied := copied + (|waiters| - head);
        waiters := waiters[head..];
        head := 0;
      }
    }

    /** Any sequence of calls: the queue follows the gate, and copying never outweighs the hand-offs. */
    method Drive(calls: seq<Call>)
      requires Valid() && AllAllowed(View(), calls)
      modifies this
      ensures Valid()
      ensures View() == RunGate(old(View()), calls)
      ensures copied <= handOffs
    {
      var i := 0;
      assert calls[0..] == calls;
      while i < |calls|
        invariant 0 <= i <= |calls|
        invariant Valid() && AllAllowed(View(), calls[i..])
        invariant RunGate(View(), calls[i..]) == RunGate(old(View()), calls)
      {
        assert calls[i..][1..] == calls[i + 1..];
        match calls[i] {
          case Acquire(id) => var _ := Acquire(id);
          case Release => var _ := Release();
        }
        i := i + 1;
      }
    }
  }
}

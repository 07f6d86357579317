/** Incr, Topup and Take on one counter: the guarded int64 steps and runs of them. */
module CounterSteps {
  import opened CounterCodec

  /** What a step function answers: an overflow error, a decline, or the next value. */
  datatype Verdict = Refuse | Keep | Move(next: int64)

  datatype CounterOp =
    | Incr(delta: int64)
    | Topup(amount: int64, max: int64)
    | Take(amount: int64, left: int64)

  datatype Reply =
    | Value(value: int64)
    | LeftOver(overflow: int64)
    | Taken(applied: bool)
    | ErrOverflow
    | ErrNegativeAmount
    | ErrNotCounter

  /** int64 addition where the code relies on it not wrapping. */
  function Add64(a: int64, b: int64): int64
    requires MIN_INT64 <= a + b <= MAX_INT64
  {
    a + b
  }

  /** int64 subtraction where the code relies on it not wrapping. */
  function Sub64(a: int64, b: int64): int64
    requires MIN_INT64 <= a - b <= MAX_INT64
  {
    a - b
  }

  function IncrStep(delta: int64, cur: int64): Verdict {
    if (delta > 0 && cur > Sub64(MAX_INT64, delta)) || (delta < 0 && cur < Sub64(MIN_INT64, delta)) then Refuse
    else Move(Add64(cur, delta))
  }

  /** The part of `amount` a topup adds. */
  function TopupApplied(amount: int64, max: int64, cur: int64): (applied: int64)
    requires amount >= 0
    ensures 0 <= applied <= amount
    ensures MIN_INT64 <= cur + applied <= MAX_INT64
  {
    if cur >= max then 0
    else if cur > Sub64(MAX_INT64, amount) || Add64(cur, amount) > max then Sub64(max, cur)
    else amount
  }

  function TopupStep(amount: int64, max: int64, cur: int64): Verdict
    requires amount >= 0
  {
    var applied := TopupApplied(amount, max, cur);
    if applied == 0 then Keep else Move(Add64(cur, applied))
  }

  function TakeStep(amount: int64, left: int64, cur: int64): Verdict
    requires amount >= 0
  {
    if cur < Add64(MIN_INT64, amount) then Keep
    else
      var next := Sub64(cur, amount);
      if next < left then Keep else Move(next)
  }

  predicate NegativeAmount(op: CounterOp) {
    match op
    case Incr(_) => false
    case Topup(amount, _) => amount < 0
    case Take(amount, _) => amount < 0
  }

  function StepOf(op: CounterOp, cur: int64): Verdict
    requires !NegativeAmount(op)
  {
    match op
    case Incr(delta) => IncrStep(delta, cur)
    case Topup(amount, max) => TopupStep(amount, max, cur)
    case Take(amount, left) => TakeStep(amount, left, cur)
  }

  function ReplyOf(op: CounterOp, cur: int64): Reply
    requires !NegativeAmount(op)
  {
    match op
    case Incr(delta) =>
      var s := IncrStep(delta, cur);
      if s.Move? then Value(s.next) else ErrOverflow
    case Topup(amount, max) => LeftOver(Sub64(amount, TopupApplied(amount, max, cur)))
    case Take(amount, left) => Taken(TakeStep(amount, left, cur).Move?)
  }

  function After(op: CounterOp, cur: int64): int64
    requires !NegativeAmount(op)
  {
    var s := StepOf(op, cur);
    if s.Move? then s.next else cur
  }

  // ---- each guarded step is the exact integer operation ----

  /** Incr applies exactly when the true sum is an int64. */
  lemma IncrIsExact(delta: int64, cur: int64)
    ensures IncrStep(delta, cur).Move? <==> MIN_INT64 <= cur as int + delta as int <= MAX_INT64
    ensures IncrStep(delta, cur).Move? ==> IncrStep(delta, cur).next == cur + delta
    ensures !IncrStep(delta, cur).Keep?
  {
  }

  function Min(a: int, b: int): int { if a <= b then a else b }
  function Max(a: int, b: int): int { if a <= b then b else a }

  /** Topup fills to `max` and never lowers; what it adds and what it hands back make up the amount. */
  lemma TopupIsClampedSum(amount: int64, max: int64, cur: int64)
    requires amount >= 0
    ensures After(Topup(amount, max), cur) == Max(cur, Min(cur + amount, max))
    ensures ReplyOf(Topup(amount, max), cur).overflow + (After(Topup(amount, max), cur) - cur) == amount
    ensures TopupStep(amount, max, cur).Move? <==> amount > 0 && cur < max
  {
  }

  /** Take applies exactly when the true difference stays at or above `left`. */
  lemma TakeIsGuardedDifference(amount: int64, left: int64, cur: int64)
    requires amount >= 0
    ensures TakeStep(amount, left, cur).Move? <==> cur as int - amount as int >= left as int
    ensures TakeStep(amount, left, cur).Move? ==> TakeStep(amount, left, cur).next == cur - amount
  {
  }

  // ---- runs on one key ----

  /** The counter at one key. */
  datatype Cell = Missing | Holding(value: int64, exp: int)

  /** `now` is the clock, `createExp` the expiry the call arms if it creates the key. */
  datatype Event = Event(now: int, createExp: int, op: CounterOp)

  predicate Lapsed(cell: Cell, now: int) {
    cell.Holding? && cell.exp != 0 && cell.exp <= now
  }

  function Live(cell: Cell, now: int): Cell {
    if Lapsed(cell, now) then Missing else cell
  }

  function Current(cell: Cell): int64 {
    if cell.Holding? then cell.value else 0
  }

  /** One call: a lapsed counter restarts from zero, a live one keeps its expiry. */
  function Update(cell: Cell, e: Event): Cell {
    if NegativeAmount(e.op) then cell
    else
      var live := Live(cell, e.now);
      var s := StepOf(e.op, Current(live));
      if !s.Move? then live
      else Holding(s.next, if live.Holding? then live.exp else e.createExp)
  }

  function Answer(cell: Cell, e: Event): Reply {
    if NegativeAmount(e.op) then ErrNegativeAmount else ReplyOf(e.op, Current(Live(cell, e.now)))
  }

  function Run(cell: Cell, es: seq<Event>): Cell
    decreases |es|
  {
    if es == [] then cell else Run(Update(cell, es[0]), es[1..])
  }

  /** The signed amount a call reports as applied, read off its reply alone. */
  function Applied(op: CounterOp, reply: Reply): int {
    match op
    case Incr(delta) => if reply.Value? then delta else 0
    case Topup(amount, _) => if reply.LeftOver? then amount as int - reply.overflow as int else 0
    case Take(amount, _) => if reply.Taken? && reply.applied then 0 - amount as int else 0
  }

  function TotalApplied(cell: Cell, es: seq<Event>): int
    decreases |es|
  {
    if es == [] then 0
    else Applied(es[0].op, Answer(cell, es[0])) + TotalApplied(Update(cell, es[0]), es[1..])
  }

  /** No call of the run finds the counter lapsed. */
  predicate OneWindow(cell: Cell, es: seq<Event>)
    decreases |es|
  {
    es == [] || (!Lapsed(cell, es[0].now) && OneWindow(Update(cell, es[0]), es[1..]))
  }

  lemma UpdateAddsApplied(cell: Cell, e: Event)
    requires !Lapsed(cell, e.now)
    ensures Current(Update(cell, e)) == Current(cell) + Applied(e.op, Answer(cell, e))
    ensures cell.Holding? ==> Update(cell, e).Holding? && Update(cell, e).exp == cell.exp
  {
    match e.op
    case Incr(delta) =>
    case Topup(amount, max) => if amount >= 0 { TopupIsClampedSum(amount, max, Current(cell)); }
    case Take(amount, left) =>
  }

  /** Within one window the value is the sum of what the replies said was applied, and the deadline stays. */
  lemma {:induction false} RunConserves(cell: Cell, es: seq<Event>)
    requires OneWindow(cell, es)
    ensures Current(Run(cell, es)) == Current(cell) + TotalApplied(cell, es)
    ensures cell.Holding? ==> Run(cell, es).Holding? && Run(cell, es).exp == cell.exp
    decreases |es|
  {
    if es != [] {
      UpdateAddsApplied(cell, es[0]);
      RunConserves(Update(cell, es[0]), es[1..]);
    }
  }

  /** A lapsed counter behaves exactly as a missing one from the next accepted call on. */
  lemma {:induction false} LapsedRestarts(cell: Cell, es: seq<Event>)
    requires es != [] && Lapsed(cell, es[0].now) && !NegativeAmount(es[0].op)
    ensures Run(cell, es) == Run(Missing, es)
    ensures Answer(cell, es[0]) == Answer(Missing, es[0])
  {
    assert Live(cell, es[0].now) == Live(Missing, es[0].now);
  }

  /** Every call of the run is a take with floor -P. */
  predicate TakesWithFloor(es: seq<Event>, p: nat) {
    forall i :: 0 <= i < |es| ==> es[i].op.Take? && es[i].op.amount >= 0 && es[i].op.left == -(p as int)
  }

  /** From a missing key, takes with floor -P accept at most P in one window, and each is accepted
      exactly when it still fits. */
  lemma {:induction false} TakeBudget(cell: Cell, es: seq<Event>, p: nat)
    requires OneWindow(cell, es) && TakesWithFloor(es, p)
    requires -(p as int) <= Current(cell) <= 0
    ensures -(p as int) <= Current(Run(cell, es)) <= 0
    ensures 0 <= 0 - TotalApplied(cell, es) <= p + Current(cell)
    ensures es != [] ==>
              (Answer(cell, es[0]) == Taken(true) <==> es[0].op.amount as int <= p + Current(cell))
    decreases |es|
  {
    if es != [] {
      var e := es[0];
      assert es[0].op.Take? && es[0].op.amount >= 0 && es[0].op.left == -(p as int);
      TakeIsGuardedDifference(e.op.amount, e.op.left, Current(cell));
      UpdateAddsApplied(cell, e);
      TakeBudget(Update(cell, e), es[1..], p);
    }
  }

  /** n unit takes with floor -P on a missing key are accepted exactly min(n, P) times. */
  lemma {:induction false} UnitTakesAcceptMin(cell: Cell, es: seq<Event>, p: nat)
    requires OneWindow(cell, es) && TakesWithFloor(es, p)
    requires forall i :: 0 <= i < |es| ==> es[i].op.Take? && es[i].op.amount == 1
    requires -(p as int) <= Current(cell) <= 0
    ensures 0 - TotalApplied(cell, es) == Min(|es|, p + Current(cell))
    decreases |es|
  {
    if es != [] {
      var e := es[0];
      assert e.op.Take? && e.op.amount == 1 && e.op.left == -(p as int);
      TakeIsGuardedDifference(e.op.amount, e.op.left, Current(cell));
      UpdateAddsApplied(cell, e);
      UnitTakesAcceptMin(Update(cell, e), es[1..], p);
    }
  }
}

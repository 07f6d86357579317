/** The store agrees with an ideal map that drops each key at its deadline. */
module Ideal {
  import opened Text
  import opened Wrappers
  import opened CounterCodec
  import opened CounterSteps
  import opened SecIndex
  import opened Records
  import opened MainLog
  import opened LogIndex
  import opened Engine
  import opened EngineInv
  import opened EngineView

  type Map = map<string, Content>

  /** No declared index has a cap. */
  predicate NoCaps(cfg: Config) {
    forall name :: name in cfg.defs ==> cfg.defs[name].max <= 0
  }

  /** The counter an ideal map holds at `key`. */
  ghost function CellOf(m: Map, key: string): Cell {
    if key in m && Parse(m[key].value).Some? then Holding(Parse(m[key].value).value, m[key].exp) else Missing
  }

  /** The key holds something that is not a counter. */
  ghost predicate NotCounter(m: Map, key: string) {
    key in m && !(m[key].counter && Parse(m[key].value).Some?)
  }

  ghost function IdealCount(m: Map, key: string, now: int, createExp: int, op: CounterOp): Map {
    var cell := CellOf(m, key);
    if NegativeAmount(op) || NotCounter(m, key) || !StepOf(op, Current(cell)).Move? then m
    else
      var cell' := Update(cell, Event(now, createExp, op));
      if cell'.Holding? then m[key := Content(Format(cell'.value), true, cell'.exp)] else m
  }

  ghost function IdealReply(m: Map, key: string, now: int, createExp: int, op: CounterOp): Reply {
    if !NegativeAmount(op) && NotCounter(m, key) then ErrNotCounter
    else Answer(CellOf(m, key), Event(now, createExp, op))
  }

  /** When an item put with a ttl in nanoseconds vanishes, in milliseconds; never, without one. */
  function Deadline(it: Item): int {
    if it.ttl <= 0 then 0 else it.now + it.ttl / 1_000_000
  }

  ghost function PutItems(m: Map, items: seq<Item>): Map {
    if items == [] then m
    else
      var it := items[|items| - 1];
      PutItems(m, items[..|items| - 1])[it.key := Content(it.value, false, Deadline(it))]
  }

  predicate AllBuild(cfg: Config, items: seq<Item>) {
    forall i :: 0 <= i < |items| ==>
      items[i].ttl >= 0 && BuildIX(cfg, items[i].key, items[i].value, items[i].explicit).Some?
  }

  function KeepFrom(m: Map, cutoff: string): Map {
    map k | k in m && !Lt(k, cutoff) :: m[k]
  }

  function KeepUpTo(m: Map, cutoff: string): Map {
    map k | k in m && !Lt(cutoff, k) :: m[k]
  }

  /** One operation on a map whose expired keys are already gone. */
  ghost function IdealStep(cfg: Config, m: Map, t: Timed): Map {
    match t.op
    case OpPut(key, value, explicit, exp, _) =>
      if BuildIX(cfg, key, value, explicit).Some? then m[key := Content(value, false, exp)] else m
    case OpBatch(items) => if AllBuild(cfg, items) then PutItems(m, items) else m
    case OpDelete(key) => m - {key}
    case OpRemoveLess(cutoff) => KeepFrom(m, cutoff)
    case OpRemoveGreater(cutoff) => KeepUpTo(m, cutoff)
    case OpCount(key, createExp, cop) => IdealCount(m, key, t.now, createExp, cop)
    case OpReap(_) => m
    case OpCompact => m
    case OpRelieve => m
  }

  /** A run on the ideal map: keys past their deadline vanish before each operation. */
  ghost function IdealRun(cfg: Config, m: Map, ts: seq<Timed>): Map {
    if ts == [] then m
    else
      var t := ts[|ts| - 1];
      IdealStep(cfg, Alive(IdealRun(cfg, m, ts[..|ts| - 1]), t.now), t)
  }

  // ---- no caps, no evictions ----

  lemma {:induction false} NoEviction(cfg: Config, d: Disk, ix: IX, order: seq<string>)
    requires NoCaps(cfg)
    ensures Enforce(cfg, d, ix, order) == d
    decreases |order|
  {
    if order != [] {
      NoEviction(cfg, d, ix, order[1..]);
    }
  }

  lemma {:induction false} NoBatchEviction(cfg: Config, d: Disk, ts: seq<Touch>, seen: set<string>)
    requires NoCaps(cfg)
    ensures EnforceSeen(cfg, d, ts, seen) == d
    decreases |ts|
  {
    if ts != [] {
      NoBatchEviction(cfg, d, ts[1..], seen);
      NoBatchEviction(cfg, d, ts[1..], seen + {SeenKey(cfg, ts[0])});
    }
  }

  // ---- dropping expired keys early or late makes no difference ----

  lemma AlivePut(m: Map, key: string, c: Content, now: int, later: int)
    requires now <= later
    ensures Alive(m[key := c], later) == Alive(Alive(m, now)[key := c], later)
  {
  }

  lemma AliveMinus(m: Map, gone: set<string>, now: int, later: int)
    requires now <= later
    ensures Alive(m - gone, later) == Alive(Alive(m, now) - gone, later)
  {
  }

  lemma {:induction false} AlivePutItems(m: Map, items: seq<Item>, now: int, later: int)
    requires now <= later
    ensures Alive(PutItems(m, items), later) == Alive(PutItems(Alive(m, now), items), later)
    decreases |items|
  {
    if items == [] {
      AliveLater(m, now, later);
    } else {
      var init, it := items[..|items| - 1], items[|items| - 1];
      var c := Content(it.value, false, Deadline(it));
      AlivePutItems(m, init, now, later);
      AlivePut(PutItems(m, init), it.key, c, later, later);
      AlivePut(PutItems(Alive(m, now), init), it.key, c, later, later);
    }
  }

  // ---- each operation ----

  lemma {:induction false} ViewAppendItems(cfg: Config, d: Disk, items: seq<Item>)
    requires Inv(d)
    ensures View(AppendItems(cfg, d, items)) == PutItems(View(d), items)
    decreases |items|
  {
    if items != [] {
      var init, it := items[..|items| - 1], items[|items| - 1];
      ViewAppendItems(cfg, d, init);
      AppendItemsGrows(cfg, d, init);
      ViewAppend(cfg, AppendItems(cfg, d, init), it.key, it.value, ItemIX(cfg, it), ItemExp(it), false);
    }
  }

  /** Reaping deletes only what is already invisible, whatever the observations say. */
  lemma {:induction false} ReapIsInvisible(cfg: Config, d: Disk, reqs: seq<ReapReq>, now: int, later: int)
    requires now <= later
    ensures Visible(Reap(cfg, d, reqs, now), later) == Visible(d, later)
    decreases |reqs|
  {
    if reqs != [] {
      var d' := if Reapable(cfg, d, reqs[0], now) then Delete(d, reqs[0].key) else d;
      ReapIsInvisible(cfg, d', reqs[1..], now, later);
      if Reapable(cfg, d, reqs[0], now) {
        ViewDelete(d, reqs[0].key);
        ReplayMirrors(cfg.codec, d.recs, reqs[0].key);
      }
    }
  }

  /** A counter call changes the view, and answers, as on the ideal map. */
  lemma CountIsIdeal(cfg: Config, d: Disk, key: string, now: int, createExp: int, op: CounterOp, later: int)
    requires Lawful(cfg.codec) && Inv(d) && now <= later
    ensures Visible(Count(cfg, d, key, now, createExp, op).disk, later) ==
            Alive(IdealCount(Visible(d, now), key, now, createExp, op), later)
    ensures Count(cfg, d, key, now, createExp, op).reply == IdealReply(Visible(d, now), key, now, createExp, op)
  {
    var m := Contents(d.recs);
    if NegativeAmount(op) {
      AliveLater(View(d), now, later);
    } else if key !in m {
      CountFreshIsIdeal(cfg, d, key, now, createExp, op, later);
    } else if ExpiredAt(m[key].exp, now) {
      LapsedIsMissing(cfg, d, key, now);
      CountFreshIsIdeal(cfg, Delete(d, key), key, now, createExp, op, later);
    } else {
      CountLiveIsIdeal(cfg, d, key, now, createExp, op, later);
    }
  }

  /** Deleting a lapsed key is invisible. */
  lemma LapsedIsMissing(cfg: Config, d: Disk, key: string, now: int)
    requires Inv(d) && key in Contents(d.recs) && ExpiredAt(Contents(d.recs)[key].exp, now)
    ensures Inv(Delete(d, key)) && key !in Contents(Delete(d, key).recs)
    ensures Visible(Delete(d, key), now) == Visible(d, now)
  {
    DeleteGrows(cfg.codec, d, key);
    ContentsSnoc(d.recs, Tombstone(key));
    ViewDelete(d, key);
    assert Alive(View(d) - {key}, now) == Visible(d, now);
  }

  lemma CountFreshIsIdeal(cfg: Config, d: Disk, key: string, now: int, createExp: int, op: CounterOp, later: int)
    requires Inv(d) && key !in Contents(d.recs) && now <= later && !NegativeAmount(op)
    ensures var r := CountFresh(cfg, d, key, createExp, op);
      && Visible(r.disk, later) == Alive(IdealCount(Visible(d, now), key, now, createExp, op), later)
      && r.reply == IdealReply(Visible(d, now), key, now, createExp, op)
  {
    AliveLater(View(d), now, later);
    var s := StepOf(op, 0);
    if s.Move? {
      ViewAppend(cfg, d, key, Format(s.next), map[], createExp, true);
      AlivePut(View(d), key, Content(Format(s.next), true, createExp), now, later);
    }
  }

  /** Stepping a live key on the ideal map. */
  ghost function Stepped(m: Map, key: string, op: CounterOp): Map
    requires key in m && !NegativeAmount(op)
  {
    if NotCounter(m, key) || !StepOf(op, Parse(m[key].value).value).Move? then m
    else m[key := Content(Format(StepOf(op, Parse(m[key].value).value).next), true, m[key].exp)]
  }

  ghost function SteppedReply(m: Map, key: string, op: CounterOp): Reply
    requires key in m && !NegativeAmount(op)
  {
    if NotCounter(m, key) then ErrNotCounter else ReplyOf(op, Parse(m[key].value).value)
  }

  lemma IdealLive(m: Map, key: string, now: int, createExp: int, op: CounterOp)
    requires key in m && !ExpiredAt(m[key].exp, now) && !NegativeAmount(op)
    ensures IdealCount(m, key, now, createExp, op) == Stepped(m, key, op)
    ensures IdealReply(m, key, now, createExp, op) == SteppedReply(m, key, op)
  {
  }

  lemma ViewStepped(cfg: Config, d: Disk, key: string, now: int, createExp: int, op: CounterOp)
    requires Lawful(cfg.codec) && Inv(d) && !NegativeAmount(op)
    requires key in Contents(d.recs) && !ExpiredAt(Contents(d.recs)[key].exp, now)
    ensures View(Count(cfg, d, key, now, createExp, op).disk) == Stepped(View(d), key, op)
    ensures Count(cfg, d, key, now, createExp, op).reply == SteppedReply(View(d), key, op)
  {
    ReplayMirrors(cfg.codec, d.recs, key);
    ContentsInside(d, key);
    var r := Contents(d.recs)[key];
    if r.counter && r.blob.None? && Parse(r.value).Some? {
      var s := StepOf(op, Parse(r.value).value);
      if s.Move? {
        ViewCounted(cfg, d, key, s.next);
      }
    }
  }

  lemma CountLiveIsIdeal(cfg: Config, d: Disk, key: string, now: int, createExp: int, op: CounterOp, later: int)
    requires Lawful(cfg.codec) && Inv(d) && now <= later && !NegativeAmount(op)
    requires key in Contents(d.recs) && !ExpiredAt(Contents(d.recs)[key].exp, now)
    ensures var r := Count(cfg, d, key, now, createExp, op);
      && Visible(r.disk, later) == Alive(IdealCount(Visible(d, now), key, now, createExp, op), later)
      && r.reply == IdealReply(Visible(d, now), key, now, createExp, op)
  {
    ViewStepped(cfg, d, key, now, createExp, op);
    IdealLive(Visible(d, now), key, now, createExp, op);
    SteppedAlive(View(d), key, op, now, later);
  }

  lemma SteppedAlive(m: Map, key: string, op: CounterOp, now: int, later: int)
    requires key in m && !ExpiredAt(m[key].exp, now) && !NegativeAmount(op) && now <= later
    ensures Alive(Stepped(m, key, op), later) == Alive(Stepped(Alive(m, now), key, op), later)
    ensures SteppedReply(m, key, op) == SteppedReply(Alive(m, now), key, op)
  {
    AliveLater(m, now, later);
    if !NotCounter(m, key) && StepOf(op, Parse(m[key].value).value).Move? {
      AlivePut(m, key, Stepped(m, key, op)[key], now, later);
    }
  }

  /** One operation: what readers see from then on is the ideal map's, at every later time. */
  lemma StepIsIdeal(cfg: Config, d: Disk, t: Timed, later: int)
    requires Lawful(cfg.codec) && Inv(d) && NoCaps(cfg) && t.now <= later
    ensures Visible(Step(cfg, d, t), later) == Alive(IdealStep(cfg, Visible(d, t.now), t), later)
  {
    match t.op
    case OpPut(_, _, _, _, _) => PutIsIdeal(cfg, d, t, later);
    case OpBatch(_) => BatchIsIdeal(cfg, d, t, later);
    case OpDelete(_) => DeleteIsIdeal(cfg, d, t, later);
    case OpRemoveLess(_) => RemoveLessIsIdeal(cfg, d, t, later);
    case OpRemoveGreater(_) => RemoveGreaterIsIdeal(cfg, d, t, later);
    case OpCount(key, createExp, cop) => CountStepIsIdeal(cfg, d, t.now, key, createExp, cop, later);
    case OpReap(_) => ReapIsIdeal(cfg, d, t, later);
    case OpCompact => CompactIsIdeal(cfg, d, t.now, later);
    case OpRelieve => RelieveIsIdeal(cfg, d, t.now, later);
  }

  lemma CountStepIsIdeal(cfg: Config, d: Disk, now: int, key: string, createExp: int, cop: CounterOp, later: int)
    requires Lawful(cfg.codec) && Inv(d) && now <= later
    ensures var t := Timed(now, OpCount(key, createExp, cop));
      Visible(Step(cfg, d, t), later) == Alive(IdealStep(cfg, Visible(d, now), t), later)
  {
    CountIsIdeal(cfg, d, key, now, createExp, cop, later);
    var t, m := Timed(now, OpCount(key, createExp, cop)), Visible(d, now);
    assert Step(cfg, d, t) == Count(cfg, d, key, now, createExp, cop).disk;
    assert IdealStep(cfg, m, t) == IdealCount(m, key, now, createExp, cop);
  }

  lemma ReapIsIdeal(cfg: Config, d: Disk, t: Timed, later: int)
    requires Lawful(cfg.codec) && Inv(d) && NoCaps(cfg) && t.now <= later && t.op.OpReap?
    ensures Visible(Step(cfg, d, t), later) == Alive(IdealStep(cfg, Visible(d, t.now), t), later)
  {
    AliveLater(View(d), t.now, later);
    ReapIsInvisible(cfg, d, t.op.reqs, t.now, later);
  }

  lemma CompactIsIdeal(cfg: Config, d: Disk, now: int, later: int)
    requires Inv(d) && now <= later
    ensures Visible(Step(cfg, d, Timed(now, OpCompact)), later) ==
            Alive(IdealStep(cfg, Visible(d, now), Timed(now, OpCompact)), later)
  {
    RewriteIsInvisible(cfg, d, now, later);
    assert Step(cfg, d, Timed(now, OpCompact)) == Compact(cfg, d, now);
  }

  lemma RelieveIsIdeal(cfg: Config, d: Disk, now: int, later: int)
    requires Inv(d) && now <= later
    ensures Visible(Step(cfg, d, Timed(now, OpRelieve)), later) ==
            Alive(IdealStep(cfg, Visible(d, now), Timed(now, OpRelieve)), later)
  {
    RewriteIsInvisible(cfg, d, now, later);
    assert Step(cfg, d, Timed(now, OpRelieve)) == Relieve(cfg, d, now);
  }

  lemma BatchIsIdeal(cfg: Config, d: Disk, t: Timed, later: int)
    requires Lawful(cfg.codec) && Inv(d) && NoCaps(cfg) && t.now <= later && t.op.OpBatch?
    ensures Visible(Step(cfg, d, t), later) == Alive(IdealStep(cfg, Visible(d, t.now), t), later)
  {
    var items := t.op.items;
    AliveLater(View(d), t.now, later);
    NoBatchEviction(cfg, AppendItems(cfg, d, items), Touches(cfg, items), {});
    ViewAppendItems(cfg, d, items);
    AlivePutItems(View(d), items, t.now, later);
    BatchAcceptedIff(cfg, d, items);
  }

  lemma DeleteIsIdeal(cfg: Config, d: Disk, t: Timed, later: int)
    requires Lawful(cfg.codec) && Inv(d) && NoCaps(cfg) && t.now <= later && t.op.OpDelete?
    ensures Visible(Step(cfg, d, t), later) == Alive(IdealStep(cfg, Visible(d, t.now), t), later)
  {
    var key := t.op.key;
    ViewDelete(d, key);
    AliveMinus(View(d), {key}, t.now, later);
    assert key !in View(d) ==> View(d) - {key} == View(d);
  }

  lemma RemoveLessIsIdeal(cfg: Config, d: Disk, t: Timed, later: int)
    requires Lawful(cfg.codec) && Inv(d) && NoCaps(cfg) && t.now <= later && t.op.OpRemoveLess?
    ensures Visible(Step(cfg, d, t), later) == Alive(IdealStep(cfg, Visible(d, t.now), t), later)
  {
    var gone := Below(Contents(d.recs).Keys, t.op.cutoff);
    ViewDeleteAll(d, gone);
    AliveMinus(View(d), Elems(gone), t.now, later);
    assert Visible(d, t.now) - Elems(gone) == KeepFrom(Visible(d, t.now), t.op.cutoff);
  }

  lemma RemoveGreaterIsIdeal(cfg: Config, d: Disk, t: Timed, later: int)
    requires Lawful(cfg.codec) && Inv(d) && NoCaps(cfg) && t.now <= later && t.op.OpRemoveGreater?
    ensures Visible(Step(cfg, d, t), later) == Alive(IdealStep(cfg, Visible(d, t.now), t), later)
  {
    var gone := Beyond(Contents(d.recs).Keys, t.op.cutoff);
    ViewDeleteAll(d, gone);
    AliveMinus(View(d), Elems(gone), t.now, later);
    assert Visible(d, t.now) - Elems(gone) == KeepUpTo(Visible(d, t.now), t.op.cutoff);
  }

  lemma RewriteIsInvisible(cfg: Config, d: Disk, now: int, later: int)
    requires Inv(d) && now <= later
    ensures Visible(Compact(cfg, d, now), later) == Alive(Visible(d, now), later)
    ensures Visible(Relieve(cfg, d, now), later) == Alive(Visible(d, now), later)
  {
    RewritesKeepVisible(cfg, d, now);
  }

  lemma BatchAcceptedIff(cfg: Config, d: Disk, items: seq<Item>)
    requires NoCaps(cfg)
    ensures BatchAccepted(cfg, d, items) <==> AllBuild(cfg, items)
  {
    forall i | 0 <= i < |items|
      ensures Accepted(cfg, d, items[i].key, items[i].value, items[i].explicit) <==>
              BuildIX(cfg, items[i].key, items[i].value, items[i].explicit).Some?
    {
    }
  }

  lemma PutIsIdeal(cfg: Config, d: Disk, t: Timed, later: int)
    requires Lawful(cfg.codec) && Inv(d) && NoCaps(cfg) && t.now <= later && t.op.OpPut?
    ensures Visible(Step(cfg, d, t), later) == Alive(IdealStep(cfg, Visible(d, t.now), t), later)
  {
    var p := t.op;
    AliveLater(View(d), t.now, later);
    var ix := BuildIX(cfg, p.key, p.value, p.explicit);
    if ix.Some? {
      NoEviction(cfg, Append(cfg, d, p.key, p.value, ix.value, p.exp, false), ix.value, p.order);
      ViewAppend(cfg, d, p.key, p.value, ix.value, p.exp, false);
      AlivePut(View(d), p.key, Content(p.value, false, p.exp), t.now, later);
    }
  }

  predicate ClockForward(ts: seq<Timed>, later: int) {
    && (forall i, j :: 0 <= i < j < |ts| ==> ts[i].now <= ts[j].now)
    && (forall i :: 0 <= i < |ts| ==> ts[i].now <= later)
  }

  /** Every run with a forward clock: reads at any later time report exactly the ideal map. */
  lemma {:induction false} RunIsIdeal(cfg: Config, d: Disk, ts: seq<Timed>, later: int)
    requires Lawful(cfg.codec) && Inv(d) && NoCaps(cfg) && ClockForward(ts, later)
    ensures Visible(RunAll(cfg, d, ts), later) == Alive(IdealRun(cfg, View(d), ts), later)
    decreases |ts|
  {
    if ts != [] {
      var init, t := ts[..|ts| - 1], ts[|ts| - 1];
      RunIsIdeal(cfg, d, init, t.now);
      RunKeepsInv(cfg, d, init);
      StepIsIdeal(cfg, RunAll(cfg, d, init), t, later);
    }
  }

  /** A store that starts empty: its invariant holds after every run, and reads report the ideal map that starts
      empty. */
  lemma FreshStoreIsIdeal(cfg: Config, ts: seq<Timed>, later: int)
    requires Lawful(cfg.codec) && NoCaps(cfg) && ClockForward(ts, later)
    ensures Inv(RunAll(cfg, EmptyDisk(), ts))
    ensures Visible(RunAll(cfg, EmptyDisk(), ts), later) == Alive(IdealRun(cfg, map[], ts), later)
  {
    RunKeepsInv(cfg, EmptyDisk(), ts);
    RunIsIdeal(cfg, EmptyDisk(), ts, later);
    assert View(EmptyDisk()) == map[];
  }

  /** And every counter call after such a run answers as on the ideal map. */
  lemma RunRepliesAreIdeal(cfg: Config, d: Disk, ts: seq<Timed>, key: string, now: int, createExp: int, op: CounterOp)
    requires Lawful(cfg.codec) && Inv(d) && NoCaps(cfg) && ClockForward(ts, now)
    ensures Count(cfg, RunAll(cfg, d, ts), key, now, createExp, op).reply ==
            IdealReply(Alive(IdealRun(cfg, View(d), ts), now), key, now, createExp, op)
  {
    RunIsIdeal(cfg, d, ts, now);
    RunKeepsInv(cfg, d, ts);
    CountIsIdeal(cfg, RunAll(cfg, d, ts), key, now, createExp, op, now);
  }
}

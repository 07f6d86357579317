/** Caps over whole runs: which operations can add to a group, and that no run leaves one over its cap. */
module RunCaps {
  import opened Text
  import opened Wrappers
  import opened CounterCodec
  import opened CounterSteps
  import opened SecIndex
  import opened Records
  import opened MainLog
  import opened LogIndex
  import opened Engine
  import opened EngineInv
  import opened EngineView
  import opened Caps
  import opened Batch
  import opened Promises

  /** No key enters a group of a declared index. */
  ghost predicate Shrinks(cfg: Config, m: Table, m': Table) {
    forall k, name :: name in cfg.defs && k in m' && name in m'[k].ix ==>
      k in m && name in m[k].ix && m[k].ix[name] == m'[k].ix[name]
  }

  lemma ShrinkingKeepsCaps(cfg: Config, m: Table, m': Table)
    requires CapsHold(cfg, m) && Shrinks(cfg, m, m')
    ensures CapsHold(cfg, m')
  {
    forall name, v | Capped(cfg, name, v)
      ensures |GroupSet(m', name, v)| <= cfg.defs[name].max
    {
      assert GroupSet(m', name, v) <= GroupSet(m, name, v);
      SubsetSize(GroupSet(m', name, v), GroupSet(m, name, v));
    }
  }

  lemma ThinnedShrinks(cfg: Config, m: Table, m': Table)
    requires Thinned(m, m')
    ensures Shrinks(cfg, m, m')
  {
  }

  lemma ReapShrinks(cfg: Config, d: Disk, reqs: seq<ReapReq>, now: int)
    ensures Shrinks(cfg, Contents(d.recs), Contents(Reap(cfg, d, reqs, now).recs))
  {
    forall k | k in Contents(Reap(cfg, d, reqs, now).recs)
      ensures k in Contents(d.recs) && Contents(Reap(cfg, d, reqs, now).recs)[k] == Contents(d.recs)[k]
    {
      ReapRemoves(cfg, d, reqs, now, k);
    }
  }

  lemma RewriteShrinks(cfg: Config, d: Disk, now: int, relieve: bool)
    requires Inv(d)
    ensures var d' := if relieve then Relieve(cfg, d, now) else Compact(cfg, d, now);
      Shrinks(cfg, Contents(d.recs), Contents(d'.recs))
  {
    var d' := if relieve then Relieve(cfg, d, now) else Compact(cfg, d, now);
    forall k | k in Contents(d'.recs)
      ensures forall name :: name in Contents(d'.recs)[k].ix ==>
        && k in Contents(d.recs) && name in Contents(d.recs)[k].ix
        && Contents(d.recs)[k].ix[name] == Contents(d'.recs)[k].ix[name]
    {
      RewriteKeeps(cfg, d, now, relieve, k);
    }
  }

  /** A counter is written without index values, so it enters no group. */
  lemma BareAppendShrinks(cfg: Config, d: Disk, key: string, value: string, exp: int)
    ensures Shrinks(cfg, Contents(d.recs), Contents(Append(cfg, d, key, value, map[], exp, true).recs))
  {
    AppendTable(cfg, d, key, value, map[], exp, true);
  }

  lemma PatchShrinks(cfg: Config, d: Disk, key: string, v: int64)
    requires Lawful(cfg.codec) && Inv(d) && key in Contents(d.recs) && Patchable(Contents(d.recs)[key])
    ensures LastIndex(d.recs, key) >= 0
    ensures Shrinks(cfg, Contents(d.recs), Contents(Patch(d, key, v).recs))
  {
    ReplayMirrors(cfg.codec, d.recs, key);
    var i := LastIndex(d.recs, key);
    PatchGrows(cfg.codec, d, key, v);
    PatchLatest(cfg.codec, d.recs, i, Patch(d, key, v).recs[i]);
  }

  lemma FreshShrinks(cfg: Config, d: Disk, key: string, createExp: int, op: CounterOp)
    requires !NegativeAmount(op)
    ensures Shrinks(cfg, Contents(d.recs), Contents(CountFresh(cfg, d, key, createExp, op).disk.recs))
  {
    if StepOf(op, 0).Move? {
      BareAppendShrinks(cfg, d, key, Format(StepOf(op, 0).next), createExp);
    }
  }

  lemma LiveShrinks(cfg: Config, d: Disk, key: string, op: CounterOp)
    requires Lawful(cfg.codec) && Inv(d) && !NegativeAmount(op) && key in Contents(d.recs)
    ensures LastIndex(d.recs, key) >= 0 && Contents(d.recs)[key].key == key
    ensures Shrinks(cfg, Contents(d.recs),
              Contents(CountLive(cfg, d, Contents(d.recs)[key], op).disk.recs))
  {
    ReplayMirrors(cfg.codec, d.recs, key);
    ContentsInside(d, key);
    var r := Contents(d.recs)[key];
    if r.blob.None? && r.counter && Parse(r.value).Some? && StepOf(op, Parse(r.value).value).Move? {
      var next := StepOf(op, Parse(r.value).value).next;
      if r.ix == map[] {
        PatchShrinks(cfg, d, key, next);
      } else {
        BareAppendShrinks(cfg, d, key, Format(next), r.exp);
      }
    }
  }

  lemma ShrinksTransitive(cfg: Config, a: Table, b: Table, c: Table)
    requires Shrinks(cfg, a, b) && Shrinks(cfg, b, c)
    ensures Shrinks(cfg, a, c)
  {
  }

  lemma CountShrinks(cfg: Config, d: Disk, key: string, now: int, createExp: int, op: CounterOp)
    requires Lawful(cfg.codec) && Inv(d)
    ensures Shrinks(cfg, Contents(d.recs), Contents(Count(cfg, d, key, now, createExp, op).disk.recs))
  {
    if !NegativeAmount(op) {
      if key !in Contents(d.recs) {
        FreshShrinks(cfg, d, key, createExp, op);
      } else if ExpiredAt(Contents(d.recs)[key].exp, now) {
        ContentsSnoc(d.recs, Tombstone(key));
        FreshShrinks(cfg, Delete(d, key), key, createExp, op);
        ShrinksTransitive(cfg, Contents(d.recs), Contents(Delete(d, key).recs),
          Contents(CountFresh(cfg, Delete(d, key), key, createExp, op).disk.recs));
      } else {
        LiveShrinks(cfg, d, key, op);
      }
    }
  }

  /** The enforcement passes of the operation visit every index value written. */
  ghost predicate VisitsAll(cfg: Config, op: Op) {
    match op
    case OpPut(key, value, explicit, _, order) =>
      var ix := BuildIX(cfg, key, value, explicit);
      ix.Some? ==> Elems(order) == ix.value.Keys
    case OpBatch(items) => OrdersVisit(cfg, items)
    case _ => true
  }

  lemma DeletesShrink(cfg: Config, d: Disk, key: string)
    ensures Shrinks(cfg, Contents(d.recs), Contents(DeleteKey(d, key).recs))
    ensures Shrinks(cfg, Contents(d.recs), Contents(RemoveLess(d, key).recs))
    ensures Shrinks(cfg, Contents(d.recs), Contents(RemoveGreater(d, key).recs))
  {
    DeleteRemoves(d, key);
    ThinnedShrinks(cfg, Contents(d.recs), Contents(DeleteKey(d, key).recs));
    RangeRemoves(d, key, "");
    ThinnedShrinks(cfg, Contents(d.recs), Contents(RemoveLess(d, key).recs));
    ThinnedShrinks(cfg, Contents(d.recs), Contents(RemoveGreater(d, key).recs));
  }

  lemma RewriteStepShrinks(cfg: Config, d: Disk, t: Timed)
    requires Inv(d) && Rewrites(t.op)
    ensures Shrinks(cfg, Contents(d.recs), Contents(Step(cfg, d, t).recs))
  {
    RewriteShrinks(cfg, d, t.now, t.op.OpRelieve?);
    if t.op.OpRelieve? {
      StepOfRelieve(cfg, d, t);
    } else {
      StepOfCompact(cfg, d, t);
    }
  }

  lemma QuietStepShrinks(cfg: Config, d: Disk, t: Timed)
    requires Lawful(cfg.codec) && Inv(d) && !t.op.OpPut? && !t.op.OpBatch?
    ensures Shrinks(cfg, Contents(d.recs), Contents(Step(cfg, d, t).recs))
  {
    match t.op
    case OpDelete(key) => DeletesShrink(cfg, d, key);
    case OpRemoveLess(cutoff) => DeletesShrink(cfg, d, cutoff);
    case OpRemoveGreater(cutoff) => DeletesShrink(cfg, d, cutoff);
    case OpCount(key, createExp, cop) => CountShrinks(cfg, d, key, t.now, createExp, cop);
    case OpReap(reqs) => ReapShrinks(cfg, d, reqs, t.now);
    case OpCompact => RewriteStepShrinks(cfg, d, t);
    case OpRelieve => RewriteStepShrinks(cfg, d, t);
  }

  lemma StepKeepsCaps(cfg: Config, d: Disk, t: Timed)
    requires Lawful(cfg.codec) && SprintLawful(cfg) && CapsUnshadowed(cfg)
    requires Inv(d) && CapsHold(cfg, Contents(d.recs)) && VisitsAll(cfg, t.op)
    ensures CapsHold(cfg, Contents(Step(cfg, d, t).recs))
  {
    match t.op
    case OpPut(key, value, explicit, exp, order) =>
      if Accepted(cfg, d, key, value, explicit) {
        WriteSurvives(cfg, d, key, value, explicit, exp, order);
      }
    case OpBatch(items) => BatchKeepsCaps(cfg, d, items);
    case _ =>
      QuietStepShrinks(cfg, d, t);
      ShrinkingKeepsCaps(cfg, Contents(d.recs), Contents(Step(cfg, d, t).recs));
  }

  /** In a schema where no capped index shadows or is shadowed, no run of operations from a store within its caps, an
      empty one for instance, ever leaves a group over its cap. */
  lemma {:induction false} RunKeepsCaps(cfg: Config, d: Disk, ts: seq<Timed>)
    requires Lawful(cfg.codec) && SprintLawful(cfg) && CapsUnshadowed(cfg)
    requires Inv(d) && CapsHold(cfg, Contents(d.recs)) && forall i :: 0 <= i < |ts| ==> VisitsAll(cfg, ts[i].op)
    ensures CapsHold(cfg, Contents(RunAll(cfg, d, ts).recs))
    decreases |ts|
  {
    if ts != [] {
      var init := ts[..|ts| - 1];
      RunKeepsCaps(cfg, d, init);
      RunKeepsInv(cfg, d, init);
      StepKeepsCaps(cfg, RunAll(cfg, d, init), ts[|ts| - 1]);
    }
  }
}

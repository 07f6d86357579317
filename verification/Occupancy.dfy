/** Blob occupancy: over every run the live records refer to no more bytes than the blob files hold. */
module Occupancy {
  import opened Text
  import opened Wrappers
  import opened CounterCodec
  import opened CounterSteps
  import opened SecIndex
  import opened Records
  import opened MainLog
  import opened LogIndex
  import opened Engine
  import opened EngineInv
  import opened EngineView
  import opened Sizes

  /** The sizes of the first `n` generations; a missing one counts as empty. */
  function SumSizes(blobs: Blobs, n: nat): nat {
    if n == 0 then 0 else SumSizes(blobs, n - 1) + BlobSize(blobs, n - 1)
  }

  /** The size of all generation files. */
  function TotalBytes(d: Disk): nat {
    SumSizes(d.blobs, d.curGen + 1)
  }

  /** The bytes that no record of the log, live or superseded, refers to. */
  ghost function Slack(d: Disk): int {
    TotalBytes(d) - TotalRefs(d.recs)
  }

  lemma {:induction false} SumSizesUpdate(blobs: Blobs, g: nat, file: string, n: nat)
    ensures SumSizes(blobs[g := file], n) == SumSizes(blobs, n) + if g < n then |file| - BlobSize(blobs, g) else 0
  {
    if n > 0 {
      SumSizesUpdate(blobs, g, file, n - 1);
    }
  }

  lemma TotalRefsSnoc(recs: seq<Record>, r: Record)
    ensures TotalRefs(recs + [r]) == TotalRefs(recs) + if r.blob.Some? then r.blob.value.size else 0
  {
    assert (recs + [r])[..|recs|] == recs;
  }

  // ---- operations that do not rewrite ----

  lemma AppendSlack(cfg: Config, d: Disk, key: string, value: string, ix: IX, exp: int, counter: bool)
    ensures Slack(Append(cfg, d, key, value, ix, exp, counter)) == Slack(d)
  {
    TotalRefsSnoc(d.recs, NewRecord(cfg, d, key, value, ix, exp, counter));
    var file := (if d.curGen in d.blobs then d.blobs[d.curGen] else "") + value;
    SumSizesUpdate(d.blobs, d.curGen, file, d.curGen + 1);
  }

  lemma DeleteSlack(d: Disk, key: string)
    ensures Slack(Delete(d, key)) == Slack(d)
  {
    TotalRefsSnoc(d.recs, Tombstone(key));
  }

  lemma {:induction false} DeleteAllSlack(d: Disk, keys: seq<string>)
    ensures Slack(DeleteAll(d, keys)) == Slack(d)
    decreases |keys|
  {
    if keys != [] {
      DeleteAllSlack(d, keys[..|keys| - 1]);
      DeleteSlack(DeleteAll(d, keys[..|keys| - 1]), keys[|keys| - 1]);
    }
  }

  lemma EnforceOneSlack(cfg: Config, d: Disk, name: string, v: Value)
    ensures Slack(EnforceOne(cfg, d, name, v)) == Slack(d)
  {
    if Capped(cfg, name, v) {
      DeleteAllSlack(d, Victims(Group(d, name, v), cfg.defs[name].max));
    }
  }

  lemma {:induction false} EnforceSlack(cfg: Config, d: Disk, ix: IX, order: seq<string>)
    ensures Slack(Enforce(cfg, d, ix, order)) == Slack(d)
    decreases |order|
  {
    if order != [] {
      if order[0] in ix {
        EnforceOneSlack(cfg, d, order[0], ix[order[0]]);
        EnforceSlack(cfg, EnforceOne(cfg, d, order[0], ix[order[0]]), ix, order[1..]);
      } else {
        EnforceSlack(cfg, d, ix, order[1..]);
      }
    }
  }

  lemma {:induction false} EnforceSeenSlack(cfg: Config, d: Disk, ts: seq<Touch>, seen: set<string>)
    ensures Slack(EnforceSeen(cfg, d, ts, seen)) == Slack(d)
    decreases |ts|
  {
    if ts != [] {
      if SeenKey(cfg, ts[0]) in seen {
        EnforceSeenSlack(cfg, d, ts[1..], seen);
      } else {
        EnforceOneSlack(cfg, d, ts[0].name, ts[0].val);
        EnforceSeenSlack(cfg, EnforceOne(cfg, d, ts[0].name, ts[0].val), ts[1..], seen + {SeenKey(cfg, ts[0])});
      }
    }
  }

  lemma {:induction false} AppendItemsSlack(cfg: Config, d: Disk, items: seq<Item>)
    ensures Slack(AppendItems(cfg, d, items)) == Slack(d)
    decreases |items|
  {
    if items != [] {
      var init, it := items[..|items| - 1], items[|items| - 1];
      AppendItemsSlack(cfg, d, init);
      AppendSlack(cfg, AppendItems(cfg, d, init), it.key, it.value, ItemIX(cfg, it), ItemExp(it), false);
    }
  }

  lemma {:induction false} ReapSlack(cfg: Config, d: Disk, reqs: seq<ReapReq>, now: int)
    ensures Slack(Reap(cfg, d, reqs, now)) == Slack(d)
    decreases |reqs|
  {
    if reqs != [] {
      DeleteSlack(d, reqs[0].key);
      ReapSlack(cfg, if Reapable(cfg, d, reqs[0], now) then Delete(d, reqs[0].key) else d, reqs[1..], now);
    }
  }

  lemma {:induction false} PatchRefs(recs: seq<Record>, i: nat, r: Record)
    requires i < |recs| && r.blob == recs[i].blob
    ensures TotalRefs(recs[i := r]) == TotalRefs(recs)
    decreases |recs|
  {
    var init := recs[..|recs| - 1];
    if i == |init| {
      assert recs[i := r][..|init|] == init;
    } else {
      PatchRefs(init, i, r);
      assert recs[i := r][..|init|] == init[i := r];
    }
  }

  lemma CountSlack(cfg: Config, d: Disk, key: string, now: int, createExp: int, op: CounterOp)
    ensures Slack(Count(cfg, d, key, now, createExp, op).disk) == Slack(d)
  {
    var m := Contents(d.recs);
    if !NegativeAmount(op) {
      if key in m && !ExpiredAt(m[key].exp, now) {
        CountLiveSlack(cfg, d, key, op);
      } else {
        CountFreshSlack(cfg, d, key, createExp, op);
        CountFreshSlack(cfg, Delete(d, key), key, createExp, op);
        DeleteSlack(d, key);
      }
    }
  }

  lemma CountFreshSlack(cfg: Config, d: Disk, key: string, createExp: int, op: CounterOp)
    requires !NegativeAmount(op)
    ensures Slack(CountFresh(cfg, d, key, createExp, op).disk) == Slack(d)
  {
    var s := StepOf(op, 0);
    if s.Move? {
      AppendSlack(cfg, d, key, Format(s.next), map[], createExp, true);
    }
  }

  lemma CountLiveSlack(cfg: Config, d: Disk, key: string, op: CounterOp)
    requires !NegativeAmount(op) && key in Contents(d.recs)
    ensures LastIndex(d.recs, key) >= 0 && Contents(d.recs)[key].key == key
    ensures Slack(CountLive(cfg, d, Contents(d.recs)[key], op).disk) == Slack(d)
  {
    ReplayMirrors(cfg.codec, d.recs, key);
    var i, r := LastIndex(d.recs, key), Contents(d.recs)[key];
    if r.counter && r.blob.None? && Parse(r.value).Some? {
      var s := StepOf(op, Parse(r.value).value);
      if s.Move? {
        PatchRefs(d.recs, i, d.recs[i].(value := Format(s.next)));
        AppendSlack(cfg, d, key, Format(s.next), map[], r.exp, true);
      }
    }
  }

  lemma StepSlack(cfg: Config, d: Disk, t: Timed)
    requires !Rewrites(t.op)
    ensures Slack(Step(cfg, d, t)) == Slack(d)
  {
    match t.op
    case OpPut(key, value, explicit, exp, order) =>
      if Accepted(cfg, d, key, value, explicit) {
        var ix := BuildIX(cfg, key, value, explicit).value;
        AppendSlack(cfg, d, key, value, ix, exp, false);
        EnforceSlack(cfg, Append(cfg, d, key, value, ix, exp, false), ix, order);
      }
    case OpBatch(items) =>
      AppendItemsSlack(cfg, d, items);
      EnforceSeenSlack(cfg, AppendItems(cfg, d, items), Touches(cfg, items), {});
    case OpDelete(key) => DeleteSlack(d, key);
    case OpRemoveLess(cutoff) => DeleteAllSlack(d, Below(Contents(d.recs).Keys, cutoff));
    case OpRemoveGreater(cutoff) => DeleteAllSlack(d, Beyond(Contents(d.recs).Keys, cutoff));
    case OpCount(key, createExp, cop) => CountSlack(cfg, d, key, t.now, createExp, cop);
    case OpReap(reqs) => ReapSlack(cfg, d, reqs, t.now);
  }

  // ---- rewrites ----

  /** The live records refer to no more than all records do. */
  lemma {:induction false} LiveWithinRefs(recs: seq<Record>)
    ensures LiveBlobBytes(recs) <= TotalRefs(recs)
    decreases |recs|
  {
    if recs == [] {
      assert RefSizes(map[]) == map[];
    } else {
      var init, r := recs[..|recs| - 1], recs[|recs| - 1];
      LiveWithinRefs(init);
      var m, n := Contents(init), if r.blob.Some? then r.blob.value.size else 0;
      TotalPut(RefSizes(m), r.key, n);
      if r.deleted {
        assert RefSizes(m - {r.key}) == RefSizes(m) - {r.key};
      } else {
        assert RefSizes(m[r.key := r]) == RefSizes(m)[r.key := n];
      }
    }
  }

  /** Taking one more key out of a table of sizes. */
  lemma MinusNext(sizes: map<string, nat>, ks: seq<string>, k: string)
    requires k !in ks
    ensures Total(sizes - Elems(ks)) == Total(sizes - Elems(ks + [k])) + if k in sizes then sizes[k] else 0
  {
    var rest := sizes - Elems(ks);
    ElemsSnoc(ks, k);
    assert sizes - Elems(ks + [k]) == rest - {k};
    if k in sizes {
      TotalMinus(rest, k);
    } else {
      assert rest - {k} == rest;
    }
  }

  /** The sizes that a walk over the keys has not met after `i` of them. */
  ghost function Unmet(sizes: map<string, nat>, ks: seq<string>, i: nat): nat
    requires i <= |ks|
  {
    Total(sizes - Elems(ks[..i]))
  }

  lemma WalkStarts(sizes: map<string, nat>, ks: seq<string>)
    ensures Unmet(sizes, ks, 0) == Total(sizes)
  {
    assert ks[..0] == [] && Elems(ks[..0]) == {} && sizes - {} == sizes;
  }

  lemma WalkEnds(sizes: map<string, nat>, ks: seq<string>)
    requires Elems(ks) == sizes.Keys
    ensures Unmet(sizes, ks, |ks|) == 0
  {
    assert ks[..|ks|] == ks && sizes - Elems(ks) == map[];
  }

  /** One more key of an ascending walk. */
  lemma WalkNext(sizes: map<string, nat>, ks: seq<string>, i: nat)
    requires Ascending(ks) && i < |ks|
    ensures Unmet(sizes, ks, i) == Unmet(sizes, ks, i + 1) + if ks[i] in sizes then sizes[ks[i]] else 0
  {
    LtIrreflexive(ks[i]);
    assert ks[..i + 1] == ks[..i] + [ks[i]] && ks[i] !in ks[..i];
    MinusNext(sizes, ks[..i], ks[i]);
  }

  /** The records a compaction writes refer to no more than the live records did. */
  lemma {:induction false} CompactedRefs(cfg: Config, d: Disk, ks: seq<string>, now: int)
    requires Ascending(ks)
    ensures TotalRefs(Rewrite(cfg, d, false, ks, now).recs) + Total(RefSizes(Contents(d.recs)) - Elems(ks)) <=
            LiveBlobBytes(d.recs)
    decreases |ks|
  {
    var sizes := RefSizes(Contents(d.recs));
    if ks == [] {
      assert sizes - Elems(ks) == sizes;
    } else {
      var init, k := ks[..|ks| - 1], ks[|ks| - 1];
      assert ks == init + [k];
      CompactedRefs(cfg, d, init, now);
      LtIrreflexive(k);
      assert k !in init;
      MinusNext(sizes, init, k);
      RewriteKeyRefs(cfg, d, init, k, now);
    }
  }

  lemma RewriteKeyRefs(cfg: Config, d: Disk, ks: seq<string>, k: string, now: int)
    ensures var sizes := RefSizes(Contents(d.recs));
      TotalRefs(Rewrite(cfg, d, false, ks + [k], now).recs) <=
      TotalRefs(Rewrite(cfg, d, false, ks, now).recs) + if k in sizes then sizes[k] else 0
  {
    var m := Contents(d.recs);
    RewriteSnoc(cfg, d, false, ks, k, now);
    if k in m && !ExpiredAt(m[k].exp, now) {
      TotalRefsSnoc(Rewrite(cfg, d, false, ks, now).recs, m[k].(ix := FilterKnown(cfg, m[k].ix)));
    }
  }

  lemma CompactSlack(cfg: Config, d: Disk, now: int)
    ensures Slack(Compact(cfg, d, now)) >= Slack(d)
  {
    CompactedRefs(cfg, d, LiveKeys(d), now);
    LiveWithinRefs(d.recs);
  }

  /** A relieve leaves no slack at all. */
  lemma RelieveSlack(cfg: Config, d: Disk, now: int)
    requires Inv(d)
    ensures Slack(Relieve(cfg, d, now)) == 0
  {
    var d' := Relieve(cfg, d, now);
    RelieveKeepsInv(cfg, d, now);
    OnlyGeneration(d'.blobs, d'.curGen, d'.curGen + 1);
  }

  lemma {:induction false} OnlyGeneration(blobs: Blobs, g: nat, n: nat)
    requires blobs.Keys == {g}
    ensures SumSizes(blobs, n) == if g < n then |blobs[g]| else 0
  {
    if n > 0 {
      OnlyGeneration(blobs, g, n - 1);
    }
  }

  // ---- runs ----

  lemma StepKeepsSlack(cfg: Config, d: Disk, t: Timed)
    requires Inv(d) && Slack(d) >= 0
    ensures Slack(Step(cfg, d, t)) >= 0
  {
    if t.op.OpCompact? {
      StepOfCompact(cfg, d, t);
      CompactSlack(cfg, d, t.now);
    } else if t.op.OpRelieve? {
      StepOfRelieve(cfg, d, t);
      RelieveSlack(cfg, d, t.now);
    } else {
      StepSlack(cfg, d, t);
    }
  }

  lemma {:induction false} RunKeepsSlack(cfg: Config, d: Disk, ts: seq<Timed>)
    requires Lawful(cfg.codec) && Inv(d) && Slack(d) >= 0
    ensures Slack(RunAll(cfg, d, ts)) >= 0
    decreases |ts|
  {
    if ts != [] {
      RunKeepsSlack(cfg, d, ts[..|ts| - 1]);
      RunKeepsInv(cfg, d, ts[..|ts| - 1]);
      StepKeepsSlack(cfg, RunAll(cfg, d, ts[..|ts| - 1]), ts[|ts| - 1]);
    }
  }

  /** Over every run from an empty store the orphaned bytes, the total minus the live ones, are never negative. */
  lemma OrphansNeverNegative(cfg: Config, ts: seq<Timed>)
    requires Lawful(cfg.codec)
    ensures var d := RunAll(cfg, EmptyDisk(), ts);
      LiveBlobBytes(d.recs) <= TotalRefs(d.recs) <= TotalBytes(d)
  {
    assert Slack(EmptyDisk()) == 0;
    RunKeepsSlack(cfg, EmptyDisk(), ts);
    LiveWithinRefs(RunAll(cfg, EmptyDisk(), ts).recs);
  }
}

/** What every operation keeps: blob refs inside existing files, and a log that only grows or is patched in place
    unless it is rewritten. */
module EngineInv {
  import opened Text
  import opened Wrappers
  import opened CounterCodec
  import opened CounterSteps
  import opened SecIndex
  import opened Records
  import opened MainLog
  import opened LogIndex
  import opened Engine

  /** Every file of `before` is still there and has only grown. */
  ghost predicate BlobsGrow(before: Blobs, after: Blobs) {
    forall g :: g in before ==> g in after && before[g] <= after[g]
  }

  lemma RecordsOkGrow(before: Blobs, after: Blobs, recs: seq<Record>)
    requires RecordsOk(before, recs) && BlobsGrow(before, after)
    ensures RecordsOk(after, recs)
  {
    forall i | 0 <= i < |recs|
      ensures RefInside(after, recs[i])
    {
      assert RefInside(before, recs[i]);
    }
  }

  /** Records whose refs lie inside their files never make a boot scan stop. */
  lemma OkNeverDangles(blobs: Blobs, recs: seq<Record>)
    requires RecordsOk(blobs, recs)
    ensures NoneDangling(blobs, recs)
  {
    forall i | 0 <= i < |recs|
      ensures !Dangling(blobs, recs[i])
    {
      assert RefInside(blobs, recs[i]);
    }
  }

  /** A step of the ordinary kind: records appended or patched, blobs appended. */
  ghost predicate Grows(c: Codec, d: Disk, d': Disk) {
    Inv(d') && Extends(c, d.recs, d'.recs) && BlobsGrow(d.blobs, d'.blobs) && d'.curGen == d.curGen
  }

  lemma GrowsReflexive(c: Codec, d: Disk)
    requires Inv(d)
    ensures Grows(c, d, d)
  {
  }

  lemma GrowsTransitive(c: Codec, x: Disk, y: Disk, z: Disk)
    requires Grows(c, x, y) && Grows(c, y, z)
    ensures Grows(c, x, z)
  {
    forall g | g in x.blobs
      ensures g in z.blobs && x.blobs[g] <= z.blobs[g]
    {
      assert x.blobs[g] <= y.blobs[g] <= z.blobs[g];
    }
  }

  lemma RecordsOkSnoc(blobs: Blobs, recs: seq<Record>, r: Record)
    requires RecordsOk(blobs, recs) && RefInside(blobs, r)
    ensures RecordsOk(blobs, recs + [r])
  {
  }

  lemma AppendGrows(cfg: Config, d: Disk, key: string, value: string, ix: IX, exp: int, counter: bool)
    requires Inv(d)
    ensures Grows(cfg.codec, d, Append(cfg, d, key, value, ix, exp, counter))
  {
    var d' := Append(cfg, d, key, value, ix, exp, counter);
    RecordsOkGrow(d.blobs, d'.blobs, d.recs);
    RecordsOkSnoc(d'.blobs, d.recs, NewRecord(cfg, d, key, value, ix, exp, counter));
  }

  lemma DeleteGrows(c: Codec, d: Disk, key: string)
    requires Inv(d)
    ensures Grows(c, d, Delete(d, key))
  {
    RecordsOkSnoc(d.blobs, d.recs, Tombstone(key));
  }

  lemma {:induction false} DeleteAllGrows(c: Codec, d: Disk, keys: seq<string>)
    requires Inv(d)
    ensures Grows(c, d, DeleteAll(d, keys))
    decreases |keys|
  {
    if keys != [] {
      var d' := DeleteAll(d, keys[..|keys| - 1]);
      DeleteAllGrows(c, d, keys[..|keys| - 1]);
      DeleteGrows(c, d', keys[|keys| - 1]);
      GrowsTransitive(c, d, d', DeleteAll(d, keys));
    }
  }

  lemma {:induction false} EnforceGrows(cfg: Config, d: Disk, ix: IX, order: seq<string>)
    requires Inv(d)
    ensures Grows(cfg.codec, d, Enforce(cfg, d, ix, order))
    decreases |order|
  {
    if order != [] {
      if order[0] in ix {
        var d' := EnforceOne(cfg, d, order[0], ix[order[0]]);
        EnforceOneGrows(cfg, d, order[0], ix[order[0]]);
        EnforceGrows(cfg, d', ix, order[1..]);
        GrowsTransitive(cfg.codec, d, d', Enforce(cfg, d', ix, order[1..]));
      } else {
        EnforceGrows(cfg, d, ix, order[1..]);
      }
    }
  }

  lemma EnforceOneGrows(cfg: Config, d: Disk, name: string, v: Value)
    requires Inv(d)
    ensures Grows(cfg.codec, d, EnforceOne(cfg, d, name, v))
  {
    if Capped(cfg, name, v) {
      DeleteAllGrows(cfg.codec, d, Victims(Group(d, name, v), cfg.defs[name].max));
    }
  }

  lemma {:induction false} EnforceSeenGrows(cfg: Config, d: Disk, ts: seq<Touch>, seen: set<string>)
    requires Inv(d)
    ensures Grows(cfg.codec, d, EnforceSeen(cfg, d, ts, seen))
    decreases |ts|
  {
    if ts != [] {
      if SeenKey(cfg, ts[0]) in seen {
        EnforceSeenGrows(cfg, d, ts[1..], seen);
      } else {
        var d' := EnforceOne(cfg, d, ts[0].name, ts[0].val);
        var seen' := seen + {SeenKey(cfg, ts[0])};
        EnforceOneGrows(cfg, d, ts[0].name, ts[0].val);
        EnforceSeenGrows(cfg, d', ts[1..], seen');
        GrowsTransitive(cfg.codec, d, d', EnforceSeen(cfg, d', ts[1..], seen'));
      }
    }
  }

  lemma {:induction false} AppendItemsGrows(cfg: Config, d: Disk, items: seq<Item>)
    requires Inv(d)
    ensures Grows(cfg.codec, d, AppendItems(cfg, d, items))
    decreases |items|
  {
    if items != [] {
      var init, it := items[..|items| - 1], items[|items| - 1];
      var d' := AppendItems(cfg, d, init);
      AppendItemsGrows(cfg, d, init);
      AppendGrows(cfg, d', it.key, it.value, ItemIX(cfg, it), ItemExp(it), false);
      GrowsTransitive(cfg.codec, d, d', AppendItems(cfg, d, items));
    }
  }

  lemma {:induction false} ReapGrows(cfg: Config, d: Disk, reqs: seq<ReapReq>, now: int)
    requires Inv(d)
    ensures Grows(cfg.codec, d, Reap(cfg, d, reqs, now))
    decreases |reqs|
  {
    if reqs != [] {
      var d' := if Reapable(cfg, d, reqs[0], now) then Delete(d, reqs[0].key) else d;
      DeleteGrows(cfg.codec, d, reqs[0].key);
      ReapGrows(cfg, d', reqs[1..], now);
      GrowsTransitive(cfg.codec, d, d', Reap(cfg, d', reqs[1..], now));
    }
  }

  /** Patching a counter keeps its place, its length and everything replay reads from it. */
  lemma PatchGrows(c: Codec, d: Disk, key: string, v: int64)
    requires Lawful(c) && Inv(d)
    requires LastIndex(d.recs, key) >= 0 && Patchable(d.recs[LastIndex(d.recs, key)])
    ensures Grows(c, d, Patch(d, key, v))
    ensures var i := LastIndex(d.recs, key);
      Patch(d, key, v).recs[i] == CounterRecord(key, Format(v), d.recs[i].exp)
      && SameShape(c, d.recs[i], Patch(d, key, v).recs[i])
  {
    var i := LastIndex(d.recs, key);
    var r := d.recs[i];
    SameWidth(c, key, r.value, Format(v), r.exp);
    var r' := Patch(d, key, v).recs[i];
    assert r' == CounterRecord(key, Format(v), r.exp);
  }

  /** Counter lines of one key and expiry all have the same length. */
  lemma SameWidth(c: Codec, key: string, a: string, b: string, exp: int)
    requires Lawful(c) && CounterText(a) && CounterText(b)
    ensures |c.enc(CounterRecord(key, a, exp))| == |c.enc(CounterRecord(key, b, exp))|
  {
    assert |CounterLine(c, key, a, exp)| == |CounterLine(c, key, b, exp)|;
  }

  lemma CountFreshGrows(cfg: Config, d: Disk, key: string, createExp: int, op: CounterOp)
    requires Inv(d) && !NegativeAmount(op)
    ensures Grows(cfg.codec, d, CountFresh(cfg, d, key, createExp, op).disk)
  {
    var s := StepOf(op, 0);
    if s.Move? {
      AppendGrows(cfg, d, key, Format(s.next), map[], createExp, true);
    }
  }

  lemma CountGrows(cfg: Config, d: Disk, key: string, now: int, createExp: int, op: CounterOp)
    requires Lawful(cfg.codec) && Inv(d)
    ensures Grows(cfg.codec, d, Count(cfg, d, key, now, createExp, op).disk)
  {
    var m := Contents(d.recs);
    if !NegativeAmount(op) {
      if key !in m {
        CountFreshGrows(cfg, d, key, createExp, op);
      } else if ExpiredAt(m[key].exp, now) {
        DeleteGrows(cfg.codec, d, key);
        CountFreshGrows(cfg, Delete(d, key), key, createExp, op);
        GrowsTransitive(cfg.codec, d, Delete(d, key), Count(cfg, d, key, now, createExp, op).disk);
      } else {
        ReplayMirrors(cfg.codec, d.recs, key);
        var r := m[key];
        CountLiveGrows(cfg, d, r, op);
      }
    }
  }

  lemma CountLiveGrows(cfg: Config, d: Disk, r: Record, op: CounterOp)
    requires Lawful(cfg.codec) && Inv(d) && !NegativeAmount(op)
    requires LastIndex(d.recs, r.key) >= 0 && d.recs[LastIndex(d.recs, r.key)] == r && !r.deleted
    ensures Grows(cfg.codec, d, CountLive(cfg, d, r, op).disk)
  {
    if r.counter && r.blob.None? && Parse(r.value).Some? {
      var s := StepOf(op, Parse(r.value).value);
      if s.Move? {
        if r.ix == map[] {
          PatchGrows(cfg.codec, d, r.key, s.next);
        } else {
          AppendGrows(cfg, d, r.key, Format(s.next), map[], r.exp, true);
        }
      }
    }
  }

  /** Every operation but a rewrite keeps the invariant and only extends the log. */
  lemma StepGrows(cfg: Config, d: Disk, t: Timed)
    requires Lawful(cfg.codec) && Inv(d) && !Rewrites(t.op)
    ensures Grows(cfg.codec, d, Step(cfg, d, t))
  {
    match t.op
    case OpPut(key, value, explicit, exp, order) =>
      if Accepted(cfg, d, key, value, explicit) {
        var ix := BuildIX(cfg, key, value, explicit).value;
        var d' := Append(cfg, d, key, value, ix, exp, false);
        AppendGrows(cfg, d, key, value, ix, exp, false);
        EnforceGrows(cfg, d', ix, order);
        GrowsTransitive(cfg.codec, d, d', Enforce(cfg, d', ix, order));
      }
    case OpBatch(items) =>
      if BatchAccepted(cfg, d, items) {
        var d' := AppendItems(cfg, d, items);
        AppendItemsGrows(cfg, d, items);
        EnforceSeenGrows(cfg, d', Touches(cfg, items), {});
        GrowsTransitive(cfg.codec, d, d', EnforceSeen(cfg, d', Touches(cfg, items), {}));
      }
    case OpDelete(key) => DeleteGrows(cfg.codec, d, key);
    case OpRemoveLess(cutoff) =>
      DeleteAllGrows(cfg.codec, d, Below(Contents(d.recs).Keys, cutoff));
    case OpRemoveGreater(cutoff) =>
      DeleteAllGrows(cfg.codec, d, Beyond(Contents(d.recs).Keys, cutoff));
    case OpCount(key, createExp, cop) => CountGrows(cfg, d, key, t.now, createExp, cop);
    case OpReap(reqs) => ReapGrows(cfg, d, reqs, t.now);
  }

  // ---- rewrites ----

  /** Rewritten records keep the invariant: against the old files for a compaction, and for a relieve
      against the new generation alone, which the live blobs fill from end to end. */
  lemma {:induction false} RewriteOk(cfg: Config, d: Disk, relieve: bool, ks: seq<string>, now: int)
    requires Inv(d)
    ensures var rw := Rewrite(cfg, d, relieve, ks, now);
      && RecordsOk(if relieve then map[d.curGen + 1 := rw.blob] else d.blobs, rw.recs)
      && (relieve ==> |rw.blob| == TotalRefs(rw.recs))
    decreases |ks|
  {
    if ks != [] {
      var m, k, init := Contents(d.recs), ks[|ks| - 1], ks[..|ks| - 1];
      RewriteOk(cfg, d, relieve, init, now);
      if k in m && !ExpiredAt(m[k].exp, now) {
        ContentsAreRecords(d.recs, k);
        var before := Rewrite(cfg, d, relieve, init, now);
        TransformOk(cfg, d, relieve, m[k], before);
      }
    }
  }

  /** The blob bytes the records refer to. */
  ghost function TotalRefs(recs: seq<Record>): nat {
    if recs == [] then 0
    else
      var r := recs[|recs| - 1];
      TotalRefs(recs[..|recs| - 1]) + if r.blob.Some? then r.blob.value.size else 0
  }

  lemma TransformOk(cfg: Config, d: Disk, relieve: bool, r: Record, before: Rewritten)
    requires Inv(d) && r in d.recs
    requires RecordsOk(if relieve then map[d.curGen + 1 := before.blob] else d.blobs, before.recs)
    requires relieve ==> |before.blob| == TotalRefs(before.recs)
    ensures var one := Transform(cfg, d, relieve, r, before.blob);
      && RecordsOk(if relieve then map[d.curGen + 1 := one.blob] else d.blobs, before.recs + one.recs)
      && (relieve ==> |one.blob| == TotalRefs(before.recs + one.recs))
  {
    var one := Transform(cfg, d, relieve, r, before.blob);
    var i :| 0 <= i < |d.recs| && d.recs[i] == r;
    assert RefInside(d.blobs, r);
    var r' := one.recs[0];
    var blobs := if relieve then map[d.curGen + 1 := before.blob] else d.blobs;
    var blobs' := if relieve then map[d.curGen + 1 := one.blob] else d.blobs;
    RecordsOkGrow(blobs, blobs', before.recs);
    RecordsOkSnoc(blobs', before.recs, r');
    assert (before.recs + [r'])[..|before.recs|] == before.recs;
  }

  lemma CompactKeepsInv(cfg: Config, d: Disk, now: int)
    requires Inv(d)
    ensures Inv(Compact(cfg, d, now))
  {
    RewriteOk(cfg, d, false, LiveKeys(d), now);
  }

  /** The disk a relieve leaves, from its rewrite. */
  lemma RelieveDisk(cfg: Config, d: Disk, now: int, rw: Rewritten)
    requires Inv(d) && rw == Rewrite(cfg, d, true, LiveKeys(d), now)
    ensures var d' := Disk(rw.recs, map[d.curGen + 1 := rw.blob], d.curGen + 1);
      d' == Relieve(cfg, d, now) && Inv(d') && |rw.blob| == TotalRefs(rw.recs)
  {
    RewriteOk(cfg, d, true, LiveKeys(d), now);
  }

  /** A relieve leaves one generation, with every byte of it referenced. */
  lemma RelieveKeepsInv(cfg: Config, d: Disk, now: int)
    requires Inv(d)
    ensures Inv(Relieve(cfg, d, now))
    ensures Relieve(cfg, d, now).blobs.Keys == {d.curGen + 1}
    ensures |Relieve(cfg, d, now).blobs[d.curGen + 1]| == TotalRefs(Relieve(cfg, d, now).recs)
  {
    RelieveDisk(cfg, d, now, Rewrite(cfg, d, true, LiveKeys(d), now));
  }

  /** Every operation keeps the invariant. */
  lemma StepKeepsInv(cfg: Config, d: Disk, t: Timed)
    requires Lawful(cfg.codec) && Inv(d)
    ensures Inv(Step(cfg, d, t))
  {
    if t.op.OpCompact? {
      StepOfCompact(cfg, d, t);
      CompactKeepsInv(cfg, d, t.now);
    } else if t.op.OpRelieve? {
      StepOfRelieve(cfg, d, t);
      RelieveKeepsInv(cfg, d, t.now);
    } else {
      StepGrows(cfg, d, t);
    }
  }

  /** Every run of every operation keeps the invariant. */
  lemma {:induction false} RunKeepsInv(cfg: Config, d: Disk, ts: seq<Timed>)
    requires Lawful(cfg.codec) && Inv(d)
    ensures Inv(RunAll(cfg, d, ts))
    decreases |ts|
  {
    if ts != [] {
      RunKeepsInv(cfg, d, ts[..|ts| - 1]);
      StepKeepsInv(cfg, RunAll(cfg, d, ts[..|ts| - 1]), ts[|ts| - 1]);
    }
  }

  /** In a run without rewrites the log at the end extends the log at the start. */
  lemma {:induction false} RunExtends(cfg: Config, d: Disk, ts: seq<Timed>)
    requires Lawful(cfg.codec) && Inv(d)
    requires forall i :: 0 <= i < |ts| ==> !Rewrites(ts[i].op)
    ensures Grows(cfg.codec, d, RunAll(cfg, d, ts))
    decreases |ts|
  {
    if ts != [] {
      var init := ts[..|ts| - 1];
      RunExtends(cfg, d, init);
      StepGrows(cfg, RunAll(cfg, d, init), ts[|ts| - 1]);
      GrowsTransitive(cfg.codec, d, RunAll(cfg, d, init), RunAll(cfg, d, ts));
    }
  }
}

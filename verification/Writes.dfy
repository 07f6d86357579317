/** Operations as sequences of single file writes, and crashes between them. */
module Writes {
  import opened Text
  import opened Wrappers
  import opened CounterCodec
  import opened CounterSteps
  import opened SecIndex
  import opened Records
  import opened MainLog
  import opened LogIndex
  import opened Hints
  import opened Engine
  import opened EngineInv
  import opened EngineView
  import opened Caps

  /** One write to one file: bytes appended to the current blob file, a line appended to the log, or a record of
      the log overwritten in place. */
  datatype Write = BlobWrite(bytes: string) | LineWrite(rec: Record) | PatchWrite(at: nat, rec: Record)

  /** A line may only refer to bytes already written, and a patch must keep the shape of what it overwrites. */
  ghost predicate Sound(c: Codec, d: Disk, w: Write) {
    match w
    case BlobWrite(_) => d.curGen in d.blobs
    case LineWrite(r) => RefInside(d.blobs, r)
    case PatchWrite(i, r) => i < |d.recs| && SameShape(c, d.recs[i], r) && RefInside(d.blobs, r)
  }

  function AfterWrite(d: Disk, w: Write): Disk {
    match w
    case BlobWrite(bytes) =>
      d.(blobs := d.blobs[d.curGen := (if d.curGen in d.blobs then d.blobs[d.curGen] else "") + bytes])
    case LineWrite(r) => d.(recs := d.recs + [r])
    case PatchWrite(i, r) => if i < |d.recs| then d.(recs := d.recs[i := r]) else d
  }

  function AllWritten(d: Disk, ws: seq<Write>): Disk {
    if ws == [] then d else AfterWrite(AllWritten(d, ws[..|ws| - 1]), ws[|ws| - 1])
  }

  /** Each write is sound where it is made, and together they turn `d` into `d'`. */
  ghost predicate Performs(c: Codec, d: Disk, ws: seq<Write>, d': Disk) {
    && AllWritten(d, ws) == d'
    && forall i :: 0 <= i < |ws| ==> Sound(c, AllWritten(d, ws[..i]), ws[i])
  }

  lemma WriteGrows(c: Codec, d: Disk, w: Write)
    requires Inv(d) && Sound(c, d, w)
    ensures Grows(c, d, AfterWrite(d, w))
  {
    RecordsOkGrow(d.blobs, AfterWrite(d, w).blobs, d.recs);
  }

  /** Whatever point a sequence of sound writes has reached, the store keeps its invariant and has only grown. */
  lemma {:induction false} EveryPointGrows(c: Codec, d: Disk, ws: seq<Write>, d': Disk, n: nat)
    requires Inv(d) && Performs(c, d, ws, d') && n <= |ws|
    ensures Grows(c, d, AllWritten(d, ws[..n]))
    decreases n
  {
    if n == 0 {
      GrowsReflexive(c, d);
    } else {
      EveryPointGrows(c, d, ws, d', n - 1);
      var mid := AllWritten(d, ws[..n - 1]);
      assert ws[..n][..n - 1] == ws[..n - 1];
      WriteGrows(c, mid, ws[n - 1]);
      GrowsTransitive(c, d, mid, AllWritten(d, ws[..n]));
    }
  }

  // ---- composing writes ----

  lemma {:induction false} AllWrittenConcat(d: Disk, a: seq<Write>, b: seq<Write>)
    ensures AllWritten(d, a + b) == AllWritten(AllWritten(d, a), b)
    decreases |b|
  {
    if b == [] {
      assert a + b == a;
    } else {
      AllWrittenConcat(d, a, b[..|b| - 1]);
      assert (a + b)[..|a + b| - 1] == a + b[..|b| - 1];
    }
  }

  lemma PerformsConcat(c: Codec, x: Disk, a: seq<Write>, y: Disk, b: seq<Write>, z: Disk)
    requires Performs(c, x, a, y) && Performs(c, y, b, z)
    ensures Performs(c, x, a + b, z)
  {
    AllWrittenConcat(x, a, b);
    forall i | 0 <= i < |a + b|
      ensures Sound(c, AllWritten(x, (a + b)[..i]), (a + b)[i])
    {
      if i < |a| {
        assert (a + b)[..i] == a[..i];
      } else {
        assert (a + b)[..i] == a + b[..i - |a|];
        AllWrittenConcat(x, a, b[..i - |a|]);
      }
    }
  }

  lemma PerformsOne(c: Codec, d: Disk, w: Write)
    requires Sound(c, d, w)
    ensures Performs(c, d, [w], AfterWrite(d, w))
  {
    assert [w][..0] == [];
  }

  // ---- every operation ----

  lemma AppendPerforms(cfg: Config, d: Disk, key: string, value: string, ix: IX, exp: int, counter: bool)
    returns (ws: seq<Write>)
    requires Inv(d)
    ensures Performs(cfg.codec, d, ws, Append(cfg, d, key, value, ix, exp, counter))
  {
    var r := NewRecord(cfg, d, key, value, ix, exp, counter);
    if !counter && UseBlob(cfg, |value|) {
      var d1 := AfterWrite(d, BlobWrite(value));
      PerformsOne(cfg.codec, d, BlobWrite(value));
      PerformsOne(cfg.codec, d1, LineWrite(r));
      PerformsConcat(cfg.codec, d, [BlobWrite(value)], d1, [LineWrite(r)], AfterWrite(d1, LineWrite(r)));
      ws := [BlobWrite(value)] + [LineWrite(r)];
    } else {
      PerformsOne(cfg.codec, d, LineWrite(r));
      ws := [LineWrite(r)];
    }
  }

  lemma {:induction false} DeleteAllPerforms(c: Codec, d: Disk, keys: seq<string>) returns (ws: seq<Write>)
    ensures Performs(c, d, ws, DeleteAll(d, keys))
    decreases |keys|
  {
    ws := [];
    if keys != [] {
      var d1, w := DeleteAll(d, keys[..|keys| - 1]), LineWrite(Tombstone(keys[|keys| - 1]));
      var ws1 := DeleteAllPerforms(c, d, keys[..|keys| - 1]);
      PerformsOne(c, d1, w);
      PerformsConcat(c, d, ws1, d1, [w], AfterWrite(d1, w));
      ws := ws1 + [w];
    }
  }

  lemma EnforceOnePerforms(cfg: Config, d: Disk, name: string, v: Value) returns (ws: seq<Write>)
    ensures Performs(cfg.codec, d, ws, EnforceOne(cfg, d, name, v))
  {
    ws := [];
    if Capped(cfg, name, v) {
      ws := DeleteAllPerforms(cfg.codec, d, Victims(Group(d, name, v), cfg.defs[name].max));
    }
  }

  lemma {:induction false} EnforcePerforms(cfg: Config, d: Disk, ix: IX, order: seq<string>) returns (ws: seq<Write>)
    ensures Performs(cfg.codec, d, ws, Enforce(cfg, d, ix, order))
    decreases |order|
  {
    ws := [];
    if order != [] {
      if order[0] in ix {
        var d1 := EnforceOne(cfg, d, order[0], ix[order[0]]);
        var ws1 := EnforceOnePerforms(cfg, d, order[0], ix[order[0]]);
        var ws2 := EnforcePerforms(cfg, d1, ix, order[1..]);
        PerformsConcat(cfg.codec, d, ws1, d1, ws2, Enforce(cfg, d1, ix, order[1..]));
        ws := ws1 + ws2;
      } else {
        ws := EnforcePerforms(cfg, d, ix, order[1..]);
      }
    }
  }

  lemma {:induction false} EnforceSeenPerforms(cfg: Config, d: Disk, ts: seq<Touch>, seen: set<string>)
    returns (ws: seq<Write>)
    ensures Performs(cfg.codec, d, ws, EnforceSeen(cfg, d, ts, seen))
    decreases |ts|
  {
    ws := [];
    if ts != [] {
      if SeenKey(cfg, ts[0]) in seen {
        ws := EnforceSeenPerforms(cfg, d, ts[1..], seen);
      } else {
        var d1, seen1 := EnforceOne(cfg, d, ts[0].name, ts[0].val), seen + {SeenKey(cfg, ts[0])};
        var ws1 := EnforceOnePerforms(cfg, d, ts[0].name, ts[0].val);
        var ws2 := EnforceSeenPerforms(cfg, d1, ts[1..], seen1);
        PerformsConcat(cfg.codec, d, ws1, d1, ws2, EnforceSeen(cfg, d1, ts[1..], seen1));
        ws := ws1 + ws2;
      }
    }
  }

  lemma {:induction false} AppendItemsPerforms(cfg: Config, d: Disk, items: seq<Item>) returns (ws: seq<Write>)
    requires Inv(d)
    ensures Performs(cfg.codec, d, ws, AppendItems(cfg, d, items))
    decreases |items|
  {
    ws := [];
    if items != [] {
      var init, it := items[..|items| - 1], items[|items| - 1];
      var d1 := AppendItems(cfg, d, init);
      var ws1 := AppendItemsPerforms(cfg, d, init);
      AppendItemsGrows(cfg, d, init);
      var ws2 := AppendPerforms(cfg, d1, it.key, it.value, ItemIX(cfg, it), ItemExp(it), false);
      PerformsConcat(cfg.codec, d, ws1, d1, ws2, AppendItems(cfg, d, items));
      ws := ws1 + ws2;
    }
  }

  /** A put, and the point between its append and its evictions. */
  lemma PutPerforms(cfg: Config, d: Disk, key: string, value: string, explicit: IX, exp: int, order: seq<string>)
    returns (ws: seq<Write>, appended: nat)
    requires Inv(d)
    ensures Performs(cfg.codec, d, ws, Put(cfg, d, key, value, explicit, exp, order)) && appended <= |ws|
    ensures Accepted(cfg, d, key, value, explicit) ==>
      AllWritten(d, ws[..appended]) == Append(cfg, d, key, value, BuildIX(cfg, key, value, explicit).value, exp, false)
  {
    ws, appended := [], 0;
    if Accepted(cfg, d, key, value, explicit) {
      var ix := BuildIX(cfg, key, value, explicit).value;
      var d1 := Append(cfg, d, key, value, ix, exp, false);
      var ws1 := AppendPerforms(cfg, d, key, value, ix, exp, false);
      var ws2 := EnforcePerforms(cfg, d1, ix, order);
      PerformsConcat(cfg.codec, d, ws1, d1, ws2, Enforce(cfg, d1, ix, order));
      ws, appended := ws1 + ws2, |ws1|;
      assert ws[..appended] == ws1;
    }
  }

  lemma BatchPerforms(cfg: Config, d: Disk, items: seq<Item>) returns (ws: seq<Write>)
    requires Inv(d)
    ensures Performs(cfg.codec, d, ws, PutBatch(cfg, d, items))
  {
    ws := [];
    if BatchAccepted(cfg, d, items) {
      var d1, ts := AppendItems(cfg, d, items), Touches(cfg, items);
      var ws1 := AppendItemsPerforms(cfg, d, items);
      var ws2 := EnforceSeenPerforms(cfg, d1, ts, {});
      PerformsConcat(cfg.codec, d, ws1, d1, ws2, EnforceSeen(cfg, d1, ts, {}));
      ws := ws1 + ws2;
    }
  }

  lemma {:induction false} ReapPerforms(cfg: Config, d: Disk, reqs: seq<ReapReq>, now: int) returns (ws: seq<Write>)
    ensures Performs(cfg.codec, d, ws, Reap(cfg, d, reqs, now))
    decreases |reqs|
  {
    ws := [];
    if reqs != [] {
      if Reapable(cfg, d, reqs[0], now) {
        var w := LineWrite(Tombstone(reqs[0].key));
        PerformsOne(cfg.codec, d, w);
        var ws2 := ReapPerforms(cfg, AfterWrite(d, w), reqs[1..], now);
        PerformsConcat(cfg.codec, d, [w], AfterWrite(d, w), ws2, Reap(cfg, d, reqs, now));
        ws := [w] + ws2;
      } else {
        ws := ReapPerforms(cfg, d, reqs[1..], now);
      }
    }
  }

  lemma CountFreshPerforms(cfg: Config, d: Disk, key: string, createExp: int, op: CounterOp) returns (ws: seq<Write>)
    requires Inv(d) && !NegativeAmount(op)
    ensures Performs(cfg.codec, d, ws, CountFresh(cfg, d, key, createExp, op).disk)
  {
    ws := [];
    var s := StepOf(op, 0);
    if s.Move? {
      ws := AppendPerforms(cfg, d, key, Format(s.next), map[], createExp, true);
    }
  }

  lemma CountLivePerforms(cfg: Config, d: Disk, r: Record, op: CounterOp) returns (ws: seq<Write>)
    requires Lawful(cfg.codec) && Inv(d) && !NegativeAmount(op)
    requires LastIndex(d.recs, r.key) >= 0 && d.recs[LastIndex(d.recs, r.key)] == r && !r.deleted
    ensures Performs(cfg.codec, d, ws, CountLive(cfg, d, r, op).disk)
  {
    ws := [];
    if r.counter && r.blob.None? && Parse(r.value).Some? {
      var s := StepOf(op, Parse(r.value).value);
      if s.Move? {
        if r.ix == map[] {
          var i := LastIndex(d.recs, r.key);
          PatchGrows(cfg.codec, d, r.key, s.next);
          var w := PatchWrite(i, Patch(d, r.key, s.next).recs[i]);
          PerformsOne(cfg.codec, d, w);
          ws := [w];
        } else {
          ws := AppendPerforms(cfg, d, r.key, Format(s.next), map[], r.exp, true);
        }
      }
    }
  }

  lemma CountPerforms(cfg: Config, d: Disk, key: string, now: int, createExp: int, op: CounterOp)
    returns (ws: seq<Write>)
    requires Lawful(cfg.codec) && Inv(d)
    ensures Performs(cfg.codec, d, ws, Count(cfg, d, key, now, createExp, op).disk)
  {
    ws := [];
    var m := Contents(d.recs);
    if !NegativeAmount(op) {
      if key !in m {
        ws := CountFreshPerforms(cfg, d, key, createExp, op);
      } else if ExpiredAt(m[key].exp, now) {
        var w := LineWrite(Tombstone(key));
        PerformsOne(cfg.codec, d, w);
        DeleteGrows(cfg.codec, d, key);
        var ws2 := CountFreshPerforms(cfg, Delete(d, key), key, createExp, op);
        PerformsConcat(cfg.codec, d, [w], AfterWrite(d, w), ws2, Count(cfg, d, key, now, createExp, op).disk);
        ws := [w] + ws2;
      } else {
        ReplayMirrors(cfg.codec, d.recs, key);
        ws := CountLivePerforms(cfg, d, m[key], op);
      }
    }
  }

  /** Every operation but a rewrite is a sequence of sound single writes. */
  lemma StepPerforms(cfg: Config, d: Disk, t: Timed) returns (ws: seq<Write>)
    requires Lawful(cfg.codec) && Inv(d) && !Rewrites(t.op)
    ensures Performs(cfg.codec, d, ws, Step(cfg, d, t))
  {
    match t.op
    case OpPut(key, value, explicit, exp, order) =>
      var puts, _ := PutPerforms(cfg, d, key, value, explicit, exp, order);
      ws := puts;
    case OpBatch(items) => ws := BatchPerforms(cfg, d, items);
    case OpDelete(key) =>
      ws := [];
      if key in Contents(d.recs) {
        PerformsOne(cfg.codec, d, LineWrite(Tombstone(key)));
        ws := [LineWrite(Tombstone(key))];
      }
    case OpRemoveLess(cutoff) => ws := DeleteAllPerforms(cfg.codec, d, Below(Contents(d.recs).Keys, cutoff));
    case OpRemoveGreater(cutoff) => ws := DeleteAllPerforms(cfg.codec, d, Beyond(Contents(d.recs).Keys, cutoff));
    case OpCount(key, createExp, cop) => ws := CountPerforms(cfg, d, key, t.now, createExp, cop);
    case OpReap(reqs) => ws := ReapPerforms(cfg, d, reqs, t.now);
  }

  /** A crash after any number of an operation's writes, or inside the next line, boots to exactly the lines
      written so far, from any hint that was good before the operation. */
  lemma CrashInsideBoots(cfg: Config, d: Disk, t: Timed, hint: Option<Hint>, torn: string)
    returns (ws: seq<Write>)
    requires Lawful(cfg.codec) && Inv(d) && !Rewrites(t.op) && TornTail(torn)
    requires hint.Some? ==> Describes(cfg.codec, hint.value, d.recs)
    ensures Performs(cfg.codec, d, ws, Step(cfg, d, t))
    ensures forall n :: 0 <= n <= |ws| ==>
      var mid := AllWritten(d, ws[..n]);
      var log := Render(cfg.codec, mid.recs);
      && Inv(mid)
      && Boot(cfg.codec, mid.blobs, hint, log + torn) == Booted(Replay(cfg.codec, mid.recs), |log|)
  {
    ws := StepPerforms(cfg, d, t);
    forall n | 0 <= n <= |ws|
      ensures var mid := AllWritten(d, ws[..n]);
        var log := Render(cfg.codec, mid.recs);
        && Inv(mid)
        && Boot(cfg.codec, mid.blobs, hint, log + torn) == Booted(Replay(cfg.codec, mid.recs), |log|)
    {
      EveryPointGrows(cfg.codec, d, ws, Step(cfg, d, t), n);
      GrownBoots(cfg.codec, d, AllWritten(d, ws[..n]), hint, torn);
    }
  }

  lemma GrownBoots(c: Codec, d: Disk, d': Disk, hint: Option<Hint>, torn: string)
    requires Lawful(c) && Grows(c, d, d') && TornTail(torn)
    requires hint.Some? ==> Describes(c, hint.value, d.recs)
    ensures Boot(c, d'.blobs, hint, Render(c, d'.recs) + torn) == Booted(Replay(c, d'.recs), |Render(c, d'.recs)|)
  {
    if hint.Some? {
      DescribesSurvives(c, hint.value, d.recs, d'.recs);
    }
    OkNeverDangles(d'.blobs, d'.recs);
    TornTailStops(c, d'.blobs, torn);
    BootIsReplay(c, d'.blobs, hint, d'.recs, torn);
  }

  // ---- what an interrupted operation leaves ----

  /** A write to `d` that was cut short: some of the blob's bytes, or a patch that left a mixture of the old and the
      new digits.  A line cut short is a torn tail of the log instead. */
  ghost predicate CutShort(d: Disk, w: Write, cut: Write) {
    match w
    case BlobWrite(bytes) => cut.BlobWrite? && cut.bytes <= bytes
    case LineWrite(_) => false
    case PatchWrite(i, r) =>
      && cut.PatchWrite? && cut.at == i && i < |d.recs| && cut.rec == r.(value := cut.rec.value)
      && Mixture(cut.rec.value, d.recs[i].value, r.value)
  }

  /** A store with a half-written blob generation above its own. */
  function WithStray(d: Disk, partial: string): Disk {
    Disk(d.recs, d.blobs[d.curGen + 1 := partial], d.curGen + 1)
  }

  /** `d'` is what a killed operation left of `d`: a rewrite stopped before its rename has changed nothing, but a
      relieve may leave a stray generation; any other operation stops after some of its writes, perhaps inside one. */
  ghost predicate Interrupted(cfg: Config, d: Disk, t: Timed, d': Disk) {
    if Rewrites(t.op) then d' == d || (t.op.OpRelieve? && exists partial :: d' == WithStray(d, partial))
    else exists ws: seq<Write>, n: nat :: InterruptedAt(cfg, d, t, d', ws, n)
  }

  ghost predicate InterruptedAt(cfg: Config, d: Disk, t: Timed, d': Disk, ws: seq<Write>, n: nat) {
    && n <= |ws| && Performs(cfg.codec, d, ws, Step(cfg, d, t))
    && var mid := AllWritten(d, ws[..n]);
       || d' == mid
       || exists cut ::
            n < |ws| && CutShort(mid, ws[n], cut) && Sound(cfg.codec, mid, cut) && d' == AfterWrite(mid, cut)
  }

  /** Whatever is left keeps the invariant, extends or patches the log and loses no blob byte. */
  lemma InterruptedKeeps(cfg: Config, d: Disk, t: Timed, d': Disk)
    requires Inv(d) && Interrupted(cfg, d, t, d')
    ensures Inv(d') && Extends(cfg.codec, d.recs, d'.recs) && BlobsGrow(d.blobs, d'.blobs)
  {
    if Rewrites(t.op) {
      if d' != d {
        RecordsOkGrow(d.blobs, d'.blobs, d.recs);
      }
    } else {
      var ws: seq<Write>, n: nat :| InterruptedAt(cfg, d, t, d', ws, n);
      var mid := AllWritten(d, ws[..n]);
      EveryPointGrows(cfg.codec, d, ws, Step(cfg, d, t), n);
      if d' != mid {
        var cut :| n < |ws| && CutShort(mid, ws[n], cut) && Sound(cfg.codec, mid, cut) && d' == AfterWrite(mid, cut);
        WriteGrows(cfg.codec, mid, cut);
        GrowsTransitive(cfg.codec, d, mid, d');
      }
    }
  }

  /** Every mixture of the old and the new digits of a counter that a call moves is such a state. */
  lemma TornPatchInterrupts(cfg: Config, d: Disk, key: string, now: int, createExp: int, op: CounterOp, mixed: string)
    requires Lawful(cfg.codec) && Inv(d) && !NegativeAmount(op) && key in Contents(d.recs)
    requires var r := Contents(d.recs)[key];
      && Patchable(r) && !ExpiredAt(r.exp, now) && Parse(r.value).Some? && StepOf(op, Parse(r.value).value).Move?
      && Mixture(mixed, r.value, Format(StepOf(op, Parse(r.value).value).next))
    ensures var i := LastIndex(d.recs, key);
      && i >= 0 && CounterText(mixed)
      && Interrupted(cfg, d, Timed(now, OpCount(key, createExp, op)),
           d.(recs := d.recs[i := CounterRecord(key, mixed, d.recs[i].exp)]))
  {
    ReplayMirrors(cfg.codec, d.recs, key);
    var i, t := LastIndex(d.recs, key), Timed(now, OpCount(key, createExp, op));
    var r := d.recs[i];
    var next := StepOf(op, Parse(r.value).value).next;
    PatchGrows(cfg.codec, d, key, next);
    TornPatchIsCounterText(mixed, r.value, Format(next));
    SameWidth(cfg.codec, key, r.value, mixed, r.exp);
    var w, cut := PatchWrite(i, Patch(d, key, next).recs[i]), PatchWrite(i, CounterRecord(key, mixed, r.exp));
    PerformsOne(cfg.codec, d, w);
    assert Step(cfg, d, t) == AfterWrite(d, w);
    assert [w][..0] == [] && AllWritten(d, [w][..0]) == d;
    assert CutShort(d, w, cut) && Sound(cfg.codec, d, cut);
    assert InterruptedAt(cfg, d, t, AfterWrite(d, cut), [w], 0);
  }

  /** Every point of the writes of an operation is such a state. */
  lemma PointsAreInterrupted(cfg: Config, d: Disk, t: Timed, n: nat) returns (ws: seq<Write>)
    requires Lawful(cfg.codec) && Inv(d) && !Rewrites(t.op)
    ensures Performs(cfg.codec, d, ws, Step(cfg, d, t))
    ensures n <= |ws| ==> Interrupted(cfg, d, t, AllWritten(d, ws[..n]))
  {
    ws := StepPerforms(cfg, d, t);
    if n <= |ws| {
      assert InterruptedAt(cfg, d, t, AllWritten(d, ws[..n]), ws, n);
    }
  }

  // ---- a crash between an append and its evictions ----

  lemma HigherThanLeast(g: set<string>, p: string)
    requires IsLeast(p, g)
    ensures Higher(g, p) == g - {p} && |Higher(g, p)| == |g| - 1
  {
    LtIrreflexive(p);
  }

  /** A put of a new key into a full group passes through a point where the group is one over its cap.  A crash
      there leaves it so: the store boots, and the group's lowest key has `max` members above it. */
  lemma CrashLeavesGroupOverCap(cfg: Config, d: Disk, key: string, value: string, explicit: IX, exp: int,
      order: seq<string>, name: string)
    returns (ws: seq<Write>, n: nat, p: string)
    requires Inv(d) && Accepted(cfg, d, key, value, explicit) && key !in Contents(d.recs)
    requires var ix := BuildIX(cfg, key, value, explicit).value;
      && name in ix && Capped(cfg, name, ix[name])
      && |GroupSet(Contents(d.recs), name, ix[name])| == cfg.defs[name].max
    ensures Performs(cfg.codec, d, ws, Put(cfg, d, key, value, explicit, exp, order)) && n <= |ws|
    ensures var v, mid := BuildIX(cfg, key, value, explicit).value[name], AllWritten(d, ws[..n]);
      var g := GroupSet(Contents(mid.recs), name, v);
      && Inv(mid) && |g| == cfg.defs[name].max + 1
      && p in g && |Higher(g, p)| == cfg.defs[name].max
  {
    var ix := BuildIX(cfg, key, value, explicit).value;
    ws, n := PutPerforms(cfg, d, key, value, explicit, exp, order);
    EveryPointGrows(cfg.codec, d, ws, Put(cfg, d, key, value, explicit, exp, order), n);
    var r := NewRecord(cfg, d, key, value, ix, exp, false);
    ContentsSnoc(d.recs, r);
    GroupPut(Contents(d.recs), r, name, ix[name]);
    var g := GroupSet(Contents(AllWritten(d, ws[..n]).recs), name, ix[name]);
    assert g == GroupSet(Contents(d.recs), name, ix[name]) + {key};
    p := LeastExists(g);
    HigherThanLeast(g, p);
  }

  /** In such a group an accepted overwrite that keeps the value evicts itself. */
  lemma OverwriteEvictsItself(cfg: Config, d: Disk, key: string, value: string, explicit: IX, exp: int,
      order: seq<string>, name: string)
    requires Accepted(cfg, d, key, value, explicit) && name in order
    requires var ix := BuildIX(cfg, key, value, explicit).value;
      && name in ix && Capped(cfg, name, ix[name])
      && |Higher(GroupSet(Contents(d.recs), name, ix[name]), key)| >= cfg.defs[name].max
    ensures key !in Contents(Put(cfg, d, key, value, explicit, exp, order).recs)
  {
    WriteSurvivesIff(cfg, d, key, value, explicit, exp, order);
  }
}

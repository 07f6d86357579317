/** The open store: the log's bytes, the in-memory indexes, the blob files and the hint file. */
module Store {
  import opened Text
  import opened Wrappers
  import opened CounterCodec
  import opened CounterSteps
  import opened SecIndex
  import opened Records
  import opened MainLog
  import opened LogIndex
  import opened Hints
  import opened Engine
  import opened EngineInv
  import opened EngineView
  import opened StoreBridge
  import opened Loading
  import opened Sizes
  import opened Writes
  import opened Occupancy
  import opened Promises

  /** The generation new blobs go to: the highest one present, or zero. */
  method HighestGeneration(files: Blobs) returns (cur: nat)
    ensures forall g :: g in files ==> g <= cur
    ensures cur in files || (cur == 0 && files == map[])
  {
    cur := 0;
    var rest := files.Keys;
    while rest != {}
      invariant rest <= files.Keys
      invariant forall g :: g in files && g !in rest ==> g <= cur
      invariant cur in files || (cur == 0 && rest == files.Keys)
      decreases rest
    {
      var g :| g in rest;
      if g > cur || cur !in files {
        cur := g;
      }
      rest := rest - {g};
    }
    assert files.Keys == {} ==> files == map[];
  }

  /** What can happen to a store: an operation, a checkpoint, or the process being killed and the store opened again.
      A crash falls between operations and may leave a torn line; `Killed` falls inside the operation `t`, and `file`
      and `files` are the log and the blob files it leaves. */
  datatype Event =
    | Do(t: Timed)
    | Checkpoint
    | Crash(torn: string)
    | Killed(t: Timed, file: string, files: Blobs)

  /** The event can turn disk `d` into `d'`. */
  ghost predicate Happens(cfg: Config, d: Disk, e: Event, d': Disk) {
    match e
    case Do(t) => d' == Step(cfg, d, t)
    case Checkpoint => d' == d
    case Crash(torn) => TornTail(torn) && d' == d
    case Killed(t, file, files) =>
      Interrupted(cfg, d, t, d') && files == d'.blobs && LogOf(cfg.codec, d'.recs, file)
  }

  /** The file is the log of the records, perhaps with a torn line behind them. */
  ghost predicate LogOf(c: Codec, recs: seq<Record>, file: string) {
    Render(c, recs) <= file && TornTail(file[|Render(c, recs)|..])
  }

  /** What a killed process left boots to its records, from the hint that was good before. */
  lemma LeftBoots(c: Codec, hint: Option<Hint>, before: seq<Record>, left: Disk, file: string)
    requires Lawful(c) && Inv(left) && Extends(c, before, left.recs) && LogOf(c, left.recs, file)
    requires hint.Some? ==> Describes(c, hint.value, before)
    ensures hint.Some? ==> Describes(c, hint.value, left.recs)
    ensures Boot(c, left.blobs, hint, file) == Booted(Replay(c, left.recs), |Render(c, left.recs)|)
    ensures file[..|Render(c, left.recs)|] == Render(c, left.recs)
  {
    var log := Render(c, left.recs);
    var torn := file[|log|..];
    assert file == log + torn;
    if hint.Some? {
      DescribesSurvives(c, hint.value, before, left.recs);
    }
    OkNeverDangles(left.blobs, left.recs);
    TornTailStops(c, left.blobs, torn);
    BootIsReplay(c, left.blobs, hint, left.recs, torn);
  }

  /** The disks before and after each event. */
  ghost predicate Path(cfg: Config, es: seq<Event>, ds: seq<Disk>) {
    |ds| == |es| + 1 && forall i :: 0 <= i < |es| ==> Happens(cfg, ds[i], es[i], ds[i + 1])
  }

  /** The operations among the events. */
  ghost function Operations(es: seq<Event>): seq<Timed> {
    if es == [] then []
    else
      var e := es[|es| - 1];
      Operations(es[..|es| - 1]) + if e.Do? then [e.t] else []
  }

  /** If no operation is interrupted, the last disk is that of the operations alone. */
  lemma {:induction false} PathIsRun(cfg: Config, es: seq<Event>, ds: seq<Disk>)
    requires Path(cfg, es, ds) && forall i :: 0 <= i < |es| ==> !es[i].Killed?
    ensures ds[|es|] == RunAll(cfg, ds[0], Operations(es))
    decreases |es|
  {
    if es != [] {
      var init, e := es[..|es| - 1], es[|es| - 1];
      PathIsRun(cfg, init, ds[..|es|]);
      assert Happens(cfg, ds[|init|], e, ds[|es|]);
      var ts := Operations(init);
      if e.Do? {
        assert (ts + [e.t])[..|ts|] == ts;
      } else {
        assert ts + [] == ts;
      }
    }
  }

  /** A kill after any number of an operation's writes, inside the line or the blob written next, is an event. */
  lemma EveryKillHappens(cfg: Config, d: Disk, t: Timed, ws: seq<Write>, n: nat, k: nat)
    requires !Rewrites(t.op) && n <= |ws| && Performs(cfg.codec, d, ws, Step(cfg, d, t))
    ensures var mid := AllWritten(d, ws[..n]);
      var log := Render(cfg.codec, mid.recs);
      && Happens(cfg, d, Killed(t, log, mid.blobs), mid)
      && (n < |ws| && ws[n].LineWrite? && Lawful(cfg.codec) && k < |Line(cfg.codec, ws[n].rec)| ==>
            Happens(cfg, d, Killed(t, log + Line(cfg.codec, ws[n].rec)[..k], mid.blobs), mid))
      && (n < |ws| && ws[n].BlobWrite? && k <= |ws[n].bytes| ==>
            var cut := AfterWrite(mid, BlobWrite(ws[n].bytes[..k]));
            Happens(cfg, d, Killed(t, log, cut.blobs), cut))
  {
    var c, mid := cfg.codec, AllWritten(d, ws[..n]);
    var log := Render(c, mid.recs);
    assert InterruptedAt(cfg, d, t, mid, ws, n);
    assert log[|log|..] == "" && LogOf(c, mid.recs, log);
    if n < |ws| && ws[n].LineWrite? && Lawful(c) && k < |Line(c, ws[n].rec)| {
      var torn := Line(c, ws[n].rec)[..k];
      assert torn == c.enc(ws[n].rec)[..k] && (log + torn)[|log|..] == torn;
      assert LogOf(c, mid.recs, log + torn);
    }
    if n < |ws| && ws[n].BlobWrite? && k <= |ws[n].bytes| {
      var w := BlobWrite(ws[n].bytes[..k]);
      assert Sound(c, mid, ws[n]);
      assert CutShort(mid, ws[n], w) && Sound(c, mid, w);
      assert InterruptedAt(cfg, d, t, AfterWrite(mid, w), ws, n);
    }
  }

  /** So is a kill inside a rewrite before its rename, whatever a relieve has written of its new generation. */
  lemma RewriteKillHappens(cfg: Config, d: Disk, t: Timed, partial: string)
    requires Rewrites(t.op)
    ensures var log := Render(cfg.codec, d.recs);
      && Happens(cfg, d, Killed(t, log, d.blobs), d)
      && (t.op.OpRelieve? ==>
            Happens(cfg, d, Killed(t, log, d.blobs[d.curGen + 1 := partial]), WithStray(d, partial)))
  {
    var log := Render(cfg.codec, d.recs);
    assert log[|log|..] == "" && LogOf(cfg.codec, d.recs, log);
    if t.op.OpRelieve? {
      assert Interrupted(cfg, d, t, WithStray(d, partial));
    }
  }

  lemma AllDueRemoved(cfg: Config, d: Disk, reqs: seq<ReapReq>, now: int)
    ensures forall k :: k in Replay(cfg.codec, Reap(cfg, d, reqs, now).recs) <==>
      k in Replay(cfg.codec, d.recs) && !Due(cfg.codec, d, reqs, now, k)
  {
    forall k
      ensures k in Replay(cfg.codec, Reap(cfg, d, reqs, now).recs) <==>
        k in Replay(cfg.codec, d.recs) && !Due(cfg.codec, d, reqs, now, k)
    {
      ReapRemoves(cfg, d, reqs, now, k);
    }
  }

  /** The keys offered to the reaper. */
  ghost function ReapKeys(reaps: seq<ReapReq>): set<string> {
    set r | r in reaps :: r.key
  }

  lemma ReapKeysSnoc(reaps: seq<ReapReq>, r: ReapReq)
    ensures ReapKeys(reaps + [r]) == ReapKeys(reaps) + {r.key}
  {
  }

  class DB {
    const cfg: Config
    var log: string
    var pk: Pk
    var sec: Sec
    var blobs: Blobs
    var curGen: nat
    var hint: Option<Hint>
    ghost var recs: seq<Record>

    ghost function State(): Disk
      reads this
    {
      Disk(recs, blobs, curGen)
    }

    /** The log's bytes are its records, and both indexes are what a full replay of them derives. */
    ghost predicate Synced()
      reads this
    {
      && Lawful(cfg.codec) && Inv(State())
      && log == Render(cfg.codec, recs)
      && pk == Replay(cfg.codec, recs)
      && SecMatches(cfg, pk, sec)
    }

    /** Also, the hint on disk is a snapshot of some prefix of the log, in key order. */
    ghost predicate Valid()
      reads this
    {
      Synced() && GoodHint(hint, recs)
    }

    ghost predicate GoodHint(h: Option<Hint>, rs: seq<Record>) {
      h.Some? ==> Describes(cfg.codec, h.value, rs) && AscendingLines(h.value.lines)
    }

    /** The hint is a snapshot of the whole log. */
    ghost predicate FreshHint()
      reads this
    {
      hint.Some? && DescribesAt(cfg.codec, hint.value, recs, |recs|)
    }

    /** Opens what is on disk: a log that may end in a torn append, the blob files, and a hint if there is one.  The
        indexes are those of `Boot`, whatever the hint says; with a hint that describes the log, or none, they are the
        full replay. */
    constructor Open(config: Config, file: string, files: Blobs, hintFile: Option<Hint>, ghost onDisk: seq<Record>,
        ghost torn: string)
      requires Lawful(config.codec) && RecordsOk(files, onDisk)
      requires file == Render(config.codec, onDisk) + torn && FrontOf(config.codec, files, torn) == Stop
      requires hintFile.Some? ==> AscendingLines(hintFile.value.lines)
      ensures cfg == config && recs == onDisk && hint == hintFile && |log| <= |file| && log == file[..|log|]
      ensures Booted(pk, |log|) == Boot(config.codec, files, hintFile, file) && SecMatches(cfg, pk, sec)
      ensures Booted(pk, |log|) == Booted(Replay(config.codec, onDisk), |Render(config.codec, onDisk)|) ==> Synced()
      ensures (hintFile.Some? ==> Describes(config.codec, hintFile.value, onDisk)) ==> Valid()
      ensures forall g :: g in files ==> g in blobs && blobs[g] == files[g]
      ensures forall g :: g in blobs ==> g in files || (g == 0 && files == map[] && blobs[g] == "")
    {
      OkNeverDangles(files, onDisk);
      if hintFile.Some? ==> Describes(config.codec, hintFile.value, onDisk) {
        BootIsReplay(config.codec, files, hintFile, onDisk, torn);
      }
      BootEndsInside(config.codec, files, hintFile, file);
      var pk0, sec0, end := Load(config, files, hintFile, file);
      var cur := HighestGeneration(files);
      var present := if cur in files then files else files[cur := ""];
      RecordsOkGrow(files, present, onDisk);
      cfg, log, pk, sec := config, file[..end], pk0, sec0;
      blobs, curGen, hint := present, cur, hintFile;
      recs := onDisk;
    }

    /** The process dies and the store is opened again on what is then on disk: the log of `left`, which may end in a
        torn line, and its blob files. */
    method Recover(file: string, files: Blobs, ghost left: Disk)
      requires Valid() && Inv(left) && Extends(cfg.codec, recs, left.recs)
      requires LogOf(cfg.codec, left.recs, file) && files == left.blobs
      modifies this
      ensures Valid() && State() == left && hint == old(hint)
    {
      LeftBoots(cfg.codec, hint, recs, left, file);
      var pk', sec', end := Load(cfg, files, hint, file);
      pk, sec, log, blobs := pk', sec', file[..end], files;
      curGen := HighestGeneration(blobs);
      recs := left.recs;
    }

    /** Dying between operations, perhaps inside an append that leaves a torn line: every field comes back as it
        was. */
    method Reopen(torn: string)
      requires Valid() && TornTail(torn)
      modifies this
      ensures Valid() && State() == old(State())
      ensures log == old(log) && pk == old(pk) && sec == old(sec) && hint == old(hint)
    {
      assert (log + torn)[|log|..] == torn;
      Recover(log + torn, blobs, State());
      SecIsDetermined(cfg, pk, sec, old(sec));
    }

    // ---- the log ----

    /** Appends one line and reports where it starts and how long it is. */
    method AppendLine(r: Record) returns (off: nat, n: nat)
      requires log == Render(cfg.codec, recs)
      modifies this`log, this`recs
      ensures recs == old(recs) + [r] && log == Render(cfg.codec, recs)
      ensures off == |old(log)| && n == |Line(cfg.codec, r)|
    {
      var data := cfg.codec.enc(r) + "\n";
      off := |log|;
      RenderSnoc(cfg.codec, recs, r);
      log := log + data;
      recs := recs + [r];
      n := |data|;
    }

    /** Reads the record a primary entry points at. */
    method ReadRecord(key: string) returns (r: Record)
      requires Synced() && key in pk
      ensures key in Contents(recs) && r == Contents(recs)[key] && r.key == key
      ensures pk[key].ix == r.ix && pk[key].exp == r.exp
    {
      EntryIsLatestLine(cfg.codec, recs, key);
      var e := pk[key];
      var buf := log[e.off..e.off + e.n];
      ghost var want := Contents(recs)[key];
      assert buf == Line(cfg.codec, want);
      assert buf[..|buf| - 1] == cfg.codec.enc(want);
      var got := cfg.codec.dec(buf[..|buf| - 1]);
      r := got.value;
    }

    /** Appends a tombstone, retracts the key's index entries and drops its primary entry. */
    method DeleteLocked(key: string)
      requires Synced()
      modifies this`log, this`pk, this`sec, this`recs
      ensures Synced() && State() == Engine.Delete(old(State()), key)
      ensures Grows(cfg.codec, old(State()), State())
    {
      DeleteGrows(cfg.codec, State(), key);
      ReplaySnoc(cfg.codec, recs, Tombstone(key));
      var _, _ := AppendLine(Tombstone(key));
      if key in pk && |pk[key].ix| > 0 {
        sec := RetractEntries(cfg, pk, sec, key);
        pk := pk[key := Bare(pk[key])];
      }
      SecIgnoresBare(cfg, pk, sec, key);
      pk := pk - {key};
    }

    /** Blob offload, log append, and the index updates of one record. */
    method AppendRecord(key: string, value: string, ix: IX, exp: int, counter: bool)
      requires Synced()
      modifies this`log, this`pk, this`sec, this`recs, this`blobs
      ensures Synced() && State() == Append(cfg, old(State()), key, value, ix, exp, counter)
      ensures Grows(cfg.codec, old(State()), State())
    {
      AppendGrows(cfg, State(), key, value, ix, exp, counter);
      var r := MakeRecord(key, value, ix, exp, counter);
      ReplaySnoc(cfg.codec, recs, r);
      var off, n := AppendLine(r);
      IndexRecord(key, off, n, ix, exp);
    }

    /** Large values go to the current blob file; the record just references them. */
    method MakeRecord(key: string, value: string, ix: IX, exp: int, counter: bool) returns (r: Record)
      requires curGen in blobs
      modifies this`blobs
      ensures r == NewRecord(cfg, old(State()), key, value, ix, exp, counter)
      ensures blobs == NewBlobs(cfg, old(State()), value, counter)
    {
      r := Record(key, value, None, false, ix, counter, exp);
      if !counter && UseBlob(cfg, |value|) {
        var ref := BlobRef(|blobs[curGen]|, |value|, curGen);
        blobs := blobs[curGen := blobs[curGen] + value];
        r := Record(key, "", Some(ref), false, ix, false, exp);
      }
    }

    /** Points the primary index at a new record and refreshes the secondary indexes. */
    method IndexRecord(key: string, off: nat, n: nat, ix: IX, exp: int)
      requires SecMatches(cfg, pk, sec)
      modifies this`pk, this`sec
      ensures SecMatches(cfg, pk, sec)
      ensures pk == old(pk)[key := PkEntry(off, n, ix, exp)]
    {
      var inherited: IX := if key in pk then pk[key].ix else map[];
      SecIgnoresPlace(cfg, pk, sec, key, PkEntry(off, n, inherited, exp));
      pk := pk[key := PkEntry(off, n, inherited, exp)];
      RefreshSec(key, ix);
    }

    /** Retracts the key's old index entries and files its new ones. */
    method RefreshSec(key: string, ix: IX)
      requires SecMatches(cfg, pk, sec) && key in pk
      modifies this`pk, this`sec
      ensures SecMatches(cfg, pk, sec)
      ensures pk == old(pk)[key := old(pk)[key].(ix := ix)]
    {
      if |pk[key].ix| > 0 {
        sec := RetractEntries(cfg, pk, sec, key);
        pk := pk[key := Bare(pk[key])];
      }
      if |ix| > 0 {
        var e := pk[key].(ix := ix);
        sec := InsertEntries(cfg, pk, sec, key, ix, e);
        pk := pk[key := e];
      }
    }

    // ---- caps ----

    /** Deletes the given keys one by one. */
    method DeleteEach(keys: seq<string>)
      requires Synced()
      modifies this`log, this`pk, this`sec, this`recs
      ensures Synced() && State() == DeleteAll(old(State()), keys)
      ensures Grows(cfg.codec, old(State()), State())
    {
      GrowsReflexive(cfg.codec, State());
      for i := 0 to |keys|
        invariant Synced() && State() == DeleteAll(old(State()), keys[..i])
        invariant Grows(cfg.codec, old(State()), State())
      {
        ghost var before := State();
        assert keys[..i + 1][..i] == keys[..i];
        DeleteLocked(keys[i]);
        GrowsTransitive(cfg.codec, old(State()), before, State());
      }
      assert keys[..|keys|] == keys;
    }

    method EnforceValue(name: string, v: Value)
      requires Synced()
      modifies this`log, this`pk, this`sec, this`recs
      ensures Synced() && State() == EnforceOne(cfg, old(State()), name, v)
      ensures Grows(cfg.codec, old(State()), State())
    {
      GrowsReflexive(cfg.codec, State());
      if name in cfg.defs && cfg.defs[name].max > 0 && Fits(cfg.defs[name].kind, v) {
        assert SecMatchesOne(cfg, pk, sec, name);
        GroupBridge(cfg.codec, recs, sec[name], name, cfg.defs[name].kind, v);
        var victims := FindVictims(sec[name], v, cfg.defs[name].max);
        DeleteEach(victims);
      }
    }

    /** Enforces the caps of the values a write touched, visiting its index names in the given order. */
    method EnforceMaxPerValue(ix: IX, order: seq<string>)
      requires Synced()
      modifies this`log, this`pk, this`sec, this`recs
      ensures Synced() && State() == Enforce(cfg, old(State()), ix, order)
      ensures Grows(cfg.codec, old(State()), State())
    {
      GrowsReflexive(cfg.codec, State());
      ghost var goal := Enforce(cfg, State(), ix, order);
      assert order[0..] == order;
      for i := 0 to |order|
        invariant Synced() && Enforce(cfg, State(), ix, order[i..]) == goal
        invariant Grows(cfg.codec, old(State()), State())
      {
        assert order[i..][1..] == order[i + 1..];
        if order[i] in ix {
          ghost var before := State();
          EnforceValue(order[i], ix[order[i]]);
          GrowsTransitive(cfg.codec, old(State()), before, State());
        }
      }
    }

    /** Whether some capped index would evict the new key at once. */
    method CheckSelfEviction(key: string, ix: IX) returns (rejected: bool)
      requires Synced()
      ensures rejected <==> Rejected(cfg, State(), key, ix)
    {
      var rest := ix.Keys;
      while rest != {}
        invariant rest <= ix.Keys
        invariant forall name :: name in ix && name !in rest ==> !SelfEvicts(cfg, State(), key, name, ix[name])
        decreases rest
      {
        var name :| name in rest;
        var v := ix[name];
        if name in cfg.defs && cfg.defs[name].max > 0 && Fits(cfg.defs[name].kind, v) {
          assert SecMatchesOne(cfg, pk, sec, name);
          SelfVictimBridge(cfg, State(), sec[name], name, v, key);
          var evict := WouldSelfEvict(sec[name], cfg.defs[name].max, v, key);
          if evict {
            return true;
          }
        }
        rest := rest - {name};
      }
      return false;
    }

    // ---- hints ----

    /** The synchronous checkpoint: the hint becomes a snapshot of the whole log. */
    method WriteHint()
      requires Synced()
      modifies this`hint
      ensures Valid() && FreshHint()
    {
      var h := WriteIndexHint(pk, |log|);
      assert recs[..|recs|] == recs;
      assert DescribesAt(cfg.codec, h, recs, |recs|);
      hint := Some(h);
    }

    /** A hint on disk survives every step that only extends the log. */
    lemma HintSurvives(before: seq<Record>)
      requires Synced() && Extends(cfg.codec, before, recs)
      requires GoodHint(hint, before)
      ensures Valid()
    {
      if hint.Some? {
        DescribesSurvives(cfg.codec, hint.value, before, recs);
      }
    }

    // ---- writes ----

    method Put(key: string, value: string, explicit: IX, exp: int, order: seq<string>) returns (ok: bool)
      requires Valid()
      modifies this
      ensures Valid() && hint == old(hint)
      ensures ok <==> Accepted(cfg, old(State()), key, value, explicit)
      ensures State() == Engine.Put(cfg, old(State()), key, value, explicit, exp, order)
    {
      var built := BuildIX(cfg, key, value, explicit);
      if built.None? {
        return false;
      }
      var ix := built.value;
      var rejected := CheckSelfEviction(key, ix);
      if rejected {
        return false;
      }
      AppendRecord(key, value, ix, exp, false);
      ghost var appended := State();
      EnforceMaxPerValue(ix, order);
      GrowsTransitive(cfg.codec, old(State()), appended, State());
      HintSurvives(old(recs));
      return true;
    }

    method PutBatch(items: seq<Item>) returns (ok: bool)
      requires Valid()
      modifies this
      ensures Valid() && hint == old(hint)
      ensures ok <==> BatchAccepted(cfg, old(State()), items)
      ensures State() == Engine.PutBatch(cfg, old(State()), items)
    {
      ok := ValidateItems(items);
      if !ok {
        RejectedBatch(cfg, State(), items);
        return;
      }
      AcceptedBatch(cfg, State(), items);
      AppendEach(items);
      ghost var appended := State();
      EnforceTouched(items);
      GrowsTransitive(cfg.codec, old(State()), appended, State());
      HintSurvives(old(recs));
    }

    /** Pass one: every item is checked against the state before the batch. */
    method ValidateItems(items: seq<Item>) returns (ok: bool)
      requires Synced()
      ensures ok <==> BatchAccepted(cfg, State(), items)
    {
      for i := 0 to |items|
        invariant forall j :: 0 <= j < i ==> ItemAccepted(cfg, State(), items[j])
      {
        var it := items[i];
        var built := BuildIX(cfg, it.key, it.value, it.explicit);
        if built.None? {
          assert !ItemAccepted(cfg, State(), items[i]);
          return false;
        }
        var rejected := CheckSelfEviction(it.key, built.value);
        if rejected || it.ttl < 0 {
          assert !ItemAccepted(cfg, State(), items[i]);
          return false;
        }
      }
      return true;
    }

    /** Pass two: the appends, in order. */
    method AppendEach(items: seq<Item>)
      requires Synced()
      modifies this`log, this`pk, this`sec, this`recs, this`blobs
      ensures Synced() && State() == AppendItems(cfg, old(State()), items)
      ensures Grows(cfg.codec, old(State()), State())
    {
      GrowsReflexive(cfg.codec, State());
      for i := 0 to |items|
        invariant Synced() && State() == AppendItems(cfg, old(State()), items[..i])
        invariant Grows(cfg.codec, old(State()), State())
      {
        ghost var before := State();
        assert items[..i + 1][..i] == items[..i];
        var it := items[i];
        AppendRecord(it.key, it.value, ItemIX(cfg, it), ItemExp(it), false);
        GrowsTransitive(cfg.codec, old(State()), before, State());
      }
      assert items[..|items|] == items;
    }

    /** One enforcement per distinct touched pair, recognized by its seen key. */
    method EnforceTouched(items: seq<Item>)
      requires Synced()
      modifies this`log, this`pk, this`sec, this`recs
      ensures Synced() && State() == EnforceSeen(cfg, old(State()), Touches(cfg, items), {})
      ensures Grows(cfg.codec, old(State()), State())
    {
      GrowsReflexive(cfg.codec, State());
      var ts := Touches(cfg, items);
      ghost var goal := EnforceSeen(cfg, State(), ts, {});
      var seen: set<string> := {};
      assert ts[0..] == ts;
      for i := 0 to |ts|
        invariant Synced() && EnforceSeen(cfg, State(), ts[i..], seen) == goal
        invariant Grows(cfg.codec, old(State()), State())
      {
        assert ts[i..][1..] == ts[i + 1..];
        var key := SeenKey(cfg, ts[i]);
        if key !in seen {
          ghost var before := State();
          seen := seen + {key};
          EnforceValue(ts[i].name, ts[i].val);
          GrowsTransitive(cfg.codec, old(State()), before, State());
        }
      }
    }

    // ---- deletes ----

    method Delete(key: string)
      requires Valid()
      modifies this
      ensures Valid() && hint == old(hint)
      ensures State() == DeleteKey(old(State()), key)
    {
      ReplayKeys(cfg.codec, recs);
      if key in pk {
        DeleteLocked(key);
        HintSurvives(old(recs));
      }
    }

    /** Deletes every key strictly below the cutoff and checkpoints; returns how many there were. */
    method RemoveByPkLess(cutoff: string) returns (n: nat)
      requires Valid()
      modifies this
      ensures Valid() && State() == RemoveLess(old(State()), cutoff)
      ensures n == |Below(Contents(old(recs)).Keys, cutoff)|
      ensures if n == 0 then hint == old(hint) else FreshHint()
    {
      ReplayKeys(cfg.codec, recs);
      var ks := TreeOrder(pk.Keys);
      var doomed := CollectBelow(ks, cutoff);
      assert doomed == Below(pk.Keys, cutoff);
      n := RemovePkEntries(doomed);
    }

    /** Deletes every key strictly above the cutoff and checkpoints; returns how many there were. */
    method RemoveByPkGreater(cutoff: string) returns (n: nat)
      requires Valid()
      modifies this
      ensures Valid() && State() == RemoveGreater(old(State()), cutoff)
      ensures n == |Beyond(Contents(old(recs)).Keys, cutoff)|
      ensures if n == 0 then hint == old(hint) else FreshHint()
    {
      ReplayKeys(cfg.codec, recs);
      var ks := TreeOrder(pk.Keys);
      var doomed := CollectBeyond(ks, cutoff);
      assert doomed == Beyond(pk.Keys, cutoff);
      n := RemovePkEntries(doomed);
    }

    /** All tombstones first, then one sweep per index, then the primary entries, then a fresh hint. */
    method RemovePkEntries(doomed: seq<string>) returns (n: nat)
      requires Valid()
      modifies this
      ensures Valid() && State() == DeleteAll(old(State()), doomed) && n == |doomed|
      ensures if doomed == [] then hint == old(hint) else FreshHint()
    {
      if |doomed| == 0 {
        return 0;
      }
      DeleteAllGrows(cfg.codec, State(), doomed);
      ReplayDeleteAll(cfg.codec, State(), doomed);
      AppendTombstones(doomed);
      var gone := set k | k in doomed;
      sec := SweepSec(cfg, pk, sec, gone);
      pk := pk - gone;
      assert gone == Elems(doomed);
      WriteHint();
      return |doomed|;
    }

    method AppendTombstones(doomed: seq<string>)
      requires log == Render(cfg.codec, recs)
      modifies this`log, this`recs
      ensures log == Render(cfg.codec, recs) && State() == DeleteAll(old(State()), doomed)
    {
      for i := 0 to |doomed|
        invariant log == Render(cfg.codec, recs) && State() == DeleteAll(old(State()), doomed[..i])
      {
        assert doomed[..i + 1][..i] == doomed[..i];
        var _, _ := AppendLine(Tombstone(doomed[i]));
      }
      assert doomed[..|doomed|] == doomed;
    }

    /** Durably deletes the entries that are still where they were seen and still expired. */
    method ReapBatch(batch: seq<ReapReq>, now: int)
      requires Valid()
      modifies this
      ensures Valid() && hint == old(hint)
      ensures State() == Reap(cfg, old(State()), batch, now)
      ensures forall k :: k in pk <==> k in old(pk) && !Due(cfg.codec, old(State()), batch, now, k)
    {
      GrowsReflexive(cfg.codec, State());
      ghost var goal := Reap(cfg, State(), batch, now);
      assert batch[0..] == batch;
      for i := 0 to |batch|
        invariant Synced() && hint == old(hint) && Reap(cfg, State(), batch[i..], now) == goal
        invariant Grows(cfg.codec, old(State()), State())
      {
        assert batch[i..][1..] == batch[i + 1..];
        var r := batch[i];
        if r.key in pk && pk[r.key].off == r.off && ExpiredAt(pk[r.key].exp, now) {
          ghost var before := State();
          DeleteLocked(r.key);
          GrowsTransitive(cfg.codec, old(State()), before, State());
        }
      }
      HintSurvives(old(recs));
      AllDueRemoved(cfg, old(State()), batch, now);
    }

    // ---- counters ----

    /** Incr, Topup and Take: read, step, and write back in place or by appending. */
    method CounterUpdate(key: string, now: int, createExp: int, op: CounterOp) returns (reply: Reply)
      requires Valid()
      modifies this
      ensures Valid() && hint == old(hint)
      ensures Counted(State(), reply) == Count(cfg, old(State()), key, now, createExp, op)
    {
      if NegativeAmount(op) {
        return ErrNegativeAmount;
      }
      CountGrows(cfg, State(), key, now, createExp, op);
      ReplayKeys(cfg.codec, recs);
      ReplayMirrors(cfg.codec, recs, key);
      if key !in pk {
        reply := CreateCounter(key, createExp, op);
      } else if ExpiredAt(pk[key].exp, now) {
        DeleteLocked(key);
        reply := CreateCounter(key, createExp, op);
      } else {
        reply := StepCounter(key, op);
      }
      HintSurvives(old(recs));
    }

    /** An applied step on a missing key creates it. */
    method CreateCounter(key: string, createExp: int, op: CounterOp) returns (reply: Reply)
      requires Synced() && !NegativeAmount(op)
      modifies this`log, this`pk, this`sec, this`recs, this`blobs
      ensures Synced() && Counted(State(), reply) == CountFresh(cfg, old(State()), key, createExp, op)
    {
      var s := StepOf(op, 0);
      reply := ReplyOf(op, 0);
      if s.Move? {
        var text := FormatCounter(s.next);
        AppendRecord(key, text, map[], createExp, true);
      }
    }

    /** A live key: anything but a well-formed counter is refused. */
    method StepCounter(key: string, op: CounterOp) returns (reply: Reply)
      requires Synced() && !NegativeAmount(op) && key in pk
      modifies this`log, this`pk, this`sec, this`recs, this`blobs
      ensures key in Contents(old(recs)) && LastIndex(old(recs), key) >= 0 && Contents(old(recs))[key].key == key
      ensures Synced() && Counted(State(), reply) == CountLive(cfg, old(State()), Contents(old(recs))[key], op)
    {
      ReplayMirrors(cfg.codec, recs, key);
      var r := ReadRecord(key);
      if r.blob.Some? || !r.counter {
        return ErrNotCounter;
      }
      var cur := ParseCounter(r.value);
      if cur.None? {
        return ErrNotCounter;
      }
      var s := StepOf(op, cur.value);
      reply := ReplyOf(op, cur.value);
      if s.Move? {
        ContentsInside(State(), key);
        if |pk[key].ix| == 0 {
          PatchCounter(key, r, s.next);
        } else {
          var text := FormatCounter(s.next);
          AppendRecord(key, text, map[], pk[key].exp, true);
        }
      }
    }

    /** The in-place path of a live counter. */
    method PatchCounter(key: string, r: Record, next: int64)
      requires Synced() && key in pk && key in Contents(recs) && r == Contents(recs)[key]
      requires Patchable(r) && r.key == key
      modifies this`log, this`recs
      ensures LastIndex(old(recs), key) >= 0
      ensures Synced() && State() == Patch(old(State()), key, next)
      ensures |log| == |old(log)|
    {
      PatchBytes(cfg.codec, State(), key, next);
      log := PatchLog(cfg.codec, log, pk[key], r, next, State());
      recs := Patch(State(), key, next).recs;
    }

    // ---- compaction ----

    /** Writes the new log, its index and, for a relieve, the new blob file, key by key in ascending order. */
    method BuildRewrite(relieve: bool, now: int) returns (newLog: string, newIdx: Pk, newBlob: string)
      requires Synced()
      ensures Built(cfg, State(), relieve, LiveKeys(State()), now, newLog, newIdx, newBlob)
    {
      ReplayKeys(cfg.codec, recs);
      var ks := TreeOrder(pk.Keys);
      KeysInTree(pk, ks);
      newLog, newIdx, newBlob := RewriteKeys(ks, relieve, now);
    }

    method RewriteKeys(ks: seq<string>, relieve: bool, now: int) returns (newLog: string, newIdx: Pk, newBlob: string)
      requires Synced() && forall i :: 0 <= i < |ks| ==> ks[i] in pk
      ensures Built(cfg, State(), relieve, ks, now, newLog, newIdx, newBlob)
    {
      newLog, newIdx, newBlob := "", map[], "";
      for i := 0 to |ks|
        invariant Built(cfg, State(), relieve, ks[..i], now, newLog, newIdx, newBlob)
      {
        var k := ks[i];
        assert ks[..i + 1] == ks[..i] + [k];
        EntryIsLatestLine(cfg.codec, recs, k);
        BuiltNext(cfg, State(), relieve, ks[..i], now, newLog, newIdx, newBlob, k);
        if !ExpiredAt(pk[k].exp, now) {
          var r := ReadRecord(k);
          var one := Transform(cfg, Disk([], blobs, curGen), relieve, r, newBlob);
          assert one == Transform(cfg, State(), relieve, r, newBlob);
          var line := cfg.codec.enc(one.recs[0]) + "\n";
          newIdx := newIdx[k := PkEntry(|newLog|, |line|, one.recs[0].ix, one.recs[0].exp)];
          newLog := newLog + line;
          newBlob := one.blob;
        }
      }
      assert ks[..|ks|] == ks;
    }

    /** The swap: the new log and index replace the old ones and the secondary indexes are rebuilt. */
    method Swap(newLog: string, newIdx: Pk, newBlobs: Blobs, newGen: nat, ghost newRecs: seq<Record>)
      requires Lawful(cfg.codec) && Inv(Disk(newRecs, newBlobs, newGen))
      requires newLog == Render(cfg.codec, newRecs) && newIdx == Replay(cfg.codec, newRecs)
      modifies this
      ensures Valid() && State() == Disk(newRecs, newBlobs, newGen)
      ensures FreshHint()
    {
      log, pk, recs := newLog, newIdx, newRecs;
      blobs, curGen := newBlobs, newGen;
      sec := RebuildSec(cfg, pk);
      WriteHint();
    }

    /** Rewrites the log to its live records, swaps it in, rebuilds the indexes and checkpoints. */
    method Compact(now: int)
      requires Valid()
      modifies this
      ensures Valid() && State() == Engine.Compact(cfg, old(State()), now)
      ensures FreshHint()
    {
      CompactKeepsInv(cfg, State(), now);
      var newLog, newIdx, _ := BuildRewrite(false, now);
      Swap(newLog, newIdx, blobs, curGen, Engine.Compact(cfg, State(), now).recs);
    }

    /** Compact that also moves every live blob into a fresh generation and retires the others. */
    method BlobsRelieve(now: int)
      requires Valid()
      modifies this
      ensures Valid() && State() == Relieve(cfg, old(State()), now)
      ensures FreshHint()
    {
      var newLog, newIdx, newBlob := BuildRewrite(true, now);
      ghost var rw := Rewrite(cfg, State(), true, LiveKeys(State()), now);
      RelieveDisk(cfg, State(), now, rw);
      Swap(newLog, newIdx, map[curGen + 1 := newBlob], curGen + 1, rw.recs);
    }

    // ---- reads ----

    /** The value under a key, or nothing if it is absent or expired; an expired hit is offered to the reaper. */
    method Get(key: string, now: int) returns (value: Option<string>, reap: Option<ReapReq>)
      requires Valid()
      ensures value == if key in Visible(State(), now) then Some(Visible(State(), now)[key].value) else None
      ensures value.Some? <==> key in Contents(recs) && (Contents(recs)[key].exp == 0 || now < Contents(recs)[key].exp)
      ensures reap.Some? <==> key in Contents(recs) && Contents(recs)[key].exp != 0 && Contents(recs)[key].exp <= now
      ensures reap.Some? ==> key in pk && reap.value == ReapReq(key, pk[key].off)
    {
      value, reap := None, None;
      ReplayKeys(cfg.codec, recs);
      if key !in pk {
        return;
      }
      var r := ReadRecord(key);
      if ExpiredAt(pk[key].exp, now) {
        reap := Some(ReapReq(key, pk[key].off));
        return;
      }
      if r.blob.Some? {
        value := Some(ReadBlob(blobs, r.blob.value));
      } else {
        value := Some(r.value);
      }
    }

    /** The live keys with a prefix, in order. */
    method PrefixScan(prefix: string, now: int) returns (keys: seq<string>, reaps: seq<ReapReq>)
      requires Valid()
      ensures keys == SortedKeys(KeysWithPrefix(Visible(State(), now).Keys, prefix))
      ensures forall i :: 0 <= i < |reaps| ==> Reapable(cfg, State(), reaps[i], now)
      ensures Ascending(keys) && forall k :: k in keys <==>
        k in Contents(recs) && HasPrefix(k, prefix) && (Contents(recs)[k].exp == 0 || now < Contents(recs)[k].exp)
      ensures forall k :: k in ReapKeys(reaps) <==>
        k in Contents(recs) && HasPrefix(k, prefix) && Contents(recs)[k].exp != 0 && Contents(recs)[k].exp <= now
    {
      var ks := TreeOrder(pk.Keys);
      var run := PrefixRun(ks, prefix);
      keys, reaps := DropExpired(run, now);
      PrefixAnswerIsVisible(cfg.codec, State(), now, prefix, run, keys);
      forall k
        ensures k in run <==> k in Contents(recs) && HasPrefix(k, prefix)
        ensures k in pk <==> k in Contents(recs)
        ensures k in pk ==> pk[k].exp == Contents(recs)[k].exp
      {
        ReplayMirrors(cfg.codec, recs, k);
        assert k in run <==> k in Elems(run);
      }
    }

    /** Splits off the expired keys of an ascending run. */
    method DropExpired(run: seq<string>, now: int) returns (alive: seq<string>, reaps: seq<ReapReq>)
      requires Synced() && Ascending(run)
      ensures Ascending(alive)
      ensures forall k :: k in alive <==> k in run && k in pk && !ExpiredAt(pk[k].exp, now)
      ensures forall i :: 0 <= i < |reaps| ==> Reapable(cfg, State(), reaps[i], now)
      ensures forall k :: k in ReapKeys(reaps) <==> k in run && k in pk && ExpiredAt(pk[k].exp, now)
    {
      alive, reaps := [], [];
      for i := 0 to |run|
        invariant Ascending(alive) && forall j :: 0 <= j < |alive| ==> alive[j] in run[..i]
        invariant forall k :: k in alive <==> k in run[..i] && k in pk && !ExpiredAt(pk[k].exp, now)
        invariant forall j :: 0 <= j < |reaps| ==> Reapable(cfg, State(), reaps[j], now)
        invariant forall k :: k in ReapKeys(reaps) <==> k in run[..i] && k in pk && ExpiredAt(pk[k].exp, now)
      {
        var k := run[i];
        assert run[..i + 1] == run[..i] + [k];
        if k in pk {
          if ExpiredAt(pk[k].exp, now) {
            ReapKeysSnoc(reaps, ReapReq(k, pk[k].off));
            reaps := reaps + [ReapReq(k, pk[k].off)];
          } else {
            assert forall x :: x in run[..i] ==> Lt(x, k);
            AscendingSnoc(alive, k);
            alive := alive + [k];
          }
        }
      }
      assert run[..|run|] == run;
    }

    /** The bytes a compaction would shrink the log to. */
    method LiveSize() returns (n: nat)
      requires Valid()
      ensures n == LiveBytes(pk) && n <= |log|
    {
      n := SumLines(pk);
      LiveWithinLog(cfg.codec, recs);
    }

    /** Blob occupancy: the size of all generation files and the bytes that live records refer to. */
    method BlobUsage() returns (total: nat, live: nat, orphaned: int)
      requires Valid()
      ensures total == TotalBytes(State()) && live == LiveBlobBytes(recs) && orphaned == total - live
    {
      total := 0;
      for g := 0 to curGen + 1
        invariant total == SumSizes(blobs, g)
      {
        total := total + BlobSize(blobs, g);
      }
      ReplayKeys(cfg.codec, recs);
      var ks := TreeOrder(pk.Keys);
      KeysInTree(pk, ks);
      live := SumRefs(ks);
      orphaned := total - live;
    }

    /** The bytes that the records of the given keys refer to. */
    method SumRefs(ks: seq<string>) returns (live: nat)
      requires Synced() && Ascending(ks) && Elems(ks) == pk.Keys
      ensures live == LiveBlobBytes(recs)
    {
      ghost var sizes := RefSizes(Contents(recs));
      ReplayKeys(cfg.codec, recs);
      live := 0;
      WalkStarts(sizes, ks);
      for i := 0 to |ks|
        invariant live + Unmet(sizes, ks, i) == Total(sizes)
      {
        assert ks[i] in Elems(ks);
        var r := ReadRecord(ks[i]);
        WalkNext(sizes, ks, i);
        if r.blob.Some? {
          live := live + r.blob.value.size;
        }
      }
      WalkEnds(sizes, ks);
    }

    /** The keys whose value in a string index starts with a prefix; an unknown or number index is refused. */
    method ByIndexPrefix(name: string, prefix: string, limit: int64) returns (r: Option<seq<string>>)
      requires Valid()
      ensures r.Some? <==> name in cfg.defs && cfg.defs[name].kind == KindString
      ensures r.Some? ==> r.value == if limit == MIN_INT64 then [] else PrefixAnswer(sec[name], prefix, limit)
      ensures r.Some? && limit == 0 ==> forall k :: k in r.value <==>
        && k in Contents(recs) && name in Contents(recs)[k].ix
        && Contents(recs)[k].ix[name].Str? && HasPrefix(Contents(recs)[k].ix[name].s, prefix)
    {
      if name !in cfg.defs {
        return None;
      }
      assert SecMatchesOne(cfg, pk, sec, name);
      EntriesFit(cfg, pk, sec, name);
      r := Prefix(cfg.defs[name].kind, sec[name], prefix, limit);
      if r.Some? {
        forall k
          ensures k in PrefixAnswer(sec[name], prefix, 0) <==>
            && k in Contents(recs) && name in Contents(recs)[k].ix
            && Contents(recs)[k].ix[name].Str? && HasPrefix(Contents(recs)[k].ix[name].s, prefix)
        {
          PrefixByContents(cfg, recs, sec, name, prefix, k);
        }
      }
    }

    // ---- runs ----

    /** Any one operation. */
    method Apply(t: Timed)
      requires Valid()
      modifies this
      ensures Valid() && State() == Step(cfg, old(State()), t)
      ensures Rewrites(t.op) ==> FreshHint()
    {
      match t.op {
        case OpPut(key, value, explicit, exp, order) => var _ := Put(key, value, explicit, exp, order);
        case OpBatch(items) => var _ := PutBatch(items);
        case OpDelete(key) => Delete(key);
        case OpRemoveLess(cutoff) => var _ := RemoveByPkLess(cutoff);
        case OpRemoveGreater(cutoff) => var _ := RemoveByPkGreater(cutoff);
        case OpCount(key, createExp, cop) => var _ := CounterUpdate(key, t.now, createExp, cop);
        case OpReap(reqs) => ReapBatch(reqs, t.now);
        case OpCompact => Compact(t.now);
        case OpRelieve => BlobsRelieve(t.now);
      }
    }

    /** One event; a checkpoint or a rewrite leaves a fresh hint, and a crash leaves the hint alone. */
    method Handle(e: Event, ghost after: Disk)
      requires Valid() && Happens(cfg, State(), e, after)
      modifies this
      ensures Valid() && State() == after
      ensures e.Checkpoint? || (e.Do? && Rewrites(e.t.op)) ==> FreshHint()
      ensures e.Crash? || e.Killed? ==> hint == old(hint)
    {
      match e {
        case Do(t) => Apply(t);
        case Checkpoint => WriteHint();
        case Crash(torn) => Reopen(torn);
        case Killed(t, file, files) =>
          InterruptedKeeps(cfg, State(), t, after);
          Recover(file, files, after);
      }
    }

    /** Any run of operations, checkpoints and reboots after crashes between or inside operations: the log's bytes,
        both indexes and the hint stay in step with the records. */
    method Run(es: seq<Event>, ghost ds: seq<Disk>)
      requires Valid() && Path(cfg, es, ds) && ds[0] == State()
      modifies this
      ensures Valid() && State() == ds[|es|]
      ensures es != [] && es[|es| - 1].Checkpoint? ==> FreshHint()
    {
      for i := 0 to |es|
        invariant Valid() && State() == ds[i]
        invariant i > 0 && es[i - 1].Checkpoint? ==> FreshHint()
      {
        Handle(es[i], ds[i + 1]);
      }
    }
  }
}

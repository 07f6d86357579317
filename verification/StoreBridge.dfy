/** The in-memory indexes against the functions of the log they stand for. */
module StoreBridge {
  import opened Text
  import opened CounterCodec
  import opened SecIndex
  import opened Records
  import opened MainLog
  import opened LogIndex
  import opened Engine
  import opened EngineInv
  import opened EngineView
  import opened Hints

  type Sec = map<string, seq<Entry>>

  /** Index `name` holds exactly the fitting (value, key) pairs of the primary entries, in order. */
  ghost predicate SecMatchesOne(cfg: Config, pk: Pk, sec: Sec, name: string)
    requires name in cfg.defs && name in sec
  {
    Sorted(sec[name]) && Elems(sec[name]) == SecOf(pk, name, cfg.defs[name].kind)
  }

  /** Every declared index holds exactly what the primary index says: no ghosts, none missing. */
  ghost predicate SecMatches(cfg: Config, pk: Pk, sec: Sec) {
    && sec.Keys == cfg.defs.Keys
    && forall name :: name in cfg.defs ==> SecMatchesOne(cfg, pk, sec, name)
  }

  /** Two indexes that match the same primary index are the same. */
  lemma SecIsDetermined(cfg: Config, pk: Pk, a: Sec, b: Sec)
    requires SecMatches(cfg, pk, a) && SecMatches(cfg, pk, b)
    ensures a == b
  {
    forall name | name in cfg.defs
      ensures a[name] == b[name]
    {
      assert SecMatchesOne(cfg, pk, a, name) && SecMatchesOne(cfg, pk, b, name);
      SortedUnique(a[name], b[name]);
    }
  }

  /** A primary entry stripped of its index values. */
  function Bare(e: PkEntry): PkEntry {
    e.(ix := map[])
  }

  lemma SecOfBare(pk: Pk, name: string, kind: Kind, key: string, e: PkEntry)
    requires e.ix == map[]
    ensures SecOf(pk[key := e], name, kind) == SecOf(pk - {key}, name, kind)
  {
    SecOfPut(pk, name, kind, key, e);
  }

  lemma RetractOne(cfg: Config, pk: Pk, sec: Sec, key: string, name: string)
    requires key in pk && name in cfg.defs && name in sec && SecMatchesOne(cfg, pk, sec, name)
    ensures var pk' := pk[key := Bare(pk[key])];
      if name in pk[key].ix && Fits(cfg.defs[name].kind, pk[key].ix[name]) then
        SecMatchesOne(cfg, pk', sec[name := Remove(sec[name], Entry(pk[key].ix[name], key))], name)
      else SecMatchesOne(cfg, pk', sec, name)
  {
    var kind, e := cfg.defs[name].kind, pk[key];
    SecOfBare(pk, name, kind, key, Bare(e));
    SecOfRemove(pk, name, kind, key);
    if name in e.ix {
      SecOfMember(pk, name, kind, Entry(e.ix[name], key));
    }
  }

  lemma InsertOne(cfg: Config, pk: Pk, sec: Sec, key: string, e: PkEntry, name: string)
    requires key in pk ==> pk[key].ix == map[]
    requires name in cfg.defs && name in sec && SecMatchesOne(cfg, pk, sec, name)
    ensures if name in e.ix && Fits(cfg.defs[name].kind, e.ix[name]) then
        SecMatchesOne(cfg, pk[key := e], sec[name := Insert(sec[name], Entry(e.ix[name], key))], name)
      else SecMatchesOne(cfg, pk[key := e], sec, name)
  {
    var kind := cfg.defs[name].kind;
    SecOfPut(pk, name, kind, key, e);
    SecOfRemove(pk, name, kind, key);
  }

  /** Where a record lies does not matter to the secondary indexes. */
  lemma SecIgnoresPlace(cfg: Config, pk: Pk, sec: Sec, key: string, e: PkEntry)
    requires SecMatches(cfg, pk, sec)
    requires e.ix == if key in pk then pk[key].ix else map[]
    ensures SecMatches(cfg, pk[key := e], sec)
  {
    forall name | name in cfg.defs
      ensures SecMatchesOne(cfg, pk[key := e], sec, name)
    {
      assert SecMatchesOne(cfg, pk, sec, name);
      var kind := cfg.defs[name].kind;
      if key in pk {
        SecOfPut(pk, name, kind, key, e);
        SecOfPut(pk, name, kind, key, pk[key]);
        assert pk[key := pk[key]] == pk;
      } else {
        SecOfBare(pk, name, kind, key, e);
        assert pk - {key} == pk;
      }
    }
  }

  lemma SecIgnoresBare(cfg: Config, pk: Pk, sec: Sec, key: string)
    requires SecMatches(cfg, pk, sec)
    requires key in pk ==> pk[key].ix == map[]
    ensures SecMatches(cfg, pk - {key}, sec)
  {
    forall name | name in cfg.defs
      ensures SecMatchesOne(cfg, pk - {key}, sec, name)
    {
      assert SecMatchesOne(cfg, pk, sec, name);
      SecOfRemove(pk, name, cfg.defs[name].kind, key);
    }
  }

  // ---- groups in the index are groups of the contents ----

  lemma GroupBridge(c: Codec, recs: seq<Record>, es: seq<Entry>, name: string, kind: Kind, v: Value)
    requires Sorted(es) && Elems(es) == SecOf(Replay(c, recs), name, kind) && Fits(kind, v)
    ensures GroupOf(es, v) == SortedKeys(GroupSet(Contents(recs), name, v))
  {
    GroupIsAscending(es, v);
    var g := GroupSet(Contents(recs), name, v);
    forall k
      ensures k in GroupOf(es, v) <==> k in g
    {
      SecOfContents(c, recs, name, kind, Entry(v, k));
      assert Entry(v, k) in es <==> Entry(v, k) in Elems(es);
    }
    assert Elems(GroupOf(es, v)) == g;
    AscendingUnique(GroupOf(es, v), SortedKeys(g));
  }

  lemma SelfVictimBridge(cfg: Config, d: Disk, es: seq<Entry>, name: string, v: Value, key: string)
    requires name in cfg.defs && Fits(cfg.defs[name].kind, v)
    requires Sorted(es) && Elems(es) == SecOf(Replay(cfg.codec, d.recs), name, cfg.defs[name].kind)
    ensures SelfVictim(es, cfg.defs[name].max, v, key) <==> SelfEvicts(cfg, d, key, name, v)
  {
    var kind, max := cfg.defs[name].kind, cfg.defs[name].max;
    var g := GroupSet(Contents(d.recs), name, v);
    SecOfContents(cfg.codec, d.recs, name, kind, Entry(v, key));
    assert Entry(v, key) in es <==> Entry(v, key) in Elems(es);
    GroupBridge(cfg.codec, d.recs, es, name, kind, v);
    GrownGroup(es, v, key, g);
  }

  lemma GrownGroup(es: seq<Entry>, v: Value, key: string, g: set<string>)
    requires Sorted(es) && GroupOf(es, v) == SortedKeys(g)
    ensures GroupOf(Insert(es, Entry(v, key)), v) == SortedKeys(g + {key})
  {
    var grown := GroupOf(Insert(es, Entry(v, key)), v);
    GroupGrows(es, v, key);
    GroupIsAscending(Insert(es, Entry(v, key)), v);
    forall k
      ensures k in Elems(grown) <==> k in g + {key}
    {
      assert k in SortedKeys(g) <==> k in Elems(SortedKeys(g));
    }
    AscendingUnique(grown, SortedKeys(g + {key}));
  }

  // ---- maintenance loops ----

  /** Removes the secondary entries of a key's current index values. */
  method RetractEntries(cfg: Config, pk: Pk, sec: Sec, key: string) returns (sec': Sec)
    requires SecMatches(cfg, pk, sec) && key in pk
    ensures SecMatches(cfg, pk[key := Bare(pk[key])], sec')
  {
    sec' := sec;
    var ix := pk[key].ix;
    ghost var pk' := pk[key := Bare(pk[key])];
    var rest := ix.Keys;
    forall name | name in cfg.defs && name !in rest
      ensures SecMatchesOne(cfg, pk', sec, name)
    {
      RetractOne(cfg, pk, sec, key, name);
    }
    while rest != {}
      invariant rest <= ix.Keys && sec'.Keys == cfg.defs.Keys
      invariant forall name :: name in cfg.defs && name in rest ==> SecMatchesOne(cfg, pk, sec', name)
      invariant forall name :: name in cfg.defs && name !in rest ==> SecMatchesOne(cfg, pk', sec', name)
      decreases rest
    {
      var name :| name in rest;
      if name in cfg.defs {
        RetractOne(cfg, pk, sec', key, name);
        if Fits(cfg.defs[name].kind, ix[name]) {
          sec' := sec'[name := Remove(sec'[name], Entry(ix[name], key))];
        }
      }
      rest := rest - {name};
    }
  }

  /** Files a key's index values; unknown indexes and values of the wrong kind are skipped. */
  method InsertEntries(cfg: Config, ghost pk: Pk, sec: Sec, key: string, ix: IX, ghost e: PkEntry) returns (sec': Sec)
    requires SecMatches(cfg, pk, sec) && (key in pk ==> pk[key].ix == map[]) && e.ix == ix
    ensures SecMatches(cfg, pk[key := e], sec')
  {
    sec' := sec;
    ghost var pk' := pk[key := e];
    var rest := ix.Keys;
    forall name | name in cfg.defs && name !in rest
      ensures SecMatchesOne(cfg, pk', sec, name)
    {
      InsertOne(cfg, pk, sec, key, e, name);
    }
    while rest != {}
      invariant rest <= ix.Keys && sec'.Keys == cfg.defs.Keys
      invariant forall name :: name in cfg.defs && name in rest ==> SecMatchesOne(cfg, pk, sec', name)
      invariant forall name :: name in cfg.defs && name !in rest ==> SecMatchesOne(cfg, pk', sec', name)
      decreases rest
    {
      var name :| name in rest;
      if name in cfg.defs {
        InsertOne(cfg, pk, sec', key, e, name);
        if Fits(cfg.defs[name].kind, ix[name]) {
          sec' := sec'[name := Insert(sec'[name], Entry(ix[name], key))];
        }
      }
      rest := rest - {name};
    }
  }

  /** The secondary indexes of a whole primary index, filled from nothing in key order. */
  method RebuildSec(cfg: Config, pk: Pk) returns (sec: Sec)
    ensures SecMatches(cfg, pk, sec)
  {
    sec := map name | name in cfg.defs :: [];
    EmptyMatches(cfg, sec);
    var ks := TreeOrder(pk.Keys);
    KeysInTree(pk, ks);
    sec := FillSec(cfg, pk, ks, sec);
  }

  method FillSec(cfg: Config, pk: Pk, ks: seq<string>, empty: Sec) returns (sec: Sec)
    requires SecMatches(cfg, map[], empty)
    requires forall i :: 0 <= i < |ks| ==> ks[i] in pk && ks[i] !in Elems(ks[..i])
    requires Elems(ks) == pk.Keys
    ensures SecMatches(cfg, pk, sec)
  {
    sec := empty;
    assert Elems(ks[..0]) == {} && Restricted(pk, {}) == map[];
    for i := 0 to |ks|
      invariant SecMatches(cfg, Restricted(pk, Elems(ks[..i])), sec)
    {
      var k := ks[i];
      assert ks[..i + 1] == ks[..i] + [k];
      ElemsSnoc(ks[..i], k);
      RestrictedAdd(pk, Elems(ks[..i]), k);
      sec := InsertEntries(cfg, Restricted(pk, Elems(ks[..i])), sec, k, pk[k].ix, pk[k]);
    }
    assert ks[..|ks|] == ks;
    assert Restricted(pk, pk.Keys) == pk;
  }

  ghost function Restricted(pk: Pk, keys: set<string>): Pk {
    map k | k in pk && k in keys :: pk[k]
  }

  lemma RestrictedAdd(pk: Pk, keys: set<string>, k: string)
    requires k in pk
    ensures Restricted(pk, keys + {k}) == Restricted(pk, keys)[k := pk[k]]
  {
  }

  lemma EmptyMatches(cfg: Config, sec: Sec)
    requires sec == map name | name in cfg.defs :: []
    ensures SecMatches(cfg, map[], sec)
  {
    forall name | name in cfg.defs
      ensures SecMatchesOne(cfg, map[], sec, name)
    {
      assert SecOf(map[], name, cfg.defs[name].kind) == {};
    }
  }

  lemma KeysInTree(pk: Pk, ks: seq<string>)
    requires ks == SortedKeys(pk.Keys)
    ensures forall i :: 0 <= i < |ks| ==> ks[i] in pk
    ensures forall i :: 0 <= i < |ks| ==> ks[i] !in Elems(ks[..i])
    ensures Elems(ks) == pk.Keys
  {
    forall i | 0 <= i < |ks|
      ensures ks[i] in pk && ks[i] !in Elems(ks[..i])
    {
      assert ks[i] in Elems(ks);
      LtIrreflexive(ks[i]);
    }
  }

  /** Sweeps the given keys out of every index. */
  method SweepSec(cfg: Config, ghost pk: Pk, sec: Sec, gone: set<string>) returns (sec': Sec)
    requires SecMatches(cfg, pk, sec)
    ensures SecMatches(cfg, pk - gone, sec')
  {
    sec' := sec;
    var rest := cfg.defs.Keys;
    while rest != {}
      invariant rest <= cfg.defs.Keys && sec'.Keys == cfg.defs.Keys
      invariant forall name :: name in cfg.defs && name in rest ==> SecMatchesOne(cfg, pk, sec', name)
      invariant forall name :: name in cfg.defs && name !in rest ==> SecMatchesOne(cfg, pk - gone, sec', name)
      decreases rest
    {
      var name :| name in rest;
      var es := RemovePKs(sec'[name], gone);
      SweepOne(cfg, pk, sec', name, gone, es);
      sec' := sec'[name := es];
      rest := rest - {name};
    }
  }

  lemma SweepOne(cfg: Config, pk: Pk, sec: Sec, name: string, gone: set<string>, es: seq<Entry>)
    requires name in cfg.defs && name in sec && SecMatchesOne(cfg, pk, sec, name) && Sorted(es)
    requires forall e :: e in Elems(es) <==> e in Elems(sec[name]) && e.pk !in gone
    ensures SecMatchesOne(cfg, pk - gone, sec[name := es], name)
  {
    var kind := cfg.defs[name].kind;
    forall x
      ensures x in Elems(es) <==> x in SecOf(pk - gone, name, kind)
    {
      SecOfMember(pk, name, kind, x);
      SecOfMember(pk - gone, name, kind, x);
    }
    assert Elems(es) == SecOf(pk - gone, name, kind);
  }

  lemma {:induction false} ReplayDeleteAll(c: Codec, d: Disk, keys: seq<string>)
    ensures Replay(c, DeleteAll(d, keys).recs) == Replay(c, d.recs) - Elems(keys)
    decreases |keys|
  {
    if keys == [] {
      assert Elems(keys) == {};
    } else {
      var init, last := keys[..|keys| - 1], keys[|keys| - 1];
      ReplayDeleteAll(c, d, init);
      ReplaySnoc(c, DeleteAll(d, init).recs, Tombstone(last));
      assert keys == init + [last];
      ElemsSnoc(init, last);
    }
  }

  // ---- what a patch and a rewrite do to the bytes ----

  /** Overwriting the twenty value bytes in place: the log becomes that of the patched records, the primary
      index stays a correct replay, and no length changes. */
  lemma PatchBytes(c: Codec, d: Disk, key: string, v: int64)
    requires Lawful(c) && Inv(d) && key in Contents(d.recs) && Patchable(Contents(d.recs)[key])
    ensures LastIndex(d.recs, key) >= 0 && key in Replay(c, d.recs)
    ensures var log, at := Render(c, d.recs), Replay(c, d.recs)[key].off + ValueStart(c, key);
      && at + COUNTER_WIDTH <= |log|
      && Render(c, Patch(d, key, v).recs) == log[..at] + Format(v) + log[at + COUNTER_WIDTH..]
    ensures Replay(c, Patch(d, key, v).recs) == Replay(c, d.recs)
    ensures Inv(Patch(d, key, v))
  {
    ReplayMirrors(c, d.recs, key);
    var i := LastIndex(d.recs, key);
    var r := d.recs[i];
    PatchGrows(c, d, key, v);
    ViewPatch(c, d, key, v);
    PatchedCounter(c, key, r.value, Format(v), r.exp);
    RenderPatch(c, d.recs, i, Patch(d, key, v).recs[i], ValueStart(c, key), Format(v));
  }

  /** Overwrites the twenty value bytes of a counter's record.  The length check and the pattern search that
      guard this path always succeed, so the append that stands behind them is never taken. */
  method PatchLog(c: Codec, log: string, e: PkEntry, r: Record, next: int64, ghost d: Disk) returns (log': string)
    requires Lawful(c) && Inv(d) && log == Render(c, d.recs)
    requires r.key in Replay(c, d.recs) && e == Replay(c, d.recs)[r.key]
    requires r.key in Contents(d.recs) && r == Contents(d.recs)[r.key] && Patchable(r)
    ensures LastIndex(d.recs, r.key) >= 0
    ensures log' == Render(c, Patch(d, r.key, next).recs) && |log'| == |log|
  {
    EntryIsLatestLine(c, d.recs, r.key);
    PatchBytes(c, d, r.key, next);
    assert |e.ix| == 0 && |c.enc(r)| + 1 == e.n;
    var at := LocateValue(c, r.key, r.value, r.exp);
    var text := FormatCounter(next);
    log' := log[..e.off + at] + text + log[e.off + at + |text|..];
  }

  /** A partial rewrite: its bytes, its index and its blob file are those of the keys visited so far. */
  ghost predicate Built(cfg: Config, d: Disk, relieve: bool, ks: seq<string>, now: int, log: string, idx: Pk,
      blob: string) {
    var rw := Rewrite(cfg, d, relieve, ks, now);
    log == Render(cfg.codec, rw.recs) && idx == Replay(cfg.codec, rw.recs) && blob == rw.blob
  }

  lemma BuiltNext(cfg: Config, d: Disk, relieve: bool, ks: seq<string>, now: int, log: string, idx: Pk,
      blob: string, k: string)
    requires Built(cfg, d, relieve, ks, now, log, idx, blob) && k in Contents(d.recs)
    ensures var r := Contents(d.recs)[k];
      var one := Transform(cfg, d, relieve, r, blob);
      var r' := one.recs[0];
      if ExpiredAt(r.exp, now) then Built(cfg, d, relieve, ks + [k], now, log, idx, blob)
      else
        Built(cfg, d, relieve, ks + [k], now, log + Line(cfg.codec, r'),
          idx[k := PkEntry(|log|, |Line(cfg.codec, r')|, r'.ix, r'.exp)], one.blob)
  {
    RewriteSnoc(cfg, d, relieve, ks, k, now);
    var r, rw := Contents(d.recs)[k], Rewrite(cfg, d, relieve, ks, now);
    ContentsAreRecords(d.recs, k);
    var r' := Transform(cfg, d, relieve, r, blob).recs[0];
    RenderSnoc(cfg.codec, rw.recs, r');
    ReplaySnoc(cfg.codec, rw.recs, r');
  }

  /** Liveness read off the primary entry is liveness of the contents. */
  lemma VisibleByEntry(c: Codec, d: Disk, now: int, k: string)
    ensures k in Visible(d, now) <==> k in Replay(c, d.recs) && !ExpiredAt(Replay(c, d.recs)[k].exp, now)
  {
    ReplayMirrors(c, d.recs, k);
  }

  lemma PrefixAnswerIsVisible(c: Codec, d: Disk, now: int, prefix: string, run: seq<string>, alive: seq<string>)
    requires run == SortedKeys(KeysWithPrefix(Replay(c, d.recs).Keys, prefix)) && Ascending(alive)
    requires forall k :: k in alive <==>
      k in run && k in Replay(c, d.recs) && !ExpiredAt(Replay(c, d.recs)[k].exp, now)
    ensures alive == SortedKeys(KeysWithPrefix(Visible(d, now).Keys, prefix))
  {
    var want := KeysWithPrefix(Visible(d, now).Keys, prefix);
    forall k
      ensures k in Elems(alive) <==> k in want
    {
      assert k in run <==> k in Elems(run);
      VisibleByEntry(c, d, now, k);
    }
    AscendingUnique(alive, SortedKeys(want));
  }

  lemma EntriesFit(cfg: Config, pk: Pk, sec: Sec, name: string)
    requires name in cfg.defs && name in sec && SecMatchesOne(cfg, pk, sec, name)
    ensures forall i :: 0 <= i < |sec[name]| ==> Fits(cfg.defs[name].kind, sec[name][i].val)
  {
    forall i | 0 <= i < |sec[name]|
      ensures Fits(cfg.defs[name].kind, sec[name][i].val)
    {
      assert sec[name][i] in Elems(sec[name]);
      SecOfMember(pk, name, cfg.defs[name].kind, sec[name][i]);
    }
  }

  /** A prefix query without a limit, read off the contents. */
  lemma PrefixByContents(cfg: Config, recs: seq<Record>, sec: Sec, name: string, prefix: string, k: string)
    requires name in cfg.defs && name in sec && cfg.defs[name].kind == KindString
    requires SecMatchesOne(cfg, Replay(cfg.codec, recs), sec, name)
    ensures k in PrefixAnswer(sec[name], prefix, 0) <==>
      && k in Contents(recs) && name in Contents(recs)[k].ix
      && Contents(recs)[k].ix[name].Str? && HasPrefix(Contents(recs)[k].ix[name].s, prefix)
  {
    var es := sec[name];
    PrefixFindsAll(es, prefix, k);
    forall v: string
      ensures Entry(Str(v), k) in es <==>
        k in Contents(recs) && name in Contents(recs)[k].ix && Contents(recs)[k].ix[name] == Str(v)
    {
      assert Entry(Str(v), k) in es <==> Entry(Str(v), k) in Elems(es);
      SecOfContents(cfg.codec, recs, name, KindString, Entry(Str(v), k));
    }
    if k in Contents(recs) && name in Contents(recs)[k].ix && Contents(recs)[k].ix[name].Str? {
      var v := Contents(recs)[k].ix[name].s;
      assert Contents(recs)[k].ix[name] == Str(v);
      assert Entry(Str(v), k) in es;
    }
  }
}

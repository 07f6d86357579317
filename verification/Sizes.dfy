/** Live bytes against file sizes, for the log and for the blob files. */
module Sizes {
  import opened Text
  import opened Wrappers
  import opened CounterCodec
  import opened SecIndex
  import opened Records
  import opened MainLog
  import opened LogIndex
  import opened Engine
  import opened EngineInv
  import opened EngineView

  /** The sum of a table of sizes. */
  ghost function Total(m: map<string, nat>): nat
    decreases |m|
  {
    if m == map[] then 0
    else
      var k := Least(m.Keys);
      assert (m - {k}).Keys == m.Keys - {k};
      m[k] + Total(m - {k})
  }

  /** Any key may be taken out first. */
  lemma {:induction false} TotalMinus(m: map<string, nat>, k: string)
    requires k in m
    ensures Total(m) == m[k] + Total(m - {k})
    decreases |m|
  {
    var j := Least(m.Keys);
    if j != k {
      var rest := m - {j};
      assert rest.Keys == m.Keys - {j};
      TotalMinus(rest, k);
      var less := m - {k};
      assert less.Keys == m.Keys - {k};
      assert less - {j} == rest - {k};
      TotalMinus(less, j);
    }
  }

  lemma TotalPut(m: map<string, nat>, k: string, n: nat)
    ensures Total(m[k := n]) == n + Total(m - {k})
    ensures Total(m - {k}) <= Total(m)
    ensures k !in m ==> m - {k} == m
  {
    TotalMinus(m[k := n], k);
    assert m[k := n] - {k} == m - {k};
    if k in m {
      TotalMinus(m, k);
    } else {
      assert m - {k} == m;
    }
  }

  ghost function LineSizes(pk: Pk): map<string, nat> {
    map k | k in pk :: pk[k].n
  }

  /** The bytes of the live record lines. */
  ghost function LiveBytes(pk: Pk): nat {
    Total(LineSizes(pk))
  }

  lemma LiveBytesStep(pk: Pk, r: Record, off: nat, n: nat)
    ensures LiveBytes(ApplyPk(pk, r, off, n)) <= LiveBytes(pk) + n
    ensures !r.deleted && r.key !in pk ==> LiveBytes(ApplyPk(pk, r, off, n)) == LiveBytes(pk) + n
  {
    var m := LineSizes(pk);
    TotalPut(m, r.key, n);
    if r.deleted {
      assert LineSizes(pk - {r.key}) == m - {r.key};
    } else {
      assert LineSizes(pk[r.key := PkEntry(off, n, r.ix, r.exp)]) == m[r.key := n];
    }
  }

  /** No key twice and no tombstone. */
  ghost predicate AllLive(recs: seq<Record>) {
    forall i :: 0 <= i < |recs| ==> !recs[i].deleted && forall j :: 0 <= j < i ==> recs[j].key != recs[i].key
  }

  /** Live bytes never exceed the log, and equal it when the log holds each live record once and nothing else. */
  lemma {:induction false} LiveWithinLog(c: Codec, recs: seq<Record>)
    ensures LiveBytes(Replay(c, recs)) <= |Render(c, recs)|
    ensures AllLive(recs) ==> LiveBytes(Replay(c, recs)) == |Render(c, recs)|
    decreases |recs|
  {
    if recs == [] {
      assert LineSizes(map[]) == map[];
    } else {
      var init, last := recs[..|recs| - 1], recs[|recs| - 1];
      LiveWithinLog(c, init);
      LiveBytesStep(Replay(c, init), last, |Render(c, init)|, |Line(c, last)|);
      if AllLive(recs) {
        assert AllLive(init);
        ReplayMirrors(c, init, last.key);
      }
    }
  }

  ghost function RefSizes(m: map<string, Record>): map<string, nat> {
    map k | k in m :: if m[k].blob.Some? then m[k].blob.value.size else 0
  }

  /** The blob bytes that live records refer to. */
  ghost function LiveBlobBytes(recs: seq<Record>): nat {
    Total(RefSizes(Contents(recs)))
  }

  lemma {:induction false} LiveRefs(recs: seq<Record>)
    requires AllLive(recs)
    ensures LiveBlobBytes(recs) == TotalRefs(recs)
    decreases |recs|
  {
    if recs == [] {
      assert RefSizes(map[]) == map[];
    } else {
      var init, last := recs[..|recs| - 1], recs[|recs| - 1];
      assert AllLive(init);
      LiveRefs(init);
      LastKeyIsNew(init, last);
      LiveRefsStep(Contents(init), last);
    }
  }

  lemma LastKeyIsNew(init: seq<Record>, last: Record)
    requires forall j :: 0 <= j < |init| ==> init[j].key != last.key
    ensures last.key !in Contents(init)
  {
    if last.key in Contents(init) {
      ContentsAreRecords(init, last.key);
    }
  }

  lemma LiveRefsStep(m: map<string, Record>, r: Record)
    requires r.key !in m
    ensures Total(RefSizes(m[r.key := r])) == Total(RefSizes(m)) + if r.blob.Some? then r.blob.value.size else 0
  {
    var n := if r.blob.Some? then r.blob.value.size else 0;
    TotalPut(RefSizes(m), r.key, n);
    assert RefSizes(m[r.key := r]) == RefSizes(m)[r.key := n];
  }

  /** A rewritten log holds each live record once, in key order, and nothing else. */
  lemma {:induction false} RewriteIsAllLive(cfg: Config, d: Disk, relieve: bool, ks: seq<string>, now: int)
    requires Inv(d) && Ascending(ks)
    ensures var rw := Rewrite(cfg, d, relieve, ks, now);
      AllLive(rw.recs) && forall i :: 0 <= i < |rw.recs| ==> rw.recs[i].key in ks
    decreases |ks|
  {
    if ks != [] {
      var init, k := ks[..|ks| - 1], ks[|ks| - 1];
      assert ks == init + [k];
      RewriteIsAllLive(cfg, d, relieve, init, now);
      LtIrreflexive(k);
      assert k !in init;
      var m := Contents(d.recs);
      if k in m && !ExpiredAt(m[k].exp, now) {
        ContentsAreRecords(d.recs, k);
      }
    }
  }

  /** After a compaction the log is exactly its live bytes. */
  lemma CompactLeavesNoDeadBytes(cfg: Config, d: Disk, now: int)
    requires Inv(d)
    ensures var d' := Compact(cfg, d, now);
      LiveBytes(Replay(cfg.codec, d'.recs)) == |Render(cfg.codec, d'.recs)|
  {
    LiveKeysAreAll(d);
    RewriteIsAllLive(cfg, d, false, LiveKeys(d), now);
    LiveWithinLog(cfg.codec, Compact(cfg, d, now).recs);
  }

  /** After a relieve there is one blob file, and every byte of it belongs to a live record. */
  lemma RelieveLeavesNoOrphans(cfg: Config, d: Disk, now: int)
    requires Inv(d)
    ensures var d' := Relieve(cfg, d, now);
      && d'.blobs.Keys == {d'.curGen}
      && |d'.blobs[d'.curGen]| == LiveBlobBytes(d'.recs)
      && LiveBytes(Replay(cfg.codec, d'.recs)) == |Render(cfg.codec, d'.recs)|
  {
    LiveKeysAreAll(d);
    RelieveKeepsInv(cfg, d, now);
    RewriteIsAllLive(cfg, d, true, LiveKeys(d), now);
    LiveRefs(Relieve(cfg, d, now).recs);
    LiveWithinLog(cfg.codec, Relieve(cfg, d, now).recs);
  }

  /** Adds up the live line lengths by walking the index. */
  method SumLines(pk: Pk) returns (n: nat)
    ensures n == LiveBytes(pk)
  {
    var rest := pk;
    n := 0;
    while rest != map[]
      invariant n + LiveBytes(rest) == LiveBytes(pk)
      invariant forall k :: k in rest ==> k in pk && rest[k] == pk[k]
      decreases |rest|
    {
      var k :| k in rest;
      TotalMinus(LineSizes(rest), k);
      assert LineSizes(rest) - {k} == LineSizes(rest - {k});
      assert (rest - {k}).Keys == rest.Keys - {k};
      n := n + rest[k].n;
      rest := rest - {k};
    }
    assert LineSizes(map[]) == map[];
  }
}

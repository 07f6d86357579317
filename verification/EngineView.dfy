/** What readers see, and that it does not depend on how the log came about. */
module EngineView {
  import opened Text
  import opened Wrappers
  import opened CounterCodec
  import opened CounterSteps
  import opened SecIndex
  import opened Records
  import opened MainLog
  import opened LogIndex
  import opened Engine
  import opened EngineInv

  /** A key's value, whether it counts as a counter, and its expiry; a counter is never a blob. */
  datatype Content = Content(value: string, counter: bool, exp: int)

  function ContentOf(blobs: Blobs, r: Record): Content {
    Content(if r.blob.Some? then ReadBlob(blobs, r.blob.value) else r.value, r.counter && r.blob.None?, r.exp)
  }

  /** All keys with their contents, expired ones included. */
  ghost function View(d: Disk): map<string, Content> {
    var m := Contents(d.recs);
    map k | k in m :: ContentOf(d.blobs, m[k])
  }

  /** The keys still alive at `now`. */
  function Alive(m: map<string, Content>, now: int): map<string, Content> {
    map k | k in m && !ExpiredAt(m[k].exp, now) :: m[k]
  }

  /** What reads at `now` report. */
  ghost function Visible(d: Disk, now: int): map<string, Content> {
    Alive(View(d), now)
  }

  lemma AliveLater(m: map<string, Content>, now: int, later: int)
    requires now <= later
    ensures Alive(Alive(m, now), later) == Alive(m, later)
  {
  }

  // ---- the effect of each operation on the view ----

  lemma GrownBlobsSameContent(before: Blobs, after: Blobs, r: Record)
    requires RefInside(before, r) && BlobsGrow(before, after)
    ensures ContentOf(after, r) == ContentOf(before, r)
  {
  }

  lemma ContentsInside(d: Disk, k: string)
    requires Inv(d) && k in Contents(d.recs)
    ensures RefInside(d.blobs, Contents(d.recs)[k])
    ensures Contents(d.recs)[k].key == k && !Contents(d.recs)[k].deleted
  {
    ContentsAreRecords(d.recs, k);
    var i :| 0 <= i < |d.recs| && d.recs[i] == Contents(d.recs)[k];
    assert RefInside(d.blobs, d.recs[i]);
  }

  lemma ViewAppend(cfg: Config, d: Disk, key: string, value: string, ix: IX, exp: int, counter: bool)
    requires Inv(d)
    ensures View(Append(cfg, d, key, value, ix, exp, counter)) == View(d)[key := Content(value, counter, exp)]
  {
    var d' := Append(cfg, d, key, value, ix, exp, counter);
    var r := NewRecord(cfg, d, key, value, ix, exp, counter);
    ContentsSnoc(d.recs, r);
    assert ContentOf(d'.blobs, r) == Content(value, counter, exp);
    var m := Contents(d.recs);
    forall k | k in m
      ensures ContentOf(d'.blobs, m[k]) == ContentOf(d.blobs, m[k])
    {
      ContentsInside(d, k);
      GrownBlobsSameContent(d.blobs, d'.blobs, m[k]);
    }
  }

  lemma ViewDelete(d: Disk, key: string)
    ensures View(Delete(d, key)) == View(d) - {key}
  {
    ContentsSnoc(d.recs, Tombstone(key));
  }

  lemma {:induction false} ContentsDeleteAll(d: Disk, keys: seq<string>)
    ensures Contents(DeleteAll(d, keys).recs) == Contents(d.recs) - Elems(keys)
    ensures DeleteAll(d, keys).blobs == d.blobs && DeleteAll(d, keys).curGen == d.curGen
    decreases |keys|
  {
    if keys == [] {
      assert Elems(keys) == {};
    } else {
      var init, last := keys[..|keys| - 1], keys[|keys| - 1];
      ContentsDeleteAll(d, init);
      ContentsSnoc(DeleteAll(d, init).recs, Tombstone(last));
      assert keys == init + [last];
      ElemsSnoc(init, last);
      assert (Contents(d.recs) - Elems(init)) - {last} == Contents(d.recs) - Elems(keys);
    }
  }

  lemma ViewDeleteAll(d: Disk, keys: seq<string>)
    ensures View(DeleteAll(d, keys)) == View(d) - Elems(keys)
  {
    ContentsDeleteAll(d, keys);
  }

  lemma ViewPatch(c: Codec, d: Disk, key: string, v: int64)
    requires Lawful(c) && Inv(d) && key in Contents(d.recs) && Patchable(Contents(d.recs)[key])
    ensures LastIndex(d.recs, key) >= 0
    ensures View(Patch(d, key, v)) == View(d)[key := Content(Format(v), true, Contents(d.recs)[key].exp)]
    ensures Replay(c, Patch(d, key, v).recs) == Replay(c, d.recs)
  {
    ReplayMirrors(c, d.recs, key);
    var i := LastIndex(d.recs, key);
    PatchGrows(c, d, key, v);
    PatchLatest(c, d.recs, i, Patch(d, key, v).recs[i]);
  }

  /** The in-place patch shows readers what appending the new value with the old expiry would, at the cost of
      no log growth. */
  lemma PatchRefinesAppend(cfg: Config, d: Disk, key: string, v: int64)
    requires Lawful(cfg.codec) && Inv(d) && key in Contents(d.recs) && Patchable(Contents(d.recs)[key])
    ensures LastIndex(d.recs, key) >= 0
    ensures View(Patch(d, key, v)) == View(Append(cfg, d, key, Format(v), map[], Contents(d.recs)[key].exp, true))
    ensures |Render(cfg.codec, Patch(d, key, v).recs)| == |Render(cfg.codec, d.recs)|
  {
    ViewPatch(cfg.codec, d, key, v);
    ViewAppend(cfg, d, key, Format(v), map[], Contents(d.recs)[key].exp, true);
    ReplayMirrors(cfg.codec, d.recs, key);
    PatchGrows(cfg.codec, d, key, v);
    SameShapeReplay(cfg.codec, map[], 0, d.recs, Patch(d, key, v).recs);
  }

  /** Writing a live counter back, in place or, if it carries index values, by appending, shows the new value. */
  lemma ViewCounted(cfg: Config, d: Disk, key: string, v: int64)
    requires Lawful(cfg.codec) && Inv(d) && key in Contents(d.recs)
    requires var r := Contents(d.recs)[key]; r.counter && r.blob.None? && CounterText(r.value)
    ensures LastIndex(d.recs, key) >= 0
    ensures var r := Contents(d.recs)[key];
      View(if r.ix == map[] then Patch(d, key, v) else Append(cfg, d, key, Format(v), map[], r.exp, true)) ==
      View(d)[key := Content(Format(v), true, r.exp)]
  {
    var r := Contents(d.recs)[key];
    ReplayMirrors(cfg.codec, d.recs, key);
    ContentsInside(d, key);
    if r.ix == map[] {
      ViewPatch(cfg.codec, d, key, v);
    } else {
      ViewAppend(cfg, d, key, Format(v), map[], r.exp, true);
    }
  }

  // ---- compaction ----

  ghost function FilesAfter(d: Disk, relieve: bool, rw: Rewritten): Blobs {
    if relieve then map[d.curGen + 1 := rw.blob] else d.blobs
  }

  /** The values of declared and of soft-dropped indexes are kept as they are, and no others. */
  ghost predicate KeepsKnown(cfg: Config, before: IX, after: IX) {
    forall name ::
      && (name in after <==> name in before && (name in cfg.defs || name in cfg.dropped))
      && (name in after ==> after[name] == before[name])
  }

  /** The record of `k` after a rewrite carries what it carried before. */
  ghost predicate Carried(cfg: Config, d: Disk, relieve: bool, rw: Rewritten, k: string) {
    var m, m', files := Contents(d.recs), Contents(rw.recs), FilesAfter(d, relieve, rw);
    && k in m && k in m'
    && ContentOf(files, m'[k]) == ContentOf(d.blobs, m[k])
    && KeepsKnown(cfg, m[k].ix, m'[k].ix)
    && RefInside(files, m'[k])
  }

  ghost predicate Kept(d: Disk, ks: seq<string>, now: int, k: string) {
    k in ks && k in Contents(d.recs) && !ExpiredAt(Contents(d.recs)[k].exp, now)
  }

  lemma {:induction false} RewriteCarries(cfg: Config, d: Disk, relieve: bool, ks: seq<string>, now: int, k: string)
    requires Inv(d) && Ascending(ks)
    ensures var rw := Rewrite(cfg, d, relieve, ks, now);
      && (k in Contents(rw.recs) <==> Kept(d, ks, now, k))
      && (Kept(d, ks, now, k) ==> Carried(cfg, d, relieve, rw, k))
    decreases |ks|
  {
    if ks != [] {
      var init, last := ks[..|ks| - 1], ks[|ks| - 1];
      assert ks == init + [last];
      RewriteCarries(cfg, d, relieve, init, now, k);
      LtIrreflexive(last);
      assert last !in init;
      var m := Contents(d.recs);
      if last in m && !ExpiredAt(m[last].exp, now) {
        CarryOne(cfg, d, relieve, Rewrite(cfg, d, relieve, init, now), last, k);
      }
    }
  }

  lemma CarryOne(cfg: Config, d: Disk, relieve: bool, before: Rewritten, last: string, k: string)
    requires Inv(d) && last in Contents(d.recs)
    requires k in Contents(before.recs) ==> Carried(cfg, d, relieve, before, k)
    ensures var one := Transform(cfg, d, relieve, Contents(d.recs)[last], before.blob);
      var after := Rewritten(before.recs + one.recs, one.blob);
      && (k in Contents(after.recs) <==> k == last || k in Contents(before.recs))
      && (k == last || k in Contents(before.recs) ==> Carried(cfg, d, relieve, after, k))
  {
    ContentsAreRecords(d.recs, last);
    var one := Transform(cfg, d, relieve, Contents(d.recs)[last], before.blob);
    var after := Rewritten(before.recs + one.recs, one.blob);
    assert one.recs == [one.recs[0]] && one.recs[0].key == last && !one.recs[0].deleted;
    ContentsSnoc(before.recs, one.recs[0]);
    if k == last {
      CarryLast(cfg, d, relieve, before.blob, last);
      assert FilesAfter(d, relieve, after) == FilesAfter(d, relieve, Rewritten(one.recs, one.blob));
    } else if k in Contents(before.recs) {
      CarryBefore(cfg, d, relieve, before, after, k);
    }
  }

  /** The record just rewritten. */
  lemma CarryLast(cfg: Config, d: Disk, relieve: bool, blob: string, last: string)
    requires Inv(d) && last in Contents(d.recs)
    ensures var r := Contents(d.recs)[last];
      var one := Transform(cfg, d, relieve, r, blob);
      var files := FilesAfter(d, relieve, Rewritten(one.recs, one.blob));
      && |one.recs| == 1 && KeepsKnown(cfg, r.ix, one.recs[0].ix)
      && ContentOf(files, one.recs[0]) == ContentOf(d.blobs, r) && RefInside(files, one.recs[0])
  {
    ContentsInside(d, last);
    var r := Contents(d.recs)[last];
    var one := Transform(cfg, d, relieve, r, blob);
    if relieve && r.blob.Some? {
      assert one.blob[|blob|..|one.blob|] == ReadBlob(d.blobs, r.blob.value);
    }
  }

  /** A record rewritten earlier is not touched, and its blob only gets company. */
  lemma CarryBefore(cfg: Config, d: Disk, relieve: bool, before: Rewritten, after: Rewritten, k: string)
    requires Carried(cfg, d, relieve, before, k) && before.blob <= after.blob
    requires k in Contents(after.recs) && Contents(after.recs)[k] == Contents(before.recs)[k]
    ensures Carried(cfg, d, relieve, after, k)
  {
    var files, files' := FilesAfter(d, relieve, before), FilesAfter(d, relieve, after);
    assert BlobsGrow(files, files');
    GrownBlobsSameContent(files, files', Contents(before.recs)[k]);
  }

  /** Both rewrites keep every unexpired key with its value, flag and expiry, and nothing else. */
  lemma RewritesKeepVisible(cfg: Config, d: Disk, now: int)
    requires Inv(d)
    ensures View(Compact(cfg, d, now)) == Visible(d, now)
    ensures View(Relieve(cfg, d, now)) == Visible(d, now)
  {
    RewriteKeepsVisible(cfg, d, false, now);
    SameFilesSameView(Compact(cfg, d, now), 0);
    RewriteKeepsVisible(cfg, d, true, now);
    SameFilesSameView(Relieve(cfg, d, now), 0);
  }

  lemma SameFilesSameView(d: Disk, gen: nat)
    ensures View(Disk(d.recs, d.blobs, gen)) == View(d)
  {
  }

  lemma RewriteKeepsVisible(cfg: Config, d: Disk, relieve: bool, now: int)
    requires Inv(d)
    ensures var rw := Rewrite(cfg, d, relieve, LiveKeys(d), now);
      View(Disk(rw.recs, FilesAfter(d, relieve, rw), 0)) == Visible(d, now)
  {
    var rw := Rewrite(cfg, d, relieve, LiveKeys(d), now);
    var d' := Disk(rw.recs, FilesAfter(d, relieve, rw), 0);
    var a, b := View(d'), Visible(d, now);
    forall k
      ensures k in a <==> k in b
      ensures k in a ==> a[k] == b[k]
    {
      VisibleAfterRewrite(cfg, d, relieve, now, rw, k);
    }
    assert a.Keys == b.Keys;
  }

  lemma VisibleAfterRewrite(cfg: Config, d: Disk, relieve: bool, now: int, rw: Rewritten, k: string)
    requires Inv(d) && rw == Rewrite(cfg, d, relieve, LiveKeys(d), now)
    ensures var a, b := View(Disk(rw.recs, FilesAfter(d, relieve, rw), 0)), Visible(d, now);
      (k in a <==> k in b) && (k in a ==> a[k] == b[k])
  {
    LiveKeysAreAll(d);
    RewriteCarries(cfg, d, relieve, LiveKeys(d), now, k);
  }

  lemma LiveKeysAreAll(d: Disk)
    ensures Ascending(LiveKeys(d))
    ensures forall k :: k in LiveKeys(d) <==> k in Contents(d.recs)
  {
    assert forall k :: k in LiveKeys(d) <==> k in Elems(LiveKeys(d));
  }

  /** Membership in a secondary index, read off the contents. */
  lemma SecOfContents(c: Codec, recs: seq<Record>, name: string, kind: Kind, x: Entry)
    ensures x in SecOf(Replay(c, recs), name, kind) <==>
            x.pk in Contents(recs) && name in Contents(recs)[x.pk].ix
            && Contents(recs)[x.pk].ix[name] == x.val && Fits(kind, x.val)
  {
    SecOfMember(Replay(c, recs), name, kind, x);
    ReplayMirrors(c, recs, x.pk);
  }

  /** After a rewrite an index that is declared, or soft-dropped and declared again later, holds what it held, minus
      the entries of expired keys. */
  lemma RewriteKeepsIndex(cfg: Config, d: Disk, relieve: bool, now: int, name: string, kind: Kind, x: Entry)
    requires Inv(d) && (name in cfg.defs || name in cfg.dropped)
    ensures var rw := Rewrite(cfg, d, relieve, LiveKeys(d), now);
      x in SecOf(Replay(cfg.codec, rw.recs), name, kind) <==>
      x in SecOf(Replay(cfg.codec, d.recs), name, kind)
      && x.pk in Contents(d.recs) && !ExpiredAt(Contents(d.recs)[x.pk].exp, now)
  {
    var rw := Rewrite(cfg, d, relieve, LiveKeys(d), now);
    SecOfContents(cfg.codec, rw.recs, name, kind, x);
    SecOfContents(cfg.codec, d.recs, name, kind, x);
    RewriteCarries(cfg, d, relieve, LiveKeys(d), now, x.pk);
    LiveKeysAreAll(d);
  }
}

/** What a log means: the latest record of each key, and the indexes a full replay derives. */
module LogIndex {
  import opened Text
  import opened CounterCodec
  import opened SecIndex
  import opened Records
  import opened MainLog

  /** Where a key's latest record lies, with its index values and expiry. */
  datatype PkEntry = PkEntry(off: nat, n: nat, ix: IX, exp: int)

  type Pk = map<string, PkEntry>

  predicate ExpiredAt(exp: int, now: int) {
    exp != 0 && exp <= now
  }

  /** One replayed record. */
  function ApplyPk(pk: Pk, r: Record, off: nat, n: nat): Pk {
    if r.deleted then pk - {r.key} else pk[r.key := PkEntry(off, n, r.ix, r.exp)]
  }

  /** Replaying `recs`, found at byte `off`, over an index. */
  ghost function ReplayOn(c: Codec, pk: Pk, off: nat, recs: seq<Record>): Pk {
    if recs == [] then pk
    else
      var init, last := recs[..|recs| - 1], recs[|recs| - 1];
      ApplyPk(ReplayOn(c, pk, off, init), last, off + |Render(c, init)|, |Line(c, last)|)
  }

  /** Replaying scanned lines where they lie. */
  ghost function ReplayLines(pk: Pk, lines: seq<Placed>): Pk {
    if lines == [] then pk
    else
      var last := lines[|lines| - 1];
      ApplyPk(ReplayLines(pk, lines[..|lines| - 1]), last.rec, last.off, last.n)
  }

  lemma {:induction false} ReplayPlaced(c: Codec, pk: Pk, off: nat, recs: seq<Record>)
    ensures ReplayLines(pk, PlacedAt(c, off, recs)) == ReplayOn(c, pk, off, recs)
    decreases |recs|
  {
    if recs != [] {
      var init := recs[..|recs| - 1];
      ReplayPlaced(c, pk, off, init);
      assert forall i :: 0 <= i < |init| ==> recs[..i] == init[..i];
      assert PlacedAt(c, off, recs)[..|recs| - 1] == PlacedAt(c, off, init);
    }
  }

  /** The entry of a replayed line. */
  predicate EntryOf(e: PkEntry, k: string, p: Placed) {
    p.rec.key == k && !p.rec.deleted && e == PkEntry(p.off, p.n, p.rec.ix, p.rec.exp)
  }

  /** Every entry was there before or is that of a replayed line. */
  lemma {:induction false} ReplayedFrom(pk: Pk, lines: seq<Placed>, k: string)
    requires k in ReplayLines(pk, lines)
    ensures var e := ReplayLines(pk, lines)[k];
      (k in pk && e == pk[k]) || exists p :: p in lines && EntryOf(e, k, p)
    decreases |lines|
  {
    if lines != [] {
      var init, last := lines[..|lines| - 1], lines[|lines| - 1];
      assert lines == init + [last];
      if last.rec.key == k {
        assert EntryOf(ReplayLines(pk, lines)[k], k, last);
      } else {
        ReplayedFrom(pk, init, k);
      }
    }
  }

  /** The primary index a full scan builds. */
  ghost function Replay(c: Codec, recs: seq<Record>): Pk {
    ReplayOn(c, map[], 0, recs)
  }

  /** The store's logical contents: last writer wins. */
  ghost function Contents(recs: seq<Record>): map<string, Record> {
    if recs == [] then map[]
    else
      var m, last := Contents(recs[..|recs| - 1]), recs[|recs| - 1];
      if last.deleted then m - {last.key} else m[last.key := last]
  }

  ghost function LastIndex(recs: seq<Record>, key: string): (i: int)
    ensures -1 <= i < |recs|
    ensures i >= 0 ==> recs[i].key == key
    ensures forall j :: i < j < |recs| ==> recs[j].key != key
  {
    if recs == [] then -1
    else if recs[|recs| - 1].key == key then |recs| - 1
    else LastIndex(recs[..|recs| - 1], key)
  }

  lemma ReplaySnoc(c: Codec, recs: seq<Record>, r: Record)
    ensures Replay(c, recs + [r]) == ApplyPk(Replay(c, recs), r, |Render(c, recs)|, |Line(c, r)|)
  {
    assert (recs + [r])[..|recs|] == recs;
  }

  lemma ContentsSnoc(recs: seq<Record>, r: Record)
    ensures Contents(recs + [r]) == if r.deleted then Contents(recs) - {r.key} else Contents(recs)[r.key := r]
  {
    assert (recs + [r])[..|recs|] == recs;
  }

  /** Replaying in two parts is replaying once. */
  lemma {:induction false} ReplayConcat(c: Codec, pk: Pk, off: nat, a: seq<Record>, b: seq<Record>)
    ensures ReplayOn(c, ReplayOn(c, pk, off, a), off + |Render(c, a)|, b) == ReplayOn(c, pk, off, a + b)
    decreases |b|
  {
    if b == [] {
      assert a + b == a;
    } else {
      var init, last := b[..|b| - 1], b[|b| - 1];
      ReplayConcat(c, pk, off, a, init);
      RenderConcat(c, a, init);
      assert (a + b)[..|a + b| - 1] == a + init;
    }
  }

  /** What an entry of the replayed index is: the place, length, index values and expiry of the key's
      latest record, which is also its logical content. */
  ghost predicate Mirrors(c: Codec, recs: seq<Record>, pk: Pk, k: string) {
    var i := LastIndex(recs, k);
    && (k in pk <==> i >= 0 && !recs[i].deleted)
    && (k in pk <==> k in Contents(recs))
    && (k in pk ==>
          && recs[i] == Contents(recs)[k]
          && pk[k] == PkEntry(Offset(c, recs, i), |Line(c, recs[i])|, recs[i].ix, recs[i].exp))
  }

  lemma {:induction false} ReplayMirrors(c: Codec, recs: seq<Record>, k: string)
    ensures Mirrors(c, recs, Replay(c, recs), k)
    decreases |recs|
  {
    if recs != [] {
      var init, last := recs[..|recs| - 1], recs[|recs| - 1];
      ReplayMirrors(c, init, k);
      if last.key == k {
        assert recs[..|recs| - 1] == init;
      } else {
        var i := LastIndex(init, k);
        if i >= 0 {
          assert recs[..i] == init[..i];
        }
      }
    }
  }

  /** Each entry's byte range in the log is exactly the line of that key's current record. */
  lemma EntryIsLatestLine(c: Codec, recs: seq<Record>, k: string)
    requires k in Replay(c, recs)
    ensures k in Contents(recs) && Contents(recs)[k].key == k && !Contents(recs)[k].deleted
    ensures var e := Replay(c, recs)[k];
      && e.off + e.n <= |Render(c, recs)|
      && Render(c, recs)[e.off..e.off + e.n] == Line(c, Contents(recs)[k])
      && e.ix == Contents(recs)[k].ix && e.exp == Contents(recs)[k].exp
  {
    ReplayMirrors(c, recs, k);
    LineAt(c, recs, LastIndex(recs, k));
  }

  lemma ReplayKeys(c: Codec, recs: seq<Record>)
    ensures Replay(c, recs).Keys == Contents(recs).Keys
  {
    forall k
      ensures k in Replay(c, recs) <==> k in Contents(recs)
    {
      ReplayMirrors(c, recs, k);
    }
  }

  lemma {:induction false} ContentsAreRecords(recs: seq<Record>, k: string)
    requires k in Contents(recs)
    ensures Contents(recs)[k] in recs && Contents(recs)[k].key == k && !Contents(recs)[k].deleted
    decreases |recs|
  {
    var init, last := recs[..|recs| - 1], recs[|recs| - 1];
    assert recs == init + [last];
    if last.key != k {
      ContentsAreRecords(init, k);
    }
  }

  // ---- in-place patches and appends ----

  /** Replaying cannot tell the two records apart. */
  predicate SameShape(c: Codec, a: Record, b: Record) {
    a.key == b.key && a.deleted == b.deleted && a.ix == b.ix && a.exp == b.exp && |c.enc(a)| == |c.enc(b)|
  }

  /** `after` is `before` with some records patched in place, then more records appended. */
  ghost predicate Extends(c: Codec, before: seq<Record>, after: seq<Record>) {
    |before| <= |after| && forall i :: 0 <= i < |before| ==> SameShape(c, before[i], after[i])
  }

  lemma {:induction false} SameShapeReplay(c: Codec, pk: Pk, off: nat, a: seq<Record>, b: seq<Record>)
    requires |a| == |b| && forall i :: 0 <= i < |a| ==> SameShape(c, a[i], b[i])
    ensures |Render(c, a)| == |Render(c, b)|
    ensures ReplayOn(c, pk, off, a) == ReplayOn(c, pk, off, b)
    decreases |a|
  {
    if a != [] {
      SameShapeReplay(c, pk, off, a[..|a| - 1], b[..|b| - 1]);
    }
  }

  /** Patching the latest record of a key changes that key's content and no index entry. */
  lemma {:induction false} PatchLatest(c: Codec, recs: seq<Record>, i: nat, r: Record)
    requires i < |recs| && SameShape(c, recs[i], r) && !r.deleted
    requires LastIndex(recs, r.key) == i
    ensures Replay(c, recs[i := r]) == Replay(c, recs)
    ensures Contents(recs[i := r]) == Contents(recs)[r.key := r]
    decreases |recs|
  {
    var recs' := recs[i := r];
    SameShapeReplay(c, map[], 0, recs, recs');
    var init, last := recs[..|recs| - 1], recs[|recs| - 1];
    if i == |recs| - 1 {
      assert recs'[..|recs| - 1] == init;
    } else {
      PatchLatest(c, init, i, r);
      assert recs'[..|recs| - 1] == init[i := r];
    }
  }

  // ---- secondary indexes ----

  /** The entries an index must hold: one per primary entry whose value fits the declared kind. */
  ghost function SecOf(pk: Pk, name: string, kind: Kind): set<Entry> {
    set k | k in pk && name in pk[k].ix && Fits(kind, pk[k].ix[name]) :: Entry(pk[k].ix[name], k)
  }

  /** Membership in an index, read off the primary entry. */
  lemma SecOfMember(pk: Pk, name: string, kind: Kind, x: Entry)
    ensures x in SecOf(pk, name, kind) <==>
            x.pk in pk && name in pk[x.pk].ix && pk[x.pk].ix[name] == x.val && Fits(kind, x.val)
  {
  }

  lemma SecOfRemove(pk: Pk, name: string, kind: Kind, key: string)
    ensures SecOf(pk - {key}, name, kind) ==
            if key in pk && name in pk[key].ix then SecOf(pk, name, kind) - {Entry(pk[key].ix[name], key)}
            else SecOf(pk, name, kind)
  {
    var pk' := pk - {key};
    forall x
      ensures x in SecOf(pk', name, kind) <==> x in SecOf(pk, name, kind) && x.pk != key
    {
      SecOfMember(pk, name, kind, x);
      SecOfMember(pk', name, kind, x);
    }
    forall x | x in SecOf(pk, name, kind) && x.pk == key
      ensures name in pk[key].ix && x == Entry(pk[key].ix[name], key)
    {
      SecOfMember(pk, name, kind, x);
    }
  }

  lemma SecOfPut(pk: Pk, name: string, kind: Kind, key: string, e: PkEntry)
    ensures SecOf(pk[key := e], name, kind) ==
            SecOf(pk - {key}, name, kind) +
            if name in e.ix && Fits(kind, e.ix[name]) then {Entry(e.ix[name], key)} else {}
  {
    var pk' := pk[key := e];
    forall x
      ensures x in SecOf(pk', name, kind) <==>
              x in SecOf(pk - {key}, name, kind)
              || (name in e.ix && Fits(kind, e.ix[name]) && x == Entry(e.ix[name], key))
    {
      SecOfMember(pk', name, kind, x);
      SecOfMember(pk - {key}, name, kind, x);
    }
  }
}

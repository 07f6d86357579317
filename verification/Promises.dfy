/** What each operation promises, said about records, bytes and clocks without the functions that define it. */
module Promises {
  import opened Text
  import opened Wrappers
  import opened CounterCodec
  import opened CounterSteps
  import opened SecIndex
  import opened Records
  import opened MainLog
  import opened LogIndex
  import opened Engine
  import opened EngineInv
  import opened EngineView
  import opened Caps
  import Ideal

  // ---- which values carry index values ----

  predicate IsSpace(ch: char) {
    ch == ' ' || ch == '\t' || ch == '\r' || ch == '\n'
  }

  /** The first character that is no white space is an opening brace. */
  ghost predicate OpensObject(value: string) {
    exists i: nat :: i < |value| && value[i] == '{' && forall j :: 0 <= j < i ==> IsSpace(value[j])
  }

  lemma {:induction false} IsObjectIff(value: string)
    ensures IsObject(value) <==> OpensObject(value)
  {
    if value != "" && value[0] in " \t\r\n" {
      var rest := value[1..];
      IsObjectIff(rest);
      if OpensObject(rest) {
        var i: nat :| i < |rest| && rest[i] == '{' && forall j :: 0 <= j < i ==> IsSpace(rest[j]);
        forall j | 0 <= j < i + 1
          ensures IsSpace(value[j])
        {
          assert j > 0 ==> value[j] == rest[j - 1];
        }
        assert value[i + 1] == '{';
      }
      if OpensObject(value) {
        var i: nat :| i < |value| && value[i] == '{' && forall j :: 0 <= j < i ==> IsSpace(value[j]);
        assert i > 0 && rest[i - 1] == '{';
        assert forall j :: 0 <= j < i - 1 ==> rest[j] == value[j + 1];
      }
    } else if value != "" {
      assert value[0] == '{' ==> OpensObject(value);
    }
  }

  /** The value is of the declared index's kind. */
  predicate OfKind(cfg: Config, name: string, v: Value) {
    name in cfg.defs && (cfg.defs[name].kind == KindString <==> v.Str?)
  }

  lemma OfKindIs(cfg: Config, name: string, v: Value)
    ensures OfKind(cfg, name, v) <==> name in cfg.defs && Fits(cfg.defs[name].kind, v)
  {
  }

  /** The index values are refused: some are given for a value that is no object, or one of them, or of the
      extracted ones that none of them overrides, is undeclared or of the wrong kind. */
  ghost predicate BadValues(cfg: Config, key: string, value: string, explicit: IX) {
    var found := cfg.extract(key, value);
    if !OpensObject(value) then explicit != map[]
    else
      || (exists name :: name in explicit && !OfKind(cfg, name, explicit[name]))
      || (exists name :: name in found && name in cfg.defs && name !in explicit && !OfKind(cfg, name, found[name]))
  }

  lemma BuildsUnlessBad(cfg: Config, key: string, value: string, explicit: IX)
    ensures BuildIX(cfg, key, value, explicit).None? <==> BadValues(cfg, key, value, explicit)
  {
    BuildIXIff(cfg, key, value, explicit);
    IsObjectIff(value);
    assert |explicit| > 0 <==> explicit != map[];
    forall name, v
      ensures OfKind(cfg, name, v) <==> name in cfg.defs && Fits(cfg.defs[name].kind, v)
    {
      OfKindIs(cfg, name, v);
    }
  }

  /** Some index with a cap holds at least that many higher keys under the value, and not the key itself. */
  ghost predicate CrowdedOut(cfg: Config, m: map<string, Record>, key: string, ix: IX) {
    exists name :: name in ix && OfKind(cfg, name, ix[name]) && cfg.defs[name].max > 0
      && !(key in m && name in m[key].ix && m[key].ix[name] == ix[name])
      && |Higher(GroupSet(m, name, ix[name]), key)| >= cfg.defs[name].max
  }

  lemma RejectedIff(cfg: Config, d: Disk, key: string, ix: IX)
    ensures Rejected(cfg, d, key, ix) <==> CrowdedOut(cfg, Contents(d.recs), key, ix)
  {
    forall name | name in ix
      ensures SelfEvicts(cfg, d, key, name, ix[name]) <==>
        && OfKind(cfg, name, ix[name]) && cfg.defs[name].max > 0
        && key !in GroupSet(Contents(d.recs), name, ix[name])
        && |Higher(GroupSet(Contents(d.recs), name, ix[name]), key)| >= cfg.defs[name].max
    {
      OfKindIs(cfg, name, ix[name]);
      if Capped(cfg, name, ix[name]) {
        SelfEvictsIff(cfg, d, key, name, ix[name]);
      }
    }
  }

  /** Exactly which puts are refused; a refused one changes nothing. */
  lemma PutRefusedIff(cfg: Config, d: Disk, key: string, value: string, explicit: IX, exp: int, order: seq<string>)
    ensures BuildIX(cfg, key, value, explicit).None? <==> BadValues(cfg, key, value, explicit)
    ensures !Accepted(cfg, d, key, value, explicit) <==>
      || BadValues(cfg, key, value, explicit)
      || CrowdedOut(cfg, Contents(d.recs), key, BuildIX(cfg, key, value, explicit).value)
    ensures !Accepted(cfg, d, key, value, explicit) ==> Put(cfg, d, key, value, explicit, exp, order) == d
  {
    BuildsUnlessBad(cfg, key, value, explicit);
    if !BadValues(cfg, key, value, explicit) {
      RejectedIff(cfg, d, key, BuildIX(cfg, key, value, explicit).value);
    }
  }

  // ---- what a write leaves ----

  /** A value of at least the threshold, if there is one, lies at the end of the current blob file and the line refers
      to it; any other value, and every counter, lies in the line. */
  ghost predicate Stored(cfg: Config, d: Disk, value: string, counter: bool, d': Disk, r: Record) {
    if !counter && 0 < cfg.blobThreshold <= |value| then
      && r.value == "" && r.blob == Some(BlobRef(BlobSize(d.blobs, d.curGen), |value|, d.curGen))
      && d.curGen in d'.blobs && BlobSize(d.blobs, d.curGen) + |value| == |d'.blobs[d.curGen]|
      && d'.blobs[d.curGen][BlobSize(d.blobs, d.curGen)..] == value
    else
      r.value == value && r.blob == None && d'.blobs == d.blobs
  }

  /** A write adds one line, with the given values, expiry and flag, and touches no other key and no blob byte. */
  lemma AppendStores(cfg: Config, d: Disk, key: string, value: string, ix: IX, exp: int, counter: bool)
    requires Inv(d)
    ensures var d' := Append(cfg, d, key, value, ix, exp, counter);
      var m, m' := Contents(d.recs), Contents(d'.recs);
      && |d'.recs| == |d.recs| + 1 && d.recs <= d'.recs && BlobsGrow(d.blobs, d'.blobs) && d'.curGen == d.curGen
      && key in m' && Stored(cfg, d, value, counter, d', m'[key])
      && m'[key].ix == ix && m'[key].exp == exp && m'[key].counter == counter
      && (forall k :: k != key ==> (k in m' <==> k in m))
      && (forall k :: k != key && k in m ==> m'[k] == m[k])
  {
    AppendGrows(cfg, d, key, value, ix, exp, counter);
    ContentsSnoc(d.recs, NewRecord(cfg, d, key, value, ix, exp, counter));
  }

  /** `m'` is `m` without some keys. */
  ghost predicate Thinned(m: map<string, Record>, m': map<string, Record>) {
    forall k :: k in m' ==> k in m && m'[k] == m[k]
  }

  lemma EnforceOneThins(cfg: Config, d: Disk, name: string, v: Value)
    ensures Thinned(Contents(d.recs), Contents(EnforceOne(cfg, d, name, v).recs))
    ensures EnforceOne(cfg, d, name, v).blobs == d.blobs
  {
    EnforceOneTable(cfg, d, name, v);
  }

  /** Evictions only take keys away. */
  lemma {:induction false} EnforceThins(cfg: Config, d: Disk, ix: IX, order: seq<string>)
    ensures Thinned(Contents(d.recs), Contents(Enforce(cfg, d, ix, order).recs))
    ensures Enforce(cfg, d, ix, order).blobs == d.blobs
    decreases |order|
  {
    if order != [] {
      if order[0] in ix {
        EnforceOneThins(cfg, d, order[0], ix[order[0]]);
        EnforceThins(cfg, EnforceOne(cfg, d, order[0], ix[order[0]]), ix, order[1..]);
      } else {
        EnforceThins(cfg, d, ix, order[1..]);
      }
    }
  }

  lemma {:induction false} EnforceSeenThins(cfg: Config, d: Disk, ts: seq<Touch>, seen: set<string>)
    ensures Thinned(Contents(d.recs), Contents(EnforceSeen(cfg, d, ts, seen).recs))
    ensures EnforceSeen(cfg, d, ts, seen).blobs == d.blobs
    decreases |ts|
  {
    if ts != [] {
      if SeenKey(cfg, ts[0]) in seen {
        EnforceSeenThins(cfg, d, ts[1..], seen);
      } else {
        EnforceOneThins(cfg, d, ts[0].name, ts[0].val);
        EnforceSeenThins(cfg, EnforceOne(cfg, d, ts[0].name, ts[0].val), ts[1..], seen + {SeenKey(cfg, ts[0])});
      }
    }
  }

  /** What a reader at `now` is shown of the key. */
  ghost predicate Shows(d: Disk, now: int, key: string, value: string, exp: int) {
    && (key in Visible(d, now) <==> key in Contents(d.recs) && (exp == 0 || now < exp))
    && (key in Visible(d, now) ==> Visible(d, now)[key].value == value && Visible(d, now)[key].exp == exp)
  }

  lemma ThinnedShows(d: Disk, d': Disk, now: int, key: string, c: Content)
    requires Thinned(Contents(d.recs), Contents(d'.recs)) && d'.blobs == d.blobs
    requires key in View(d) && View(d)[key] == c
    ensures Shows(d', now, key, c.value, c.exp)
  {
  }

  /** After an accepted put the key, unless an eviction took it, is shown with its value as long as its expiry, if it
      has one, lies ahead; without caps it is always there. */
  lemma PutShows(cfg: Config, d: Disk, key: string, value: string, explicit: IX, exp: int, order: seq<string>, now: int)
    requires Inv(d) && Accepted(cfg, d, key, value, explicit)
    ensures var d' := Put(cfg, d, key, value, explicit, exp, order);
      && Shows(d', now, key, value, exp)
      && (key in Contents(d'.recs) <==>
            FewHigher(cfg, Contents(d.recs), key, BuildIX(cfg, key, value, explicit).value, order))
      && (Ideal.NoCaps(cfg) ==> key in Contents(d'.recs))
      && (key in Contents(d'.recs) ==>
            Contents(d'.recs)[key].ix == BuildIX(cfg, key, value, explicit).value && !Contents(d'.recs)[key].counter)
      && Thinned(Contents(d.recs), Contents(d'.recs) - {key})
  {
    var ix := BuildIX(cfg, key, value, explicit).value;
    var mid := Append(cfg, d, key, value, ix, exp, false);
    ViewAppend(cfg, d, key, value, ix, exp, false);
    AppendStores(cfg, d, key, value, ix, exp, false);
    EnforceThins(cfg, mid, ix, order);
    ThinnedShows(mid, Put(cfg, d, key, value, explicit, exp, order), now, key, Content(value, false, exp));
    WriteSurvivesIff(cfg, d, key, value, explicit, exp, order);
  }

  // ---- batches ----

  /** No later item has the same key. */
  predicate LastOf(items: seq<Item>, i: nat) {
    i < |items| && forall j :: i < j < |items| ==> items[j].key != items[i].key
  }

  lemma {:induction false} LastItemStays(m: Ideal.Map, items: seq<Item>, i: nat)
    requires LastOf(items, i)
    ensures items[i].key in Ideal.PutItems(m, items)
    ensures Ideal.PutItems(m, items)[items[i].key] == Content(items[i].value, false, Ideal.Deadline(items[i]))
    decreases |items|
  {
    if i < |items| - 1 {
      LastItemStays(m, items[..|items| - 1], i);
    }
  }

  lemma {:induction false} OtherKeysStay(m: Ideal.Map, items: seq<Item>, k: string)
    requires forall i :: 0 <= i < |items| ==> items[i].key != k
    ensures k in Ideal.PutItems(m, items) <==> k in m
    ensures k in m ==> Ideal.PutItems(m, items)[k] == m[k]
    decreases |items|
  {
    if items != [] {
      OtherKeysStay(m, items[..|items| - 1], k);
    }
  }

  lemma {:induction false} LastItemRecord(cfg: Config, d: Disk, items: seq<Item>, i: nat)
    requires LastOf(items, i)
    ensures var m := Contents(AppendItems(cfg, d, items).recs);
      items[i].key in m && m[items[i].key].ix == ItemIX(cfg, items[i])
    decreases |items|
  {
    var init, it := items[..|items| - 1], items[|items| - 1];
    var before := AppendItems(cfg, d, init);
    AppendTable(cfg, before, it.key, it.value, ItemIX(cfg, it), ItemExp(it), false);
    if i < |items| - 1 {
      LastItemRecord(cfg, d, init, i);
    }
  }

  lemma AppendTable(cfg: Config, d: Disk, key: string, value: string, ix: IX, exp: int, counter: bool)
    ensures var m, m' := Contents(d.recs), Contents(Append(cfg, d, key, value, ix, exp, counter).recs);
      key in m' && m'[key].ix == ix && m' == m[key := m'[key]]
  {
    ContentsSnoc(d.recs, NewRecord(cfg, d, key, value, ix, exp, counter));
  }

  /** A batch is all or nothing: it is refused if one item has a negative ttl or would be refused on its own, and then
      changes nothing. */
  lemma BatchRefusedIff(cfg: Config, d: Disk, items: seq<Item>)
    ensures !BatchAccepted(cfg, d, items) <==>
      exists i :: 0 <= i < |items| && (
        || items[i].ttl < 0
        || BadValues(cfg, items[i].key, items[i].value, items[i].explicit)
        || CrowdedOut(cfg, Contents(d.recs), items[i].key, ItemIX(cfg, items[i])))
    ensures !BatchAccepted(cfg, d, items) ==> PutBatch(cfg, d, items) == d
  {
    forall i | 0 <= i < |items|
      ensures ItemAccepted(cfg, d, items[i]) <==>
        && items[i].ttl >= 0 && !BadValues(cfg, items[i].key, items[i].value, items[i].explicit)
        && !CrowdedOut(cfg, Contents(d.recs), items[i].key, ItemIX(cfg, items[i]))
    {
      var it := items[i];
      PutRefusedIff(cfg, d, it.key, it.value, it.explicit, 0, []);
    }
  }

  /** After an accepted batch the last item of each key, unless an eviction took it, is shown until its ttl, counted
      from the clock at which the item was checked, has run out; without a ttl it stays.  A sum of zero means none. */
  lemma BatchShows(cfg: Config, d: Disk, items: seq<Item>, i: nat, later: int)
    requires Inv(d) && BatchAccepted(cfg, d, items) && LastOf(items, i)
    ensures var d', it := PutBatch(cfg, d, items), items[i];
      var end := it.now + it.ttl / 1_000_000;
      && (it.key in Visible(d', later) <==>
            it.key in Contents(d'.recs) && (it.ttl == 0 || end == 0 || later < end))
      && (it.key in Visible(d', later) ==> Visible(d', later)[it.key].value == it.value)
      && (it.key in Contents(d'.recs) ==> Contents(d'.recs)[it.key].ix == ItemIX(cfg, it))
      && (Ideal.NoCaps(cfg) ==> it.key in Contents(d'.recs))
  {
    var mid, d', it := AppendItems(cfg, d, items), PutBatch(cfg, d, items), items[i];
    assert ItemAccepted(cfg, d, it);
    Ideal.ViewAppendItems(cfg, d, items);
    LastItemStays(View(d), items, i);
    LastItemRecord(cfg, d, items, i);
    AcceptedBatch(cfg, d, items);
    EnforceSeenThins(cfg, mid, Touches(cfg, items), {});
    ThinnedShows(mid, d', later, it.key, View(mid)[it.key]);
    if Ideal.NoCaps(cfg) {
      Ideal.NoBatchEviction(cfg, mid, Touches(cfg, items), {});
    }
  }

  /** A batch shows the keys it does not mention as before, unless an eviction took them. */
  lemma BatchSparesOthers(cfg: Config, d: Disk, items: seq<Item>, k: string)
    requires Inv(d) && forall i :: 0 <= i < |items| ==> items[i].key != k
    ensures var d' := PutBatch(cfg, d, items);
      && (k in View(d') ==> k in View(d) && View(d')[k] == View(d)[k])
      && (Ideal.NoCaps(cfg) && k in View(d) ==> k in View(d'))
  {
    if BatchAccepted(cfg, d, items) {
      var mid := AppendItems(cfg, d, items);
      AcceptedBatch(cfg, d, items);
      Ideal.ViewAppendItems(cfg, d, items);
      OtherKeysStay(View(d), items, k);
      EnforceSeenThins(cfg, mid, Touches(cfg, items), {});
      if Ideal.NoCaps(cfg) {
        Ideal.NoBatchEviction(cfg, mid, Touches(cfg, items), {});
      }
    }
  }

  // ---- deletes ----

  /** Delete removes the key, expired or not, and no other; an absent key costs no line. */
  lemma DeleteRemoves(d: Disk, key: string)
    ensures Contents(DeleteKey(d, key).recs) == Contents(d.recs) - {key}
    ensures |DeleteKey(d, key).recs| == |d.recs| + if key in Contents(d.recs) then 1 else 0
    ensures DeleteKey(d, key).blobs == d.blobs
  {
    ContentsSnoc(d.recs, Tombstone(key));
    assert key !in Contents(d.recs) ==> Contents(d.recs) - {key} == Contents(d.recs);
  }

  /** The range deletes remove exactly the keys strictly below, or strictly above, the cutoff. */
  lemma RangeRemoves(d: Disk, cutoff: string, k: string)
    ensures var m, less, more := Contents(d.recs), RemoveLess(d, cutoff), RemoveGreater(d, cutoff);
      && (k in Contents(less.recs) <==> k in m && !Lt(k, cutoff))
      && (k in Contents(more.recs) <==> k in m && !Lt(cutoff, k))
      && Thinned(m, Contents(less.recs)) && Thinned(m, Contents(more.recs))
      && less.blobs == more.blobs == d.blobs
  {
    var keys := Contents(d.recs).Keys;
    ContentsDeleteAll(d, Below(keys, cutoff));
    ContentsDeleteAll(d, Beyond(keys, cutoff));
  }

  // ---- reaping ----

  /** Some request was made for the key when its record lay where it lies now. */
  predicate Requested(reqs: seq<ReapReq>, k: string, off: nat) {
    exists i :: 0 <= i < |reqs| && reqs[i].key == k && reqs[i].off == off
  }

  /** The key is still where a request saw it, and its expiry has passed. */
  ghost predicate Due(c: Codec, d: Disk, reqs: seq<ReapReq>, now: int, k: string) {
    var pk := Replay(c, d.recs);
    k in pk && pk[k].exp != 0 && pk[k].exp <= now && Requested(reqs, k, pk[k].off)
  }

  lemma DeleteReplay(c: Codec, d: Disk, key: string)
    ensures Replay(c, Delete(d, key).recs) == Replay(c, d.recs) - {key}
    ensures Contents(Delete(d, key).recs) == Contents(d.recs) - {key}
  {
    ReplaySnoc(c, d.recs, Tombstone(key));
    ContentsSnoc(d.recs, Tombstone(key));
  }

  lemma RequestedCons(reqs: seq<ReapReq>, k: string, off: nat)
    requires reqs != []
    ensures Requested(reqs, k, off) <==>
            (reqs[0].key == k && reqs[0].off == off) || Requested(reqs[1..], k, off)
  {
    if i :| 0 < i < |reqs| && reqs[i].key == k && reqs[i].off == off {
      assert reqs[1..][i - 1] == reqs[i];
    }
    if i :| 0 <= i < |reqs[1..]| && reqs[1..][i].key == k && reqs[1..][i].off == off {
      assert reqs[i + 1] == reqs[1..][i];
    }
  }

  /** Reaping removes exactly the keys that are due, with their index entries, and touches no other. */
  lemma {:induction false} ReapRemoves(cfg: Config, d: Disk, reqs: seq<ReapReq>, now: int, k: string)
    ensures var d' := Reap(cfg, d, reqs, now);
      var pk, pk' := Replay(cfg.codec, d.recs), Replay(cfg.codec, d'.recs);
      && (k in pk <==> k in Contents(d.recs)) && (k in pk' <==> k in Contents(d'.recs))
      && (k in pk' <==> k in pk && !Due(cfg.codec, d, reqs, now, k))
      && (k in pk' ==> pk'[k] == pk[k] && Contents(d'.recs)[k] == Contents(d.recs)[k])
    decreases |reqs|
  {
    ReplayMirrors(cfg.codec, d.recs, k);
    if reqs != [] {
      var r, pk := reqs[0], Replay(cfg.codec, d.recs);
      if k in pk {
        RequestedCons(reqs, k, pk[k].off);
      }
      var next := if Reapable(cfg, d, r, now) then Delete(d, r.key) else d;
      DeleteReplay(cfg.codec, d, r.key);
      ReapRemoves(cfg, next, reqs[1..], now, k);
    }
  }

  /** What a read offers is gone after reaping, from the primary index and from every secondary one. */
  lemma OfferedIsReaped(cfg: Config, d: Disk, reqs: seq<ReapReq>, now: int, k: string, name: string, kind: Kind)
    requires Due(cfg.codec, d, reqs, now, k)
    ensures var pk' := Replay(cfg.codec, Reap(cfg, d, reqs, now).recs);
      k !in pk' && forall x :: x in SecOf(pk', name, kind) ==> x.pk != k
  {
    ReapRemoves(cfg, d, reqs, now, k);
  }

  /** The same as one operation of a run. */
  lemma StepReaps(cfg: Config, d: Disk, t: Timed, k: string)
    requires t.op.OpReap?
    ensures var m, m' := Contents(d.recs), Contents(Step(cfg, d, t).recs);
      && (k in m' <==> k in m && !Due(cfg.codec, d, t.op.reqs, t.now, k))
      && (k in m' ==> m'[k] == m[k])
  {
    ReapRemoves(cfg, d, t.op.reqs, t.now, k);
  }

  // ---- rewrites ----

  /** Both rewrites keep exactly the keys whose expiry lies ahead, each with its value, flag and expiry, and of its
      index values those of declared and of soft-dropped indexes. */
  lemma RewriteKeeps(cfg: Config, d: Disk, now: int, relieve: bool, k: string)
    requires Inv(d)
    ensures var d' := if relieve then Relieve(cfg, d, now) else Compact(cfg, d, now);
      var m, m' := Contents(d.recs), Contents(d'.recs);
      && (k in m' <==> k in m && (m[k].exp == 0 || now < m[k].exp))
      && (k in m' ==>
            && ContentOf(d'.blobs, m'[k]) == ContentOf(d.blobs, m[k]) && m'[k].exp == m[k].exp
            && (forall name ::
                  name in m'[k].ix <==> name in m[k].ix && (name in cfg.defs || name in cfg.dropped))
            && (forall name :: name in m'[k].ix ==> m'[k].ix[name] == m[k].ix[name]))
  {
    LiveKeysAreAll(d);
    RewriteCarries(cfg, d, relieve, LiveKeys(d), now, k);
    if Kept(d, LiveKeys(d), now, k) {
      assert Carried(cfg, d, relieve, Rewrite(cfg, d, relieve, LiveKeys(d), now), k);
    }
  }

  // ---- counters ----

  /** The step changes the counter: Incr if the sum is an int64, Topup if there is something to add and room for it,
      Take if the floor allows it. */
  predicate Applies(op: CounterOp, cur: int) {
    match op
    case Incr(delta) => MIN_INT64 <= cur + delta <= MAX_INT64
    case Topup(amount, max) => amount > 0 && cur < max
    case Take(amount, left) => cur - amount >= left
  }

  /** The new value of a step that applies. */
  function Target(op: CounterOp, cur: int): int {
    match op
    case Incr(delta) => cur + delta
    case Topup(amount, max) => if cur + amount <= max then cur + amount else max
    case Take(amount, _) => cur - amount
  }

  predicate Answers(op: CounterOp, cur: int, reply: Reply) {
    match op
    case Incr(delta) => reply == if Applies(op, cur) then Value(cur + delta) else ErrOverflow
    case Topup(amount, _) =>
      reply.LeftOver? && reply.overflow == if Applies(op, cur) then amount - (Target(op, cur) - cur) else amount
    case Take(_, _) => reply == Taken(Applies(op, cur))
  }

  lemma StepIs(op: CounterOp, cur: int64)
    requires !NegativeAmount(op)
    ensures StepOf(op, cur).Move? <==> Applies(op, cur)
    ensures Applies(op, cur) ==> StepOf(op, cur).next == Target(op, cur)
    ensures Answers(op, cur, ReplyOf(op, cur))
  {
    match op
    case Incr(delta) => IncrIsExact(delta, cur);
    case Topup(amount, max) => TopupIsClampedSum(amount, max, cur);
    case Take(amount, left) => TakeIsGuardedDifference(amount, left, cur);
  }

  /** A call on a missing or expired key counts from zero and, if it applies, creates the counter with the expiry it
      was given; if it does not, readers see no difference. */
  lemma FreshCountShows(cfg: Config, d: Disk, key: string, now: int, createExp: int, op: CounterOp)
    requires Inv(d) && !NegativeAmount(op)
    requires key in Contents(d.recs) ==> Contents(d.recs)[key].exp != 0 && Contents(d.recs)[key].exp <= now
    ensures var r := Count(cfg, d, key, now, createExp, op);
      && Answers(op, 0, r.reply)
      && (if Applies(op, 0) then
            MIN_INT64 <= Target(op, 0) <= MAX_INT64
            && View(r.disk) == View(d)[key := Content(Format(Target(op, 0)), true, createExp)]
          else View(r.disk) == View(d) - {key})
  {
    if key in Contents(d.recs) {
      DeleteGrows(cfg.codec, d, key);
      ViewDelete(d, key);
      CreatedShows(cfg, Delete(d, key), key, createExp, op);
      if Applies(op, 0) {
        PutAgain(View(d), key, Content(Format(Target(op, 0)), true, createExp));
      }
    } else {
      CreatedShows(cfg, d, key, createExp, op);
      assert View(d) - {key} == View(d);
    }
  }

  lemma PutAgain(m: Ideal.Map, key: string, c: Content)
    ensures (m - {key})[key := c] == m[key := c]
  {
  }

  lemma CreatedShows(cfg: Config, d: Disk, key: string, createExp: int, op: CounterOp)
    requires Inv(d) && !NegativeAmount(op)
    ensures var r := CountFresh(cfg, d, key, createExp, op);
      && Answers(op, 0, r.reply)
      && (if Applies(op, 0) then
            MIN_INT64 <= Target(op, 0) <= MAX_INT64
            && View(r.disk) == View(d)[key := Content(Format(Target(op, 0)), true, createExp)]
          else r.disk == d)
  {
    StepIs(op, 0);
    if Applies(op, 0) {
      ViewAppend(cfg, d, key, Format(StepOf(op, 0).next), map[], createExp, true);
    }
  }

  /** A call on a live counter steps its value and keeps its expiry; in place, without a new line, unless the record
      carries index values.  Anything else that is alive is refused and left alone. */
  lemma LiveCountShows(cfg: Config, d: Disk, key: string, now: int, createExp: int, op: CounterOp)
    requires Lawful(cfg.codec) && Inv(d) && !NegativeAmount(op) && key in View(d)
    requires View(d)[key].exp == 0 || now < View(d)[key].exp
    ensures var r, c := Count(cfg, d, key, now, createExp, op), View(d)[key];
      if c.counter && Parse(c.value).Some? then
        var cur := Parse(c.value).value;
        && Answers(op, cur, r.reply)
        && (if Applies(op, cur) then
              MIN_INT64 <= Target(op, cur) <= MAX_INT64
              && View(r.disk) == View(d)[key := Content(Format(Target(op, cur)), true, c.exp)]
            else r.disk == d)
        && |r.disk.recs| == |d.recs| + if Applies(op, cur) && Contents(d.recs)[key].ix != map[] then 1 else 0
      else r == Counted(d, ErrNotCounter)
  {
    ReplayMirrors(cfg.codec, d.recs, key);
    ContentsInside(d, key);
    Ideal.ViewStepped(cfg, d, key, now, createExp, op);
    var c := View(d)[key];
    if c.counter && Parse(c.value).Some? {
      StepIs(op, Parse(c.value).value);
    }
  }

  // ---- expiry ----

  /** The store and a single counter agree on what has expired. */
  lemma ExpiredIsLapsed(exp: int, now: int, v: int64)
    ensures ExpiredAt(exp, now) <==> Lapsed(Holding(v, exp), now)
    ensures ExpiredAt(exp, now) <==> !(exp == 0 || now < exp)
  {
  }
}

/** Where one enforcement pass at the end of a batch does not do what a pass after every append would. */
module BatchLimits {
  import opened Text
  import opened Wrappers
  import opened SecIndex
  import opened Records
  import opened LogIndex
  import opened Engine
  import opened EngineView
  import opened Caps
  import opened Batch

  // ---- batches on tables ----

  /** A record a batch appends and the order in which its index names are visited. */
  datatype Row = Row(rec: Record, order: seq<string>)

  ghost function Puts(m: Table, rows: seq<Row>): Table {
    if rows == [] then m
    else
      var r := rows[|rows| - 1].rec;
      Puts(m, rows[..|rows| - 1])[r.key := r]
  }

  /** Trimming one group to its cap. */
  ghost function TrimOne(cfg: Config, m: Table, t: Touch): Table {
    if Capped(cfg, t.name, t.val) then m - VictimSet(GroupSet(m, t.name, t.val), cfg.defs[t.name].max) else m
  }

  ghost function TrimAll(cfg: Config, m: Table, ix: IX, order: seq<string>): Table
    decreases |order|
  {
    if order == [] then m
    else if order[0] !in ix then TrimAll(cfg, m, ix, order[1..])
    else TrimAll(cfg, TrimOne(cfg, m, Touch(order[0], ix[order[0]])), ix, order[1..])
  }

  /** Writing the rows and trimming after each. */
  ghost function PutsTrimmed(cfg: Config, m: Table, rows: seq<Row>): Table {
    if rows == [] then m
    else
      var row := rows[|rows| - 1];
      TrimAll(cfg, PutsTrimmed(cfg, m, rows[..|rows| - 1])[row.rec.key := row.rec], row.rec.ix, row.order)
  }

  ghost function PassOver(cfg: Config, m: Table, ts: seq<Touch>, seen: set<string>): Table
    decreases |ts|
  {
    if ts == [] then m
    else if SeenKey(cfg, ts[0]) in seen then PassOver(cfg, m, ts[1..], seen)
    else PassOver(cfg, TrimOne(cfg, m, ts[0]), ts[1..], seen + {SeenKey(cfg, ts[0])})
  }

  ghost function RowTouches(rows: seq<Row>): seq<Touch> {
    if rows == [] then []
    else
      var row := rows[|rows| - 1];
      RowTouches(rows[..|rows| - 1]) + TouchesOf(row.rec.ix, row.order)
  }

  lemma PutsNext(m: Table, rows: seq<Row>, n: nat)
    requires n < |rows|
    ensures Puts(m, rows[..n + 1]) == Puts(m, rows[..n])[rows[n].rec.key := rows[n].rec]
  {
    assert rows[..n + 1][..n] == rows[..n];
  }

  lemma PutsTrimmedNext(cfg: Config, m: Table, rows: seq<Row>, n: nat)
    requires n < |rows|
    ensures PutsTrimmed(cfg, m, rows[..n + 1]) ==
            TrimAll(cfg, PutsTrimmed(cfg, m, rows[..n])[rows[n].rec.key := rows[n].rec], rows[n].rec.ix, rows[n].order)
  {
    assert rows[..n + 1][..n] == rows[..n];
  }

  /** A group one over its cap. */
  ghost predicate Over(cfg: Config, m: Table, t: Touch) {
    Capped(cfg, t.name, t.val) && |GroupSet(m, t.name, t.val)| == cfg.defs[t.name].max + 1
  }

  lemma TrimIdle(cfg: Config, m: Table, t: Touch)
    requires Under(cfg, m, t)
    ensures TrimOne(cfg, m, t) == m
  {
    if Capped(cfg, t.name, t.val) {
      VictimSetSize(GroupSet(m, t.name, t.val), cfg.defs[t.name].max);
    }
  }

  /** The first visited name of a record is trimmed first; if its group is one over the cap, the lowest key goes for
      good. */
  lemma FirstTrimLoses(cfg: Config, m: Table, t: Touch, ix: IX, order: seq<string>, p: string)
    requires Over(cfg, m, t) && IsLeast(p, GroupSet(m, t.name, t.val))
    requires order != [] && order[0] == t.name && t.name in ix && ix[t.name] == t.val
    ensures p !in TrimAll(cfg, m, ix, order)
  {
    TrimLowest(cfg, m, t, p);
    TrimAllRemoves(cfg, TrimOne(cfg, m, t), ix, order[1..], p);
  }

  /** A group one over its cap loses its lowest key. */
  lemma TrimLowest(cfg: Config, m: Table, t: Touch, p: string)
    requires Over(cfg, m, t) && IsLeast(p, GroupSet(m, t.name, t.val))
    ensures TrimOne(cfg, m, t) == m - {p}
  {
    var g, max := GroupSet(m, t.name, t.val), cfg.defs[t.name].max;
    VictimSetSize(g, max);
    var x :| x in VictimSet(g, max);
    if p !in VictimSet(g, max) {
      VictimsSortBelow(g, max, x, p);
      LtAsymmetric(x, p);
      LtIrreflexive(x);
    }
    SubsetSize({p}, VictimSet(g, max));
  }

  lemma {:induction false} TrimAllRemoves(cfg: Config, m: Table, ix: IX, order: seq<string>, k: string)
    requires k !in m
    ensures k !in TrimAll(cfg, m, ix, order)
    decreases |order|
  {
    if order != [] {
      if order[0] in ix {
        TrimAllRemoves(cfg, TrimOne(cfg, m, Touch(order[0], ix[order[0]])), ix, order[1..], k);
      } else {
        TrimAllRemoves(cfg, m, ix, order[1..], k);
      }
    }
  }

  /** Trimming groups at or under their caps changes nothing. */
  lemma {:induction false} TrimAllIdle(cfg: Config, m: Table, ix: IX, order: seq<string>)
    requires forall t :: t in TouchesOf(ix, order) ==> Under(cfg, m, t)
    ensures TrimAll(cfg, m, ix, order) == m
    decreases |order|
  {
    if order != [] {
      if order[0] in ix {
        var t := Touch(order[0], ix[order[0]]);
        assert TouchesOf(ix, order)[0] == t;
        TrimIdle(cfg, m, t);
      }
      TrimAllIdle(cfg, m, ix, order[1..]);
    }
  }

  /** A pass over groups at or under their caps changes nothing. */
  lemma {:induction false} PassIdle(cfg: Config, m: Table, ts: seq<Touch>, seen: set<string>)
    requires forall t :: t in ts ==> Under(cfg, m, t)
    ensures PassOver(cfg, m, ts, seen) == m
    decreases |ts|
  {
    if ts != [] {
      assert ts[0] in ts;
      TrimIdle(cfg, m, ts[0]);
      PassIdle(cfg, m, ts[1..], seen);
      PassIdle(cfg, m, ts[1..], seen + {SeenKey(cfg, ts[0])});
    }
  }

  /** After the first group nothing is left to do. */
  lemma FirstThenIdle(cfg: Config, m: Table, t: Touch, ts: seq<Touch>)
    requires ts != [] && ts[0] == t && forall u :: u in ts ==> Under(cfg, TrimOne(cfg, m, t), u)
    ensures PassOver(cfg, m, ts, {}) == TrimOne(cfg, m, t)
  {
    PassIdle(cfg, TrimOne(cfg, m, t), ts[1..], {} + {SeenKey(cfg, t)});
  }

  // ---- the tables a batch leaves ----

  lemma {:induction false} EnforceTable(cfg: Config, d: Disk, ix: IX, order: seq<string>)
    ensures Contents(Enforce(cfg, d, ix, order).recs) == TrimAll(cfg, Contents(d.recs), ix, order)
    ensures Enforce(cfg, d, ix, order).blobs == d.blobs && Enforce(cfg, d, ix, order).curGen == d.curGen
    decreases |order|
  {
    if order != [] {
      if order[0] in ix {
        EnforceOneTable(cfg, d, order[0], ix[order[0]]);
        EnforceTable(cfg, EnforceOne(cfg, d, order[0], ix[order[0]]), ix, order[1..]);
      } else {
        EnforceTable(cfg, d, ix, order[1..]);
      }
    }
  }

  lemma {:induction false} EnforceSeenTable(cfg: Config, d: Disk, ts: seq<Touch>, seen: set<string>)
    ensures Contents(EnforceSeen(cfg, d, ts, seen).recs) == PassOver(cfg, Contents(d.recs), ts, seen)
    decreases |ts|
  {
    if ts != [] {
      if SeenKey(cfg, ts[0]) in seen {
        EnforceSeenTable(cfg, d, ts[1..], seen);
      } else {
        EnforceOneTable(cfg, d, ts[0].name, ts[0].val);
        EnforceSeenTable(cfg, EnforceOne(cfg, d, ts[0].name, ts[0].val), ts[1..], seen + {SeenKey(cfg, ts[0])});
      }
    }
  }

  ghost function RowAfter(cfg: Config, d: Disk, it: Item): (row: Row)
    ensures RowOfItem(cfg, row, it)
  {
    Row(NewRecord(cfg, d, it.key, it.value, ItemIX(cfg, it), ItemExp(it), false), it.order)
  }

  /** The rows a batch appends. */
  ghost function RowsOf(cfg: Config, d: Disk, items: seq<Item>): (rows: seq<Row>)
    ensures |rows| == |items|
  {
    if items == [] then []
    else
      var init, it := items[..|items| - 1], items[|items| - 1];
      RowsOf(cfg, d, init) + [RowAfter(cfg, AppendItems(cfg, d, init), it)]
  }

  ghost predicate RowOfItem(cfg: Config, row: Row, it: Item) {
    row.rec.key == it.key && row.rec.ix == ItemIX(cfg, it) && row.order == it.order
  }

  lemma {:induction false} RowsMatch(cfg: Config, d: Disk, items: seq<Item>, i: nat)
    requires i < |items|
    ensures RowOfItem(cfg, RowsOf(cfg, d, items)[i], items[i])
    decreases |items|
  {
    var init, it := items[..|items| - 1], items[|items| - 1];
    if i < |init| {
      RowsMatch(cfg, d, init, i);
    } else {
      assert RowsOf(cfg, d, items)[i] == RowAfter(cfg, AppendItems(cfg, d, init), it);
    }
  }

  lemma {:induction false} RowsAreTheBatch(cfg: Config, d: Disk, items: seq<Item>)
    ensures var rows := RowsOf(cfg, d, items);
      && Contents(AppendItems(cfg, d, items).recs) == Puts(Contents(d.recs), rows)
      && Touches(cfg, items) == RowTouches(rows)
      && Contents(ItemByItem(cfg, d, items).recs) == PutsTrimmed(cfg, Contents(d.recs), rows)
      && ItemByItem(cfg, d, items).blobs == AppendItems(cfg, d, items).blobs
      && ItemByItem(cfg, d, items).curGen == AppendItems(cfg, d, items).curGen
    decreases |items|
  {
    if items != [] {
      var init, it := items[..|items| - 1], items[|items| - 1];
      var p, q := ItemByItem(cfg, d, init), AppendItems(cfg, d, init);
      RowsAreTheBatch(cfg, d, init);
      assert RowsOf(cfg, d, items)[..|init|] == RowsOf(cfg, d, init);
      var r := AppendItemTable(cfg, q, it);
      var r' := AppendItemTable(cfg, p, it);
      SameAppend(cfg, p, q, it);
      EnforceTable(cfg, AppendItem(cfg, p, it), ItemIX(cfg, it), it.order);
    }
  }

  /** An accepted batch and its item-by-item form, as tables. */
  lemma BatchTables(cfg: Config, d: Disk, items: seq<Item>)
    requires BatchAccepted(cfg, d, items)
    ensures var m, rows := Contents(d.recs), RowsOf(cfg, d, items);
      && Contents(PutBatch(cfg, d, items).recs) == PassOver(cfg, Puts(m, rows), RowTouches(rows), {})
      && Contents(ItemByItem(cfg, d, items).recs) == PutsTrimmed(cfg, m, rows)
  {
    RowsAreTheBatch(cfg, d, items);
    EnforceSeenTable(cfg, AppendItems(cfg, d, items), Touches(cfg, items), {});
    AcceptedBatch(cfg, d, items);
  }

  // ---- batches that are accepted ----

  ghost function Members(d: Disk, t: Touch): set<string> {
    GroupSet(Contents(d.recs), t.name, t.val)
  }

  ghost predicate WellFormed(cfg: Config, it: Item) {
    it.ttl >= 0 && BuildIX(cfg, it.key, it.value, it.explicit).Some?
  }

  /** The item is well formed and in each capped group it joins fewer than the cap of members sort above it. */
  ghost predicate Fitting(cfg: Config, d: Disk, it: Item) {
    && WellFormed(cfg, it)
    && forall name :: CapOn(cfg, ItemIX(cfg, it), name) ==>
         |Higher(Members(d, Touch(name, ItemIX(cfg, it)[name])), it.key)| < cfg.defs[name].max
  }

  lemma FittingIsAccepted(cfg: Config, d: Disk, it: Item)
    requires Fitting(cfg, d, it)
    ensures ItemAccepted(cfg, d, it)
  {
    var ix := ItemIX(cfg, it);
    forall name | name in ix
      ensures !SelfEvicts(cfg, d, it.key, name, ix[name])
    {
      if CapOn(cfg, ix, name) {
        SelfEvictsIff(cfg, d, it.key, name, ix[name]);
      }
    }
  }

  /** With a member below the key, fewer than all members sort above it. */
  lemma LowerMember(g: set<string>, p: string, key: string)
    requires p in g && Lt(p, key)
    ensures |Higher(g, key)| < |g|
  {
    LtAsymmetric(p, key);
    assert p !in Higher(g, key);
    SubsetSize(Higher(g, key), g - {p});
  }

  /** The record carries the pair. */
  ghost predicate Carries(row: Row, t: Touch) {
    t.name in row.rec.ix && row.rec.ix[t.name] == t.val
  }

  lemma FirstTouch(ix: IX, order: seq<string>)
    requires order != [] && order[0] in ix
    ensures TouchesOf(ix, order) == [Touch(order[0], ix[order[0]])] + TouchesOf(ix, order[1..])
  {
  }

  lemma OneRow(cfg: Config, m: Table, row: Row)
    ensures Puts(m, [row]) == m[row.rec.key := row.rec]
    ensures RowTouches([row]) == TouchesOf(row.rec.ix, row.order)
    ensures PutsTrimmed(cfg, m, [row]) == TrimAll(cfg, m[row.rec.key := row.rec], row.rec.ix, row.order)
  {
    assert [row][..0] == [];
    assert Puts(m, []) == m && PutsTrimmed(cfg, m, []) == m && RowTouches([]) == [];
  }

  // ---- two pairs with one seen key ----

  /** The item carries both pairs and visits them first. */
  ghost predicate VisitsFirst(cfg: Config, it: Item, t: Touch, u: Touch) {
    var ix := ItemIX(cfg, it);
    && |it.order| >= 2 && it.order == [t.name, u.name] + it.order[2..] && u.name !in it.order[2..]
    && t.name in ix && ix[t.name] == t.val && u.name in ix && ix[u.name] == u.val
  }

  /** The capped groups of the values, but for one index, have room for one more key. */
  ghost predicate RoomBut(cfg: Config, d: Disk, ix: IX, but: string) {
    forall name :: CapOn(cfg, ix, name) && name != but ==>
      |Members(d, Touch(name, ix[name]))| < cfg.defs[name].max
  }

  /** Whenever two pairs share a seen key, an accepted item that carries both and visits them first, and pushes no
      other group over its cap, leaves the second group over its cap for good: the batch never enforces it. */
  lemma CollidingPairIsSkipped(cfg: Config, d: Disk, t: Touch, u: Touch, it: Item)
    requires t.name != u.name && SeenKey(cfg, t) == SeenKey(cfg, u) && BatchAccepted(cfg, d, [it])
    requires it.key !in Contents(d.recs) && VisitsFirst(cfg, it, t, u) && RoomBut(cfg, d, ItemIX(cfg, it), u.name)
    ensures |Members(PutBatch(cfg, d, [it]), u)| == |Members(d, u)| + 1
  {
    var rest := it.order[2..];
    BatchTables(cfg, d, [it]);
    var row := RowsOf(cfg, d, [it])[0];
    RowsMatch(cfg, d, [it], 0);
    assert RowsOf(cfg, d, [it]) == [row];
    OneRow(cfg, Contents(d.recs), row);
    SkippedGroup(cfg, Contents(d.recs), t, u, row, rest);
  }

  lemma SkippedGroup(cfg: Config, m: Table, t: Touch, u: Touch, row: Row, rest: seq<string>)
    requires t.name != u.name && SeenKey(cfg, t) == SeenKey(cfg, u) && row.rec.key !in m
    requires Carries(row, t) && Carries(row, u) && row.order == [t.name, u.name] + rest && u.name !in rest
    requires forall name :: CapOn(cfg, row.rec.ix, name) && name != u.name ==>
      |GroupSet(m, name, row.rec.ix[name])| < cfg.defs[name].max
    ensures var m' := PassOver(cfg, m[row.rec.key := row.rec], TouchesOf(row.rec.ix, row.order), {});
      |GroupSet(m', u.name, u.val)| == |GroupSet(m, u.name, u.val)| + 1
  {
    var r := row.rec;
    var m' := m[r.key := r];
    FirstTouch(r.ix, row.order);
    assert row.order[1..] == [u.name] + rest;
    FirstTouch(r.ix, [u.name] + rest);
    assert ([u.name] + rest)[1..] == rest;
    GroupPut(m, r, u.name, u.val);
    forall w | w == t || w in TouchesOf(r.ix, rest)
      ensures Under(cfg, m', w)
    {
      TouchesOfIff(r.ix, rest, w);
      GroupPut(m, r, w.name, w.val);
      assert Capped(cfg, w.name, w.val) ==> CapOn(cfg, r.ix, w.name);
    }
    SkippedPass(cfg, m', t, u, TouchesOf(r.ix, rest));
  }

  lemma SkippedPass(cfg: Config, m: Table, t: Touch, u: Touch, ts: seq<Touch>)
    requires SeenKey(cfg, t) == SeenKey(cfg, u) && forall w :: w == t || w in ts ==> Under(cfg, m, w)
    ensures PassOver(cfg, m, [t] + ([u] + ts), {}) == m
  {
    TrimIdle(cfg, m, t);
    var seen := {} + {SeenKey(cfg, t)};
    assert ([t] + ([u] + ts))[1..] == [u] + ts && ([u] + ts)[1..] == ts;
    PassIdle(cfg, m, ts, seen);
    assert PassOver(cfg, m, [u] + ts, seen) == PassOver(cfg, m, ts, seen);
  }

  // ---- a record with two capped values ----

  /** `p` is the lowest key of a full group of `a`, and no key carries `b`.  The rows fill the group of `b` with new
      keys, and the last one adds a key that sorts above `p` and below them under both values.  Every other group they
      touch stays within its cap. */
  ghost predicate Squeeze(cfg: Config, m: Table, a: Touch, b: Touch, p: string, rows: seq<Row>) {
    && Capped(cfg, a.name, a.val) && Capped(cfg, b.name, b.val) && a.name != b.name
    && |GroupSet(m, a.name, a.val)| == cfg.defs[a.name].max && IsLeast(p, GroupSet(m, a.name, a.val))
    && GroupSet(m, b.name, b.val) == {} && |rows| == cfg.defs[b.name].max + 1
    && HighRun(m, a, b, rows[|rows| - 1].rec.key, rows[..|rows| - 1])
    && MidRow(m, a, b, p, rows[|rows| - 1])
    && forall n :: 0 <= n <= |rows| ==> OthersFit(cfg, m, a, b, rows[..n])
  }

  /** A new key above `low` that carries `b`, which it visits first, and not `a`. */
  ghost predicate HighRow(m: Table, a: Touch, b: Touch, low: string, row: Row) {
    && Carries(row, b) && !Carries(row, a) && row.order != [] && row.order[0] == b.name
    && row.rec.key !in m && Lt(low, row.rec.key)
  }

  /** Such rows, with distinct keys. */
  ghost predicate HighRun(m: Table, a: Touch, b: Touch, low: string, rows: seq<Row>) {
    && (forall i :: 0 <= i < |rows| ==> HighRow(m, a, b, low, rows[i]))
    && forall i, j :: 0 <= i < j < |rows| ==> rows[i].rec.key != rows[j].rec.key
  }

  /** A new key above `p` that carries both and visits `a` first. */
  ghost predicate MidRow(m: Table, a: Touch, b: Touch, p: string, row: Row) {
    && Carries(row, a) && Carries(row, b) && row.order != [] && row.order[0] == a.name
    && row.rec.key !in m && Lt(p, row.rec.key)
  }

  ghost predicate OthersFit(cfg: Config, m: Table, a: Touch, b: Touch, rows: seq<Row>) {
    forall t :: t in RowTouches(rows) && t != a && t != b ==> Under(cfg, Puts(m, rows), t)
  }

  ghost function RowKeys(rows: seq<Row>): set<string> {
    if rows == [] then {} else RowKeys(rows[..|rows| - 1]) + {rows[|rows| - 1].rec.key}
  }

  lemma {:induction false} RowOfKey(rows: seq<Row>, k: string) returns (i: nat)
    requires k in RowKeys(rows)
    ensures i < |rows| && rows[i].rec.key == k
    decreases |rows|
  {
    if rows[|rows| - 1].rec.key == k {
      i := |rows| - 1;
    } else {
      i := RowOfKey(rows[..|rows| - 1], k);
    }
  }

  /** Against `m0` the group of `a` is as before, and that of `b` holds exactly the new keys `ks`. */
  ghost predicate Grown(m0: Table, a: Touch, b: Touch, ks: set<string>, m: Table) {
    GroupSet(m, a.name, a.val) == GroupSet(m0, a.name, a.val) && GroupSet(m, b.name, b.val) == ks
  }

  lemma GrownPut(m0: Table, a: Touch, b: Touch, ks: set<string>, m: Table, row: Row)
    requires Grown(m0, a, b, ks, m) && Carries(row, b) && !Carries(row, a) && row.rec.key !in m0
    ensures Grown(m0, a, b, ks + {row.rec.key}, m[row.rec.key := row.rec])
  {
    assert row.rec.key !in GroupSet(m0, a.name, a.val);
    GroupPut(m, row.rec, a.name, a.val);
    GroupPut(m, row.rec, b.name, b.val);
  }

  lemma NextKey(m: Table, a: Touch, b: Touch, low: string, rows: seq<Row>, n: nat)
    requires HighRun(m, a, b, low, rows) && n < |rows|
    ensures RowKeys(rows[..n + 1]) == RowKeys(rows[..n]) + {rows[n].rec.key} && rows[n].rec.key !in RowKeys(rows[..n])
    ensures HighRow(m, a, b, low, rows[n])
  {
    assert rows[..n + 1][..n] == rows[..n];
    if rows[n].rec.key in RowKeys(rows[..n]) {
      var i := RowOfKey(rows[..n], rows[n].rec.key);
    }
  }

  lemma {:induction false} RowKeysSize(m: Table, a: Touch, b: Touch, low: string, rows: seq<Row>, n: nat)
    requires HighRun(m, a, b, low, rows) && n <= |rows|
    ensures |RowKeys(rows[..n])| == n
    decreases n
  {
    if n > 0 {
      RowKeysSize(m, a, b, low, rows, n - 1);
      NextKey(m, a, b, low, rows, n - 1);
    }
  }

  /** Rows with distinct new keys fill the group of `b`. */
  lemma {:induction false} FillGroup(m: Table, a: Touch, b: Touch, low: string, rows: seq<Row>, n: nat)
    requires HighRun(m, a, b, low, rows) && n <= |rows| && GroupSet(m, b.name, b.val) == {}
    ensures Grown(m, a, b, RowKeys(rows[..n]), Puts(m, rows[..n]))
    decreases n
  {
    if n > 0 {
      FillGroup(m, a, b, low, rows, n - 1);
      NextKey(m, a, b, low, rows, n - 1);
      PutsNext(m, rows, n - 1);
      var ks, before := RowKeys(rows[..n - 1]), Puts(m, rows[..n - 1]);
      GrownPut(m, a, b, ks, before, rows[n - 1]);
      assert RowKeys(rows[..n]) == ks + {rows[n - 1].rec.key};
      assert Puts(m, rows[..n]) == before[rows[n - 1].rec.key := rows[n - 1].rec];
    }
  }

  lemma TouchesNext(rows: seq<Row>, n: nat)
    requires n < |rows|
    ensures RowTouches(rows[..n + 1]) == RowTouches(rows[..n]) + TouchesOf(rows[n].rec.ix, rows[n].order)
  {
    assert rows[..n + 1][..n] == rows[..n];
  }

  /** Up to the cap, trimming row by row evicts nothing. */
  lemma {:induction false} FillIdle(cfg: Config, m: Table, a: Touch, b: Touch, p: string, rows: seq<Row>, n: nat)
    requires Squeeze(cfg, m, a, b, p, rows) && n < |rows|
    ensures PutsTrimmed(cfg, m, rows[..n]) == Puts(m, rows[..n])
    decreases n
  {
    if n > 0 {
      FillIdle(cfg, m, a, b, p, rows, n - 1);
      PutsNext(m, rows, n - 1);
      PutsTrimmedNext(cfg, m, rows, n - 1);
      FillFits(cfg, m, a, b, p, rows, n);
      TrimAllIdle(cfg, Puts(m, rows[..n]), rows[n - 1].rec.ix, rows[n - 1].order);
    }
  }

  lemma FillFits(cfg: Config, m: Table, a: Touch, b: Touch, p: string, rows: seq<Row>, n: nat)
    requires Squeeze(cfg, m, a, b, p, rows) && 0 < n < |rows|
    ensures forall t :: t in TouchesOf(rows[n - 1].rec.ix, rows[n - 1].order) ==> Under(cfg, Puts(m, rows[..n]), t)
  {
    FillPrefix(cfg, m, a, b, p, rows, n);
    TouchesNext(rows, n - 1);
    assert OthersFit(cfg, m, a, b, rows[..n]);
  }

  lemma FillPrefix(cfg: Config, m: Table, a: Touch, b: Touch, p: string, rows: seq<Row>, n: nat)
    requires Squeeze(cfg, m, a, b, p, rows) && n < |rows|
    ensures Grown(m, a, b, RowKeys(rows[..n]), Puts(m, rows[..n])) && |RowKeys(rows[..n])| == n
  {
    var xs := rows[..|rows| - 1];
    FillGroup(m, a, b, rows[|rows| - 1].rec.key, xs, n);
    RowKeysSize(m, a, b, rows[|rows| - 1].rec.key, xs, n);
    assert xs[..n] == rows[..n];
  }

  /** Both groups are one over their caps; `p` is the lowest key of one and `mid` of the other. */
  ghost predicate Squeezed(cfg: Config, m: Table, a: Touch, b: Touch, p: string, mid: string) {
    && Over(cfg, m, a) && IsLeast(p, GroupSet(m, a.name, a.val))
    && Over(cfg, m, b) && IsLeast(mid, GroupSet(m, b.name, b.val))
    && mid in GroupSet(m, a.name, a.val) && mid != p
  }

  lemma SqueezedPut(cfg: Config, m0: Table, a: Touch, b: Touch, ks: set<string>, m: Table, p: string, row: Row)
    requires Capped(cfg, a.name, a.val) && Capped(cfg, b.name, b.val) && a.name != b.name
    requires Grown(m0, a, b, ks, m) && MidRow(m0, a, b, p, row) && row.rec.key !in ks
    requires |GroupSet(m0, a.name, a.val)| == cfg.defs[a.name].max && |ks| == cfg.defs[b.name].max
    requires IsLeast(p, GroupSet(m0, a.name, a.val)) && forall k :: k in ks ==> Lt(row.rec.key, k)
    ensures Squeezed(cfg, m[row.rec.key := row.rec], a, b, p, row.rec.key)
  {
    GroupPut(m, row.rec, a.name, a.val);
    GroupPut(m, row.rec, b.name, b.val);
  }

  lemma FilledAbove(cfg: Config, m: Table, a: Touch, b: Touch, p: string, rows: seq<Row>)
    requires Squeeze(cfg, m, a, b, p, rows)
    ensures var n, low := |rows| - 1, rows[|rows| - 1].rec.key;
      low !in RowKeys(rows[..n]) && forall k :: k in RowKeys(rows[..n]) ==> Lt(low, k)
  {
    var n, low := |rows| - 1, rows[|rows| - 1].rec.key;
    forall k | k in RowKeys(rows[..n])
      ensures Lt(low, k)
    {
      var i := RowOfKey(rows[..n], k);
      assert HighRow(m, a, b, low, rows[..n][i]);
    }
    LtIrreflexive(low);
  }

  lemma SqueezeGroups(cfg: Config, m: Table, a: Touch, b: Touch, p: string, rows: seq<Row>)
    requires Squeeze(cfg, m, a, b, p, rows)
    ensures Squeezed(cfg, Puts(m, rows), a, b, p, rows[|rows| - 1].rec.key)
  {
    var n := |rows| - 1;
    FillPrefix(cfg, m, a, b, p, rows, n);
    FilledAbove(cfg, m, a, b, p, rows);
    PutsNext(m, rows, n);
    assert rows[..n + 1] == rows;
    SqueezedPut(cfg, m, a, b, RowKeys(rows[..n]), Puts(m, rows[..n]), p, rows[n]);
  }

  /** The batch touches `b` first. */
  lemma {:induction false} StartsWith(cfg: Config, rows: seq<Row>, b: Touch, n: nat)
    requires 0 < n <= |rows| && Carries(rows[0], b) && rows[0].order != [] && rows[0].order[0] == b.name
    ensures RowTouches(rows[..n]) != [] && RowTouches(rows[..n])[0] == b
    decreases n
  {
    TouchesNext(rows, n - 1);
    if n == 1 {
      assert rows[..0] == [];
      FirstTouch(rows[0].rec.ix, rows[0].order);
    } else {
      StartsWith(cfg, rows, b, n - 1);
    }
  }

  /** `b` first: the last key goes, and nothing else is over its cap. */
  lemma OnePassKeeps(cfg: Config, m: Table, a: Touch, b: Touch, p: string, rows: seq<Row>)
    requires Squeeze(cfg, m, a, b, p, rows)
    ensures p in PassOver(cfg, Puts(m, rows), RowTouches(rows), {})
  {
    var all, mid := Puts(m, rows), rows[|rows| - 1].rec.key;
    SqueezeGroups(cfg, m, a, b, p, rows);
    assert HighRow(m, a, b, mid, rows[..|rows| - 1][0]);
    StartsWith(cfg, rows, b, |rows|);
    assert rows[..|rows|] == rows;
    assert OthersFit(cfg, m, a, b, rows[..|rows|]);
    TrimLowest(cfg, all, b, mid);
    GroupMinus(all, {mid}, a.name, a.val);
    GroupMinus(all, {mid}, b.name, b.val);
    forall t | t in RowTouches(rows)
      ensures Under(cfg, all - {mid}, t)
    {
      if t != a && t != b {
        UnderShrinks(cfg, all, {mid}, t);
      }
    }
    FirstThenIdle(cfg, all, b, RowTouches(rows));
  }

  /** `a` first: `p` goes and never comes back. */
  lemma EachPassLoses(cfg: Config, m: Table, a: Touch, b: Touch, p: string, rows: seq<Row>)
    requires Squeeze(cfg, m, a, b, p, rows)
    ensures p !in PutsTrimmed(cfg, m, rows)
  {
    var n, row := |rows| - 1, rows[|rows| - 1];
    FillIdle(cfg, m, a, b, p, rows, n);
    SqueezeGroups(cfg, m, a, b, p, rows);
    FirstTrimLoses(cfg, Puts(m, rows), a, row.rec.ix, row.order, p);
  }

  /** Whatever the two caps: one pass keeps `p`, enforcing after every append evicts it. */
  lemma SeveralCapsDiffer(cfg: Config, d: Disk, a: Touch, b: Touch, p: string, items: seq<Item>)
    requires Squeeze(cfg, Contents(d.recs), a, b, p, RowsOf(cfg, d, items)) && BatchAccepted(cfg, d, items)
    ensures p in Contents(PutBatch(cfg, d, items).recs)
    ensures p !in Contents(ItemByItem(cfg, d, items).recs)
  {
    BatchTables(cfg, d, items);
    OnePassKeeps(cfg, Contents(d.recs), a, b, p, RowsOf(cfg, d, items));
    EachPassLoses(cfg, Contents(d.recs), a, b, p, RowsOf(cfg, d, items));
  }

  // ---- a key taken out of a full group ----

  /** A full group with lowest key `p`.  The first row adds a new key above `p` and visits the group first; the second
      rewrites one of its keys, the new one or an old one, without the value.  Every other group they touch stays
      within its cap. */
  ghost predicate Moves(cfg: Config, m: Table, t: Touch, p: string, x: Row, y: Row) {
    && Capped(cfg, t.name, t.val) && |GroupSet(m, t.name, t.val)| == cfg.defs[t.name].max
    && IsLeast(p, GroupSet(m, t.name, t.val))
    && Carries(x, t) && x.order != [] && x.order[0] == t.name && x.rec.key !in m && Lt(p, x.rec.key)
    && !Carries(y, t) && y.rec.key in GroupSet(m, t.name, t.val) + {x.rec.key} && y.rec.key != p
    && forall u :: u in RowTouches([x, y]) && u != t ==> Under(cfg, Puts(m, [x, y]), u)
  }

  /** One pass keeps `p`; enforcing after every append evicts it. */
  lemma MovedKeyDiffers(cfg: Config, d: Disk, t: Touch, p: string, x: Item, y: Item)
    requires BatchAccepted(cfg, d, [x, y])
    requires var rows := RowsOf(cfg, d, [x, y]); Moves(cfg, Contents(d.recs), t, p, rows[0], rows[1])
    ensures p in Contents(PutBatch(cfg, d, [x, y]).recs)
    ensures p !in Contents(ItemByItem(cfg, d, [x, y]).recs)
  {
    BatchTables(cfg, d, [x, y]);
    var rows := RowsOf(cfg, d, [x, y]);
    assert rows == [rows[0], rows[1]];
    MovedRows(cfg, Contents(d.recs), t, p, rows[0], rows[1]);
  }

  lemma MovedRows(cfg: Config, m: Table, t: Touch, p: string, x: Row, y: Row)
    requires Moves(cfg, m, t, p, x, y)
    ensures p in PassOver(cfg, Puts(m, [x, y]), RowTouches([x, y]), {})
    ensures p !in PutsTrimmed(cfg, m, [x, y])
  {
    var m1 := m[x.rec.key := x.rec];
    GroupPut(m, x.rec, t.name, t.val);
    GroupPut(m1, y.rec, t.name, t.val);
    TwoRows(cfg, m, x, y);
    PassIdle(cfg, Puts(m, [x, y]), RowTouches([x, y]), {});
    FirstTrimLoses(cfg, m1, t, x.rec.ix, x.order, p);
    var m2 := TrimAll(cfg, m1, x.rec.ix, x.order);
    TrimAllRemoves(cfg, m2[y.rec.key := y.rec], y.rec.ix, y.order, p);
  }

  lemma TwoRows(cfg: Config, m: Table, x: Row, y: Row)
    ensures Puts(m, [x, y]) == m[x.rec.key := x.rec][y.rec.key := y.rec]
    ensures RowTouches([x, y]) == TouchesOf(x.rec.ix, x.order) + TouchesOf(y.rec.ix, y.order)
    ensures var m1 := TrimAll(cfg, m[x.rec.key := x.rec], x.rec.ix, x.order);
      PutsTrimmed(cfg, m, [x, y]) == TrimAll(cfg, m1[y.rec.key := y.rec], y.rec.ix, y.order)
  {
    assert [x, y][..1] == [x];
    OneRow(cfg, m, x);
  }
}

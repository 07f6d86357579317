/** Exactly which schemas keep their caps through every batch, and for which one pass per batch is enough. */
module BatchSchemas {
  import opened Text
  import opened Wrappers
  import opened SecIndex
  import opened Records
  import opened LogIndex
  import opened Engine
  import opened EngineView
  import opened Caps
  import opened Batch
  import opened BatchLimits
  import Ideal

  // ---- stores and items to choose from ----

  /** The store whose keys are "", "a", "aa" and so on, `n` of them, all with the same index values. */
  function Filled(n: nat, ix: IX): Disk {
    Disk(FilledRecords(n, ix), map[0 := ""], 0)
  }

  function FilledRecords(n: nat, ix: IX): seq<Record> {
    if n == 0 then [] else FilledRecords(n - 1, ix) + [Record(Repeat('a', n - 1), "{", None, false, ix, false, 0)]
  }

  ghost function FilledKeys(n: nat): set<string> {
    set i | 0 <= i < n :: Repeat('a', i)
  }

  lemma FilledKeysStep(n: nat)
    ensures FilledKeys(n + 1) == FilledKeys(n) + {Repeat('a', n)} && Repeat('a', n) !in FilledKeys(n)
  {
    forall k | k in FilledKeys(n + 1)
      ensures k in FilledKeys(n) || k == Repeat('a', n)
    {
      var i :| 0 <= i < n + 1 && k == Repeat('a', i);
    }
  }

  lemma {:induction false} FilledKeysSize(n: nat)
    ensures |FilledKeys(n)| == n
  {
    if n > 0 {
      FilledKeysSize(n - 1);
      FilledKeysStep(n - 1);
    }
  }

  lemma {:induction false} FilledTable(n: nat, ix: IX)
    ensures Contents(Filled(n, ix).recs).Keys == FilledKeys(n)
    ensures forall k :: k in Contents(Filled(n, ix).recs) ==> Contents(Filled(n, ix).recs)[k].ix == ix
  {
    if n == 0 {
      assert FilledKeys(0) == {};
    } else {
      FilledTable(n - 1, ix);
      FilledKeysStep(n - 1);
      FilledPut(n - 1, ix);
    }
  }

  lemma FilledPut(n: nat, ix: IX)
    ensures var r := Record(Repeat('a', n), "{", None, false, ix, false, 0);
      Contents(Filled(n + 1, ix).recs) == Contents(Filled(n, ix).recs)[r.key := r]
  {
    ContentsSnoc(FilledRecords(n, ix), Record(Repeat('a', n), "{", None, false, ix, false, 0));
  }

  lemma FilledMembers(n: nat, ix: IX, t: Touch)
    ensures Members(Filled(n, ix), t) == if t.name in ix && ix[t.name] == t.val then FilledKeys(n) else {}
  {
    FilledTable(n, ix);
  }

  lemma FilledLeast(n: nat)
    requires n > 0
    ensures IsLeast("", FilledKeys(n))
  {
    assert Repeat('a', 0) == "";
    forall k | k in FilledKeys(n)
      ensures Le("", k)
    {
      EmptyIsLeast(k);
    }
  }

  /** A group filled exactly to its cap is within it, and no other group has members. */
  lemma FilledCaps(cfg: Config, t: Touch)
    requires Capped(cfg, t.name, t.val)
    ensures CapsHold(cfg, Contents(Filled(cfg.defs[t.name].max, map[t.name := t.val]).recs))
  {
    var d := Filled(cfg.defs[t.name].max, map[t.name := t.val]);
    forall name, v | Capped(cfg, name, v)
      ensures |GroupSet(Contents(d.recs), name, v)| <= cfg.defs[name].max
    {
      FilledMembers(cfg.defs[t.name].max, map[t.name := t.val], Touch(name, v));
      FilledKeysSize(cfg.defs[t.name].max);
    }
  }

  /** Index values for every declared index: the given ones, and `Nth(.., tag)` under all other names.  A write that
      carries them leaves nothing to the extractors. */
  function FullIX(cfg: Config, base: IX, tag: nat): IX {
    map name | name in cfg.defs :: if name in base then base[name] else Nth(cfg.defs[name].kind, tag)
  }

  /** The item that carries them and visits the names in `first` before all others. */
  ghost function Explicit(cfg: Config, key: string, base: IX, tag: nat, first: seq<string>): Item {
    Item(key, "{", FullIX(cfg, base, tag), 0, 0, first + SortedKeys(cfg.defs.Keys - Elems(first)))
  }

  lemma FullBuilds(cfg: Config, key: string, base: IX, tag: nat)
    requires ValidFor(cfg, base)
    ensures BuildIX(cfg, key, "{", FullIX(cfg, base, tag)) == Some(FullIX(cfg, base, tag))
  {
    var ix := FullIX(cfg, base, tag);
    assert ValidFor(cfg, ix);
    assert Derived(cfg, key, "{", ix) == map[];
    assert Derived(cfg, key, "{", ix) + ix == ix;
    assert |cfg.defs| == 0 ==> ix == map[];
  }

  lemma OrderVisits(names: set<string>, first: seq<string>)
    requires Elems(first) <= names
    ensures Elems(first + SortedKeys(names - Elems(first))) == names
  {
    var rest := SortedKeys(names - Elems(first));
    assert forall k :: k in Elems(first + rest) <==> k in Elems(first) || k in Elems(rest);
  }

  lemma ExplicitBuilds(cfg: Config, key: string, base: IX, tag: nat, first: seq<string>)
    requires ValidFor(cfg, base) && Elems(first) <= cfg.defs.Keys
    ensures var it := Explicit(cfg, key, base, tag, first);
      WellFormed(cfg, it) && ItemIX(cfg, it) == FullIX(cfg, base, tag) && Elems(it.order) == ItemIX(cfg, it).Keys
  {
    FullBuilds(cfg, key, base, tag);
    OrderVisits(cfg.defs.Keys, first);
    assert FullIX(cfg, base, tag).Keys == cfg.defs.Keys;
  }

  lemma NthIsInjective(kind: Kind, i: nat, j: nat)
    ensures Nth(kind, i) == Nth(kind, j) <==> i == j
  {
    assert |Repeat('z', i)| == i && |Repeat('z', j)| == j;
  }

  lemma BIsNew(n: nat)
    ensures "b" !in FilledKeys(n) && Lt("", "b")
  {
    forall i | 0 <= i < n
      ensures Repeat('a', i) != "b"
    {
      assert i > 0 ==> Repeat('a', i)[0] != "b"[0];
    }
  }

  /** The store with the group of `t` filled to its cap. */
  ghost function Full(cfg: Config, t: Touch): Disk
    requires Capped(cfg, t.name, t.val)
  {
    Filled(cfg.defs[t.name].max, map[t.name := t.val])
  }

  lemma FullFacts(cfg: Config, t: Touch)
    requires Capped(cfg, t.name, t.val)
    ensures var d := Full(cfg, t);
      && CapsHold(cfg, Contents(d.recs)) && |Members(d, t)| == cfg.defs[t.name].max && IsLeast("", Members(d, t))
      && "b" !in Contents(d.recs) && Lt("", "b")
      && forall u: Touch :: u != t ==> Members(d, u) == {}
  {
    var max, ix: IX := cfg.defs[t.name].max, map[t.name := t.val];
    FilledCaps(cfg, t);
    FilledTable(max, ix);
    FilledMembers(max, ix, t);
    FilledKeysSize(max);
    FilledLeast(max);
    BIsNew(max);
    forall u: Touch | u != t
      ensures Members(Full(cfg, t), u) == {}
    {
      FilledMembers(max, ix, u);
    }
  }

  /** A well-formed item with a key above "" is accepted: only the full group has members, and one sorts below it. */
  lemma FullAccepts(cfg: Config, t: Touch, it: Item)
    requires Capped(cfg, t.name, t.val) && WellFormed(cfg, it) && Lt("", it.key)
    ensures ItemAccepted(cfg, Full(cfg, t), it)
  {
    var d := Full(cfg, t);
    FullFacts(cfg, t);
    LowerMember(Members(d, t), "", it.key);
    assert Higher({}, it.key) == {};
    FittingIsAccepted(cfg, d, it);
  }

  // ---- caps after every batch ----

  ghost predicate KeepsCaps(cfg: Config) {
    forall d: Disk, items: seq<Item> :: CapsHold(cfg, Contents(d.recs)) && OrdersVisit(cfg, items) ==>
      CapsHold(cfg, Contents(PutBatch(cfg, d, items).recs))
  }

  /** A schema with a capped index that shadows or is shadowed: a store within its caps and an accepted batch of one
      item that leaves a group over its cap. */
  lemma ShadowFails(cfg: Config, m: string, n: string) returns (d: Disk, it: Item)
    requires Shadows(cfg, m, n) && (cfg.defs[m].max > 0 || cfg.defs[n].max > 0)
    ensures CapsHold(cfg, Contents(d.recs)) && OrdersVisit(cfg, [it]) && BatchAccepted(cfg, d, [it])
    ensures it.key !in Contents(d.recs) && !CapsHold(cfg, Contents(PutBatch(cfg, d, [it]).recs))
  {
    var w := Nth(cfg.defs[n].kind, 0);
    ShadowCollides(cfg, m, n, w);
    if cfg.defs[n].max > 0 {
      d, it := CollisionFails(cfg, ShadowOf(cfg, m, n, w), Touch(n, w));
    } else {
      d, it := CollisionFails(cfg, Touch(n, w), ShadowOf(cfg, m, n, w));
    }
  }

  lemma CollisionFails(cfg: Config, t: Touch, u: Touch) returns (d: Disk, it: Item)
    requires Typed(cfg, t) && Typed(cfg, u) && t.name != u.name
    requires SeenKey(cfg, t) == SeenKey(cfg, u) && Capped(cfg, u.name, u.val)
    ensures CapsHold(cfg, Contents(d.recs)) && OrdersVisit(cfg, [it]) && BatchAccepted(cfg, d, [it])
    ensures it.key !in Contents(d.recs) && !CapsHold(cfg, Contents(PutBatch(cfg, d, [it]).recs))
  {
    it := CollidingItem(cfg, t, u);
    d := Full(cfg, u);
    OrdersOfOne(cfg, it);
    FullFacts(cfg, u);
    FullAccepts(cfg, u, it);
    AcceptedAlone(cfg, d, it);
    RoomElsewhere(cfg, d, u, ItemIX(cfg, it));
    CollidingPairIsSkipped(cfg, d, t, u, it);
    OverfullBreaks(cfg, PutBatch(cfg, d, [it]), u);
  }

  /** An item that carries both pairs and visits them first. */
  lemma CollidingItem(cfg: Config, t: Touch, u: Touch) returns (it: Item)
    requires Typed(cfg, t) && Typed(cfg, u) && t.name != u.name
    ensures WellFormed(cfg, it) && Elems(it.order) == ItemIX(cfg, it).Keys && it.key == "b"
    ensures VisitsFirst(cfg, it, t, u)
  {
    var base: IX, first := map[t.name := t.val, u.name := u.val], [t.name, u.name];
    assert Elems(first) == {t.name, u.name};
    it := Explicit(cfg, "b", base, 0, first);
    ExplicitBuilds(cfg, "b", base, 0, first);
    assert it.order[2..] == SortedKeys(cfg.defs.Keys - Elems(first)) && it.order == first + it.order[2..];
    assert u.name !in Elems(it.order[2..]);
  }

  lemma AcceptedAlone(cfg: Config, d: Disk, it: Item)
    requires ItemAccepted(cfg, d, it)
    ensures BatchAccepted(cfg, d, [it])
  {
  }

  lemma RoomElsewhere(cfg: Config, d: Disk, u: Touch, ix: IX)
    requires forall v: Touch :: v != u ==> Members(d, v) == {}
    ensures RoomBut(cfg, d, ix, u.name)
  {
    forall name | CapOn(cfg, ix, name) && name != u.name
      ensures |Members(d, Touch(name, ix[name]))| < cfg.defs[name].max
    {
      assert Members(d, Touch(name, ix[name])) == {};
    }
  }

  lemma OverfullBreaks(cfg: Config, d: Disk, u: Touch)
    requires Capped(cfg, u.name, u.val) && |Members(d, u)| == cfg.defs[u.name].max + 1
    ensures !CapsHold(cfg, Contents(d.recs))
  {
    OverBreaksCaps(cfg, Contents(d.recs), u);
  }

  lemma OrdersOfOne(cfg: Config, it: Item)
    requires Elems(it.order) == ItemIX(cfg, it).Keys
    ensures OrdersVisit(cfg, [it])
  {
  }

  lemma OverBreaksCaps(cfg: Config, m: Table, t: Touch)
    requires Over(cfg, m, t)
    ensures !CapsHold(cfg, m)
  {
  }

  /** Every batch keeps every cap exactly when no capped index shadows or is shadowed. */
  lemma KeepsCapsIff(cfg: Config)
    requires SprintLawful(cfg)
    ensures KeepsCaps(cfg) <==> CapsUnshadowed(cfg)
  {
    if CapsUnshadowed(cfg) {
      forall d: Disk, items: seq<Item> | CapsHold(cfg, Contents(d.recs)) && OrdersVisit(cfg, items)
        ensures CapsHold(cfg, Contents(PutBatch(cfg, d, items).recs))
      {
        BatchKeepsCaps(cfg, d, items);
      }
    } else {
      var m, n :| Shadows(cfg, m, n) && !(cfg.defs[m].max <= 0 && cfg.defs[n].max <= 0);
      var d, it := ShadowFails(cfg, m, n);
      assert OrdersVisit(cfg, [it]);
    }
  }

  // ---- one pass against a pass after every append ----

  /** A batch the store accepts, from groups within their caps. */
  ghost predicate Proper(cfg: Config, d: Disk, items: seq<Item>) {
    CapsHold(cfg, Contents(d.recs)) && OrdersVisit(cfg, items) && BatchAccepted(cfg, d, items)
  }

  ghost predicate Agrees(cfg: Config, d: Disk, items: seq<Item>) {
    Contents(PutBatch(cfg, d, items).recs) == Contents(ItemByItem(cfg, d, items).recs)
  }

  /** No item takes a key that is present when it is appended out of a capped group. */
  ghost predicate NoneTakenOut(cfg: Config, d: Disk, items: seq<Item>) {
    forall i :: 0 <= i < |items| ==>
      StaysPut(cfg, Contents(AppendItems(cfg, d, items[..i]).recs), items[i].key, ItemIX(cfg, items[i]))
  }

  /** All batches of a schema that take no key out of a capped group agree. */
  ghost predicate PassesAgree(cfg: Config) {
    forall d, items :: Proper(cfg, d, items) && NoneTakenOut(cfg, d, items) ==> Agrees(cfg, d, items)
  }

  /** So do all batches, whatever they move. */
  ghost predicate MovingPassesAgree(cfg: Config) {
    forall d, items :: Proper(cfg, d, items) ==> Agrees(cfg, d, items)
  }

  predicate AtMostOneCap(cfg: Config) {
    forall a, b :: a in cfg.defs && b in cfg.defs && cfg.defs[a].max > 0 && cfg.defs[b].max > 0 ==> a == b
  }

  lemma OneCapAgrees(cfg: Config, d: Disk, items: seq<Item>)
    requires SprintLawful(cfg) && CapsUnshadowed(cfg) && AtMostOneCap(cfg)
    requires Proper(cfg, d, items) && NoneTakenOut(cfg, d, items)
    ensures Agrees(cfg, d, items)
  {
    forall i | 0 <= i < |items|
      ensures ItemStays(cfg, AppendItems(cfg, d, items[..i]), items[i])
    {
    }
    OnePassSuffices(cfg, d, items);
  }

  /** Enforcing after every append keeps all caps, whatever the schema. */
  lemma {:induction false} ItemByItemKeepsCaps(cfg: Config, d: Disk, items: seq<Item>)
    requires CapsHold(cfg, Contents(d.recs)) && OrdersVisit(cfg, items)
    ensures CapsHold(cfg, Contents(ItemByItem(cfg, d, items).recs))
    decreases |items|
  {
    if items != [] {
      var init, it := items[..|items| - 1], items[|items| - 1];
      var p := ItemByItem(cfg, d, init);
      ItemByItemKeepsCaps(cfg, d, init);
      var r := AppendItemTable(cfg, p, it);
      WrittenTable(cfg, Contents(p.recs), r);
      EnforceCapsAll(cfg, AppendItem(cfg, p, it), ItemIX(cfg, it), it.order);
    }
  }

  // ---- two capped indexes ----

  /** The values row `i` of the squeeze fixes: those of `b`, and in the last row also those of `a`. */
  function SqueezeBase(a: Touch, b: Touch, n: nat, i: nat): IX {
    if i < n then map[b.name := b.val] else map[a.name := a.val, b.name := b.val]
  }

  /** Keys above "b" in the first `n` rows, "b" in the last. */
  function SqueezeKey(n: nat, i: nat): string {
    if i < n then Repeat('c', i + 1) else "b"
  }

  /** Row `i` carries a value of its own under every index that it does not fix. */
  ghost function SqueezeItem(cfg: Config, a: Touch, b: Touch, n: nat, i: nat): Item {
    Explicit(cfg, SqueezeKey(n, i), SqueezeBase(a, b, n, i), i + 1, if i < n then [b.name] else [a.name, b.name])
  }

  ghost function SqueezeItems(cfg: Config, a: Touch, b: Touch, n: nat): (items: seq<Item>)
    ensures |items| == n + 1 && forall i :: 0 <= i <= n ==> items[i] == SqueezeItem(cfg, a, b, n, i)
  {
    seq(n + 1, i requires 0 <= i <= n => SqueezeItem(cfg, a, b, n, i))
  }

  lemma HighKeyIsNew(n: nat, i: nat)
    ensures Repeat('c', i + 1) !in FilledKeys(n) && Lt("b", Repeat('c', i + 1)) && Lt("", Repeat('c', i + 1))
  {
    assert Repeat('c', i + 1)[0] == 'c';
    forall j | 0 <= j < n
      ensures Repeat('a', j) != Repeat('c', i + 1)
    {
      assert j > 0 ==> Repeat('a', j)[0] == 'a';
    }
  }

  lemma SqueezeBuilds(cfg: Config, a: Touch, b: Touch, n: nat, i: nat)
    requires Capped(cfg, a.name, a.val) && Capped(cfg, b.name, b.val) && i <= n
    ensures var it := SqueezeItem(cfg, a, b, n, i);
      && WellFormed(cfg, it) && Elems(it.order) == ItemIX(cfg, it).Keys && it.key == SqueezeKey(n, i)
      && ItemIX(cfg, it) == FullIX(cfg, SqueezeBase(a, b, n, i), i + 1)
      && it.order != [] && it.order[0] == if i < n then b.name else a.name
  {
    var first := if i < n then [b.name] else [a.name, b.name];
    assert Elems(first) <= {a.name, b.name};
    ExplicitBuilds(cfg, SqueezeKey(n, i), SqueezeBase(a, b, n, i), i + 1, first);
  }

  /** The rows of the squeeze. */
  ghost predicate SqueezeRows(cfg: Config, a: Touch, b: Touch, n: nat, rows: seq<Row>) {
    |rows| == n + 1 && forall i :: 0 <= i <= n ==> SqueezeRow(cfg, a, b, n, i, rows[i])
  }

  ghost predicate SqueezeRow(cfg: Config, a: Touch, b: Touch, n: nat, i: nat, row: Row) {
    && row.rec.key == SqueezeKey(n, i) && row.rec.ix == FullIX(cfg, SqueezeBase(a, b, n, i), i + 1)
    && row.order != [] && row.order[0] == if i < n then b.name else a.name
  }

  lemma RowsAreSqueeze(cfg: Config, d: Disk, a: Touch, b: Touch, n: nat)
    requires Capped(cfg, a.name, a.val) && Capped(cfg, b.name, b.val)
    ensures SqueezeRows(cfg, a, b, n, RowsOf(cfg, d, SqueezeItems(cfg, a, b, n)))
  {
    var items := SqueezeItems(cfg, a, b, n);
    forall i | 0 <= i <= n
      ensures SqueezeRow(cfg, a, b, n, i, RowsOf(cfg, d, items)[i])
    {
      RowsMatch(cfg, d, items, i);
      SqueezeBuilds(cfg, a, b, n, i);
    }
  }

  /** A record of the table is an old one or that of some row. */
  lemma {:induction false} PutsSource(m: Table, rows: seq<Row>, k: string) returns (i: int)
    requires k in Puts(m, rows)
    ensures -1 <= i < |rows|
    ensures i < 0 ==> k in m && Puts(m, rows)[k] == m[k]
    ensures i >= 0 ==> rows[i].rec.key == k && Puts(m, rows)[k] == rows[i].rec
    decreases |rows|
  {
    if rows == [] {
      i := -1;
    } else if rows[|rows| - 1].rec.key == k {
      i := |rows| - 1;
    } else {
      i := PutsSource(m, rows[..|rows| - 1], k);
    }
  }

  lemma {:induction false} TouchSource(rows: seq<Row>, t: Touch) returns (i: nat)
    requires t in RowTouches(rows)
    ensures i < |rows| && Carries(rows[i], t)
    decreases |rows|
  {
    var row := rows[|rows| - 1];
    TouchesOfIff(row.rec.ix, row.order, t);
    if Carries(row, t) {
      i := |rows| - 1;
    } else {
      i := TouchSource(rows[..|rows| - 1], t);
    }
  }

  /** The first value of its kind, as the two squeezed groups have it. */
  ghost predicate IsFirst(cfg: Config, t: Touch) {
    t.name in cfg.defs && t.val == Nth(cfg.defs[t.name].kind, 0)
  }

  /** What a row carries besides `a` and `b` no other row carries. */
  lemma OwnValue(cfg: Config, a: Touch, b: Touch, n: nat, rows: seq<Row>, t: Touch, i: nat, j: nat)
    requires SqueezeRows(cfg, a, b, n, rows) && IsFirst(cfg, a) && IsFirst(cfg, b) && i <= n && j <= n
    requires t != a && t != b && Carries(rows[i], t) && Carries(rows[j], t)
    ensures i == j && t.name in cfg.defs && t.val != Nth(cfg.defs[t.name].kind, 0)
  {
    assert SqueezeRow(cfg, a, b, n, i, rows[i]) && SqueezeRow(cfg, a, b, n, j, rows[j]);
    var kind := cfg.defs[t.name].kind;
    RowValue(cfg, a, b, n, i, t);
    RowValue(cfg, a, b, n, j, t);
    NthIsInjective(kind, i + 1, j + 1);
    NthIsInjective(kind, i + 1, 0);
  }

  lemma RowValue(cfg: Config, a: Touch, b: Touch, n: nat, i: nat, t: Touch)
    requires t != a && t != b
    requires var ix := FullIX(cfg, SqueezeBase(a, b, n, i), i + 1); t.name in ix && ix[t.name] == t.val
    ensures t.name in cfg.defs && t.val == Nth(cfg.defs[t.name].kind, i + 1)
  {
  }

  /** So every other group that some of the rows touch has one member. */
  lemma OthersAreAlone(cfg: Config, a: Touch, b: Touch, n: nat, rows: seq<Row>, k: nat, t: Touch)
    requires Capped(cfg, a.name, a.val) && IsFirst(cfg, a) && IsFirst(cfg, b)
    requires SqueezeRows(cfg, a, b, n, rows) && k <= n + 1
    requires t in RowTouches(rows[..k]) && t != a && t != b
    ensures Under(cfg, Puts(Contents(Full(cfg, a).recs), rows[..k]), t)
  {
    var m, ix: IX := Contents(Full(cfg, a).recs), map[a.name := a.val];
    var i := TouchSource(rows[..k], t);
    FilledTable(cfg.defs[a.name].max, ix);
    OwnValue(cfg, a, b, n, rows, t, i, i);
    forall x | x in GroupSet(Puts(m, rows[..k]), t.name, t.val)
      ensures x == rows[i].rec.key
    {
      var j := PutsSource(m, rows[..k], x);
      if j >= 0 {
        OwnValue(cfg, a, b, n, rows, t, i, j);
      }
    }
    SubsetSize(GroupSet(Puts(m, rows[..k]), t.name, t.val), {rows[i].rec.key});
  }

  lemma SqueezeHolds(cfg: Config, a: Touch, b: Touch, rows: seq<Row>)
    requires Capped(cfg, a.name, a.val) && Capped(cfg, b.name, b.val) && a.name != b.name
    requires IsFirst(cfg, a) && IsFirst(cfg, b) && SqueezeRows(cfg, a, b, cfg.defs[b.name].max, rows)
    ensures Squeeze(cfg, Contents(Full(cfg, a).recs), a, b, "", rows)
  {
    var n := cfg.defs[b.name].max;
    FullFacts(cfg, a);
    SqueezeIsHigh(cfg, a, b, n, rows);
    SqueezeIsMid(cfg, a, b, n, rows);
    OthersAllFit(cfg, a, b, n, rows);
    assert Members(Full(cfg, a), b) == {};
  }

  lemma SqueezeIsMid(cfg: Config, a: Touch, b: Touch, n: nat, rows: seq<Row>)
    requires Capped(cfg, a.name, a.val) && Capped(cfg, b.name, b.val) && a.name != b.name
    requires SqueezeRows(cfg, a, b, n, rows)
    ensures rows[n].rec.key == "b" && MidRow(Contents(Full(cfg, a).recs), a, b, "", rows[n])
  {
    FullFacts(cfg, a);
    assert SqueezeRow(cfg, a, b, n, n, rows[n]);
  }

  lemma OthersAllFit(cfg: Config, a: Touch, b: Touch, n: nat, rows: seq<Row>)
    requires Capped(cfg, a.name, a.val) && IsFirst(cfg, a) && IsFirst(cfg, b) && SqueezeRows(cfg, a, b, n, rows)
    ensures forall k :: 0 <= k <= |rows| ==> OthersFit(cfg, Contents(Full(cfg, a).recs), a, b, rows[..k])
  {
    var m := Contents(Full(cfg, a).recs);
    forall k, t | 0 <= k <= |rows| && t in RowTouches(rows[..k]) && t != a && t != b
      ensures Under(cfg, Puts(m, rows[..k]), t)
    {
      OthersAreAlone(cfg, a, b, n, rows, k, t);
    }
  }

  lemma SqueezeIsHigh(cfg: Config, a: Touch, b: Touch, n: nat, rows: seq<Row>)
    requires Capped(cfg, a.name, a.val) && Capped(cfg, b.name, b.val) && a.name != b.name
    requires IsFirst(cfg, a) && SqueezeRows(cfg, a, b, n, rows)
    ensures HighRun(Contents(Full(cfg, a).recs), a, b, "b", rows[..n])
  {
    var max := cfg.defs[a.name].max;
    FilledTable(max, map[a.name := a.val]);
    forall i | 0 <= i < n
      ensures HighRow(Contents(Full(cfg, a).recs), a, b, "b", rows[i]) && |rows[i].rec.key| == i + 1
    {
      assert SqueezeRow(cfg, a, b, n, i, rows[i]);
      HighKeyIsNew(max, i);
      NthIsInjective(cfg.defs[a.name].kind, i + 1, 0);
    }
  }

  /** A schema with two capped indexes: a store within its caps and an accepted batch of new keys that end
      differently. */
  lemma TwoCapsFail(cfg: Config, m: string, n: string) returns (d: Disk, items: seq<Item>)
    requires m in cfg.defs && n in cfg.defs && m != n && cfg.defs[m].max > 0 && cfg.defs[n].max > 0
    ensures Proper(cfg, d, items) && NoneTakenOut(cfg, d, items) && !Agrees(cfg, d, items)
  {
    var a, b := Touch(m, Nth(cfg.defs[m].kind, 0)), Touch(n, Nth(cfg.defs[n].kind, 0));
    var k := cfg.defs[n].max;
    d, items := Full(cfg, a), SqueezeItems(cfg, a, b, k);
    SqueezeIsProper(cfg, a, b, k);
    RowsAreSqueeze(cfg, d, a, b, k);
    SqueezeHolds(cfg, a, b, RowsOf(cfg, d, items));
    SeveralCapsDiffer(cfg, d, a, b, "", items);
    SqueezeIsNew(cfg, a, b, k);
    NewKeysStay(cfg, d, items);
  }

  lemma SqueezeIsProper(cfg: Config, a: Touch, b: Touch, n: nat)
    requires Capped(cfg, a.name, a.val) && Capped(cfg, b.name, b.val)
    ensures Proper(cfg, Full(cfg, a), SqueezeItems(cfg, a, b, n))
  {
    var items := SqueezeItems(cfg, a, b, n);
    FullFacts(cfg, a);
    forall i | 0 <= i < |items|
      ensures ItemAccepted(cfg, Full(cfg, a), items[i]) && Elems(items[i].order) == ItemIX(cfg, items[i]).Keys
    {
      SqueezeBuilds(cfg, a, b, n, i);
      HighKeyIsNew(0, i);
      FullAccepts(cfg, a, items[i]);
    }
  }

  /** The keys of the items are new and distinct. */
  ghost predicate NewKeys(d: Disk, items: seq<Item>) {
    && (forall i :: 0 <= i < |items| ==> items[i].key !in Contents(d.recs))
    && forall i, j :: 0 <= i < j < |items| ==> items[i].key != items[j].key
  }

  lemma SqueezeIsNew(cfg: Config, a: Touch, b: Touch, n: nat)
    requires Capped(cfg, a.name, a.val) && Capped(cfg, b.name, b.val)
    ensures NewKeys(Full(cfg, a), SqueezeItems(cfg, a, b, n))
  {
    var max, d, items := cfg.defs[a.name].max, Full(cfg, a), SqueezeItems(cfg, a, b, n);
    FilledTable(max, map[a.name := a.val]);
    BIsNew(max);
    forall i | 0 <= i < |items|
      ensures items[i].key == if i < n then Repeat('c', i + 1) else "b"
      ensures items[i].key !in Contents(d.recs)
    {
      SqueezeBuilds(cfg, a, b, n, i);
      HighKeyIsNew(max, i);
    }
    assert forall i :: 0 <= i < n ==> items[i].key[0] == 'c' && |items[i].key| == i + 1;
  }

  lemma {:induction false} AppendedKeys(cfg: Config, d: Disk, items: seq<Item>, k: string)
    requires k !in Contents(d.recs) && forall i :: 0 <= i < |items| ==> items[i].key != k
    ensures k !in Contents(AppendItems(cfg, d, items).recs)
    decreases |items|
  {
    if items != [] {
      var init, it := items[..|items| - 1], items[|items| - 1];
      AppendedKeys(cfg, d, init, k);
      var r := AppendItemTable(cfg, AppendItems(cfg, d, init), it);
    }
  }

  /** New keys are taken out of nothing. */
  lemma NewKeysStay(cfg: Config, d: Disk, items: seq<Item>)
    requires NewKeys(d, items)
    ensures NoneTakenOut(cfg, d, items)
  {
    forall i | 0 <= i < |items|
      ensures items[i].key !in Contents(AppendItems(cfg, d, items[..i]).recs)
    {
      AppendedKeys(cfg, d, items[..i], items[i].key);
    }
  }

  /** One pass is enough for every batch that takes no key out of its group exactly when at most one index has a cap
      and no capped index shadows or is shadowed. */
  lemma PassesAgreeIff(cfg: Config)
    requires SprintLawful(cfg)
    ensures PassesAgree(cfg) <==> AtMostOneCap(cfg) && CapsUnshadowed(cfg)
  {
    if !CapsUnshadowed(cfg) {
      var m, n :| Shadows(cfg, m, n) && !(cfg.defs[m].max <= 0 && cfg.defs[n].max <= 0);
      var d, it := ShadowFails(cfg, m, n);
      ItemByItemKeepsCaps(cfg, d, [it]);
      NewKeysStay(cfg, d, [it]);
      assert Proper(cfg, d, [it]) && NoneTakenOut(cfg, d, [it]) && !Agrees(cfg, d, [it]);
    } else if !AtMostOneCap(cfg) {
      var a, b :| a in cfg.defs && b in cfg.defs && cfg.defs[a].max > 0 && cfg.defs[b].max > 0 && a != b;
      var d, items := TwoCapsFail(cfg, a, b);
    } else {
      forall d, items | Proper(cfg, d, items) && NoneTakenOut(cfg, d, items)
        ensures Agrees(cfg, d, items)
      {
        OneCapAgrees(cfg, d, items);
      }
    }
  }

  // ---- batches that move keys ----

  /** A schema with a capped index: a store within its caps and an accepted batch that writes a key and then moves
      it to another value end differently. */
  lemma OneCapFails(cfg: Config, name: string) returns (d: Disk, items: seq<Item>)
    requires name in cfg.defs && cfg.defs[name].max > 0
    ensures Proper(cfg, d, items) && !Agrees(cfg, d, items)
  {
    var t := Touch(name, Nth(cfg.defs[name].kind, 0));
    MoveBuilds(cfg, t);
    d, items := Full(cfg, t), [EnterItem(cfg, t), LeaveItem(cfg)];
    MoveFails(cfg, t, EnterItem(cfg, t), LeaveItem(cfg));
  }

  /** The first item enters the full group and the second takes its key out again. */
  ghost predicate InAndOut(cfg: Config, t: Touch, x: Item, y: Item) {
    && WellFormed(cfg, x) && Elems(x.order) == ItemIX(cfg, x).Keys && x.order != [] && x.order[0] == t.name
    && t.name in ItemIX(cfg, x) && ItemIX(cfg, x)[t.name] == t.val
    && WellFormed(cfg, y) && Elems(y.order) == ItemIX(cfg, y).Keys
    && t.name in ItemIX(cfg, y) && ItemIX(cfg, y)[t.name] != t.val
    && x.key == "b" && y.key == "b"
  }

  lemma MoveFails(cfg: Config, t: Touch, x: Item, y: Item)
    requires Capped(cfg, t.name, t.val) && InAndOut(cfg, t, x, y)
    ensures Proper(cfg, Full(cfg, t), [x, y]) && !Agrees(cfg, Full(cfg, t), [x, y])
  {
    var d := Full(cfg, t);
    MoveIsProper(cfg, t, x, y);
    var rows := RowsOf(cfg, d, [x, y]);
    RowsMatch(cfg, d, [x, y], 0);
    RowsMatch(cfg, d, [x, y], 1);
    MoveHolds(cfg, t, rows[0], rows[1]);
    MovedKeyDiffers(cfg, d, t, "", x, y);
  }

  lemma MoveIsProper(cfg: Config, t: Touch, x: Item, y: Item)
    requires Capped(cfg, t.name, t.val) && InAndOut(cfg, t, x, y)
    ensures Proper(cfg, Full(cfg, t), [x, y])
  {
    FullFacts(cfg, t);
    FullAccepts(cfg, t, x);
    FullAccepts(cfg, t, y);
    OrdersOfTwo(cfg, x, y);
  }

  ghost function EnterItem(cfg: Config, t: Touch): Item {
    Explicit(cfg, "b", map[t.name := t.val], 1, [t.name])
  }

  ghost function LeaveItem(cfg: Config): Item {
    Explicit(cfg, "b", map[], 2, [])
  }

  lemma MoveBuilds(cfg: Config, t: Touch)
    requires Capped(cfg, t.name, t.val) && IsFirst(cfg, t)
    ensures InAndOut(cfg, t, EnterItem(cfg, t), LeaveItem(cfg))
  {
    assert Elems([t.name]) == {t.name};
    ExplicitBuilds(cfg, "b", map[t.name := t.val], 1, [t.name]);
    ExplicitBuilds(cfg, "b", map[], 2, []);
    NthIsInjective(cfg.defs[t.name].kind, 2, 0);
  }

  lemma MoveHolds(cfg: Config, t: Touch, x: Row, y: Row)
    requires Capped(cfg, t.name, t.val) && Carries(x, t) && x.order != [] && x.order[0] == t.name && !Carries(y, t)
    requires x.rec.key == y.rec.key == "b"
    ensures Moves(cfg, Contents(Full(cfg, t).recs), t, "", x, y)
  {
    var m := Contents(Full(cfg, t).recs);
    FullFacts(cfg, t);
    TwoRows(cfg, m, x, y);
    var m' := m["b" := y.rec];
    assert Puts(m, [x, y]) == m';
    forall u: Touch | u != t
      ensures Under(cfg, m', u)
    {
      assert Members(Full(cfg, t), u) == {};
      GroupPut(m, y.rec, u.name, u.val);
      SubsetSize(GroupSet(m', u.name, u.val), {"b"});
    }
  }

  lemma OrdersOfTwo(cfg: Config, x: Item, y: Item)
    requires Elems(x.order) == ItemIX(cfg, x).Keys && Elems(y.order) == ItemIX(cfg, y).Keys
    ensures OrdersVisit(cfg, [x, y])
  {
  }

  lemma {:induction false} NoCapsItemByItem(cfg: Config, d: Disk, items: seq<Item>)
    requires Ideal.NoCaps(cfg)
    ensures ItemByItem(cfg, d, items) == AppendItems(cfg, d, items)
    decreases |items|
  {
    if items != [] {
      var init, it := items[..|items| - 1], items[|items| - 1];
      NoCapsItemByItem(cfg, d, init);
      Ideal.NoEviction(cfg, AppendItem(cfg, AppendItems(cfg, d, init), it), ItemIX(cfg, it), it.order);
    }
  }

  /** If batches may also take keys out of their groups, one pass is enough exactly when no index has a cap. */
  lemma MovingPassesAgreeIff(cfg: Config)
    ensures MovingPassesAgree(cfg) <==> Ideal.NoCaps(cfg)
  {
    if Ideal.NoCaps(cfg) {
      forall d, items | Proper(cfg, d, items)
        ensures Agrees(cfg, d, items)
      {
        NoCapsItemByItem(cfg, d, items);
        Ideal.NoBatchEviction(cfg, AppendItems(cfg, d, items), Touches(cfg, items), {});
      }
    } else {
      var name :| name in cfg.defs && cfg.defs[name].max > 0;
      var d, items := OneCapFails(cfg, name);
    }
  }
}

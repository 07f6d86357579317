/** PutBatch: caps after a batch, and when one enforcement pass at the end does what a pass after every append would. */
module Batch {
  import opened Text
  import opened CounterCodec
  import opened SecIndex
  import opened Records
  import opened MainLog
  import opened LogIndex
  import opened Engine
  import opened EngineInv
  import opened EngineView
  import opened Caps

  // ---- recognizing a pair that was already enforced ----

  /** Distinct numbers print differently, and no printed number holds a NUL. */
  ghost predicate SprintLawful(cfg: Config) {
    && (forall a, b :: cfg.sprint(a) == cfg.sprint(b) ==> a == b)
    && forall n :: '\0' !in cfg.sprint(n)
  }

  /** One way to print numbers: the sign, then as many ones. */
  function Unary(n: int): string {
    if n < 0 then "-" + Repeat('1', -n) else Repeat('1', n)
  }

  lemma UnaryIsLawful(cfg: Config)
    requires forall n :: cfg.sprint(n) == Unary(n)
    ensures SprintLawful(cfg)
  {
    forall a, b | cfg.sprint(a) == cfg.sprint(b)
      ensures a == b
    {
      UnaryTells(a);
      UnaryTells(b);
    }
  }

  lemma UnaryTells(n: int)
    ensures |Unary(n)| == if n < 0 then 1 - n else n
    ensures n < 0 <==> Unary(n) != "" && Unary(n)[0] == '-'
  {
  }

  /** The pair names a declared index and carries a value of its kind. */
  predicate Typed(cfg: Config, t: Touch) {
    t.name in cfg.defs && Fits(cfg.defs[t.name].kind, t.val)
  }

  /** The name of string index `m`, followed by a NUL, starts the name of index `n`. */
  predicate Shadows(cfg: Config, m: string, n: string) {
    m in cfg.defs && n in cfg.defs && cfg.defs[m].kind == KindString && m + ['\0'] <= n
  }

  /** Two pairs share a seen key only if the name of one shadows that of the other. */
  lemma SharedSeenKey(cfg: Config, t: Touch, u: Touch)
    requires SprintLawful(cfg) && Typed(cfg, t) && Typed(cfg, u) && SeenKey(cfg, t) == SeenKey(cfg, u) && t != u
    ensures Shadows(cfg, t.name, u.name) || Shadows(cfg, u.name, t.name)
  {
    if |t.name| == |u.name| {
      SameLengthNames(cfg, t, u);
    } else if |t.name| < |u.name| {
      ShorterShadows(cfg, t, u);
    } else {
      ShorterShadows(cfg, u, t);
    }
  }

  lemma SameLengthNames(cfg: Config, t: Touch, u: Touch)
    requires SprintLawful(cfg) && Typed(cfg, t) && Typed(cfg, u)
    requires SeenKey(cfg, t) == SeenKey(cfg, u) && |t.name| == |u.name|
    ensures t == u
  {
    var k := SeenKey(cfg, t);
    assert t.name == k[..|t.name|] == u.name;
    assert Sprint(cfg, t.val) == k[|t.name| + 1..] == Sprint(cfg, u.val);
  }

  lemma ShorterShadows(cfg: Config, t: Touch, u: Touch)
    requires SprintLawful(cfg) && Typed(cfg, t) && Typed(cfg, u)
    requires SeenKey(cfg, t) == SeenKey(cfg, u) && |t.name| < |u.name|
    ensures Shadows(cfg, t.name, u.name)
  {
    var k, n := SeenKey(cfg, t), |t.name|;
    assert t.name + ['\0'] == k[..n + 1] == u.name[..n + 1];
    var printed := Sprint(cfg, t.val);
    assert printed == k[n + 1..];
    assert printed[|u.name| - n - 1] == k[|u.name|] == '\0';
  }

  /** The value of index `m` whose pair shares its seen key with the pair of `n` and `w`. */
  function ShadowOf(cfg: Config, m: string, n: string, w: Value): Touch
    requires Shadows(cfg, m, n)
  {
    Touch(m, Str(n[|m| + 1..] + ['\0'] + Sprint(cfg, w)))
  }

  lemma ShadowCollides(cfg: Config, m: string, n: string, w: Value)
    requires Shadows(cfg, m, n)
    ensures var t := ShadowOf(cfg, m, n, w);
      Typed(cfg, t) && m != n && SeenKey(cfg, t) == SeenKey(cfg, Touch(n, w))
  {
    assert |m + ['\0']| <= |n|;
    assert n == m + ['\0'] + n[|m| + 1..];
  }

  /** A value of the kind for every number. */
  function Nth(kind: Kind, n: nat): (v: Value)
    ensures Fits(kind, v)
  {
    if kind == KindString then Str(Repeat('z', n)) else Num(n)
  }

  /** The seen key tells every two pairs of a schema apart exactly when no declared name shadows another. */
  lemma SeenKeyIsExactIff(cfg: Config)
    requires SprintLawful(cfg)
    ensures (forall t, u :: Typed(cfg, t) && Typed(cfg, u) && SeenKey(cfg, t) == SeenKey(cfg, u) ==> t == u) <==>
            forall m, n :: !Shadows(cfg, m, n)
  {
    if m, n :| Shadows(cfg, m, n) {
      var w := Nth(cfg.defs[n].kind, 0);
      ShadowCollides(cfg, m, n, w);
      assert Typed(cfg, ShadowOf(cfg, m, n, w)) && Typed(cfg, Touch(n, w));
    } else {
      forall t, u | Typed(cfg, t) && Typed(cfg, u) && SeenKey(cfg, t) == SeenKey(cfg, u)
        ensures t == u
      {
        if t != u {
          SharedSeenKey(cfg, t, u);
        }
      }
    }
  }

  /** Names that shadow or are shadowed belong to indexes without a cap. */
  ghost predicate CapsUnshadowed(cfg: Config) {
    forall m, n :: Shadows(cfg, m, n) ==> cfg.defs[m].max <= 0 && cfg.defs[n].max <= 0
  }

  /** Then two pairs that share a seen key are the same pair, or have no cap. */
  lemma SharedKeyIsHarmless(cfg: Config, t: Touch, u: Touch)
    requires SprintLawful(cfg) && CapsUnshadowed(cfg) && Typed(cfg, t) && Typed(cfg, u)
    requires SeenKey(cfg, t) == SeenKey(cfg, u)
    ensures t == u || (!Capped(cfg, t.name, t.val) && !Capped(cfg, u.name, u.val))
  {
    if t != u {
      SharedSeenKey(cfg, t, u);
    }
  }

  // ---- the pass leaves every group at or under its cap ----

  ghost predicate Under(cfg: Config, m: Table, t: Touch) {
    Capped(cfg, t.name, t.val) ==> |GroupSet(m, t.name, t.val)| <= cfg.defs[t.name].max
  }

  /** Only the given pairs may be over their cap. */
  ghost predicate OnlyOver(cfg: Config, m: Table, ts: seq<Touch>) {
    forall t :: Under(cfg, m, t) || t in ts
  }

  lemma UnderShrinks(cfg: Config, m: Table, gone: set<string>, t: Touch)
    requires Under(cfg, m, t)
    ensures Under(cfg, m - gone, t)
  {
    GroupMinus(m, gone, t.name, t.val);
    SubsetSize(GroupSet(m - gone, t.name, t.val), GroupSet(m, t.name, t.val));
  }

  lemma EnforceOneUnder(cfg: Config, d: Disk, t: Touch, u: Touch)
    requires u == t || Under(cfg, Contents(d.recs), u)
    ensures Under(cfg, Contents(EnforceOne(cfg, d, t.name, t.val).recs), u)
  {
    var m := Contents(d.recs);
    EnforceOneTable(cfg, d, t.name, t.val);
    if Capped(cfg, t.name, t.val) {
      var gone := VictimSet(GroupSet(m, t.name, t.val), cfg.defs[t.name].max);
      if u == t {
        EnforcedGroup(cfg, m, t.name, t.val);
      } else {
        UnderShrinks(cfg, m, gone, u);
      }
    }
  }

  lemma {:induction false} EnforceSeenCaps(cfg: Config, d: Disk, ts: seq<Touch>, seen: set<string>)
    requires SprintLawful(cfg) && CapsUnshadowed(cfg) && OnlyOver(cfg, Contents(d.recs), ts)
    requires forall t :: t in ts ==> Typed(cfg, t)
    requires forall t :: t in ts && SeenKey(cfg, t) in seen ==> Under(cfg, Contents(d.recs), t)
    ensures CapsHold(cfg, Contents(EnforceSeen(cfg, d, ts, seen).recs))
    decreases |ts|
  {
    if ts == [] {
      forall name, v | Capped(cfg, name, v)
        ensures |GroupSet(Contents(d.recs), name, v)| <= cfg.defs[name].max
      {
        assert Under(cfg, Contents(d.recs), Touch(name, v));
      }
    } else {
      var t, rest := ts[0], ts[1..];
      assert ts == [t] + rest;
      assert t in ts;
      if SeenKey(cfg, t) in seen {
        EnforceSeenCaps(cfg, d, rest, seen);
      } else {
        EnforceSeenStep(cfg, d, t, rest, seen);
        EnforceSeenCaps(cfg, EnforceOne(cfg, d, t.name, t.val), rest, seen + {SeenKey(cfg, t)});
      }
    }
  }

  lemma EnforceSeenStep(cfg: Config, d: Disk, t: Touch, rest: seq<Touch>, seen: set<string>)
    requires SprintLawful(cfg) && CapsUnshadowed(cfg) && OnlyOver(cfg, Contents(d.recs), [t] + rest)
    requires Typed(cfg, t) && forall u :: u in rest ==> Typed(cfg, u)
    requires forall u :: u in rest && SeenKey(cfg, u) in seen ==> Under(cfg, Contents(d.recs), u)
    ensures var m' := Contents(EnforceOne(cfg, d, t.name, t.val).recs);
      && OnlyOver(cfg, m', rest)
      && forall u :: u in rest && SeenKey(cfg, u) in seen + {SeenKey(cfg, t)} ==> Under(cfg, m', u)
  {
    var m' := Contents(EnforceOne(cfg, d, t.name, t.val).recs);
    forall u
      ensures Under(cfg, m', u) || u in rest
      ensures u in rest && SeenKey(cfg, u) in seen + {SeenKey(cfg, t)} ==> Under(cfg, m', u)
    {
      if u in rest && SeenKey(cfg, u) == SeenKey(cfg, t) {
        SharedKeyIsHarmless(cfg, t, u);
      }
      if u == t || Under(cfg, Contents(d.recs), u) {
        EnforceOneUnder(cfg, d, t, u);
      }
    }
  }

  /** Each item visits all the names of its index values. */
  ghost predicate OrdersVisit(cfg: Config, items: seq<Item>) {
    forall i :: 0 <= i < |items| ==> Elems(items[i].order) == ItemIX(cfg, items[i]).Keys
  }

  lemma {:induction false} TouchesOfIff(ix: IX, order: seq<string>, t: Touch)
    ensures t in TouchesOf(ix, order) <==> t.name in order && t.name in ix && ix[t.name] == t.val
    decreases |order|
  {
    if order != [] {
      TouchesOfIff(ix, order[1..], t);
      assert order == [order[0]] + order[1..];
    }
  }

  lemma ItemIXValid(cfg: Config, it: Item)
    ensures ValidFor(cfg, ItemIX(cfg, it))
  {
  }

  lemma {:induction false} TouchesTyped(cfg: Config, items: seq<Item>, t: Touch)
    requires t in Touches(cfg, items)
    ensures Typed(cfg, t)
    decreases |items|
  {
    var init, it := items[..|items| - 1], items[|items| - 1];
    TouchesOfIff(ItemIX(cfg, it), it.order, t);
    ItemIXValid(cfg, it);
    if t in Touches(cfg, init) {
      TouchesTyped(cfg, init, t);
    }
  }

  /** Appending the items pushes only touched groups over their caps. */
  lemma {:induction false} AppendItemsOver(cfg: Config, d: Disk, items: seq<Item>)
    requires CapsHold(cfg, Contents(d.recs)) && OrdersVisit(cfg, items)
    ensures OnlyOver(cfg, Contents(AppendItems(cfg, d, items).recs), Touches(cfg, items))
    decreases |items|
  {
    if items != [] {
      var init, it := items[..|items| - 1], items[|items| - 1];
      var d0, ix := AppendItems(cfg, d, init), ItemIX(cfg, it);
      AppendItemsOver(cfg, d, init);
      var r := NewRecord(cfg, d0, it.key, it.value, ix, ItemExp(it), false);
      ContentsSnoc(d0.recs, r);
      var m := Contents(d0.recs);
      forall t
        ensures Under(cfg, m[r.key := r], t) || t in Touches(cfg, items)
      {
        TouchesOfIff(ix, it.order, t);
        assert t.name in it.order <==> t.name in Elems(it.order);
        GroupPut(m, r, t.name, t.val);
        if !(t.name in ix && ix[t.name] == t.val) {
          SubsetSize(GroupSet(m[r.key := r], t.name, t.val), GroupSet(m, t.name, t.val));
        }
      }
    }
  }

  /** From groups at or under their caps, a batch leaves every group at or under its cap, if no capped index shadows
      or is shadowed. */
  lemma BatchKeepsCaps(cfg: Config, d: Disk, items: seq<Item>)
    requires CapsHold(cfg, Contents(d.recs)) && OrdersVisit(cfg, items)
    requires SprintLawful(cfg) && CapsUnshadowed(cfg)
    ensures CapsHold(cfg, Contents(PutBatch(cfg, d, items).recs))
  {
    AppendItemsOver(cfg, d, items);
    forall t | t in Touches(cfg, items)
      ensures Typed(cfg, t)
    {
      TouchesTyped(cfg, items, t);
    }
    EnforceSeenCaps(cfg, AppendItems(cfg, d, items), Touches(cfg, items), {});
  }

  // ---- the same as enforcing after every append ----

  /** The keys a cap leaves in a group. */
  ghost function Keep(g: set<string>, max: int): set<string> {
    g - VictimSet(g, max)
  }

  lemma KeepIff(g: set<string>, max: int, x: string)
    requires max > 0
    ensures x in Keep(g, max) <==> x in g && |Higher(g, x)| < max
  {
    if x in g {
      VictimIff(g, max, x);
    }
  }

  /** If a member is not kept, `max` keys are kept and all of them sort above it. */
  lemma KeptAreHigher(g: set<string>, max: int, y: string)
    requires max > 0 && y in g && y !in Keep(g, max)
    ensures |Keep(g, max)| == max
    ensures forall z :: z in Keep(g, max) ==> Lt(y, z)
  {
    VictimSetSize(g, max);
    forall z | z in Keep(g, max)
      ensures Lt(y, z)
    {
      VictimsSortBelow(g, max, y, z);
    }
  }

  /** Trimming early changes nothing: the kept keys of a union depend only on the kept keys of its parts. */
  lemma KeepUnion(g: set<string>, b: set<string>, max: int)
    requires max > 0
    ensures Keep(Keep(g, max) + b, max) == Keep(g + b, max)
  {
    var g' := Keep(g, max);
    forall x
      ensures x in Keep(g' + b, max) <==> x in Keep(g + b, max)
    {
      KeepIff(g + b, max, x);
      KeepIff(g' + b, max, x);
      KeepIff(g, max, x);
      SubsetSize(Higher(g' + b, x), Higher(g + b, x));
      SubsetSize(Higher(g, x), Higher(g + b, x));
      if x in Keep(g' + b, max) {
        KeepUnionBack(g, b, max, x);
      }
    }
  }

  lemma KeepUnionBack(g: set<string>, b: set<string>, max: int, x: string)
    requires max > 0 && |Higher(Keep(g, max) + b, x)| < max
    ensures |Higher(g + b, x)| < max
  {
    var g' := Keep(g, max);
    if y :| y in Higher(g, x) && y !in g' {
      KeptAreHigher(g, max, y);
      forall z | z in g'
        ensures z in Higher(g' + b, x)
      {
        LtTransitive(x, y, z);
      }
      SubsetSize(g', Higher(g' + b, x));
    } else {
      assert Higher(g + b, x) == Higher(g' + b, x);
    }
  }

  // ---- at most one capped value per record ----

  /** The value of index `name` in `ix` is capped. */
  ghost predicate CapOn(cfg: Config, ix: IX, name: string) {
    name in ix && Capped(cfg, name, ix[name])
  }

  /** At most one of the values is capped. */
  ghost predicate Single(cfg: Config, ix: IX) {
    forall a, b :: CapOn(cfg, ix, a) && CapOn(cfg, ix, b) ==> a == b
  }

  ghost predicate AllSingle(cfg: Config, m: Table) {
    forall k :: k in m ==> Single(cfg, m[k].ix)
  }

  /** Key `k` is among the kept keys of each of its groups. */
  ghost predicate Stays(cfg: Config, m: Table, k: string)
    requires k in m
  {
    forall name :: CapOn(cfg, m[k].ix, name) ==>
      k in Keep(GroupSet(m, name, m[k].ix[name]), cfg.defs[name].max)
  }

  /** The table with every capped group trimmed to its cap. */
  ghost function Trim(cfg: Config, m: Table): Table {
    map k | k in m && Stays(cfg, m, k) :: m[k]
  }

  lemma StaysIff(cfg: Config, m: Table, k: string, name: string)
    requires k in m && Single(cfg, m[k].ix) && CapOn(cfg, m[k].ix, name)
    ensures Stays(cfg, m, k) <==> k in Keep(GroupSet(m, name, m[k].ix[name]), cfg.defs[name].max)
  {
  }

  /** Trimming keeps of each capped group the highest keys. */
  lemma TrimGroup(cfg: Config, m: Table, name: string, v: Value)
    requires AllSingle(cfg, m) && Capped(cfg, name, v)
    ensures GroupSet(Trim(cfg, m), name, v) == Keep(GroupSet(m, name, v), cfg.defs[name].max)
  {
    forall k | k in GroupSet(m, name, v)
      ensures k in Trim(cfg, m) <==> k in Keep(GroupSet(m, name, v), cfg.defs[name].max)
    {
      StaysIff(cfg, m, k, name);
    }
  }

  lemma TrimNothing(cfg: Config, m: Table)
    requires CapsHold(cfg, m)
    ensures Trim(cfg, m) == m
  {
    forall k, name | k in m && CapOn(cfg, m[k].ix, name)
      ensures k in Keep(GroupSet(m, name, m[k].ix[name]), cfg.defs[name].max)
    {
      VictimSetSize(GroupSet(m, name, m[k].ix[name]), cfg.defs[name].max);
    }
  }

  /** Writing `ix` under `key` takes no stored key out of a capped group. */
  ghost predicate StaysPut(cfg: Config, m: Table, key: string, ix: IX) {
    key in m ==> forall name :: CapOn(cfg, m[key].ix, name) ==> name in ix && ix[name] == m[key].ix[name]
  }

  /** Trimming before a write that takes nothing out of a group makes no difference to trimming after. */
  lemma TrimPut(cfg: Config, m: Table, r: Record)
    requires AllSingle(cfg, m) && Single(cfg, r.ix) && StaysPut(cfg, m, r.key, r.ix)
    ensures Trim(cfg, Trim(cfg, m)[r.key := r]) == Trim(cfg, m[r.key := r])
  {
    var a, b := Trim(cfg, m)[r.key := r], m[r.key := r];
    forall k
      ensures k in Trim(cfg, a) <==> k in Trim(cfg, b)
    {
      if k in b {
        TrimPutKey(cfg, m, r, k);
      }
    }
    assert Trim(cfg, a).Keys == Trim(cfg, b).Keys;
  }

  lemma TrimPutKey(cfg: Config, m: Table, r: Record, k: string)
    requires AllSingle(cfg, m) && Single(cfg, r.ix) && StaysPut(cfg, m, r.key, r.ix) && k in m[r.key := r]
    ensures k in Trim(cfg, Trim(cfg, m)[r.key := r]) <==> k in Trim(cfg, m[r.key := r])
  {
    var a, b := Trim(cfg, m)[r.key := r], m[r.key := r];
    if name :| CapOn(cfg, b[k].ix, name) {
      var v, max := b[k].ix[name], cfg.defs[name].max;
      StaysIff(cfg, b, k, name);
      PutGroups(cfg, m, r, name, v);
      assert k in GroupSet(b, name, v);
      if k in a {
        StaysIff(cfg, a, k, name);
      }
    }
  }

  /** What the write does to one capped group, trimmed before or not. */
  lemma PutGroups(cfg: Config, m: Table, r: Record, name: string, v: Value)
    requires AllSingle(cfg, m) && StaysPut(cfg, m, r.key, r.ix) && Capped(cfg, name, v)
    ensures var max := cfg.defs[name].max;
      && Keep(GroupSet(Trim(cfg, m)[r.key := r], name, v), max) == Keep(GroupSet(m[r.key := r], name, v), max)
      && Keep(GroupSet(m[r.key := r], name, v), max) <= GroupSet(Trim(cfg, m)[r.key := r], name, v)
  {
    var g, max := GroupSet(m, name, v), cfg.defs[name].max;
    var own := if name in r.ix && r.ix[name] == v then {r.key} else {};
    TrimGroup(cfg, m, name, v);
    if r.key in g {
      assert CapOn(cfg, m[r.key].ix, name);
    }
    GroupGains(m, r, name, v, own);
    GroupGains(Trim(cfg, m), r, name, v, own);
    KeepUnion(g, own, max);
  }

  lemma GroupGains(m: Table, r: Record, name: string, v: Value, own: set<string>)
    requires own == if name in r.ix && r.ix[name] == v then {r.key} else {}
    requires own == {} ==> r.key !in GroupSet(m, name, v)
    ensures GroupSet(m[r.key := r], name, v) == GroupSet(m, name, v) + own
  {
    GroupPut(m, r, name, v);
  }

  // ---- enforcing removes only what trimming removes anyway ----

  lemma EnforceOneTrim(cfg: Config, d: Disk, t: Touch)
    requires AllSingle(cfg, Contents(d.recs))
    ensures var m' := Contents(EnforceOne(cfg, d, t.name, t.val).recs);
      AllSingle(cfg, m') && Trim(cfg, m') == Trim(cfg, Contents(d.recs))
  {
    EnforceOneTable(cfg, d, t.name, t.val);
    if Capped(cfg, t.name, t.val) {
      var m := Contents(d.recs);
      var gone := VictimSet(GroupSet(m, t.name, t.val), cfg.defs[t.name].max);
      forall k
        ensures k in Trim(cfg, m - gone) <==> k in Trim(cfg, m)
      {
        if k in m {
          EnforcedStays(cfg, m, t, k);
        }
      }
      assert Trim(cfg, m - gone).Keys == Trim(cfg, m).Keys;
    }
  }

  lemma EnforcedStays(cfg: Config, m: Table, t: Touch, k: string)
    requires AllSingle(cfg, m) && Capped(cfg, t.name, t.val) && k in m
    ensures var gone := VictimSet(GroupSet(m, t.name, t.val), cfg.defs[t.name].max);
      k in m - gone && Stays(cfg, m - gone, k) <==> Stays(cfg, m, k)
  {
    var g, max := GroupSet(m, t.name, t.val), cfg.defs[t.name].max;
    var gone := VictimSet(g, max);
    VictimSetSize(g, max);
    if k in g {
      StaysIff(cfg, m, k, t.name);
      GroupMinus(m, gone, t.name, t.val);
      KeepUnion(g, {}, max);
      assert Keep(g, max) + {} == Keep(g, max) && g + {} == g;
      if k !in gone {
        StaysIff(cfg, m - gone, k, t.name);
      }
    } else {
      forall name | CapOn(cfg, m[k].ix, name)
        ensures GroupSet(m - gone, name, m[k].ix[name]) == GroupSet(m, name, m[k].ix[name])
      {
        OtherGroupStays(cfg, m, t, gone, name, m[k].ix[name]);
      }
    }
  }

  /** Two capped groups share no key. */
  lemma OtherGroupStays(cfg: Config, m: Table, t: Touch, gone: set<string>, name: string, v: Value)
    requires AllSingle(cfg, m) && Capped(cfg, t.name, t.val) && Capped(cfg, name, v) && t != Touch(name, v)
    requires gone <= GroupSet(m, t.name, t.val)
    ensures GroupSet(m - gone, name, v) == GroupSet(m, name, v)
  {
    GroupMinus(m, gone, name, v);
    forall k | k in GroupSet(m, name, v)
      ensures k !in gone
    {
      if k in gone {
        assert CapOn(cfg, m[k].ix, name) && CapOn(cfg, m[k].ix, t.name);
      }
    }
  }

  lemma {:induction false} EnforceSeenTrim(cfg: Config, d: Disk, ts: seq<Touch>, seen: set<string>)
    requires AllSingle(cfg, Contents(d.recs))
    ensures Trim(cfg, Contents(EnforceSeen(cfg, d, ts, seen).recs)) == Trim(cfg, Contents(d.recs))
    decreases |ts|
  {
    if ts != [] {
      if SeenKey(cfg, ts[0]) in seen {
        EnforceSeenTrim(cfg, d, ts[1..], seen);
      } else {
        EnforceOneTrim(cfg, d, ts[0]);
        EnforceSeenTrim(cfg, EnforceOne(cfg, d, ts[0].name, ts[0].val), ts[1..], seen + {SeenKey(cfg, ts[0])});
      }
    }
  }

  lemma {:induction false} EnforceTrim(cfg: Config, d: Disk, ix: IX, order: seq<string>)
    requires AllSingle(cfg, Contents(d.recs))
    ensures Trim(cfg, Contents(Enforce(cfg, d, ix, order).recs)) == Trim(cfg, Contents(d.recs))
    ensures Enforce(cfg, d, ix, order).blobs == d.blobs && Enforce(cfg, d, ix, order).curGen == d.curGen
    decreases |order|
  {
    if order != [] {
      if order[0] in ix {
        EnforceOneTrim(cfg, d, Touch(order[0], ix[order[0]]));
        EnforceOneTable(cfg, d, order[0], ix[order[0]]);
        EnforceTrim(cfg, EnforceOne(cfg, d, order[0], ix[order[0]]), ix, order[1..]);
      } else {
        EnforceTrim(cfg, d, ix, order[1..]);
      }
    }
  }

  /** Enforcing all written values, whether or not the written key survives, brings every group under its cap. */
  lemma {:induction false} EnforceCaps(cfg: Config, d: Disk, ix: IX, order: seq<string>, pending: set<string>)
    requires CapsHoldBut(cfg, Contents(d.recs), ix, pending)
    ensures CapsHoldBut(cfg, Contents(Enforce(cfg, d, ix, order).recs), ix, pending - Elems(order))
    decreases |order|
  {
    if order == [] {
      assert pending - Elems(order) == pending;
    } else {
      var name, rest := order[0], order[1..];
      assert order == [name] + rest;
      assert Elems(order) == {name} + Elems(rest);
      if name in ix {
        var m, v := Contents(d.recs), ix[name];
        EnforceOneTable(cfg, d, name, v);
        if Capped(cfg, name, v) {
          var gone := VictimSet(GroupSet(m, name, v), cfg.defs[name].max);
          EnforcedGroup(cfg, m, name, v);
          EnforceKeepsOthers(cfg, m, gone, ix, pending, name, v);
        }
        EnforceCaps(cfg, EnforceOne(cfg, d, name, v), ix, rest, pending - {name});
        assert pending - {name} - Elems(rest) == pending - Elems(order);
      } else {
        EnforceCaps(cfg, d, ix, rest, pending);
      }
    }
  }

  /** Appending and enforcing item by item. */
  ghost function ItemByItem(cfg: Config, d: Disk, items: seq<Item>): Disk {
    if items == [] then d
    else
      var it := items[|items| - 1];
      Enforce(cfg, AppendItem(cfg, ItemByItem(cfg, d, items[..|items| - 1]), it), ItemIX(cfg, it), it.order)
  }

  /** The item carries at most one capped value and takes no key of `d` out of a capped group. */
  ghost predicate ItemStays(cfg: Config, d: Disk, it: Item) {
    Single(cfg, ItemIX(cfg, it)) && StaysPut(cfg, Contents(d.recs), it.key, ItemIX(cfg, it))
  }

  /** So does each item against the appends before it. */
  ghost predicate NoneMoves(cfg: Config, d: Disk, items: seq<Item>) {
    forall i :: 0 <= i < |items| ==> ItemStays(cfg, AppendItems(cfg, d, items[..i]), items[i])
  }

  /** The item-by-item store `p` against the append-only store `q`. */
  ghost predicate Trims(cfg: Config, p: Disk, q: Disk) {
    && AllSingle(cfg, Contents(q.recs))
    && Contents(p.recs) == Trim(cfg, Contents(q.recs))
    && CapsHold(cfg, Contents(p.recs))
    && p.blobs == q.blobs && p.curGen == q.curGen
  }

  ghost function AppendItem(cfg: Config, d: Disk, it: Item): Disk {
    Append(cfg, d, it.key, it.value, ItemIX(cfg, it), ItemExp(it), false)
  }

  lemma AppendItemTable(cfg: Config, d: Disk, it: Item) returns (r: Record)
    ensures r == NewRecord(cfg, d, it.key, it.value, ItemIX(cfg, it), ItemExp(it), false)
    ensures r.key == it.key && r.ix == ItemIX(cfg, it)
    ensures Contents(AppendItem(cfg, d, it).recs) == Contents(d.recs)[it.key := r]
  {
    r := NewRecord(cfg, d, it.key, it.value, ItemIX(cfg, it), ItemExp(it), false);
    ContentsSnoc(d.recs, r);
  }

  /** A record written into a trimmed table and into the whole one. */
  lemma WrittenTrims(cfg: Config, m: Table, r: Record)
    requires AllSingle(cfg, m) && CapsHold(cfg, Trim(cfg, m)) && Single(cfg, r.ix) && StaysPut(cfg, m, r.key, r.ix)
    ensures var a, b := Trim(cfg, m)[r.key := r], m[r.key := r];
      && AllSingle(cfg, a) && AllSingle(cfg, b) && Trim(cfg, a) == Trim(cfg, b)
      && CapsHoldBut(cfg, a, r.ix, r.ix.Keys)
  {
    TrimPut(cfg, m, r);
    WrittenTable(cfg, Trim(cfg, m), r);
  }

  /** Both stores gain the same record, and the item-by-item one enforces its values. */
  lemma RecordTrims(cfg: Config, p: Disk, q: Disk, p': Disk, q': Disk, r: Record, order: seq<string>)
    requires Trims(cfg, p, q) && Elems(order) == r.ix.Keys
    requires Single(cfg, r.ix) && StaysPut(cfg, Contents(q.recs), r.key, r.ix)
    requires Contents(p'.recs) == Contents(p.recs)[r.key := r] && Contents(q'.recs) == Contents(q.recs)[r.key := r]
    requires p'.blobs == q'.blobs && p'.curGen == q'.curGen
    ensures Trims(cfg, Enforce(cfg, p', r.ix, order), q')
  {
    WrittenTrims(cfg, Contents(q.recs), r);
    EnforcedTrims(cfg, p', q', r.ix, order);
  }

  lemma ItemTrims(cfg: Config, p: Disk, q: Disk, it: Item)
    requires Trims(cfg, p, q) && Elems(it.order) == ItemIX(cfg, it).Keys
    requires ItemStays(cfg, q, it)
    ensures Trims(cfg, Enforce(cfg, AppendItem(cfg, p, it), ItemIX(cfg, it), it.order), AppendItem(cfg, q, it))
  {
    var r := AppendItemTable(cfg, p, it);
    var r' := AppendItemTable(cfg, q, it);
    SameAppend(cfg, p, q, it);
    RecordTrims(cfg, p, q, AppendItem(cfg, p, it), AppendItem(cfg, q, it), r, it.order);
  }

  lemma SameAppend(cfg: Config, p: Disk, q: Disk, it: Item)
    requires p.blobs == q.blobs && p.curGen == q.curGen
    ensures var ix := ItemIX(cfg, it);
      NewRecord(cfg, p, it.key, it.value, ix, ItemExp(it), false) ==
      NewRecord(cfg, q, it.key, it.value, ix, ItemExp(it), false)
    ensures AppendItem(cfg, p, it).blobs == AppendItem(cfg, q, it).blobs
    ensures AppendItem(cfg, p, it).curGen == AppendItem(cfg, q, it).curGen
  {
  }

  /** Enforcing all written values of the item-by-item store brings it back in line. */
  lemma EnforcedTrims(cfg: Config, p: Disk, q: Disk, ix: IX, order: seq<string>)
    requires AllSingle(cfg, Contents(p.recs)) && AllSingle(cfg, Contents(q.recs))
    requires Trim(cfg, Contents(p.recs)) == Trim(cfg, Contents(q.recs))
    requires CapsHoldBut(cfg, Contents(p.recs), ix, ix.Keys) && Elems(order) == ix.Keys
    requires p.blobs == q.blobs && p.curGen == q.curGen
    ensures Trims(cfg, Enforce(cfg, p, ix, order), q)
  {
    EnforceCapsAll(cfg, p, ix, order);
    EnforceTrim(cfg, p, ix, order);
    TrimNothing(cfg, Contents(Enforce(cfg, p, ix, order).recs));
  }

  lemma EnforceCapsAll(cfg: Config, d: Disk, ix: IX, order: seq<string>)
    requires CapsHoldBut(cfg, Contents(d.recs), ix, ix.Keys) && Elems(order) == ix.Keys
    ensures CapsHold(cfg, Contents(Enforce(cfg, d, ix, order).recs))
  {
    EnforceCaps(cfg, d, ix, order, ix.Keys);
    assert ix.Keys - Elems(order) == {};
  }

  /** Item-by-item enforcement always leaves the trimmed table of all the appends. */
  lemma {:induction false} ItemByItemTrims(cfg: Config, d: Disk, items: seq<Item>)
    requires AllSingle(cfg, Contents(d.recs)) && CapsHold(cfg, Contents(d.recs))
    requires OrdersVisit(cfg, items) && NoneMoves(cfg, d, items)
    ensures Trims(cfg, ItemByItem(cfg, d, items), AppendItems(cfg, d, items))
    decreases |items|
  {
    if items == [] {
      TrimNothing(cfg, Contents(d.recs));
    } else {
      var init, it := items[..|items| - 1], items[|items| - 1];
      NoneMovesPrefix(cfg, d, items);
      ItemByItemTrims(cfg, d, init);
      ItemTrims(cfg, ItemByItem(cfg, d, init), AppendItems(cfg, d, init), it);
      assert AppendItems(cfg, d, items) == AppendItem(cfg, AppendItems(cfg, d, init), it);
    }
  }

  lemma NoneMovesPrefix(cfg: Config, d: Disk, items: seq<Item>)
    requires items != [] && NoneMoves(cfg, d, items)
    ensures var init, it := items[..|items| - 1], items[|items| - 1];
      NoneMoves(cfg, d, init) && ItemStays(cfg, AppendItems(cfg, d, init), it)
  {
    var init := items[..|items| - 1];
    assert forall i :: 0 <= i < |init| ==> init[..i] == items[..i];
  }

  /** If every record carries at most one capped value and no item takes a present key out of its group, one pass
      at the end leaves the same records as a pass after every append: of each group, the highest keys up to the
      cap. */
  lemma OnePassSuffices(cfg: Config, d: Disk, items: seq<Item>)
    requires AllSingle(cfg, Contents(d.recs)) && CapsHold(cfg, Contents(d.recs))
    requires OrdersVisit(cfg, items) && NoneMoves(cfg, d, items) && BatchAccepted(cfg, d, items)
    requires SprintLawful(cfg) && CapsUnshadowed(cfg)
    ensures Contents(PutBatch(cfg, d, items).recs) == Contents(ItemByItem(cfg, d, items).recs)
    ensures forall name, v :: Capped(cfg, name, v) ==>
      GroupSet(Contents(PutBatch(cfg, d, items).recs), name, v) ==
      Keep(GroupSet(Contents(AppendItems(cfg, d, items).recs), name, v), cfg.defs[name].max)
  {
    var all, onePass := AppendItems(cfg, d, items), PutBatch(cfg, d, items);
    BatchKeepsCaps(cfg, d, items);
    ItemByItemTrims(cfg, d, items);
    EnforceSeenTrim(cfg, all, Touches(cfg, items), {});
    TrimNothing(cfg, Contents(onePass.recs));
    forall name, v | Capped(cfg, name, v)
      ensures GroupSet(Contents(onePass.recs), name, v) ==
              Keep(GroupSet(Contents(all.recs), name, v), cfg.defs[name].max)
    {
      TrimGroup(cfg, Contents(all.recs), name, v);
    }
  }
}

/** MaxPerValue: what eviction removes, and when a write survives its own enforcement pass. */
module Caps {
  import opened Text
  import opened Wrappers
  import opened CounterCodec
  import opened SecIndex
  import opened Records
  import opened MainLog
  import opened LogIndex
  import opened Engine
  import opened EngineInv
  import opened EngineView

  type Table = map<string, Record>

  /** Every group of every capped index is at or under its cap. */
  ghost predicate CapsHold(cfg: Config, m: Table) {
    forall name, v :: Capped(cfg, name, v) ==> |GroupSet(m, name, v)| <= cfg.defs[name].max
  }

  // ---- eviction on sets of keys ----

  ghost function VictimSet(g: set<string>, max: int): set<string> {
    Elems(Victims(SortedKeys(g), max))
  }

  /** How many keys a cap removes, and that it removes them from the group. */
  lemma VictimSetSize(g: set<string>, max: int)
    ensures VictimSet(g, max) <= g
    ensures |VictimSet(g, max)| == if max > 0 && |g| > max then |g| - max else 0
    ensures |g - VictimSet(g, max)| == |g| - |VictimSet(g, max)|
  {
    var s := SortedKeys(g);
    var v := Victims(s, max);
    assert Ascending(v);
    AscendingSize(v);
    forall x | x in VictimSet(g, max)
      ensures x in g
    {
      var i :| 0 <= i < |v| && v[i] == x;
      assert s[i] in Elems(s);
    }
  }

  ghost function Higher(g: set<string>, key: string): set<string> {
    set k | k in g && Lt(key, k)
  }

  /** A member is evicted exactly when at least `max` members sort above it. */
  lemma VictimIff(g: set<string>, max: int, key: string)
    requires key in g && max > 0
    ensures key in VictimSet(g, max) <==> |Higher(g, key)| >= max
  {
    var s := SortedKeys(g);
    assert key in Elems(s);
    var i :| 0 <= i < |s| && s[i] == key;
    HigherIsTail(s, g, i);
    var v := Victims(s, max);
    if key in VictimSet(g, max) {
      var j :| 0 <= j < |v| && v[j] == key;
      LtIrreflexive(key);
      assert s[j] == key;
      assert i == j;
    }
    if |Higher(g, key)| >= max {
      assert v[i] == key;
    }
  }

  lemma HigherIsTail(s: seq<string>, g: set<string>, i: nat)
    requires Ascending(s) && Elems(s) == g && i < |s|
    ensures |Higher(g, s[i])| == |s| - 1 - i
  {
    var t := s[i + 1..];
    assert Ascending(t);
    AscendingSize(t);
    forall k
      ensures k in Elems(t) <==> k in Higher(g, s[i])
    {
      if k in Elems(t) {
        var j :| 0 <= j < |t| && t[j] == k;
        assert s[i + 1 + j] == k && k in Elems(s);
      }
      if k in Higher(g, s[i]) {
        assert k in Elems(s);
        var j :| 0 <= j < |s| && s[j] == k;
        if j < i {
          LtAsymmetric(s[j], s[i]);
        }
        LtIrreflexive(s[i]);
        assert t[j - i - 1] == k;
      }
    }
    assert Elems(t) == Higher(g, s[i]);
  }

  lemma SubsetSize(a: set<string>, b: set<string>)
    requires a <= b
    ensures |a| <= |b|
    ensures |a| == |b| ==> a == b
  {
    var rest := b - a;
    assert b == a + rest;
    assert |b| == |a| + |rest|;
  }

  // ---- enforcement on the table ----

  lemma EnforceOneTable(cfg: Config, d: Disk, name: string, v: Value)
    ensures EnforceOne(cfg, d, name, v).blobs == d.blobs && EnforceOne(cfg, d, name, v).curGen == d.curGen
    ensures Contents(EnforceOne(cfg, d, name, v).recs) ==
            if Capped(cfg, name, v) then
              Contents(d.recs) - VictimSet(GroupSet(Contents(d.recs), name, v), cfg.defs[name].max)
            else Contents(d.recs)
  {
    if Capped(cfg, name, v) {
      ContentsDeleteAll(d, Victims(Group(d, name, v), cfg.defs[name].max));
    }
  }

  /** Removing keys only shrinks groups. */
  lemma GroupMinus(m: Table, gone: set<string>, name: string, v: Value)
    ensures GroupSet(m - gone, name, v) == GroupSet(m, name, v) - gone
  {
  }

  /** After enforcement the group is at or under its cap. */
  lemma EnforcedGroup(cfg: Config, m: Table, name: string, v: Value)
    requires Capped(cfg, name, v)
    ensures var g := GroupSet(m, name, v);
      |GroupSet(m - VictimSet(g, cfg.defs[name].max), name, v)| <= cfg.defs[name].max
  {
    var g := GroupSet(m, name, v);
    VictimSetSize(g, cfg.defs[name].max);
    GroupMinus(m, VictimSet(g, cfg.defs[name].max), name, v);
  }

  /** `m` is what is left of `m0` with `r` written into it: some other keys may be gone. */
  ghost predicate Remains(m0: Table, r: Record, m: Table) {
    && r.key in m && m[r.key] == r
    && forall k :: k in m && k != r.key ==> k in m0 && m[k] == m0[k]
  }

  /** Caps hold except perhaps for the written values of the pending indexes. */
  ghost predicate CapsHoldBut(cfg: Config, m: Table, ix: IX, pending: set<string>) {
    forall name, v :: Capped(cfg, name, v) && !(name in pending && name in ix && v == ix[name]) ==>
      |GroupSet(m, name, v)| <= cfg.defs[name].max
  }

  lemma RemainsGroup(m0: Table, r: Record, m: Table, name: string, v: Value)
    requires Remains(m0, r, m)
    ensures GroupSet(m, name, v) <= GroupSet(m0, name, v) + {r.key}
    ensures !(name in r.ix && v == r.ix[name]) ==> GroupSet(m, name, v) <= GroupSet(m0, name, v)
    ensures name in r.ix && v == r.ix[name] ==> r.key in GroupSet(m, name, v)
  {
  }

  /** Enforcing one written value brings its group under the cap and spares the written key. */
  lemma EnforceSpares(cfg: Config, m0: Table, d: Disk, r: Record, name: string, pending: set<string>)
    requires CapsHold(cfg, m0) && Remains(m0, r, Contents(d.recs)) && name in r.ix
    requires CapsHoldBut(cfg, Contents(d.recs), r.ix, pending)
    requires Capped(cfg, name, r.ix[name]) ==>
      var g0 := GroupSet(m0, name, r.ix[name]);
      r.key !in g0 ==> r.key !in VictimSet(g0 + {r.key}, cfg.defs[name].max)
    ensures Remains(m0, r, Contents(EnforceOne(cfg, d, name, r.ix[name]).recs))
    ensures CapsHoldBut(cfg, Contents(EnforceOne(cfg, d, name, r.ix[name]).recs), r.ix, pending - {name})
  {
    var v, m := r.ix[name], Contents(d.recs);
    EnforceOneTable(cfg, d, name, v);
    if Capped(cfg, name, v) {
      var max, g, g0 := cfg.defs[name].max, GroupSet(m, name, v), GroupSet(m0, name, v);
      RemainsGroup(m0, r, m, name, v);
      VictimSetSize(g, max);
      EnforcedGroup(cfg, m, name, v);
      SubsetSize(g, g0 + {r.key});
      var gone := VictimSet(g, max);
      assert r.key !in gone by {
        if |g| > max {
          assert |g0| <= max;
          assert |g0 + {r.key}| == if r.key in g0 then |g0| else |g0| + 1;
        }
      }
      EnforceKeepsOthers(cfg, m, gone, r.ix, pending, name, v);
    }
  }

  lemma EnforceKeepsOthers(cfg: Config, m: Table, gone: set<string>, ix: IX, pending: set<string>, name: string,
      v: Value)
    requires CapsHoldBut(cfg, m, ix, pending)
    requires name in ix && v == ix[name] && Capped(cfg, name, v)
    requires |GroupSet(m - gone, name, v)| <= cfg.defs[name].max
    ensures CapsHoldBut(cfg, m - gone, ix, pending - {name})
  {
    forall n, w | Capped(cfg, n, w) && !(n in pending - {name} && n in ix && w == ix[n])
      ensures |GroupSet(m - gone, n, w)| <= cfg.defs[n].max
    {
      if !(n == name && w == v) {
        GroupMinus(m, gone, n, w);
        SubsetSize(GroupSet(m - gone, n, w), GroupSet(m, n, w));
      }
    }
  }

  lemma {:induction false} EnforceAllSpares(cfg: Config, m0: Table, d: Disk, r: Record, order: seq<string>,
      pending: set<string>)
    requires CapsHold(cfg, m0) && Remains(m0, r, Contents(d.recs))
    requires CapsHoldBut(cfg, Contents(d.recs), r.ix, pending)
    requires forall name :: name in r.ix && Capped(cfg, name, r.ix[name]) ==>
      var g0 := GroupSet(m0, name, r.ix[name]);
      r.key !in g0 ==> r.key !in VictimSet(g0 + {r.key}, cfg.defs[name].max)
    ensures Remains(m0, r, Contents(Enforce(cfg, d, r.ix, order).recs))
    ensures CapsHoldBut(cfg, Contents(Enforce(cfg, d, r.ix, order).recs), r.ix, pending - Elems(order))
    decreases |order|
  {
    if order == [] {
      assert pending - Elems(order) == pending;
    } else {
      var name, rest := order[0], order[1..];
      assert order == [name] + rest;
      assert Elems(order) == {name} + Elems(rest);
      if name in r.ix {
        EnforceSpares(cfg, m0, d, r, name, pending);
        EnforceAllSpares(cfg, m0, EnforceOne(cfg, d, name, r.ix[name]), r, rest, pending - {name});
        assert pending - {name} - Elems(rest) == pending - Elems(order);
      } else {
        EnforceAllSpares(cfg, m0, d, r, rest, pending);
      }
    }
  }

  lemma WrittenTable(cfg: Config, m0: Table, r: Record)
    requires CapsHold(cfg, m0)
    ensures Remains(m0, r, m0[r.key := r])
    ensures CapsHoldBut(cfg, m0[r.key := r], r.ix, r.ix.Keys)
  {
    var m := m0[r.key := r];
    forall name, v | Capped(cfg, name, v) && !(name in r.ix.Keys && name in r.ix && v == r.ix[name])
      ensures |GroupSet(m, name, v)| <= cfg.defs[name].max
    {
      RemainsGroup(m0, r, m, name, v);
      SubsetSize(GroupSet(m, name, v), GroupSet(m0, name, v));
    }
  }

  /** From groups at or under their caps, an accepted write leaves its own record live and every group at or
      under its cap, however the index names are ordered and however evictions cascade. */
  lemma WriteSurvives(cfg: Config, d: Disk, key: string, value: string, explicit: IX, exp: int, order: seq<string>)
    requires CapsHold(cfg, Contents(d.recs)) && Accepted(cfg, d, key, value, explicit)
    requires Elems(order) == BuildIX(cfg, key, value, explicit).value.Keys
    ensures var ix := BuildIX(cfg, key, value, explicit).value;
      var after := Contents(Put(cfg, d, key, value, explicit, exp, order).recs);
      && Remains(Contents(d.recs), NewRecord(cfg, d, key, value, ix, exp, false), after)
      && CapsHold(cfg, after)
  {
    var ix := BuildIX(cfg, key, value, explicit).value;
    var d1 := Append(cfg, d, key, value, ix, exp, false);
    var r := NewRecord(cfg, d, key, value, ix, exp, false);
    var m0 := Contents(d.recs);
    ContentsSnoc(d.recs, r);
    WrittenTable(cfg, m0, r);
    forall name | name in r.ix && Capped(cfg, name, r.ix[name])
      ensures var g0 := GroupSet(m0, name, r.ix[name]);
        r.key !in g0 ==> r.key !in VictimSet(g0 + {r.key}, cfg.defs[name].max)
    {
      assert !SelfEvicts(cfg, d, key, name, ix[name]);
    }
    EnforceAllSpares(cfg, m0, d1, r, order, ix.Keys);
    assert ix.Keys - Elems(order) == {};
  }

  // ---- exactly when a write survives, from any state ----

  /** A new key is turned away exactly when the group already holds `max` higher keys. */
  lemma SelfEvictsIff(cfg: Config, d: Disk, key: string, name: string, v: Value)
    requires Capped(cfg, name, v)
    ensures var g0 := GroupSet(Contents(d.recs), name, v);
      SelfEvicts(cfg, d, key, name, v) <==> key !in g0 && |Higher(g0, key)| >= cfg.defs[name].max
  {
    var g0 := GroupSet(Contents(d.recs), name, v);
    VictimIff(g0 + {key}, cfg.defs[name].max, key);
    HigherOwn(g0, key);
  }

  /** A victim sorts below every member that stays. */
  lemma VictimsSortBelow(g: set<string>, max: int, victim: string, kept: string)
    requires victim in VictimSet(g, max) && kept in g && kept !in VictimSet(g, max)
    ensures Lt(victim, kept)
  {
    var s := SortedKeys(g);
    VictimsAreLowest(s, max);
    assert kept in Elems(s);
    assert kept in Victims(s, max) + Survivors(s, max);
  }

  /** Enforcing only removes. */
  lemma {:induction false} EnforceRemoves(cfg: Config, d: Disk, ix: IX, order: seq<string>, k: string)
    requires k !in Contents(d.recs)
    ensures k !in Contents(Enforce(cfg, d, ix, order).recs)
    decreases |order|
  {
    if order != [] {
      if order[0] in ix {
        EnforceOneTable(cfg, d, order[0], ix[order[0]]);
        EnforceRemoves(cfg, EnforceOne(cfg, d, order[0], ix[order[0]]), ix, order[1..], k);
      } else {
        EnforceRemoves(cfg, d, ix, order[1..], k);
      }
    }
  }

  /** Under each capped value of `ix` that `order` visits, fewer than the cap of members sort above the key. */
  ghost predicate FewHigher(cfg: Config, m: Table, key: string, ix: IX, order: seq<string>) {
    forall name :: name in order && name in ix && Capped(cfg, name, ix[name]) ==>
      |Higher(GroupSet(m, name, ix[name]), key)| < cfg.defs[name].max
  }

  /** While the written key stays, evictions take only keys below it, so they never change who sorts above it. */
  lemma EvictionsStayBelow(m: Table, key: string, g: set<string>, max: int, name: string, v: Value)
    requires key in g && key !in VictimSet(g, max)
    ensures Higher(GroupSet(m - VictimSet(g, max), name, v), key) == Higher(GroupSet(m, name, v), key)
  {
    GroupMinus(m, VictimSet(g, max), name, v);
    forall k | k in Higher(GroupSet(m, name, v), key)
      ensures k !in VictimSet(g, max)
    {
      if k in VictimSet(g, max) {
        VictimsSortBelow(g, max, k, key);
        LtAsymmetric(k, key);
      }
    }
  }

  lemma FewHigherAfter(cfg: Config, m: Table, key: string, g: set<string>, max: int, ix: IX, order: seq<string>)
    requires key in g && key !in VictimSet(g, max)
    ensures FewHigher(cfg, m - VictimSet(g, max), key, ix, order) <==> FewHigher(cfg, m, key, ix, order)
  {
    forall name | name in ix
      ensures Higher(GroupSet(m - VictimSet(g, max), name, ix[name]), key) == Higher(GroupSet(m, name, ix[name]), key)
    {
      EvictionsStayBelow(m, key, g, max, name, ix[name]);
    }
  }

  lemma {:induction false} EnforceSurvivesIff(cfg: Config, d: Disk, r: Record, order: seq<string>)
    requires r.key in Contents(d.recs) && Contents(d.recs)[r.key] == r
    ensures r.key in Contents(Enforce(cfg, d, r.ix, order).recs) <==>
            FewHigher(cfg, Contents(d.recs), r.key, r.ix, order)
    decreases |order|
  {
    if order != [] {
      var name, rest := order[0], order[1..];
      assert order == [name] + rest;
      if name !in r.ix {
        EnforceSurvivesIff(cfg, d, r, rest);
      } else {
        EnforceSurvivesStep(cfg, d, r, name, rest);
        var d' := EnforceOne(cfg, d, name, r.ix[name]);
        if r.key in Contents(d'.recs) {
          EnforceSurvivesIff(cfg, d', r, rest);
        } else {
          EnforceRemoves(cfg, d', r.ix, rest, r.key);
        }
      }
    }
  }

  /** One enforced value of the written record. */
  lemma EnforceSurvivesStep(cfg: Config, d: Disk, r: Record, name: string, rest: seq<string>)
    requires r.key in Contents(d.recs) && Contents(d.recs)[r.key] == r && name in r.ix
    ensures var m, m' := Contents(d.recs), Contents(EnforceOne(cfg, d, name, r.ix[name]).recs);
      && (r.key in m' ==>
            && m'[r.key] == r
            && (FewHigher(cfg, m', r.key, r.ix, rest) <==> FewHigher(cfg, m, r.key, r.ix, [name] + rest)))
      && (r.key !in m' ==> !FewHigher(cfg, m, r.key, r.ix, [name] + rest))
  {
    var m, v := Contents(d.recs), r.ix[name];
    EnforceOneTable(cfg, d, name, v);
    if Capped(cfg, name, v) {
      var g, max := GroupSet(m, name, v), cfg.defs[name].max;
      VictimIff(g, max, r.key);
      assert name in [name] + rest;
      if r.key !in VictimSet(g, max) {
        FewHigherAfter(cfg, m, r.key, g, max, r.ix, rest);
      }
    }
  }

  /** From any state, with any index values and in any order, an accepted write survives its own enforcement pass
      exactly when under each of its capped values fewer than the cap of members sort above its key.  New keys
      always meet this; an overwrite in a group left over its cap may not. */
  lemma WriteSurvivesIff(cfg: Config, d: Disk, key: string, value: string, explicit: IX, exp: int, order: seq<string>)
    requires Accepted(cfg, d, key, value, explicit)
    ensures var ix := BuildIX(cfg, key, value, explicit).value;
      key in Contents(Put(cfg, d, key, value, explicit, exp, order).recs) <==>
      FewHigher(cfg, Contents(d.recs), key, ix, order)
  {
    var ix := BuildIX(cfg, key, value, explicit).value;
    var r := NewRecord(cfg, d, key, value, ix, exp, false);
    ContentsSnoc(d.recs, r);
    EnforceSurvivesIff(cfg, Append(cfg, d, key, value, ix, exp, false), r, order);
    WrittenHigher(cfg, Contents(d.recs), r, order);
  }

  lemma WrittenHigher(cfg: Config, m: Table, r: Record, order: seq<string>)
    ensures FewHigher(cfg, m[r.key := r], r.key, r.ix, order) <==> FewHigher(cfg, m, r.key, r.ix, order)
  {
    forall name | name in r.ix
      ensures Higher(GroupSet(m[r.key := r], name, r.ix[name]), r.key) == Higher(GroupSet(m, name, r.ix[name]), r.key)
    {
      GroupPut(m, r, name, r.ix[name]);
      HigherOwn(GroupSet(m, name, r.ix[name]), r.key);
    }
  }

  /** A new key always survives. */
  lemma NewKeySurvives(cfg: Config, d: Disk, key: string, value: string, explicit: IX, exp: int, order: seq<string>)
    requires Accepted(cfg, d, key, value, explicit) && key !in Contents(d.recs)
    ensures key in Contents(Put(cfg, d, key, value, explicit, exp, order).recs)
  {
    var ix := BuildIX(cfg, key, value, explicit).value;
    forall name | name in order && name in ix && Capped(cfg, name, ix[name])
      ensures |Higher(GroupSet(Contents(d.recs), name, ix[name]), key)| < cfg.defs[name].max
    {
      assert !SelfEvicts(cfg, d, key, name, ix[name]);
      SelfEvictsIff(cfg, d, key, name, ix[name]);
    }
    WriteSurvivesIff(cfg, d, key, value, explicit, exp, order);
  }

  lemma GroupPut(m: Table, r: Record, name: string, v: Value)
    ensures GroupSet(m[r.key := r], name, v) ==
            if name in r.ix && r.ix[name] == v then GroupSet(m, name, v) + {r.key} else GroupSet(m, name, v) - {r.key}
  {
  }

  lemma HigherOwn(g: set<string>, key: string)
    ensures Higher(g + {key}, key) == Higher(g, key)
  {
    LtIrreflexive(key);
  }

  /** An overwrite in a group left over its cap is accepted and then evicted by its own enforcement pass. */
  lemma OverCapOverwriteVanishes(cfg: Config, d: Disk, value: string, exp: int, a: Record, b: Record)
    requires cfg.defs == map["i" := IndexDef(KindString, 1)] && IsObject(value)
    requires cfg.extract("a", value) == map[]
    requires a.key == "a" && b.key == "b" && !a.deleted && !b.deleted
    requires a.ix == b.ix == map["i" := Str("x")]
    requires d.recs == [a, b]
    ensures Accepted(cfg, d, "a", value, map["i" := Str("x")])
    ensures "a" !in Contents(Put(cfg, d, "a", value, map["i" := Str("x")], exp, ["i"]).recs)
  {
    var ix: IX := map["i" := Str("x")];
    assert Derived(cfg, "a", value, ix) == map[];
    assert Derived(cfg, "a", value, ix) + ix == ix;
    assert ValidFor(cfg, ix);
    assert BuildIX(cfg, "a", value, ix) == Some(ix);
    ContentsSnoc([], a);
    ContentsSnoc([a], b);
    assert [] + [a] == [a] && [a] + [b] == [a, b];
    var m0 := Contents(d.recs);
    assert m0 == map["a" := a, "b" := b];
    var g0 := GroupSet(m0, "i", Str("x"));
    assert g0 == {"a", "b"};
    assert Lt("a", "b");
    assert "b" in Higher(g0, "a");
    SubsetSize({"b"}, Higher(g0, "a"));
    assert !SelfEvicts(cfg, d, "a", "i", Str("x"));
    assert "i" in ["i"] && Capped(cfg, "i", ix["i"]);
    assert !FewHigher(cfg, m0, "a", ix, ["i"]);
    WriteSurvivesIff(cfg, d, "a", value, ix, exp, ["i"]);
  }
}

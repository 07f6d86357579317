/** One secondary index: entries ordered by (value, primary key). */
module SecIndex {
  import opened Text
  import opened Wrappers
  import opened CounterCodec

  /** An index value.  `Num(n)` stands for the n-th float64 in numeric order. */
  datatype Value = Str(s: string) | Num(n: int)

  datatype Kind = KindString | KindNumber

  datatype Entry = Entry(val: Value, pk: string)

  predicate Fits(kind: Kind, v: Value) {
    match kind
    case KindString => v.Str?
    case KindNumber => v.Num?
  }

  predicate ValueLt(a: Value, b: Value) {
    match (a, b)
    case (Str(s), Str(t)) => Lt(s, t)
    case (Num(m), Num(n)) => m < n
    case (Str(_), Num(_)) => true
    case (Num(_), Str(_)) => false
  }

  /** Entries are ordered by value, then by primary key. */
  predicate Less(a: Entry, b: Entry) {
    ValueLt(a.val, b.val) || (a.val == b.val && Lt(a.pk, b.pk))
  }

  lemma ValueLtTransitive(a: Value, b: Value, c: Value)
    requires ValueLt(a, b) && ValueLt(b, c)
    ensures ValueLt(a, c)
  {
    if a.Str? && b.Str? && c.Str? {
      LtTransitive(a.s, b.s, c.s);
    }
  }

  lemma ValueLtIrreflexive(a: Value)
    ensures !ValueLt(a, a)
  {
    if a.Str? {
      LtIrreflexive(a.s);
    }
  }

  lemma ValueLtTotal(a: Value, b: Value)
    ensures ValueLt(a, b) || a == b || ValueLt(b, a)
  {
    if a.Str? && b.Str? {
      LtTotal(a.s, b.s);
    }
  }

  lemma LessTransitive(a: Entry, b: Entry, c: Entry)
    requires Less(a, b) && Less(b, c)
    ensures Less(a, c)
  {
    if ValueLt(a.val, b.val) && ValueLt(b.val, c.val) {
      ValueLtTransitive(a.val, b.val, c.val);
    } else if a.val == b.val == c.val {
      LtTransitive(a.pk, b.pk, c.pk);
    }
  }

  lemma LessIrreflexive(a: Entry)
    ensures !Less(a, a)
  {
    ValueLtIrreflexive(a.val);
    LtIrreflexive(a.pk);
  }

  lemma LessTotal(a: Entry, b: Entry)
    ensures Less(a, b) || a == b || Less(b, a)
  {
    ValueLtTotal(a.val, b.val);
    LtTotal(a.pk, b.pk);
  }

  ghost predicate Sorted(es: seq<Entry>) {
    forall i, j :: 0 <= i < j < |es| ==> Less(es[i], es[j])
  }

  lemma SortedValues(es: seq<Entry>, i: int, j: int)
    requires Sorted(es) && 0 <= i <= j < |es|
    ensures es[i].val == es[j].val || ValueLt(es[i].val, es[j].val)
  {
    assert i < j ==> Less(es[i], es[j]);
  }

  /** A sorted sequence is determined by its elements. */
  lemma {:induction false} SortedUnique(a: seq<Entry>, b: seq<Entry>)
    requires Sorted(a) && Sorted(b) && Elems(a) == Elems(b)
    ensures a == b
  {
    ElemsEmpty(a);
    ElemsEmpty(b);
    if a != [] {
      SortedHead(a, b);
      SortedTail(a);
      SortedTail(b);
      assert a == [a[0]] + a[1..];
      assert b == [b[0]] + b[1..];
      SortedUnique(a[1..], b[1..]);
    }
  }

  lemma SortedHead(a: seq<Entry>, b: seq<Entry>)
    requires Sorted(a) && Sorted(b) && a != [] && b != [] && Elems(a) == Elems(b)
    ensures a[0] == b[0]
  {
    assert a[0] in Elems(b) && b[0] in Elems(a);
    var i :| 0 <= i < |b| && b[i] == a[0];
    var j :| 0 <= j < |a| && a[j] == b[0];
    if i > 0 && j > 0 {
      LessTransitive(a[0], b[0], a[0]);
      LessIrreflexive(a[0]);
    }
  }

  lemma SortedTail(a: seq<Entry>)
    requires Sorted(a) && a != []
    ensures Sorted(a[1..]) && Elems(a[1..]) == Elems(a) - {a[0]}
  {
    forall x | x in Elems(a[1..])
      ensures x in Elems(a) - {a[0]}
    {
      var i :| 0 <= i < |a[1..]| && a[1..][i] == x;
      assert a[i + 1] == x;
      LessIrreflexive(x);
    }
    forall x | x in Elems(a) - {a[0]}
      ensures x in Elems(a[1..])
    {
      var i :| 0 <= i < |a| && a[i] == x;
      assert a[1..][i - 1] == x;
    }
  }

  // ---- the tree operations, on the ordered sequence the tree holds ----

  /** `tree.Set(e)`: an exact duplicate replaces itself. */
  function Insert(es: seq<Entry>, e: Entry): (r: seq<Entry>)
    requires Sorted(es)
    ensures Sorted(r)
    ensures Elems(r) == Elems(es) + {e}
  {
    if es == [] then
      [e]
    else if es[0] == e then
      es
    else if Less(e, es[0]) then
      PrependSorted(e, es);
      [e] + es
    else
      SortedTail(es);
      var r := Insert(es[1..], e);
      LessTotal(e, es[0]);
      PrependSorted(es[0], r);
      assert es == [es[0]] + es[1..];
      [es[0]] + r
  }

  /** `tree.Delete(e)`: absent entries are ignored. */
  function Remove(es: seq<Entry>, e: Entry): (r: seq<Entry>)
    requires Sorted(es)
    ensures Sorted(r)
    ensures Elems(r) == Elems(es) - {e}
  {
    if es == [] then
      []
    else if es[0] == e then
      SortedTail(es);
      es[1..]
    else
      SortedTail(es);
      var r := Remove(es[1..], e);
      PrependSorted(es[0], r);
      [es[0]] + r
  }

  lemma PrependSorted(e: Entry, es: seq<Entry>)
    requires Sorted(es)
    requires forall x :: x in Elems(es) ==> Less(e, x) || (es != [] && Less(e, es[0]))
    ensures Sorted([e] + es)
    ensures Elems([e] + es) == Elems(es) + {e}
  {
    var r := [e] + es;
    forall i, j | 0 <= i < j < |r|
      ensures Less(r[i], r[j])
    {
      assert r[j] == es[j - 1];
      if i == 0 {
        assert es[j - 1] in Elems(es);
        if !Less(e, es[j - 1]) && j > 1 {
          LessTransitive(e, es[0], es[j - 1]);
        }
      }
    }
    assert forall x :: x in r <==> x == e || x in es;
    assert forall x :: x in es <==> x in Elems(es);
  }

  /** Drops every entry of the given primary keys: one sweep to collect, then the deletes. */
  method RemovePKs(es: seq<Entry>, pks: set<string>) returns (r: seq<Entry>)
    requires Sorted(es)
    ensures Sorted(r)
    ensures forall e :: e in Elems(r) <==> e in Elems(es) && e.pk !in pks
  {
    var doomed: seq<Entry> := [];
    for i := 0 to |es|
      invariant forall e :: e in doomed <==> e in es[..i] && e.pk in pks
    {
      assert es[..i + 1] == es[..i] + [es[i]];
      if es[i].pk in pks {
        doomed := doomed + [es[i]];
      }
    }
    assert es[..|es|] == es;
    r := es;
    for i := 0 to |doomed|
      invariant Sorted(r)
      invariant forall e :: e in Elems(r) <==> e in Elems(es) && e !in doomed[..i]
    {
      assert doomed[..i + 1] == doomed[..i] + [doomed[i]];
      r := Remove(r, doomed[i]);
    }
    assert doomed[..|doomed|] == doomed;
  }

  // ---- bound searches ----

  ghost predicate IsLowerBound(es: seq<Entry>, e: Entry, i: int) {
    && 0 <= i <= |es|
    && (forall k :: 0 <= k < i ==> Less(es[k], e))
    && (forall k :: i <= k < |es| ==> !Less(es[k], e))
  }

  /** Binary search for the first entry at or after `e`. */
  method LowerBound(es: seq<Entry>, e: Entry) returns (i: nat)
    requires Sorted(es)
    ensures IsLowerBound(es, e, i)
  {
    i := 0;
    var j := |es|;
    while i < j
      invariant 0 <= i <= j <= |es|
      invariant forall k :: 0 <= k < i ==> Less(es[k], e)
      invariant forall k :: j <= k < |es| ==> !Less(es[k], e)
    {
      var h := (i + j) / 2;
      if Less(es[h], e) {
        forall k | 0 <= k < h
          ensures Less(es[k], e)
        {
          LessTransitive(es[k], es[h], e);
        }
        i := h + 1;
      } else {
        forall k | h < k < |es|
          ensures !Less(es[k], e)
        {
          if Less(es[k], e) {
            LessTransitive(es[h], es[k], e);
          }
        }
        j := h;
      }
    }
  }

  /** Binary search for the first entry whose value is above `v`. */
  method UpperBoundValue(es: seq<Entry>, v: Value) returns (i: nat)
    requires Sorted(es)
    ensures i <= |es|
    ensures forall k :: 0 <= k < i ==> !ValueLt(v, es[k].val)
    ensures forall k :: i <= k < |es| ==> ValueLt(v, es[k].val)
  {
    i := 0;
    var j := |es|;
    while i < j
      invariant 0 <= i <= j <= |es|
      invariant forall k :: 0 <= k < i ==> !ValueLt(v, es[k].val)
      invariant forall k :: j <= k < |es| ==> ValueLt(v, es[k].val)
    {
      var h := (i + j) / 2;
      if !ValueLt(v, es[h].val) {
        forall k | 0 <= k < h
          ensures !ValueLt(v, es[k].val)
        {
          SortedValues(es, k, h);
          if ValueLt(v, es[k].val) && ValueLt(es[k].val, es[h].val) {
            ValueLtTransitive(v, es[k].val, es[h].val);
          }
        }
        i := h + 1;
      } else {
        forall k | h < k < |es|
          ensures ValueLt(v, es[k].val)
        {
          SortedValues(es, h, k);
          if ValueLt(es[h].val, es[k].val) {
            ValueLtTransitive(v, es[h].val, es[k].val);
          }
        }
        j := h;
      }
    }
  }

  // ---- value groups ----

  /** The primary keys filed under `v`, in index order. */
  ghost function GroupOf(es: seq<Entry>, v: Value): seq<string> {
    if es == [] then [] else (if es[0].val == v then [es[0].pk] else []) + GroupOf(es[1..], v)
  }

  /** [lo, hi) is exactly the run of entries with value `v`. */
  ghost predicate IsGroup(es: seq<Entry>, v: Value, lo: int, hi: int) {
    && 0 <= lo <= hi <= |es|
    && (forall k :: 0 <= k < lo ==> ValueLt(es[k].val, v))
    && (forall k :: lo <= k < hi ==> es[k].val == v)
    && (forall k :: hi <= k < |es| ==> ValueLt(v, es[k].val))
  }

  function Keys(es: seq<Entry>): (ks: seq<string>)
    ensures |ks| == |es|
    ensures forall i :: 0 <= i < |es| ==> ks[i] == es[i].pk
  {
    seq(|es|, i requires 0 <= i < |es| => es[i].pk)
  }

  /** The two bound searches delimit the group. */
  lemma BoundsDelimitGroup(es: seq<Entry>, v: Value, lo: int, hi: int)
    requires Sorted(es) && IsLowerBound(es, Entry(v, ""), lo)
    requires 0 <= hi <= |es|
    requires forall k :: 0 <= k < hi ==> !ValueLt(v, es[k].val)
    requires forall k :: hi <= k < |es| ==> ValueLt(v, es[k].val)
    ensures IsGroup(es, v, lo, hi)
  {
    forall k | 0 <= k < |es|
      ensures Less(es[k], Entry(v, "")) <==> ValueLt(es[k].val, v)
    {
      EmptyIsLeast(es[k].pk);
    }
    forall k | lo <= k < hi
      ensures es[k].val == v
    {
      ValueLtTotal(es[k].val, v);
    }
    if hi < lo {
      ValueLtTransitive(v, es[hi].val, v);
      ValueLtIrreflexive(v);
    }
  }

  lemma {:induction false} GroupIsSlice(es: seq<Entry>, v: Value, lo: int, hi: int)
    requires IsGroup(es, v, lo, hi)
    ensures GroupOf(es, v) == Keys(es[lo..hi])
    decreases |es|
  {
    if es != [] {
      var t := es[1..];
      var lo', hi' := if lo > 0 then lo - 1 else 0, if hi > 0 then hi - 1 else 0;
      GroupShrinks(es, v, lo, hi);
      GroupIsSlice(t, v, lo', hi');
      if lo == 0 < hi {
        assert es[lo..hi] == [es[0]] + t[lo'..hi'];
        KeysCons(es[0], t[lo'..hi']);
      } else {
        assert es[lo..hi] == t[lo'..hi'];
      }
    }
  }

  lemma KeysCons(e: Entry, es: seq<Entry>)
    ensures Keys([e] + es) == [e.pk] + Keys(es)
  {
  }

  lemma GroupShrinks(es: seq<Entry>, v: Value, lo: int, hi: int)
    requires IsGroup(es, v, lo, hi) && es != []
    ensures IsGroup(es[1..], v, if lo > 0 then lo - 1 else 0, if hi > 0 then hi - 1 else 0)
    ensures es[0].val == v <==> lo == 0 < hi
  {
    ValueLtIrreflexive(v);
    assert forall k :: 0 <= k < |es[1..]| ==> es[1..][k] == es[k + 1];
  }

  /** A group lists, in ascending order, exactly the keys filed under its value. */
  lemma {:induction false} GroupIsAscending(es: seq<Entry>, v: Value)
    requires Sorted(es)
    ensures Ascending(GroupOf(es, v))
    ensures forall k :: k in GroupOf(es, v) <==> Entry(v, k) in es
  {
    if es != [] {
      SortedTail(es);
      GroupIsAscending(es[1..], v);
      assert es == [es[0]] + es[1..];
      var g := GroupOf(es[1..], v);
      if es[0].val == v {
        forall j | 0 <= j < |g|
          ensures Lt(es[0].pk, g[j])
        {
          assert g[j] in g;
          var e := Entry(v, g[j]);
          assert e in es[1..];
          var i :| 0 <= i < |es[1..]| && es[1..][i] == e;
          assert Less(es[0], es[i + 1]);
          ValueLtIrreflexive(v);
        }
      }
    }
  }

  // ---- caps ----

  /** What a cap of `max` evicts from a group: its lowest keys, down to `max` survivors. */
  function Victims(group: seq<string>, max: int): seq<string> {
    if max > 0 && |group| > max then group[..|group| - max] else []
  }

  /** The group after enforcing the cap. */
  function Survivors(group: seq<string>, max: int): seq<string> {
    if max > 0 && |group| > max then group[|group| - max..] else group
  }

  /** Eviction keeps the `max` highest keys of the group. */
  lemma VictimsAreLowest(group: seq<string>, max: int)
    requires Ascending(group)
    ensures Victims(group, max) + Survivors(group, max) == group
    ensures max > 0 ==> |Survivors(group, max)| == (if |group| <= max then |group| else max)
    ensures forall v, s :: v in Victims(group, max) && s in Survivors(group, max) ==> Lt(v, s)
  {
    var n := |Victims(group, max)|;
    forall v, s | v in Victims(group, max) && s in Survivors(group, max)
      ensures Lt(v, s)
    {
      var i :| 0 <= i < n && group[i] == v;
      var j :| 0 <= j < |Survivors(group, max)| && Survivors(group, max)[j] == s;
      assert group[n + j] == s;
    }
  }

  /** The eviction victims of one value, located by two bound searches. */
  method FindVictims(es: seq<Entry>, v: Value, max: int) returns (victims: seq<string>)
    requires Sorted(es)
    ensures victims == Victims(GroupOf(es, v), max)
  {
    var lo := LowerBound(es, Entry(v, ""));
    var hi := UpperBoundValue(es, v);
    BoundsDelimitGroup(es, v, lo, hi);
    GroupIsSlice(es, v, lo, hi);
    var excess := (hi - lo) - max;
    if max <= 0 || excess <= 0 {
      return [];
    }
    victims := Keys(es[lo..lo + excess]);
    assert es[lo..hi][..excess] == es[lo..lo + excess];
    KeysOfPrefix(es[lo..hi], excess);
  }

  lemma KeysOfPrefix(es: seq<Entry>, n: nat)
    requires n <= |es|
    ensures Keys(es[..n]) == Keys(es)[..n]
  {
  }

  /** The key would enter the group as a new member and be evicted at once. */
  ghost predicate SelfVictim(es: seq<Entry>, max: int, val: Value, key: string)
    requires Sorted(es)
  {
    Entry(val, key) !in es && key in Victims(GroupOf(Insert(es, Entry(val, key)), val), max)
  }

  /** Decided from two binary searches and one comparison, without inserting anything. */
  method WouldSelfEvict(es: seq<Entry>, max: int, val: Value, key: string) returns (evict: bool)
    requires Sorted(es)
    ensures evict <==> SelfVictim(es, max, val, key)
  {
    ghost var group := GroupOf(es, val);
    ghost var grown := GroupOf(Insert(es, Entry(val, key)), val);
    GroupIsAscending(es, val);
    GroupIsAscending(Insert(es, Entry(val, key)), val);
    GroupGrows(es, val, key);
    if max <= 0 {
      return false;
    }
    var lo := LowerBound(es, Entry(val, ""));
    var hi := UpperBoundValue(es, val);
    BoundsDelimitGroup(es, val, lo, hi);
    GroupIsSlice(es, val, lo, hi);
    var excess := (hi - lo) + 1 - max;
    if excess <= 0 {
      InsertedGroupSize(group, grown, key);
      return false;
    }
    var i := LowerBound(es, Entry(val, key));
    LowerBoundFinds(es, Entry(val, key), i, lo, hi);
    if i < hi && es[i].pk == key {
      return false;
    }
    InsertedIsVictim(group, grown, key, excess);
    return Le(key, es[lo + excess - 1].pk);
  }

  lemma GroupGrows(es: seq<Entry>, val: Value, key: string)
    requires Sorted(es)
    ensures forall k :: k in GroupOf(Insert(es, Entry(val, key)), val) <==> k in GroupOf(es, val) || k == key
  {
    var es' := Insert(es, Entry(val, key));
    GroupIsAscending(es, val);
    GroupIsAscending(es', val);
    forall k
      ensures k in GroupOf(es', val) <==> k in GroupOf(es, val) || k == key
    {
      assert Entry(val, k) in es' <==> Entry(val, k) in Elems(es');
      assert Entry(val, k) in es <==> Entry(val, k) in Elems(es);
    }
  }

  lemma LowerBoundFinds(es: seq<Entry>, e: Entry, i: int, lo: int, hi: int)
    requires Sorted(es) && IsLowerBound(es, e, i) && IsGroup(es, e.val, lo, hi)
    ensures i < hi && es[i].pk == e.pk <==> e in es
    ensures lo <= i
  {
    ValueLtIrreflexive(e.val);
    assert forall k :: 0 <= k < lo ==> Less(es[k], e);
    if e in es {
      var k :| 0 <= k < |es| && es[k] == e;
      LessIrreflexive(e);
      assert forall j :: 0 <= j < k ==> Less(es[j], e);
    }
    if i < hi && es[i].pk == e.pk {
      assert es[i] == e;
    }
  }

  /** Where a new key lands in an ascending group. */
  lemma InsertedAt(g: seq<string>, g': seq<string>, key: string) returns (p: nat)
    requires Ascending(g) && Ascending(g') && key !in g
    requires forall k :: k in g' <==> k in g || k == key
    ensures p < |g'| && g'[p] == key
    ensures g == g'[..p] + g'[p + 1..]
  {
    assert key in g';
    p :| 0 <= p < |g'| && g'[p] == key;
    var rest := g'[..p] + g'[p + 1..];
    assert Ascending(rest);
    forall x
      ensures x in rest <==> x in g
    {
      if x in rest {
        var i :| 0 <= i < |rest| && rest[i] == x;
        assert x == g'[if i < p then i else i + 1];
        LtIrreflexive(key);
      }
      if x in g {
        assert x in g';
        var i :| 0 <= i < |g'| && g'[i] == x;
        assert x == rest[if i < p then i else i - 1];
      }
    }
    assert Elems(rest) == Elems(g);
    AscendingUnique(rest, g);
  }

  lemma InsertedGroupSize(g: seq<string>, g': seq<string>, key: string)
    requires Ascending(g) && Ascending(g')
    requires forall k :: k in g' <==> k in g || k == key
    ensures |g'| == if key in g then |g| else |g| + 1
  {
    if key in g {
      assert Elems(g) == Elems(g');
      AscendingUnique(g, g');
    } else {
      var p := InsertedAt(g, g', key);
    }
  }

  /** A new key is among the `excess` lowest exactly when it sorts at or below the excess-th old member. */
  lemma InsertedIsVictim(g: seq<string>, g': seq<string>, key: string, excess: int)
    requires Ascending(g) && Ascending(g') && 0 < excess <= |g|
    requires forall k :: k in g' <==> k in g || k == key
    ensures key !in g ==> |g'| == |g| + 1 && (key in g'[..excess] <==> Le(key, g[excess - 1]))
  {
    if key !in g {
      var p := InsertedAt(g, g', key);
      LtIrreflexive(key);
      if p < excess {
        assert g'[..excess][p] == key;
        assert g[excess - 1] == g'[excess];
      } else {
        assert g[excess - 1] == g'[excess - 1];
        LtAsymmetric(g'[excess - 1], key);
        assert forall q :: 0 <= q < p ==> Lt(g'[q], key);
      }
    }
  }

  // ---- queries ----

  function Reverse(s: seq<string>): (r: seq<string>)
    ensures |r| == |s|
    ensures forall i :: 0 <= i < |s| ==> r[i] == s[|s| - 1 - i]
  {
    seq(|s|, i requires 0 <= i < |s| => s[|s| - 1 - i])
  }

  function Smaller(a: nat, b: nat): nat {
    if a <= b then a else b
  }

  /** The documented limit: all ascending, the first N ascending, or the last |N| descending. */
  function Pick(group: seq<string>, limit: int): seq<string> {
    if limit == 0 then group
    else if limit > 0 then group[..Smaller(limit, |group|)]
    else Reverse(group[|group| - Smaller(-limit, |group|)..])
  }

  ghost function LowerIn(group: seq<string>, k: string): set<string> {
    set x | x in group && Lt(x, k)
  }

  ghost function HigherIn(group: seq<string>, k: string): set<string> {
    set x | x in group && Lt(k, x)
  }

  /** The place of a member in an ascending group counts those below and those above it. */
  lemma RankIs(group: seq<string>, i: nat)
    requires Ascending(group) && i < |group|
    ensures |LowerIn(group, group[i])| == i && |HigherIn(group, group[i])| == |group| - 1 - i
  {
    var k := group[i];
    forall x
      ensures x in LowerIn(group, k) <==> x in Elems(group[..i])
      ensures x in HigherIn(group, k) <==> x in Elems(group[i + 1..])
    {
      if x in group {
        var j :| 0 <= j < |group| && group[j] == x;
        PlacedBy(group, i, j);
      }
    }
    assert LowerIn(group, k) == Elems(group[..i]) && HigherIn(group, k) == Elems(group[i + 1..]);
    AscendingSize(group[..i]);
    AscendingSize(group[i + 1..]);
  }

  lemma PlacedBy(group: seq<string>, i: nat, j: nat)
    requires Ascending(group) && i < |group| && j < |group|
    ensures Lt(group[j], group[i]) <==> j < i
    ensures Lt(group[i], group[j]) <==> i < j
    ensures group[j] in group[..i] <==> j < i
    ensures group[j] in group[i + 1..] <==> i < j
  {
    LtIrreflexive(group[i]);
    if i < j {
      LtAsymmetric(group[i], group[j]);
    } else if j < i {
      LtAsymmetric(group[j], group[i]);
    }
    if group[j] in group[..i] {
      var n :| 0 <= n < i && group[n] == group[j];
      DistinctPlaces(group, n, j);
    }
    if group[j] in group[i + 1..] {
      var n :| 0 <= n < |group[i + 1..]| && group[i + 1..][n] == group[j];
      DistinctPlaces(group, i + 1 + n, j);
    }
    assert i < j ==> group[i + 1..][j - i - 1] == group[j];
    assert j < i ==> group[..i][j] == group[j];
  }

  lemma DistinctPlaces(group: seq<string>, i: nat, j: nat)
    requires Ascending(group) && i < |group| && j < |group| && group[i] == group[j]
    ensures i == j
  {
    LtIrreflexive(group[i]);
  }

  /** Which keys of a group a limit picks: all of them, those with fewer than N below them, or those with fewer than
      |N| above them; in ascending order, or in descending order for a negative limit. */
  lemma PickIs(group: seq<string>, limit: int, k: string)
    requires Ascending(group)
    ensures k in Pick(group, limit) <==>
      && k in group
      && (limit > 0 ==> |LowerIn(group, k)| < limit)
      && (limit < 0 ==> |HigherIn(group, k)| < -limit)
    ensures limit >= 0 ==> Ascending(Pick(group, limit))
    ensures limit < 0 ==> Ascending(Reverse(Pick(group, limit)))
  {
    if limit > 0 {
      FirstPicked(group, Smaller(limit, |group|), limit, k);
    } else if limit < 0 {
      LastPicked(group, Smaller(-limit, |group|), -limit, k);
    }
  }

  lemma FirstPicked(group: seq<string>, n: nat, limit: int, k: string)
    requires Ascending(group) && limit > 0 && n == Smaller(limit, |group|)
    ensures k in group[..n] <==> k in group && |LowerIn(group, k)| < limit
    ensures Ascending(group[..n])
  {
    if k in group {
      var i :| 0 <= i < |group| && group[i] == k;
      RankIs(group, i);
      if n < |group| {
        PlacedBy(group, n, i);
      } else {
        assert group[..n] == group;
      }
    }
  }

  lemma LastPicked(group: seq<string>, n: nat, limit: int, k: string)
    requires Ascending(group) && limit > 0 && n == Smaller(limit, |group|)
    ensures k in Reverse(group[|group| - n..]) <==> k in group && |HigherIn(group, k)| < limit
    ensures Ascending(Reverse(Reverse(group[|group| - n..])))
  {
    var last := group[|group| - n..];
    assert Reverse(Reverse(last)) == last;
    ReverseKeeps(last, k);
    if k in group {
      var i :| 0 <= i < |group| && group[i] == k;
      RankIs(group, i);
      if n < |group| {
        PlacedBy(group, |group| - n - 1, i);
      } else {
        assert last == group;
      }
    }
  }

  lemma ReverseKeeps(s: seq<string>, k: string)
    ensures k in Reverse(s) <==> k in s
  {
    if k in s {
      var i :| 0 <= i < |s| && s[i] == k;
      assert Reverse(s)[|s| - 1 - i] == k;
    }
  }

  /** Negation of an int64 wraps at the minimum. */
  function Negate(n: int64): int64 {
    var x: int := n;
    if x == MIN_INT64 then n else -x
  }

  /** The distinct values that start with `p`. */
  ghost function MatchingValues(es: seq<Entry>, p: string): set<string> {
    set e | e in es && e.val.Str? && HasPrefix(e.val.s, p) :: e.val.s
  }

  ghost function PickEach(es: seq<Entry>, vals: seq<string>, limit: int): seq<string> {
    if vals == [] then []
    else PickEach(es, vals[..|vals| - 1], limit) + Pick(GroupOf(es, Str(vals[|vals| - 1])), limit)
  }

  /** The limit applied within each matching value, values in ascending order. */
  ghost function PrefixAnswer(es: seq<Entry>, p: string, limit: int): seq<string> {
    PickEach(es, SortedKeys(MatchingValues(es, p)), limit)
  }

  ghost predicate AllStrings(es: seq<Entry>) {
    forall i :: 0 <= i < |es| ==> es[i].val.Str?
  }

  /** Where `Seek(v + "\x00")` lands: one past the group of `v`. */
  method SeekPast(es: seq<Entry>, v: string, ghost lo: nat) returns (hi: nat)
    requires Sorted(es) && AllStrings(es)
    requires lo < |es| && es[lo].val == Str(v)
    requires forall k :: 0 <= k < lo ==> ValueLt(es[k].val, Str(v))
    ensures IsGroup(es, Str(v), lo, hi) && lo < hi
  {
    var next := Entry(Str(v + ['\0']), "");
    hi := LowerBound(es, next);
    forall k | 0 <= k < |es|
      ensures Less(es[k], next) <==> !ValueLt(Str(v), es[k].val)
    {
      EmptyIsLeast(es[k].pk);
      var s := es[k].val.s;
      SuccessorIsImmediate(v, s);
      LtTotal(s, v + ['\0']);
      if Lt(s, v + ['\0']) && Lt(v + ['\0'], s) {
        LtAsymmetric(s, v + ['\0']);
      }
      LtIrreflexive(s);
    }
    LtIrreflexive(v);
    forall k | lo <= k < hi
      ensures es[k].val == Str(v)
    {
      SortedValues(es, lo, k);
    }
  }

  /** The limit == 0 and limit > 0 walks: forward inside the group, then past what is left of it. */
  method FirstOfGroup(es: seq<Entry>, lo: nat, limit: int64) returns (got: seq<string>, hi: nat)
    requires Sorted(es) && AllStrings(es) && limit >= 0
    requires lo < |es| && forall k :: 0 <= k < lo ==> ValueLt(es[k].val, es[lo].val)
    ensures IsGroup(es, es[lo].val, lo, hi) && lo < hi
    ensures got == Pick(GroupOf(es, es[lo].val), limit)
  {
    var v := es[lo].val.s;
    ghost var top := SeekPast(es, v, lo);
    GroupIsSlice(es, Str(v), lo, top);
    ValueLtIrreflexive(Str(v));
    var pos;
    got, pos := WalkGroup(es, v, lo, top, limit);
    if pos < |es| && es[pos].val.s == v {
      hi := SeekPast(es, v, lo);
      GroupIsUnique(es, Str(v), lo, hi, top);
    } else {
      hi := pos;
    }
  }

  /** Steps forward while the group lasts and the limit allows. */
  method WalkGroup(es: seq<Entry>, v: string, lo: nat, ghost top: nat, limit: int64)
    returns (got: seq<string>, pos: nat)
    requires AllStrings(es) && lo <= top <= |es| && limit >= 0
    requires forall k :: lo <= k < top ==> es[k].val == Str(v)
    requires top < |es| ==> es[top].val != Str(v)
    ensures lo <= pos <= top
    ensures pos < |es| && es[pos].val.s == v <==> pos < top
    ensures got == Pick(Keys(es[lo..top]), limit)
  {
    ghost var group := Keys(es[lo..top]);
    got := [];
    pos := lo;
    while pos < |es| && es[pos].val.s == v && (limit == 0 || |got| < limit)
      invariant lo <= pos <= top
      invariant limit == 0 || pos - lo <= limit
      invariant got == group[..pos - lo]
    {
      got := got + [es[pos].pk];
      pos := pos + 1;
    }
    assert pos == top ==> group[..pos - lo] == group;
  }

  lemma GroupIsUnique(es: seq<Entry>, v: Value, lo: int, hi: int, hi': int)
    requires IsGroup(es, v, lo, hi) && IsGroup(es, v, lo, hi')
    ensures hi == hi'
  {
    ValueLtIrreflexive(v);
    assert hi < |es| ==> ValueLt(v, es[hi].val);
    assert hi' < |es| ==> ValueLt(v, es[hi'].val);
  }

  /** The limit < 0 walk: jump past the group, then step back into it. */
  method LastOfGroup(es: seq<Entry>, lo: nat, limit: int64) returns (got: seq<string>, hi: nat)
    requires Sorted(es) && AllStrings(es) && limit < 0
    requires lo < |es| && forall k :: 0 <= k < lo ==> ValueLt(es[k].val, es[lo].val)
    ensures IsGroup(es, es[lo].val, lo, hi) && lo < hi
    ensures got == if limit == MIN_INT64 then [] else Pick(GroupOf(es, es[lo].val), limit)
  {
    var v := es[lo].val.s;
    hi := SeekPast(es, v, lo);
    GroupIsSlice(es, Str(v), lo, hi);
    ValueLtIrreflexive(Str(v));
    ghost var group := GroupOf(es, Str(v));
    got := WalkBack(es, v, lo, hi, Negate(limit), group);
    if limit != MIN_INT64 {
      PickLast(group, Negate(limit), got);
    }
  }

  /** Steps backward from one past the group, at most `most` times. */
  method WalkBack(es: seq<Entry>, v: string, ghost lo: nat, hi: nat, most: int64, ghost group: seq<string>)
    returns (got: seq<string>)
    requires AllStrings(es) && lo <= hi <= |es| && |group| == hi - lo
    requires forall i :: 0 <= i < |group| ==> es[lo + i] == Entry(Str(v), group[i])
    requires lo > 0 ==> es[lo - 1].val != Str(v)
    ensures |got| == if most <= 0 then 0 else Smaller(most, |group|)
    ensures forall i :: 0 <= i < |got| ==> got[i] == group[|group| - 1 - i]
  {
    got := [];
    var pos: int := hi - 1;
    while pos >= 0 && es[pos].val.s == v && |got| < most
      invariant lo - 1 <= pos < hi
      invariant |got| == hi - 1 - pos
      invariant |got| == 0 || |got| <= most
      invariant forall i :: 0 <= i < |got| ==> got[i] == group[|group| - 1 - i]
    {
      assert es[lo + (pos - lo)] == es[pos];
      got := got + [es[pos].pk];
      pos := pos - 1;
    }
    assert pos >= lo ==> es[lo + (pos - lo)] == Entry(Str(v), group[pos - lo]);
  }

  lemma PickLast(group: seq<string>, n: int, got: seq<string>)
    requires n > 0 && |got| == Smaller(n, |group|)
    requires forall i :: 0 <= i < |got| ==> got[i] == group[|group| - 1 - i]
    ensures got == Pick(group, 0 - n)
  {
    assert got == Reverse(group[|group| - Smaller(n, |group|)..]);
  }

  /** The grouped prefix query: seeks from value to value and never walks a group's interior.  A number index
      is refused. */
  method Prefix(kind: Kind, es: seq<Entry>, p: string, limit: int64) returns (r: Option<seq<string>>)
    requires Sorted(es) && forall i :: 0 <= i < |es| ==> Fits(kind, es[i].val)
    ensures r.None? <==> kind != KindString
    ensures r.Some? && limit != MIN_INT64 ==> r.value == PrefixAnswer(es, p, limit)
    ensures r.Some? && limit == MIN_INT64 ==> r.value == []
  {
    if kind != KindString {
      return None;
    }
    var out: seq<string> := [];
    ghost var vals: seq<string> := [];
    var start := LowerBound(es, Entry(Str(p), ""));
    StartOfRun(es, p, start);
    var pos := start;
    while pos < |es| && HasPrefix(es[pos].val.s, p)
      invariant start <= pos <= |es|
      invariant forall k :: start <= k < pos ==> HasPrefix(es[k].val.s, p)
      invariant pos < |es| ==> forall k :: 0 <= k < pos ==> ValueLt(es[k].val, es[pos].val)
      invariant Ascending(vals)
      invariant forall v :: v in vals <==> exists k :: start <= k < pos && es[k].val.s == v
      invariant limit != MIN_INT64 ==> out == PickEach(es, vals, limit)
      invariant limit == MIN_INT64 ==> out == []
      decreases |es| - pos
    {
      ghost var v := es[pos].val.s;
      var got, next;
      if limit >= 0 {
        got, next := FirstOfGroup(es, pos, limit);
      } else {
        got, next := LastOfGroup(es, pos, limit);
      }
      AfterGroup(es, v, pos, next);
      ExtendValues(es, vals, v, start, pos, next);
      assert (vals + [v])[..|vals|] == vals;
      vals := vals + [v];
      out := out + got;
      pos := next;
    }
    RunIsComplete(es, p, start, pos, vals);
    return Some(out);
  }

  lemma StartOfRun(es: seq<Entry>, p: string, start: nat)
    requires Sorted(es) && AllStrings(es) && IsLowerBound(es, Entry(Str(p), ""), start)
    ensures forall k :: 0 <= k < start ==> Lt(es[k].val.s, p)
    ensures forall k :: start <= k < |es| ==> Le(p, es[k].val.s)
    ensures start < |es| ==> forall k :: 0 <= k < start ==> ValueLt(es[k].val, es[start].val)
  {
    forall k | 0 <= k < |es|
      ensures Less(es[k], Entry(Str(p), "")) <==> Lt(es[k].val.s, p)
    {
      EmptyIsLeast(es[k].pk);
    }
    forall k | start <= k < |es|
      ensures Le(p, es[k].val.s)
    {
      LtTotal(p, es[k].val.s);
    }
    if start < |es| {
      forall k | 0 <= k < start
        ensures ValueLt(es[k].val, es[start].val)
      {
        if Lt(p, es[start].val.s) {
          LtTransitive(es[k].val.s, p, es[start].val.s);
        }
      }
    }
  }

  lemma AfterGroup(es: seq<Entry>, v: string, lo: nat, hi: nat)
    requires Sorted(es) && AllStrings(es) && IsGroup(es, Str(v), lo, hi) && lo < hi
    ensures hi < |es| ==> forall k :: 0 <= k < hi ==> ValueLt(es[k].val, es[hi].val)
  {
    if hi < |es| {
      forall k | 0 <= k < hi
        ensures ValueLt(es[k].val, es[hi].val)
      {
        if k < lo {
          ValueLtTransitive(es[k].val, Str(v), es[hi].val);
        }
      }
    }
  }

  lemma ExtendValues(es: seq<Entry>, vals: seq<string>, v: string, start: nat, lo: nat, hi: nat)
    requires Sorted(es) && AllStrings(es) && IsGroup(es, Str(v), lo, hi) && start <= lo < hi
    requires Ascending(vals)
    requires forall w :: w in vals <==> exists k :: start <= k < lo && es[k].val.s == w
    ensures Ascending(vals + [v])
    ensures forall w :: w in vals + [v] <==> exists k :: start <= k < hi && es[k].val.s == w
  {
    forall i | 0 <= i < |vals|
      ensures Lt(vals[i], v)
    {
      assert vals[i] in vals;
      var k :| start <= k < lo && es[k].val.s == vals[i];
    }
    forall w
      ensures w in vals + [v] <==> exists k :: start <= k < hi && es[k].val.s == w
    {
      if w == v {
        assert es[lo].val.s == w;
      } else if exists k :: start <= k < hi && es[k].val.s == w {
        var k :| start <= k < hi && es[k].val.s == w;
        assert k < lo;
      }
    }
  }

  lemma RunIsComplete(es: seq<Entry>, p: string, start: nat, pos: nat, vals: seq<string>)
    requires Sorted(es) && AllStrings(es) && start <= pos <= |es|
    requires forall k :: 0 <= k < start ==> Lt(es[k].val.s, p)
    requires forall k :: start <= k < |es| ==> Le(p, es[k].val.s)
    requires forall k :: start <= k < pos ==> HasPrefix(es[k].val.s, p)
    requires pos < |es| ==> !HasPrefix(es[pos].val.s, p)
    requires Ascending(vals)
    requires forall v :: v in vals <==> exists k :: start <= k < pos && es[k].val.s == v
    ensures vals == SortedKeys(MatchingValues(es, p))
  {
    forall k | 0 <= k < |es| && HasPrefix(es[k].val.s, p)
      ensures start <= k < pos
    {
      PrefixIsLe(es[k].val.s, p);
      if k < start {
        LtAsymmetric(es[k].val.s, p);
        LtIrreflexive(p);
      }
      if k >= pos {
        SortedValues(es, pos, k);
        PrefixRunIsContiguous(p, es[pos].val.s, es[k].val.s);
      }
    }
    forall v
      ensures v in vals <==> v in MatchingValues(es, p)
    {
      if v in MatchingValues(es, p) {
        var e :| e in es && e.val.Str? && HasPrefix(e.val.s, p) && e.val.s == v;
        var k :| 0 <= k < |es| && es[k] == e;
        assert start <= k < pos && es[k].val.s == v;
      }
      if v in vals {
        var k :| start <= k < pos && es[k].val.s == v;
        assert es[k] in es;
      }
    }
    assert Elems(vals) == MatchingValues(es, p);
    AscendingUnique(vals, SortedKeys(MatchingValues(es, p)));
  }

  lemma {:induction false} PickEachFinds(es: seq<Entry>, vals: seq<string>, limit: int, k: string)
    ensures k in PickEach(es, vals, limit) <==> exists v :: v in vals && k in Pick(GroupOf(es, Str(v)), limit)
    decreases |vals|
  {
    if vals != [] {
      var init, last := vals[..|vals| - 1], vals[|vals| - 1];
      assert vals == init + [last];
      PickEachFinds(es, init, limit, k);
      if k in Pick(GroupOf(es, Str(last)), limit) {
        assert last in vals;
      }
    }
  }

  /** The key is filed under `v`, and the limit reaches it: fewer than N keys under `v` sort below it, or fewer than
      |N| above it for a negative limit. */
  ghost predicate Reaches(es: seq<Entry>, v: string, limit: int, k: string) {
    && Entry(Str(v), k) in es
    && (limit > 0 ==> |LowerIn(GroupOf(es, Str(v)), k)| < limit)
    && (limit < 0 ==> |HigherIn(GroupOf(es, Str(v)), k)| < -limit)
  }

  lemma PickReaches(es: seq<Entry>, v: string, limit: int, k: string)
    requires Sorted(es)
    ensures k in Pick(GroupOf(es, Str(v)), limit) <==> Reaches(es, v, limit, k)
  {
    GroupIsAscending(es, Str(v));
    PickIs(GroupOf(es, Str(v)), limit, k);
  }

  lemma MatchingIs(es: seq<Entry>, p: string, v: string)
    ensures v in SortedKeys(MatchingValues(es, p)) <==> HasPrefix(v, p) && exists k :: Entry(Str(v), k) in es
  {
    var vals := SortedKeys(MatchingValues(es, p));
    assert v in vals <==> v in Elems(vals);
    if k :| Entry(Str(v), k) in es {
      assert Entry(Str(v), k).val.s == v;
    }
    if v in MatchingValues(es, p) {
      var e :| e in es && e.val.Str? && HasPrefix(e.val.s, p) && e.val.s == v;
      assert Entry(Str(v), e.pk) == e;
    }
  }

  /** With any limit the query returns exactly the keys filed under a value with the prefix that the limit reaches. */
  lemma PrefixFinds(es: seq<Entry>, p: string, limit: int, k: string)
    requires Sorted(es)
    ensures k in PrefixAnswer(es, p, limit) <==> exists v :: HasPrefix(v, p) && Reaches(es, v, limit, k)
  {
    var vals := SortedKeys(MatchingValues(es, p));
    PickEachFinds(es, vals, limit, k);
    forall v
      ensures v in vals && k in Pick(GroupOf(es, Str(v)), limit) <==> HasPrefix(v, p) && Reaches(es, v, limit, k)
    {
      PickReaches(es, v, limit, k);
      MatchingIs(es, p, v);
    }
  }

  /** The answer lists keys by ascending value, and within one value ascending, or descending for a negative limit:
      `vs` are the values under which they are filed. */
  ghost predicate InOrder(keys: seq<string>, vs: seq<string>, limit: int) {
    |vs| == |keys| && forall i, j :: 0 <= i < j < |keys| ==>
      Lt(vs[i], vs[j]) || (vs[i] == vs[j] && if limit >= 0 then Lt(keys[i], keys[j]) else Lt(keys[j], keys[i]))
  }

  /** Each key is filed under its value, within the limit. */
  ghost predicate Filed(es: seq<Entry>, keys: seq<string>, vs: seq<string>, limit: int) {
    |vs| == |keys| && forall i :: 0 <= i < |vs| ==> Reaches(es, vs[i], limit, keys[i])
  }

  ghost predicate Directed(keys: seq<string>, limit: int) {
    forall i, j :: 0 <= i < j < |keys| ==> if limit >= 0 then Lt(keys[i], keys[j]) else Lt(keys[j], keys[i])
  }

  /** The keys of one more, higher, value. */
  lemma InOrderNext(es: seq<Entry>, keys: seq<string>, vs: seq<string>, picked: seq<string>, v: string, limit: int)
    requires InOrder(keys, vs, limit) && Filed(es, keys, vs, limit)
    requires Directed(picked, limit) && forall i :: 0 <= i < |picked| ==> Reaches(es, v, limit, picked[i])
    requires forall i :: 0 <= i < |vs| ==> Lt(vs[i], v)
    ensures var vs' := vs + seq(|picked|, _ => v);
      InOrder(keys + picked, vs', limit) && Filed(es, keys + picked, vs', limit)
  {
    var ks', vs' := keys + picked, vs + seq(|picked|, _ => v);
    forall i, j | 0 <= i < j < |ks'|
      ensures Lt(vs'[i], vs'[j]) || (vs'[i] == vs'[j] && if limit >= 0 then Lt(ks'[i], ks'[j]) else Lt(ks'[j], ks'[i]))
    {
      if j >= |keys| {
        assert ks'[j] == picked[j - |keys|] && vs'[j] == v;
        if i >= |keys| {
          assert ks'[i] == picked[i - |keys|] && vs'[i] == v;
        }
      }
    }
  }

  lemma {:induction false} PickEachInOrder(es: seq<Entry>, vals: seq<string>, limit: int) returns (vs: seq<string>)
    requires Sorted(es) && Ascending(vals)
    ensures InOrder(PickEach(es, vals, limit), vs, limit) && Filed(es, PickEach(es, vals, limit), vs, limit)
    ensures forall i :: 0 <= i < |vs| ==> vs[i] in vals
    decreases |vals|
  {
    vs := [];
    if vals != [] {
      var init, last := vals[..|vals| - 1], vals[|vals| - 1];
      assert vals == init + [last];
      var before := PickEachInOrder(es, init, limit);
      var picked := Pick(GroupOf(es, Str(last)), limit);
      PickedInOrder(es, last, limit);
      InOrderNext(es, PickEach(es, init, limit), before, picked, last, limit);
      vs := before + seq(|picked|, _ => last);
    }
  }

  lemma PickedInOrder(es: seq<Entry>, v: string, limit: int)
    requires Sorted(es)
    ensures var picked := Pick(GroupOf(es, Str(v)), limit);
      Directed(picked, limit) && forall i :: 0 <= i < |picked| ==> Reaches(es, v, limit, picked[i])
  {
    var group := GroupOf(es, Str(v));
    var picked := Pick(group, limit);
    GroupIsAscending(es, Str(v));
    PickIs(group, limit, "");
    forall i | 0 <= i < |picked|
      ensures Reaches(es, v, limit, picked[i])
    {
      PickReaches(es, v, limit, picked[i]);
    }
    if limit < 0 {
      ReversedIsDirected(picked, limit);
    }
  }

  lemma ReversedIsDirected(picked: seq<string>, limit: int)
    requires limit < 0 && Ascending(Reverse(picked))
    ensures Directed(picked, limit)
  {
    forall i, j | 0 <= i < j < |picked|
      ensures Lt(picked[j], picked[i])
    {
      var r := Reverse(picked);
      assert r[|picked| - 1 - j] == picked[j] && r[|picked| - 1 - i] == picked[i];
    }
  }

  lemma PrefixInOrder(es: seq<Entry>, p: string, limit: int) returns (vs: seq<string>)
    requires Sorted(es)
    ensures InOrder(PrefixAnswer(es, p, limit), vs, limit) && Filed(es, PrefixAnswer(es, p, limit), vs, limit)
    ensures forall i :: 0 <= i < |vs| ==> HasPrefix(vs[i], p)
  {
    vs := PickEachInOrder(es, SortedKeys(MatchingValues(es, p)), limit);
    forall i | 0 <= i < |vs|
      ensures HasPrefix(vs[i], p)
    {
      MatchingIs(es, p, vs[i]);
    }
  }

  /** Without a limit the query returns every key filed under a value with the prefix, and no other. */
  lemma PrefixFindsAll(es: seq<Entry>, p: string, k: string)
    requires Sorted(es)
    ensures k in PrefixAnswer(es, p, 0) <==> exists v :: HasPrefix(v, p) && Entry(Str(v), k) in es
  {
    PrefixFinds(es, p, 0, k);
    if v :| HasPrefix(v, p) && Entry(Str(v), k) in es {
      assert Reaches(es, v, 0, k);
    }
  }

  /** The order of the index: strings bytewise, numbers numerically, keys under one value bytewise. */
  lemma IndexOrderIs(es: seq<Entry>, i: nat, j: nat)
    requires Sorted(es) && i < j < |es|
    ensures es[i].val.Num? && es[j].val.Num? ==> es[i].val.n <= es[j].val.n
    ensures es[i].val.Str? && es[j].val.Str? && es[i].val != es[j].val ==>
      exists n: nat :: DiffersAt(es[i].val.s, es[j].val.s, n)
        && (n == |es[i].val.s| || es[i].val.s[n] < es[j].val.s[n])
    ensures es[i].val == es[j].val ==>
      exists n: nat :: DiffersAt(es[i].pk, es[j].pk, n) && (n == |es[i].pk| || es[i].pk[n] < es[j].pk[n])
  {
    assert Less(es[i], es[j]);
    ValueLtIrreflexive(es[i].val);
    if es[i].val == es[j].val {
      LtIff(es[i].pk, es[j].pk);
    } else if es[i].val.Str? && es[j].val.Str? {
      LtIff(es[i].val.s, es[j].val.s);
    }
  }
}

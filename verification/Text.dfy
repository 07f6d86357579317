/** Byte strings in Go's order.  A `char` stands for one byte of a Go string. */
module Text {

  /** Go's `a < b` on strings. */
  predicate Lt(a: string, b: string) {
    b != "" && (a == "" || a[0] < b[0] || (a[0] == b[0] && Lt(a[1..], b[1..])))
  }

  /** Go's `a <= b` on strings. */
  predicate Le(a: string, b: string) {
    a == b || Lt(a, b)
  }

  lemma {:induction false} LtIrreflexive(a: string)
    ensures !Lt(a, a)
  {
    if a != "" {
      LtIrreflexive(a[1..]);
    }
  }

  lemma {:induction false} LtTransitive(a: string, b: string, c: string)
    requires Lt(a, b) && Lt(b, c)
    ensures Lt(a, c)
  {
    if a != "" && a[0] == b[0] && b[0] == c[0] {
      LtTransitive(a[1..], b[1..], c[1..]);
    }
  }

  lemma LtAsymmetric(a: string, b: string)
    requires Lt(a, b)
    ensures !Lt(b, a)
  {
    if Lt(b, a) {
      LtTransitive(a, b, a);
      LtIrreflexive(a);
    }
  }

  lemma {:induction false} LtTotal(a: string, b: string)
    ensures Lt(a, b) || a == b || Lt(b, a)
  {
    if a != "" && b != "" && a[0] == b[0] {
      LtTotal(a[1..], b[1..]);
      assert a == [a[0]] + a[1..];
      assert b == [b[0]] + b[1..];
    }
  }

  lemma LeTransitive(a: string, b: string, c: string)
    requires Le(a, b) && Le(b, c)
    ensures Le(a, c)
  {
    if Lt(a, b) && Lt(b, c) {
      LtTransitive(a, b, c);
    }
  }

  /** No string sorts below the empty one. */
  lemma EmptyIsLeast(a: string)
    ensures Le("", a) && !Lt(a, "")
  {
  }

  /** The order is bytewise: at the first place where the two differ the smaller byte comes first, and a proper
      prefix comes before what it starts. */
  lemma {:induction false} LtIff(a: string, b: string)
    ensures Lt(a, b) <==> exists n: nat :: DiffersAt(a, b, n) && (n == |a| || a[n] < b[n])
  {
    if a != "" && b != "" && a[0] == b[0] {
      LtIff(a[1..], b[1..]);
      if n: nat :| DiffersAt(a[1..], b[1..], n) && (n == |a[1..]| || a[1..][n] < b[1..][n]) {
        assert a[..n + 1] == [a[0]] + a[1..][..n] && b[..n + 1] == [b[0]] + b[1..][..n];
        assert DiffersAt(a, b, n + 1);
      }
      if n: nat :| DiffersAt(a, b, n) && (n == |a| || a[n] < b[n]) {
        assert n > 0;
        assert a[1..][..n - 1] == a[..n][1..] && b[1..][..n - 1] == b[..n][1..];
        assert DiffersAt(a[1..], b[1..], n - 1);
      }
    } else {
      assert a == "" && b != "" ==> DiffersAt(a, b, 0);
      assert a != "" && b != "" ==> DiffersAt(a, b, 0);
    }
  }

  /** The two agree on their first `n` bytes; the second goes on, and the first ends there or goes on differently. */
  predicate DiffersAt(a: string, b: string, n: nat) {
    n <= |a| && n < |b| && a[..n] == b[..n] && (n == |a| || a[n] != b[n])
  }

  /** `strings.HasPrefix(s, p)`. */
  predicate HasPrefix(s: string, p: string) {
    |p| <= |s| && s[..|p|] == p
  }

  lemma HasPrefixIff(s: string, p: string)
    ensures HasPrefix(s, p) <==> exists rest :: s == p + rest
  {
    if HasPrefix(s, p) {
      assert s == p + s[|p|..];
    }
  }

  /** A string never sorts below one of its prefixes. */
  lemma {:induction false} PrefixIsLe(s: string, p: string)
    requires HasPrefix(s, p)
    ensures Le(p, s)
  {
    if p != "" {
      assert s[1..][..|p| - 1] == p[1..];
      PrefixIsLe(s[1..], p[1..]);
      assert p == [p[0]] + p[1..];
      assert s == [s[0]] + s[1..];
    }
  }

  /** The strings with prefix `p` form one contiguous run that starts at `p`. */
  lemma {:induction false} PrefixRunIsContiguous(p: string, a: string, b: string)
    requires Le(p, a) && Le(a, b) && HasPrefix(b, p)
    ensures HasPrefix(a, p)
  {
    if p != "" {
      PrefixIsLe(b, p);
      assert a != "" && p[0] <= a[0] <= b[0] && b[0] == p[0];
      assert p == [p[0]] + p[1..];
      assert a == [a[0]] + a[1..];
      assert b == [b[0]] + b[1..];
      assert b[1..][..|p| - 1] == p[1..];
      PrefixRunIsContiguous(p[1..], a[1..], b[1..]);
      assert a[..|p|] == [a[0]] + a[1..][..|p| - 1];
    }
  }

  /** `v + "\x00"` is the immediate successor of `v`. */
  lemma {:induction false} SuccessorIsImmediate(v: string, s: string)
    ensures Lt(v, v + ['\0'])
    ensures Lt(v, s) <==> Le(v + ['\0'], s)
  {
    var w := v + ['\0'];
    if v == "" {
      assert w == ['\0'];
      if s != "" {
        assert s == [s[0]] + s[1..];
        if s[0] == '\0' {
          assert Lt(w, s) <==> Lt(w[1..], s[1..]);
          assert w[1..] == "";
          if s[1..] == "" {
            assert s == w;
          }
        } else {
          assert '\0' < s[0];
        }
      }
    } else {
      assert w[1..] == v[1..] + ['\0'];
      assert w == [v[0]] + w[1..];
      SuccessorIsImmediate(v[1..], if s == "" then "" else s[1..]);
      if s != "" {
        assert s == [s[0]] + s[1..];
      }
    }
  }

  /** The same character `n` times. */
  function Repeat(ch: char, n: nat): (s: string)
    ensures |s| == n && forall i :: 0 <= i < n ==> s[i] == ch
  {
    seq(n, _ => ch)
  }

  /** Strictly ascending. */
  ghost predicate Ascending(s: seq<string>) {
    forall i, j :: 0 <= i < j < |s| ==> Lt(s[i], s[j])
  }

  ghost function Elems<T>(s: seq<T>): set<T> {
    set x | x in s
  }

  predicate IsLeast(m: string, s: set<string>) {
    m in s && forall k :: k in s ==> Le(m, k)
  }

  lemma {:induction false} LeastExists(s: set<string>) returns (m: string)
    requires s != {}
    ensures IsLeast(m, s)
  {
    var k :| k in s;
    var rest := s - {k};
    if rest == {} {
      m := k;
      assert s == {k};
    } else {
      var r := LeastExists(rest);
      LtTotal(k, r);
      m := if Le(k, r) then k else r;
      forall x | x in s
        ensures Le(m, x)
      {
        if x == k {
        } else {
          assert x in rest;
          LeTransitive(m, r, x);
        }
      }
    }
  }

  ghost function Least(s: set<string>): (m: string)
    requires s != {}
    ensures IsLeast(m, s)
  {
    assert exists m :: IsLeast(m, s) by {
      var m := LeastExists(s);
    }
    var m :| IsLeast(m, s);
    m
  }

  /** `r` lists the elements of `s` in ascending order. */
  ghost predicate IsSorting(r: seq<string>, s: set<string>) {
    Ascending(r) && Elems(r) == s
  }

  lemma {:induction false} SortingExists(s: set<string>) returns (r: seq<string>)
    ensures IsSorting(r, s)
  {
    if s == {} {
      r := [];
      assert Elems(r) == {};
    } else {
      var m := LeastExists(s);
      var rest := SortingExists(s - {m});
      SortedCons(m, rest, s);
      r := [m] + rest;
    }
  }

  /** The keys of a set in the order an ordered tree visits them. */
  ghost function SortedKeys(s: set<string>): (r: seq<string>)
    ensures Ascending(r) && Elems(r) == s && |r| == |s|
  {
    assert exists r :: IsSorting(r, s) by {
      var r := SortingExists(s);
    }
    var r :| IsSorting(r, s);
    AscendingSize(r);
    r
  }

  lemma {:induction false} AscendingSize(s: seq<string>)
    requires Ascending(s)
    ensures |Elems(s)| == |s|
  {
    if s == [] {
      assert Elems(s) == {};
    } else {
      AscendingTail(s);
      AscendingSize(s[1..]);
      assert s[0] in Elems(s);
    }
  }

  lemma SortedCons(m: string, rest: seq<string>, s: set<string>)
    requires IsLeast(m, s) && Ascending(rest) && Elems(rest) == s - {m}
    ensures Ascending([m] + rest) && Elems([m] + rest) == s
  {
    var r := [m] + rest;
    forall i, j | 0 <= i < j < |r|
      ensures Lt(r[i], r[j])
    {
      assert r[j] == rest[j - 1] && rest[j - 1] in Elems(rest);
    }
    assert forall x :: x in rest <==> x in Elems(rest);
    assert forall x :: x in r <==> x == m || x in rest;
  }

  /** An ascending sequence is determined by its elements. */
  lemma {:induction false} AscendingUnique(a: seq<string>, b: seq<string>)
    requires Ascending(a) && Ascending(b)
    requires Elems(a) == Elems(b)
    ensures a == b
  {
    ElemsEmpty(a);
    ElemsEmpty(b);
    if a != [] {
      AscendingHead(a, b);
      assert a == [a[0]] + a[1..];
      assert b == [b[0]] + b[1..];
      AscendingTail(a);
      AscendingTail(b);
      AscendingUnique(a[1..], b[1..]);
    }
  }

  lemma AscendingSnoc(a: seq<string>, x: string)
    requires Ascending(a) && forall i :: 0 <= i < |a| ==> Lt(a[i], x)
    ensures Ascending(a + [x])
  {
  }

  lemma ElemsSnoc<T>(a: seq<T>, x: T)
    ensures Elems(a + [x]) == Elems(a) + {x}
  {
    assert forall y :: y in a + [x] <==> y in a || y == x;
  }

  lemma ElemsEmpty<T>(a: seq<T>)
    ensures Elems(a) == {} <==> a == []
  {
    if a != [] {
      assert a[0] in Elems(a);
    }
  }

  lemma AscendingHead(a: seq<string>, b: seq<string>)
    requires Ascending(a) && Ascending(b) && a != [] && b != []
    requires Elems(a) == Elems(b)
    ensures a[0] == b[0]
  {
    assert a[0] in Elems(b) && b[0] in Elems(a);
    var i :| 0 <= i < |b| && b[i] == a[0];
    var j :| 0 <= j < |a| && a[j] == b[0];
    if i > 0 && j > 0 {
      LtAsymmetric(a[0], b[0]);
    }
  }

  lemma AscendingTail(a: seq<string>)
    requires Ascending(a) && a != []
    ensures Ascending(a[1..])
    ensures Elems(a[1..]) == Elems(a) - {a[0]}
  {
    forall x | x in Elems(a[1..])
      ensures x in Elems(a) - {a[0]}
    {
      var i :| 0 <= i < |a[1..]| && a[1..][i] == x;
      assert a[i + 1] == x;
      LtIrreflexive(x);
    }
    forall x | x in Elems(a) - {a[0]}
      ensures x in Elems(a[1..])
    {
      var i :| 0 <= i < |a| && a[i] == x;
      assert a[1..][i - 1] == x;
    }
  }

  method PickLeast(s: set<string>) returns (m: string)
    requires s != {}
    ensures IsLeast(m, s)
  {
    ghost var least := Least(s);
    m :| m in s && IsLeast(m, s);
  }

  /** The order in which an ordered tree's scan visits its keys. */
  method TreeOrder(keys: set<string>) returns (ks: seq<string>)
    ensures ks == SortedKeys(keys)
  {
    ks := [];
    var rest := keys;
    while rest != {}
      invariant rest <= keys
      invariant Ascending(ks) && Elems(ks) == keys - rest
      invariant forall i, k :: 0 <= i < |ks| && k in rest ==> Lt(ks[i], k)
      decreases rest
    {
      var m := PickLeast(rest);
      ElemsSnoc(ks, m);
      assert keys - (rest - {m}) == (keys - rest) + {m};
      forall k | k in rest - {m}
        ensures Lt(m, k)
      {
        assert Le(m, k);
      }
      AscendingSnoc(ks, m);
      ks := ks + [m];
      rest := rest - {m};
    }
    AscendingUnique(ks, SortedKeys(keys));
  }

  ghost function KeysBelow(keys: set<string>, cutoff: string): set<string> {
    set k | k in keys && Lt(k, cutoff)
  }

  ghost function KeysBeyond(keys: set<string>, cutoff: string): set<string> {
    set k | k in keys && Lt(cutoff, k)
  }

  /** The scan that collects keys until the cutoff is reached. */
  method CollectBelow(ks: seq<string>, cutoff: string) returns (doomed: seq<string>)
    requires Ascending(ks)
    ensures doomed == SortedKeys(KeysBelow(Elems(ks), cutoff))
  {
    doomed := [];
    var i := 0;
    while i < |ks| && Lt(ks[i], cutoff)
      invariant 0 <= i <= |ks| && doomed == ks[..i]
      invariant forall j :: 0 <= j < i ==> Lt(ks[j], cutoff)
    {
      doomed := doomed + [ks[i]];
      i := i + 1;
    }
    forall j | 0 <= j < |ks|
      ensures ks[j] in KeysBelow(Elems(ks), cutoff) <==> j < i
    {
      assert ks[j] in Elems(ks);
      if i < j && Lt(ks[j], cutoff) {
        LtTransitive(ks[i], ks[j], cutoff);
      }
    }
    SliceIsSorted(ks, doomed, KeysBelow(Elems(ks), cutoff), 0, i);
  }

  /** Positions at the first key at or after the cutoff. */
  method SeekKey(ks: seq<string>, cutoff: string) returns (from: nat)
    requires Ascending(ks)
    ensures from <= |ks|
    ensures forall j :: 0 <= j < |ks| ==> (Lt(ks[j], cutoff) <==> j < from)
  {
    from := 0;
    while from < |ks| && Lt(ks[from], cutoff)
      invariant 0 <= from <= |ks|
      invariant forall j :: 0 <= j < from ==> Lt(ks[j], cutoff)
    {
      from := from + 1;
    }
    forall j | from <= j < |ks|
      ensures !Lt(ks[j], cutoff)
    {
      if from < j && Lt(ks[j], cutoff) {
        LtTransitive(ks[from], ks[j], cutoff);
      }
    }
  }

  /** The scan from the cutoff upward that skips the cutoff itself. */
  method CollectBeyond(ks: seq<string>, cutoff: string) returns (doomed: seq<string>)
    requires Ascending(ks)
    ensures doomed == SortedKeys(KeysBeyond(Elems(ks), cutoff))
  {
    var from := SeekKey(ks, cutoff);
    ghost var start := if from < |ks| && ks[from] == cutoff then from + 1 else from;
    forall j | 0 <= j < |ks|
      ensures ks[j] in KeysBeyond(Elems(ks), cutoff) <==> start <= j
    {
      BeyondStarts(ks, cutoff, from, start, j);
    }
    doomed := [];
    var i := from;
    while i < |ks|
      invariant from <= i <= |ks|
      invariant i <= start ==> doomed == []
      invariant start <= i ==> doomed == ks[start..i]
    {
      assert Lt(cutoff, ks[i]) <==> start <= i by {
        assert ks[i] in Elems(ks);
        assert ks[i] in KeysBeyond(Elems(ks), cutoff) <==> start <= i;
      }
      if Lt(cutoff, ks[i]) {
        assert ks[start..i + 1] == ks[start..i] + [ks[i]];
        doomed := doomed + [ks[i]];
      }
      i := i + 1;
    }
    SliceIsSorted(ks, doomed, KeysBeyond(Elems(ks), cutoff), start, |ks|);
  }

  lemma BeyondStarts(ks: seq<string>, cutoff: string, from: nat, start: nat, j: nat)
    requires Ascending(ks) && from <= |ks| && j < |ks|
    requires forall i :: 0 <= i < |ks| ==> (Lt(ks[i], cutoff) <==> i < from)
    requires start == if from < |ks| && ks[from] == cutoff then from + 1 else from
    ensures ks[j] in KeysBeyond(Elems(ks), cutoff) <==> start <= j
  {
    assert ks[j] in Elems(ks);
    LtTotal(ks[j], cutoff);
    LtIrreflexive(cutoff);
    if Lt(ks[j], cutoff) {
      LtAsymmetric(ks[j], cutoff);
    }
    assert forall i :: from < i < |ks| ==> Lt(ks[from], ks[i]);
  }

  lemma SliceIsSorted(ks: seq<string>, part: seq<string>, want: set<string>, lo: nat, hi: nat)
    requires Ascending(ks) && lo <= hi <= |ks| && part == ks[lo..hi]
    requires want <= Elems(ks)
    requires forall j :: 0 <= j < |ks| ==> (ks[j] in want <==> lo <= j < hi)
    ensures part == SortedKeys(want)
  {
    forall x | x in Elems(part)
      ensures x in want
    {
      var j :| 0 <= j < |part| && part[j] == x;
      assert ks[lo + j] == x;
    }
    forall x | x in want
      ensures x in part
    {
      assert x in Elems(ks);
      var j :| 0 <= j < |ks| && ks[j] == x;
      assert part[j - lo] == x;
    }
    assert Elems(part) == want;
    AscendingUnique(part, SortedKeys(want));
  }

  ghost function KeysWithPrefix(keys: set<string>, p: string): set<string> {
    set k | k in keys && HasPrefix(k, p)
  }

  /** The ascending walk from the first key at or after the prefix, as long as the prefix lasts. */
  method PrefixRun(ks: seq<string>, p: string) returns (run: seq<string>)
    requires Ascending(ks)
    ensures run == SortedKeys(KeysWithPrefix(Elems(ks), p))
  {
    var from := SeekKey(ks, p);
    run := [];
    var i := from;
    while i < |ks| && HasPrefix(ks[i], p)
      invariant from <= i <= |ks| && run == ks[from..i]
      invariant forall j :: from <= j < i ==> HasPrefix(ks[j], p)
    {
      run := run + [ks[i]];
      i := i + 1;
    }
    forall j | 0 <= j < |ks|
      ensures ks[j] in KeysWithPrefix(Elems(ks), p) <==> from <= j < i
    {
      PrefixRunEnds(ks, p, from, i, j);
    }
    SliceIsSorted(ks, run, KeysWithPrefix(Elems(ks), p), from, i);
  }

  lemma PrefixRunEnds(ks: seq<string>, p: string, from: nat, end: nat, j: nat)
    requires Ascending(ks) && from <= end <= |ks| && j < |ks|
    requires forall i :: 0 <= i < |ks| ==> (Lt(ks[i], p) <==> i < from)
    requires forall i :: from <= i < end ==> HasPrefix(ks[i], p)
    requires end < |ks| ==> !HasPrefix(ks[end], p)
    ensures ks[j] in KeysWithPrefix(Elems(ks), p) <==> from <= j < end
  {
    assert ks[j] in Elems(ks);
    if HasPrefix(ks[j], p) {
      PrefixIsLe(ks[j], p);
      if Lt(ks[j], p) && ks[j] != p {
        LtAsymmetric(ks[j], p);
      }
      LtIrreflexive(p);
      if end < |ks| && end <= j {
        LtTotal(p, ks[end]);
        PrefixRunIsContiguous(p, ks[end], ks[j]);
      }
    }
  }
}

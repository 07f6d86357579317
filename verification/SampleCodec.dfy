/** A codec that obeys the laws, so the hypothesis of the other modules can be met.  Every writer takes what
    follows it, and what follows can be told from what it wrote. */
module SampleCodec {
  import opened Text
  import opened Wrappers
  import opened CounterCodec
  import opened SecIndex
  import opened Records

  function Cons(ch: char, rest: string): string {
    [ch] + rest
  }

  lemma ConsCancels(a: char, b: char, x: string, y: string)
    requires Cons(a, x) == Cons(b, y)
    ensures a == b && x == y
  {
    assert Cons(a, x)[0] == a && Cons(b, y)[0] == b;
    assert Cons(a, x)[1..] == x && Cons(b, y)[1..] == y;
  }

  /** Neither a newline nor an opening brace. */
  predicate Clean(s: string) {
    '\n' !in s && '{' !in s
  }

  // ---- escaped strings ----

  predicate Special(ch: char) {
    ch == '"' || ch == '\\' || ch == '\n' || ch == '{'
  }

  function Code(ch: char): char {
    if ch == '"' then 'q' else if ch == '\n' then 'n' else if ch == '{' then 'o' else '\\'
  }

  /** The escaped string, its closing quote, and the rest. */
  function EscTo(s: string, rest: string): string {
    if s == "" then Cons('"', rest)
    else if Special(s[0]) then Cons('\\', Cons(Code(s[0]), EscTo(s[1..], rest)))
    else Cons(s[0], EscTo(s[1..], rest))
  }

  function Esc(s: string): string {
    if s == "" then ""
    else (if Special(s[0]) then ['\\', Code(s[0])] else [s[0]]) + Esc(s[1..])
  }

  lemma {:induction false} EscToIsEsc(s: string, rest: string)
    ensures EscTo(s, rest) == Esc(s) + Cons('"', rest)
  {
    if s == "" {
      assert Esc(s) + Cons('"', rest) == Cons('"', rest);
    } else {
      EscToIsEsc(s[1..], rest);
    }
  }

  lemma {:induction false} EscHasNoQuote(s: string)
    ensures '"' !in Esc(s)
  {
    if s != "" {
      EscHasNoQuote(s[1..]);
    }
  }

  lemma {:induction false} EscToIsClean(s: string, rest: string)
    requires Clean(rest)
    ensures Clean(EscTo(s, rest))
  {
    if s != "" {
      EscToIsClean(s[1..], rest);
    }
  }

  lemma {:induction false} EscCancels(a: string, b: string, x: string, y: string)
    requires EscTo(a, x) == EscTo(b, y)
    ensures a == b && x == y
  {
    assert EscTo(a, x)[0] == EscTo(b, y)[0];
    if a == "" {
      ConsCancels('"', '"', x, y);
    } else {
      var x1, y1 := EscTo(a[1..], x), EscTo(b[1..], y);
      if Special(a[0]) {
        ConsCancels('\\', '\\', Cons(Code(a[0]), x1), Cons(Code(b[0]), y1));
        ConsCancels(Code(a[0]), Code(b[0]), x1, y1);
      } else {
        ConsCancels(a[0], b[0], x1, y1);
      }
      EscCancels(a[1..], b[1..], x, y);
      assert a == [a[0]] + a[1..] && b == [b[0]] + b[1..];
    }
  }

  // ---- numbers, flags and options ----

  function NatTo(n: nat, rest: string): string {
    if n == 0 then Cons('0', rest) else Cons('1', NatTo(n - 1, rest))
  }

  lemma {:induction false} NatCancels(a: nat, b: nat, x: string, y: string)
    requires NatTo(a, x) == NatTo(b, y)
    ensures a == b && x == y
  {
    assert NatTo(a, x)[0] == NatTo(b, y)[0];
    if a == 0 {
      ConsCancels('0', '0', x, y);
    } else {
      ConsCancels('1', '1', NatTo(a - 1, x), NatTo(b - 1, y));
      NatCancels(a - 1, b - 1, x, y);
    }
  }

  lemma {:induction false} NatIsClean(n: nat, rest: string)
    requires Clean(rest)
    ensures Clean(NatTo(n, rest))
  {
    if n > 0 {
      NatIsClean(n - 1, rest);
    }
  }

  function IntTo(i: int, rest: string): string {
    if i < 0 then Cons('-', NatTo(-i, rest)) else Cons('+', NatTo(i, rest))
  }

  lemma IntCancels(a: int, b: int, x: string, y: string)
    requires IntTo(a, x) == IntTo(b, y)
    ensures a == b && x == y
  {
    assert IntTo(a, x)[0] == IntTo(b, y)[0];
    var na, nb := if a < 0 then -a else a, if b < 0 then -b else b;
    ConsCancels(if a < 0 then '-' else '+', if b < 0 then '-' else '+', NatTo(na, x), NatTo(nb, y));
    NatCancels(na, nb, x, y);
  }

  lemma IntIsClean(i: int, rest: string)
    requires Clean(rest)
    ensures Clean(IntTo(i, rest))
  {
    NatIsClean(if i < 0 then -i else i, rest);
  }

  function FlagTo(b: bool, rest: string): string {
    Cons(if b then 't' else 'f', rest)
  }

  lemma FlagCancels(a: bool, b: bool, x: string, y: string)
    requires FlagTo(a, x) == FlagTo(b, y)
    ensures a == b && x == y
  {
    ConsCancels(if a then 't' else 'f', if b then 't' else 'f', x, y);
  }

  function RefTo(r: Option<BlobRef>, rest: string): string {
    if r.None? then Cons('n', rest)
    else Cons('s', NatTo(r.value.off, NatTo(r.value.size, NatTo(r.value.gen, rest))))
  }

  lemma RefCancels(a: Option<BlobRef>, b: Option<BlobRef>, x: string, y: string)
    requires RefTo(a, x) == RefTo(b, y)
    ensures a == b && x == y
  {
    assert RefTo(a, x)[0] == RefTo(b, y)[0];
    if a.None? {
      ConsCancels('n', 'n', x, y);
    } else {
      var p, q := a.value, b.value;
      var x1, y1 := NatTo(p.gen, x), NatTo(q.gen, y);
      ConsCancels('s', 's', NatTo(p.off, NatTo(p.size, x1)), NatTo(q.off, NatTo(q.size, y1)));
      NatCancels(p.off, q.off, NatTo(p.size, x1), NatTo(q.size, y1));
      NatCancels(p.size, q.size, x1, y1);
      NatCancels(p.gen, q.gen, x, y);
    }
  }

  lemma RefIsClean(r: Option<BlobRef>, rest: string)
    requires Clean(rest)
    ensures Clean(RefTo(r, rest))
  {
    if r.Some? {
      NatIsClean(r.value.gen, rest);
      NatIsClean(r.value.size, NatTo(r.value.gen, rest));
      NatIsClean(r.value.off, NatTo(r.value.size, NatTo(r.value.gen, rest)));
    }
  }

  // ---- index values ----

  function ValTo(v: Value, rest: string): string {
    match v
    case Str(s) => Cons('s', EscTo(s, rest))
    case Num(n) => Cons('i', IntTo(n, rest))
  }

  lemma ValCancels(a: Value, b: Value, x: string, y: string)
    requires ValTo(a, x) == ValTo(b, y)
    ensures a == b && x == y
  {
    assert ValTo(a, x)[0] == ValTo(b, y)[0];
    if a.Str? {
      ConsCancels('s', 's', EscTo(a.s, x), EscTo(b.s, y));
      EscCancels(a.s, b.s, x, y);
    } else {
      ConsCancels('i', 'i', IntTo(a.n, x), IntTo(b.n, y));
      IntCancels(a.n, b.n, x, y);
    }
  }

  lemma ValIsClean(v: Value, rest: string)
    requires Clean(rest)
    ensures Clean(ValTo(v, rest))
  {
    match v
    case Str(s) => EscToIsClean(s, rest);
    case Num(n) => IntIsClean(n, rest);
  }

  datatype Pair = Pair(name: string, val: Value)

  function PairsTo(ps: seq<Pair>, rest: string): string {
    if ps == [] then Cons('.', rest)
    else Cons(',', EscTo(ps[0].name, ValTo(ps[0].val, PairsTo(ps[1..], rest))))
  }

  lemma {:induction false} PairsCancel(a: seq<Pair>, b: seq<Pair>, x: string, y: string)
    requires PairsTo(a, x) == PairsTo(b, y)
    ensures a == b && x == y
    decreases |a|
  {
    assert PairsTo(a, x)[0] == PairsTo(b, y)[0];
    if a == [] {
      ConsCancels('.', '.', x, y);
    } else {
      var x1, y1 := PairsTo(a[1..], x), PairsTo(b[1..], y);
      var x2, y2 := ValTo(a[0].val, x1), ValTo(b[0].val, y1);
      ConsCancels(',', ',', EscTo(a[0].name, x2), EscTo(b[0].name, y2));
      EscCancels(a[0].name, b[0].name, x2, y2);
      ValCancels(a[0].val, b[0].val, x1, y1);
      PairsCancel(a[1..], b[1..], x, y);
      assert a == [a[0]] + a[1..] && b == [b[0]] + b[1..];
    }
  }

  lemma {:induction false} PairsAreClean(ps: seq<Pair>, rest: string)
    requires Clean(rest)
    ensures Clean(PairsTo(ps, rest))
    decreases |ps|
  {
    if ps != [] {
      PairsAreClean(ps[1..], rest);
      ValIsClean(ps[0].val, PairsTo(ps[1..], rest));
      EscToIsClean(ps[0].name, ValTo(ps[0].val, PairsTo(ps[1..], rest)));
    }
  }

  lemma SortedAreKeys(ix: IX, i: nat)
    requires i < |SortedKeys(ix.Keys)|
    ensures SortedKeys(ix.Keys)[i] in ix
  {
    assert SortedKeys(ix.Keys)[i] in Elems(SortedKeys(ix.Keys));
  }

  /** The index values in key order. */
  ghost function PairsOf(ix: IX): seq<Pair> {
    var ks := SortedKeys(ix.Keys);
    seq(|ks|, i requires 0 <= i < |ks| => SortedAreKeys(ix, i); Pair(ks[i], ix[ks[i]]))
  }

  lemma PairsDetermine(a: IX, b: IX)
    requires PairsOf(a) == PairsOf(b)
    ensures a == b
  {
    var ks := SortedKeys(a.Keys);
    forall i | 0 <= i < |ks|
      ensures SortedKeys(b.Keys)[i] == ks[i] && ks[i] in a && ks[i] in b && a[ks[i]] == b[ks[i]]
    {
      SortedAreKeys(a, i);
      SortedAreKeys(b, i);
      assert PairsOf(a)[i] == PairsOf(b)[i];
    }
    assert ks == SortedKeys(b.Keys);
    assert a.Keys == Elems(ks) == b.Keys;
  }

  // ---- records ----

  const COUNTER_OPEN := ",\"s\":\""

  function PlainRest(text: string, exp: int): string {
    COUNTER_OPEN + (text + Cons('"', IntTo(exp, "")))
  }

  ghost function FullRest(r: Record): string {
    Cons('x', EscTo(r.value, RefTo(r.blob, FlagTo(r.deleted, PairsTo(PairsOf(r.ix),
      FlagTo(r.counter, IntTo(r.exp, "")))))))
  }

  /** What follows the key's closing quote. */
  ghost function Rest(r: Record): string {
    if Patchable(r) then PlainRest(r.value, r.exp) else FullRest(r)
  }

  ghost function Enc(r: Record): string {
    KEY_OPEN + EscTo(r.key, Rest(r))
  }

  lemma PlainRestIsClean(text: string, exp: int)
    requires CounterText(text)
    ensures Clean(PlainRest(text, exp))
  {
    IntIsClean(exp, "");
    assert forall i :: 0 < i < |text| ==> text[i] == text[1..][i - 1];
    assert Clean(text);
  }

  lemma FullRestIsClean(r: Record)
    ensures Clean(FullRest(r))
  {
    var s4 := IntTo(r.exp, "");
    IntIsClean(r.exp, "");
    var s3 := FlagTo(r.counter, s4);
    var s2 := PairsTo(PairsOf(r.ix), s3);
    PairsAreClean(PairsOf(r.ix), s3);
    var s1 := FlagTo(r.deleted, s2);
    RefIsClean(r.blob, s1);
    EscToIsClean(r.value, RefTo(r.blob, s1));
  }

  lemma RestIsClean(r: Record)
    ensures Clean(Rest(r))
  {
    if Patchable(r) {
      PlainRestIsClean(r.value, r.exp);
    } else {
      FullRestIsClean(r);
    }
  }

  lemma OpenIsClean(rest: string)
    requires Clean(rest)
    ensures |KEY_OPEN + rest| > 0 && (KEY_OPEN + rest)[0] == '{' && Clean((KEY_OPEN + rest)[1..])
    ensures '\n' !in KEY_OPEN + rest
  {
    assert (KEY_OPEN + rest)[1..] == "\"k\":\"" + rest;
  }

  lemma EncIsClean(r: Record)
    ensures |Enc(r)| > 0 && Enc(r)[0] == '{' && Clean(Enc(r)[1..]) && '\n' !in Enc(r)
  {
    RestIsClean(r);
    EscToIsClean(r.key, Rest(r));
    OpenIsClean(EscTo(r.key, Rest(r)));
  }

  lemma PlainDetermines(s: string, t: string, e: int, f: int)
    requires CounterText(s) && CounterText(t) && PlainRest(s, e) == PlainRest(t, f)
    ensures s == t && e == f
  {
    var n := |COUNTER_OPEN|;
    var x, y := Cons('"', IntTo(e, "")), Cons('"', IntTo(f, ""));
    assert PlainRest(s, e)[n..] == s + x && PlainRest(t, f)[n..] == t + y;
    assert (s + x)[..COUNTER_WIDTH] == s && (t + y)[..COUNTER_WIDTH] == t;
    assert (s + x)[COUNTER_WIDTH..] == x && (t + y)[COUNTER_WIDTH..] == y;
    ConsCancels('"', '"', IntTo(e, ""), IntTo(f, ""));
    IntCancels(e, f, "", "");
  }

  lemma FullDetermines(a: Record, b: Record)
    requires FullRest(a) == FullRest(b) && a.key == b.key
    ensures a == b
  {
    var x4, y4 := IntTo(a.exp, ""), IntTo(b.exp, "");
    var x3, y3 := FlagTo(a.counter, x4), FlagTo(b.counter, y4);
    var x2, y2 := PairsTo(PairsOf(a.ix), x3), PairsTo(PairsOf(b.ix), y3);
    var x1, y1 := FlagTo(a.deleted, x2), FlagTo(b.deleted, y2);
    var x0, y0 := RefTo(a.blob, x1), RefTo(b.blob, y1);
    ConsCancels('x', 'x', EscTo(a.value, x0), EscTo(b.value, y0));
    EscCancels(a.value, b.value, x0, y0);
    RefCancels(a.blob, b.blob, x1, y1);
    FlagCancels(a.deleted, b.deleted, x2, y2);
    PairsCancel(PairsOf(a.ix), PairsOf(b.ix), x3, y3);
    PairsDetermine(a.ix, b.ix);
    FlagCancels(a.counter, b.counter, x4, y4);
    IntCancels(a.exp, b.exp, "", "");
  }

  lemma EncIsInjective(a: Record, b: Record)
    requires Enc(a) == Enc(b)
    ensures a == b
  {
    var n := |KEY_OPEN|;
    assert Enc(a)[n..] == EscTo(a.key, Rest(a)) && Enc(b)[n..] == EscTo(b.key, Rest(b));
    EscCancels(a.key, b.key, Rest(a), Rest(b));
    assert Rest(a)[0] == Rest(b)[0];
    assert forall r :: Rest(r)[0] == if Patchable(r) then ',' else 'x';
    if Patchable(a) {
      PlainDetermines(a.value, b.value, a.exp, b.exp);
    } else {
      FullDetermines(a, b);
    }
  }

  ghost function Dec(s: string): Option<Record> {
    if exists r :: Enc(r) == s then
      var r :| Enc(r) == s;
      Some(r)
    else None
  }

  function Tail(exp: int): string {
    IntTo(exp, "")
  }

  ghost function Sample(): Codec {
    Codec(Enc, Dec, Esc, Tail)
  }

  lemma DecInvertsEnc(r: Record)
    ensures Dec(Enc(r)) == Some(r)
  {
    var r' := Dec(Enc(r)).value;
    EncIsInjective(r', r);
  }

  lemma CutIsUnreadable(r: Record, i: nat)
    requires 0 < i <= |Enc(r)|
    ensures Dec(Enc(r)[i..]).None?
  {
    var s := Enc(r)[i..];
    EncIsClean(r);
    assert s != "" ==> s[0] == Enc(r)[1..][i - 1];
    forall r'
      ensures Enc(r') != s
    {
      EncIsClean(r');
    }
  }

  lemma Regroup(k: string, e: string, v: string, text: string, q: string, t: string)
    ensures k + (e + (v + (text + (q + t)))) == k + e + v + text + q + t
  {
    Assoc(k, e, v + (text + (q + t)));
    Assoc(k + e, v, text + (q + t));
    Assoc(k + e + v, text, q + t);
    Assoc(k + e + v + text, q, t);
  }

  lemma Assoc(a: string, b: string, c: string)
    ensures a + (b + c) == a + b + c
  {
  }

  lemma QuoteOpens(rest: string)
    ensures Cons('"', COUNTER_OPEN + rest) == VALUE_OPEN + rest
  {
    assert VALUE_OPEN == ['"'] + COUNTER_OPEN;
  }

  lemma CounterLayout(key: string, text: string, exp: int)
    requires CounterText(text)
    ensures Enc(CounterRecord(key, text, exp)) == CounterLine(Sample(), key, text, exp)
  {
    EscToIsEsc(key, PlainRest(text, exp));
    QuoteOpens(text + Cons('"', Tail(exp)));
    Regroup(KEY_OPEN, Esc(key), VALUE_OPEN, text, "\"", Tail(exp));
  }

  /** One codec meets all the laws on all records. */
  lemma SampleIsLawful()
    ensures Lawful(Sample())
  {
    var c := Sample();
    forall r
      ensures c.dec(c.enc(r)) == Some(r) && '\n' !in c.enc(r)
    {
      DecInvertsEnc(r);
      EncIsClean(r);
    }
    forall r, i | 0 < i <= |c.enc(r)|
      ensures c.dec(c.enc(r)[i..]).None?
    {
      CutIsUnreadable(r, i);
    }
    forall key
      ensures QuotesEscaped(c.esc(key))
    {
      EscHasNoQuote(key);
    }
    forall key, text, exp | CounterText(text)
      ensures c.enc(CounterRecord(key, text, exp)) == CounterLine(c, key, text, exp)
    {
      CounterLayout(key, text, exp);
    }
  }
}

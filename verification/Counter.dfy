/** The fixed-width text form of an int64 counter. */
module CounterCodec {
  import opened Wrappers

  const MIN_INT64 := -0x8000_0000_0000_0000
  const MAX_INT64 := 0x7FFF_FFFF_FFFF_FFFF

  type int64 = x: int | MIN_INT64 <= x <= MAX_INT64
  type uint64 = x: int | 0 <= x < 0x1_0000_0000_0000_0000

  const COUNTER_WIDTH := 20

  predicate IsDigit(ch: char) {
    '0' <= ch <= '9'
  }

  function DigitOf(d: int): char
    requires 0 <= d < 10
  {
    '0' + d as char
  }

  function DigitValue(ch: char): (d: int)
    requires IsDigit(ch)
    ensures 0 <= d < 10
  {
    ch as int - '0' as int
  }

  predicate AllDigits(s: string) {
    forall i :: 0 <= i < |s| ==> IsDigit(s[i])
  }

  ghost function Pow10(n: nat): (p: nat)
    ensures p > 0
  {
    if n == 0 then 1 else 10 * Pow10(n - 1)
  }

  /** The last `n` decimal digits of `m`, zero padded. */
  ghost function Digits(m: nat, n: nat): (s: string)
    ensures |s| == n && AllDigits(s)
  {
    if n == 0 then "" else Digits(m / 10, n - 1) + [DigitOf(m % 10)]
  }

  /** The number a digit string denotes. */
  ghost function DigitsValue(s: string): nat
    requires AllDigits(s)
  {
    if s == "" then 0 else 10 * DigitsValue(s[..|s| - 1]) + DigitValue(s[|s| - 1])
  }

  lemma {:induction false} DigitsValueBound(s: string)
    requires AllDigits(s)
    ensures DigitsValue(s) < Pow10(|s|)
  {
    if s != "" {
      DigitsValueBound(s[..|s| - 1]);
    }
  }

  lemma {:induction false} DigitsValueOfDigits(m: nat, n: nat)
    requires m < Pow10(n)
    ensures DigitsValue(Digits(m, n)) == m
  {
    if n > 0 {
      var s := Digits(m, n);
      DigitsValueOfDigits(m / 10, n - 1);
      assert s[..n - 1] == Digits(m / 10, n - 1);
      assert s[n - 1] == DigitOf(m % 10);
    }
  }

  lemma {:induction false} DigitsOfDigitsValue(s: string)
    requires AllDigits(s)
    ensures Digits(DigitsValue(s), |s|) == s
  {
    if s != "" {
      var init, last := s[..|s| - 1], s[|s| - 1];
      DigitsOfDigitsValue(init);
      var m := DigitsValue(s);
      assert m / 10 == DigitsValue(init) && m % 10 == DigitValue(last);
      assert s == init + [last];
    }
  }

  lemma Pow10Of19()
    ensures Pow10(19) == 10_000_000_000_000_000_000
  {
    assert Pow10(5) == 100_000;
    assert Pow10(10) == 10_000_000_000;
    assert Pow10(15) == 1_000_000_000_000_000;
  }

  /** A sign character followed by nineteen digits. */
  predicate CounterText(t: string) {
    |t| == COUNTER_WIDTH && (t[0] == '+' || t[0] == '-') && AllDigits(t[1..])
  }

  function Magnitude(v: int64): nat {
    var x: int := v;
    if x < 0 then -x else x
  }

  /** The counter form of `v`. */
  ghost function Format(v: int64): (t: string)
    ensures CounterText(t)
  {
    [if v < 0 then '-' else '+'] + Digits(Magnitude(v), 19)
  }

  /** The integer a counter text denotes, whatever its range. */
  ghost function TextValue(t: string): int
    requires CounterText(t)
  {
    var m: int := DigitsValue(t[1..]);
    if t[0] == '-' then -m else m
  }

  /** What the parser accepts: a counter text whose integer is an int64. */
  ghost function Parse(t: string): Option<int64> {
    if CounterText(t) && MIN_INT64 <= TextValue(t) <= MAX_INT64 then Some(TextValue(t)) else None
  }

  const NEGATIVE_ZERO := "-0000000000000000000"

  /** Converting a uint64 to an int64 keeps the bits. */
  function AsInt64(u: uint64): int64 {
    if u <= MAX_INT64 then u else u - 0x1_0000_0000_0000_0000
  }

  /** `x - 1` on a uint64 wraps at zero. */
  function Pred64(u: uint64): uint64 {
    if u == 0 then 0xFFFF_FFFF_FFFF_FFFF else u - 1
  }

  method FormatCounter(v: int64) returns (t: string)
    ensures t == Format(v)
  {
    var b := new char[COUNTER_WIDTH](_ => '0');
    var sign := '+';
    var mag: uint64 := 0;
    if v < 0 {
      sign := '-';
      var next: int64 := v + 1;
      var flipped: int64 := -next;
      mag := flipped + 1;
    } else {
      mag := v;
    }
    b[0] := sign;
    ghost var whole := mag;
    var i := COUNTER_WIDTH - 1;
    while i >= 1
      invariant 0 <= i <= COUNTER_WIDTH - 1
      invariant b[0] == sign
      invariant Digits(whole, 19) == Digits(mag, i) + b[i + 1..]
    {
      b[i] := DigitOf(mag % 10);
      assert b[i..] == [b[i]] + b[i + 1..];
      assert Digits(mag, i) == Digits(mag / 10, i - 1) + [DigitOf(mag % 10)];
      mag := mag / 10;
      i := i - 1;
    }
    assert b[..] == [b[0]] + b[1..];
    t := b[..];
  }

  method ParseCounter(b: string) returns (r: Option<int64>)
    ensures r == Parse(b)
  {
    if |b| != COUNTER_WIDTH || (b[0] != '+' && b[0] != '-') {
      return None;
    }
    var digits := b[1..];
    var mag: uint64 := 0;
    var i := 0;
    Pow10Of19();
    while i < |digits|
      invariant 0 <= i <= |digits|
      invariant AllDigits(digits[..i])
      invariant mag == DigitsValue(digits[..i])
    {
      var ch := digits[i];
      if !IsDigit(ch) {
        return None;
      }
      assert digits[..i + 1][..i] == digits[..i];
      assert AllDigits(digits[..i + 1]);
      DigitsValueBound(digits[..i + 1]);
      Pow10Monotone(i + 1, 19);
      mag := 10 * mag + DigitValue(ch);
      i := i + 1;
    }
    assert digits[..i] == digits;
    if b[0] == '+' {
      if mag > MAX_INT64 {
        return None;
      }
      return Some(AsInt64(mag));
    }
    if mag > MAX_INT64 + 1 {
      return None;
    }
    var shifted: int64 := AsInt64(Pred64(mag));
    var negated: int64 := -shifted;
    return Some(negated - 1);
  }

  lemma {:induction false} Pow10Monotone(a: nat, b: nat)
    requires a <= b
    ensures Pow10(a) <= Pow10(b)
  {
    if a < b {
      Pow10Monotone(a, b - 1);
    }
  }

  /** Every int64 is read back from its 20-byte form. */
  lemma ParseFormat(v: int64)
    ensures |Format(v)| == COUNTER_WIDTH
    ensures Parse(Format(v)) == Some(v)
  {
    Pow10Of19();
    var t := Format(v);
    assert t[1..] == Digits(Magnitude(v), 19);
    DigitsValueOfDigits(Magnitude(v), 19);
  }

  /** The accepted texts are the formatted forms and one more: negative zero. */
  lemma ParseIsFormatInverse(t: string, v: int64)
    ensures Parse(t) == Some(v) <==> t == Format(v) || (v == 0 && t == NEGATIVE_ZERO)
  {
    if Parse(t) == Some(v) {
      DigitsOfDigitsValue(t[1..]);
      assert t == [t[0]] + t[1..];
      if t != Format(v) {
        assert v == 0 && t[0] == '-';
        assert Digits(0, 19) == "0000000000000000000" by { ZeroDigits(); }
        assert t == "-" + "0000000000000000000";
      }
    }
    ParseFormat(v);
    NegativeZeroIsZero();
  }

  lemma ZeroDigits()
    ensures Digits(0, 19) == "0000000000000000000"
  {
    assert Digits(0, 4) == "0000";
    assert Digits(0, 8) == "00000000";
    assert Digits(0, 12) == "000000000000";
    assert Digits(0, 16) == "0000000000000000";
  }

  lemma NegativeZeroIsZero()
    ensures Parse(NEGATIVE_ZERO) == Some(0)
  {
    ZeroDigits();
    var t := NEGATIVE_ZERO;
    assert t[1..] == "0000000000000000000";
    DigitsValueOfDigits(0, 19);
  }

  /** Distinct counters have distinct forms. */
  lemma FormatIsInjective(v: int64, w: int64)
    requires Format(v) == Format(w)
    ensures v == w
  {
    ParseFormat(v);
    ParseFormat(w);
  }
}

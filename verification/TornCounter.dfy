/** A counter patch cut short: which values the digits left behind can denote. */
module TornCounter {
  import opened Text
  import opened Wrappers
  import opened CounterCodec
  import opened CounterSteps
  import opened Records
  import opened MainLog
  import opened LogIndex
  import opened Engine

  /** At every place the larger of the two characters. */
  function Highest(a: string, b: string): (r: string)
    requires |a| == |b|
    ensures |r| == |a|
    ensures forall i :: 0 <= i < |r| ==> r[i] == if a[i] < b[i] then b[i] else a[i]
  {
    seq(|a|, i requires 0 <= i < |a| => if a[i] < b[i] then b[i] else a[i])
  }

  /** Every digit of `s` is at most the digit of `t` in its place. */
  ghost predicate DigitsBelow(s: string, t: string) {
    |s| == |t| && AllDigits(s) && AllDigits(t) && forall i :: 0 <= i < |s| ==> s[i] <= t[i]
  }

  lemma {:induction false} DigitsValueMonotone(s: string, t: string)
    requires DigitsBelow(s, t)
    ensures DigitsValue(s) <= DigitsValue(t)
    decreases |s|
  {
    if s != "" {
      DigitsValueMonotone(s[..|s| - 1], t[..|t| - 1]);
    }
  }

  /** The largest magnitude that every sign the tear may leave can carry. */
  function MagnitudeLimit(a: string, b: string): int
    requires CounterText(a) && CounterText(b)
  {
    if a[0] == '-' && b[0] == '-' then MAX_INT64 + 1 else MAX_INT64
  }

  /** The digits of both texts, taken place by place at their highest, stay within the limit. */
  ghost predicate TearsSafely(a: string, b: string) {
    && CounterText(a) && CounterText(b) && AllDigits(Highest(a[1..], b[1..]))
    && DigitsValue(Highest(a[1..], b[1..])) <= MagnitudeLimit(a, b)
  }

  /** Overwriting `a` with `b` leaves a readable counter wherever it is cut short exactly when the highest digits
      of the two, place by place, are still an int64. */
  lemma TornPatchReadsIff(a: string, b: string)
    requires CounterText(a) && CounterText(b)
    ensures (forall t :: Mixture(t, a, b) ==> Parse(t).Some?) <==> TearsSafely(a, b)
  {
    var high := Highest(a[1..], b[1..]);
    assert AllDigits(high);
    if TearsSafely(a, b) {
      forall t | Mixture(t, a, b)
        ensures Parse(t).Some?
      {
        MixtureIsBelow(a, b, t);
      }
    } else {
      var t := WorstMixture(a, b);
      assert !(Mixture(t, a, b) ==> Parse(t).Some?);
    }
  }

  lemma MixtureIsBelow(a: string, b: string, t: string)
    requires CounterText(a) && CounterText(b) && Mixture(t, a, b)
    ensures CounterText(t) && DigitsBelow(t[1..], Highest(a[1..], b[1..]))
    ensures DigitsValue(t[1..]) <= DigitsValue(Highest(a[1..], b[1..]))
  {
    TornPatchIsCounterText(t, a, b);
    var high := Highest(a[1..], b[1..]);
    forall i | 0 <= i < |high|
      ensures IsDigit(high[i]) && t[1..][i] <= high[i]
    {
      assert t[1..][i] == t[i + 1] && a[1..][i] == a[i + 1] && b[1..][i] == b[i + 1];
    }
    DigitsValueMonotone(t[1..], high);
  }

  /** The mixture with the highest digits, and a plus sign if there is one. */
  lemma WorstMixture(a: string, b: string) returns (t: string)
    requires CounterText(a) && CounterText(b) && !TearsSafely(a, b)
    ensures Mixture(t, a, b) && Parse(t).None?
  {
    var high := Highest(a[1..], b[1..]);
    t := [if a[0] == '+' then a[0] else b[0]] + high;
    assert t[1..] == high;
    forall i | 0 <= i < |t|
      ensures t[i] == a[i] || t[i] == b[i]
    {
      assert i > 0 ==> a[1..][i - 1] == a[i] && b[1..][i - 1] == b[i];
    }
    MixtureIsBelow(a, b, t);
  }

  // ---- a tear that loses the counter ----

  lemma {:induction false} RepeatValue(n: nat)
    ensures AllDigits(Repeat('0', n)) && DigitsValue(Repeat('0', n)) == 0
    ensures AllDigits(Repeat('9', n)) && DigitsValue(Repeat('9', n)) == Pow10(n) - 1
  {
    if n > 0 {
      RepeatValue(n - 1);
      assert Repeat('0', n)[..n - 1] == Repeat('0', n - 1);
      assert Repeat('9', n)[..n - 1] == Repeat('9', n - 1);
    }
  }

  lemma LastDigit(ch: char, s: string)
    requires IsDigit(ch) && AllDigits(s) && s != ""
    ensures AllDigits([ch] + s) && AllDigits([ch] + s[..|s| - 1])
    ensures DigitsValue([ch] + s) == 10 * DigitsValue([ch] + s[..|s| - 1]) + DigitValue(s[|s| - 1])
  {
    var t := [ch] + s;
    assert t[..|t| - 1] == [ch] + s[..|s| - 1];
    assert t[|t| - 1] == s[|s| - 1];
  }

  lemma Shifted(c: int, p: int, v: int, d: int)
    ensures 10 * (c * p + v) + d == c * (10 * p) + (10 * v + d)
  {
    assert 10 * (c * p) == c * (10 * p);
  }

  lemma {:induction false} LeadingDigit(ch: char, s: string)
    requires IsDigit(ch) && AllDigits(s)
    ensures AllDigits([ch] + s)
    ensures DigitsValue([ch] + s) == DigitValue(ch) * Pow10(|s|) + DigitsValue(s)
    decreases |s|
  {
    if s == "" {
      assert [ch] + s == [ch] && [ch][..0] == "";
    } else {
      var init, last := s[..|s| - 1], s[|s| - 1];
      LeadingDigit(ch, init);
      LastDigit(ch, s);
      Shifted(DigitValue(ch), Pow10(|init|), DigitsValue(init), DigitValue(last));
    }
  }

  /** The counter text of a plus sign, one digit and eighteen times the same digit. */
  function Filled(first: char, rest: char): string {
    "+" + ([first] + Repeat(rest, 18))
  }

  lemma FilledValue(first: char, rest: char)
    requires IsDigit(first) && (rest == '0' || rest == '9')
    ensures CounterText(Filled(first, rest))
    ensures TextValue(Filled(first, rest)) ==
            DigitValue(first) * Pow10(18) + if rest == '0' then 0 else Pow10(18) - 1
  {
    RepeatValue(18);
    LeadingDigit(first, Repeat(rest, 18));
    assert Filled(first, rest)[1..] == [first] + Repeat(rest, 18);
  }

  lemma Pow10Of18()
    ensures Pow10(18) == 1_000_000_000_000_000_000
  {
    Pow10Of19();
    assert Pow10(19) == 10 * Pow10(18);
  }

  /** Incrementing 8999999999999999999 can tear into nineteen nines, which is no int64. */
  lemma TornIncrementCanLoseTheCounter()
    ensures var a, b, t := Filled('8', '9'), Filled('9', '0'), Filled('9', '9');
      && Parse(a).Some? && Parse(b) == Some(Parse(a).value + 1)
      && Mixture(t, a, b) && Parse(t).None?
  {
    Pow10Of18();
    FilledValue('8', '9');
    FilledValue('9', '0');
    FilledValue('9', '9');
  }

  /** A live counter whose digits are no int64 refuses every counter call and keeps its digits. */
  lemma LostCounterRefuses(cfg: Config, d: Disk, key: string, now: int, createExp: int, op: CounterOp)
    requires key in Contents(d.recs) && !ExpiredAt(Contents(d.recs)[key].exp, now) && !NegativeAmount(op)
    requires Contents(d.recs)[key].counter && Parse(Contents(d.recs)[key].value).None?
    ensures Count(cfg, d, key, now, createExp, op) == Counted(d, ErrNotCounter)
  {
    ReplayMirrors(cfg.codec, d.recs, key);
  }
}

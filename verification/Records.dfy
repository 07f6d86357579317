/** Log records and what the store needs to know about their line encoding. */
module Records {
  import opened Wrappers
  import opened CounterCodec
  import opened SecIndex

  /** A value in a blob side file; `gen` selects the file. */
  datatype BlobRef = BlobRef(off: nat, size: nat, gen: nat)

  /** Secondary-index values carried by one record. */
  type IX = map<string, Value>

  datatype Record = Record(
    key: string,
    value: string,
    blob: Option<BlobRef>,
    deleted: bool,
    ix: IX,
    counter: bool,
    exp: int)

  function Tombstone(key: string): Record {
    Record(key, "", None, true, map[], false, 0)
  }

  function CounterRecord(key: string, text: string, exp: int): Record {
    Record(key, text, None, false, map[], true, exp)
  }

  /** An inline, live, index-free record that holds a counter text: its digits can be overwritten in place. */
  predicate Patchable(r: Record) {
    CounterText(r.value) && r == CounterRecord(r.key, r.value, r.exp)
  }

  /** The JSON codec: `enc` and `dec` on whole records; `esc` is the string escape it applies to a key and
      `tail` what it writes after a counter's value. */
  datatype Codec = Codec(
    enc: Record -> string,
    dec: string -> Option<Record>,
    esc: string -> string,
    tail: int -> string)

  const KEY_OPEN := "{\"k\":\""
  const VALUE_OPEN := "\",\"s\":\""

  /** A counter record's line: the key comes first and the value right after it. */
  function CounterLine(c: Codec, key: string, text: string, exp: int): string {
    KEY_OPEN + c.esc(key) + VALUE_OPEN + text + "\"" + c.tail(exp)
  }

  /** A quote inside an escaped string directly follows a backslash. */
  predicate QuotesEscaped(t: string) {
    forall i :: 0 <= i < |t| && t[i] == '"' ==> i > 0 && t[i - 1] == '\\'
  }

  /** Decoding inverts encoding, a line holds no newline, no line that lost its first bytes decodes, and counter
      lines have the fixed layout. */
  ghost predicate Lawful(c: Codec) {
    && (forall r :: c.dec(c.enc(r)) == Some(r))
    && (forall r :: '\n' !in c.enc(r))
    && (forall r, i :: 0 < i <= |c.enc(r)| ==> c.dec(c.enc(r)[i..]).None?)
    && (forall key :: QuotesEscaped(c.esc(key)))
    && (forall key, text, exp :: CounterText(text) ==>
          c.enc(CounterRecord(key, text, exp)) == CounterLine(c, key, text, exp))
  }

  // ---- locating a counter's value inside its line ----

  predicate MatchAt(s: string, pat: string, i: int) {
    0 <= i && i + |pat| <= |s| && s[i..i + |pat|] == pat
  }

  /** `bytes.Index`: the first match, or -1. */
  method Index(s: string, pat: string) returns (i: int)
    ensures i == -1 || MatchAt(s, pat, i)
    ensures forall j :: 0 <= j < (if i == -1 then |s| + 1 else i) ==> !MatchAt(s, pat, j)
  {
    i := 0;
    while i + |pat| <= |s|
      invariant 0 <= i
      invariant forall j :: 0 <= j < i ==> !MatchAt(s, pat, j)
    {
      if s[i..i + |pat|] == pat {
        return;
      }
      i := i + 1;
    }
    i := -1;
  }

  /** The pattern the patcher searches for. */
  function ValuePattern(text: string): string {
    "\"s\":\"" + text + "\""
  }

  /** Where the value field starts in a counter's line. */
  function ValueField(c: Codec, key: string): nat {
    |KEY_OPEN| + |c.esc(key)| + 2
  }

  /** Where the value's digits start. */
  function ValueStart(c: Codec, key: string): nat {
    ValueField(c, key) + 5
  }

  /** Whatever the key, the first match of the pattern is the real value field. */
  lemma FirstMatchIsValueField(c: Codec, key: string, text: string, exp: int)
    requires QuotesEscaped(c.esc(key))
    ensures MatchAt(CounterLine(c, key, text, exp), ValuePattern(text), ValueField(c, key))
    ensures forall i :: 0 <= i < ValueField(c, key) ==>
              !MatchAt(CounterLine(c, key, text, exp), ValuePattern(text), i)
  {
    var line, pat, esc := CounterLine(c, key, text, exp), ValuePattern(text), c.esc(key);
    var f := ValueField(c, key);
    assert line == KEY_OPEN + esc + "\"," + pat + c.tail(exp) by {
      assert VALUE_OPEN == "\"," + "\"s\":\"";
    }
    assert line[f..f + |pat|] == pat;
    forall i | 0 <= i < f
      ensures !MatchAt(line, pat, i)
    {
      if MatchAt(line, pat, i) {
        NoEarlierMatch(line, esc, pat, i);
      }
    }
  }

  lemma NoEarlierMatch(line: string, esc: string, pat: string, i: nat)
    requires QuotesEscaped(esc)
    requires KEY_OPEN + esc + "\",\"s\"" <= line
    requires |pat| >= 5 && pat[..5] == "\"s\":\""
    requires i < |KEY_OPEN| + |esc| + 2
    ensures !MatchAt(line, pat, i)
  {
    var head := KEY_OPEN + esc + "\",\"s\"";
    assert forall k :: 0 <= k < |head| ==> line[k] == head[k];
    NoOpeningInHead(esc, i);
    if MatchAt(line, pat, i) {
      MatchOpens(line, pat, i);
    }
  }

  lemma MatchOpens(line: string, pat: string, i: nat)
    requires MatchAt(line, pat, i)
    requires |pat| >= 5 && pat[..5] == "\"s\":\""
    ensures line[i + 1] == 's' && line[i + 2] == '"' && line[i + 3] == ':'
  {
    var m := line[i..i + |pat|];
    assert m[1] == pat[..5][1] && m[2] == pat[..5][2] && m[3] == pat[..5][3];
  }

  /** Before the value field no `s` is followed by a quote and a colon. */
  lemma NoOpeningInHead(esc: string, i: nat)
    requires QuotesEscaped(esc)
    requires i < |KEY_OPEN| + |esc| + 2
    ensures var head := KEY_OPEN + esc + "\",\"s\"";
      !(head[i + 1] == 's' && head[i + 2] == '"' && head[i + 3] == ':')
  {
    var head := KEY_OPEN + esc + "\",\"s\"";
    var j := i + 2;
    if |KEY_OPEN| <= j < |KEY_OPEN| + |esc| {
      assert head[j] == esc[j - |KEY_OPEN|];
      assert j > |KEY_OPEN| ==> head[j - 1] == esc[j - 1 - |KEY_OPEN|];
    }
  }

  /** Overwriting the digits in place gives the line of the counter with the new text, and nothing else moves. */
  lemma PatchedLine(c: Codec, key: string, text: string, text': string, exp: int)
    requires |text| == |text'|
    ensures var line := CounterLine(c, key, text, exp);
      var at := ValueStart(c, key);
      at + |text| <= |line| && line[at..at + |text|] == text
      && line[..at] + text' + line[at + |text|..] == CounterLine(c, key, text', exp)
  {
    var line := CounterLine(c, key, text, exp);
    var at := ValueStart(c, key);
    var head := KEY_OPEN + c.esc(key) + VALUE_OPEN;
    assert |head| == at;
    assert line == head + text + ("\"" + c.tail(exp));
    assert CounterLine(c, key, text', exp) == head + text' + ("\"" + c.tail(exp));
    assert line[..at] == head;
    assert line[at + |text|..] == "\"" + c.tail(exp);
  }

  /** The byte search finds the digits of every counter line. */
  method LocateValue(c: Codec, key: string, text: string, exp: int) returns (at: int)
    requires Lawful(c) && CounterText(text)
    ensures at == ValueStart(c, key)
  {
    FirstMatchIsValueField(c, key, text, exp);
    var idx := Index(c.enc(CounterRecord(key, text, exp)), ValuePattern(text));
    at := idx + 5;
  }

  /** Any mixture of the old and the new digits is again a counter text. */
  ghost predicate Mixture(t: string, a: string, b: string) {
    |t| == |a| == |b| && forall i :: 0 <= i < |t| ==> t[i] == a[i] || t[i] == b[i]
  }

  lemma TornPatchIsCounterText(t: string, a: string, b: string)
    requires CounterText(a) && CounterText(b) && Mixture(t, a, b)
    ensures CounterText(t)
  {
    forall i | 0 <= i < |t[1..]|
      ensures IsDigit(t[1..][i])
    {
      assert t[1..][i] == t[i + 1] && a[1..][i] == a[i + 1] && b[1..][i] == b[i + 1];
    }
  }
}

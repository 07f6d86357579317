/** The index hint: a snapshot of the primary index that lets boot replay only the log's tail. */
module Hints {
  import opened Text
  import opened Wrappers
  import opened CounterCodec
  import opened SecIndex
  import opened Records
  import opened MainLog
  import opened LogIndex

  datatype HintLine = HintLine(key: string, off: nat, n: nat, ix: IX, exp: int)

  /** The hint file: the watermark and one line per key, ascending. */
  datatype Hint = Hint(covers: nat, lines: seq<HintLine>)

  function LineOf(key: string, e: PkEntry): HintLine {
    HintLine(key, e.off, e.n, e.ix, e.exp)
  }

  /** The index a list of hint lines restores. */
  ghost function LoadedPk(lines: seq<HintLine>): Pk {
    if lines == [] then map[]
    else
      var l := lines[|lines| - 1];
      LoadedPk(lines[..|lines| - 1])[l.key := PkEntry(l.off, l.n, l.ix, l.exp)]
  }

  /** The lines of the given keys. */
  function LinesOf(pk: Pk, ks: seq<string>): seq<HintLine>
    requires forall i :: 0 <= i < |ks| ==> ks[i] in pk
  {
    seq(|ks|, i requires 0 <= i < |ks| => LineOf(ks[i], pk[ks[i]]))
  }

  ghost predicate AscendingLines(lines: seq<HintLine>) {
    forall i, j :: 0 <= i < j < |lines| ==> Lt(lines[i].key, lines[j].key)
  }

  lemma {:induction false} LoadedLines(pk: Pk, ks: seq<string>)
    requires forall i :: 0 <= i < |ks| ==> ks[i] in pk
    ensures LoadedPk(LinesOf(pk, ks)) == map k | k in pk && k in ks :: pk[k]
  {
    if ks != [] {
      var init, last := ks[..|ks| - 1], ks[|ks| - 1];
      LoadedLines(pk, init);
      assert LinesOf(pk, ks)[..|ks| - 1] == LinesOf(pk, init);
      assert ks == init + [last];
    }
  }

  /** Serializes the index in key order. */
  method WriteIndexHint(pk: Pk, covers: nat) returns (h: Hint)
    ensures h.covers == covers
    ensures AscendingLines(h.lines)
    ensures LoadedPk(h.lines) == pk
  {
    var ks := TreeOrder(pk.Keys);
    KeysAreBound(pk, ks);
    var lines := WriteLines(pk, ks);
    LoadedLines(pk, ks);
    h := Hint(covers, lines);
  }

  lemma KeysAreBound(pk: Pk, ks: seq<string>)
    requires ks == SortedKeys(pk.Keys)
    ensures forall i :: 0 <= i < |ks| ==> ks[i] in pk
    ensures (map k | k in pk && k in ks :: pk[k]) == pk
  {
    assert forall i :: 0 <= i < |ks| ==> ks[i] in Elems(ks);
    assert forall k :: k in pk ==> k in Elems(ks);
  }

  method WriteLines(pk: Pk, ks: seq<string>) returns (lines: seq<HintLine>)
    requires forall i :: 0 <= i < |ks| ==> ks[i] in pk
    ensures lines == LinesOf(pk, ks)
  {
    lines := [];
    for i := 0 to |ks|
      invariant lines == LinesOf(pk, ks[..i])
    {
      lines := lines + [LineOf(ks[i], pk[ks[i]])];
    }
    assert ks[..|ks|] == ks;
  }

  // ---- when a hint is good ----

  /** The hint is a snapshot of the log's first j records. */
  ghost predicate DescribesAt(c: Codec, h: Hint, recs: seq<Record>, j: nat) {
    j <= |recs| && h.covers == Offset(c, recs, j) && LoadedPk(h.lines) == Replay(c, recs[..j])
  }

  ghost predicate Describes(c: Codec, h: Hint, recs: seq<Record>) {
    exists j :: DescribesAt(c, h, recs, j)
  }

  /** A hint stays good while the log is only appended to and counters are patched in place. */
  lemma DescribesSurvives(c: Codec, h: Hint, before: seq<Record>, after: seq<Record>)
    requires Describes(c, h, before) && Extends(c, before, after)
    ensures Describes(c, h, after)
  {
    var j: nat :| DescribesAt(c, h, before, j);
    SameShapeReplay(c, map[], 0, before[..j], after[..j]);
    assert DescribesAt(c, h, after, j);
  }

  /** What boot reconstructs: the index and the length the log is truncated to. */
  datatype Booted = Booted(pk: Pk, end: nat)

  ghost function Boot(c: Codec, blobs: Blobs, hint: Option<Hint>, file: string): Booted {
    if hint.Some? && hint.value.covers <= |file| then
      var s := Scan(c, blobs, file[hint.value.covers..], hint.value.covers);
      Booted(ReplayLines(LoadedPk(hint.value.lines), s.lines), s.end)
    else
      var s := Scan(c, blobs, file, 0);
      Booted(ReplayLines(map[], s.lines), s.end)
  }

  lemma BootEndsInside(c: Codec, blobs: Blobs, hint: Option<Hint>, file: string)
    ensures Boot(c, blobs, hint, file).end <= |file|
  {
  }

  /** The entry is that of a live record whose whole line lies at its place in the file, with its blob on disk. */
  ghost predicate EntryOnDisk(c: Codec, blobs: Blobs, file: string, k: string, e: PkEntry) {
    exists r :: e.n > 0 && GoodLine(c, blobs, file, e.off, e.off + e.n - 1, r)
      && r.key == k && !r.deleted && r.ix == e.ix && r.exp == e.exp
  }

  /** Boot of any file with any hint: every entry that is not the hint's is that of a good line of the file, and no
      good line starts where the file is cut. */
  lemma BootedFromDisk(c: Codec, blobs: Blobs, hint: Option<Hint>, file: string, k: string)
    ensures var b := Boot(c, blobs, hint, file);
      && b.end <= |file| && !StartsGoodLine(c, blobs, file[b.end..])
      && (k in b.pk ==>
            || (hint.Some? && hint.value.covers <= |file| && k in LoadedPk(hint.value.lines)
                && b.pk[k] == LoadedPk(hint.value.lines)[k])
            || EntryOnDisk(c, blobs, file, k, b.pk[k]))
  {
    if hint.Some? && hint.value.covers <= |file| {
      TailFromDisk(c, blobs, file, hint.value.covers, LoadedPk(hint.value.lines), k);
    } else {
      TailFromDisk(c, blobs, file, 0, map[], k);
      assert file[0..] == file;
    }
  }

  lemma TailFromDisk(c: Codec, blobs: Blobs, file: string, from: nat, pk: Pk, k: string)
    requires from <= |file|
    ensures var s := Scan(c, blobs, file[from..], from);
      var pk' := ReplayLines(pk, s.lines);
      && s.end <= |file| && !StartsGoodLine(c, blobs, file[s.end..])
      && (k in pk' ==> (k in pk && pk'[k] == pk[k]) || EntryOnDisk(c, blobs, file, k, pk'[k]))
  {
    var s := Scan(c, blobs, file[from..], from);
    ScanIs(c, blobs, file[from..], from);
    assert file[from..][s.end - from..] == file[s.end..];
    if k in ReplayLines(pk, s.lines) {
      LinesFromDisk(c, blobs, file, from, pk, s.lines, k);
    }
  }

  lemma LinesFromDisk(c: Codec, blobs: Blobs, file: string, from: nat, pk: Pk, lines: seq<Placed>, k: string)
    requires from <= |file| && k in ReplayLines(pk, lines)
    requires forall p :: p in lines ==> GoodPlace(c, blobs, file[from..], from, p)
    ensures var e := ReplayLines(pk, lines)[k];
      (k in pk && e == pk[k]) || EntryOnDisk(c, blobs, file, k, e)
  {
    ReplayedFrom(pk, lines, k);
    var e := ReplayLines(pk, lines)[k];
    if !(k in pk && e == pk[k]) {
      var p :| p in lines && EntryOf(e, k, p);
      GoodPlaceShifts(c, blobs, file, 0, from, p);
      assert GoodLine(c, blobs, file, e.off, e.off + e.n - 1, p.rec);
    }
  }

  lemma TailBytes(c: Codec, recs: seq<Record>, j: nat, torn: string)
    requires j <= |recs|
    ensures Offset(c, recs, j) <= |Render(c, recs) + torn|
    ensures (Render(c, recs) + torn)[Offset(c, recs, j)..] == Render(c, recs[j..]) + torn
    ensures Offset(c, recs, j) + |Render(c, recs[j..])| == |Render(c, recs)|
  {
    RenderConcat(c, recs[..j], recs[j..]);
    assert recs == recs[..j] + recs[j..];
  }

  /** With its watermark on a record boundary, a hint makes boot replay exactly the records behind it. */
  lemma BootAtBoundary(c: Codec, blobs: Blobs, h: Hint, recs: seq<Record>, j: nat, torn: string)
    requires Lawful(c) && NoneDangling(blobs, recs) && FrontOf(c, blobs, torn) == Stop
    requires j <= |recs| && h.covers == Offset(c, recs, j)
    ensures Boot(c, blobs, Some(h), Render(c, recs) + torn) ==
            Booted(ReplayOn(c, LoadedPk(h.lines), h.covers, recs[j..]), |Render(c, recs)|)
  {
    TailBytes(c, recs, j, torn);
    ScanRender(c, blobs, recs[j..], torn, h.covers);
    ReplayPlaced(c, LoadedPk(h.lines), h.covers, recs[j..]);
  }

  lemma ReplaySplit(c: Codec, recs: seq<Record>, j: nat)
    requires j <= |recs|
    ensures Replay(c, recs) == ReplayOn(c, Replay(c, recs[..j]), Offset(c, recs, j), recs[j..])
  {
    ReplayConcat(c, map[], 0, recs[..j], recs[j..]);
    assert recs == recs[..j] + recs[j..];
  }

  /** Booting from a good hint, or from no hint, gives the full replay, with or without a torn tail. */
  lemma BootIsReplay(c: Codec, blobs: Blobs, hint: Option<Hint>, recs: seq<Record>, torn: string)
    requires Lawful(c) && NoneDangling(blobs, recs) && FrontOf(c, blobs, torn) == Stop
    requires hint.Some? ==> Describes(c, hint.value, recs)
    ensures Boot(c, blobs, hint, Render(c, recs) + torn) == Booted(Replay(c, recs), |Render(c, recs)|)
  {
    if hint.Some? {
      var j: nat :| DescribesAt(c, hint.value, recs, j);
      BootAtBoundary(c, blobs, hint.value, recs, j, torn);
      ReplaySplit(c, recs, j);
    } else {
      ScanRender(c, blobs, recs, torn, 0);
      ReplayPlaced(c, map[], 0, recs);
    }
  }

  /** A crash at any byte of the last append recovers the state before it, and recovering again changes nothing. */
  lemma CrashRecovery(c: Codec, blobs: Blobs, hint: Option<Hint>, recs: seq<Record>, r: Record, k: nat)
    requires Lawful(c) && NoneDangling(blobs, recs) && k < |Line(c, r)|
    requires hint.Some? ==> Describes(c, hint.value, recs)
    ensures var file := Render(c, recs) + Line(c, r)[..k];
      var booted := Boot(c, blobs, hint, file);
      && booted == Booted(Replay(c, recs), |Render(c, recs)|)
      && file[..booted.end] == Render(c, recs)
      && Boot(c, blobs, hint, file[..booted.end]) == booted
  {
    TornLineIsRejected(c, blobs, r, k);
    BootIsReplay(c, blobs, hint, recs, Line(c, r)[..k]);
    assert FrontOf(c, blobs, "") == Stop;
    BootIsReplay(c, blobs, hint, recs, "");
    assert Render(c, recs) + "" == Render(c, recs);
  }

  /** A torn in-place patch leaves some mixture of old and new digits; the log still scans to the end and the
      index is the same as before, from the hint on disk or without one. */
  lemma TornPatchRecovery(c: Codec, blobs: Blobs, hint: Option<Hint>, recs: seq<Record>, i: nat, text: string,
      mixed: string)
    requires Lawful(c) && NoneDangling(blobs, recs) && i < |recs|
    requires hint.Some? ==> Describes(c, hint.value, recs)
    requires CounterText(recs[i].value) && CounterText(text)
    requires recs[i] == CounterRecord(recs[i].key, recs[i].value, recs[i].exp)
    requires Mixture(mixed, recs[i].value, text)
    ensures var at := Offset(c, recs, i) + ValueStart(c, recs[i].key);
      var log := Render(c, recs);
      var torn := recs[i := CounterRecord(recs[i].key, mixed, recs[i].exp)];
      && at + COUNTER_WIDTH <= |log|
      && log[..at] + mixed + log[at + COUNTER_WIDTH..] == Render(c, torn)
      && Boot(c, blobs, hint, Render(c, torn)) == Booted(Replay(c, recs), |log|)
  {
    var r := recs[i];
    var r' := CounterRecord(r.key, mixed, r.exp);
    TornPatchIsCounterText(mixed, r.value, text);
    PatchedCounter(c, r.key, r.value, mixed, r.exp);
    RenderPatch(c, recs, i, r', ValueStart(c, r.key), mixed);
    PatchedBoot(c, blobs, hint, recs, i, r');
  }

  lemma PatchedBoot(c: Codec, blobs: Blobs, hint: Option<Hint>, recs: seq<Record>, i: nat, r: Record)
    requires Lawful(c) && NoneDangling(blobs, recs) && i < |recs|
    requires hint.Some? ==> Describes(c, hint.value, recs)
    requires SameShape(c, recs[i], r) && !Dangling(blobs, r)
    ensures Boot(c, blobs, hint, Render(c, recs[i := r])) == Booted(Replay(c, recs), |Render(c, recs)|)
  {
    var recs' := recs[i := r];
    SameShapeReplay(c, map[], 0, recs, recs');
    if hint.Some? {
      DescribesSurvives(c, hint.value, recs, recs');
    }
    WholeLogBoots(c, blobs, hint, recs');
  }

  /** Booting a log without a torn tail. */
  lemma WholeLogBoots(c: Codec, blobs: Blobs, hint: Option<Hint>, recs: seq<Record>)
    requires Lawful(c) && NoneDangling(blobs, recs)
    requires hint.Some? ==> Describes(c, hint.value, recs)
    ensures Boot(c, blobs, hint, Render(c, recs)) == Booted(Replay(c, recs), |Render(c, recs)|)
  {
    assert FrontOf(c, blobs, "") == Stop;
    BootIsReplay(c, blobs, hint, recs, "");
    assert Render(c, recs) + "" == Render(c, recs);
  }

  /** Patching a counter's digits turns its line into the line of the new record. */
  lemma PatchedCounter(c: Codec, key: string, text: string, text': string, exp: int)
    requires Lawful(c) && CounterText(text) && CounterText(text')
    ensures var line := Line(c, CounterRecord(key, text, exp));
      var at := ValueStart(c, key);
      && at + |text'| <= |line|
      && Line(c, CounterRecord(key, text', exp)) == line[..at] + text' + line[at + |text'|..]
    ensures SameShape(c, CounterRecord(key, text, exp), CounterRecord(key, text', exp))
  {
    PatchedLine(c, key, text, text', exp);
    var inner := CounterLine(c, key, text, exp);
    var line := Line(c, CounterRecord(key, text, exp));
    var at := ValueStart(c, key);
    assert line == inner + "\n";
    assert line[..at] == inner[..at];
    assert line[at + |text'|..] == inner[at + |text'|..] + "\n";
  }

  // ---- exactly which hints boot correctly ----

  ghost function KeysOf(recs: seq<Record>): set<string> {
    set r | r in recs :: r.key
  }

  ghost predicate Agree(a: Pk, b: Pk, k: string) {
    (k in a <==> k in b) && (k in a ==> a[k] == b[k])
  }

  /** Replay forgets the old entry of every key it meets and keeps all others. */
  lemma {:induction false} ReplayOverrides(c: Codec, a: Pk, b: Pk, off: nat, recs: seq<Record>, k: string)
    ensures k !in KeysOf(recs) ==> Agree(ReplayOn(c, a, off, recs), a, k)
    ensures k in KeysOf(recs) ==> Agree(ReplayOn(c, a, off, recs), ReplayOn(c, b, off, recs), k)
    decreases |recs|
  {
    if recs != [] {
      var init, last := recs[..|recs| - 1], recs[|recs| - 1];
      assert recs == init + [last];
      ReplayOverrides(c, a, b, off, init, k);
      ReplayOverrides(c, b, a, off, init, k);
      assert last in recs;
      assert forall r :: r in recs <==> r in init || r == last;
    }
  }

  /** The watermark is the start of record `j`, or the log's end, and the hint is right about every key that the
      records from there on do not mention. */
  ghost predicate HintFitsAt(c: Codec, h: Hint, recs: seq<Record>, j: nat) {
    && j <= |recs| && h.covers == Offset(c, recs, j)
    && forall k :: k !in KeysOf(recs[j..]) ==> Agree(LoadedPk(h.lines), Replay(c, recs[..j]), k)
  }

  /** The hint fits the log. */
  ghost predicate HintFits(c: Codec, h: Hint, recs: seq<Record>) {
    exists j :: HintFitsAt(c, h, recs, j)
  }

  /** A log cut off inside its last append: any bytes without a newline may follow the records. */
  predicate TornTail(torn: string) {
    '\n' !in torn
  }

  lemma TornTailStops(c: Codec, blobs: Blobs, torn: string)
    requires TornTail(torn)
    ensures FrontOf(c, blobs, torn) == Stop
  {
    NextNewlineIs(torn, 0, -1);
  }

  /** Any hint boots correctly exactly when it claims more than the file holds, and is ignored, or fits the log. */
  lemma HintBootsCorrectlyIff(c: Codec, blobs: Blobs, h: Hint, recs: seq<Record>, torn: string)
    requires Lawful(c) && NoneDangling(blobs, recs) && TornTail(torn)
    ensures Boot(c, blobs, Some(h), Render(c, recs) + torn) == Booted(Replay(c, recs), |Render(c, recs)|) <==>
            h.covers > |Render(c, recs) + torn| || HintFits(c, h, recs)
  {
    if h.covers > |Render(c, recs) + torn| {
      TornTailStops(c, blobs, torn);
      BootIsReplay(c, blobs, None, recs, torn);
    } else if j :| 0 <= j <= |recs| && h.covers == Offset(c, recs, j) {
      if i :| HintFitsAt(c, h, recs, i) {
        BoundaryBootsIff(c, blobs, h, recs, i, torn);
      }
      BoundaryBootsIff(c, blobs, h, recs, j, torn);
    } else {
      OffBoundaryTruncates(c, blobs, h, recs, torn);
    }
  }

  lemma BoundaryBootsIff(c: Codec, blobs: Blobs, h: Hint, recs: seq<Record>, j: nat, torn: string)
    requires Lawful(c) && NoneDangling(blobs, recs) && TornTail(torn)
    requires j <= |recs| && h.covers == Offset(c, recs, j)
    ensures Boot(c, blobs, Some(h), Render(c, recs) + torn) == Booted(Replay(c, recs), |Render(c, recs)|) <==>
            HintFitsAt(c, h, recs, j)
  {
    TornTailStops(c, blobs, torn);
    BootAtBoundary(c, blobs, h, recs, j, torn);
    ReplaySplit(c, recs, j);
    ReplayAgreesIff(c, LoadedPk(h.lines), Replay(c, recs[..j]), h.covers, recs[j..]);
  }

  /** A watermark inside record `j`: the scan stops at once, boot believes the hint alone and cuts the file there. */
  lemma MidLineTruncates(c: Codec, blobs: Blobs, h: Hint, recs: seq<Record>, j: nat, i: nat, torn: string)
    requires Lawful(c) && j < |recs| && 0 < i < |Line(c, recs[j])| && h.covers == Offset(c, recs, j) + i
    ensures h.covers < |Render(c, recs)|
    ensures Boot(c, blobs, Some(h), Render(c, recs) + torn) == Booted(LoadedPk(h.lines), h.covers)
  {
    var line, rest := Line(c, recs[j]), Render(c, recs[j + 1..]) + torn;
    RenderSplit(c, recs, j);
    assert Render(c, recs) + torn == (Render(c, recs[..j]) + line) + rest;
    assert (Render(c, recs) + torn)[h.covers..] == line[i..] + rest;
    CutLineIsRejected(c, blobs, recs[j], i, rest);
  }

  /** A watermark behind the records, inside a torn tail. */
  lemma MidTailTruncates(c: Codec, blobs: Blobs, h: Hint, recs: seq<Record>, torn: string)
    requires TornTail(torn) && |Render(c, recs)| < h.covers <= |Render(c, recs) + torn|
    ensures Boot(c, blobs, Some(h), Render(c, recs) + torn) == Booted(LoadedPk(h.lines), h.covers)
  {
    var rest := torn[h.covers - |Render(c, recs)|..];
    assert (Render(c, recs) + torn)[h.covers..] == rest;
    TornTailStops(c, blobs, rest);
  }

  /** Any watermark that is no record boundary makes boot believe the hint alone and cut the file there. */
  lemma OffBoundaryTruncates(c: Codec, blobs: Blobs, h: Hint, recs: seq<Record>, torn: string)
    requires Lawful(c) && TornTail(torn) && h.covers <= |Render(c, recs) + torn|
    requires forall j :: 0 <= j <= |recs| ==> h.covers != Offset(c, recs, j)
    ensures Boot(c, blobs, Some(h), Render(c, recs) + torn) == Booted(LoadedPk(h.lines), h.covers)
    ensures h.covers != |Render(c, recs)|
  {
    assert recs[..|recs|] == recs;
    assert h.covers != Offset(c, recs, |recs|);
    if h.covers < |Render(c, recs)| {
      var j, i := InsideALine(c, recs, h.covers);
      MidLineTruncates(c, blobs, h, recs, j, i, torn);
    } else {
      MidTailTruncates(c, blobs, h, recs, torn);
    }
  }

  /** Boot ignores the hint, or the hint fits the log. */
  ghost predicate Harmless(c: Codec, hint: Option<Hint>, recs: seq<Record>) {
    hint.Some? ==> hint.value.covers > |Render(c, recs)| || HintFits(c, hint.value, recs)
  }

  /** Whatever hint is on disk, a whole log boots correctly exactly when the hint is harmless. */
  lemma BootsIffHarmless(c: Codec, blobs: Blobs, hint: Option<Hint>, recs: seq<Record>)
    requires Lawful(c) && NoneDangling(blobs, recs)
    ensures Boot(c, blobs, hint, Render(c, recs)) == Booted(Replay(c, recs), |Render(c, recs)|) <==>
            Harmless(c, hint, recs)
  {
    if hint.Some? {
      assert Render(c, recs) + "" == Render(c, recs);
      HintBootsCorrectlyIff(c, blobs, hint.value, recs, "");
    } else {
      WholeLogBoots(c, blobs, hint, recs);
    }
  }

  /** A hint that fits keeps fitting while the log is appended to and counters are patched in place. */
  lemma FittingHintSurvives(c: Codec, h: Hint, before: seq<Record>, after: seq<Record>)
    requires HintFits(c, h, before) && Extends(c, before, after)
    ensures HintFits(c, h, after)
  {
    var j: nat :| HintFitsAt(c, h, before, j);
    SameShapeReplay(c, map[], 0, before[..j], after[..j]);
    forall k | k in KeysOf(before[j..])
      ensures k in KeysOf(after[j..])
    {
      var i :| 0 <= i < |before[j..]| && before[j..][i].key == k;
      assert SameShape(c, before[j + i], after[j + i]);
      assert after[j..][i] in after[j..];
    }
    assert HintFitsAt(c, h, after, j);
  }

  /** With the watermark inside record `j`, that record and all behind it are gone for good: after the cut even a
      full scan finds only the records before it. */
  lemma CutLogForgets(c: Codec, blobs: Blobs, h: Hint, recs: seq<Record>, j: nat, i: nat)
    requires Lawful(c) && NoneDangling(blobs, recs) && j < |recs| && 0 < i < |Line(c, recs[j])|
    requires h.covers == Offset(c, recs, j) + i
    ensures h.covers < |Render(c, recs)|
    ensures Boot(c, blobs, Some(h), Render(c, recs)) == Booted(LoadedPk(h.lines), h.covers)
    ensures Boot(c, blobs, None, Render(c, recs)[..h.covers]) == Booted(Replay(c, recs[..j]), Offset(c, recs, j))
  {
    var log, line := Render(c, recs), Line(c, recs[j]);
    MidLineTruncates(c, blobs, h, recs, j, i, "");
    assert log + "" == log;
    RenderSplit(c, recs, j);
    assert log[..h.covers] == Render(c, recs[..j]) + line[..i];
    TornLineIsRejected(c, blobs, recs[j], i);
    BootIsReplay(c, blobs, None, recs[..j], line[..i]);
  }

  lemma ReplayAgreesIff(c: Codec, a: Pk, b: Pk, off: nat, tail: seq<Record>)
    ensures ReplayOn(c, a, off, tail) == ReplayOn(c, b, off, tail) <==>
            forall k :: k !in KeysOf(tail) ==> Agree(a, b, k)
  {
    var x, y := ReplayOn(c, a, off, tail), ReplayOn(c, b, off, tail);
    forall k
      ensures Agree(x, y, k) <==> (k !in KeysOf(tail) ==> Agree(a, b, k))
    {
      ReplayOverrides(c, a, b, off, tail, k);
      ReplayOverrides(c, b, a, off, tail, k);
    }
    PkEquality(x, y);
  }

  lemma PkEquality(a: Pk, b: Pk)
    ensures a == b <==> forall k :: Agree(a, b, k)
  {
    if forall k :: Agree(a, b, k) {
      assert forall k :: k in a ==> Agree(a, b, k);
      assert forall k :: k in b ==> Agree(a, b, k);
      assert a.Keys == b.Keys;
    }
  }
}

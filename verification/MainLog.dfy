/** The framing of main.jsonl: one encoded record per line, torn tails, and byte offsets. */
module MainLog {
  import opened Wrappers
  import opened CounterCodec
  import opened Records

  type Blobs = map<nat, string>

  /** A record's line, newline included. */
  function Line(c: Codec, r: Record): string {
    c.enc(r) + "\n"
  }

  /** The bytes of a log holding `recs`. */
  ghost function Render(c: Codec, recs: seq<Record>): string {
    if recs == [] then "" else Render(c, recs[..|recs| - 1]) + Line(c, recs[|recs| - 1])
  }

  /** The byte offset of the i-th record. */
  ghost function Offset(c: Codec, recs: seq<Record>, i: nat): nat
    requires i <= |recs|
  {
    |Render(c, recs[..i])|
  }

  lemma RenderSnoc(c: Codec, recs: seq<Record>, r: Record)
    ensures Render(c, recs + [r]) == Render(c, recs) + Line(c, r)
  {
    assert (recs + [r])[..|recs|] == recs;
  }

  lemma {:induction false} RenderConcat(c: Codec, a: seq<Record>, b: seq<Record>)
    ensures Render(c, a + b) == Render(c, a) + Render(c, b)
    decreases |b|
  {
    if b == [] {
      assert a + b == a;
    } else {
      var init, last := b[..|b| - 1], b[|b| - 1];
      RenderConcat(c, a, init);
      RenderSnoc(c, a + init, last);
      assert a + b == (a + init) + [last];
      assert Render(c, a + b) == (Render(c, a) + Render(c, init)) + Line(c, last);
    }
  }

  lemma RenderSplit(c: Codec, recs: seq<Record>, i: nat)
    requires i < |recs|
    ensures Render(c, recs) == Render(c, recs[..i]) + Line(c, recs[i]) + Render(c, recs[i + 1..])
    ensures Offset(c, recs, i + 1) == Offset(c, recs, i) + |Line(c, recs[i])|
  {
    RenderSnoc(c, recs[..i], recs[i]);
    assert recs[..i + 1] == recs[..i] + [recs[i]];
    assert recs == recs[..i + 1] + recs[i + 1..];
    RenderConcat(c, recs[..i + 1], recs[i + 1..]);
  }

  /** The bytes at a record's offset are its line. */
  lemma LineAt(c: Codec, recs: seq<Record>, i: nat)
    requires i < |recs|
    ensures var off := Offset(c, recs, i);
      off + |Line(c, recs[i])| <= |Render(c, recs)|
      && Render(c, recs)[off..off + |Line(c, recs[i])|] == Line(c, recs[i])
  {
    RenderSplit(c, recs, i);
  }

  /** Overwriting bytes inside one line, leaving its length alone, replaces that record only. */
  lemma RenderPatch(c: Codec, recs: seq<Record>, i: nat, r: Record, at: nat, bytes: string)
    requires i < |recs|
    requires at + |bytes| <= |Line(c, recs[i])|
    requires Line(c, r) == Line(c, recs[i])[..at] + bytes + Line(c, recs[i])[at + |bytes|..]
    ensures var off, log := Offset(c, recs, i), Render(c, recs);
      off + at + |bytes| <= |log|
      && Render(c, recs[i := r]) == log[..off + at] + bytes + log[off + at + |bytes|..]
    ensures |Render(c, recs[i := r])| == |Render(c, recs)|
  {
    var off, log, line := Offset(c, recs, i), Render(c, recs), Line(c, recs[i]);
    RenderSplit(c, recs, i);
    var recs' := recs[i := r];
    RenderSplit(c, recs', i);
    assert recs'[..i] == recs[..i] && recs'[i + 1..] == recs[i + 1..];
    SplicePatch(Render(c, recs[..i]), line, Render(c, recs[i + 1..]), at, bytes);
  }

  lemma SplicePatch(before: string, line: string, after: string, at: nat, bytes: string)
    requires at + |bytes| <= |line|
    ensures var log, off := before + line + after, |before|;
      before + (line[..at] + bytes + line[at + |bytes|..]) + after
        == log[..off + at] + bytes + log[off + at + |bytes|..]
  {
    var log, off := before + line + after, |before|;
    assert log[..off + at] == before + line[..at];
    assert log[off + at + |bytes|..] == line[at + |bytes|..] + after;
  }

  // ---- scanning ----

  /** The first newline at or after `from`, or -1. */
  function NextNewline(s: string, from: nat): (i: int)
    requires from <= |s|
    ensures i == -1 || from <= i < |s|
    decreases |s| - from
  {
    if from == |s| then -1 else if s[from] == '\n' then from else NextNewline(s, from + 1)
  }

  /** It is the first newline, and -1 only if there is none. */
  lemma {:induction false} NextNewlineIs(s: string, from: nat, at: int)
    requires from <= |s| && (at == -1 || (from <= at < |s| && s[at] == '\n'))
    requires forall k :: from <= k < (if at == -1 then |s| else at) ==> s[k] != '\n'
    ensures NextNewline(s, from) == at
    decreases |s| - from
  {
    if from < |s| && from != at {
      NextNewlineIs(s, from + 1, at);
    }
  }

  lemma {:induction false} NextNewlineSplits(s: string, from: nat)
    requires from <= |s|
    ensures var at := NextNewline(s, from);
      && (at == -1 || s[at] == '\n')
      && forall k :: from <= k < (if at == -1 then |s| else at) ==> s[k] != '\n'
    decreases |s| - from
  {
    if from < |s| && s[from] != '\n' {
      NextNewlineSplits(s, from + 1);
    }
  }

  /** The size of a blob file; a missing generation has size zero. */
  function BlobSize(blobs: Blobs, gen: nat): nat {
    if gen in blobs then |blobs[gen]| else 0
  }

  /** The record's blob ref points past the end of its file. */
  predicate Dangling(blobs: Blobs, r: Record) {
    r.blob.Some? && r.blob.value.off + r.blob.value.size > BlobSize(blobs, r.blob.value.gen)
  }

  /** The first line of `s`: acceptable, with its length, or the start of a torn tail. */
  datatype Front = Stop | Accept(rec: Record, n: nat)

  function FrontOf(c: Codec, blobs: Blobs, s: string): (f: Front)
    ensures f.Accept? ==> 0 < f.n <= |s|
  {
    var nl := NextNewline(s, 0);
    if nl < 0 then Stop
    else
      match c.dec(s[..nl])
      case None => Stop
      case Some(r) => if Dangling(blobs, r) then Stop else Accept(r, nl + 1)
  }

  /** An accepted record with the place and length of its line. */
  datatype Placed = Placed(rec: Record, off: nat, n: nat)

  datatype Scanned = Scanned(lines: seq<Placed>, end: nat)

  /** The lines a scan accepts from the front of `s`, which starts at byte `off`, and where they end. */
  ghost function Scan(c: Codec, blobs: Blobs, s: string, off: nat): (r: Scanned)
    ensures off <= r.end <= off + |s|
    decreases |s|
  {
    match FrontOf(c, blobs, s)
    case Stop => Scanned([], off)
    case Accept(r, n) =>
      var rest := Scan(c, blobs, s[n..], off + n);
      Scanned([Placed(r, off, n)] + rest.lines, rest.end)
  }

  ghost predicate NoneDangling(blobs: Blobs, recs: seq<Record>) {
    forall i :: 0 <= i < |recs| ==> !Dangling(blobs, recs[i])
  }

  lemma FrontOfLine(c: Codec, blobs: Blobs, r: Record, s: string)
    requires Lawful(c) && !Dangling(blobs, r)
    ensures FrontOf(c, blobs, Line(c, r) + s) == Accept(r, |Line(c, r)|)
  {
    var t := Line(c, r) + s;
    var n := |c.enc(r)|;
    assert t[n] == '\n';
    assert forall k :: 0 <= k < n ==> t[k] == c.enc(r)[k];
    NextNewlineIs(t, 0, n);
    assert t[..n] == c.enc(r);
  }

  /** The records of a rendered log that starts at byte `off`, each with its place. */
  ghost function PlacedAt(c: Codec, off: nat, recs: seq<Record>): seq<Placed> {
    seq(|recs|, i requires 0 <= i < |recs| => Placed(recs[i], off + Offset(c, recs, i), |Line(c, recs[i])|))
  }

  lemma PlacedCons(c: Codec, off: nat, recs: seq<Record>)
    requires recs != []
    ensures var n := |Line(c, recs[0])|;
      PlacedAt(c, off, recs) == [Placed(recs[0], off, n)] + PlacedAt(c, off + n, recs[1..])
  {
    var n, tail := |Line(c, recs[0])|, recs[1..];
    forall i | 0 < i < |recs|
      ensures Offset(c, recs, i) == n + Offset(c, tail, i - 1)
    {
      RenderCons(c, recs[..i]);
      assert recs[..i][1..] == tail[..i - 1];
    }
  }

  /** Scanning a rendered log followed by anything that starts no acceptable line yields its records. */
  lemma {:induction false} ScanRender(c: Codec, blobs: Blobs, recs: seq<Record>, torn: string, off: nat)
    requires Lawful(c) && NoneDangling(blobs, recs)
    requires FrontOf(c, blobs, torn) == Stop
    ensures Scan(c, blobs, Render(c, recs) + torn, off) == Scanned(PlacedAt(c, off, recs), off + |Render(c, recs)|)
    decreases |recs|
  {
    if recs == [] {
      assert Render(c, recs) + torn == torn;
    } else {
      var line, rest := Line(c, recs[0]), Render(c, recs[1..]) + torn;
      ScanRender(c, blobs, recs[1..], torn, off + |line|);
      ScanRenderCons(c, recs, torn);
      FrontOfLine(c, blobs, recs[0], rest);
      assert (line + rest)[|line|..] == rest;
      PlacedCons(c, off, recs);
    }
  }

  lemma ScanRenderCons(c: Codec, recs: seq<Record>, torn: string)
    requires recs != []
    ensures Render(c, recs) + torn == Line(c, recs[0]) + (Render(c, recs[1..]) + torn)
    ensures |Render(c, recs)| == |Line(c, recs[0])| + |Render(c, recs[1..])|
  {
    RenderCons(c, recs);
  }

  lemma RenderCons(c: Codec, recs: seq<Record>)
    requires recs != []
    ensures Render(c, recs) == Line(c, recs[0]) + Render(c, recs[1..])
  {
    assert recs == [recs[0]] + recs[1..];
    RenderConcat(c, [recs[0]], recs[1..]);
    RenderSnoc(c, [], recs[0]);
    assert [] + [recs[0]] == [recs[0]];
  }

  /** A crash that cuts an append at any byte leaves a tail no scan accepts. */
  lemma TornLineIsRejected(c: Codec, blobs: Blobs, r: Record, k: nat)
    requires Lawful(c) && k < |Line(c, r)|
    ensures FrontOf(c, blobs, Line(c, r)[..k]) == Stop
  {
    var t := Line(c, r)[..k];
    assert forall i :: 0 <= i < k ==> t[i] == c.enc(r)[i];
    NextNewlineIs(t, 0, -1);
  }

  lemma FrontIsLocal(c: Codec, blobs: Blobs, s: string, k: nat)
    requires FrontOf(c, blobs, s).Accept? && FrontOf(c, blobs, s).n <= k <= |s|
    ensures FrontOf(c, blobs, s[..k]) == FrontOf(c, blobs, s)
  {
    var nl := NextNewline(s, 0);
    NextNewlineSplits(s, 0);
    NextNewlineIs(s[..k], 0, nl);
    assert s[..k][..nl] == s[..nl];
  }

  /** Truncating to what was accepted is stable: a second scan accepts the same lines and all the bytes. */
  lemma {:induction false} RescanIsStable(c: Codec, blobs: Blobs, s: string, off: nat)
    ensures var r := Scan(c, blobs, s, off);
      Scan(c, blobs, s[..r.end - off], off) == r
    decreases |s|
  {
    var f := FrontOf(c, blobs, s);
    if f.Accept? {
      RescanIsStable(c, blobs, s[f.n..], off + f.n);
      RescanFront(c, blobs, s, off, Scan(c, blobs, s[f.n..], off + f.n));
      ScanFront(c, blobs, s, off);
    } else {
      assert s[..0] == "";
    }
  }

  lemma RescanFront(c: Codec, blobs: Blobs, s: string, off: nat, rest: Scanned)
    requires FrontOf(c, blobs, s).Accept?
    requires var n := FrontOf(c, blobs, s).n;
      off + n <= rest.end <= off + |s| && Scan(c, blobs, s[n..][..rest.end - off - n], off + n) == rest
    ensures var f := FrontOf(c, blobs, s);
      Scan(c, blobs, s[..rest.end - off], off) == Scanned([Placed(f.rec, off, f.n)] + rest.lines, rest.end)
  {
    var f, cut := FrontOf(c, blobs, s), s[..rest.end - off];
    FrontIsLocal(c, blobs, s, rest.end - off);
    assert cut[f.n..] == s[f.n..][..rest.end - off - f.n];
    ScanFront(c, blobs, cut, off);
  }

  /** A scan is its first line and the scan of what follows. */
  lemma ScanFront(c: Codec, blobs: Blobs, s: string, off: nat)
    requires FrontOf(c, blobs, s).Accept?
    ensures var f := FrontOf(c, blobs, s);
      var rest := Scan(c, blobs, s[f.n..], off + f.n);
      Scan(c, blobs, s, off) == Scanned([Placed(f.rec, off, f.n)] + rest.lines, rest.end)
  {
  }

  // ---- scanning from inside a line ----

  /** What is left of a line cut at its front, with anything behind it, starts no acceptable line. */
  lemma CutLineIsRejected(c: Codec, blobs: Blobs, r: Record, i: nat, s: string)
    requires Lawful(c) && 0 < i < |Line(c, r)|
    ensures FrontOf(c, blobs, Line(c, r)[i..] + s) == Stop
  {
    var rest := c.enc(r)[i..];
    var t := Line(c, r)[i..] + s;
    assert Line(c, r)[i..] == rest + "\n";
    assert t[|rest|] == '\n';
    assert forall k :: 0 <= k < |rest| ==> t[k] == c.enc(r)[i + k];
    NextNewlineIs(t, 0, |rest|);
    assert t[..|rest|] == rest;
  }

  /** A byte of the log that is not the start of a record lies inside a line. */
  lemma {:induction false} InsideALine(c: Codec, recs: seq<Record>, at: nat) returns (j: nat, i: nat)
    requires at <= |Render(c, recs)| && forall j :: 0 <= j <= |recs| ==> at != Offset(c, recs, j)
    ensures j < |recs| && 0 < i < |Line(c, recs[j])| && at == Offset(c, recs, j) + i
    decreases |recs|
  {
    assert recs[..|recs|] == recs;
    assert at != Offset(c, recs, |recs|);
    assert recs != [];
    var init, last := recs[..|recs| - 1], recs[|recs| - 1];
    assert at != Offset(c, recs, |recs| - 1);
    if at < |Render(c, init)| {
      forall k | 0 <= k <= |init|
        ensures at != Offset(c, init, k)
      {
        assert init[..k] == recs[..k];
        assert at != Offset(c, recs, k);
      }
      j, i := InsideALine(c, init, at);
      assert init[..j] == recs[..j];
    } else {
      j, i := |recs| - 1, at - |Render(c, init)|;
    }
  }

  // ---- what a scan accepts, and where it stops ----

  /** The record's blob, if it has one, lies within the bytes of its file. */
  predicate BlobOnDisk(blobs: Blobs, r: Record) {
    r.blob.Some? ==>
      var ref := r.blob.value;
      if ref.gen in blobs then ref.off + ref.size <= |blobs[ref.gen]| else ref.off + ref.size == 0
  }

  /** A whole line of `s` from byte `i` to byte `j`, newline excluded, that decodes to `r` with its blob on disk. */
  ghost predicate GoodLine(c: Codec, blobs: Blobs, s: string, i: nat, j: nat, r: Record) {
    i <= j < |s| && s[j] == '\n' && '\n' !in s[i..j] && c.dec(s[i..j]) == Some(r) && BlobOnDisk(blobs, r)
  }

  ghost predicate StartsGoodLine(c: Codec, blobs: Blobs, s: string) {
    exists j: nat, r :: GoodLine(c, blobs, s, 0, j, r)
  }

  /** The lines lie one behind the other from byte `off` to byte `end`. */
  ghost predicate Consecutive(lines: seq<Placed>, off: nat, end: nat) {
    if lines == [] then end == off
    else lines[0].off == off && Consecutive(lines[1..], off + lines[0].n, end)
  }

  lemma ConsecutiveCons(p: Placed, rest: seq<Placed>, end: nat)
    requires Consecutive(rest, p.off + p.n, end)
    ensures Consecutive([p] + rest, p.off, end)
  {
    assert ([p] + rest)[1..] == rest;
  }

  lemma FrontIs(c: Codec, blobs: Blobs, s: string)
    ensures var f := FrontOf(c, blobs, s);
      && (f.Stop? <==> !StartsGoodLine(c, blobs, s))
      && (f.Accept? ==> GoodLine(c, blobs, s, 0, f.n - 1, f.rec))
  {
    NextNewlineSplits(s, 0);
    var nl := NextNewline(s, 0);
    if nl >= 0 {
      assert s[0..nl] == s[..nl];
      if c.dec(s[..nl]).Some? && BlobOnDisk(blobs, c.dec(s[..nl]).value) {
        assert GoodLine(c, blobs, s, 0, nl, c.dec(s[..nl]).value);
      }
    }
    if j: nat, r :| GoodLine(c, blobs, s, 0, j, r) {
      FirstNewline(s, j);
    }
  }

  lemma FirstNewline(s: string, j: nat)
    requires j < |s| && s[j] == '\n' && '\n' !in s[0..j]
    ensures NextNewline(s, 0) == j
  {
    assert forall k :: 0 <= k < j ==> s[k] == s[0..j][k];
    NextNewlineIs(s, 0, j);
  }

  /** An accepted line of the bytes `s`, which start at byte `off`. */
  ghost predicate GoodPlace(c: Codec, blobs: Blobs, s: string, off: nat, p: Placed) {
    off <= p.off && p.n > 0 && GoodLine(c, blobs, s, p.off - off, p.off - off + p.n - 1, p.rec)
  }

  lemma GoodPlaceShifts(c: Codec, blobs: Blobs, s: string, off: nat, n: nat, p: Placed)
    requires n <= |s| && GoodPlace(c, blobs, s[n..], off + n, p)
    ensures GoodPlace(c, blobs, s, off, p)
  {
    var i := p.off - off - n;
    assert s[n..][i..i + p.n - 1] == s[i + n..i + n + p.n - 1];
  }

  /** Whole lines, one behind the other, that decode and whose blobs are on disk, up to the first place where no such
      line starts. */
  ghost predicate AcceptsExactly(c: Codec, blobs: Blobs, s: string, off: nat, r: Scanned) {
    && Consecutive(r.lines, off, r.end)
    && (forall p :: p in r.lines ==> GoodPlace(c, blobs, s, off, p))
    && off <= r.end <= off + |s| && !StartsGoodLine(c, blobs, s[r.end - off..])
  }

  lemma AcceptsOneMore(c: Codec, blobs: Blobs, s: string, off: nat, x: Record, n: nat, rest: Scanned)
    requires 0 < n <= |s| && GoodLine(c, blobs, s, 0, n - 1, x)
    requires AcceptsExactly(c, blobs, s[n..], off + n, rest)
    ensures AcceptsExactly(c, blobs, s, off, Scanned([Placed(x, off, n)] + rest.lines, rest.end))
  {
    ConsecutiveCons(Placed(x, off, n), rest.lines, rest.end);
    assert s[n..][rest.end - off - n..] == s[rest.end - off..];
    assert GoodPlace(c, blobs, s, off, Placed(x, off, n));
    forall p | p in rest.lines
      ensures GoodPlace(c, blobs, s, off, p)
    {
      GoodPlaceShifts(c, blobs, s, off, n, p);
    }
  }

  /** A scan of any bytes accepts exactly the good lines before the first place where none starts. */
  lemma {:induction false} ScanIs(c: Codec, blobs: Blobs, s: string, off: nat)
    ensures AcceptsExactly(c, blobs, s, off, Scan(c, blobs, s, off))
    decreases |s|
  {
    FrontIs(c, blobs, s);
    var f := FrontOf(c, blobs, s);
    if f.Stop? {
      assert s[0..] == s;
    } else {
      ScanIs(c, blobs, s[f.n..], off + f.n);
      AcceptsOneMore(c, blobs, s, off, f.rec, f.n, Scan(c, blobs, s[f.n..], off + f.n));
      ScanFront(c, blobs, s, off);
    }
  }

  /** A line whose blob ends past its file is where the scan of a log stops, whatever follows it. */
  lemma MissingBlobStops(c: Codec, blobs: Blobs, recs: seq<Record>, r: Record, more: string)
    requires Lawful(c) && forall i :: 0 <= i < |recs| ==> BlobOnDisk(blobs, recs[i])
    ensures Scan(c, blobs, Render(c, recs) + Line(c, r) + more, 0).end == |Render(c, recs)| <==>
            !BlobOnDisk(blobs, r)
  {
    assert forall i :: 0 <= i < |recs| ==> (Dangling(blobs, recs[i]) <==> !BlobOnDisk(blobs, recs[i]));
    if BlobOnDisk(blobs, r) {
      ScanPasses(c, blobs, recs + [r], more, 0);
      RenderSnoc(c, recs, r);
    } else {
      LineFront(c, r, more);
      FrontIs(c, blobs, Line(c, r) + more);
      ScanRender(c, blobs, recs, Line(c, r) + more, 0);
      assert Render(c, recs) + Line(c, r) + more == Render(c, recs) + (Line(c, r) + more);
    }
  }

  /** Every good line that starts with the bytes of `r` is the line of `r`. */
  lemma LineFront(c: Codec, r: Record, more: string)
    requires Lawful(c)
    ensures forall blobs, j: nat, x :: GoodLine(c, blobs, Line(c, r) + more, 0, j, x) ==> x == r
  {
    var s := Line(c, r) + more;
    assert s[..|c.enc(r)|] == c.enc(r) && s[|c.enc(r)|] == '\n';
    forall blobs, j: nat, x | GoodLine(c, blobs, s, 0, j, x)
      ensures x == r
    {
      FirstNewline(s, j);
      FirstNewline(s, |c.enc(r)|);
    }
  }

  /** A scan gets past every record whose blob is on disk. */
  lemma {:induction false} ScanPasses(c: Codec, blobs: Blobs, recs: seq<Record>, more: string, off: nat)
    requires Lawful(c) && NoneDangling(blobs, recs)
    ensures Scan(c, blobs, Render(c, recs) + more, off).end >= off + |Render(c, recs)|
    decreases |recs|
  {
    if recs == [] {
      assert Render(c, recs) + more == more;
    } else {
      var n := |Line(c, recs[0])|;
      ScanRenderCons(c, recs, more);
      FrontOfLine(c, blobs, recs[0], Render(c, recs[1..]) + more);
      assert (Line(c, recs[0]) + (Render(c, recs[1..]) + more))[n..] == Render(c, recs[1..]) + more;
      ScanFront(c, blobs, Render(c, recs) + more, off);
      ScanPasses(c, blobs, recs[1..], more, off + n);
    }
  }
}

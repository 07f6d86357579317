/** Boot: rebuilding both indexes from the hint and the log's tail. */
module Loading {
  import opened Text
  import opened Wrappers
  import opened CounterCodec
  import opened SecIndex
  import opened Records
  import opened MainLog
  import opened LogIndex
  import opened Hints
  import opened Engine
  import opened StoreBridge

  /** Applies one replayed record to both indexes. */
  method ApplyRecord(cfg: Config, pk: Pk, sec: Sec, r: Record, off: nat, n: nat) returns (pk': Pk, sec': Sec)
    requires SecMatches(cfg, pk, sec)
    ensures pk' == ApplyPk(pk, r, off, n)
    ensures SecMatches(cfg, pk', sec')
  {
    pk', sec' := pk, sec;
    if !r.deleted {
      var inherited: IX := if r.key in pk then pk[r.key].ix else map[];
      SecIgnoresPlace(cfg, pk, sec, r.key, PkEntry(off, n, inherited, r.exp));
      pk' := pk[r.key := PkEntry(off, n, inherited, r.exp)];
    }
    if r.key in pk' && |pk'[r.key].ix| > 0 {
      sec' := RetractEntries(cfg, pk', sec', r.key);
      pk' := pk'[r.key := Bare(pk'[r.key])];
    }
    if r.deleted {
      SecIgnoresBare(cfg, pk', sec', r.key);
      pk' := pk' - {r.key};
    } else if |r.ix| > 0 {
      var e := pk'[r.key].(ix := r.ix);
      sec' := InsertEntries(cfg, pk', sec', r.key, r.ix, e);
      pk' := pk'[r.key := e];
    }
  }

  /** Restores both indexes from the hint's lines. */
  method LoadHint(cfg: Config, h: Hint, empty: Sec) returns (pk: Pk, sec: Sec)
    requires SecMatches(cfg, map[], empty) && AscendingLines(h.lines)
    ensures pk == LoadedPk(h.lines)
    ensures SecMatches(cfg, pk, sec)
  {
    pk, sec := map[], empty;
    for i := 0 to |h.lines|
      invariant pk == LoadedPk(h.lines[..i])
      invariant SecMatches(cfg, pk, sec)
      invariant forall k :: k in pk ==> exists j :: 0 <= j < i && h.lines[j].key == k
    {
      var l := h.lines[i];
      assert h.lines[..i + 1][..i] == h.lines[..i];
      LtIrreflexive(l.key);
      var e := PkEntry(l.off, l.n, l.ix, l.exp);
      sec := InsertEntries(cfg, pk, sec, l.key, l.ix, e);
      pk := pk[l.key := e];
    }
    assert h.lines[..|h.lines|] == h.lines;
  }

  lemma ReplayOneMore(pk: Pk, lines: seq<Placed>, l: Placed)
    ensures ReplayLines(pk, lines + [l]) == ApplyPk(ReplayLines(pk, lines), l.rec, l.off, l.n)
  {
    assert (lines + [l])[..|lines|] == lines;
  }

  /** Of the lines a scan accepts, `done` are behind it; it stands at byte `at` with `reader` still to read. */
  ghost predicate Reading(c: Codec, blobs: Blobs, whole: Scanned, done: seq<Placed>, reader: string, at: nat) {
    var rest := Scan(c, blobs, reader, at);
    whole.lines == done + rest.lines && whole.end == rest.end
  }

  lemma ReadOneMore(c: Codec, blobs: Blobs, whole: Scanned, done: seq<Placed>, reader: string, at: nat)
    requires Reading(c, blobs, whole, done, reader, at)
    ensures var f := FrontOf(c, blobs, reader);
      if f.Stop? then whole == Scanned(done, at)
      else Reading(c, blobs, whole, done + [Placed(f.rec, at, f.n)], reader[f.n..], at + f.n)
  {
    var f := FrontOf(c, blobs, reader);
    if f.Accept? {
      ScanFront(c, blobs, reader, at);
      var rest, l := Scan(c, blobs, reader[f.n..], at + f.n), Placed(f.rec, at, f.n);
      assert done + ([l] + rest.lines) == (done + [l]) + rest.lines;
    }
  }

  /** Scans any file from a byte offset, applying each record, until the first torn, corrupt or dangling line, and
      reports where the good data ends. */
  method ReplayTail(cfg: Config, blobs: Blobs, file: string, from: nat, pk0: Pk, sec0: Sec)
    returns (pk: Pk, sec: Sec, end: nat)
    requires SecMatches(cfg, pk0, sec0) && from <= |file|
    ensures var s := Scan(cfg.codec, blobs, file[from..], from);
      pk == ReplayLines(pk0, s.lines) && end == s.end
    ensures SecMatches(cfg, pk, sec)
  {
    var reader := file[from..];
    pk, sec, end := pk0, sec0, from;
    ghost var whole, done := Scan(cfg.codec, blobs, reader, from), [];
    while true
      invariant Reading(cfg.codec, blobs, whole, done, reader, end)
      invariant pk == ReplayLines(pk0, done)
      invariant SecMatches(cfg, pk, sec)
      decreases |reader|
    {
      ReadOneMore(cfg.codec, blobs, whole, done, reader, end);
      var f := FrontOf(cfg.codec, blobs, reader);
      if f.Stop? {
        break;
      }
      ReplayOneMore(pk0, done, Placed(f.rec, end, f.n));
      done := done + [Placed(f.rec, end, f.n)];
      pk, sec := ApplyRecord(cfg, pk, sec, f.rec, end, f.n);
      reader := reader[f.n..];
      end := end + f.n;
    }
  }

  /** Boot, whatever the file and the hint hold: from the hint if its watermark fits the file, from nothing
      otherwise. */
  method Load(cfg: Config, blobs: Blobs, hint: Option<Hint>, file: string) returns (pk: Pk, sec: Sec, end: nat)
    requires hint.Some? ==> AscendingLines(hint.value.lines)
    ensures Booted(pk, end) == Boot(cfg.codec, blobs, hint, file)
    ensures SecMatches(cfg, pk, sec)
  {
    var from := 0;
    sec := map name | name in cfg.defs :: [];
    EmptyMatches(cfg, sec);
    pk := map[];
    if hint.Some? && hint.value.covers <= |file| {
      pk, sec := LoadHint(cfg, hint.value, sec);
      from := hint.value.covers;
    }
    assert file[0..] == file;
    pk, sec, end := ReplayTail(cfg, blobs, file, from, pk, sec);
  }
}

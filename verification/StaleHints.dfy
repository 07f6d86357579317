/** The window between the rename of a compacted log and the fresh hint: the old hint is still on disk. */
module StaleHints {
  import opened Text
  import opened Wrappers
  import opened Records
  import opened MainLog
  import opened LogIndex
  import opened Hints
  import opened Engine
  import opened EngineInv

  /** Inside the window boot is correct exactly when the old hint claims more than the new log holds, or fits it. */
  lemma WindowBootsIff(cfg: Config, d: Disk, now: int, hint: Option<Hint>)
    requires Lawful(cfg.codec) && Inv(d)
    ensures var d' := Compact(cfg, d, now);
      var log := Render(cfg.codec, d'.recs);
      Boot(cfg.codec, d'.blobs, hint, log) == Booted(Replay(cfg.codec, d'.recs), |log|) <==>
      Harmless(cfg.codec, hint, d'.recs)
  {
    var d' := Compact(cfg, d, now);
    CompactKeepsInv(cfg, d, now);
    OkNeverDangles(d'.blobs, d'.recs);
    BootsIffHarmless(cfg.codec, d'.blobs, hint, d'.recs);
  }

  /** A key written and deleted, then another one written. */
  ghost predicate DeletedThenLive(cfg: Config, d: Disk, a: Record, b: Record, now: int) {
    && d.recs == [a, Tombstone(a.key), b] && a.key != b.key && !a.deleted && !b.deleted
    && FilterKnown(cfg, b.ix) == b.ix && !ExpiredAt(b.exp, now)
  }

  lemma OneKeySorted(k: string)
    ensures SortedKeys({k}) == [k]
  {
    var s := SortedKeys({k});
    AscendingSize(s);
    assert s[0] in Elems(s);
  }

  /** Compaction leaves the live record alone in the log. */
  lemma CompactedToOne(cfg: Config, d: Disk, a: Record, b: Record, now: int)
    requires DeletedThenLive(cfg, d, a, b, now)
    ensures Contents(d.recs) == map[b.key := b]
    ensures Compact(cfg, d, now).recs == [b]
  {
    var t := Tombstone(a.key);
    ContentsSnoc([], a);
    ContentsSnoc([a], t);
    ContentsSnoc([a, t], b);
    assert [] + [a] == [a] && [a] + [t] == [a, t] && [a, t] + [b] == d.recs;
    OneKeySorted(b.key);
    assert LiveKeys(d) == [b.key];
    RewriteSnoc(cfg, d, false, [], b.key, now);
    assert [] + [b.key] == [b.key];
  }

  lemma OneRecord(c: Codec, r: Record)
    ensures Render(c, [r]) == Line(c, r) && Offset(c, [r], 1) == |Line(c, r)| && Offset(c, [r], 0) == 0
    ensures !r.deleted ==> Replay(c, [r]).Keys == {r.key}
  {
    OneRendered(c, r);
    assert [r][..1] == [r] && [r][..0] == [];
    OneReplayed(c, r);
  }

  lemma OneRendered(c: Codec, r: Record)
    ensures Render(c, [r]) == Line(c, r)
  {
    RenderSnoc(c, [], r);
    assert [] + [r] == [r];
  }

  lemma OneReplayed(c: Codec, r: Record)
    ensures !r.deleted ==> Replay(c, [r]).Keys == {r.key}
  {
    ReplaySnoc(c, [], r);
    assert [] + [r] == [r];
  }

  lemma OldHintIsGood(c: Codec, h: Hint, a: Record, b: Record)
    requires DescribesAt(c, h, [a], 1)
    ensures Describes(c, h, [a, Tombstone(a.key), b])
    ensures h.covers == |Line(c, a)| && LoadedPk(h.lines) == Replay(c, [a])
  {
    OneRecord(c, a);
    assert [a, Tombstone(a.key), b][..1] == [a] && [a][..1] == [a];
    assert DescribesAt(c, h, [a, Tombstone(a.key), b], 1);
  }

  /** If the new line is as long as the old one, the deleted key comes back and the live one goes missing. */
  lemma StaleHintResurrects(cfg: Config, d: Disk, a: Record, b: Record, h: Hint, now: int)
    requires Lawful(cfg.codec) && Inv(d) && DeletedThenLive(cfg, d, a, b, now)
    requires DescribesAt(cfg.codec, h, [a], 1) && |cfg.codec.enc(a)| == |cfg.codec.enc(b)|
    ensures Describes(cfg.codec, h, d.recs)
    ensures var d' := Compact(cfg, d, now);
      var booted := Boot(cfg.codec, d'.blobs, Some(h), Render(cfg.codec, d'.recs));
      && Contents(d'.recs) == Contents(d.recs) == map[b.key := b]
      && a.key in booted.pk && b.key !in booted.pk
  {
    var c := cfg.codec;
    CompactedToOne(cfg, d, a, b, now);
    OldHintIsGood(c, h, a, b);
    OneRecord(c, a);
    OneRecord(c, b);
    CompactKeepsInv(cfg, d, now);
    OkNeverDangles(d.blobs, Compact(cfg, d, now).recs);
    TornTailStops(c, d.blobs, "");
    BootAtBoundary(c, d.blobs, h, [b], 1, "");
    assert Render(c, [b]) + "" == Render(c, [b]) && [b][1..] == [];
    ContentsSnoc([], b);
    assert [] + [b] == [b];
  }

  /** If the new line is longer, boot also cuts the file inside it, and the live key is lost for good. */
  lemma StaleHintTruncates(cfg: Config, d: Disk, a: Record, b: Record, h: Hint, now: int)
    requires Lawful(cfg.codec) && Inv(d) && DeletedThenLive(cfg, d, a, b, now)
    requires DescribesAt(cfg.codec, h, [a], 1) && |cfg.codec.enc(a)| < |cfg.codec.enc(b)|
    ensures Describes(cfg.codec, h, d.recs)
    ensures var d' := Compact(cfg, d, now);
      var log := Render(cfg.codec, d'.recs);
      && Contents(d'.recs) == Contents(d.recs) == map[b.key := b]
      && Boot(cfg.codec, d'.blobs, Some(h), log) == Booted(Replay(cfg.codec, [a]), h.covers) && h.covers < |log|
      && Boot(cfg.codec, d'.blobs, None, log[..h.covers]) == Booted(map[], 0)
  {
    var c := cfg.codec;
    CompactedToOne(cfg, d, a, b, now);
    OldHintIsGood(c, h, a, b);
    OneRecord(c, a);
    OneRecord(c, b);
    CompactKeepsInv(cfg, d, now);
    OkNeverDangles(d.blobs, Compact(cfg, d, now).recs);
    assert [b][..0] == [];
    CutLogForgets(c, d.blobs, h, [b], 0, h.covers);
    ContentsSnoc([], b);
    assert [] + [b] == [b];
  }

  /** If the new line is shorter, boot ignores the hint, but the hint stays on disk: once the log has grown past its
      watermark, a second crash lets it in. */
  lemma IgnoredHintReturns(cfg: Config, d: Disk, a: Record, b: Record, r: Record, h: Hint, now: int)
    requires Lawful(cfg.codec) && Inv(d) && DeletedThenLive(cfg, d, a, b, now) && DescribesAt(cfg.codec, h, [a], 1)
    requires !Dangling(d.blobs, r)
    requires var c := cfg.codec; |Line(c, b)| < |Line(c, a)| < |Line(c, b)| + |Line(c, r)|
    ensures var c, d' := cfg.codec, Compact(cfg, d, now);
      var log, grown := Render(c, d'.recs), Render(c, d'.recs + [r]);
      && Contents(d'.recs) == Contents(d.recs)
      && Boot(c, d'.blobs, Some(h), log) == Booted(Replay(c, d'.recs), |log|)
      && Boot(c, d'.blobs, Some(h), grown) == Booted(Replay(c, [a]), h.covers) && h.covers < |grown|
  {
    var c := cfg.codec;
    CompactedToOne(cfg, d, a, b, now);
    OldHintIsGood(c, h, a, b);
    OneRecord(c, b);
    CompactKeepsInv(cfg, d, now);
    OkNeverDangles(d.blobs, [b]);
    WindowBootsIff(cfg, d, now, Some(h));
    assert [b] + [r] == [b, r] && [b, r][..1] == [b];
    CutLogForgets(c, d.blobs, h, [b, r], 1, h.covers - |Line(c, b)|);
    ContentsSnoc([], b);
    assert [] + [b] == [b];
  }
}

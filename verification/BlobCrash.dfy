/** Crashes between the steps of a blob write and of BlobsRelieve. */
module BlobCrash {
  import opened Text
  import opened Wrappers
  import opened Records
  import opened MainLog
  import opened LogIndex
  import opened Hints
  import opened Engine
  import opened EngineInv
  import opened EngineView

  /** What an open finds in `files` with the hint on disk and the log of `recs`, which may end in a torn line:
      every record, nothing of them truncated, and the given view. */
  ghost predicate OpensTo(c: Codec, files: Blobs, hint: Option<Hint>, recs: seq<Record>, torn: string,
      view: map<string, Content>) {
    && RecordsOk(files, recs)
    && Boot(c, files, hint, Render(c, recs) + torn) == Booted(Replay(c, recs), |Render(c, recs)|)
    && View(Disk(recs, files, 0)) == view
  }

  /** Growing or adding blob files changes nothing that records refer to. */
  lemma GrownFilesSameView(files: Blobs, grown: Blobs, recs: seq<Record>)
    requires RecordsOk(files, recs) && BlobsGrow(files, grown)
    ensures RecordsOk(grown, recs) && View(Disk(recs, grown, 0)) == View(Disk(recs, files, 0))
  {
    RecordsOkGrow(files, grown, recs);
    var m := Contents(recs);
    forall k | k in m
      ensures ContentOf(grown, m[k]) == ContentOf(files, m[k])
    {
      ContentsAreRecords(recs, k);
      var i :| 0 <= i < |recs| && recs[i] == m[k];
      assert RefInside(files, recs[i]);
      GrownBlobsSameContent(files, grown, m[k]);
    }
  }

  lemma GrownFilesOpen(c: Codec, files: Blobs, grown: Blobs, hint: Option<Hint>, recs: seq<Record>, torn: string)
    requires Lawful(c) && RecordsOk(files, recs) && BlobsGrow(files, grown) && TornTail(torn)
    requires hint.Some? ==> Describes(c, hint.value, recs)
    ensures OpensTo(c, grown, hint, recs, torn, View(Disk(recs, files, 0)))
  {
    GrownFilesSameView(files, grown, recs);
    OkNeverDangles(grown, recs);
    TornTailStops(c, grown, torn);
    BootIsReplay(c, grown, hint, recs, torn);
  }

  /** A crash at any byte of the blob append of a write, or between it and the log append, or inside the log
      append, only orphans bytes of the blob file. */
  lemma BlobBeforeRecord(cfg: Config, d: Disk, value: string, k: nat, hint: Option<Hint>, torn: string)
    requires Lawful(cfg.codec) && Inv(d) && k <= |value| && TornTail(torn)
    requires hint.Some? ==> Describes(cfg.codec, hint.value, d.recs)
    ensures OpensTo(cfg.codec, d.blobs[d.curGen := d.blobs[d.curGen] + value[..k]], hint, d.recs, torn, View(d))
  {
    GrownFilesOpen(cfg.codec, d.blobs, d.blobs[d.curGen := d.blobs[d.curGen] + value[..k]], hint, d.recs, torn);
    assert View(Disk(d.recs, d.blobs, 0)) == View(d);
  }

  /** Before the rename the old log and the old hint stand, whatever the new generation holds so far. */
  lemma RelieveBeforeRename(cfg: Config, d: Disk, partial: string, hint: Option<Hint>)
    requires Lawful(cfg.codec) && Inv(d)
    requires hint.Some? ==> Describes(cfg.codec, hint.value, d.recs)
    ensures OpensTo(cfg.codec, d.blobs[d.curGen + 1 := partial], hint, d.recs, "", View(d))
  {
    GrownFilesOpen(cfg.codec, d.blobs, d.blobs[d.curGen + 1 := partial], hint, d.recs, "");
    assert View(Disk(d.recs, d.blobs, 0)) == View(d);
  }

  /** After the rename the new log stands, whichever of the old generations are already removed: it opens with
      every unexpired value, and nothing cut off, exactly when the hint still on disk is harmless. */
  lemma RelieveAfterRename(cfg: Config, d: Disk, now: int, removed: set<nat>, hint: Option<Hint>)
    requires Lawful(cfg.codec) && Inv(d)
    ensures var d' := Relieve(cfg, d, now);
      var files := (d.blobs - removed)[d'.curGen := d'.blobs[d'.curGen]];
      OpensTo(cfg.codec, files, hint, d'.recs, "", Visible(d, now)) <==> Harmless(cfg.codec, hint, d'.recs)
  {
    var d' := Relieve(cfg, d, now);
    var files := (d.blobs - removed)[d'.curGen := d'.blobs[d'.curGen]];
    RelieveKeepsInv(cfg, d, now);
    RewritesKeepVisible(cfg, d, now);
    GrownFilesSameView(d'.blobs, files, d'.recs);
    assert View(Disk(d'.recs, d'.blobs, 0)) == View(d');
    OkNeverDangles(files, d'.recs);
    BootsIffHarmless(cfg.codec, files, hint, d'.recs);
    assert Render(cfg.codec, d'.recs) + "" == Render(cfg.codec, d'.recs);
  }
}

/** The background hint writer against synchronous checkpoints, compaction swaps and Close. */
module HintRace {
  import opened Wrappers
  import opened CounterCodec
  import opened Records
  import opened MainLog
  import opened LogIndex
  import opened Hints
  import opened Engine
  import opened EngineInv
  import opened Writes

  /** A snapshot taken for the background writer: the hint it will write, the checkpoint generation and the
      time it was taken. */
  datatype Snapshot = Snapshot(hint: Hint, gen: nat, stamp: nat)

  /** The background writer.  `Locked`, `Checked` and `Written` hold the hint mutex. */
  datatype Writer =
    | Absent
    | Flushing(snap: Snapshot)
    | Locked(snap: Snapshot)
    | Checked(snap: Snapshot)
    | Written
    | Leaving

  /** What the holder of the store lock is doing.  `Saving` and `Saved` hold the hint mutex. */
  datatype Foreground = Idle | Swapped | Closing | Bumped | Saving | Saved

  datatype Owner = Nobody | Background | Checkpoint

  /** `stale` is set from a swap until the fresh hint is on disk; `fileStamp` and `lastCheckpoint` are the times
      at which the hint on disk and the last completed checkpoint were snapshotted. */
  datatype World = World(
    disk: Disk,
    file: Option<Hint>,
    hintGen: nat,
    mutex: Owner,
    busy: bool,
    writer: Writer,
    fore: Foreground,
    closed: bool,
    clock: nat,
    fileStamp: nat,
    lastCheckpoint: nat,
    stale: bool)

  /** One step of the system; a mutation is a single write to a single file, so an operation is several. */
  datatype Move =
    | Mutate(wr: Write)
    | Spawn(h: Hint)
    | FlushFails
    | WriterLocks
    | WriterChecks
    | WriterWrites
    | WriterUnlocks
    | WriterLeaves
    | Begin
    | Swap(t: Timed)
    | Close
    | Bump
    | ForeLocks
    | ForeSaves(h: Hint)
    | ForeUnlocks

  /** A hint that is a snapshot of the whole current log. */
  ghost predicate Fresh(cfg: Config, w: World, h: Hint) {
    DescribesAt(cfg.codec, h, w.disk.recs, |w.disk.recs|)
  }

  ghost predicate Enabled(cfg: Config, w: World, mv: Move) {
    match mv
    case Mutate(wr) => w.fore == Idle && !w.closed && Sound(cfg.codec, w.disk, wr)
    case Spawn(h) => w.fore == Idle && !w.closed && !w.busy && Fresh(cfg, w, h)
    case FlushFails => w.writer.Flushing?
    case WriterLocks => w.writer.Flushing? && w.mutex == Nobody
    case WriterChecks => w.writer.Locked?
    case WriterWrites => w.writer.Checked?
    case WriterUnlocks => w.writer.Written?
    case WriterLeaves => w.writer.Leaving?
    case Begin => w.fore == Idle && !w.closed
    case Swap(t) => w.fore == Idle && !w.closed && Rewrites(t.op)
    case Close => w.fore == Idle && !w.closed
    case Bump => w.fore == Swapped || (w.fore == Closing && !w.busy)
    case ForeLocks => w.fore == Bumped && w.mutex == Nobody
    case ForeSaves(h) => w.fore == Saving && Fresh(cfg, w, h)
    case ForeUnlocks => w.fore == Saved
  }

  ghost function After(cfg: Config, w: World, mv: Move): World
    requires Enabled(cfg, w, mv)
  {
    var w := w.(clock := w.clock + 1);
    match mv
    case Mutate(wr) => w.(disk := AfterWrite(w.disk, wr))
    case Spawn(h) => w.(busy := true, writer := Flushing(Snapshot(h, w.hintGen, w.clock)))
    case FlushFails => w.(writer := Leaving)
    case WriterLocks => w.(writer := Locked(w.writer.snap), mutex := Background)
    case WriterChecks =>
      if w.hintGen == w.writer.snap.gen then w.(writer := Checked(w.writer.snap))
      else w.(writer := Written)
    case WriterWrites =>
      w.(writer := Written, file := Some(w.writer.snap.hint), fileStamp := w.writer.snap.stamp)
    case WriterUnlocks => w.(writer := Leaving, mutex := Nobody)
    case WriterLeaves => w.(writer := Absent, busy := false)
    case Begin => w.(fore := Bumped, hintGen := w.hintGen + 1)
    case Swap(t) => w.(disk := Step(cfg, w.disk, t), fore := Swapped, stale := true)
    case Close => w.(fore := Closing, closed := true)
    case Bump => w.(fore := Bumped, hintGen := w.hintGen + 1)
    case ForeLocks => w.(fore := Saving, mutex := Checkpoint)
    case ForeSaves(h) =>
      w.(fore := Saved, file := Some(h), fileStamp := w.clock, lastCheckpoint := w.clock, stale := false)
    case ForeUnlocks => w.(fore := Idle, mutex := Nobody)
  }

  predicate HasSnapshot(wr: Writer) {
    wr.Flushing? || wr.Locked? || wr.Checked?
  }

  /** The background writer may still put this snapshot on disk. */
  predicate MayLand(w: World) {
    w.writer.Checked? || (HasSnapshot(w.writer) && w.writer.snap.gen == w.hintGen)
  }

  ghost predicate GoodHint(cfg: Config, w: World, h: Hint) {
    Describes(cfg.codec, h, w.disk.recs)
  }

  ghost predicate LocksOk(w: World) {
    && (w.mutex == Background <==> w.writer.Locked? || w.writer.Checked? || w.writer.Written?)
    && (w.mutex == Checkpoint <==> w.fore == Saving || w.fore == Saved)
    && (w.busy <==> !w.writer.Absent?)
    && (HasSnapshot(w.writer) ==> w.writer.snap.gen <= w.hintGen && w.writer.snap.stamp <= w.clock)
    && (HasSnapshot(w.writer) && (w.fore == Bumped || w.fore == Saving || w.fore == Saved) ==>
          w.writer.snap.gen < w.hintGen)
    && (w.fore == Swapped ==> w.stale)
    && (w.stale ==> w.fore == Swapped || w.fore == Bumped || w.fore == Saving)
  }

  /** No snapshot that may still land, and no hint on disk, is older than the last completed checkpoint. */
  ghost predicate StampsOk(w: World) {
    && (MayLand(w) ==> w.writer.snap.stamp >= w.lastCheckpoint)
    && w.fileStamp >= w.lastCheckpoint
  }

  /** Outside a swap the hint on disk, and any snapshot that may still land, describes a prefix of the log. */
  ghost predicate HintsOk(cfg: Config, w: World) {
    !w.stale ==>
      && (w.file.Some? ==> GoodHint(cfg, w, w.file.value))
      && (MayLand(w) ==> GoodHint(cfg, w, w.writer.snap.hint))
  }

  ghost predicate Safe(cfg: Config, w: World) {
    Inv(w.disk) && LocksOk(w) && StampsOk(w) && HintsOk(cfg, w)
  }

  lemma FreshIsGood(cfg: Config, w: World, h: Hint)
    requires Fresh(cfg, w, h)
    ensures GoodHint(cfg, w, h)
  {
  }

  lemma MoveKeepsLocksAndStamps(cfg: Config, w: World, mv: Move)
    requires LocksOk(w) && StampsOk(w) && Enabled(cfg, w, mv)
    requires w.lastCheckpoint <= w.clock
    ensures LocksOk(After(cfg, w, mv)) && StampsOk(After(cfg, w, mv))
    ensures After(cfg, w, mv).lastCheckpoint <= After(cfg, w, mv).clock
  {
  }

  lemma MutateKeepsHints(cfg: Config, w: World, wr: Write)
    requires Lawful(cfg.codec) && Safe(cfg, w) && Enabled(cfg, w, Mutate(wr))
    ensures Inv(After(cfg, w, Mutate(wr)).disk) && HintsOk(cfg, After(cfg, w, Mutate(wr)))
  {
    var w' := After(cfg, w, Mutate(wr));
    WriteGrows(cfg.codec, w.disk, wr);
    if !w.stale {
      if w.file.Some? {
        DescribesSurvives(cfg.codec, w.file.value, w.disk.recs, w'.disk.recs);
      }
      if MayLand(w) {
        DescribesSurvives(cfg.codec, w.writer.snap.hint, w.disk.recs, w'.disk.recs);
      }
    }
  }

  lemma MoveKeepsHints(cfg: Config, w: World, mv: Move)
    requires Lawful(cfg.codec) && Safe(cfg, w) && Enabled(cfg, w, mv)
    ensures Inv(After(cfg, w, mv).disk) && HintsOk(cfg, After(cfg, w, mv))
  {
    match mv
    case Mutate(wr) => MutateKeepsHints(cfg, w, wr);
    case Swap(t) => StepKeepsInv(cfg, w.disk, t);
    case Spawn(h) => FreshIsGood(cfg, w, h);
    case ForeSaves(h) => FreshIsGood(cfg, w, h);
    case _ =>
  }

  ghost function Play(cfg: Config, w: World, mvs: seq<Move>): Option<World> {
    if mvs == [] then Some(w)
    else
      var p := Play(cfg, w, mvs[..|mvs| - 1]);
      if p.Some? && Enabled(cfg, p.value, mvs[|mvs| - 1]) then Some(After(cfg, p.value, mvs[|mvs| - 1])) else None
  }

  /** A store just opened, with no hint or a good one. */
  ghost predicate Start(cfg: Config, w: World) {
    && Inv(w.disk) && (w.file.Some? ==> GoodHint(cfg, w, w.file.value))
    && w.mutex == Nobody && !w.busy && w.writer.Absent? && w.fore == Idle
    && w.clock == 0 && w.fileStamp == 0 && w.lastCheckpoint == 0 && !w.stale
  }

  /** In every interleaving: a snapshot older than a completed checkpoint is never on disk after it, and outside a
      swap the hint on disk describes a prefix of the current log. */
  lemma {:induction false} EveryInterleavingIsSafe(cfg: Config, w: World, mvs: seq<Move>)
    requires Lawful(cfg.codec) && Start(cfg, w) && Play(cfg, w, mvs).Some?
    ensures var w' := Play(cfg, w, mvs).value;
      Safe(cfg, w') && w'.lastCheckpoint <= w'.fileStamp && w'.lastCheckpoint <= w'.clock
    decreases |mvs|
  {
    if mvs != [] {
      var init, mv := mvs[..|mvs| - 1], mvs[|mvs| - 1];
      EveryInterleavingIsSafe(cfg, w, init);
      var p := Play(cfg, w, init).value;
      MoveKeepsLocksAndStamps(cfg, p, mv);
      MoveKeepsHints(cfg, p, mv);
    }
  }

  /** Killing the process between any two writes outside a swap, or inside an append, loses nothing that was
      written: boot from the hint on disk gives the replay of the log. */
  lemma CrashAnywhereBoots(cfg: Config, w: World, mvs: seq<Move>, torn: string)
    requires Lawful(cfg.codec) && Start(cfg, w) && Play(cfg, w, mvs).Some? && !Play(cfg, w, mvs).value.stale
    requires TornTail(torn)
    ensures var w' := Play(cfg, w, mvs).value;
      var log := Render(cfg.codec, w'.disk.recs);
      Boot(cfg.codec, w'.disk.blobs, w'.file, log + torn) == Booted(Replay(cfg.codec, w'.disk.recs), |log|)
  {
    EveryInterleavingIsSafe(cfg, w, mvs);
    var w' := Play(cfg, w, mvs).value;
    OkNeverDangles(w'.disk.blobs, w'.disk.recs);
    TornTailStops(cfg.codec, w'.disk.blobs, torn);
    BootIsReplay(cfg.codec, w'.disk.blobs, w'.file, w'.disk.recs, torn);
  }

  /** Killing it at any point at all, a swap included: boot gives the replay of the log exactly when the hint that
      happens to be on disk is harmless. */
  lemma CrashAnywhereBootsIff(cfg: Config, w: World, mvs: seq<Move>)
    requires Lawful(cfg.codec) && Start(cfg, w) && Play(cfg, w, mvs).Some?
    ensures var w' := Play(cfg, w, mvs).value;
      var log := Render(cfg.codec, w'.disk.recs);
      Boot(cfg.codec, w'.disk.blobs, w'.file, log) == Booted(Replay(cfg.codec, w'.disk.recs), |log|) <==>
      Harmless(cfg.codec, w'.file, w'.disk.recs)
  {
    EveryInterleavingIsSafe(cfg, w, mvs);
    var w' := Play(cfg, w, mvs).value;
    OkNeverDangles(w'.disk.blobs, w'.disk.recs);
    BootsIffHarmless(cfg.codec, w'.disk.blobs, w'.file, w'.disk.recs);
  }

  /** Every operation but a rewrite is a sequence of mutations, so the interleavings above cover all of them. */
  lemma OperationIsMoves(cfg: Config, w: World, t: Timed) returns (mvs: seq<Move>, w': World)
    requires Lawful(cfg.codec) && Inv(w.disk) && w.fore == Idle && !w.closed && !Rewrites(t.op)
    ensures Play(cfg, w, mvs) == Some(w')
    ensures w'.disk == Step(cfg, w.disk, t) && w' == w.(disk := w'.disk, clock := w.clock + |mvs|)
  {
    var ws := StepPerforms(cfg, w.disk, t);
    mvs, w' := AllWritesAreMoves(cfg, w, ws, Step(cfg, w.disk, t));
  }

  lemma AllWritesAreMoves(cfg: Config, w: World, ws: seq<Write>, d': Disk) returns (mvs: seq<Move>, w': World)
    requires Performs(cfg.codec, w.disk, ws, d') && w.fore == Idle && !w.closed
    ensures Play(cfg, w, mvs) == Some(w')
    ensures w' == w.(disk := d', clock := w.clock + |mvs|)
  {
    mvs, w' := WritesAreMoves(cfg, w, ws, d', |ws|);
    assert ws[..|ws|] == ws;
  }

  /** The world after the first `n` writes. */
  function Mutated(w: World, ws: seq<Write>, n: nat): World
    requires n <= |ws|
  {
    w.(disk := AllWritten(w.disk, ws[..n]), clock := w.clock + n)
  }

  lemma MutatedNext(cfg: Config, w: World, ws: seq<Write>, d': Disk, n: nat)
    requires Performs(cfg.codec, w.disk, ws, d') && n < |ws| && w.fore == Idle && !w.closed
    ensures var p := Mutated(w, ws, n);
      Enabled(cfg, p, Mutate(ws[n])) && After(cfg, p, Mutate(ws[n])) == Mutated(w, ws, n + 1)
  {
    assert ws[..n + 1][..n] == ws[..n];
  }

  lemma PlaySnoc(cfg: Config, w: World, mvs: seq<Move>, p: World, mv: Move)
    requires Play(cfg, w, mvs) == Some(p) && Enabled(cfg, p, mv)
    ensures Play(cfg, w, mvs + [mv]) == Some(After(cfg, p, mv))
  {
    assert (mvs + [mv])[..|mvs|] == mvs;
  }

  lemma {:induction false} WritesAreMoves(cfg: Config, w: World, ws: seq<Write>, d': Disk, n: nat)
    returns (mvs: seq<Move>, p: World)
    requires Performs(cfg.codec, w.disk, ws, d') && n <= |ws| && w.fore == Idle && !w.closed
    ensures |mvs| == n && Play(cfg, w, mvs) == Some(p) && p == Mutated(w, ws, n)
    decreases n
  {
    if n == 0 {
      return [], w;
    }
    var before, q := WritesAreMoves(cfg, w, ws, d', n - 1);
    MutatedNext(cfg, w, ws, d', n - 1);
    PlaySnoc(cfg, w, before, q, Mutate(ws[n - 1]));
    return before + [Mutate(ws[n - 1])], After(cfg, q, Mutate(ws[n - 1]));
  }
}

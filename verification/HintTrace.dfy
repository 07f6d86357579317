/** Which hint is on disk after a schedule, read off its moves alone, and that saves always get through. */
module HintTrace {
  import opened Text
  import opened Wrappers
  import opened Records
  import opened MainLog
  import opened LogIndex
  import opened Engine
  import opened EngineInv
  import opened Hints
  import opened Writes
  import opened HintRace

  // ---- what a schedule puts on disk ----

  /** The snapshot the background writer was last started with. */
  function LastSpawn(mvs: seq<Move>): Option<Hint> {
    if mvs == [] then None
    else if mvs[|mvs| - 1].Spawn? then Some(mvs[|mvs| - 1].h)
    else LastSpawn(mvs[..|mvs| - 1])
  }

  /** The hint file after the moves: what the last save, background or checkpoint, wrote. */
  function LastSaved(file: Option<Hint>, mvs: seq<Move>): Option<Hint> {
    if mvs == [] then file
    else
      var init, mv := mvs[..|mvs| - 1], mvs[|mvs| - 1];
      if mv.ForeSaves? then Some(mv.h)
      else if mv.WriterWrites? then LastSpawn(init)
      else LastSaved(file, init)
  }

  /** The store after the mutations and swaps among the moves. */
  ghost function Mutations(cfg: Config, d: Disk, mvs: seq<Move>): Disk {
    if mvs == [] then d
    else
      var before, mv := Mutations(cfg, d, mvs[..|mvs| - 1]), mvs[|mvs| - 1];
      if mv.Mutate? then AfterWrite(before, mv.wr)
      else if mv.Swap? then Step(cfg, before, mv.t)
      else before
  }

  ghost predicate Traced(cfg: Config, start: World, mvs: seq<Move>, w: World) {
    && w.file == LastSaved(start.file, mvs)
    && w.disk == Mutations(cfg, start.disk, mvs)
    && (HasSnapshot(w.writer) ==> LastSpawn(mvs) == Some(w.writer.snap.hint))
  }

  /** In every interleaving the hint on disk is the one the last save was given, and the store is the mutations and
      swaps in their order: the protocol around them loses and invents nothing. */
  lemma {:induction false} EveryScheduleSavesWhatItAsks(cfg: Config, start: World, mvs: seq<Move>)
    requires Start(cfg, start) && Play(cfg, start, mvs).Some?
    ensures Traced(cfg, start, mvs, Play(cfg, start, mvs).value)
    decreases |mvs|
  {
    if mvs != [] {
      var init, mv := mvs[..|mvs| - 1], mvs[|mvs| - 1];
      EveryScheduleSavesWhatItAsks(cfg, start, init);
      TracedStep(cfg, start, init, Play(cfg, start, init).value, mv);
      assert mvs == init + [mv];
    }
  }

  lemma TracedStep(cfg: Config, start: World, mvs: seq<Move>, w: World, mv: Move)
    requires Traced(cfg, start, mvs, w) && Enabled(cfg, w, mv)
    ensures Traced(cfg, start, mvs + [mv], After(cfg, w, mv))
  {
    var mvs' := mvs + [mv];
    assert mvs'[..|mvs'| - 1] == mvs && mvs'[|mvs'| - 1] == mv;
  }

  // ---- saves get through ----

  /** The current log can always be snapshotted. */
  lemma FreshExists(cfg: Config, w: World) returns (h: Hint)
    ensures Fresh(cfg, w, h)
  {
    var recs := w.disk.recs;
    var pk := Replay(cfg.codec, recs);
    var ks := SortedKeys(pk.Keys);
    KeysAreBound(pk, ks);
    LoadedLines(pk, ks);
    h := Hint(|Render(cfg.codec, recs)|, LinesOf(pk, ks));
    assert recs[..|recs|] == recs;
  }

  /** A move that finishes what has begun, other than giving a snapshot up. */
  predicate GoesOn(mv: Move) {
    match mv
    case Mutate(_) => false
    case Spawn(_) => false
    case Begin => false
    case Swap(_) => false
    case Close => false
    case FlushFails => false
    case _ => true
  }

  /** The moves still ahead of the background writer and of the holder of the store lock. */
  function Remaining(w: World): nat {
    (match w.writer
     case Flushing(_) => 5
     case Locked(_) => 4
     case Checked(_) => 3
     case Written => 2
     case Leaving => 1
     case Absent => 0) +
    (match w.fore
     case Swapped => 4
     case Closing => 4
     case Bumped => 3
     case Saving => 2
     case Saved => 1
     case Idle => 0)
  }

  /** As long as a save or a checkpoint is under way, something can go on, and then there is less ahead. */
  lemma NeverStuck(cfg: Config, w: World) returns (mv: Move)
    requires LocksOk(w) && (w.busy || w.fore != Idle)
    ensures GoesOn(mv) && Enabled(cfg, w, mv)
  {
    if w.mutex == Background {
      mv := if w.writer.Locked? then WriterChecks else if w.writer.Checked? then WriterWrites else WriterUnlocks;
    } else if w.mutex == Checkpoint {
      mv := ForeUnlocks;
      if w.fore == Saving {
        var h := FreshExists(cfg, w);
        mv := ForeSaves(h);
      }
    } else if w.busy {
      mv := if w.writer.Flushing? then WriterLocks else WriterLeaves;
    } else {
      mv := if w.fore == Bumped then ForeLocks else Bump;
    }
  }

  lemma GoingOnEnds(cfg: Config, w: World, mv: Move)
    requires LocksOk(w) && Enabled(cfg, w, mv) && GoesOn(mv)
    ensures Remaining(After(cfg, w, mv)) < Remaining(w)
  {
  }

  lemma {:induction false} PlayConcat(cfg: Config, w: World, a: seq<Move>, b: seq<Move>)
    requires Play(cfg, w, a).Some?
    ensures Play(cfg, w, a + b) == Play(cfg, Play(cfg, w, a).value, b)
    decreases |b|
  {
    if b == [] {
      assert a + b == a;
    } else {
      PlayConcat(cfg, w, a, b[..|b| - 1]);
      assert (a + b)[..|a + b| - 1] == a + b[..|b| - 1];
    }
  }

  /** What is on disk once everything has finished: a checkpoint under way leaves a snapshot of the whole log; without
      one a background snapshot that may still land has landed, and otherwise the file is as it was. */
  ghost predicate Finishes(cfg: Config, w: World, file: Option<Hint>) {
    if w.fore == Idle || w.fore == Saved then file == if MayLand(w) then Some(w.writer.snap.hint) else w.file
    else file.Some? && Fresh(cfg, w, file.value)
  }

  lemma FinishesStep(cfg: Config, w: World, mv: Move, file: Option<Hint>)
    requires LocksOk(w) && Enabled(cfg, w, mv) && GoesOn(mv) && Finishes(cfg, After(cfg, w, mv), file)
    ensures Finishes(cfg, w, file) && After(cfg, w, mv).disk == w.disk
  {
  }

  /** From any point of any schedule every save and checkpoint that has begun can finish, within the moves still
      ahead, and then the hint on disk is the one it should be. */
  lemma {:induction false} SavesFinish(cfg: Config, w: World) returns (mvs: seq<Move>)
    requires Lawful(cfg.codec) && Safe(cfg, w) && w.lastCheckpoint <= w.clock
    ensures Play(cfg, w, mvs).Some? && |mvs| <= Remaining(w)
    ensures var w' := Play(cfg, w, mvs).value;
      && !w'.busy && w'.fore == Idle && w'.mutex == Nobody && !w'.stale && w'.disk == w.disk
      && Finishes(cfg, w, w'.file)
    decreases Remaining(w)
  {
    mvs := [];
    if w.busy || w.fore != Idle {
      var mv := NeverStuck(cfg, w);
      var w' := After(cfg, w, mv);
      GoingOnEnds(cfg, w, mv);
      MoveKeepsLocksAndStamps(cfg, w, mv);
      MoveKeepsHints(cfg, w, mv);
      var rest := SavesFinish(cfg, w');
      FinishesStep(cfg, w, mv, Play(cfg, w', rest).value.file);
      mvs := [mv] + rest;
      PlayFirst(cfg, w, mv, rest);
    }
  }

  lemma PlayFirst(cfg: Config, w: World, mv: Move, rest: seq<Move>)
    requires Enabled(cfg, w, mv)
    ensures Play(cfg, w, [mv] + rest) == Play(cfg, After(cfg, w, mv), rest)
  {
    assert Play(cfg, w, []) == Some(w);
    HintRace.PlaySnoc(cfg, w, [], w, mv);
    assert [] + [mv] == [mv];
    PlayConcat(cfg, w, [mv], rest);
  }
}

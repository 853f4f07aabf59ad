/** The decision logic of the two animated experiment screens. Each redraw reads the latest
    samples and delayed rows, consumes the block timeline at the time of the latest sample,
    picks the real or the recorded columns by the block's mark, and every 3 seconds moves
    the animation's score. */
module Screens {
  import opened PyLib
  import Blocks
  import Options
  import HidReader
  import Scorer
  import ScoreAnimation

  /** `animation_time_step_length`. */
  const UpdateStep: int := 3

  /** How many seconds of data a redraw peeks at: `max(10, delayedLength * 2)`. */
  function PeekLength(delayedLength: real): (r: real)
    ensures r >= 10.0 && r >= delayedLength * 2.0
    ensures r == 10.0 || r == delayedLength * 2.0
  {
    if 10.0 < delayedLength * 2.0 then delayedLength * 2.0 else 10.0
  }

  /** `update_animation_score`'s step: down by 10 exactly when the std is above the threshold. */
  function StdStep(std: real, threshold: real): (step: int)
    ensures step == -10 <==> std > threshold
    ensures step == 10 <==> std <= threshold
  {
    if std > threshold then -10 else 10
  }

  /** At a std exactly on the threshold the building screen rewards (+10) while the two-step
      scorer punishes (-10): the two screens disagree only there. */
  lemma StdStepAgainstScorer(s: Scorer.ScorerState, p: Scorer.Params, mean: real, std: real)
    requires Scorer.Inv(s) && s.state == Scorer.Second
    requires Scorer.Abs(mean - p.refValue) <= p.meanThreshold
    requires 0 < s.score2 < Scorer.Score2Max
    ensures var moved := Scorer.Step(s, p, mean, std).score2 - s.score2;
      (moved == StdStep(std, p.stdThreshold)) <==> std != p.stdThreshold
  {
    Scorer.SecondStepMoves(s, p, mean, std);
  }

  /** The catch-up schedule: an update is due when the time has passed the next update time,
      and each update moves that time on by exactly 3 seconds. */
  function Schedule(passed: real, next: int): (r: (bool, int))
    ensures r.0 <==> passed > next as real
    ensures r.1 == if r.0 then next + UpdateStep else next
  {
    var due := passed > next as real;
    (due, if due then next + UpdateStep else next)
  }

  /** After a long pause the schedule catches up one step per redraw: it never jumps. */
  lemma ScheduleNeverSkips(passed: real, next: int)
    ensures Schedule(passed, next).1 - next in {0, UpdateStep}
    ensures Schedule(passed, next).1 as real <= (if passed > next as real then passed + UpdateStep as real else next as real)
  {
  }

  /** The delayed rows as `(avg, std, t)`: the recorded columns on a `'F'` block, the real
      ones otherwise. */
  function SelectColumns(mark: string, rows: seq<HidReader.DelayedRow>): (r: seq<Scorer.StatRow>)
    ensures |r| == |rows|
    ensures forall k :: 0 <= k < |rows| ==> r[k].t == rows[k].t
    ensures forall k :: 0 <= k < |rows| ==>
      (mark == "F" ==> r[k].mean == rows[k].avgFake && r[k].std == rows[k].stdFake)
      && (mark != "F" ==> r[k].mean == rows[k].avgValue && r[k].std == rows[k].stdValue)
  {
    seq(|rows|, k requires 0 <= k < |rows| =>
      if mark == "F" then Scorer.StatRow(rows[k].avgFake, rows[k].stdFake, rows[k].t)
      else Scorer.StatRow(rows[k].avgValue, rows[k].stdValue, rows[k].t))
  }

  /** Only a fake-feedback block shows the recorded pressure. */
  lemma FakeColumnsOnlyOnFakeBlocks(name: string, rows: seq<HidReader.DelayedRow>)
    requires |rows| > 0
    requires exists k :: 0 <= k < |rows| && rows[k].avgFake != rows[k].avgValue
    ensures (forall k :: 0 <= k < |rows| ==> SelectColumns(Blocks.MarkOf(name), rows)[k].mean == rows[k].avgFake)
      ==> name == "Fake"
  {
  }

  /** AS WRITTEN: the screens stop the session when the mark is `'E'`. */
  predicate StopsOnMarkAsWritten(mark: string)
  {
    mark == "E"
  }

  /** The screens stop the session when the timeline is exhausted. */
  predicate SessionFinished(mark: string)
  {
    mark == Blocks.BlockEmptyMark
  }

  lemma ConsumeMarks(emptyDesign: bool, blocks: Option<seq<Blocks.Block>>, total: int, t: real)
    ensures var r := Blocks.ConsumeSpec(emptyDesign, blocks, total, t).0;
      (r.Progress? || r.NotStarted?) ==>
        r.mark in {Blocks.EmptyDesignMark, Blocks.NotStartedMark, Blocks.BlockEmptyMark}
        || Blocks.IsModeMark(r.mark)
  {
    if !emptyDesign && blocks.Some? && blocks.value != [] && t >= blocks.value[0].start as real {
      var rest := Blocks.Drop(blocks.value, t);
      if rest != [] {
        var m := Blocks.MarkOf(rest[0].name);
        assert Blocks.IsModeMark(m);
      }
    }
  }

  /** As written the session is never stopped by its timeline: no report carries `'E'`. */
  lemma NeverStopsAsWritten(emptyDesign: bool, blocks: Option<seq<Blocks.Block>>, total: int, t: real)
    ensures var r := Blocks.ConsumeSpec(emptyDesign, blocks, total, t).0;
      (r.Progress? || r.NotStarted?) ==> !StopsOnMarkAsWritten(r.mark)
  {
    ConsumeMarks(emptyDesign, blocks, total, t);
  }

  /** With the exhausted mark, the session stops exactly when no block is left, and a design
      with blocks always comes to that point once its last block has ended. */
  lemma StopsExactlyWhenExhausted(bs: seq<Blocks.Block>, total: int, t: real)
    requires |bs| > 0 && Blocks.Contiguous(bs) && Forward(bs) && t >= bs[0].start as real
    ensures var (r, rest) := Blocks.ConsumeSpec(false, Some(bs), total, t);
      (r.Progress? && SessionFinished(r.mark)) <==> rest == Some([])
    ensures t > bs[|bs| - 1].stop as real ==>
      Blocks.ConsumeSpec(false, Some(bs), total, t).1 == Some([])
  {
    var (r, rest) := Blocks.ConsumeSpec(false, Some(bs), total, t);
    if rest != Some([]) && r.Progress? {
      Blocks.ConsumeReportsFrontBlock(bs, total, t);
      assert r.mark != Blocks.BlockEmptyMark;
    }
    if t > bs[|bs| - 1].stop as real {
      DropAllAfterLastStop(bs, t);
    }
  }

  /** Every block lasts a non-negative time. */
  ghost predicate Forward(bs: seq<Blocks.Block>)
  {
    forall k :: 0 <= k < |bs| ==> bs[k].start <= bs[k].stop
  }

  lemma {:induction false} DropAllAfterLastStop(bs: seq<Blocks.Block>, t: real)
    requires |bs| > 0 && Blocks.Contiguous(bs) && Forward(bs) && t > bs[|bs| - 1].stop as real
    ensures Blocks.Drop(bs, t) == []
    decreases |bs|
  {
    if |bs| == 1 {
      assert Blocks.Drop(bs[1..], t) == [];
    } else {
      assert bs[0].stop <= bs[|bs| - 1].stop by { StopsIncrease(bs, 0); }
      assert Blocks.Contiguous(bs[1..]) && Forward(bs[1..]) by {
        forall k | 0 <= k < |bs[1..]| - 1 ensures bs[1..][k].stop == bs[1..][k + 1].start {
          assert bs[1..][k] == bs[k + 1] && bs[1..][k + 1] == bs[k + 2];
        }
        forall k | 0 <= k < |bs[1..]| ensures bs[1..][k].start <= bs[1..][k].stop {
          assert bs[1..][k] == bs[k + 1];
        }
      }
      DropAllAfterLastStop(bs[1..], t);
    }
  }

  lemma {:induction false} StopsIncrease(bs: seq<Blocks.Block>, i: int)
    requires Blocks.Contiguous(bs) && Forward(bs) && 0 <= i < |bs|
    ensures bs[i].stop <= bs[|bs| - 1].stop
    decreases |bs| - i
  {
    if i < |bs| - 1 {
      StopsIncrease(bs, i + 1);
      assert bs[i].stop == bs[i + 1].start <= bs[i + 1].stop;
    }
  }

  datatype DrawOutcome = NoData | Raised | Drawn

  /** `BuildingAnimationScreen`: the block timeline, the reader and the building animation. */
  class BuildingScreen {
    var frames: int
    var needUpdateFlag: bool
    var nextUpdate: int
    var markText: string
    var progress: real
    const bm: Blocks.BlockManager
    const reader: HidReader.RealTimeHIDReader
    const bsa: ScoreAnimation.BuildingScoreAnimation

    ghost predicate Valid()
      reads this, bm, reader, reader.fake, bsa
    {
      && bm.Valid() && reader.Valid()
      && ScoreAnimation.ScoreMin <= bsa.score <= ScoreAnimation.ScoreMax
      && bsa.gifLength == ScoreAnimation.GifFrames
    }

    /** `__init__`: the base screen builds the timeline and the reader; the animation is reset
        and the schedule starts at 0. */
    constructor (bm: Blocks.BlockManager, reader: HidReader.RealTimeHIDReader,
                 bsa: ScoreAnimation.BuildingScoreAnimation)
      requires bm.Valid() && reader.Valid() && bsa.gifLength == ScoreAnimation.GifFrames
      modifies bsa, bsa.anim
      ensures Valid() && this.bm == bm && this.reader == reader && this.bsa == bsa
      ensures bsa.score == ScoreAnimation.ScoreDefault && bsa.anim.fifoBuffer == []
      ensures frames == 0 && nextUpdate == 0 && needUpdateFlag
    {
      this.bm := bm;
      this.reader := reader;
      this.bsa := bsa;
      frames := 0;
      needUpdateFlag := true;
      nextUpdate := 0;
      markText := "";
      progress := 0.0;
      new;
      var _ := bsa.Reset(None);
    }

    /** Nothing the redraw shows or schedules has changed, and neither has the animation or
        the reader's running flag. */
    ghost predicate Kept(markText0: string, progress0: real, need0: bool, next0: int, score0: int,
                         queue0: seq<ScoreAnimation.Frame>, running0: bool)
      reads this, bsa, bsa.anim, reader
    {
      && markText == markText0 && progress == progress0
      && needUpdateFlag == need0 && nextUpdate == next0
      && bsa.score == score0 && bsa.anim.fifoBuffer == queue0
      && reader.running == running0
    }

    /** The animation after the part of a redraw that may rescore: when `due`, the score has
        taken one std step from `score0` and the queue holds exactly the frames of that move;
        otherwise the score and the queue are as they were. */
    ghost predicate AnimationAfter(due: bool, score0: int, queue0: seq<ScoreAnimation.Frame>,
                                   mark: string, delayed: seq<HidReader.DelayedRow>, threshold: real)
      requires |delayed| > 0
      reads bsa, bsa.anim
    {
      if due then
        var pairs := SelectColumns(mark, delayed);
        && bsa.score == ScoreAnimation.SafeUpdate(score0, StdStep(pairs[|pairs| - 1].std, threshold))
        && ScoreAnimation.AllIndexable(ScoreAnimation.FrameScores(score0, bsa.score), bsa.gifLength)
        && bsa.anim.fifoBuffer == ScoreAnimation.BuildingFrames(score0, bsa.score, bsa.gifLength)
      else bsa.score == score0 && bsa.anim.fifoBuffer == queue0
    }

    /** `update_animation_score(avg, std)`: the animation's score after one step; the score
        itself is not changed here. */
    method UpdateAnimationScore(std: real, thresholdOfStd: real) returns (score: int)
      ensures score == ScoreAnimation.SafeUpdate(bsa.score, StdStep(std, thresholdOfStd))
      ensures ScoreAnimation.ScoreMin <= score <= ScoreAnimation.ScoreMax
    {
      var step := if std > thresholdOfStd then -10 else 10;
      score := bsa.SafeUpdateScore(step);
    }

    /** Show the mark and the progress of a 4-tuple report, and stop the reader once the
        timeline is exhausted. */
    method ShowReport(mark: string, ratio: real)
      requires Valid()
      modifies this`markText, this`progress, reader`running
      ensures Valid()
      ensures markText == mark && progress == 100.0 * (1.0 - ratio)
      ensures SessionFinished(mark) ==> !reader.running
      ensures !SessionFinished(mark) ==> reader.running == old(reader.running)
    {
      markText := mark;
      if SessionFinished(mark) {
        var _ := reader.Stop();
      }
      progress := 100.0 * (1.0 - ratio);
    }

    /** A due update: step the score by the last row's deviation and build the frames to the
        new score (the thread that builds them is run in place). */
    method Rescore(mark: string, delayed: seq<HidReader.DelayedRow>, opts: Options.RunningOptions)
      requires Valid() && |delayed| > 0
      modifies bsa`score, bsa.anim`fifoBuffer
      ensures Valid()
      ensures var pairs := SelectColumns(mark, delayed);
        && bsa.score == ScoreAnimation.SafeUpdate(old(bsa.score),
                          StdStep(pairs[|pairs| - 1].std, opts.thresholdOfStd))
        && bsa.anim.fifoBuffer ==
             ScoreAnimation.BuildingFrames(old(bsa.score), bsa.score, bsa.gifLength)
    {
      var pairs := SelectColumns(mark, delayed);
      var score := UpdateAnimationScore(pairs[|pairs| - 1].std, opts.thresholdOfStd);
      ScoreAnimation.GifBufferCoversScores(bsa.score, score);
      var _ := bsa.MkFrames(Some(score));
    }

    /** The part of `draw` after a 4-tuple report: show it, and on a due update rescore. */
    method React(mark: string, ratio: real, passed: real, delayed: seq<HidReader.DelayedRow>,
                 opts: Options.RunningOptions)
      requires Valid() && |delayed| > 0
      modifies this`markText, this`needUpdateFlag, this`nextUpdate, this`progress
      modifies bsa`score, bsa.anim`fifoBuffer, reader`running
      ensures Valid()
      ensures markText == mark && progress == 100.0 * (1.0 - ratio)
      ensures SessionFinished(mark) ==> !reader.running
      ensures !SessionFinished(mark) ==> reader.running == old(reader.running)
      ensures (needUpdateFlag, nextUpdate) == Schedule(passed, old(nextUpdate))
      ensures AnimationAfter(needUpdateFlag, old(bsa.score), old(bsa.anim.fifoBuffer), mark, delayed,
                             opts.thresholdOfStd)
    {
      ShowReport(mark, ratio);
      needUpdateFlag := passed > nextUpdate as real;
      if needUpdateFlag {
        nextUpdate := nextUpdate + UpdateStep;
        Rescore(mark, delayed, opts);
      }
    }

    /** The part of `draw` once both buffers hold rows: consume the timeline at `passed`, the
        time of the latest sample, and react to a 4-tuple report. */
    method Advance(passed: real, delayed: seq<HidReader.DelayedRow>, opts: Options.RunningOptions)
      returns (outcome: DrawOutcome)
      requires Valid() && |delayed| > 0
      modifies bm, this`markText, this`needUpdateFlag, this`nextUpdate, this`progress
      modifies bsa`score, bsa.anim`fifoBuffer, reader`running
      ensures Valid() && outcome != NoData
      ensures var spec := Blocks.ConsumeSpec(old(bm.emptyDesignFlag), old(bm.blocks), old(bm.total),
                                             passed);
        && bm.blocks == spec.1
        && (outcome == Raised <==> !spec.0.Progress?)
        && (outcome == Raised ==>
              && Kept(old(markText), old(progress), old(needUpdateFlag), old(nextUpdate),
                      old(bsa.score), old(bsa.anim.fifoBuffer), old(reader.running)))
        && (outcome == Drawn ==>
              && markText == spec.0.mark && progress == 100.0 * (1.0 - spec.0.ratio)
              && (SessionFinished(spec.0.mark) ==> !reader.running)
              && (!SessionFinished(spec.0.mark) ==> reader.running == old(reader.running))
              && (needUpdateFlag, nextUpdate) == Schedule(passed, old(nextUpdate))
              && AnimationAfter(needUpdateFlag, old(bsa.score), old(bsa.anim.fifoBuffer), spec.0.mark,
                                delayed, opts.thresholdOfStd))
    {
      ghost var spec := Blocks.ConsumeSpec(bm.emptyDesignFlag, bm.blocks, bm.total, passed);
      var r := bm.Consume(passed);
      assert r == spec.0 && bm.blocks == spec.1;
      if !r.Progress? {
        return Raised;
      }
      React(r.mark, r.ratio, passed, delayed, opts);
      outcome := Drawn;
    }

    /** `draw`, with the options `opts` in force: peek at the latest samples and delayed rows,
        return if either is empty, and consume the timeline at the latest sample's time. A
        3-tuple report cannot be unpacked, and a zero-length design divides by zero: both
        raise. The image, the LCDs and the legend are left out. */
    method Draw(opts: Options.RunningOptions) returns (outcome: DrawOutcome)
      requires Valid()
      modifies this`frames, this`markText, this`needUpdateFlag, this`nextUpdate, this`progress
      modifies bm, bsa`score, bsa.anim`fifoBuffer, reader`running
      ensures Valid()
      ensures frames == old(frames) + 1
      ensures var len := PeekLength(opts.delayedLength);
        var data := old(reader.PeekBySeconds(len));
        var delayed := old(reader.PeekDelayedBySeconds(len));
        && (outcome == NoData <==> data == [] || delayed == [])
        && (outcome == NoData ==>
              && bm.blocks == old(bm.blocks) && bm.total == old(bm.total)
              && bm.emptyDesignFlag == old(bm.emptyDesignFlag)
              && Kept(old(markText), old(progress), old(needUpdateFlag), old(nextUpdate),
                      old(bsa.score), old(bsa.anim.fifoBuffer), old(reader.running)))
        && (outcome != NoData ==>
              var spec := Blocks.ConsumeSpec(old(bm.emptyDesignFlag), old(bm.blocks), old(bm.total),
                                             data[|data| - 1].t);
              && bm.blocks == spec.1
              && (outcome == Raised <==> !spec.0.Progress?)
              && (outcome == Raised ==>
                    && Kept(old(markText), old(progress), old(needUpdateFlag), old(nextUpdate),
                            old(bsa.score), old(bsa.anim.fifoBuffer), old(reader.running)))
              && (outcome == Drawn ==>
                    && markText == spec.0.mark && progress == 100.0 * (1.0 - spec.0.ratio)
                    && (SessionFinished(spec.0.mark) ==> !reader.running)
                    && (!SessionFinished(spec.0.mark) ==> reader.running == old(reader.running))
                    && (needUpdateFlag, nextUpdate) == Schedule(data[|data| - 1].t, old(nextUpdate))
                    && AnimationAfter(needUpdateFlag, old(bsa.score), old(bsa.anim.fifoBuffer),
                                      spec.0.mark, delayed, opts.thresholdOfStd)))
    {
      // The source raises the count first; nothing before the end of the redraw reads it.
      var len := PeekLength(opts.delayedLength);
      var data := reader.PeekBySeconds(len);
      var delayed := reader.PeekDelayedBySeconds(len);
      if |data| == 0 || |delayed| == 0 {
        outcome := NoData;
      } else {
        outcome := Advance(data[|data| - 1].t, delayed, opts);
      }
      frames := frames + 1;
    }
  }

  /** `TwoStepsScoreAnimationScreen`: the block timeline, the reader and a two-step animation. */
  class TwoStepsScreen {
    var frames: int
    var needUpdateFlag: bool
    var nextUpdate: int
    var markText: string
    var progress: real
    const bm: Blocks.BlockManager
    const reader: HidReader.RealTimeHIDReader
    const tssa: Scorer.TwoStepAnimation

    ghost predicate Valid()
      reads this, bm, reader, reader.fake, tssa, tssa.scorer
    {
      bm.Valid() && reader.Valid() && tssa.Valid()
    }

    /** `__init__`: the animation is reset (empty queue, initial scores) and the schedule
        starts at 0. */
    constructor (bm: Blocks.BlockManager, reader: HidReader.RealTimeHIDReader,
                 tssa: Scorer.TwoStepAnimation)
      requires bm.Valid() && reader.Valid()
      modifies tssa.anim, tssa.scorer
      ensures Valid() && this.bm == bm && this.reader == reader && this.tssa == tssa
      ensures tssa.scorer.CurrentState() == Scorer.InitialState && tssa.anim.fifoBuffer == []
      ensures frames == 0 && nextUpdate == 0 && needUpdateFlag
    {
      this.bm := bm;
      this.reader := reader;
      this.tssa := tssa;
      frames := 0;
      needUpdateFlag := true;
      nextUpdate := 0;
      markText := "";
      progress := 0.0;
      new;
      tssa.Reset();
    }

    /** Nothing the redraw shows or schedules has changed, and neither has the scorer, the
        queue, the lock or the reader's running flag. */
    ghost predicate Kept(markText0: string, progress0: real, need0: bool, next0: int, locked0: bool,
                         state0: Scorer.ScorerState, params0: Scorer.Params,
                         queue0: seq<Scorer.Frame>, running0: bool)
      reads this, tssa, tssa.scorer, tssa.anim, reader
    {
      && markText == markText0 && progress == progress0
      && needUpdateFlag == need0 && nextUpdate == next0
      && tssa.updateScoreLocked == locked0
      && tssa.scorer.CurrentState() == state0 && tssa.scorer.CurrentParams() == params0
      && tssa.anim.fifoBuffer == queue0
      && reader.running == running0
    }

    /** The scorer and the queue after the part of a redraw that may rescore. When `due`, the
        options' reference and thresholds are in the scorer; then, unless the animation was
        locked, the scorer has moved on the selected rows and the move's frames are queued,
        and while locked both are as they were. When not due nothing changed. The lock is
        as it was either way. */
    ghost predicate AnimationAfter(due: bool, locked0: bool, state0: Scorer.ScorerState,
                                   params0: Scorer.Params, queue0: seq<Scorer.Frame>, mark: string,
                                   delayed: seq<HidReader.DelayedRow>, opts: Options.RunningOptions)
      reads tssa, tssa.scorer, tssa.anim
    {
      && tssa.updateScoreLocked == locked0
      && if due then
        && tssa.scorer.CurrentParams() ==
             Scorer.Params(opts.yReference, opts.thresholdOfMean, opts.thresholdOfStd)
        && (locked0 ==> tssa.scorer.CurrentState() == state0 && tssa.anim.fifoBuffer == queue0)
        && (!locked0 ==>
              && tssa.scorer.CurrentState() ==
                   Scorer.UpdateSpec(state0, tssa.scorer.CurrentParams(), Some(SelectColumns(mark, delayed)))
              && tssa.anim.fifoBuffer ==
                   queue0 + Scorer.FramesFor(tssa.skin, state0, tssa.scorer.CurrentState(), mark))
      else
        && tssa.scorer.CurrentState() == state0 && tssa.scorer.CurrentParams() == params0
        && tssa.anim.fifoBuffer == queue0
    }

    /** Show the mark and the progress of a 4-tuple report, and stop the reader once the
        timeline is exhausted. */
    method ShowReport(mark: string, ratio: real)
      requires Valid()
      modifies this`markText, this`progress, reader`running
      ensures Valid()
      ensures markText == mark && progress == 100.0 * (1.0 - ratio)
      ensures SessionFinished(mark) ==> !reader.running
      ensures !SessionFinished(mark) ==> reader.running == old(reader.running)
    {
      markText := mark;
      if SessionFinished(mark) {
        var _ := reader.Stop();
      }
      progress := 100.0 * (1.0 - ratio);
    }

    /** A due update: copy the thresholds and the reference from the options into the scorer
        and score the selected rows (the thread that scores them is run in place). */
    method Rescore(mark: string, delayed: seq<HidReader.DelayedRow>, opts: Options.RunningOptions)
      requires Valid()
      modifies tssa`updateScoreLocked, tssa.scorer, tssa.anim`fifoBuffer
      ensures Valid()
      ensures tssa.scorer.CurrentParams() ==
        Scorer.Params(opts.yReference, opts.thresholdOfMean, opts.thresholdOfStd)
      ensures !old(tssa.updateScoreLocked) ==>
        && tssa.scorer.CurrentState() ==
             Scorer.UpdateSpec(old(tssa.scorer.CurrentState()), tssa.scorer.CurrentParams(),
                               Some(SelectColumns(mark, delayed)))
        && tssa.anim.fifoBuffer == old(tssa.anim.fifoBuffer) +
             Scorer.FramesFor(tssa.skin, old(tssa.scorer.CurrentState()),
                              tssa.scorer.CurrentState(), mark)
      ensures old(tssa.updateScoreLocked) ==>
        tssa.scorer.CurrentState() == old(tssa.scorer.CurrentState())
        && tssa.anim.fifoBuffer == old(tssa.anim.fifoBuffer)
      ensures tssa.updateScoreLocked == old(tssa.updateScoreLocked)
    {
      tssa.scorer.meanThreshold := opts.thresholdOfMean;
      tssa.scorer.stdThreshold := opts.thresholdOfStd;
      tssa.scorer.refValue := opts.yReference;
      tssa.UpdateScore(Some(SelectColumns(mark, delayed)), mark);
    }

    /** The part of `draw` after a 4-tuple report: show it, and on a due update rescore. */
    method React(mark: string, ratio: real, passed: real, delayed: seq<HidReader.DelayedRow>,
                 opts: Options.RunningOptions)
      requires Valid()
      modifies this`markText, this`needUpdateFlag, this`nextUpdate, this`progress
      modifies tssa`updateScoreLocked, tssa.scorer, tssa.anim`fifoBuffer, reader`running
      ensures Valid()
      ensures markText == mark && progress == 100.0 * (1.0 - ratio)
      ensures SessionFinished(mark) ==> !reader.running
      ensures !SessionFinished(mark) ==> reader.running == old(reader.running)
      ensures (needUpdateFlag, nextUpdate) == Schedule(passed, old(nextUpdate))
      ensures AnimationAfter(needUpdateFlag, old(tssa.updateScoreLocked), old(tssa.scorer.CurrentState()),
                             old(tssa.scorer.CurrentParams()), old(tssa.anim.fifoBuffer), mark, delayed, opts)
    {
      ShowReport(mark, ratio);
      needUpdateFlag := passed > nextUpdate as real;
      if needUpdateFlag {
        nextUpdate := nextUpdate + UpdateStep;
        Rescore(mark, delayed, opts);
      }
    }

    /** The part of `draw` once both buffers hold rows: consume the timeline at `passed`, the
        time of the latest sample, and react to a 4-tuple report. */
    method Advance(passed: real, delayed: seq<HidReader.DelayedRow>, opts: Options.RunningOptions)
      returns (outcome: DrawOutcome)
      requires Valid() && |delayed| > 0
      modifies bm, this`markText, this`needUpdateFlag, this`nextUpdate, this`progress
      modifies tssa`updateScoreLocked, tssa.scorer, tssa.anim`fifoBuffer, reader`running
      ensures Valid() && outcome != NoData
      ensures var spec := Blocks.ConsumeSpec(old(bm.emptyDesignFlag), old(bm.blocks), old(bm.total),
                                             passed);
        && bm.blocks == spec.1
        && (outcome == Raised <==> !spec.0.Progress?)
        && (outcome == Raised ==>
              && Kept(old(markText), old(progress), old(needUpdateFlag), old(nextUpdate),
                      old(tssa.updateScoreLocked), old(tssa.scorer.CurrentState()),
                      old(tssa.scorer.CurrentParams()), old(tssa.anim.fifoBuffer), old(reader.running)))
        && (outcome == Drawn ==>
              && markText == spec.0.mark && progress == 100.0 * (1.0 - spec.0.ratio)
              && (SessionFinished(spec.0.mark) ==> !reader.running)
              && (!SessionFinished(spec.0.mark) ==> reader.running == old(reader.running))
              && (needUpdateFlag, nextUpdate) == Schedule(passed, old(nextUpdate))
              && AnimationAfter(needUpdateFlag, old(tssa.updateScoreLocked), old(tssa.scorer.CurrentState()),
                                old(tssa.scorer.CurrentParams()), old(tssa.anim.fifoBuffer), spec.0.mark,
                                delayed, opts))
    {
      ghost var spec := Blocks.ConsumeSpec(bm.emptyDesignFlag, bm.blocks, bm.total, passed);
      var r := bm.Consume(passed);
      assert r == spec.0 && bm.blocks == spec.1;
      if !r.Progress? {
        return Raised;
      }
      React(r.mark, r.ratio, passed, delayed, opts);
      outcome := Drawn;
    }

    /** `draw`, with the options `opts` in force; as for the building screen. */
    method Draw(opts: Options.RunningOptions) returns (outcome: DrawOutcome)
      requires Valid()
      modifies this`frames, this`markText, this`needUpdateFlag, this`nextUpdate, this`progress
      modifies bm, tssa`updateScoreLocked, tssa.scorer, tssa.anim`fifoBuffer, reader`running
      ensures Valid()
      ensures frames == old(frames) + 1
      ensures var len := PeekLength(opts.delayedLength);
        var data := old(reader.PeekBySeconds(len));
        var delayed := old(reader.PeekDelayedBySeconds(len));
        && (outcome == NoData <==> data == [] || delayed == [])
        && (outcome == NoData ==>
              && bm.blocks == old(bm.blocks) && bm.total == old(bm.total)
              && bm.emptyDesignFlag == old(bm.emptyDesignFlag)
              && Kept(old(markText), old(progress), old(needUpdateFlag), old(nextUpdate),
                      old(tssa.updateScoreLocked), old(tssa.scorer.CurrentState()),
                      old(tssa.scorer.CurrentParams()), old(tssa.anim.fifoBuffer), old(reader.running)))
        && (outcome != NoData ==>
              var spec := Blocks.ConsumeSpec(old(bm.emptyDesignFlag), old(bm.blocks), old(bm.total),
                                             data[|data| - 1].t);
              && bm.blocks == spec.1
              && (outcome == Raised <==> !spec.0.Progress?)
              && (outcome == Raised ==>
                    && Kept(old(markText), old(progress), old(needUpdateFlag), old(nextUpdate),
                            old(tssa.updateScoreLocked), old(tssa.scorer.CurrentState()),
                            old(tssa.scorer.CurrentParams()), old(tssa.anim.fifoBuffer), old(reader.running)))
              && (outcome == Drawn ==>
                    && markText == spec.0.mark && progress == 100.0 * (1.0 - spec.0.ratio)
                    && (SessionFinished(spec.0.mark) ==> !reader.running)
                    && (!SessionFinished(spec.0.mark) ==> reader.running == old(reader.running))
                    && (needUpdateFlag, nextUpdate) == Schedule(data[|data| - 1].t, old(nextUpdate))
                    && AnimationAfter(needUpdateFlag, old(tssa.updateScoreLocked),
                                      old(tssa.scorer.CurrentState()), old(tssa.scorer.CurrentParams()),
                                      old(tssa.anim.fifoBuffer), spec.0.mark, delayed, opts)))
    {
      // The source raises the count first; nothing before the end of the redraw reads it.
      var len := PeekLength(opts.delayedLength);
      var data := reader.PeekBySeconds(len);
      var delayed := reader.PeekDelayedBySeconds(len);
      if |data| == 0 || |delayed| == 0 {
        outcome := NoData;
      } else {
        outcome := Advance(data[|data| - 1].t, delayed, opts);
      }
      frames := frames + 1;
    }
  }
}

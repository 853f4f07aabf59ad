/** The two-step scorer and the two animations built on it. Step one watches the mean of the
    delayed window against the reference; once the mean is close enough, step two moves a
    bounded score up or down by 10 according to the window's standard deviation. */
module Scorer {
  import opened PyLib
  import Animation
  import Options
  import Blocks

  /** `'1st'` and `'2nd'`. */
  datatype Phase = First | Second

  /** `get_current_state()`: the state name and the two scores. */
  datatype ScorerState = ScorerState(state: Phase, score1: real, score2: int)

  /** The three attributes the update reads. */
  datatype Params = Params(refValue: real, meanThreshold: real, stdThreshold: real)

  /** One row of the delayed statistics handed to the scorer: `(mean, std, timestamp)`. */
  datatype StatRow = StatRow(mean: real, std: real, t: real)

  const Score2Min: int := 0
  const Score2Max: int := 100
  const Score2Step: int := 10
  const InitialState: ScorerState := ScorerState(First, 0.0, 0)

  function Abs(x: real): real
  {
    if x < 0.0 then -x else x
  }

  /** `score_2nd` is a multiple of 10 in [0, 100], and it is 0 throughout step one. */
  ghost predicate Inv(s: ScorerState)
  {
    && Score2Min <= s.score2 <= Score2Max && s.score2 % Score2Step == 0
    && (s.state == First ==> s.score2 == 0)
  }

  /** `_update_score` on the row `(mean, std)`, as a function of the state before it. */
  function Step(s: ScorerState, p: Params, mean: real, std: real): ScorerState
  {
    var score := mean - p.refValue;
    if s.state == First then
      var limited := ClampInt(s.score2, Score2Min, Score2Max);
      if Abs(score) < p.meanThreshold then ScorerState(Second, score, 0)
      else ScorerState(First, score, limited)
    else if Abs(mean - p.refValue) > p.meanThreshold then
      ScorerState(First, score, ClampInt(0, Score2Min, Score2Max))
    else
      var moved := s.score2 + (if std < p.stdThreshold then Score2Step else -Score2Step);
      ScorerState(Second, score, ClampInt(moved, Score2Min, Score2Max))
  }

  /** `_update_score(data)`: no data or an empty list changes nothing; otherwise only the last
      row is used. */
  function UpdateSpec(s: ScorerState, p: Params, data: Option<seq<StatRow>>): ScorerState
  {
    if data.None? || data.value == [] then s
    else Step(s, p, data.value[|data.value| - 1].mean, data.value[|data.value| - 1].std)
  }

  lemma InitialStateIsValid()
    ensures Inv(InitialState)
  {
  }

  /** Every update keeps the score invariant. */
  lemma StepPreservesInv(s: ScorerState, p: Params, mean: real, std: real)
    requires Inv(s)
    ensures Inv(Step(s, p, mean, std))
  {
    var r := Step(s, p, mean, std);
    if s.state == Second && Abs(mean - p.refValue) <= p.meanThreshold {
      var moved := s.score2 + (if std < p.stdThreshold then Score2Step else -Score2Step);
      assert moved % Score2Step == 0;
      assert r.score2 == moved || r.score2 == 0 || r.score2 == 100;
    }
  }

  lemma UpdatePreservesInv(s: ScorerState, p: Params, data: Option<seq<StatRow>>)
    requires Inv(s)
    ensures Inv(UpdateSpec(s, p, data))
  {
    if data.Some? && data.value != [] {
      var last := data.value[|data.value| - 1];
      StepPreservesInv(s, p, last.mean, last.std);
    }
  }

  /** `score_1st` is the signed deviation of the last mean from the reference, never clamped. */
  lemma Score1IsDeviation(s: ScorerState, p: Params, mean: real, std: real)
    ensures Step(s, p, mean, std).score1 == mean - p.refValue
  {
  }

  /** Step one promotes exactly when the deviation is strictly below the threshold, and the
      promotion starts step two from 0. */
  lemma PromotionRule(s: ScorerState, p: Params, mean: real, std: real)
    requires s.state == First
    ensures Step(s, p, mean, std).state == Second <==> Abs(mean - p.refValue) < p.meanThreshold
    ensures Step(s, p, mean, std).state == Second ==> Step(s, p, mean, std).score2 == 0
  {
  }

  /** Step two demotes exactly when the deviation is strictly above the threshold, resetting
      the score; at equality it stays in step two. */
  lemma DemotionRule(s: ScorerState, p: Params, mean: real, std: real)
    requires s.state == Second
    ensures Step(s, p, mean, std).state == First <==> Abs(mean - p.refValue) > p.meanThreshold
    ensures Step(s, p, mean, std).state == First ==> Step(s, p, mean, std).score2 == 0
  {
  }

  /** Without demotion, step two adds 10 when `std < std_threshold` (strictly), takes 10 away
      otherwise, and stays within [0, 100]. */
  lemma SecondStepMoves(s: ScorerState, p: Params, mean: real, std: real)
    requires Inv(s) && s.state == Second && Abs(mean - p.refValue) <= p.meanThreshold
    ensures var r := Step(s, p, mean, std);
      && r.state == Second
      && (std < p.stdThreshold ==> r.score2 == if s.score2 < Score2Max then s.score2 + 10 else Score2Max)
      && (std >= p.stdThreshold ==> r.score2 == if s.score2 > Score2Min then s.score2 - 10 else Score2Min)
  {
  }

  /** A diff exactly at the threshold neither promotes from step one nor demotes from step two. */
  lemma ThresholdIsStuck(s: ScorerState, p: Params, mean: real, std: real)
    requires Abs(mean - p.refValue) == p.meanThreshold
    ensures Step(s, p, mean, std).state == s.state
  {
  }

  /** The worked example: reference 400, thresholds 20 and 10. */
  lemma ScorerWalkthrough()
    ensures var p := Params(400.0, 20.0, 10.0);
      && var s1 := Step(InitialState, p, 420.0, 0.0);
      && s1 == ScorerState(First, 20.0, 0)
      && var s2 := Step(s1, p, 405.0, 0.0);
      && s2 == ScorerState(Second, 5.0, 0)
      && var s3 := Step(s2, p, 405.0, 5.0);
      && s3 == ScorerState(Second, 5.0, 10)
      && var s4 := Step(s3, p, 405.0, 15.0);
      && s4 == ScorerState(Second, 5.0, 0)
      && var s5 := Step(s4, p, 405.0, 15.0);
      && s5 == ScorerState(Second, 5.0, 0)
      && var s6 := Step(s5, p, 450.0, 5.0);
      && s6 == ScorerState(First, 50.0, 0)
  {
  }

  class TwoStepScorer {
    var refValue: real
    var meanThreshold: real
    var stdThreshold: real
    var state: Phase
    var score1: real
    var score2: int

    function CurrentState(): ScorerState
      reads this
    {
      ScorerState(state, score1, score2)
    }

    function CurrentParams(): Params
      reads this
    {
      Params(refValue, meanThreshold, stdThreshold)
    }

    ghost predicate Valid()
      reads this
    {
      Inv(CurrentState())
    }

    /** The class attributes (reference from the options, both thresholds 50), then
        `reset_scores`. */
    constructor ()
      ensures Valid() && CurrentState() == InitialState
      ensures CurrentParams() == Params(Options.Defaults.yReference, 50.0, 50.0)
    {
      refValue := Options.Defaults.yReference;
      meanThreshold := 50.0;
      stdThreshold := 50.0;
      state := First;
      score1 := 0.0;
      score2 := 0;
    }

    /** `reset_scores`: back to `('1st', 0, 0)`; the parameters are kept. */
    method ResetScores()
      modifies this`state, this`score1, this`score2
      ensures Valid() && CurrentState() == InitialState
    {
      state := First;
      score1 := 0.0;
      score2 := 0;
    }

    /** `_limit_scores`: clamp `score_2nd` into [0, 100] in place. */
    method LimitScores()
      modifies this`score2
      ensures score2 == ClampInt(old(score2), Score2Min, Score2Max)
    {
      var s := score2;
      s := if Score2Max < s then Score2Max else s;
      score2 := if Score2Min > s then Score2Min else s;
    }

    /** `_update_score(data)`: the new state is `UpdateSpec` of the old one, and it is
        also what is returned. */
    method UpdateScore(data: Option<seq<StatRow>>) returns (r: ScorerState)
      requires Valid()
      modifies this`state, this`score1, this`score2
      ensures Valid()
      ensures r == CurrentState() == UpdateSpec(old(CurrentState()), CurrentParams(), data)
    {
      ghost var before := CurrentState();
      UpdatePreservesInv(before, CurrentParams(), data);
      if data.None? || |data.value| == 0 {
        return CurrentState();
      }
      var mean := data.value[|data.value| - 1].mean;
      var std := data.value[|data.value| - 1].std;
      var score := mean - refValue;
      score1 := score;
      if state == First {
        LimitScores();
        if Abs(score) < meanThreshold {
          state := Second;
          score2 := 0;
        }
        return CurrentState();
      }
      if Abs(mean - refValue) > meanThreshold {
        score2 := 0;
        LimitScores();
        state := First;
      } else {
        if std < stdThreshold {
          score2 := score2 + Score2Step;
        } else {
          score2 := score2 - Score2Step;
        }
        LimitScores();
      }
      r := CurrentState();
    }
  }

  // ---------------------------------------------------------------------------
  // Frame selection of the two animations (the images themselves are left out)

  datatype Skin = CatClimbsTree | CatLeavesSubmarine

  /** A queued frame: the plain background of a hidden block, one of the step-two frames
      (by index into the loaded frame list), or a step-one picture drawn for a score. */
  datatype Frame = Backdrop | ClimbFrame(index: int) | PositionFrame(score: real)

  /** Both animations load 60 step-two frames. */
  const FrameCount: int := 60

  /** `int((n - 1) * score / 100)` with `n = len(images_2nd) - 1`. */
  function FrameIndex(score: real): int
  {
    Trunc((FrameCount - 2) as real * score / Score2Max as real)
  }

  /** A step-two score in [0, 100] always picks one of the loaded frames. */
  lemma FrameIndexInRange(score: real)
    requires 0.0 <= score <= Score2Max as real
    ensures 0 <= FrameIndex(score) <= FrameCount - 2
    ensures score == 0.0 ==> FrameIndex(score) == 0
    ensures score == Score2Max as real ==> FrameIndex(score) == FrameCount - 2
  {
    var x := (FrameCount - 2) as real * score / Score2Max as real;
    assert 0.0 <= x <= (FrameCount - 2) as real;
  }

  /** The k-th of the 11 evenly spaced scores from `a` to `b`. */
  function SweepAt(a: real, b: real, k: int): real
  {
    a + (b - a) * (k as real) / 10.0
  }

  /** The scores the frames are drawn for: the old score alone when nothing changed, otherwise
      11 evenly spaced values from the old score to the new one (`np.arange` with a tenth of
      the difference as its step, and its end half a step past the new score). */
  function Sweep(a: real, b: real): (r: seq<real>)
    ensures |r| == if a == b then 1 else 11
    ensures r[0] == a && r[|r| - 1] == b
  {
    if a == b then [a] else seq(11, k requires 0 <= k < 11 => SweepAt(a, b, k))
  }

  lemma ScaledBetween(d: real, f: real)
    requires d >= 0.0 && 0.0 <= f <= 1.0
    ensures 0.0 <= d * f <= d
  {
    assert d - d * f == d * (1.0 - f);
  }

  lemma SweepAtBetween(a: real, b: real, k: int)
    requires 0 <= k <= 10
    ensures a <= b ==> a <= SweepAt(a, b, k) <= b
    ensures b <= a ==> b <= SweepAt(a, b, k) <= a
  {
    var f := (k as real) / 10.0;
    var d := b - a;
    assert SweepAt(a, b, k) == a + d * f by {
      assert d * (k as real) / 10.0 == d * f;
    }
    if a == b {
      assert d * f == 0.0;
    } else if a < b {
      ScaledBetween(d, f);
      assert a <= a + d * f <= a + d;
    } else {
      ScaledBetween(-d, f);
      assert (-d) * f == -(d * f);
      assert a + d <= a + d * f <= a;
    }
  }

  /** Every swept score lies between the two ends. */
  lemma SweepBetween(a: real, b: real, k: int)
    requires 0 <= k < |Sweep(a, b)|
    ensures a <= b ==> a <= Sweep(a, b)[k] <= b
    ensures b <= a ==> b <= Sweep(a, b)[k] <= a
  {
    if a != b {
      SweepAtBetween(a, b, k);
    }
  }

  /** The CatLeavesSubmarine rule that keeps the submarine on one side: a step-one target of
      the opposite sign is mirrored. */
  function SameSideTarget(score1: real, score2: real): (r: real)
    ensures score1 * r >= 0.0 || score1 * score2 >= 0.0
    ensures score1 * score2 < 0.0 ==> r == -score2 && score1 * r > 0.0
    ensures score1 * score2 >= 0.0 ==> r == score2
  {
    if score1 * score2 < 0.0 then -score2 else score2
  }

  /** The block name that makes each animation show its background only, AS WRITTEN:
      CatClimbsTree tests `'+'`, CatLeavesSubmarine tests `'Hide'`. */
  function HideMarkerAsWritten(skin: Skin): string
  {
    if skin == CatClimbsTree then "+" else "Hide"
  }

  /** The block name both animations are handed for a hidden block: the screen passes the
      block manager's mark, which is `'+'` for a `Hide` block. */
  function HideMarker(skin: Skin): (m: string)
    ensures m == Blocks.MarkOf("Hide")
  {
    "+"
  }

  /** As written, the submarine never hides: no mark the block manager can report equals
      `'Hide'`, not even the mark of a `Hide` block. */
  lemma SubmarineNeverHidesAsWritten(name: string)
    ensures Blocks.MarkOf(name) != HideMarkerAsWritten(CatLeavesSubmarine)
    ensures HideMarkerAsWritten(CatLeavesSubmarine) !in
      {Blocks.EmptyDesignMark, Blocks.NotStartedMark, Blocks.BlockEmptyMark}
    ensures Blocks.MarkOf("Hide") != HideMarkerAsWritten(CatLeavesSubmarine)
  {
  }

  /** With the corrected marker, both animations hide exactly on the blocks named `Hide`. */
  lemma HidesExactlyOnHideBlocks(skin: Skin, name: string)
    ensures Blocks.MarkOf(name) == HideMarker(skin) <==> name == "Hide"
  {
  }

  /** The frames `mk_frames(state_before, state_after, block_name)` appends. */
  function FramesFor(skin: Skin, before: ScorerState, after: ScorerState, blockName: string)
    : seq<Frame>
  {
    if blockName == HideMarker(skin) then [Backdrop]
    else if after.state == Second then
      var scores := Sweep(before.score2 as real, after.score2 as real);
      seq(|scores|, k requires 0 <= k < |scores| => ClimbFrame(FrameIndex(scores[k])))
    else
      var target := if skin == CatLeavesSubmarine then SameSideTarget(before.score1, after.score1)
                    else after.score1;
      var scores := Sweep(before.score1, target);
      seq(|scores|, k requires 0 <= k < |scores| => PositionFrame(scores[k]))
  }

  /** Between valid states, the step-two frames always index the loaded frame list, and a
      hidden block yields exactly one background frame. */
  lemma FramesInRange(skin: Skin, before: ScorerState, after: ScorerState, blockName: string)
    requires Inv(before) && Inv(after)
    ensures blockName == HideMarker(skin) ==> FramesFor(skin, before, after, blockName) == [Backdrop]
    ensures forall f :: f in FramesFor(skin, before, after, blockName) && f.ClimbFrame? ==>
      0 <= f.index < FrameCount
  {
    var frames := FramesFor(skin, before, after, blockName);
    if blockName != HideMarker(skin) && after.state == Second {
      var scores := Sweep(before.score2 as real, after.score2 as real);
      forall k | 0 <= k < |scores| ensures 0 <= FrameIndex(scores[k]) < FrameCount {
        SweepBetween(before.score2 as real, after.score2 as real, k);
        FrameIndexInRange(scores[k]);
      }
    }
  }

  /** The submarine's step-one frames never cross the zero line. */
  lemma SubmarineStaysOnOneSide(before: ScorerState, after: ScorerState, blockName: string)
    requires after.state == First && blockName != HideMarker(CatLeavesSubmarine)
    ensures forall f :: f in FramesFor(CatLeavesSubmarine, before, after, blockName) ==>
      f.PositionFrame? && before.score1 * f.score >= 0.0
  {
    var target := SameSideTarget(before.score1, after.score1);
    var scores := Sweep(before.score1, target);
    assert before.score1 * target >= 0.0;
    forall k | 0 <= k < |scores| ensures before.score1 * scores[k] >= 0.0 {
      SweepBetween(before.score1, target, k);
      if before.score1 >= 0.0 {
        assert target >= 0.0 || before.score1 == 0.0;
      } else {
        assert target <= 0.0;
      }
    }
  }

  /** `TwoStepScore_Animation_CatClimbsTree` / `..._CatLeavesSubmarine`: a scorer and a frame
      queue, with the lock flag of `update_score`. */
  class TwoStepAnimation {
    const skin: Skin
    const scorer: TwoStepScorer
    const anim: Animation.AutomaticAnimation<Frame>
    var updateScoreLocked: bool

    ghost predicate Valid()
      reads this, scorer
    {
      scorer.Valid()
    }

    constructor (skin: Skin)
      ensures Valid() && this.skin == skin && fresh(scorer) && fresh(anim)
      ensures scorer.CurrentState() == InitialState && anim.fifoBuffer == [] && !updateScoreLocked
    {
      this.skin := skin;
      scorer := new TwoStepScorer();
      anim := new Animation.AutomaticAnimation(Backdrop);
      updateScoreLocked := false;
    }

    /** `reset`: empty the queue and reset the scores. */
    method Reset()
      modifies anim`fifoBuffer, scorer`state, scorer`score1, scorer`score2
      ensures Valid()
      ensures anim.fifoBuffer == [] && scorer.CurrentState() == InitialState
    {
      anim.fifoBuffer := [];
      scorer.ResetScores();
    }

    /** `mk_frames`: append the frames for the move from `before` to `after`. The animating
        thread it starts afterwards is left out, so the frames stay queued. */
    method MkFrames(before: ScorerState, after: ScorerState, blockName: string)
      modifies anim`fifoBuffer
      ensures anim.fifoBuffer == old(anim.fifoBuffer) + FramesFor(skin, before, after, blockName)
    {
      var frames := FramesFor(skin, before, after, blockName);
      anim.fifoBuffer := anim.fifoBuffer + frames;
    }

    /** `update_score(data, block_name)`: refused while locked; otherwise, under the lock, the
        scorer moves (or keeps its state when `data` is None) and the frames are queued. */
    method UpdateScore(data: Option<seq<StatRow>>, blockName: string)
      requires Valid()
      modifies this`updateScoreLocked, scorer`state, scorer`score1, scorer`score2, anim`fifoBuffer
      ensures Valid()
      ensures old(updateScoreLocked) ==>
        && updateScoreLocked && scorer.CurrentState() == old(scorer.CurrentState())
        && anim.fifoBuffer == old(anim.fifoBuffer)
      ensures !old(updateScoreLocked) ==>
        && !updateScoreLocked
        && scorer.CurrentState() == UpdateSpec(old(scorer.CurrentState()), scorer.CurrentParams(), data)
        && anim.fifoBuffer == old(anim.fifoBuffer) +
             FramesFor(skin, old(scorer.CurrentState()), scorer.CurrentState(), blockName)
      ensures scorer.CurrentParams() == old(scorer.CurrentParams())
      ensures anim.img == old(anim.img) && anim.animatingFlag == old(anim.animatingFlag)
    {
      if updateScoreLocked {
        return;
      }
      updateScoreLocked := true;
      var before := scorer.CurrentState();
      var after := before;
      if data.Some? {
        after := scorer.UpdateScore(data);
      }
      MkFrames(before, after, blockName);
      updateScoreLocked := false;
    }
  }
}

/** The building animation: an integer score in [0, 100] and, for a move to a new score, one
    queued frame per integer score on the way, each showing a frame of the building gif. */
module ScoreAnimation {
  import opened PyLib
  import Animation

  const ScoreMax: int := 100
  const ScoreMin: int := 0
  const ScoreDefault: int := 50

  /** `parse_gif` keeps `range(100)` frames: one too few for a score of 100. */
  const GifFramesAsWritten: int := 100
  /** One gif frame per score in [0, 100]. */
  const GifFrames: int := ScoreMax - ScoreMin + 1

  /** A queued frame: gif frame number `gifFrame`, captioned with the score `shown` on the way
      to `target` (the text `-- 得分 shown | target --` and a bar `shown / 100` wide). */
  datatype Frame = Blank | BuildingFrame(gifFrame: int, shown: int, target: int)

  /** `safe_update_score(step)`: the score after a step, kept inside [0, 100]. */
  function SafeUpdate(score: int, step: int): (r: int)
    ensures ScoreMin <= r <= ScoreMax
    ensures ScoreMin <= score + step <= ScoreMax ==> r == score + step
    ensures score + step > ScoreMax ==> r == ScoreMax
    ensures score + step < ScoreMin ==> r == ScoreMin
  {
    var s := if score + step < ScoreMax then score + step else ScoreMax;
    if s > ScoreMin then s else ScoreMin
  }

  /** Python's `range(start, stop, step)` for a step of 1 or -1. */
  function PyRange(start: int, stop: int, step: int): (r: seq<int>)
    requires step == 1 || step == -1
  {
    var count := (stop - start) * step;
    seq(if count > 0 then count else 0, k requires 0 <= k => start + k * step)
  }

  /** The scores `mk_frames` walks through: `range(old, new + sign(step), step)` with a step of
      1 upwards and -1 otherwise. */
  function FrameScores(from: int, to: int): seq<int>
  {
    var step := if from < to then 1 else -1;
    PyRange(from, to + step, step)
  }

  /** The walk is inclusive at both ends, has one score per integer between them, and moves by
      exactly one each time. */
  lemma FrameScoresShape(from: int, to: int)
    ensures var r := FrameScores(from, to);
      && |r| == (if from <= to then to - from else from - to) + 1
      && r[0] == from && r[|r| - 1] == to
      && (forall k :: 0 <= k < |r| ==> r[k] == if from < to then from + k else from - k)
      && (forall k :: 0 <= k < |r| - 1 ==> r[k + 1] - r[k] == if from < to then 1 else -1)
      && (from == to ==> r == [from])
  {
    var r := FrameScores(from, to);
    if from < to {
      assert |r| == to + 1 - from;
      forall k | 0 <= k < |r| ensures r[k] == from + k {
        assert r[k] == from + k * 1;
      }
    } else {
      assert |r| == from - to + 1;
      forall k | 0 <= k < |r| ensures r[k] == from - k {
        assert r[k] == from + k * -1;
      }
    }
  }

  /** Every score on the walk lies between its two ends. */
  lemma FrameScoresBetween(from: int, to: int, k: int)
    requires 0 <= k < |FrameScores(from, to)|
    ensures from <= to ==> from <= FrameScores(from, to)[k] <= to
    ensures to <= from ==> to <= FrameScores(from, to)[k] <= from
  {
    FrameScoresShape(from, to);
  }

  /** Python accepts `buffer[s]` exactly for `-len <= s < len`. */
  predicate Indexable(s: int, len: int)
  {
    -len <= s < len
  }

  predicate AllIndexable(scores: seq<int>, len: int)
  {
    forall k :: 0 <= k < |scores| ==> Indexable(scores[k], len)
  }

  /** The gif frame `gif_buffer[s]` holds: entry `j` is the gif seeked to `int(j / 2) + 1`, and
      a negative `s` counts from the end. */
  function GifFrameOf(s: int, len: int): (g: int)
    requires Indexable(s, len)
    ensures 1 <= g
  {
    var j := if s < 0 then s + len else s;
    j / 2 + 1
  }

  /** The frames of a walk from `from` to `to`, for a gif buffer of `len` entries. */
  function BuildingFrames(from: int, to: int, len: int): (r: seq<Frame>)
    requires AllIndexable(FrameScores(from, to), len)
    ensures |r| == |FrameScores(from, to)|
  {
    var scores := FrameScores(from, to);
    seq(|scores|, k requires 0 <= k < |scores| =>
      BuildingFrame(GifFrameOf(scores[k], len), scores[k], to))
  }

  /** The longest prefix of the walk whose scores index a buffer of `len` entries. */
  function IndexablePrefix(scores: seq<int>, len: int): (n: nat)
    ensures n <= |scores|
    ensures forall k :: 0 <= k < n ==> Indexable(scores[k], len)
    ensures n < |scores| ==> !Indexable(scores[n], len)
    ensures n == |scores| <==> AllIndexable(scores, len)
  {
    if scores == [] then 0
    else if !Indexable(scores[0], len) then 0
    else 1 + IndexablePrefix(scores[1..], len)
  }

  /** The frames made before the walk reaches a score the buffer cannot index. */
  function FramesUntilError(from: int, to: int, len: int): (r: seq<Frame>)
    ensures |r| == IndexablePrefix(FrameScores(from, to), len)
  {
    var scores := FrameScores(from, to);
    var n := IndexablePrefix(scores, len);
    seq(n, k requires 0 <= k < n => BuildingFrame(GifFrameOf(scores[k], len), scores[k], to))
  }

  /** AS WRITTEN: with 100 gif frames, the move the screen makes from 90 to the clamped score
      100 reaches `gif_buffer[100]`, which raises. */
  lemma GifBufferTooShortAsWritten()
    ensures SafeUpdate(90, 10) == ScoreMax
    ensures FrameScores(90, SafeUpdate(90, 10))[10] == 100
    ensures !Indexable(100, GifFramesAsWritten)
    ensures !AllIndexable(FrameScores(90, SafeUpdate(90, 10)), GifFramesAsWritten)
    ensures IndexablePrefix(FrameScores(90, 100), GifFramesAsWritten) == 10
  {
    FrameScoresShape(90, 100);
    var r := FrameScores(90, 100);
    assert !Indexable(r[10], GifFramesAsWritten);
    assert IndexablePrefix(r[10..], GifFramesAsWritten) == 0;
    assert r[1..][9..] == r[10..];
    assert IndexablePrefix(r[9..], GifFramesAsWritten) == 1;
  }

  /** With one gif frame per score, every move between scores in [0, 100] stays in range. */
  lemma GifBufferCoversScores(from: int, to: int)
    requires ScoreMin <= from <= ScoreMax && ScoreMin <= to <= ScoreMax
    ensures AllIndexable(FrameScores(from, to), GifFrames)
  {
    forall k | 0 <= k < |FrameScores(from, to)|
      ensures Indexable(FrameScores(from, to)[k], GifFrames)
    {
      FrameScoresBetween(from, to, k);
    }
  }

  class BuildingScoreAnimation {
    var score: int
    const gifLength: int
    const anim: Animation.AutomaticAnimation<Frame>

    /** Construction loads the gif (one frame per score) and then calls `reset()`. */
    constructor ()
      ensures score == ScoreDefault && gifLength == GifFrames
      ensures fresh(anim) && anim.fifoBuffer == [] && !anim.animatingFlag
    {
      score := ScoreDefault;
      gifLength := GifFrames;
      anim := new Animation.AutomaticAnimation(Blank);
    }

    /** `reset(score)`: the default score, or the given one unclamped, and no queued frames. */
    method Reset(s: Option<int>) returns (r: int)
      modifies this`score, anim`fifoBuffer
      ensures r == score && score == (if s.None? then ScoreDefault else s.value)
      ensures anim.fifoBuffer == []
    {
      score := if s.None? then ScoreDefault else s.value;
      anim.fifoBuffer := [];
      r := score;
    }

    /** `pop_all`: hand over the queued frames in order and empty the queue. */
    method PopAll() returns (frames: seq<Frame>)
      modifies anim`fifoBuffer
      ensures frames == old(anim.fifoBuffer) && anim.fifoBuffer == []
    {
      frames := anim.fifoBuffer;
      anim.fifoBuffer := [];
    }

    /** `safe_update_score(step)`: reads the score, does not change it. */
    method SafeUpdateScore(step: int) returns (r: int)
      ensures r == SafeUpdate(score, step)
    {
      r := score + step;
      r := if r < ScoreMax then r else ScoreMax;
      r := if r > ScoreMin then r else ScoreMin;
    }

    /** `mk_frames(score)`: drop what is queued, then queue one frame per score from the current
        one to the target (the current one when None) and take the target as the new score.
        A score the gif buffer cannot index raises: the frames made so far stay queued and
        the score is kept. The animating thread started afterwards is left out. */
    method MkFrames(target: Option<int>) returns (ok: bool)
      modifies this`score, anim`fifoBuffer
      ensures var to := if target.None? then old(score) else target.value;
        && (ok <==> AllIndexable(FrameScores(old(score), to), gifLength))
        && anim.fifoBuffer == FramesUntilError(old(score), to, gifLength)
        && (ok ==> anim.fifoBuffer == BuildingFrames(old(score), to, gifLength) && score == to)
        && (!ok ==> score == old(score))
    {
      var from := score;
      var to := if target.None? then from else target.value;
      var step := if from < to then 1 else -1;
      ghost var scores := FrameScores(from, to);
      ghost var n := IndexablePrefix(scores, gifLength);
      ghost var made := FramesUntilError(from, to, gifLength);
      FrameScoresShape(from, to);
      var count := if from < to then to - from + 1 else from - to + 1;
      anim.fifoBuffer := [];
      var k := 0;
      while k < count
        invariant 0 <= k <= count && count == |scores|
        invariant k <= n && score == from
        invariant anim.fifoBuffer == made[..k]
      {
        var s := from + k * step;
        assert s == scores[k] by {
          if from < to { assert k * step == k; } else { assert k * step == -k; }
        }
        if !Indexable(s, gifLength) {
          assert k == n;
          assert made[..k] == made;
          return false;
        }
        PrefixSnoc(made, k);
        anim.fifoBuffer := anim.fifoBuffer + [BuildingFrame(GifFrameOf(s, gifLength), s, to)];
        k := k + 1;
      }
      assert made[..k] == made;
      score := to;
      ok := true;
    }

    /** A move between scores in [0, 100] always completes. */
    method MkFramesInRange(target: int) returns (ok: bool)
      requires ScoreMin <= score <= ScoreMax && ScoreMin <= target <= ScoreMax
      modifies this`score, anim`fifoBuffer
      ensures gifLength == GifFrames ==>
        ok && score == target && anim.fifoBuffer == BuildingFrames(old(score), target, gifLength)
    {
      if gifLength == GifFrames {
        GifBufferCoversScores(score, target);
      }
      ok := MkFrames(Some(target));
    }
  }

  /** `mk_frames(None)` queues exactly the current score once and keeps it. */
  lemma MkFramesNoneIsOneFrame(score: int, len: int)
    requires Indexable(score, len)
    ensures AllIndexable(FrameScores(score, score), len)
    ensures BuildingFrames(score, score, len) == [BuildingFrame(GifFrameOf(score, len), score, score)]
  {
    FrameScoresShape(score, score);
  }
}

/** The frame queue every animation shares: frames are appended to `fifoBuffer`, and the
    animating loop shows them one after another in `img`, oldest first. */
module Animation {
  import opened PyLib

  /** The last frame of a queue, or the current one when the queue is empty. */
  function LastOr<F>(frames: seq<F>, current: F): F
  {
    if frames == [] then current else frames[|frames| - 1]
  }

  class AutomaticAnimation<F> {
    var fifoBuffer: seq<F>
    var img: F
    var animatingFlag: bool

    /** A fresh animation shows `blank` (the black `Image.new` of the class) and queues nothing. */
    constructor (blank: F)
      ensures fifoBuffer == [] && img == blank && !animatingFlag
    {
      fifoBuffer := [];
      img := blank;
      animatingFlag := false;
    }

    /** `_pop`: remove and return the oldest frame; `None` and no change on an empty queue. */
    method Pop() returns (r: Option<F>)
      modifies this`fifoBuffer
      ensures old(fifoBuffer) == [] ==> r == None && fifoBuffer == []
      ensures old(fifoBuffer) != [] ==>
        r == Some(old(fifoBuffer)[0]) && fifoBuffer == old(fifoBuffer)[1..]
    {
      if |fifoBuffer| > 0 {
        r := Some(fifoBuffer[0]);
        fifoBuffer := fifoBuffer[1..];
      } else {
        r := None;
      }
    }

    /** `_shift`: pop, and show the popped frame if there was one. */
    method Shift() returns (r: Option<F>)
      modifies this`fifoBuffer, this`img
      ensures old(fifoBuffer) == [] ==> r == None && fifoBuffer == [] && img == old(img)
      ensures old(fifoBuffer) != [] ==>
        r == Some(old(fifoBuffer)[0]) && fifoBuffer == old(fifoBuffer)[1..] && img == r.value
    {
      r := Pop();
      if r.Some? {
        img := r.value;
      }
    }

    /** `animating_loop`: a second loop started while one runs returns at once; otherwise the
        flag is held while the queue drains, and `shown` lists the frames put on screen, which
        are the queued ones in append order. The pacing sleep is left out. */
    method AnimatingLoop() returns (ghost shown: seq<F>)
      modifies this
      ensures old(animatingFlag) ==>
        shown == [] && fifoBuffer == old(fifoBuffer) && img == old(img) && animatingFlag
      ensures !old(animatingFlag) ==>
        && shown == old(fifoBuffer) && fifoBuffer == []
        && img == LastOr(old(fifoBuffer), old(img)) && !animatingFlag
    {
      shown := [];
      if animatingFlag {
        return;
      }
      animatingFlag := true;
      var f := Shift();
      if f.Some? { shown := shown + [f.value]; }
      while f.Some?
        invariant animatingFlag
        invariant old(fifoBuffer) == shown + fifoBuffer
        invariant img == LastOr(shown, old(img))
        invariant f.None? ==> fifoBuffer == []
        decreases |fifoBuffer|, f.Some?
      {
        f := Shift();
        if f.Some? { shown := shown + [f.value]; }
      }
      animatingFlag := false;
    }
  }
}

/** The session timeline: a design list of (name, duration) pairs becomes contiguous blocks,
    and `Consume(t)` drops the blocks that have ended and reports the current mode mark and
    the remaining times. */
module Blocks {
  import opened PyLib

  /** One `[name, duration]` entry of a design's `_buffer`. */
  datatype DesignEntry = DesignEntry(name: string, duration: int)

  /** One precomputed block: `dict(name=..., start=..., stop=...)`. */
  datatype Block = Block(name: string, start: int, stop: int)

  /** What `consume` returns: the usual 4-tuple, the 3-tuple of a session that has not started,
      or the `ZeroDivisionError` raised by the ratio when the design's total length is 0. */
  datatype Report =
    | Progress(mark: string, blockLeft: real, totalLeft: real, ratio: real)
    | NotStarted(mark: string, blockLeft: real, totalLeft: real)
    | ZeroDivisionError

  const EmptyDesignMark: string := "O"
  const NotStartedMark: string := "N"
  const BlockEmptyMark: string := "Block empty"
  const UnknownMark: string := "?"

  const MarkMap: map<string, string> := map["Real" := "T", "Fake" := "F", "Hide" := "+"]

  /** `mark_map.get(name, '?')`. */
  function MarkOf(name: string): (m: string)
    ensures m == "T" <==> name == "Real"
    ensures m == "F" <==> name == "Fake"
    ensures m == "+" <==> name == "Hide"
    ensures m == UnknownMark <==> name !in {"Real", "Fake", "Hide"}
  {
    if name in MarkMap then MarkMap[name] else UnknownMark
  }

  /** The marks a block may carry; none of them is one of the session-level marks. */
  predicate IsModeMark(m: string)
  {
    m in {"T", "F", "+", UnknownMark}
  }

  // ---------------------------------------------------------------------------
  // Loading a design

  /** Sum of the durations of a design. */
  function Total(design: seq<DesignEntry>): int
  {
    if design == [] then 0 else Total(design[..|design| - 1]) + design[|design| - 1].duration
  }

  /** The blocks `load_design` builds: each starts where the previous one stopped, from 0. */
  function Layout(design: seq<DesignEntry>): (bs: seq<Block>)
    ensures |bs| == |design|
  {
    if design == [] then []
    else
      var init := design[..|design| - 1];
      var last := design[|design| - 1];
      Layout(init) + [Block(last.name, Total(init), Total(init) + last.duration)]
  }

  ghost predicate Contiguous(bs: seq<Block>)
  {
    forall i :: 0 <= i < |bs| - 1 ==> bs[i].stop == bs[i + 1].start
  }

  /** Block i of a layout carries entry i's name, starts at the sum of the durations before it
      and lasts exactly its duration. */
  lemma {:induction false} LayoutAt(design: seq<DesignEntry>, i: int)
    requires 0 <= i < |design|
    ensures Layout(design)[i] ==
            Block(design[i].name, Total(design[..i]), Total(design[..i]) + design[i].duration)
  {
    var init := design[..|design| - 1];
    if i < |design| - 1 {
      LayoutAt(init, i);
      assert init[..i] == design[..i];
    } else {
      assert init == design[..i];
    }
  }

  /** The layout invariants: the first block starts at 0, neighbours touch, every block lasts
      its duration, and the last block stops at the total. */
  lemma LayoutIsContiguous(design: seq<DesignEntry>)
    requires |design| > 0
    ensures Layout(design)[0].start == 0
    ensures Contiguous(Layout(design))
    ensures forall i :: 0 <= i < |design| ==>
      Layout(design)[i].stop - Layout(design)[i].start == design[i].duration
    ensures Layout(design)[|design| - 1].stop == Total(design)
  {
    var bs := Layout(design);
    LayoutAt(design, 0);
    assert design[..0] == [];
    forall i | 0 <= i < |design| - 1 ensures bs[i].stop == bs[i + 1].start {
      LayoutAt(design, i);
      LayoutAt(design, i + 1);
      assert design[..i + 1][..i] == design[..i];
    }
    forall i | 0 <= i < |design| ensures bs[i].stop - bs[i].start == design[i].duration {
      LayoutAt(design, i);
    }
    LayoutAt(design, |design| - 1);
    assert design[..|design| - 1 + 1] == design;
  }

  // ---------------------------------------------------------------------------
  // Consuming time

  /** The front-popping loop of `consume`: drop blocks while `t > stop` (strictly). */
  function Drop(bs: seq<Block>, t: real): seq<Block>
  {
    if |bs| > 0 && t > bs[0].stop as real then Drop(bs[1..], t) else bs
  }

  /** The remaining blocks, the report, as one function of the state before the call. */
  function ConsumeSpec(emptyDesign: bool, blocks: Option<seq<Block>>, total: int, t: real)
    : (Report, Option<seq<Block>>)
  {
    if emptyDesign then (Progress(EmptyDesignMark, -1.0, -1.0, 1.0), blocks)
    else if blocks.None? then (Progress(BlockEmptyMark, 0.0, 0.0, 0.0), blocks)  // never reached
    else if blocks.value == [] then (Progress(BlockEmptyMark, 0.0, 0.0, 0.0), blocks)
    else if t < blocks.value[0].start as real then
      (NotStarted(NotStartedMark, blocks.value[0].start as real - t, total as real - t), blocks)
    else
      var rest := Drop(blocks.value, t);
      if rest == [] then (Progress(BlockEmptyMark, 0.0, 0.0, 0.0), Some(rest))
      else if total == 0 then (ZeroDivisionError, Some(rest))
      else
        (Progress(MarkOf(rest[0].name), rest[0].stop as real - t, total as real - t,
                  (total as real - t) / total as real),
         Some(rest))
  }

  /** Dropping only ever removes a prefix, and exactly the blocks that ended strictly before t. */
  lemma {:induction false} DropIsSuffix(bs: seq<Block>, t: real)
    ensures |Drop(bs, t)| <= |bs|
    ensures Drop(bs, t) == bs[|bs| - |Drop(bs, t)|..]
    ensures forall i :: 0 <= i < |bs| - |Drop(bs, t)| ==> bs[i].stop as real < t
    ensures Drop(bs, t) != [] ==> t <= Drop(bs, t)[0].stop as real
  {
    if |bs| > 0 && t > bs[0].stop as real {
      DropIsSuffix(bs[1..], t);
      var r := Drop(bs[1..], t);
      assert bs[1..][|bs| - 1 - |r|..] == bs[|bs| - |r|..];
      forall i | 0 <= i < |bs| - |r| ensures bs[i].stop as real < t {
        if i > 0 { assert bs[i] == bs[1..][i - 1]; }
      }
    }
  }

  /** Blocks stay dropped: consuming at t1 and then at a later t2 leaves what t2 alone would. */
  lemma {:induction false} DropMonotone(bs: seq<Block>, t1: real, t2: real)
    requires t1 <= t2
    ensures Drop(Drop(bs, t1), t2) == Drop(bs, t2)
  {
    if |bs| > 0 && t1 > bs[0].stop as real {
      DropMonotone(bs[1..], t1, t2);
    }
  }

  /** On contiguous blocks that t has reached, the new front block contains t. */
  lemma {:induction false} DropFrontContains(bs: seq<Block>, t: real)
    requires Contiguous(bs) && |bs| > 0 && bs[0].start as real <= t
    requires Drop(bs, t) != []
    ensures Drop(bs, t)[0].start as real <= t <= Drop(bs, t)[0].stop as real
  {
    if t > bs[0].stop as real {
      assert bs[1].start == bs[0].stop;
      assert Contiguous(bs[1..]) by {
        forall i | 0 <= i < |bs[1..]| - 1 ensures bs[1..][i].stop == bs[1..][i + 1].start {
          assert bs[i + 1].stop == bs[i + 2].start;
        }
      }
      DropFrontContains(bs[1..], t);
    }
  }

  /** When a block's mode mark comes back, t lies inside that front block, the block time left
      is `stop - t >= 0`, the total left is `total - t` and the ratio is that over the total. */
  lemma ConsumeReportsFrontBlock(bs: seq<Block>, total: int, t: real)
    requires Contiguous(bs)
    requires ConsumeSpec(false, Some(bs), total, t).0.Progress?
    requires ConsumeSpec(false, Some(bs), total, t).0.mark != BlockEmptyMark
    ensures var (r, rest) := ConsumeSpec(false, Some(bs), total, t);
      && rest.Some? && rest.value != [] && |rest.value| <= |bs|
      && rest.value == bs[|bs| - |rest.value|..]
      && rest.value[0].start as real <= t <= rest.value[0].stop as real
      && IsModeMark(r.mark) && r.mark == MarkOf(rest.value[0].name)
      && r.blockLeft == rest.value[0].stop as real - t && r.blockLeft >= 0.0
      && r.totalLeft == total as real - t
      && total != 0 && r.ratio * total as real == r.totalLeft
  {
    DropIsSuffix(bs, t);
    DropFrontContains(bs, t);
  }

  /** At `t == stop` the front block is still current, with nothing left of it. */
  lemma ConsumeAtStop(bs: seq<Block>, total: int)
    requires |bs| > 0 && bs[0].start <= bs[0].stop && total > 0
    ensures var (r, rest) := ConsumeSpec(false, Some(bs), total, bs[0].stop as real);
      rest == Some(bs) && r == Progress(MarkOf(bs[0].name), 0.0, (total - bs[0].stop) as real,
                                        (total - bs[0].stop) as real / total as real)
  {
  }

  /** An empty design: the 'O' report, whatever t is, and nothing changes. */
  lemma EmptyDesignIsBoundless(total: int, t: real)
    ensures ConsumeSpec(true, None, total, t) == (Progress(EmptyDesignMark, -1.0, -1.0, 1.0), None)
  {
  }

  /** Once every block has been dropped, every later call reports 'Block empty', 0, 0, 0. */
  lemma ExhaustedIsAbsorbing(total: int, t: real)
    ensures ConsumeSpec(false, Some([]), total, t) == (Progress(BlockEmptyMark, 0.0, 0.0, 0.0), Some([]))
  {
  }

  /** The 3-tuple comes back only for a time before the first start. */
  lemma NotStartedOnlyBeforeStart(bs: seq<Block>, total: int, t: real)
    requires |bs| > 0
    ensures ConsumeSpec(false, Some(bs), total, t).0.NotStarted? <==> t < bs[0].start as real
  {
  }

  /** The worked example of a design `[Real 10, Fake 5]`, step by step, with the strict drop. */
  lemma TwoBlockSession()
    ensures var design := [DesignEntry("Real", 10), DesignEntry("Fake", 5)];
      && Layout(design) == [Block("Real", 0, 10), Block("Fake", 10, 15)] && Total(design) == 15
      && var s0 := ConsumeSpec(false, Some(Layout(design)), 15, 0.0);
      && s0.0 == Progress("T", 10.0, 15.0, 1.0)
      && var s1 := ConsumeSpec(false, s0.1, 15, 10.0);
      && s1.0 == Progress("T", 0.0, 5.0, 1.0 / 3.0)
      && var s2 := ConsumeSpec(false, s1.1, 15, 15.0);
      && s2.0 == Progress("F", 0.0, 0.0, 0.0)
      && var s3 := ConsumeSpec(false, s2.1, 15, 20.0);
      && s3 == (Progress(BlockEmptyMark, 0.0, 0.0, 0.0), Some([]))
  {
    var design := [DesignEntry("Real", 10), DesignEntry("Fake", 5)];
    assert design[..1] == [DesignEntry("Real", 10)];
    assert design[..1][..0] == [];
    var bs := [Block("Real", 0, 10), Block("Fake", 10, 15)];
    assert Layout(design) == bs;
    assert Drop(bs, 15.0) == Drop(bs[1..], 15.0);
    assert Drop(bs[1..], 20.0) == Drop([], 20.0);
  }

  // ---------------------------------------------------------------------------
  // The manager object

  class BlockManager {
    /** `None` for an empty design (the class default stays in place), else the queue. */
    var blocks: Option<seq<Block>>
    var total: int
    var emptyDesignFlag: bool

    /** The blocks as loaded, and how many of them have been dropped since. */
    ghost var loaded: seq<Block>
    ghost var dropped: nat

    ghost predicate Valid()
      reads this
    {
      && (emptyDesignFlag <==> blocks.None?)
      && (emptyDesignFlag ==> total == 0 && loaded == [])
      && (blocks.Some? ==>
            && |loaded| > 0 && loaded[0].start == 0 && Contiguous(loaded)
            && loaded[|loaded| - 1].stop == total
            && dropped <= |loaded| && blocks.value == loaded[dropped..])
    }

    /** `__init__`, which is `load_design`: an empty `_buffer` switches to the boundless mode;
        otherwise the loop lays the blocks out and sums the total. */
    constructor (design: seq<DesignEntry>)
      ensures Valid() && dropped == 0
      ensures design == [] ==> emptyDesignFlag && blocks == None && total == 0
      ensures design != [] ==>
        !emptyDesignFlag && blocks == Some(Layout(design)) && loaded == Layout(design)
        && total == Total(design)
    {
      emptyDesignFlag := false;
      blocks := None;
      total := 0;
      loaded := [];
      dropped := 0;
      if |design| == 0 {
        emptyDesignFlag := true;
      } else {
        var bs: seq<Block> := [];
        var offset := 0;
        var i := 0;
        while i < |design|
          invariant 0 <= i <= |design|
          invariant bs == Layout(design[..i]) && offset == Total(design[..i])
        {
          assert design[..i + 1][..i] == design[..i];
          bs := bs + [Block(design[i].name, offset, offset + design[i].duration)];
          offset := offset + design[i].duration;
          i := i + 1;
        }
        assert design[..i] == design;
        blocks := Some(bs);
        total := offset;
        loaded := bs;
        LayoutIsContiguous(design);
      }
    }

    /** `consume(t)`. The remaining queue and the report are those of `ConsumeSpec`; the
        queue only ever loses blocks from its front. */
    method Consume(t: real) returns (r: Report)
      requires Valid()
      modifies this
      ensures Valid()
      ensures (r, blocks) == ConsumeSpec(old(emptyDesignFlag), old(blocks), old(total), t)
      ensures total == old(total) && emptyDesignFlag == old(emptyDesignFlag)
      ensures loaded == old(loaded) && dropped >= old(dropped)
    {
      if emptyDesignFlag {
        return Progress(EmptyDesignMark, -1.0, -1.0, 1.0);
      }
      var bs := blocks.value;
      if |bs| == 0 {
        return Progress(BlockEmptyMark, 0.0, 0.0, 0.0);
      }
      if t < bs[0].start as real {
        return NotStarted(NotStartedMark, bs[0].start as real - t, total as real - t);
      }
      ghost var from := bs;
      ghost var k := 0;
      while |bs| > 0 && t > bs[0].stop as real
        invariant 0 <= k <= |from| && bs == from[k..]
        invariant Drop(bs, t) == Drop(from, t)
        decreases |bs|
      {
        bs := bs[1..];
        k := k + 1;
      }
      assert loaded[dropped..][k..] == loaded[dropped + k..];
      blocks := Some(bs);
      dropped := dropped + k;
      if |bs| == 0 {
        return Progress(BlockEmptyMark, 0.0, 0.0, 0.0);
      }
      var mark := MarkOf(bs[0].name);
      var t1 := bs[0].stop as real - t;
      var t2 := total as real - t;
      if total == 0 {
        return ZeroDivisionError;
      }
      r := Progress(mark, t1, t2, t2 / total as real);
    }
  }
}

/** The running options: one shared instance (a metaclass keeps one instance per class) whose
    attributes start at the defaults below and are rebound by the option widgets. */
module Options {
  import Blocks

  /** `rop.design`: a named design with its `_buffer` of blocks. */
  datatype Design = Design(name: string, maker: string, buffer: seq<Blocks.DesignEntry>)

  datatype RunningOptions = RunningOptions(
    knownComponentsPrefix: string,
    yMin: real, yMax: real, yReference: real,
    feedbackCurveWidth: int, feedbackCurveColor: string,
    referenceCurveWidth: int, referenceCurveColor: string, flagDisplayReferenceCurve: bool,
    delayedCurveWidth: int, delayedCurveColor: string,
    delayedLength: real, updateStepLength: real, flagDisplayDelayedCurve: bool,
    thresholdOfMean: real, thresholdOfStd: real,
    blockLength: int, design: Design,
    metricThreshold1: real, metricThreshold2: real, metricThreshold3: real)

  /** The class-level defaults of `RunningOptions`. */
  const Defaults: RunningOptions := RunningOptions(
    "zcc_",
    0.0, 400.0, 200.0,
    2, "#0000a0",
    2, "#00a000", true,
    2, "#a00000",
    5.0, 5.0, true,
    20.0, 10.0,
    10, Design("N.A.", "N.A.", []),
    30.0, 60.0, 90.0)

  /** The defaults a fresh session sees: an empty design (so the block manager runs without an
      end), reference 200, thresholds 20 (mean) and 10 (std), a delay of 5 s. */
  lemma DefaultValues()
    ensures Defaults.design.buffer == [] && Defaults.design.name == "N.A."
    ensures Defaults.yReference == 200.0 && Defaults.yMin < Defaults.yReference < Defaults.yMax
    ensures Defaults.thresholdOfMean == 20.0 && Defaults.thresholdOfStd == 10.0
    ensures Defaults.delayedLength == 5.0 && Defaults.blockLength == 10
    ensures Defaults.metricThreshold1 < Defaults.metricThreshold2 < Defaults.metricThreshold3
  {
  }

  /** The `Singleton` metaclass: its `_instances` dictionary maps each class to the one
      instance made for it. */
  class Singleton<C(==), I> {
    var instances: map<C, I>

    constructor ()
      ensures instances == map[]
    {
      instances := map[];
    }

    /** `Singleton.__call__(cls)`. `made` stands for the object `type.__call__` would build;
        it is built, and recorded, only on the first call for `cls`. */
    method Call(cls: C, made: I) returns (inst: I, constructed: bool)
      modifies this
      ensures constructed <==> cls !in old(instances)
      ensures constructed ==> inst == made && instances == old(instances)[cls := made]
      ensures !constructed ==> inst == old(instances)[cls] && instances == old(instances)
      ensures cls in instances && instances[cls] == inst
      ensures forall c :: c in old(instances) ==> c in instances && instances[c] == old(instances)[c]
      ensures instances.Keys == old(instances).Keys + {cls}
    {
      constructed := cls !in instances;
      if constructed {
        instances := instances[cls := made];
      }
      inst := instances[cls];
    }
  }

  /** Whatever a second call would build, it gets the first instance back. */
  method SecondCallReturnsFirst<C(==), I>(s: Singleton<C, I>, cls: C, first: I, second: I)
    returns (a: I, b: I)
    requires s.instances == map[]
    modifies s
    ensures a == first && b == first && s.instances == map[cls := first]
  {
    var made1, made2;
    a, made1 := s.Call(cls, first);
    b, made2 := s.Call(cls, second);
    assert made1 && !made2;
  }

  /** The default design puts the block manager in its boundless mode. */
  method DefaultDesignIsBoundless(t: real) returns (r: Blocks.Report)
    ensures r == Blocks.Progress(Blocks.EmptyDesignMark, -1.0, -1.0, 1.0)
  {
    var bm := new Blocks.BlockManager(Defaults.design.buffer);
    r := bm.Consume(t);
  }
}

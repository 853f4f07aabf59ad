/** The pressure acquisition: the byte decode and calibration of a device reading, the cyclic
    player of recorded (fake) pressure, and the reader that appends one sample per tick and,
    once enough samples exist, one delayed-window summary row per tick. */
module HidReader {
  import opened PyLib

  newtype byte = x: int | 0 <= x < 256

  /** `digit2int(bytes16)`: the little-endian 16-bit number in bytes 3 and 4; fewer than 5
      bytes raise. */
  function Digit2Int(bytes16: seq<byte>): (r: Option<int>)
    ensures r.Some? <==> |bytes16| >= 5
    ensures r.Some? ==> 0 <= r.value <= 65535
  {
    if |bytes16| < 5 then None else Some(bytes16[4] as int * 256 + bytes16[3] as int)
  }

  /** The two bytes the device sends for a 16-bit number. */
  function Encode16(v: int, rest: seq<byte>): (bs: seq<byte>)
    requires 0 <= v <= 65535 && |rest| >= 3
    ensures |bs| == |rest| + 2
  {
    rest[..3] + [(v % 256) as byte, (v / 256) as byte] + rest[3..]
  }

  /** The decode inverts the encoding of any 16-bit number, whatever the other bytes are. */
  lemma Digit2IntRoundTrip(v: int, rest: seq<byte>)
    requires 0 <= v <= 65535 && |rest| >= 3
    ensures Digit2Int(Encode16(v, rest)) == Some(v)
  {
    var bs := Encode16(v, rest);
    assert bs[3] as int == v % 256 && bs[4] as int == v / 256;
  }

  /** Two readings decode to the same number only when their bytes 3 and 4 agree. */
  lemma Digit2IntInjective(a: seq<byte>, b: seq<byte>)
    requires |a| >= 5 && |b| >= 5 && Digit2Int(a) == Digit2Int(b)
    ensures a[3] == b[3] && a[4] == b[4]
  {
    var x := a[4] as int * 256 + a[3] as int;
    assert x % 256 == a[3] as int && x / 256 == a[4] as int;
    assert x == b[4] as int * 256 + b[3] as int;
    assert x % 256 == b[3] as int && x / 256 == b[4] as int;
  }

  /** The calibration's divisor: the gap between the 0 g and 200 g readings, but at least 100. */
  function CalibrationSpan(g0: real, g200: real): (d: real)
    ensures d >= 100.0
    ensures g200 - g0 >= 100.0 ==> d == g200 - g0
    ensures g200 - g0 < 100.0 ==> d == 100.0
  {
    if 100.0 < g200 - g0 then g200 - g0 else 100.0
  }

  /** `number2pressure(value)`: readings relative to the 0 g offset, scaled so one calibration
      span is 200 g. */
  function Number2Pressure(value: real, g0: real, g200: real, offset: real): real
  {
    (value - offset) * (200.0 / CalibrationSpan(g0, g200))
  }

  /** The offset reads 0 g; one span above it reads 200 g, the span being the calibration
      gap when it is at least 100 and 100 otherwise; and the conversion is strictly increasing, so it never divides by zero and
      keeps the order of readings. */
  lemma Number2PressureCalibration(value: real, other: real, g0: real, g200: real, offset: real)
    ensures Number2Pressure(offset, g0, g200, offset) == 0.0
    ensures g200 - g0 >= 100.0 ==> Number2Pressure(offset + (g200 - g0), g0, g200, offset) == 200.0
    ensures g200 - g0 < 100.0 ==> Number2Pressure(offset + 100.0, g0, g200, offset) == 200.0
    ensures value < other ==> Number2Pressure(value, g0, g200, offset) < Number2Pressure(other, g0, g200, offset)
  {
    var k := 200.0 / CalibrationSpan(g0, g200);
    assert k > 0.0;
    if g200 - g0 >= 100.0 {
      assert (g200 - g0) * k == 200.0;
    } else {
      assert 100.0 * k == 200.0;
    }
    if value < other {
      assert (other - offset) * k - (value - offset) * k == (other - value) * k;
    }
  }

  /** A row of recorded pressure: the pressure and its raw device number. */
  datatype FakeRow = FakeRow(value: real, raw: real)

  /** The recording used when none is given. */
  const DefaultRecording: seq<FakeRow> := [FakeRow(100.0, 45000.0), FakeRow(200.0, 46000.0)]

  /** `get` on a recording at position `i`: the row there and the next position. */
  function GetStep(buffer: seq<FakeRow>, i: int): (FakeRow, int)
    requires 0 <= i < |buffer|
  {
    (buffer[i], (i + 1) % |buffer|)
  }

  /** The rows `k` successive calls of `get` return from position `i`. */
  function PlayRows(buffer: seq<FakeRow>, i: int, k: nat): (rows: seq<FakeRow>)
    requires 0 <= i < |buffer|
    ensures |rows| == k
    decreases k
  {
    if k == 0 then [] else [GetStep(buffer, i).0] + PlayRows(buffer, GetStep(buffer, i).1, k - 1)
  }

  /** The position after `k` successive calls of `get` from position `i`. */
  function PlayEnd(buffer: seq<FakeRow>, i: int, k: nat): (j: int)
    requires 0 <= i < |buffer|
    ensures 0 <= j < |buffer|
    decreases k
  {
    if k == 0 then i else PlayEnd(buffer, GetStep(buffer, i).1, k - 1)
  }

  /** `i += 1; i %= n` moves one position on and wraps from the last row to the first. */
  lemma NextPosition(i: int, n: int)
    requires 0 <= i < n
    ensures (i + 1) % n == if i + 1 < n then i + 1 else 0
  {
  }

  /** Without wrapping, `k` calls from `i` return the rows `i .. i + k` in order. */
  lemma {:induction false} PlayWithoutWrap(buffer: seq<FakeRow>, i: int, k: nat)
    requires 0 <= i < |buffer| && i + k <= |buffer|
    ensures PlayRows(buffer, i, k) == buffer[i..i + k]
    ensures PlayEnd(buffer, i, k) == if i + k == |buffer| then 0 else i + k
    decreases k
  {
    if k > 0 {
      NextPosition(i, |buffer|);
      var next := GetStep(buffer, i).1;
      if k == 1 {
        assert PlayRows(buffer, next, 0) == [];
      } else {
        assert next == i + 1;
        PlayWithoutWrap(buffer, next, k - 1);
        assert buffer[i..i + k] == [buffer[i]] + buffer[i + 1..i + k];
      }
    }
  }

  /** Playing `a + b` rows is playing `a` rows and then `b` more from where they stopped. */
  lemma {:induction false} PlaySplit(buffer: seq<FakeRow>, i: int, a: nat, b: nat)
    requires 0 <= i < |buffer|
    ensures PlayRows(buffer, i, a + b) ==
      PlayRows(buffer, i, a) + PlayRows(buffer, PlayEnd(buffer, i, a), b)
    ensures PlayEnd(buffer, i, a + b) == PlayEnd(buffer, PlayEnd(buffer, i, a), b)
    decreases a
  {
    if a > 0 {
      var next := GetStep(buffer, i).1;
      PlaySplit(buffer, next, a - 1, b);
      assert a + b - 1 == (a - 1) + b;
      assert PlayRows(buffer, i, a + b) == [buffer[i]] + PlayRows(buffer, next, (a - 1) + b);
      assert PlayRows(buffer, i, a) == [buffer[i]] + PlayRows(buffer, next, a - 1);
    }
  }

  /** `n` calls from any position return the recording rotated to start there, and come back
      to that position; from the front they replay the recording exactly. */
  lemma FullCycle(buffer: seq<FakeRow>, i: int)
    requires 0 <= i < |buffer|
    ensures PlayRows(buffer, i, |buffer|) == buffer[i..] + buffer[..i]
    ensures PlayEnd(buffer, i, |buffer|) == i
    ensures i == 0 ==> PlayRows(buffer, i, |buffer|) == buffer
  {
    var n := |buffer|;
    if i == 0 {
      PlayWithoutWrap(buffer, 0, n);
      assert buffer[0..n] == buffer[0..] + buffer[..0];
    } else {
      PlaySplit(buffer, i, n - i, i);
      PlayWithoutWrap(buffer, i, n - i);
      PlayWithoutWrap(buffer, 0, i);
      assert buffer[i..n] == buffer[i..] && buffer[0..i] == buffer[..i];
    }
  }

  /** `FakePressure`: a recording played cyclically. */
  class FakePressure {
    var buffer: seq<FakeRow>
    var i: int
    var n: int

    ghost predicate Valid()
      reads this
    {
      n == |buffer| && n > 0 && 0 <= i < n
    }

    /** `FakePressure()`: `load(None)`, so the default recording from its first row. */
    constructor ()
      ensures Valid() && buffer == DefaultRecording && i == 0
    {
      buffer := DefaultRecording;
      i := 0;
      n := |DefaultRecording|;
    }

    /** `load(data)`: None installs the default recording; an empty recording raises (its
        statistics have no maximum) and changes nothing; otherwise the recording replaces the
        old one and playing restarts at its front. Returns the row count. */
    method Load(data: Option<seq<FakeRow>>) returns (r: Option<int>)
      modifies this
      ensures data == Some([]) ==> r.None? && buffer == old(buffer) && i == old(i) && n == old(n)
      ensures data != Some([]) ==>
        && buffer == (if data.None? then DefaultRecording else data.value)
        && i == 0 && n == |buffer| && r == Some(n) && Valid()
    {
      var rows := if data.None? then DefaultRecording else data.value;
      if |rows| == 0 {
        return None;
      }
      buffer := rows;
      i := 0;
      n := |rows|;
      r := Some(n);
    }

    /** `get`: the row at the current position; the position moves on cyclically. */
    method Get() returns (d: FakeRow)
      requires Valid()
      modifies this`i
      ensures Valid()
      ensures (d, i) == GetStep(buffer, old(i))
    {
      d := buffer[i];
      i := i + 1;
      i := i % n;
    }
  }

  /** A sample: pressure, raw number, recorded pressure, recorded raw number, seconds since the
      reading started. */
  datatype Sample = Sample(value: real, raw: real, fakeValue: real, fakeRaw: real, t: real)

  /** A delayed row: the means and standard deviations of the real and recorded pressure over
      the delay window, stamped with the time the window ends minus the delay. */
  datatype DelayedRow = DelayedRow(avgValue: real, avgFake: real, stdValue: real, stdFake: real,
                                   t: real)

  datatype TickOutcome = Exited | Waiting | Appended | Crashed

  function Max0(x: int): int
  {
    if x > 0 then x else 0
  }

  /** The constant part of the raw number made up from noise: 44064 plus 2.5 times the 0 g to
      200 g gap 46112 - 44064. */
  const NoiseBase: real := 44064.0 + (46112.0 - 44064.0) * 2.5
  const NoiseScale: real := 2.0 * 1000.0

  /** The `(value, raw)` reading of one tick: from the device bytes, from a noise value, or
      `(-1, -1)`; None when the device read cannot be decoded. */
  function ReadingOf(validDevice: bool, useNoise: bool, bytes16: seq<byte>, noise: real,
                     g0: real, g200: real, offset: real): (r: Option<(real, real)>)
    ensures r.None? <==> validDevice && |bytes16| < 5
  {
    if validDevice then
      match Digit2Int(bytes16)
      case None => None
      case Some(raw) => Some((Number2Pressure(raw as real, g0, g200, offset), raw as real))
    else if useNoise then
      var raw := noise * NoiseScale + NoiseBase;
      Some((Number2Pressure(raw, g0, g200, offset), raw))
    else Some((-1.0, -1.0))
  }

  /** Without a device and without noise, every reading is the `(-1, -1)` marker; with a device,
      the raw number is the decoded one and the value its calibration. */
  lemma ReadingCases(useNoise: bool, bytes16: seq<byte>, noise: real, g0: real, g200: real,
                     offset: real)
    ensures ReadingOf(false, false, bytes16, noise, g0, g200, offset) == Some((-1.0, -1.0))
    ensures |bytes16| >= 5 ==>
      var r := ReadingOf(true, useNoise, bytes16, noise, g0, g200, offset);
      r.Some? && r.value.1 == Digit2Int(bytes16).value as real
      && r.value.0 == Number2Pressure(r.value.1, g0, g200, offset)
    ensures NoiseBase == 49184.0
  {
  }

  function Values(w: seq<Sample>): (r: seq<real>)
    ensures |r| == |w| && forall j :: 0 <= j < |w| ==> r[j] == w[j].value
  {
    seq(|w|, j requires 0 <= j < |w| => w[j].value)
  }

  function FakeValues(w: seq<Sample>): (r: seq<real>)
    ensures |r| == |w| && forall j :: 0 <= j < |w| ==> r[j] == w[j].fakeValue
  {
    seq(|w|, j requires 0 <= j < |w| => w[j].fakeValue)
  }

  /** The summary row of a non-empty window. */
  function DelayedRowOf(window: seq<Sample>, stamp: real, stdOf: seq<real> -> real): DelayedRow
    requires |window| > 0
  {
    DelayedRow(Mean(Values(window)), Mean(FakeValues(window)),
               stdOf(Values(window)), stdOf(FakeValues(window)), stamp)
  }

  /** The delay window after a tick is exactly the last `D` samples for `0 < D < n`, and the
      whole buffer when `D == 0`; it is never empty when `D >= 0` and `n > D`. */
  lemma DelayWindowShape(buffer: seq<Sample>, d: int)
    requires |buffer| > d && |buffer| > 0
    ensures d > 0 ==> SliceFromNeg(buffer, d) == buffer[|buffer| - d..]
    ensures d == 0 ==> SliceFromNeg(buffer, d) == buffer
    ensures d >= 0 ==> |SliceFromNeg(buffer, d)| > 0
    ensures d < 0 ==> (|SliceFromNeg(buffer, d)| > 0 <==> |buffer| > -d)
  {
    SliceFromNegCases(buffer, d);
  }

  /** The delayed rows after a sample is appended to give `buffer`: unchanged while the buffer
      holds no more than `d` samples, otherwise one more row summarising `buffer[-d:]`; None
      when that window is empty (the summary of an empty window raises). */
  function DelayedAfter(buffer: seq<Sample>, d: int, rows: seq<DelayedRow>, stamp: real,
                        stdOf: seq<real> -> real): Option<seq<DelayedRow>>
  {
    if |buffer| <= d then Some(rows)
    else
      var window := SliceFromNeg(buffer, d);
      if window == [] then None else Some(rows + [DelayedRowOf(window, stamp, stdOf)])
  }

  /** With a fixed delay, each append keeps one delayed row per sample beyond the first `D`.
      A negative delay can only fail on the first sample. */
  lemma DelayedCount(buffer: seq<Sample>, s: Sample, d: int, rows: seq<DelayedRow>,
                     stamp: real, stdOf: seq<real> -> real)
    requires |rows| == Max0(|buffer| - Max0(d))
    ensures var r := DelayedAfter(buffer + [s], d, rows, stamp, stdOf);
      && (r.Some? ==> |r.value| == Max0(|buffer| + 1 - Max0(d)))
      && (d >= 0 ==> r.Some?)
      && (r.None? ==> d < 0 && |buffer| + 1 <= -d)
  {
    var b := buffer + [s];
    if |b| > d {
      DelayWindowShape(b, d);
    }
  }

  /** `RealTimeHIDReader`. Time, the device, the noise source and `np.std` are inputs of the
      tick; the reading loop is driven tick by tick. */
  class RealTimeHIDReader {
    const sampleRate: real
    const ts: real
    var delaySeconds: real
    var delayPoints: int
    const g0: real
    const g200: real
    const offsetG0: real
    const useSimplexNoise: bool
    const fake: FakePressure

    var running: bool
    var reading: bool
    var deviceCrushFlag: bool
    var validDevice: bool
    var tic: real
    var buffer: seq<Sample>
    var bufferDelay: seq<DelayedRow>
    var n: int
    /** Whether the delay has kept its value since the reading started. */
    ghost var delayStable: bool

    ghost predicate Valid()
      reads this, fake
    {
      && fake.Valid()
      && |buffer| == n
      && (reading ==> !deviceCrushFlag)
      && (delayStable && !deviceCrushFlag ==> |bufferDelay| == Max0(n - Max0(delayPoints)))
    }

    /** The rate, delay and calibration are the running options' values. The reading loop has
        not run yet, so the buffers are empty. */
    constructor (sampleRate: real, delayLength: real, g0: real, g200: real, offsetG0: real)
      requires sampleRate > 0.0
      ensures Valid() && fresh(fake)
      ensures this.sampleRate == sampleRate && ts == 1.0 / sampleRate && delaySeconds == delayLength
      ensures delayPoints == Trunc(delayLength * sampleRate)
      ensures buffer == [] && bufferDelay == [] && n == 0 && !running && !deviceCrushFlag
      ensures useSimplexNoise
      ensures this.g0 == g0 && this.g200 == g200 && this.offsetG0 == offsetG0
      ensures fake.buffer == DefaultRecording && fake.i == 0
      ensures !reading && !validDevice && tic == 0.0 && delayStable
    {
      this.sampleRate := sampleRate;
      ts := 1.0 / sampleRate;
      delaySeconds := delayLength;
      delayPoints := Trunc(delayLength * sampleRate);
      this.g0 := g0;
      this.g200 := g200;
      this.offsetG0 := offsetG0;
      useSimplexNoise := true;
      fake := new FakePressure();
      running := false;
      reading := false;
      deviceCrushFlag := false;
      validDevice := false;
      tic := 0.0;
      buffer := [];
      bufferDelay := [];
      n := 0;
      delayStable := true;
    }

    /** `recompute_delay`: the new delay in seconds and in points; the rows already made are
        kept. */
    method RecomputeDelay(seconds: real)
      requires Valid()
      modifies this
      ensures Valid()
      ensures delaySeconds == seconds && delayPoints == Trunc(seconds * sampleRate)
      ensures buffer == old(buffer) && bufferDelay == old(bufferDelay) && n == old(n)
      ensures running == old(running) && reading == old(reading) && tic == old(tic)
      ensures deviceCrushFlag == old(deviceCrushFlag) && validDevice == old(validDevice)
    {
      var points := Trunc(seconds * sampleRate);
      delayStable := delayStable && points == delayPoints;
      delaySeconds := seconds;
      delayPoints := points;
    }

    /** `stop`: ask the loop to end, and hand over a copy of the samples. */
    method Stop() returns (samples: seq<Sample>)
      requires Valid()
      modifies this`running
      ensures Valid() && !running && samples == buffer
    {
      running := false;
      samples := buffer;
    }

    /** `_safe_reading` up to the loop of `_reading`: clear the crash flag, mark the loop as
        running, empty both buffers and take the start time. */
    method BeginReading(now: real, deviceOpened: bool)
      requires Valid()
      modifies this
      ensures Valid()
      ensures running && reading && !deviceCrushFlag && validDevice == deviceOpened
      ensures buffer == [] && bufferDelay == [] && n == 0 && tic == now && delayStable
      ensures delaySeconds == old(delaySeconds) && delayPoints == old(delayPoints)
    {
      deviceCrushFlag := false;
      running := true;
      buffer := [];
      bufferDelay := [];
      n := 0;
      validDevice := deviceOpened;
      tic := now;
      reading := true;
      delayStable := true;
    }

    /** Appending one sample, then the delayed row it completes. */
    method Record(sample: Sample, stamp: real, stdOf: seq<real> -> real) returns (ok: bool)
      requires Valid()
      modifies this`buffer, this`n, this`bufferDelay, this`deviceCrushFlag, this`reading
      ensures Valid()
      ensures buffer == old(buffer) + [sample] && n == old(n) + 1
      ensures var r := DelayedAfter(buffer, delayPoints, old(bufferDelay), stamp, stdOf);
        && (ok <==> r.Some?)
        && (ok ==> bufferDelay == r.value && deviceCrushFlag == old(deviceCrushFlag) && reading == old(reading))
        && (!ok ==> bufferDelay == old(bufferDelay) && deviceCrushFlag && !reading)
    {
      if delayStable && !deviceCrushFlag {
        DelayedCount(buffer, sample, delayPoints, bufferDelay, stamp, stdOf);
      }
      buffer := buffer + [sample];
      n := n + 1;
      if n > delayPoints {
        var window := SliceFromNeg(buffer, delayPoints);
        if |window| == 0 {
          deviceCrushFlag := true;
          reading := false;
          return false;
        }
        bufferDelay := bufferDelay + [DelayedRowOf(window, stamp, stdOf)];
      }
      ok := true;
    }

    /** The due part of a pass at time `t`: read, take the next recorded row, and record.
        Reading bytes that cannot be decoded, or summarising an empty window, raises: the loop
        ends with the crash flag set. */
    method ReadOnce(t: real, bytes16: seq<byte>, noise: real, stdOf: seq<real> -> real)
      returns (outcome: TickOutcome)
      requires Valid() && reading
      modifies this`reading, this`deviceCrushFlag, this`buffer, this`n, this`bufferDelay, fake`i
      ensures Valid()
      ensures outcome == Appended || outcome == Crashed
      ensures outcome == Crashed <==> deviceCrushFlag && !reading
      ensures outcome == Appended ==> reading && deviceCrushFlag == old(deviceCrushFlag)
      ensures var rd := ReadingOf(validDevice, useSimplexNoise, bytes16, noise, g0, g200, offsetG0);
        && (rd.None? ==> outcome == Crashed && buffer == old(buffer) && n == old(n)
                         && bufferDelay == old(bufferDelay) && fake.i == old(fake.i))
        && (rd.Some? ==>
             var row := old(fake.buffer[fake.i]);
             && (row, fake.i) == GetStep(fake.buffer, old(fake.i))
             && buffer == old(buffer) + [Sample(rd.value.0, rd.value.1, row.value, row.raw, t - tic)]
             && n == old(n) + 1
             && var r := DelayedAfter(buffer, delayPoints, old(bufferDelay), t - tic - delaySeconds, stdOf);
             && (outcome == Appended <==> r.Some?)
             && (r.Some? ==> bufferDelay == r.value)
             && (r.None? ==> bufferDelay == old(bufferDelay)))
    {
      var rd := ReadingOf(validDevice, useSimplexNoise, bytes16, noise, g0, g200, offsetG0);
      if rd.None? {
        deviceCrushFlag := true;
        reading := false;
        return Crashed;
      }
      ghost var i0 := fake.i;
      var row := fake.Get();
      ghost var step := GetStep(fake.buffer, i0);
      assert row == step.0 && fake.i == step.1;
      var ok := Record(Sample(rd.value.0, rd.value.1, row.value, row.raw, t - tic),
                       t - tic - delaySeconds, stdOf);
      outcome := if ok then Appended else Crashed;
    }

    /** One pass of the reading loop at time `t`, with the bytes the device would return, the
        noise value at `t`, and `np.std` as `stdOf`: leave the loop once stopped, wait until the
        next sample is due, and otherwise read once. */
    method Tick(t: real, bytes16: seq<byte>, noise: real, stdOf: seq<real> -> real)
      returns (outcome: TickOutcome)
      requires Valid() && reading
      modifies this`reading, this`deviceCrushFlag, this`buffer, this`n, this`bufferDelay, fake`i
      ensures Valid()
      ensures outcome == Exited <==> !old(running)
      ensures outcome == Exited ==> !reading
      ensures outcome == Waiting <==> old(running) && t < tic + (old(n) as real) * ts
      ensures outcome in {Exited, Waiting} ==>
        buffer == old(buffer) && bufferDelay == old(bufferDelay) && n == old(n)
        && deviceCrushFlag == old(deviceCrushFlag) && fake.i == old(fake.i)
      ensures outcome == Waiting ==> reading
      ensures outcome == Crashed <==> deviceCrushFlag && !reading
      ensures outcome == Appended ==> reading && deviceCrushFlag == old(deviceCrushFlag)
      ensures old(running) && t >= tic + (old(n) as real) * ts ==>
        var rd := ReadingOf(validDevice, useSimplexNoise, bytes16, noise, g0, g200, offsetG0);
        && (rd.None? ==> outcome == Crashed && buffer == old(buffer) && n == old(n)
                         && bufferDelay == old(bufferDelay) && fake.i == old(fake.i))
        && (rd.Some? ==>
             var row := old(fake.buffer[fake.i]);
             && (row, fake.i) == GetStep(fake.buffer, old(fake.i))
             && buffer == old(buffer) + [Sample(rd.value.0, rd.value.1, row.value, row.raw, t - tic)]
             && n == old(n) + 1
             && var r := DelayedAfter(buffer, delayPoints, old(bufferDelay), t - tic - delaySeconds, stdOf);
             && (outcome == Appended <==> r.Some?)
             && (r.Some? ==> bufferDelay == r.value)
             && (r.None? ==> bufferDelay == old(bufferDelay)))
    {
      if !running {
        reading := false;
        return Exited;
      }
      if t < tic + (n as real) * ts {
        return Waiting;
      }
      outcome := ReadOnce(t, bytes16, noise, stdOf);
    }

    /** `peek(k)`: the latest `k` samples, as Python's `buffer[-k:]`. */
    function Peek(k: int): (r: seq<Sample>)
      reads this
      ensures exists j :: 0 <= j <= |buffer| && r == buffer[j..]
      ensures k == 0 || k >= |buffer| ==> r == buffer
      ensures 0 < k <= |buffer| ==> |r| == k && r == buffer[|buffer| - k..]
      ensures k < 0 ==> r == if -k <= |buffer| then buffer[-k..] else []
    {
      SliceFromNegCases(buffer, k);
      SliceFromNeg(buffer, k)
    }

    /** `peek(k, peek_delay=True)`: the latest `k` delayed rows. */
    function PeekDelayed(k: int): (r: seq<DelayedRow>)
      reads this
      ensures exists j :: 0 <= j <= |bufferDelay| && r == bufferDelay[j..]
      ensures k == 0 || k >= |bufferDelay| ==> r == bufferDelay
      ensures 0 < k <= |bufferDelay| ==> |r| == k && r == bufferDelay[|bufferDelay| - k..]
      ensures k < 0 ==> r == if -k <= |bufferDelay| then bufferDelay[-k..] else []
    {
      SliceFromNegCases(bufferDelay, k);
      SliceFromNeg(bufferDelay, k)
    }

    /** `peek_by_seconds(sec)`: as many samples as `sec` seconds hold, `int(sec * rate)`. */
    function PeekBySeconds(sec: real): (r: seq<Sample>)
      reads this
      ensures var k := Trunc(sec * sampleRate);
        && (k == 0 || k >= |buffer| ==> r == buffer)
        && (0 < k <= |buffer| ==> |r| == k && r == buffer[|buffer| - k..])
    {
      Peek(Trunc(sec * sampleRate))
    }

    function PeekDelayedBySeconds(sec: real): (r: seq<DelayedRow>)
      reads this
      ensures var k := Trunc(sec * sampleRate);
        && (k == 0 || k >= |bufferDelay| ==> r == bufferDelay)
        && (0 < k <= |bufferDelay| ==> |r| == k && r == bufferDelay[|bufferDelay| - k..])
    {
      PeekDelayed(Trunc(sec * sampleRate))
    }
  }

  /** Asking for less than one sample's worth of time returns every sample, not none. */
  lemma ShortPeekReturnsEverything(r: RealTimeHIDReader, sec: real)
    requires 0.0 <= sec * r.sampleRate < 1.0
    ensures r.PeekBySeconds(sec) == r.buffer
  {
  }
}

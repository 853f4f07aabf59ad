# Pressure-feedback session core, modelled in Dafny

This project models the core of a finger-pressure biofeedback program. A HID pressure device,
or recorded data, or noise, is sampled at a fixed rate. Each sample is calibrated to grams and
appended to a sample log. Once the delay window is full, every new sample also appends a
summary row: the mean and the population standard deviation of the real and the recorded
pressure over that window.

A session follows a block design. The design is a list of `(Real | Fake | Hide, seconds)`
entries, laid out as contiguous blocks. The block manager drops the blocks that have ended and
reports the current mark (`T`, `F`, `+`, or one of the session-level marks `O`, `N` and
`Block empty`), the time left in the block and in the session, and the ratio left.

Two animated screens redraw from the latest samples. Each redraw consumes the timeline at the
latest sample's time and picks the recorded or the real columns by the block's mark. Every 3
seconds it moves a score:
- the building animation steps an integer score in [0, 100] by ±10 on the window's std;
- the two-step scorer first waits for the mean to come within a threshold of the reference,
  then steps a second score in [0, 100] by ±10.

Each score change queues animation frames. Around this sit:
- the running options, a singleton holding the defaults;
- the frame-queue code that every animation inherits;
- the feedback-mode enum and its labels;
- the main window's widget lookup;
- the design panel, which edits the design and renders its text;
- the hex text of the colour buttons.

Each source file is one Dafny module:

| module | file | source |
|---|---|---|
| `PyLib` | pylib.dfy | Python built-ins the code relies on: `xs[-n:]`, `int()`, `min`/`max`, `str(int)`, `startswith` |
| `Blocks` | block_manager.dfy | util/block_manager.py |
| `Options` | options.dfy | util/options.py |
| `Animation` | automatic_animation.dfy | util/animation/automatic_animation.py |
| `Scorer` | two_steps_score_animation.dfy | util/animation/two_steps_score_animation.py |
| `ScoreAnimation` | score_animation.dfy | util/animation/score_animation.py |
| `HidReader` | realtime_hid_reader.dfy | util/device/realtime_hid_reader.py |
| `Screens` | screens.dfy | util/qt/building_animation_screen.py, util/qt/two_steps_score_animation_screen.py |
| `FeedbackMode` | feedback_mode.dfy | util/feedback_mode_enum.py |
| `Joint` | joint.dfy | util/joint.py |
| `LoadUi` | load_ui.dfy | util/qt/load_ui.py |

Objects whose fields the program updates are classes, with `modifies` frames. This covers the
block manager, the reader, the recorded-pressure player, the scorers, the animations, the
screens, the design panel, the main window and the singleton registry. Each method's contract
ties the new state to a specification function of the old state, such as `Blocks.ConsumeSpec`,
`Scorer.UpdateSpec`, `Scorer.FramesFor`, `HidReader.DelayedAfter` or `Joint.DesignText`. The
lemmas state the program's properties about those functions.

Python exceptions become explicit outcomes:
- `Blocks.ZeroDivisionError`;
- `HidReader.TickOutcome.Crashed`;
- `Screens.DrawOutcome.Raised`;
- `None` results.

Time, the device bytes, the noise value and `np.std` are parameters of the reading tick.

`consume` drops a block only while `t > stop` (block_manager.py:92), so at `t == stop` the
block is still current with zero time left (`Blocks.ConsumeAtStop`).

## Model

| member | source | states |
|---|---|---|
| PyLib.SliceFromNegCases | util/device/realtime_hid_reader.py:394-397 | `xs[-n:]` is a suffix of `xs`: the last `n` items for `0 < n <= len`, all of `xs` for `n == 0` or `n >= len`, and `xs[-n:]` for negative `n` |
| PyLib.Trunc | util/device/realtime_hid_reader.py:377 | `int(x)` truncates toward zero: within 1 below `x` for `x >= 0`, within 1 above it for `x < 0`, with the sign kept |
| PyLib.ClampInt | util/animation/two_steps_score_animation.py:80-81 | `min(hi, max(lo, x))` lies in [lo, hi], is `x` inside, `hi` above and `lo` below |
| PyLib.NatToString | util/joint.py:116 | `str(n)` is a non-empty string of decimal digits without a leading zero |
| PyLib.NatToStringRoundTrip | util/joint.py:116 | reading the digits of `str(n)` gives `n` back |
| PyLib.IntToStringRoundTrip | util/joint.py:124 | `str(i)` loses nothing: parsing it gives `i` back, negative numbers included |
| Blocks.MarkOf | util/block_manager.py:31-35 | `mark_map.get(name, '?')`: `T` iff `Real`, `F` iff `Fake`, `+` iff `Hide`, `?` iff any other name |
| Blocks.Layout | util/block_manager.py:50-59 | one block per design entry |
| Blocks.LayoutAt | util/block_manager.py:52-58 | block i carries entry i's name, starts at the sum of the earlier durations and lasts its own duration |
| Blocks.LayoutIsContiguous | util/block_manager.py:50-59 | the first block starts at 0, each block stops where the next starts, each lasts its duration, and the last one stops at the total |
| Blocks.DropIsSuffix | util/block_manager.py:92-98 | the drop loop removes only a prefix, namely exactly the blocks whose stop is strictly before t; the new front block has not ended |
| Blocks.DropMonotone | util/block_manager.py:92-98 | consumption is one-way: dropping at t1 and then at a later t2 equals dropping at t2 |
| Blocks.DropFrontContains | util/block_manager.py:88-98 | on contiguous blocks that t has reached, the new front block contains t |
| Blocks.ConsumeReportsFrontBlock | util/block_manager.py:105-109 | a mode-mark report comes from a suffix of the queue whose front holds t; block time left `stop - t >= 0`, total left `total - t`, ratio times total equals total left |
| Blocks.ConsumeAtStop | util/block_manager.py:92-109 | at `t == stop` the front block is still current, with 0 left in it |
| Blocks.EmptyDesignIsBoundless | util/block_manager.py:79-80 | an empty design always reports `('O', -1, -1, 1)` and keeps its state |
| Blocks.ExhaustedIsAbsorbing | util/block_manager.py:83-85 | once the queue is empty every call reports `('Block empty', 0, 0, 0)` |
| Blocks.NotStartedOnlyBeforeStart | util/block_manager.py:88-89 | the 3-tuple `'N'` report comes back exactly when t is before the first start |
| Blocks.TwoBlockSession | util/block_manager.py:41-109 | the worked session `[Real 10, Fake 5]` at t = 0, 10, 15 and 20 |
| Blocks.BlockManager.constructor | util/block_manager.py:41-59 | an empty `_buffer` sets the boundless mode with no blocks; otherwise the blocks are the layout and the total is the sum of the durations |
| Blocks.BlockManager.Consume | util/block_manager.py:62-109 | report and remaining queue are those of `ConsumeSpec` of the old state; the total and the mode are kept, and blocks only leave from the front |
| Options.DefaultValues | util/options.py:44-77 | the defaults: empty design named `N.A.`, reference 200 inside [0, 400], thresholds 20 and 10, delay 5 s, block length 10, increasing metric thresholds |
| Options.Singleton.constructor | util/options.py:27 | no instance is registered yet |
| Options.Singleton.Call | util/options.py:29-33 | the instance is built and registered exactly when the class has none; otherwise the registered one comes back and the registry is unchanged |
| Options.SecondCallReturnsFirst | util/options.py:29-33 | two calls for one class return the first instance, whatever the second call would have built |
| Options.DefaultDesignIsBoundless | util/options.py:72 | a block manager built from the default design reports `('O', -1, -1, 1)` at any time |
| Animation.AutomaticAnimation.constructor | util/animation/automatic_animation.py:45-48 | a fresh animation shows the blank image, queues nothing and is not animating |
| Animation.AutomaticAnimation.Pop | util/animation/automatic_animation.py:117-119 | removes and returns the oldest frame; `None` and no change on an empty queue |
| Animation.AutomaticAnimation.Shift | util/animation/automatic_animation.py:101-104 | pops, and shows the popped frame if there was one |
| Animation.AutomaticAnimation.AnimatingLoop | util/animation/automatic_animation.py:80-88 | a loop started while one runs changes nothing; otherwise every queued frame is shown in order, the queue ends empty, the last frame stays on screen and the flag is released |
| Scorer.InitialStateIsValid | util/animation/two_steps_score_animation.py:64-68 | the reset state `('1st', 0, 0)` satisfies the score invariant |
| Scorer.StepPreservesInv | util/animation/two_steps_score_animation.py:95-142 | each update keeps `score_2nd` a multiple of 10 in [0, 100], and 0 during step one |
| Scorer.UpdatePreservesInv | util/animation/two_steps_score_animation.py:83-142 | the same for `_update_score` on any data, `None` and empty lists included |
| Scorer.Score1IsDeviation | util/animation/two_steps_score_animation.py:95-96 | `score_1st` is the signed, unclamped deviation of the last mean from the reference |
| Scorer.PromotionRule | util/animation/two_steps_score_animation.py:100-111 | step one moves to step two exactly when the deviation is strictly below the mean threshold, and starts step two at 0 |
| Scorer.DemotionRule | util/animation/two_steps_score_animation.py:116-129 | step two falls back exactly when the deviation is strictly above the mean threshold, and resets the score to 0 |
| Scorer.SecondStepMoves | util/animation/two_steps_score_animation.py:134-140 | in step two the score rises by 10 when `std < threshold`, otherwise falls by 10, saturating at 0 and 100 |
| Scorer.ThresholdIsStuck | util/animation/two_steps_score_animation.py:106-122 | a deviation exactly at the threshold neither promotes nor demotes |
| Scorer.ScorerWalkthrough | util/animation/two_steps_score_animation.py:83-142 | a worked sequence of six updates through promotion, reward, punishment, saturation and demotion |
| Scorer.TwoStepScorer.constructor | util/animation/two_steps_score_animation.py:46-62 | the reference from the options, both thresholds 50, and the reset state |
| Scorer.TwoStepScorer.ResetScores | util/animation/two_steps_score_animation.py:64-68 | back to `('1st', 0, 0)`, which is valid |
| Scorer.TwoStepScorer.LimitScores | util/animation/two_steps_score_animation.py:77-81 | `score_2nd` is clamped into [0, 100] |
| Scorer.TwoStepScorer.UpdateScore | util/animation/two_steps_score_animation.py:83-142 | the new state, which is also the result, is `UpdateSpec` of the old state, and the invariant is kept |
| Scorer.FrameIndexInRange | util/animation/two_steps_score_animation.py:290-294 | a step-two score in [0, 100] picks a frame index in [0, 58] of the 60 loaded, 0 at score 0 and 58 at score 100 |
| Scorer.Sweep | util/animation/two_steps_score_animation.py:293 | the swept scores are the old score alone when nothing changed, else 11 values, from the old score to the new one |
| Scorer.SweepBetween | util/animation/two_steps_score_animation.py:293 | every swept score lies between the two end scores |
| Scorer.SameSideTarget | util/animation/two_steps_score_animation.py:484-485 | a step-one target of the opposite sign is mirrored, so the target ends up on the old score's side |
| Scorer.HideMarker | util/animation/two_steps_score_animation.py:277 | the hide marker is the block manager's mark for `Hide` |
| Scorer.SubmarineNeverHidesAsWritten | util/animation/two_steps_score_animation.py:454 | as written, no mark the block manager reports is `'Hide'`, so the submarine never shows its hidden-block frame |
| Scorer.HidesExactlyOnHideBlocks | util/animation/two_steps_score_animation.py:277-280 | with the `'+'` marker each animation hides exactly on blocks named `Hide` |
| Scorer.FramesInRange | util/animation/two_steps_score_animation.py:277-300 | a hidden block yields exactly one background frame, and between valid states every step-two frame indexes the loaded list |
| Scorer.SubmarineStaysOnOneSide | util/animation/two_steps_score_animation.py:478-494 | the submarine's step-one frames never cross the zero line |
| Scorer.TwoStepAnimation.constructor | util/animation/two_steps_score_animation.py:147-160 | a fresh scorer in its reset state, an empty queue and the lock released |
| Scorer.TwoStepAnimation.Reset | util/animation/two_steps_score_animation.py:162-164 | the queue is emptied and the scores are reset |
| Scorer.TwoStepAnimation.MkFrames | util/animation/two_steps_score_animation.py:271-331 | appends exactly `FramesFor` of the move to the queue |
| Scorer.TwoStepAnimation.UpdateScore | util/animation/two_steps_score_animation.py:252-269 | refused while locked; otherwise the scorer moves by `UpdateSpec` (state kept when data is `None`), the move's frames are queued, and the lock is released |
| ScoreAnimation.SafeUpdate | util/animation/score_animation.py:115-121 | the stepped score clamped into [0, 100]: exact inside, 100 above, 0 below |
| ScoreAnimation.FrameScoresShape | util/animation/score_animation.py:131-138 | the walk from the old to the new score includes both ends, takes one score per integer, and moves by exactly ±1 |
| ScoreAnimation.FrameScoresBetween | util/animation/score_animation.py:138 | every walked score lies between the two ends |
| ScoreAnimation.GifFrameOf | util/animation/score_animation.py:78-79 | gif buffer entry j holds gif frame `int(j/2)+1`, which is at least 1 |
| ScoreAnimation.BuildingFrames | util/animation/score_animation.py:138-162 | one frame per walked score |
| ScoreAnimation.IndexablePrefix | util/animation/score_animation.py:138-139 | the longest run of walked scores that index the buffer; it is the whole walk iff every score does |
| ScoreAnimation.FramesUntilError | util/animation/score_animation.py:138-162 | the frames made before the walk hits a score the buffer cannot index |
| ScoreAnimation.GifBufferTooShortAsWritten | util/animation/score_animation.py:78 | as written (100 gif frames), the move from 90 to the clamped 100 reaches `gif_buffer[100]`; only 10 of its 11 frames are made |
| ScoreAnimation.GifBufferCoversScores | util/animation/score_animation.py:138-139 | with one gif frame per score, any move between scores in [0, 100] indexes in range |
| ScoreAnimation.BuildingScoreAnimation.constructor | util/animation/score_animation.py:61-71 | the default score 50, a gif frame per score, and an empty queue |
| ScoreAnimation.BuildingScoreAnimation.Reset | util/animation/score_animation.py:103-108 | the given score (unclamped), or 50 for `None`, is set and returned; the queue is emptied |
| ScoreAnimation.BuildingScoreAnimation.PopAll | util/animation/score_animation.py:110-113 | hands over the queued frames in order and empties the queue |
| ScoreAnimation.BuildingScoreAnimation.SafeUpdateScore | util/animation/score_animation.py:115-121 | returns `SafeUpdate` of the current score without changing it |
| ScoreAnimation.BuildingScoreAnimation.MkFrames | util/animation/score_animation.py:123-164 | succeeds iff every walked score indexes the gif buffer; then the queue is `BuildingFrames` and the score is the target; otherwise the frames made before the error stay queued and the score is kept |
| ScoreAnimation.BuildingScoreAnimation.MkFramesInRange | util/animation/score_animation.py:123-164 | with the full gif buffer a move between scores in [0, 100] always completes |
| ScoreAnimation.MkFramesNoneIsOneFrame | util/animation/score_animation.py:124-138 | `mk_frames(None)` queues the current score once |
| HidReader.Digit2Int | util/device/realtime_hid_reader.py:37-49 | the little-endian 16-bit number in bytes 3 and 4, in [0, 65535]; fewer than 5 bytes fail |
| HidReader.Digit2IntRoundTrip | util/device/realtime_hid_reader.py:46-48 | decoding inverts the encoding of any 16-bit number, whatever the other bytes are |
| HidReader.Digit2IntInjective | util/device/realtime_hid_reader.py:46-48 | equal decodes mean equal bytes 3 and 4 |
| HidReader.CalibrationSpan | util/device/realtime_hid_reader.py:268 | the divisor `max(100, g200 - g0)`: the gap when the gap is at least 100, exactly 100 otherwise |
| HidReader.Number2PressureCalibration | util/device/realtime_hid_reader.py:251-270 | the offset reads 0 g; one gap above it reads 200 g when the gap is at least 100, and 100 above it reads 200 g otherwise; the conversion is strictly increasing |
| HidReader.NextPosition | util/device/realtime_hid_reader.py:159-160 | `i += 1; i %= n` moves on one place and wraps from the last row to the first |
| HidReader.PlayWithoutWrap | util/device/realtime_hid_reader.py:150-161 | without wrapping, k calls of `get` return rows i to i+k in order |
| HidReader.PlaySplit | util/device/realtime_hid_reader.py:150-161 | playing a+b rows is playing a rows, then b more from where they stopped |
| HidReader.FullCycle | util/device/realtime_hid_reader.py:150-161 | n calls return the recording rotated to the start position and come back to it; from the front they replay it exactly |
| HidReader.FakePressure.constructor | util/device/realtime_hid_reader.py:113-127 | the default two-row recording, played from its first row |
| HidReader.FakePressure.Load | util/device/realtime_hid_reader.py:122-148 | `None` installs the default; an empty recording fails and changes nothing; otherwise it replaces the old one, restarts at row 0 and returns the row count |
| HidReader.FakePressure.Get | util/device/realtime_hid_reader.py:150-161 | returns the current row and moves on cyclically (`GetStep`) |
| HidReader.ReadingOf | util/device/realtime_hid_reader.py:319-336 | the reading of one pass fails exactly when a device read has fewer than 5 bytes |
| HidReader.ReadingCases | util/device/realtime_hid_reader.py:319-336 | no device and no noise give `(-1, -1)`; a device reading is the decoded number and its calibration; the noise base is 49184 |
| HidReader.DelayWindowShape | util/device/realtime_hid_reader.py:349-351 | the delay window is the last D samples for 0 < D < n, the whole log for D = 0, and never empty for D >= 0 |
| HidReader.DelayedCount | util/device/realtime_hid_reader.py:343-356 | with a fixed delay each append keeps one summary row per sample beyond the first D; only a negative delay can fail |
| HidReader.RealTimeHIDReader.constructor | util/device/realtime_hid_reader.py:205-213 | rate, period `1/rate`, delay in seconds and `int(delay * rate)` points; the calibration `g0`, `g200`, `offset_g0` as given; a recorded-pressure player holding the default recording at row 0; empty buffers, not running, not reading |
| HidReader.RealTimeHIDReader.RecomputeDelay | util/device/realtime_hid_reader.py:218-220 | the new delay in seconds and points; everything else is kept |
| HidReader.RealTimeHIDReader.Stop | util/device/realtime_hid_reader.py:224-239 | clears the running flag and returns a copy of the samples |
| HidReader.RealTimeHIDReader.BeginReading | util/device/realtime_hid_reader.py:278-311 | crash flag cleared, running, both buffers empty, count 0, the start time taken |
| HidReader.RealTimeHIDReader.Record | util/device/realtime_hid_reader.py:343-356 | the sample is appended; the summary rows become `DelayedAfter`, or an empty window fails with the crash flag set |
| HidReader.RealTimeHIDReader.ReadOnce | util/device/realtime_hid_reader.py:319-356 | an undecodable read crashes with nothing appended; otherwise the next recorded row is taken, the sample stamped `t - tic` is appended, and the summary rows are `DelayedAfter`, stamped `t - tic - delay` |
| HidReader.RealTimeHIDReader.Tick | util/device/realtime_hid_reader.py:312-356 | exits once stopped; waits, changing nothing, while `t < tic + n * ts`; otherwise reads once as `ReadOnce` states |
| HidReader.RealTimeHIDReader.Peek | util/device/realtime_hid_reader.py:380-397 | `buffer[-k:]`: a suffix; all of it for k = 0 or k >= len; exactly the last k samples for 0 < k <= len; for k < 0 the samples from index -k on, or none when -k > len |
| HidReader.RealTimeHIDReader.PeekDelayed | util/device/realtime_hid_reader.py:394-395 | the same on the summary rows |
| HidReader.RealTimeHIDReader.PeekBySeconds | util/device/realtime_hid_reader.py:364-378 | the last `int(sec * rate)` samples, or all of them when that is 0 or too many |
| HidReader.RealTimeHIDReader.PeekDelayedBySeconds | util/device/realtime_hid_reader.py:377-378 | the same on the summary rows |
| HidReader.ShortPeekReturnsEverything | util/device/realtime_hid_reader.py:377-397 | asking for less than one sample's worth of time returns every sample, not none |
| Screens.PeekLength | util/qt/building_animation_screen.py:105 | `max(10, 2 * delayedLength)` |
| Screens.StdStep | util/qt/building_animation_screen.py:174-178 | the building step is -10 exactly when the std exceeds the threshold, +10 otherwise |
| Screens.StdStepAgainstScorer | util/qt/building_animation_screen.py:175-178 | away from saturation, the building step and the two-step scorer's step agree exactly when the std is not on the threshold |
| Screens.Schedule | util/qt/building_animation_screen.py:155-159 | an update is due exactly when the time is past the next update time, which then moves on by 3 |
| Screens.ScheduleNeverSkips | util/qt/building_animation_screen.py:155-159 | the next update time moves by 0 or 3 per redraw, never more |
| Screens.SelectColumns | util/qt/building_animation_screen.py:145-148 | on an `F` block the recorded mean and std, otherwise the real ones, row by row with the timestamps kept |
| Screens.FakeColumnsOnlyOnFakeBlocks | util/qt/building_animation_screen.py:145-148 | when the two columns differ, the recorded pressure is used only for `Fake` blocks |
| Screens.ConsumeMarks | util/qt/building_animation_screen.py:135-137 | every mark `consume` reports is a session-level mark or a block's mode mark |
| Screens.NeverStopsAsWritten | util/qt/building_animation_screen.py:140-141 | as written no report carries `'E'`, so the timeline never stops the session |
| Screens.StopsExactlyWhenExhausted | util/qt/building_animation_screen.py:140-141 | with the `Block empty` mark the session stops exactly when no block is left, and it reaches that point once the last block has ended |
| Screens.DropAllAfterLastStop | util/block_manager.py:92-98 | after the last stop, the drop loop empties the queue |
| Screens.BuildingScreen.constructor | util/qt/building_animation_screen.py:54-63 | the animation is reset and the schedule starts at 0 |
| Screens.BuildingScreen.UpdateAnimationScore | util/qt/building_animation_screen.py:174-188 | the animation's score after the std step, clamped into [0, 100]; the score itself is not changed |
| Screens.BuildingScreen.ShowReport | util/qt/building_animation_screen.py:137-141 | shows the mark and the progress `100 (1 - ratio)`; stops the reader exactly when the session is finished |
| Screens.BuildingScreen.Rescore | util/qt/building_animation_screen.py:158-164 | the score steps by the last selected row's std and the frames of the move are queued |
| Screens.BuildingScreen.React | util/qt/building_animation_screen.py:137-171 | the report is shown and the schedule advances; when due, the score takes the std step and the queue holds the frames of that move, otherwise score and queue are unchanged |
| Screens.BuildingScreen.Advance | util/qt/building_animation_screen.py:127-171 | the timeline is consumed at the latest sample time; a 3-tuple or a zero-length design raises with the screen fields, the score, the queue and the reader unchanged; a 4-tuple is shown, the schedule advances and the score and frames move exactly when due |
| Screens.BuildingScreen.Draw | util/qt/building_animation_screen.py:100-172 | the frame count rises; an empty peek returns with the timeline, the screen fields, the score, the queue and the reader unchanged; otherwise as `Advance` at the latest sample time |
| Screens.TwoStepsScreen.constructor | util/qt/two_steps_score_animation_screen.py:57-70 | the animation is reset (empty queue, initial scores) and the schedule starts at 0 |
| Screens.TwoStepsScreen.ShowReport | util/qt/two_steps_score_animation_screen.py:141-147 | shows the mark and the progress; stops the reader exactly when the session is finished |
| Screens.TwoStepsScreen.Rescore | util/qt/two_steps_score_animation_screen.py:168-178 | the thresholds and the reference are copied from the options; unlocked, the scorer updates on the selected rows and the frames are queued; locked, the state and the queue are unchanged; the lock is kept |
| Screens.TwoStepsScreen.React | util/qt/two_steps_score_animation_screen.py:141-185 | the report is shown and the schedule advances; when due, the options' parameters are set and the scorer moves and queues frames unless locked (then state and queue are kept); when not due, state, parameters and queue are unchanged |
| Screens.TwoStepsScreen.Advance | util/qt/two_steps_score_animation_screen.py:133-185 | the timeline is consumed at the latest sample time; a raise leaves the screen fields, the scorer, its parameters, the queue, the lock and the reader unchanged; a 4-tuple is handled as in `React` |
| Screens.TwoStepsScreen.Draw | util/qt/two_steps_score_animation_screen.py:107-186 | the frame count rises; an empty peek changes nothing else (timeline, screen fields, scorer, queue, reader); otherwise as `Advance` at the latest sample time |
| FeedbackMode.Value | util/feedback_mode_enum.py:28-33 | each member's value is in 1..5 |
| FeedbackMode.FromValue | util/feedback_mode_enum.py:28-33 | a value names a member exactly when it is in 1..5 |
| FeedbackMode.ValuesIdentifyMembers | util/feedback_mode_enum.py:28-33 | the values are distinct and look their members back up |
| FeedbackMode.FromValueInverts | util/feedback_mode_enum.py:28-33 | every value in 1..5 is the value of the member it names |
| FeedbackMode.Info | util/feedback_mode_enum.py:36-48 | the label of each member, `None` exactly for a non-member |
| FeedbackMode.InfoIsInjective | util/feedback_mode_enum.py:36-48 | different members get different labels, and every label ends in 反馈 |
| Joint.HexWithoutX | util/joint.py:72 | with its `x` removed, `hex(e)` is `0` followed by the hex digits |
| Joint.HexByteDigits | util/joint.py:72 | the last two characters are the component's two low hex digits, `0` first below 16 |
| Joint.HexByteRoundTrip | util/joint.py:72 | a component in 0..255 becomes two lowercase hex digits that read back as it |
| Joint.HexRgbRoundTrip | util/joint.py:71-73 | the colour text is `#` and six hex digits and parses back to the colour |
| Joint.JoinSplit | util/joint.py:90-91 | joining the `split` pieces gives the text back |
| Joint.ShortPosix | util/joint.py:88-91 | no path, or a path with an empty piece, fails (the fallback); otherwise the short path is made |
| Joint.ShortPosixShape | util/joint.py:90-91 | the short path spells each piece's initial followed by `/`, then the file name |
| Joint.AbsolutePathFallsBack | util/joint.py:88-99 | an absolute path starts with an empty piece and always takes the fallback |
| Joint.AOrB | util/joint.py:94-96 | the text when it is non-empty, the placeholder when it is empty |
| Joint.DesignTextShape | util/joint.py:110-128 | six header lines, then one numbered line per block; the fifth line holds the total; the first two say `Cached` exactly on the fallback |
| Joint.RenderBlocks | util/joint.py:110-117 | the loop's running total is the sum of the block durations and its lines are `BlockLine`s, one per block in order, numbered from 1 out of the block count |
| Joint.ShortPathNotCached | util/joint.py:88-91 | a short path has `/` as its second character, so it is never the fallback text `Cached` |
| Joint.HeaderNamesSource | util/joint.py:119-121 | the short-path header line reads `Cached` only when the short path is `Cached` |
| Joint.BlockLineNumbers | util/joint.py:115-116 | the numbers on a block line read back as its position and its duration |
| Joint.EditsAndTotals | util/joint.py:168-186 | adding a block lengthens the total by its duration, repeating doubles the list and its total, clearing gives 0 |
| Joint.DesignPanel.constructor | util/joint.py:144 | the panel starts on the default design, shown through the fallback |
| Joint.DesignPanel.UpdateExperimentDesign | util/joint.py:82-134 | the running design is the resolved one and the text is `DesignText` |
| Joint.DesignPanel.AddBlock | util/joint.py:168-178 | appends `[mode, blockLength]` and re-renders through the fallback |
| Joint.DesignPanel.Repeat | util/joint.py:180-182 | the buffer is followed by itself, then re-rendered |
| Joint.DesignPanel.Clear | util/joint.py:184-186 | the buffer is emptied, then re-rendered |
| LoadUi.SearchChildren | util/qt/load_ui.py:139-142 | every key found carries the prefix |
| LoadUi.SearchChildrenKeeps | util/qt/load_ui.py:135-143 | a name is kept iff it has the prefix and some widget has it; its widget is the last with that name |
| LoadUi.AttrName | util/qt/load_ui.py:153 | the attribute is the key without the prefix |
| LoadUi.AttrNameInjective | util/qt/load_ui.py:151-162 | two prefixed keys bind the same attribute only if they are the same key |
| LoadUi.MainWindow.constructor | util/qt/load_ui.py:65-67 | the children are the search result and each is bound under its attribute name |
| LoadUi.MainWindow.AssignChildren | util/qt/load_ui.py:147-164 | each child is bound at its attribute name; no other attribute is added, and the others are kept |

## Findings

| source | as written | input that shows it | evidently intended | confidence | as-written member | corrected member |
|---|---|---|---|---|---|---|
| util/animation/score_animation.py:78 | `parse_gif` keeps `range(100)` frames, but the clamped score reaches 100 and `mk_frames` indexes `gif_buffer[s]` for every score on the way (line 139) | score 90, std at or below the threshold: target 100, and `gif_buffer[100]` raises after 10 frames | one gif frame per score in [0, 100], i.e. 101 frames | not executed | ScoreAnimation.GifBufferTooShortAsWritten | ScoreAnimation.GifBufferCoversScores |
| util/qt/building_animation_screen.py:140 | both screens stop the session on mark `'E'` (also two_steps_score_animation_screen.py:146), which `consume` never returns | any design, once its last block has ended: `consume` reports `'Block empty'` and the reader keeps running | stop on the exhausted-timeline mark `'Block empty'` | not executed | Screens.NeverStopsAsWritten | Screens.StopsExactlyWhenExhausted |
| util/animation/two_steps_score_animation.py:454 | the submarine animation hides on block name `'Hide'`, but the screen passes the block manager's mark, `'+'` for a `Hide` block (two_steps_score_animation_screen.py:178) | a design with a `Hide` block on the cat-leaves-submarine screen: the submarine frames are still drawn | hide on `'+'`, as the tree-climbing animation does (line 277) | not executed | Scorer.SubmarineNeverHidesAsWritten | Scorer.HidesExactlyOnHideBlocks |

The rest of the model uses the corrected versions:
- the building animation's gif buffer has 101 entries (`ScoreAnimation.GifFrames`);
- the screens stop on `Screens.SessionFinished`;
- both animations hide on `Scorer.HideMarker`.

## Left out

- Device I/O: HID enumeration, opening the device and `device.read(16)` are left out; the bytes read are a parameter of `HidReader.RealTimeHIDReader.Tick`.
- The clock and the 1 ms sleep are left out; the current time is a parameter of the tick, and the loop is driven one pass at a time.
- Threads are left out. `start()` and its reading thread become `BeginReading` followed by repeated `Tick` calls, and the update threads of the screens run in place.
- `start()` does not guard against a second reading thread, and concurrent readers of the buffers are not modelled.
- Scorer.TwoStepAnimation.MkFrames: the `animating_loop` thread it starts is left out, so the frames stay queued; `Animation.AutomaticAnimation.AnimatingLoop` models the loop on its own, without its pacing sleep. The same holds for ScoreAnimation.BuildingScoreAnimation.MkFrames.
- Imaging (PIL pictures, resizing, pasting, the score text and its bar) is left out; frames are values naming what they show, and the picture layout of the step-one frames is not modelled.
- Scorer.Sweep: `np.arange` over floats is modelled as exactly 11 evenly spaced values; its floating-point rounding, which can add or drop an end point, is not modelled.
- Floating point in general is modelled by exact reals.
- opensimplex noise is a parameter of the tick.
- `np.std` is a function parameter of the tick. The source's population standard deviation is not spelled out, and neither are the `tuple(...)` conversions.
- HidReader.FakePressure.Load: the statistics it logs (max, min, mean, std) are left out; only its failure on an empty recording is kept. `load_file` (JSON reading) is left out.
- The recorded-pressure player is a class attribute shared by every reader in the source; here each reader owns one.
- Animation.AutomaticAnimation.constructor: `fifo_buffer` is a class attribute of `AutomaticAnimation` (automatic_animation.py:46), so every instance that has not rebound it appends to one shared list; here each instance starts with its own empty queue. The aliasing between instances is not modelled.
- Scorer.TwoStepAnimation.constructor: its `__init__` does not rebind the class-level `fifo_buffer`, only `reset()` does, so until then it shares the queue with every other such instance; here the queue is its own and empty from the start.
- Reading a buffer before the first reading pass is an `AttributeError` in the source; here the buffers start empty.
- `rop.idealSamplingRate`, `rop.g0`, `rop.g200`, `rop.offsetG0` and `rop.productString` are not in options.py; they are constructor parameters of `HidReader.RealTimeHIDReader`, which requires a positive rate. util/__init__.py's project constants are not part of this model.
- HidReader.RealTimeHIDReader.Stop: the source does not join the reading thread; the model only clears the flag and copies the samples.
- `TargetDevice.open_path` closes the device on exit; device closing is left out.
- Resource loading (fonts, the gif, the frame pictures) and its failure flags are left out; the animations are built with their resources loaded.
- Joint: the colour dialog, the style sheets, `_bind_number` and the other widget bindings are left out, and so are the file dialogs with design loading and saving (JSON).
- Joint.DesignPanel: the text is kept as its list of lines rather than `'\n'.join(lines)`; `rop.design` is the panel's `design` field, and the line edits are a parameter.
- Joint.HexByteRoundTrip: `hex()` of a negative component is not modelled, because colour components are natural numbers.
- LoadUi.MainWindow: the window title, the layout and the window flags are left out. The widgets' own attribute names are assumed not to collide with the window's other fields, so binding a widget never overwrites one of them.
- Screens: the LCD read-outs, the legend, the image updates, `tiny_window` and `on_size_changed` are left out.
- Screens: `rop` is passed to `Draw` as the options in force.
- ScoreAnimation.BuildingScoreAnimation.constructor: loads 101 gif frames, the corrected count from "## Findings", not the 100 of score_animation.py:78; the as-written count is `ScoreAnimation.GifFramesAsWritten`, shown only by `GifBufferTooShortAsWritten`, so no animation instance runs the as-written program.
- Screens.BuildingScreen.Valid: requires the 101-frame gif buffer for the same reason, so `BuildingScreen.Rescore` never meets the IndexError.
- Screens.BuildingScreen.ShowReport: stops the reader on `Block empty`, the corrected mark, not on `'E'` as building_animation_screen.py:140 does; the as-written test is `Screens.StopsOnMarkAsWritten`.
- Screens.TwoStepsScreen.ShowReport: stops on `Block empty`, not on `'E'` as two_steps_score_animation_screen.py:146 does.
- Scorer.FramesFor: hides the submarine on the mark `'+'`, the corrected test, not on `'Hide'` as two_steps_score_animation.py:454 does; the as-written marker is `Scorer.HideMarkerAsWritten`, used only by `Scorer.SubmarineNeverHidesAsWritten`.
- The other screens (curve, holding ball, replay, welcome), the performance ruler and main.py are not part of this model.

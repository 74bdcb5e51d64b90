# IMU repetition counter, modelled in Dafny

The firmware counts exercise repetitions from a stream of 6-axis IMU samples
(accelerometer `ax ay az`, gyroscope `gx gy gz`). Two variants exist, and a
build uses one or the other. Both keep a ring of `WINDOW_SIZE` = 100 samples
and a parallel ring of magnitudes. On every sample, each variant:

- writes the sample at the write index;
- computes a magnitude from the difference to the previous sample once the
  window has filled;
- accepts a repetition when the candidate is a strict local maximum over a
  half-window of five slots each side, is above a threshold, and lies far
  enough forward of the last accepted peak.

A backward copy of the ring feeds an external classifier. The variants differ
as follows:

- `repetition_count.cpp` (module `RepetitionCount`, class
  `RepetitionCounter`):
  - **Magnitude.** The group of the leading axis (`LEADING_AXIS`, "gX" by
    default) is weighted by `LEADING_AXIS_WEIGHT` = 10, and the magnitude is
    smoothed by an exponential moving average with `ALPHA` = 0.1.
  - **Peak test.** The *filtered* value is compared with the raw neighbours.
    The threshold is 1.0 and the minimum distance is 20.
  - **Early return.** A detection returns before the write index moves. The
    detected sample therefore stays in the write slot only until the next call
    overwrites it.
  - **Export.** The copy starts one slot behind the write index.
- `peak_detection.cpp` (module `PeakDetection`, class `MotionDetector`):
  - **Magnitude.** Fixed weights 0.85 and 0.1 give a total, and the magnitude
    is `total * (1 + 2 * total)`.
  - **Peak test.** The stored magnitude itself is compared with its
    neighbours. The threshold is 50 and the minimum distance is 15.
  - **Advance.** The write index always advances.
  - **Export.** The copy starts at the write index itself.

Shared definitions:

- Module `Sensor` (`types.h`) holds the sample record, the two size constants
  and an abstract square root `SqrtFn`. `SqrtFn` is any function that maps 0
  to 0 and non-negative reals to non-negative reals.
- Module `Ring` holds the ring-index arithmetic of both variants and the
  strict local-maximum predicate.
- Every C `%` in the core has a non-negative left operand. `Mod` models it as
  repeated subtraction, and `Ring.ModIsRemainder` proves it equal to the
  remainder.

Each class keeps a ghost `history` of the samples that advanced the write
index. Its invariant `RingValid` (the `Retains` predicate) states which
history element every slot holds, and that unreached slots still hold the
zero sample:

- `MotionDetector` retains the last `N` samples.
- `RepetitionCounter` retains the last `N - 1`, because the write slot may hold
  a sample whose call detected a repetition and that the next call overwrites.

From this invariant, the export methods state what they return in terms of
the stream, and not only in terms of buffer slots.

Both classes take these as constructor parameters, with the source's values
as defaults:

- the ring size;
- the half-window;
- the threshold;
- the minimum peak distance;
- the export length.

The export length defaults to 40 in `repetition_count.cpp`, which redeclares
it at line 25, and to 28 in `types.h`. `N` defaults to the 100 of `types.h`.

Behaviours of the code that the model keeps and proves:

- **Start sentinels.** Neither start value of `lastPeakIndex` lets every
  first candidate through the minimum-distance rule.
  - In `repetition_count.cpp` the sentinel is `-MIN_PEAK_DISTANCE`. The first
    candidate passes only when `index + MIN_PEAK_DISTANCE < N`, so candidates
    in slots 80..99 are rejected (`RepetitionCount.FirstCandidateDistance`).
  - In `peak_detection.cpp` the sentinel is `-N`. The first distance is the
    index itself, so candidates in slots 0..14 are rejected
    (`PeakDetection.FirstCandidateDistance`).
- **Export after a detection.** In `repetition_count.cpp` the export starts
  one slot behind the write index. After a detecting call, its element 0 is
  therefore the sample *before* the detected one, not the most recently
  written sample.

## Model

| member | source | states |
|---|---|---|
| Sensor.SumOfSquares | repetition_count.cpp:102-103 | the sum of three squared axis differences is never negative, and is zero when all three differences are zero |
| Sensor.AccelNorm | repetition_count.cpp:102 | the accelerometer difference norm is never negative, and is zero when the three accelerometer components are unchanged |
| Sensor.GyroNorm | repetition_count.cpp:103 | the gyroscope difference norm is never negative, and is zero when the three gyroscope components are unchanged |
| Ring.Mod | repetition_count.cpp:133-134 | the remainder of a non-negative operand lies in `[0, n)` and never exceeds the operand |
| Ring.ModIsRemainder | repetition_count.cpp:180 | `Mod` agrees with the integer remainder on every non-negative operand, so every `% WINDOW_SIZE` of the code is modelled exactly |
| Ring.PreviousIndex | repetition_count.cpp:153 | the conditional previous slot lies in `[0, N)`, equals `(index - 1 + N) mod N`, and is the slot one step before `index` |
| Ring.LeftIndex | repetition_count.cpp:133 | the left neighbour `(index - j + N) mod N` is a valid slot |
| Ring.RightIndex | repetition_count.cpp:134 | the right neighbour `(index + j) mod N` is a valid slot |
| Ring.LeftOfRight | repetition_count.cpp:133-134 | stepping `j` slots right and then `j` slots left returns to the starting slot |
| Ring.NextIndex | repetition_count.cpp:180 | the advanced write index is `index + 1`, or 0 when that reaches `N` |
| Ring.LeftIndexLinear | repetition_count.cpp:202 | the slot `j` back from `index` is `index - j` without a wrap and `index - j + N` with one |
| Ring.RingDistance | repetition_count.cpp:168 | the debounce distance `(index - last + N) mod N` lies in `[0, N)`, also for a negative start sentinel |
| Ring.RingDistanceSteps | repetition_count.cpp:168 | the distance from slot `p` to slot `q` is `d` exactly when `d` forward steps from `p` land on `q` |
| Ring.DistanceAfterSteps | peak_detection.cpp:83 | a slot reached by `k < N` advances from `p` lies at distance exactly `k` from `p` |
| Ring.SentinelDistance | repetition_count.cpp:40 | against the sentinel `-s`, the distance of slot `index` is at least `s` exactly when `index + s < N` |
| Ring.PushRetains | repetition_count.cpp:156 | writing a sample at the write index and advancing it keeps the ring holding the last `span` samples of the extended stream |
| Ring.OverwriteRetains | repetition_count.cpp:174 | overwriting the write slot without advancing keeps the last `span < N` samples of a stream that has filled the ring |
| Ring.NewestRetained | repetition_count.cpp:160 | the slot before the write index holds the newest sample, the previous sample of the magnitude |
| Ring.BackRetained | repetition_count.cpp:202 | the slot `k` back from the write index holds the sample pushed `k` pushes ago, or the zero sample before the stream reaches it |
| Ring.WriteSlotRetained | peak_detection.cpp:110 | in a ring keeping a full lap, the write slot holds the oldest sample once the ring is full, and the zero sample before that |
| Ring.PeakCopyRetained | peak_detection.cpp:108-114 | the peak detector's copy step `k` reads the oldest retained sample at `k = 0`, and the sample pushed `k` pushes ago otherwise |
| Ring.RepCopyRetained | repetition_count.cpp:200-204 | the repetition counter's copy step `i` reads the sample pushed `i + 1` pushes ago, newest first, and the zero sample past the stream's start |
| Ring.PlateauIsNoPeak | peak_detection.cpp:53-63 | two adjacent equal magnitudes make neither of their slots a strict local maximum |
| PeakDetection.TotalMagnitude | peak_detection.cpp:42-46 | the weighted sum `0.85 * accel norm + 0.1 * gyro norm` is never negative |
| PeakDetection.Emphasis | peak_detection.cpp:47-49 | the emphasis `total * (1 + 2 * total)` never lies below a non-negative total |
| PeakDetection.EmphasisWidensGaps | peak_detection.cpp:47-49 | on non-negative totals the emphasis is non-decreasing, and it widens every gap between two totals |
| PeakDetection.DifferenceMagnitude | peak_detection.cpp:33-50 | the difference magnitude is at least the weighted total, which is non-negative, and is zero for an unchanged sample |
| PeakDetection.FirstCandidateDistance | peak_detection.cpp:19 | against the start sentinel `-N` the debounce distance of a slot equals the slot, so the first candidate passes exactly when its index is at least the minimum distance |
| PeakDetection.MotionDetector.constructor | peak_detection.cpp:14-19 | the reset state: zeroed buffers, index 0, window not full, no peaks, sentinel `-N`, empty history |
| PeakDetection.MotionDetector.IsLocalMaximum | peak_detection.cpp:53-63 | the scan returns true exactly when `magnitudes[index]` is strictly above both neighbours at every offset `1..peakWindow`; it changes nothing |
| PeakDetection.MotionDetector.EvaluatePeak | peak_detection.cpp:82-89 | acceptance is the conjunction of local maximum, threshold and distance; on acceptance the count grows by one and the last peak moves to `index`, otherwise both are unchanged |
| PeakDetection.MotionDetector.StoreMagnitude | peak_detection.cpp:73-75 | only slot `index` of the magnitudes changes, to the difference magnitude of the two slots' samples, and no magnitude becomes negative |
| PeakDetection.MotionDetector.Advance | peak_detection.cpp:94-97 | the write index moves one slot forward modulo `N`, the window latches full when it wraps to 0, and the ring invariant holds for the extended stream |
| PeakDetection.MotionDetector.DetectMotion | peak_detection.cpp:66-100 | the sample is stored at the write index; the magnitude of the newest against the previous sample is written there only when the window was full; the result is true iff the window was full and the candidate passes all three tests; count and last peak move only on acceptance; the index always advances and `windowFull` latches |
| PeakDetection.MotionDetector.GetAccumulatedSensorData | peak_detection.cpp:103-118 | element `i` is `window[(cur - i + N) mod N]`: element 0 is the oldest retained sample (zero before the window fills), and elements `1..` are the samples pushed `i` pushes ago (zero past the stream's start); nothing changes |
| RepetitionCount.ParseLeadingAxis | repetition_count.cpp:80-99 | a recognised axis comes only from the matching name, and the null pointer or any other name selects no leading axis |
| RepetitionCount.ParseAxisName | repetition_count.cpp:80-99 | every one of the six names is recognised as its own axis |
| RepetitionCount.AxisWeights | repetition_count.cpp:76-99 | an accelerometer axis weights the accelerometer group by `LEADING_AXIS_WEIGHT`, a gyroscope axis weights the gyroscope group, and both stay 1.0 otherwise |
| RepetitionCount.WeightedMagnitude | repetition_count.cpp:66-109 | the weighted magnitude is never negative, and is zero for an unchanged sample |
| RepetitionCount.UnweightedMagnitude | repetition_count.cpp:76-77 | without a leading axis the magnitude is the plain sum of the two group norms |
| RepetitionCount.LeadingAxisAmplifies | repetition_count.cpp:80-106 | a motion confined to the leading axis's group weighs `LEADING_AXIS_WEIGHT` times its unweighted magnitude, and one confined to the other group weighs the same as unweighted |
| RepetitionCount.Ema | repetition_count.cpp:116-118 | for a smoothing factor in `[0, 1]` one filter step lands between the previous filtered value and the new magnitude |
| RepetitionCount.SmoothError | repetition_count.cpp:116-118 | under a constant magnitude, the error after `k` filter steps is `(1 - ALPHA)^k` times the initial error |
| RepetitionCount.DecayBound | repetition_count.cpp:116-118 | the share `(1 - ALPHA)^k` of the error left after `k` filter steps is at most `1 / (1 + k ALPHA)`, so it falls towards 0 |
| RepetitionCount.SmoothConverges | repetition_count.cpp:116-118 | under a constant magnitude, the error after `k` filter steps is at most `1 / (1 + k ALPHA)` of the initial error, so the filter converges to the input |
| RepetitionCount.SmoothApproaches | repetition_count.cpp:116-118 | under a constant magnitude, the filtered value moves monotonically towards it from its starting side and never overshoots it |
| RepetitionCount.FirstCandidateDistance | repetition_count.cpp:40 | against the start sentinel `-MIN_PEAK_DISTANCE`, the first candidate passes the debounce exactly when `index + MIN_PEAK_DISTANCE < N` |
| RepetitionCount.RepetitionCounter.constructor | repetition_count.cpp:30-40 | the reset state: zeroed buffers and filter, index 0, window not full, no peaks, sentinel `-MIN_PEAK_DISTANCE`, empty history |
| RepetitionCount.RepetitionCounter.ApplyLowPassFilter | repetition_count.cpp:116-118 | the filtered magnitude becomes `ALPHA * m + (1 - ALPHA) * old`, which the `Ema` contract places between `old` and `m` |
| RepetitionCount.RepetitionCounter.IsLocalMaximum | repetition_count.cpp:127-142 | the scan returns true exactly when the filtered magnitude is strictly above both raw neighbours at every offset `1..5`; it changes nothing |
| RepetitionCount.RepetitionCounter.EvaluatePeak | repetition_count.cpp:166-170 | acceptance is the conjunction of local maximum, threshold and distance; under a positive minimum distance a candidate in the last peak's own slot is never accepted, so the call after a detection cannot detect again; on acceptance the count grows by one and the last peak moves to `index`, otherwise both are unchanged |
| RepetitionCount.RepetitionCounter.ProcessFullWindow | repetition_count.cpp:159-177 | only slot `index` of the magnitudes changes, to the weighted magnitude; the filter takes one step on it; the result is the acceptance test with the count and last-peak updates |
| RepetitionCount.RepetitionCounter.Advance | repetition_count.cpp:179-185 | the write index moves one slot forward modulo `N`, the window latches full when it wraps to 0, and the ring invariant holds for the extended stream |
| RepetitionCount.RepetitionCounter.DetectRepetition | repetition_count.cpp:151-188 | the sample is stored at the write index; only when the window was full are the magnitude written and the filter stepped; the result is true iff the window was full and all three tests pass; on a detection the index, `windowFull` and history stay as they were, otherwise the index advances and `windowFull` latches |
| RepetitionCount.RepetitionCounter.GetAccumulatedSensorData | repetition_count.cpp:195-208 | element `i` is `window[(cur - i - 1 + N) mod N]`; that is the sample of the `i + 1`-th most recent advance of the index, newest first, or the zero sample past the stream's start; nothing changes |

## Left out

- `printSensorData` and the `Serial.print` calls (repetition_count.cpp:49-57, 171-172; peak_detection.cpp:22-30, 86-87): debug output over the serial port, with no effect on the state.
- peak_z_score.cpp is not part of this model: every line of it is commented out.
- IEEE single-precision arithmetic: magnitudes, weights and the filter are exact reals, and `sqrt` is the abstract `SqrtFn` parameter, so rounding is not modelled.
- `strcmp` over the `LEADING_AXIS` C string: modelled by `ParseLeadingAxis` over an optional string (no value for the null pointer). The counter class takes the resulting `LeadingAxis` as a constructor parameter, defaulting to `GX` as at repetition_count.cpp:15.
- `ALPHA` and `LEADING_AXIS_WEIGHT` are fixed module constants, not constructor parameters, as in the source; `Ema` itself is proved for every factor in `[0, 1]`.
- The `static` return buffer of `getAccumulatedSensorData` and its aliasing across calls: each call returns a fresh sequence.
- Linking both variants into one program: they define the same globals, so they are two independent classes.
- The clashing redeclaration of `WINDOW_SIZE` and `MODEL_SAMPLE_SIZE` at repetition_count.cpp:24-25: the ring size comes from types.h:1, and the export length is a parameter defaulting to 40.
- `peakCount` as a 32-bit C `int`: the model counts with an unbounded integer, so it omits the overflow after 2^31 - 1 detections.
- Configurations that the C code would index out of bounds: the constructors require a half-window and an export length of at most `N`. A half-window above `N` makes a left-neighbour index negative. In repetition_count.cpp an export longer than `N` indexes below 0; in peak_detection.cpp an export of `N + 1` re-reads the write slot, and from `N + 2` it indexes below 0. The model limits both to `N`. The reference values meet these limits.
- RepetitionCount.RepetitionCounter.constructor: requires a non-negative minimum peak distance, which C does not need. In C the distance is only compared (repetition_count.cpp:168), so a negative value just lets every distance pass. The model needs the bound because `RingDistance` requires `last <= index + N`, and a negative distance makes the start sentinel `-MIN_PEAK_DISTANCE` a large positive value that breaks it. The reference value 20 meets this. `MotionDetector` starts from the sentinel `-N` and accepts any minimum distance.
- RepetitionCount.RepetitionCounter.GetAccumulatedSensorData: for an export as long as the ring, the last element reads the write slot. The history-level ensures leaves that element open (it may hold an overwritten detected sample); only the slot formula covers it.

/** Model of repetition_count.cpp: a weighted magnitude with an optional
    leading axis, an exponential moving average over it, a local-maximum
    test of the smoothed value against the stored raw magnitudes, a
    distance debounce, and an early return on detection that leaves the
    write index where it is. */
module RepetitionCount {
  import opened Sensor
  import opened Ring

  // Reference configuration (repetition_count.cpp, top of file).
  const MagnitudeThreshold: real := 1.0
  const MinPeakDistance: int := 20
  const LeadingAxisWeight: real := 10.0
  const Alpha: real := 0.1
  const AccumulatedSampleSize: int := 40
  /** The half-window `isLocalMaximum` scans on each side. */
  const WindowRange: int := 5

  datatype Option<T> = None | Some(value: T)

  /** The axis configured in `LEADING_AXIS`; `NoLeadingAxis` stands for the
      null pointer and for any name none of the comparisons recognises. */
  datatype LeadingAxis = AX | AY | AZ | GX | GY | GZ | NoLeadingAxis
  {
    predicate IsAccel() { this == AX || this == AY || this == AZ }
    predicate IsGyro() { this == GX || this == GY || this == GZ }
  }

  /** The configuration string of an axis. */
  function AxisName(axis: LeadingAxis): (name: string)
    requires axis != NoLeadingAxis
  {
    match axis
    case AX => "aX"
    case AY => "aY"
    case AZ => "aZ"
    case GX => "gX"
    case GY => "gY"
    case GZ => "gZ"
  }

  /** The chain of `strcmp` tests over `LEADING_AXIS`: a recognised name
      selects its axis; the null pointer and every other name select none. */
  function ParseLeadingAxis(name: Option<string>): (axis: LeadingAxis)
    ensures axis != NoLeadingAxis ==> name == Some(AxisName(axis))
  {
    match name
    case None => NoLeadingAxis
    case Some(s) =>
      if s == "aX" then AX
      else if s == "aY" then AY
      else if s == "aZ" then AZ
      else if s == "gX" then GX
      else if s == "gY" then GY
      else if s == "gZ" then GZ
      else NoLeadingAxis
  }

  /** Every axis name is read back as its axis. */
  lemma ParseAxisName(axis: LeadingAxis)
    requires axis != NoLeadingAxis
    ensures ParseLeadingAxis(Some(AxisName(axis))) == axis
  {
    match axis
    case AX =>
    case AY => assert "aY" != "aX";
    case AZ => assert "aZ" != "aX" && "aZ" != "aY";
    case GX => assert "gX"[0] != "aX"[0];
    case GY => assert "gY"[0] != "aX"[0] && "gY" != "gX";
    case GZ => assert "gZ"[0] != "aX"[0] && "gZ" != "gX" && "gZ" != "gY";
  }

  /** The accelerometer and gyroscope weights: the leading axis's group gets
      `LEADING_AXIS_WEIGHT`, the other group keeps weight 1. */
  function AxisWeights(axis: LeadingAxis): (w: (real, real))
    ensures axis.IsAccel() ==> w == (LeadingAxisWeight, 1.0)
    ensures axis.IsGyro() ==> w == (1.0, LeadingAxisWeight)
    ensures axis == NoLeadingAxis ==> w == (1.0, 1.0)
  {
    match axis
    case AX => (LeadingAxisWeight, 1.0)
    case AY => (LeadingAxisWeight, 1.0)
    case AZ => (LeadingAxisWeight, 1.0)
    case GX => (1.0, LeadingAxisWeight)
    case GY => (1.0, LeadingAxisWeight)
    case GZ => (1.0, LeadingAxisWeight)
    case NoLeadingAxis => (1.0, 1.0)
  }

  /** `calculateWeightedMagnitude`: the weighted sum of the accelerometer and
      gyroscope difference norms; never negative, and zero when the sample
      did not change. */
  function WeightedMagnitude(sqrt: SqrtFn, axis: LeadingAxis, current: Sample, previous: Sample): (r: real)
    ensures 0.0 <= r
    ensures current == previous ==> r == 0.0
  {
    var w := AxisWeights(axis);
    var a, g := AccelNorm(sqrt, current, previous), GyroNorm(sqrt, current, previous);
    NonNegativeProduct(w.0, a);
    NonNegativeProduct(w.1, g);
    w.0 * a + w.1 * g
  }

  lemma NonNegativeProduct(x: real, y: real)
    requires 0.0 <= x && 0.0 <= y
    ensures 0.0 <= x * y
  {
  }

  /** Scaling a difference by a factor in [0, 1] keeps it between 0 and itself. */
  lemma ScaleWithin(alpha: real, d: real)
    requires 0.0 <= alpha <= 1.0
    ensures 0.0 <= d ==> 0.0 <= alpha * d <= d
    ensures d <= 0.0 ==> d <= alpha * d <= 0.0
  {
    assert d - alpha * d == (1.0 - alpha) * d;
    if 0.0 <= d {
      NonNegativeProduct(alpha, d);
      NonNegativeProduct(1.0 - alpha, d);
    } else {
      NonNegativeProduct(alpha, -d);
      NonNegativeProduct(1.0 - alpha, -d);
    }
  }

  /** Without a leading axis both groups count once. */
  lemma UnweightedMagnitude(sqrt: SqrtFn, current: Sample, previous: Sample)
    ensures WeightedMagnitude(sqrt, NoLeadingAxis, current, previous)
      == AccelNorm(sqrt, current, previous) + GyroNorm(sqrt, current, previous)
  {
  }

  /** A motion confined to the leading axis's group weighs
      `LEADING_AXIS_WEIGHT` times what it weighs without a leading axis,
      while a motion confined to the other group weighs the same. */
  lemma LeadingAxisAmplifies(sqrt: SqrtFn, axis: LeadingAxis, current: Sample, previous: Sample)
    requires axis != NoLeadingAxis
    ensures GyroNorm(sqrt, current, previous) == 0.0 ==>
      WeightedMagnitude(sqrt, axis, current, previous)
        == (if axis.IsAccel() then LeadingAxisWeight else 1.0) * WeightedMagnitude(sqrt, NoLeadingAxis, current, previous)
    ensures AccelNorm(sqrt, current, previous) == 0.0 ==>
      WeightedMagnitude(sqrt, axis, current, previous)
        == (if axis.IsGyro() then LeadingAxisWeight else 1.0) * WeightedMagnitude(sqrt, NoLeadingAxis, current, previous)
  {
  }

  /** One step of the exponential moving average of `applyLowPassFilter`:
      for a factor in [0, 1] the result lies between the previous value and
      the new magnitude. */
  function Ema(alpha: real, magnitude: real, previous: real): (r: real)
    ensures 0.0 <= alpha <= 1.0 && previous <= magnitude ==> previous <= r <= magnitude
    ensures 0.0 <= alpha <= 1.0 && magnitude <= previous ==> magnitude <= r <= previous
  {
    var r := alpha * magnitude + (1.0 - alpha) * previous;
    EmaWithin(alpha, magnitude, previous, r);
    r
  }

  lemma EmaWithin(alpha: real, magnitude: real, previous: real, r: real)
    requires r == alpha * magnitude + (1.0 - alpha) * previous
    ensures 0.0 <= alpha <= 1.0 && previous <= magnitude ==> previous <= r <= magnitude
    ensures 0.0 <= alpha <= 1.0 && magnitude <= previous ==> magnitude <= r <= previous
  {
    var d := magnitude - previous;
    assert r == previous + alpha * d;
    if 0.0 <= alpha <= 1.0 {
      ScaleWithin(alpha, d);
    }
  }

  /** The share of the initial error left after `k` filter steps,
      `(1 - ALPHA)^k`. */
  function Decay(k: nat): (d: real)
    ensures 0.0 < d <= 1.0
  {
    if k == 0 then 1.0 else (1.0 - Alpha) * Decay(k - 1)
  }

  /** The filtered value after `k` calls of `applyLowPassFilter` with the
      constant magnitude `input`, starting from `start`. */
  function Smooth(input: real, start: real, k: nat): (v: real)
  {
    if k == 0 then start else Ema(Alpha, input, Smooth(input, start, k - 1))
  }

  /** Under a constant input the filter's error shrinks geometrically, by
      the factor `1 - ALPHA` per step. */
  lemma {:induction false} SmoothError(input: real, start: real, k: nat)
    ensures Smooth(input, start, k) - input == Decay(k) * (start - input)
  {
    if k > 0 {
      SmoothError(input, start, k - 1);
      ErrorStep(input, Smooth(input, start, k - 1), Smooth(input, start, k), Decay(k - 1), start - input);
    }
  }

  /** The induction step of `SmoothError`, on plain values. */
  lemma ErrorStep(input: real, previous: real, next: real, q: real, initial: real)
    requires next == Ema(Alpha, input, previous)
    requires previous - input == q * initial
    ensures next - input == ((1.0 - Alpha) * q) * initial
  {
  }

  /** Fed a constant input, the filter approaches it monotonically from
      the side it starts on and never overshoots it. */
  lemma {:induction false} SmoothApproaches(input: real, start: real, k: nat)
    ensures start <= input ==> start <= Smooth(input, start, k) <= input
    ensures input <= start ==> input <= Smooth(input, start, k) <= start
    ensures 0 < k && start <= input ==> Smooth(input, start, k - 1) <= Smooth(input, start, k)
    ensures 0 < k && input <= start ==> Smooth(input, start, k) <= Smooth(input, start, k - 1)
  {
    if k > 0 {
      SmoothApproaches(input, start, k - 1);
    }
  }

  /** The share of the error left after `k` steps is at most
      `1 / (1 + k ALPHA)`, so it falls below any positive bound. */
  lemma {:induction false} DecayBound(k: nat)
    ensures Decay(k) * (1.0 + (k as real) * Alpha) <= 1.0
  {
    if k > 0 {
      DecayBound(k - 1);
      BernoulliStep(Decay(k - 1), (k - 1) as real);
    }
  }

  /** The induction step of `DecayBound`, on plain values. */
  lemma BernoulliStep(d: real, k: real)
    requires 0.0 < d && 0.0 <= k && d * (1.0 + k * Alpha) <= 1.0
    ensures ((1.0 - Alpha) * d) * (1.0 + (k + 1.0) * Alpha) <= 1.0
  {
    assert ((1.0 - Alpha) * d) * (1.0 + (k + 1.0) * Alpha)
        == d * (1.0 + k * Alpha) - d * Alpha * Alpha * (k + 1.0);
    NonNegativeProduct(d * Alpha * Alpha, k + 1.0);
  }

  function Abs(x: real): (a: real)
    ensures 0.0 <= a
  {
    if x < 0.0 then -x else x
  }

  /** Fed a constant input, the filter converges to it: after `k` steps the
      remaining error is at most `1 / (1 + k ALPHA)` of the initial one. */
  lemma SmoothConverges(input: real, start: real, k: nat)
    ensures Abs(Smooth(input, start, k) - input) * (1.0 + (k as real) * Alpha) <= Abs(start - input)
  {
    SmoothError(input, start, k);
    DecayBound(k);
    ScaledErrorBound(Decay(k), k, start - input, Smooth(input, start, k) - input);
  }

  /** An error `d` times the initial one, with `d (1 + k ALPHA) <= 1`, is
      at most `1 / (1 + k ALPHA)` of it. */
  lemma ScaledErrorBound(d: real, k: nat, initial: real, error: real)
    requires 0.0 < d && d * (1.0 + (k as real) * Alpha) <= 1.0 && error == d * initial
    ensures Abs(error) * (1.0 + (k as real) * Alpha) <= Abs(initial)
  {
    var g := 1.0 + (k as real) * Alpha;
    var a := Abs(initial);
    assert Abs(error) == d * a by {
      if initial < 0.0 {
        assert error == -(d * -initial);
        NonNegativeProduct(d, -initial);
      } else {
        NonNegativeProduct(d, initial);
      }
    }
    assert Abs(error) * g == (d * g) * a;
    assert a - (d * g) * a == (1.0 - d * g) * a;
    NonNegativeProduct(1.0 - d * g, a);
  }

  /** `lastPeakIndex` starts at `-MIN_PEAK_DISTANCE`, so the first candidate
      passes the debounce only while `index + MIN_PEAK_DISTANCE` stays below
      `N`; a candidate later in the first lap is rejected. */
  lemma FirstCandidateDistance(index: int, n: int, minPeakDistance: int)
    requires 0 <= index < n && 0 <= minPeakDistance
    ensures RingDistance(index, -minPeakDistance, n) >= minPeakDistance <==> index + minPeakDistance < n
  {
    SentinelDistance(index, minPeakDistance, n);
  }

  /** The detector state of repetition_count.cpp's globals. */
  class RepetitionCounter {
    const n: int
    const halfWindow: int
    const threshold: real
    const minPeakDistance: int
    const modelSampleSize: int
    const leadingAxis: LeadingAxis
    const sqrt: SqrtFn

    const window: array<Sample>
    const magnitudes: array<real>
    var currentIndex: int
    var windowFull: bool
    var filteredMagnitude: real
    var peakCount: int
    var lastPeakIndex: int

    /** Every sample whose call advanced the write index, oldest first. A
        sample whose call reports a repetition is not in it: it stays in the
        write slot only until the next call overwrites it. */
    ghost var history: seq<Sample>

    /** Buffer sizes and configuration limits, fixed at construction. */
    predicate Config()
    {
      0 < n && window.Length == n && magnitudes.Length == n
      && 0 <= halfWindow <= n && 0 <= minPeakDistance && 0 <= modelSampleSize <= n
    }

    /** The ring holds the last `n - 1` advancing samples behind the write
        index (slots not yet reached still hold the zero sample), and the
        window is full once `n` samples have advanced it. */
    ghost predicate RingValid()
      reads this`currentIndex, this`windowFull, this`history, window
    {
      Config() && 0 <= currentIndex < n
      && Retains(window[..], history, currentIndex, n - 1, Zero)
      && (windowFull <==> n <= |history|)
    }

    /** Neither the stored nor the filtered magnitudes are negative. */
    ghost predicate MagnitudesValid()
      reads this`filteredMagnitude, magnitudes
    {
      Config() && AllNonNegative(magnitudes[..]) && 0.0 <= filteredMagnitude
    }

    /** The last peak is the start sentinel or a slot of the ring. */
    predicate PeakValid()
      reads this`lastPeakIndex, this`peakCount
    {
      (lastPeakIndex == -minPeakDistance || 0 <= lastPeakIndex < n) && 0 <= peakCount
    }

    ghost predicate Valid()
      reads this, window, magnitudes
    {
      RingValid() && MagnitudesValid() && PeakValid()
    }

    /** The three tests of a repetition at `index`: the filtered magnitude
        is a strict local maximum over the stored magnitudes, above the
        threshold, and far enough from the last accepted peak. */
    predicate Accepts(mags: seq<real>, index: int, filtered: real, last: int)
      requires 0 < n && |mags| == n && 0 <= index < n && 0 <= halfWindow <= n && last <= index + n
    {
      StrictLocalMax(mags, index, filtered, halfWindow)
      && filtered > threshold
      && RingDistance(index, last, n) >= minPeakDistance
    }

    /** The reset state: zeroed buffers and filter, index 0, no peaks,
        sentinel `-MIN_PEAK_DISTANCE`. */
    constructor (sqrt: SqrtFn, n: int := WindowSize, halfWindow: int := WindowRange,
                 threshold: real := MagnitudeThreshold, minPeakDistance: int := MinPeakDistance,
                 modelSampleSize: int := AccumulatedSampleSize, leadingAxis: LeadingAxis := GX)
      requires 0 < n && 0 <= halfWindow <= n && 0 <= minPeakDistance && 0 <= modelSampleSize <= n
      ensures Valid() && fresh(window) && fresh(magnitudes)
      ensures this.n == n && this.halfWindow == halfWindow && this.threshold == threshold
      ensures this.minPeakDistance == minPeakDistance && this.modelSampleSize == modelSampleSize
      ensures this.leadingAxis == leadingAxis && this.sqrt == sqrt
      ensures window[..] == seq(n, _ => Zero) && magnitudes[..] == seq(n, _ => 0.0)
      ensures currentIndex == 0 && !windowFull && filteredMagnitude == 0.0
      ensures peakCount == 0 && lastPeakIndex == -minPeakDistance
      ensures history == []
    {
      this.n := n;
      this.halfWindow := halfWindow;
      this.threshold := threshold;
      this.minPeakDistance := minPeakDistance;
      this.modelSampleSize := modelSampleSize;
      this.leadingAxis := leadingAxis;
      this.sqrt := sqrt;
      window := new Sample[n](_ => Zero);
      magnitudes := new real[n](_ => 0.0);
      currentIndex := 0;
      windowFull := false;
      filteredMagnitude := 0.0;
      peakCount := 0;
      lastPeakIndex := -minPeakDistance;
      history := [];
    }

    /** `applyLowPassFilter`: one moving-average step towards `magnitude`. */
    method ApplyLowPassFilter(magnitude: real)
      modifies this`filteredMagnitude
      ensures filteredMagnitude == Ema(Alpha, magnitude, old(filteredMagnitude))
    {
      filteredMagnitude := Alpha * magnitude + (1.0 - Alpha) * filteredMagnitude;
    }

    /** `isLocalMaximum`: a read-only scan comparing the filtered magnitude
        with the stored magnitudes on both sides of `index`. */
    method IsLocalMaximum(index: int) returns (b: bool)
      requires Config() && 0 <= index < n
      ensures b == StrictLocalMax(magnitudes[..], index, filteredMagnitude, halfWindow)
    {
      var i := 1;
      while i <= halfWindow
        invariant 1 <= i <= halfWindow + 1
        invariant forall k :: 1 <= k < i ==>
          filteredMagnitude > magnitudes[LeftIndex(index, k, n)] && filteredMagnitude > magnitudes[RightIndex(index, k, n)]
      {
        var leftIndex := LeftIndex(index, i, n);
        var rightIndex := RightIndex(index, i, n);
        if filteredMagnitude <= magnitudes[leftIndex] || filteredMagnitude <= magnitudes[rightIndex] {
          return false;
        }
        i := i + 1;
      }
      return true;
    }

    /** The repetition test of `detectRepetition` at `index`: a local maximum
        of the filtered magnitude above the threshold is accepted when it is
        far enough from the last accepted peak, which bumps the count and
        moves the last peak here. A candidate at the last peak's own slot is
        never accepted under a positive minimum distance. */
    method EvaluatePeak(index: int) returns (accepted: bool)
      requires Config() && PeakValid() && 0 <= index < n
      modifies this`peakCount, this`lastPeakIndex
      ensures PeakValid()
      ensures accepted == Accepts(magnitudes[..], index, filteredMagnitude, old(lastPeakIndex))
      ensures old(lastPeakIndex) == index && 0 < minPeakDistance ==> !accepted
      ensures peakCount == old(peakCount) + (if accepted then 1 else 0)
      ensures lastPeakIndex == if accepted then index else old(lastPeakIndex)
    {
      accepted := false;
      var isMax := IsLocalMaximum(index);
      if isMax && filteredMagnitude > threshold {
        if lastPeakIndex == index {
          ModOnce(n, n);
        }
        if RingDistance(index, lastPeakIndex, n) >= minPeakDistance {
          peakCount := peakCount + 1;
          lastPeakIndex := index;
          accepted := true;
        }
      }
    }

    /** The full-window part of `detectRepetition` at `index`: store the
        weighted magnitude of the samples in slots `index` and
        `previousIndex`, feed it to the filter, and test for a repetition. */
    method ProcessFullWindow(index: int, previousIndex: int) returns (detected: bool)
      requires MagnitudesValid() && PeakValid() && 0 <= index < n && 0 <= previousIndex < n
      modifies magnitudes, this`filteredMagnitude, this`peakCount, this`lastPeakIndex
      ensures MagnitudesValid() && PeakValid()
      ensures magnitudes[..] == old(magnitudes[..])[index :=
        WeightedMagnitude(sqrt, leadingAxis, window[index], window[previousIndex])]
      ensures filteredMagnitude == Ema(Alpha, magnitudes[index], old(filteredMagnitude))
      ensures detected == Accepts(magnitudes[..], index, filteredMagnitude, old(lastPeakIndex))
      ensures old(lastPeakIndex) == index && 0 < minPeakDistance ==> !detected
      ensures peakCount == old(peakCount) + (if detected then 1 else 0)
      ensures lastPeakIndex == if detected then index else old(lastPeakIndex)
    {
      magnitudes[index] := WeightedMagnitude(sqrt, leadingAxis, window[index], window[previousIndex]);
      ApplyLowPassFilter(magnitudes[index]);
      detected := EvaluatePeak(index);
    }

    /** The closing part of `detectRepetition` when no repetition is found:
        the write index moves one slot forward and the window is marked full
        once the index wraps to slot 0. `pushed` is the sample just written
        and `before` the ring as it was before that write. */
    method Advance(ghost pushed: Sample, ghost before: seq<Sample>)
      requires Config() && 0 <= currentIndex < n && |before| == n
      requires Retains(before, history, currentIndex, n - 1, Zero) && (windowFull <==> n <= |history|)
      requires window[..] == before[currentIndex := pushed]
      modifies this`currentIndex, this`windowFull, this`history
      ensures RingValid()
      ensures currentIndex == Mod(old(currentIndex) + 1, n)
      ensures windowFull == (old(windowFull) || currentIndex == 0)
      ensures history == old(history) + [pushed]
    {
      ghost var h, cur := history, currentIndex;
      NextIndex(cur, n);
      currentIndex := Mod(currentIndex + 1, n);
      if currentIndex == 0 {
        windowFull := true;
      }
      history := history + [pushed];
      PushRetains(before, h, cur, n - 1, Zero, pushed, window[..], history, currentIndex);
    }

    /** `detectRepetition`: store the sample and, once the window is full,
        compute and smooth its magnitude and test for a repetition. On a
        repetition the call returns at once, leaving the write index in
        place, so the next call overwrites the same slot; otherwise the index
        advances. */
    method DetectRepetition(newData: Sample) returns (detected: bool)
      requires Valid()
      modifies this, window, magnitudes
      ensures Valid()
      ensures window[..] == old(window[..])[old(currentIndex) := newData]
      ensures magnitudes[..] == if old(windowFull)
        then old(magnitudes[..])[old(currentIndex) :=
          WeightedMagnitude(sqrt, leadingAxis, newData, window[PreviousIndex(old(currentIndex), n)])]
        else old(magnitudes[..])
      ensures old(windowFull) && 1 < n ==>
        window[PreviousIndex(old(currentIndex), n)] == old(history)[|old(history)| - 1]
      ensures filteredMagnitude == if old(windowFull)
        then Ema(Alpha, magnitudes[old(currentIndex)], old(filteredMagnitude))
        else old(filteredMagnitude)
      ensures detected == (old(windowFull) && Accepts(magnitudes[..], old(currentIndex), filteredMagnitude, old(lastPeakIndex)))
      ensures old(lastPeakIndex) == old(currentIndex) && 0 < minPeakDistance ==> !detected
      ensures peakCount == old(peakCount) + (if detected then 1 else 0)
      ensures lastPeakIndex == if detected then old(currentIndex) else old(lastPeakIndex)
      ensures currentIndex == if detected then old(currentIndex) else Mod(old(currentIndex) + 1, n)
      ensures windowFull == (old(windowFull) || currentIndex == 0)
      ensures history == if detected then old(history) else old(history) + [newData]
    {
      ghost var h, w, cur := history, window[..], currentIndex;
      var previousIndex := if currentIndex == 0 then n - 1 else currentIndex - 1;
      window[currentIndex] := newData;
      ghost var w' := window[..];
      assert w' == w[cur := newData];
      if n <= |h| && 1 < n {
        NewestRetained(w, h, cur, n - 1, Zero);
      }

      if windowFull {
        OverwriteRetains(w, h, cur, n - 1, Zero, newData, w');
        assert RingValid();
        detected := ProcessFullWindow(currentIndex, previousIndex);
        if detected {
          return;
        }
      }

      Advance(newData, w);
      detected := false;
    }

    /** `getAccumulatedSensorData`: a read-only backward copy starting one
        slot behind the write index, newest sample first; positions the
        stream has not reached read as the zero sample. */
    method GetAccumulatedSensorData() returns (data: seq<Sample>)
      requires RingValid()
      ensures |data| == modelSampleSize
      ensures forall i :: 0 <= i < modelSampleSize ==> data[i] == window[LeftIndex(currentIndex, i + 1, n)]
      ensures forall i :: 0 <= i < modelSampleSize && i < |history| && i + 1 < n ==>
        data[i] == history[|history| - 1 - i]
      ensures forall i :: 0 <= i < modelSampleSize && |history| <= i ==> data[i] == Zero
    {
      data := [];
      var i := 0;
      while i < modelSampleSize
        invariant 0 <= i <= modelSampleSize
        invariant |data| == i
        invariant forall k :: 0 <= k < i ==> data[k] == window[LeftIndex(currentIndex, k + 1, n)]
      {
        var bufferIndex := LeftIndex(currentIndex, i + 1, n);
        data := data + [window[bufferIndex]];
        i := i + 1;
      }
      forall k | 0 <= k < modelSampleSize
        ensures k < |history| && k + 1 < n ==> data[k] == history[|history| - 1 - k]
        ensures |history| <= k ==> data[k] == Zero
      {
        RepCopyRetained(window[..], history, currentIndex, Zero, k);
      }
    }
  }
}

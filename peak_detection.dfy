/** Model of peak_detection.cpp: fixed accelerometer and gyroscope weights
    with a dynamic emphasis, a local-maximum test of the stored magnitude
    against its ring neighbours, a distance debounce, and a write index that
    advances on every call. */
module PeakDetection {
  import opened Sensor
  import opened Ring

  // Reference configuration (peak_detection.cpp, top of file).
  const DiffThreshold: real := 50.0
  const MinPeakDistance: int := 15
  const AccelWeight: real := 0.85
  const GyroWeight: real := 0.1
  const DifferenceWeightFactor: real := 2.0
  const PeakWindow: int := 5

  /** The weighted sum of the two group norms, before emphasis. */
  function TotalMagnitude(sqrt: SqrtFn, current: Sample, previous: Sample): (t: real)
    ensures 0.0 <= t
  {
    AccelWeight * AccelNorm(sqrt, current, previous) + GyroWeight * GyroNorm(sqrt, current, previous)
  }

  /** The dynamic emphasis `total * (1 + k * total)`; on non-negative totals
      it never shrinks its argument. */
  function Emphasis(total: real): (r: real)
    ensures 0.0 <= total ==> total <= r
  {
    total * (1.0 + DifferenceWeightFactor * total)
  }

  /** Emphasis is monotone on non-negative totals, and it widens every gap
      between two totals: larger motions separate super-linearly. */
  lemma EmphasisWidensGaps(t1: real, t2: real)
    requires 0.0 <= t1 <= t2
    ensures Emphasis(t1) <= Emphasis(t2)
    ensures t2 - t1 <= Emphasis(t2) - Emphasis(t1)
  {
    assert Emphasis(t2) - Emphasis(t1) == (t2 - t1) * (1.0 + DifferenceWeightFactor * (t1 + t2));
    assert 0.0 <= (t2 - t1) * (DifferenceWeightFactor * (t1 + t2));
  }

  /** `calculateWeightedDifferenceMagnitude`: never negative, at least the
      weighted total, and zero when the sample did not change. */
  function DifferenceMagnitude(sqrt: SqrtFn, current: Sample, previous: Sample): (r: real)
    ensures 0.0 <= TotalMagnitude(sqrt, current, previous) <= r
    ensures current == previous ==> r == 0.0
  {
    Emphasis(TotalMagnitude(sqrt, current, previous))
  }

  /** `lastPeakIndex` starts at `-N`, so the debounce distance of the first
      candidate is its own index, and it passes exactly when that index is at
      least the minimum distance. */
  lemma FirstCandidateDistance(index: int, n: int, minPeakDistance: int)
    requires 0 <= index < n
    ensures RingDistance(index, -n, n) == index
    ensures RingDistance(index, -n, n) >= minPeakDistance <==> index >= minPeakDistance
  {
    ModPlusLap(index + n, n);
    ModPlusLap(index, n);
  }

  /** The detector state of peak_detection.cpp's globals. */
  class MotionDetector {
    const n: int
    const peakWindow: int
    const diffThreshold: real
    const minPeakDistance: int
    const modelSampleSize: int
    const sqrt: SqrtFn

    const window: array<Sample>
    const magnitudes: array<real>
    var currentIndex: int
    var windowFull: bool
    var peakCount: int
    var lastPeakIndex: int

    /** Every sample pushed so far, oldest first. */
    ghost var history: seq<Sample>

    /** Buffer sizes and configuration limits, fixed at construction. */
    predicate Config()
    {
      0 < n && window.Length == n && magnitudes.Length == n
      && 0 <= peakWindow <= n && 0 <= modelSampleSize <= n
    }

    /** The ring holds the last `n` pushed samples behind the write index
        (slots not yet reached still hold the zero sample), and the window is
        full once `n` samples have been pushed. */
    ghost predicate RingValid()
      reads this`currentIndex, this`windowFull, this`history, window
    {
      Config() && 0 <= currentIndex < n
      && Retains(window[..], history, currentIndex, n, Zero)
      && (windowFull <==> n <= |history|)
    }

    /** The last peak is the start sentinel or a slot of the ring. */
    predicate PeakValid()
      reads this`lastPeakIndex, this`peakCount
    {
      (lastPeakIndex == -n || 0 <= lastPeakIndex < n) && 0 <= peakCount
    }

    /** The ring invariant, the peak invariant, and no negative stored
        magnitude. */
    ghost predicate Valid()
      reads this, window, magnitudes
    {
      RingValid() && PeakValid() && AllNonNegative(magnitudes[..])
    }

    /** The three tests of a repetition at `index`: strict local maximum,
        above the threshold, and far enough from the last accepted peak. */
    predicate Accepts(mags: seq<real>, index: int, last: int)
      requires 0 < n && |mags| == n && 0 <= index < n && 0 <= peakWindow <= n && last <= index + n
    {
      StrictLocalMax(mags, index, mags[index], peakWindow)
      && mags[index] > diffThreshold
      && RingDistance(index, last, n) >= minPeakDistance
    }

    /** The reset state: zeroed buffers, index 0, no peaks, sentinel `-N`. */
    constructor (sqrt: SqrtFn, n: int := WindowSize, peakWindow: int := PeakWindow,
                 diffThreshold: real := DiffThreshold, minPeakDistance: int := MinPeakDistance,
                 modelSampleSize: int := ModelSampleSize)
      requires 0 < n && 0 <= peakWindow <= n && 0 <= modelSampleSize <= n
      ensures Valid() && fresh(window) && fresh(magnitudes)
      ensures this.n == n && this.peakWindow == peakWindow && this.diffThreshold == diffThreshold
      ensures this.minPeakDistance == minPeakDistance && this.modelSampleSize == modelSampleSize
      ensures this.sqrt == sqrt
      ensures window[..] == seq(n, _ => Zero) && magnitudes[..] == seq(n, _ => 0.0)
      ensures currentIndex == 0 && !windowFull && peakCount == 0 && lastPeakIndex == -n
      ensures history == []
    {
      this.n := n;
      this.peakWindow := peakWindow;
      this.diffThreshold := diffThreshold;
      this.minPeakDistance := minPeakDistance;
      this.modelSampleSize := modelSampleSize;
      this.sqrt := sqrt;
      window := new Sample[n](_ => Zero);
      magnitudes := new real[n](_ => 0.0);
      currentIndex := 0;
      windowFull := false;
      peakCount := 0;
      lastPeakIndex := -n;
      history := [];
    }

    /** `isLocalMaximum`: a read-only scan of the half-window on both sides. */
    method IsLocalMaximum(index: int) returns (b: bool)
      requires Config() && 0 <= index < n
      ensures b == StrictLocalMax(magnitudes[..], index, magnitudes[index], peakWindow)
    {
      var j := 1;
      while j <= peakWindow
        invariant 1 <= j <= peakWindow + 1
        invariant forall k :: 1 <= k < j ==>
          magnitudes[index] > magnitudes[LeftIndex(index, k, n)] && magnitudes[index] > magnitudes[RightIndex(index, k, n)]
      {
        var leftIndex := LeftIndex(index, j, n);
        var rightIndex := RightIndex(index, j, n);
        if magnitudes[index] <= magnitudes[leftIndex] || magnitudes[index] <= magnitudes[rightIndex] {
          return false;
        }
        j := j + 1;
      }
      return true;
    }

    /** The repetition test of `detectMotion` at `index`: a local maximum
        above the threshold is accepted when it is far enough from the last
        accepted peak, which bumps the count and moves the last peak here. */
    method EvaluatePeak(index: int) returns (accepted: bool)
      requires Config() && PeakValid() && 0 <= index < n
      modifies this`peakCount, this`lastPeakIndex
      ensures PeakValid()
      ensures accepted == Accepts(magnitudes[..], index, old(lastPeakIndex))
      ensures peakCount == old(peakCount) + (if accepted then 1 else 0)
      ensures lastPeakIndex == if accepted then index else old(lastPeakIndex)
    {
      accepted := false;
      var isMax := IsLocalMaximum(index);
      if isMax && magnitudes[index] > diffThreshold {
        if RingDistance(index, lastPeakIndex, n) >= minPeakDistance {
          peakCount := peakCount + 1;
          lastPeakIndex := index;
          accepted := true;
        }
      }
    }

    /** The magnitude step of `detectMotion`: the difference magnitude of the
        samples in slots `index` and `previousIndex` is stored at `index`. */
    method StoreMagnitude(index: int, previousIndex: int)
      requires Config() && 0 <= index < n && 0 <= previousIndex < n
      requires AllNonNegative(magnitudes[..])
      modifies magnitudes
      ensures AllNonNegative(magnitudes[..])
      ensures magnitudes[..] == old(magnitudes[..])[index := DifferenceMagnitude(sqrt, window[index], window[previousIndex])]
    {
      magnitudes[index] := DifferenceMagnitude(sqrt, window[index], window[previousIndex]);
    }

    /** The closing step of `detectMotion`: the write index moves one slot
        forward and the window is marked full once the index wraps to slot 0.
        `pushed` is the sample just written and `before` the ring as it was
        before that write. */
    method Advance(ghost pushed: Sample, ghost before: seq<Sample>)
      requires Config() && 0 <= currentIndex < n && |before| == n
      requires Retains(before, history, currentIndex, n, Zero) && (windowFull <==> n <= |history|)
      requires window[..] == before[currentIndex := pushed]
      modifies this`currentIndex, this`windowFull, this`history
      ensures RingValid()
      ensures currentIndex == Mod(old(currentIndex) + 1, n)
      ensures windowFull == (old(windowFull) || currentIndex == 0)
      ensures history == old(history) + [pushed]
    {
      ghost var h, cur := history, currentIndex;
      NextIndex(cur, n);
      currentIndex := Mod(currentIndex + 1, n);
      if currentIndex == 0 {
        windowFull := true;
      }
      history := history + [pushed];
      PushRetains(before, h, cur, n, Zero, pushed, window[..], history, currentIndex);
    }

    /** `detectMotion`: store the sample, compute its magnitude once the
        window is full, test for a repetition, and always advance the index. */
    method DetectMotion(newData: Sample) returns (result: bool)
      requires Valid()
      modifies this, window, magnitudes
      ensures Valid()
      ensures history == old(history) + [newData]
      ensures window[..] == old(window[..])[old(currentIndex) := newData]
      ensures magnitudes[..] == if old(windowFull)
        then old(magnitudes[..])[old(currentIndex) :=
          DifferenceMagnitude(sqrt, newData, window[PreviousIndex(old(currentIndex), n)])]
        else old(magnitudes[..])
      ensures old(windowFull) && 1 < n ==>
        window[PreviousIndex(old(currentIndex), n)] == old(history)[|old(history)| - 1]
      ensures result == (old(windowFull) && Accepts(magnitudes[..], old(currentIndex), old(lastPeakIndex)))
      ensures peakCount == old(peakCount) + (if result then 1 else 0)
      ensures lastPeakIndex == if result then old(currentIndex) else old(lastPeakIndex)
      ensures currentIndex == Mod(old(currentIndex) + 1, n)
      ensures windowFull == (old(windowFull) || currentIndex == 0)
    {
      ghost var h, w, cur := history, window[..], currentIndex;
      var previousIndex := if currentIndex == 0 then n - 1 else currentIndex - 1;
      window[currentIndex] := newData;
      assert window[..] == w[cur := newData];
      if n <= |h| && 1 < n {
        NewestRetained(w, h, cur, n, Zero);
      }
      result := false;

      if windowFull {
        StoreMagnitude(currentIndex, previousIndex);
      }

      if windowFull {
        result := EvaluatePeak(currentIndex);
      }

      Advance(newData, w);
    }

    /** `getAccumulatedSensorData`: a read-only backward copy starting at the
        write index itself. Slot 0 is therefore the oldest retained sample
        (the one the next push overwrites), and slots 1.. run from the newest
        sample backwards; positions never written read as the zero sample. */
    method GetAccumulatedSensorData() returns (data: seq<Sample>)
      requires RingValid()
      ensures |data| == modelSampleSize
      ensures forall i :: 0 <= i < modelSampleSize ==> data[i] == window[LeftIndex(currentIndex, i, n)]
      ensures 0 < modelSampleSize ==> data[0] == if n <= |history| then history[|history| - n] else Zero
      ensures forall i :: 1 <= i < modelSampleSize ==>
        data[i] == if i <= |history| then history[|history| - i] else Zero
    {
      data := [];
      var i := 0;
      while i < modelSampleSize
        invariant 0 <= i <= modelSampleSize
        invariant |data| == i
        invariant forall k :: 0 <= k < i ==> data[k] == window[LeftIndex(currentIndex, k, n)]
      {
        var bufferIndex := LeftIndex(currentIndex, i, n);
        data := data + [window[bufferIndex]];
        i := i + 1;
      }
      forall k | 0 <= k < modelSampleSize
        ensures window[LeftIndex(currentIndex, k, n)] ==
          if k == 0 then (if n <= |history| then history[|history| - n] else Zero)
          else if k <= |history| then history[|history| - k] else Zero
      {
        PeakCopyRetained(window[..], history, currentIndex, Zero, k);
      }
    }
  }
}

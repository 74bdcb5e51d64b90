/** Ring-index arithmetic shared by both detector variants: the previous
    slot, the neighbours of a slot, the forward distance between two slots,
    and the strict local-maximum test over a half-window.

    Every `%` of the C code is applied to a non-negative left operand; it is
    modelled by `Mod`, which equals the remainder there (`ModIsRemainder`). */
module Ring {

  // ---------------------------------------------------------------------
  // The remainder
  // ---------------------------------------------------------------------

  /** C's `a % n` for a non-negative `a` and a positive `n`, written as
      repeated subtraction so that the verifier reasons about it linearly. */
  function Mod(a: int, n: int): (r: int)
    requires 0 <= a && 0 < n
    ensures 0 <= r < n && r <= a
    decreases a
  {
    if a < n then a else Mod(a - n, n)
  }

  /** A positive multiple of `n` is at least `n`. */
  lemma {:induction false} MulAtLeast(k: int, n: int)
    requires 1 <= k && 0 < n
    ensures n <= k * n
  {
    if k > 1 {
      MulAtLeast(k - 1, n);
      assert k * n == (k - 1) * n + n;
    }
  }

  /** Among the multiples of `n`, only zero lies strictly between `-n` and `n`. */
  lemma MultipleBelow(k: int, n: int)
    requires 0 < n && -n < k * n < n
    ensures k == 0
  {
    if k >= 1 {
      MulAtLeast(k, n);
    } else if k <= -1 {
      MulAtLeast(-k, n);
    }
  }

  /** Quotient and remainder are unique. */
  lemma ModUnique(a: int, q: int, r: int, n: int)
    requires 0 < n && 0 <= r < n && a == q * n + r
    ensures a % n == r && a / n == q
  {
    var q', r' := a / n, a % n;
    assert a == q' * n + r';
    assert (q' - q) * n == q' * n - q * n;
    MultipleBelow(q' - q, n);
  }

  /** `Mod` is the remainder of division by `n`. On a non-negative left
      operand C's truncating `%` and Dafny's Euclidean `%` agree, so every
      index expression below is the one the C code evaluates. */
  lemma {:induction false} ModIsRemainder(a: int, n: int)
    requires 0 <= a && 0 < n
    ensures Mod(a, n) == a % n
    decreases a
  {
    if a < n {
      ModUnique(a, 0, a, n);
    } else {
      ModIsRemainder(a - n, n);
      ModUnique(a, (a - n) / n + 1, (a - n) % n, n);
    }
  }

  /** One subtraction suffices below two laps. */
  lemma ModOnce(a: int, n: int)
    requires 0 < n <= a < 2 * n
    ensures Mod(a, n) == a - n
  {
    assert Mod(a - n, n) == a - n;
  }

  /** Adding a lap does not change the remainder. */
  lemma ModPlusLap(a: int, n: int)
    requires 0 <= a && 0 < n
    ensures Mod(a + n, n) == Mod(a, n)
  {
  }

  // ---------------------------------------------------------------------
  // Index arithmetic
  // ---------------------------------------------------------------------

  /** The slot written just before `index`, as both variants compute
      `previousIndex`: the predecessor on the ring. */
  function PreviousIndex(index: int, n: int): (p: int)
    requires 0 <= index < n
    ensures 0 <= p < n
    ensures p == Mod(index - 1 + n, n)
    ensures Mod(p + 1, n) == index
  {
    if index == 0 then n - 1 else index - 1
  }

  /** The slot `j` steps before `index`, `(index - j + N) % N`. */
  function LeftIndex(index: int, j: int, n: int): (r: int)
    requires 0 <= index < n && 0 <= j <= index + n
    ensures 0 <= r < n
  {
    Mod(index - j + n, n)
  }

  /** The slot `j` steps after `index`, `(index + j) % N`. */
  function RightIndex(index: int, j: int, n: int): (r: int)
    requires 0 <= index < n && 0 <= j
    ensures 0 <= r < n
  {
    Mod(index + j, n)
  }

  /** Within one lap, stepping `j` slots forward and then `j` slots back
      returns to the start. */
  lemma LeftOfRight(index: int, j: int, n: int)
    requires 0 <= index < n && 0 <= j <= n
    ensures LeftIndex(RightIndex(index, j, n), j, n) == index
  {
    if index + j < n { ModOnce(index + n, n); } else { ModOnce(index + j, n); }
  }

  /** The write index advanced by `(index + 1) % N` is the successor on the ring. */
  lemma NextIndex(index: int, n: int)
    requires 0 <= index < n
    ensures Mod(index + 1, n) == if index + 1 == n then 0 else index + 1
  {
  }

  /** The slot `j` steps before `index`, without the remainder. */
  lemma LeftIndexLinear(index: int, j: int, n: int)
    requires 0 <= index < n && 0 <= j <= n
    ensures LeftIndex(index, j, n) == if j <= index then index - j else index - j + n
  {
    if j <= index { ModOnce(index - j + n, n); }
  }

  /** The ring slot of stream position `t`, for positions within one lap of
      `base`, the position that was stored in slot 0. */
  ghost function SlotOf(t: int, base: int, n: int): (slot: int)
    requires 0 < n && base - n <= t < base + n
    ensures 0 <= slot < n && slot == Mod(t - base + n, n)
  {
    if base <= t then ModOnce(t - base + n, n); t - base else t - base + n
  }

  /** The debounce distance `(index - last + N) % N`: how many slots `index`
      lies forward of `last`. `last` may be a negative start sentinel. */
  function RingDistance(index: int, last: int, n: int): (d: int)
    requires 0 < n && last <= index + n
    ensures 0 <= d < n
  {
    Mod(index - last + n, n)
  }

  /** For two slots `p` and `q`, the ring distance from `p` to `q` is `d`
      exactly when `d` forward steps from `p` land on `q`. */
  lemma RingDistanceSteps(q: int, p: int, d: int, n: int)
    requires 0 <= p < n && 0 <= q < n && 0 <= d < n
    ensures RingDistance(q, p, n) == d <==> Mod(p + d, n) == q
  {
    if p <= q { ModOnce(q - p + n, n); }
    if n <= p + d { ModOnce(p + d, n); }
  }

  /** `k` calls after a peak at `p`, with the index advancing by one slot per
      call, the debounce distance is exactly `k`. */
  lemma DistanceAfterSteps(p: int, k: int, n: int)
    requires 0 <= p < n && 0 <= k < n
    ensures RingDistance(Mod(p + k, n), p, n) == k
  {
    RingDistanceSteps(Mod(p + k, n), p, k, n);
  }

  /** The distance from the start sentinel `-s` to slot `index` passes a
      debounce of `s` exactly when `index + s` stays within the first lap. */
  lemma {:induction false} SentinelDistance(index: int, s: int, n: int)
    requires 0 <= index < n && 0 <= s
    ensures RingDistance(index, -s, n) >= s <==> index + s < n
  {
    ModPlusLap(index + s, n);
    if n <= index + s {
      assert Mod(index + s, n) == Mod(index + s - n, n);
    }
  }

  // ---------------------------------------------------------------------
  // What the ring holds
  // ---------------------------------------------------------------------

  /** The ring `ring`, with write index `cur`, holds the last `span` elements
      of the stream `h` (the element `cur` pushes ago sits in slot 0), and the
      slots the stream has not reached yet still hold `blank`. */
  ghost predicate Retains<T>(ring: seq<T>, h: seq<T>, cur: int, span: int, blank: T)
    requires 0 <= cur < |ring| && 0 <= span <= |ring|
  {
    cur <= |h| && (|h| < |ring| ==> cur == |h|)
    && (forall t :: 0 <= t < |h| && |h| - span <= t ==> ring[SlotOf(t, |h| - cur, |ring|)] == h[t])
    && (forall j :: |h| <= j < |ring| ==> ring[j] == blank)
  }

  /** Writing `x` at the write index and advancing it keeps the ring in step
      with the stream extended by `x`. */
  lemma PushRetains<T>(ring: seq<T>, h: seq<T>, cur: int, span: int, blank: T, x: T,
                       ring': seq<T>, h': seq<T>, cur': int)
    requires 0 <= cur < |ring| && 0 <= span <= |ring|
    requires Retains(ring, h, cur, span, blank)
    requires ring' == ring[cur := x] && h' == h + [x] && cur' == Mod(cur + 1, |ring|)
    ensures 0 <= cur' < |ring'| && Retains(ring', h', cur', span, blank)
  {
    NextIndex(cur, |ring|);
  }

  /** Overwriting the write slot without advancing keeps the last `span`
      elements of a stream that has filled the ring, for a span short of a
      full lap. */
  lemma OverwriteRetains<T>(ring: seq<T>, h: seq<T>, cur: int, span: int, blank: T, x: T, ring': seq<T>)
    requires 0 <= cur < |ring| && 0 <= span < |ring| <= |h|
    requires Retains(ring, h, cur, span, blank)
    requires ring' == ring[cur := x]
    ensures |ring'| == |ring| && Retains(ring', h, cur, span, blank)
  {
  }

  /** The slot before the write index holds the newest element. */
  lemma NewestRetained<T>(ring: seq<T>, h: seq<T>, cur: int, span: int, blank: T)
    requires 0 <= cur < |ring| && 1 <= span <= |ring| && 1 <= |h|
    requires Retains(ring, h, cur, span, blank)
    ensures ring[PreviousIndex(cur, |ring|)] == h[|h| - 1]
  {
  }

  /** The slot `k` steps back from the write index holds the element pushed
      `k` pushes ago, or `blank` when the stream is shorter than that. */
  lemma BackRetained<T>(ring: seq<T>, h: seq<T>, cur: int, span: int, blank: T, k: int)
    requires 0 <= cur < |ring| && 0 <= span <= |ring| && 1 <= k <= span
    requires Retains(ring, h, cur, span, blank)
    ensures ring[LeftIndex(cur, k, |ring|)] == if k <= |h| then h[|h| - k] else blank
  {
    LeftIndexLinear(cur, k, |ring|);
  }

  /** When the ring keeps a full lap, the write slot holds the oldest element
      of a full ring, the one the next push overwrites. */
  lemma WriteSlotRetained<T>(ring: seq<T>, h: seq<T>, cur: int, blank: T)
    requires 0 <= cur < |ring|
    requires Retains(ring, h, cur, |ring|, blank)
    ensures ring[cur] == if |ring| <= |h| then h[|h| - |ring|] else blank
  {
  }

  /** What the backward copy of the peak detector reads at step `k`: the
      write slot itself at step 0, then the element pushed `k` pushes ago. */
  lemma PeakCopyRetained<T>(ring: seq<T>, h: seq<T>, cur: int, blank: T, k: int)
    requires 0 <= cur < |ring| && 0 <= k < |ring|
    requires Retains(ring, h, cur, |ring|, blank)
    ensures ring[LeftIndex(cur, k, |ring|)] ==
      if k == 0 then (if |ring| <= |h| then h[|h| - |ring|] else blank)
      else if k <= |h| then h[|h| - k] else blank
  {
    if k == 0 {
      LeftIndexLinear(cur, 0, |ring|);
      WriteSlotRetained(ring, h, cur, blank);
    } else {
      BackRetained(ring, h, cur, |ring|, blank, k);
    }
  }

  /** What the backward copy of the repetition counter reads at step `i`:
      the slot `i + 1` back from the write index, which holds the element
      pushed `i + 1` pushes ago while that lies within the retained `n - 1`,
      and `blank` wherever the stream has not reached. */
  lemma RepCopyRetained<T>(ring: seq<T>, h: seq<T>, cur: int, blank: T, i: int)
    requires 0 <= cur < |ring| && 0 <= i < |ring|
    requires Retains(ring, h, cur, |ring| - 1, blank)
    ensures i < |h| && i + 1 < |ring| ==> ring[LeftIndex(cur, i + 1, |ring|)] == h[|h| - 1 - i]
    ensures |h| <= i ==> ring[LeftIndex(cur, i + 1, |ring|)] == blank
  {
    if i + 1 < |ring| {
      BackRetained(ring, h, cur, |ring| - 1, blank, i + 1);
    } else {
      LeftIndexLinear(cur, i + 1, |ring|);
    }
  }

  // ---------------------------------------------------------------------
  // Local maximum
  // ---------------------------------------------------------------------

  /** `candidate` is strictly greater than every magnitude 1..w slots to
      the left and to the right of `index`, with ring wrap-around. */
  predicate StrictLocalMax(mags: seq<real>, index: int, candidate: real, w: int)
    requires 0 <= index < |mags| && 0 <= w <= |mags|
  {
    forall j :: 1 <= j <= w ==>
      candidate > mags[LeftIndex(index, j, |mags|)] && candidate > mags[RightIndex(index, j, |mags|)]
  }

  /** A plateau of two adjacent equal magnitudes is no peak: neither of its
      two slots passes the strict test against its own magnitude. */
  lemma PlateauIsNoPeak(mags: seq<real>, i: int, w: int)
    requires 0 <= i < |mags| && 1 <= w <= |mags|
    requires mags[i] == mags[RightIndex(i, 1, |mags|)]
    ensures !StrictLocalMax(mags, i, mags[i], w)
    ensures !StrictLocalMax(mags, RightIndex(i, 1, |mags|), mags[RightIndex(i, 1, |mags|)], w)
  {
    var n := |mags|;
    var k := RightIndex(i, 1, n);
    assert !(mags[i] > mags[RightIndex(i, 1, n)]);
    LeftOfRight(i, 1, n);
    assert !(mags[k] > mags[LeftIndex(k, 1, n)]);
  }
}

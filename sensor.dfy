/** The shared definitions of types.h: the sample record, the two size
    constants, and the square root both magnitude computations use. */
module Sensor {

  /** Number of slots in the ring of recent samples (types.h). */
  const WindowSize: int := 100

  /** Number of samples handed to the classifier (types.h). */
  const ModelSampleSize: int := 28

  /** One timestep of the 6-axis IMU: accelerometer then gyroscope. */
  datatype Sample = Sample(ax: real, ay: real, az: real, gx: real, gy: real, gz: real)

  /** The value every statically allocated sample slot holds before it is written. */
  const Zero: Sample := Sample(0.0, 0.0, 0.0, 0.0, 0.0, 0.0)

  /** The square root of math.h, kept abstract: any function that maps 0 to 0
      and non-negative reals to non-negative reals. */
  type SqrtFn = f: real -> real | f(0.0) == 0.0 && forall x :: 0.0 <= x ==> 0.0 <= f(x)
    witness (x: real) => 0.0

  function SumOfSquares(dx: real, dy: real, dz: real): (r: real)
    ensures 0.0 <= r
    ensures r == 0.0 <== dx == dy == dz == 0.0
  {
    dx * dx + dy * dy + dz * dz
  }

  /** Euclidean norm of the accelerometer difference between two samples. */
  function AccelNorm(sqrt: SqrtFn, current: Sample, previous: Sample): (r: real)
    ensures 0.0 <= r
    ensures current.ax == previous.ax && current.ay == previous.ay && current.az == previous.az ==> r == 0.0
  {
    sqrt(SumOfSquares(current.ax - previous.ax, current.ay - previous.ay, current.az - previous.az))
  }

  /** Euclidean norm of the gyroscope difference between two samples. */
  function GyroNorm(sqrt: SqrtFn, current: Sample, previous: Sample): (r: real)
    ensures 0.0 <= r
    ensures current.gx == previous.gx && current.gy == previous.gy && current.gz == previous.gz ==> r == 0.0
  {
    sqrt(SumOfSquares(current.gx - previous.gx, current.gy - previous.gy, current.gz - previous.gz))
  }

  /** No magnitude in the series is negative. */
  ghost predicate AllNonNegative(s: seq<real>)
  {
    forall j :: 0 <= j < |s| ==> 0.0 <= s[j]
  }
}

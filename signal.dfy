/**
 * Baseband symbols. A symbol is a complex number with real coordinates; the
 * transmitters place them on the integer grid {±1, ±3} before a positive
 * normalising factor (1/√2, 1/√10), which this model leaves out because a
 * positive scale changes no sign and no nearest-point decision.
 */
module Signal {
  import opened BitCodec

  datatype Complex = Complex(re: real, im: real)

  /** 1 - 2·b: bit 0 is sent as +1, bit 1 as -1. */
  function Antipodal(b: Bit): (x: real)
    ensures x == 1.0 || x == -1.0
    ensures x < 0.0 <==> b == 1
  {
    (1 - 2 * b) as real
  }

  /** The hard decision `(x < 0).astype(uint8)`: 1 for a negative coordinate. */
  function HardBit(x: real): (b: Bit)
    ensures b == 1 <==> x < 0.0
  {
    if x < 0.0 then 1 else 0
  }

  /** A hard decision recovers the bit an antipodal coordinate carries. */
  lemma HardBitAntipodal(b: Bit)
    ensures HardBit(Antipodal(b)) == b
  {
  }

  /** Squared Euclidean distance; `abs(a - b)` is its square root, so both order points alike. */
  function SqDist(a: Complex, b: Complex): (d: real)
    ensures d >= 0.0
  {
    var x, y := a.re - b.re, a.im - b.im;
    SquareNonNegative(x);
    SquareNonNegative(y);
    x * x + y * y
  }

  /** SqDist as the sum of the squared coordinate differences. */
  lemma SqDistParts(a: Complex, b: Complex)
    ensures SqDist(a, b) == (a.re - b.re) * (a.re - b.re) + (a.im - b.im) * (a.im - b.im)
  {
  }

  lemma SquareNonNegative(x: real)
    ensures x * x >= 0.0
  {
    if x < 0.0 {
      assert x * x == (-x) * (-x);
    }
  }
}

/**
 * Unit conversions of the two printers. The designer works in pixels at 100 per
 * inch; the Zebra printer addresses dots at 203 per inch, and a PDF page is
 * measured in points at 72 per inch.
 */
module Units {
  // The three scales appear as literals (100, 203, 72) in the arithmetic below,
  // so that every product stays linear for the prover.

  /** A label side in inches as designer pixels: `inches * 100`. */
  function InchesToPixels(inches: real): real {
    inches * 100.0
  }

  /** The C# `(int)` cast of a double: drop the fraction, toward zero. */
  function Trunc(r: real): (n: int)
    ensures r >= 0.0 ==> n as real <= r < (n + 1) as real
    ensures r < 0.0 ==> (n - 1) as real < r <= n as real
  {
    if r >= 0.0 then r.Floor else -((-r).Floor)
  }

  /** Integer division rounding toward zero, as C# `/` on `int`. */
  function TruncDiv(a: int, b: nat): (q: int)
    requires b > 0
    ensures a >= 0 ==> q * b <= a < (q + 1) * b
    ensures a < 0 ==> (q - 1) * b < a <= q * b
  {
    if a >= 0 then a / b else -((-a) / b)
  }

  /** Designer pixels to printer dots: `(int)(px / 100 * 203)`. */
  function ConvertToDots(px: real): (d: int)
    ensures px >= 0.0 ==> 0 <= d && (d * 100) as real <= px * 203.0
    ensures px >= 0.0 ==> px * 203.0 < ((d + 1) * 100) as real
    ensures px < 0.0 ==> d <= 0 && px * 203.0 <= (d * 100) as real
    ensures px < 0.0 ==> ((d - 1) * 100) as real < px * 203.0
  {
    Trunc(px / 100.0 * 203.0)
  }

  /** The same conversion on a whole number of pixels, in integer arithmetic. */
  function DotsOfPixels(p: int): int {
    TruncDiv(p * 203, 100)
  }

  lemma FloorOfQuotient(n: nat)
    ensures (n as real / 100.0).Floor == n / 100
  {
    var q, m := n / 100, n % 100;
    assert n == 100 * q + m;
    assert n as real / 100.0 == q as real + m as real / 100.0;
  }

  /**
   * For whole pixel values the double expression is exactly `p * 203 / 100`
   * truncated toward zero: 203 and 100 are coprime, so the product never falls
   * on the wrong side of an integer.
   */
  lemma DotsOfPixelsExact(p: int)
    ensures ConvertToDots(p as real) == DotsOfPixels(p)
  {
    var x := p as real / 100.0 * 203.0;
    assert x == (p * 203) as real / 100.0;
    if p >= 0 {
      FloorOfQuotient(p * 203);
    } else {
      assert -x == (-(p * 203)) as real / 100.0;
      FloorOfQuotient(-(p * 203));
    }
  }

  /** Sample conversions the printer's layout relies on. */
  lemma DotsExamples()
    ensures ConvertToDots(102.0) == 207 && ConvertToDots(50.0) == 101
    ensures ConvertToDots(24.0) == 48
    ensures ConvertToDots(4.0 * 100.0) == 812 && ConvertToDots(6.0 * 100.0) == 1218
  {
  }

  /** Truncation is symmetric: a mirrored position lands on the mirrored dot. */
  lemma DotsOdd(px: real)
    ensures ConvertToDots(-px) == -ConvertToDots(px)
  {
  }

  /** Larger pixel values never map to fewer dots. */
  lemma DotsMonotonic(a: real, b: real)
    requires a <= b
    ensures ConvertToDots(a) <= ConvertToDots(b)
  {
  }

  /** Designer pixels to PDF points: `px / 100 * 72`. */
  function ConvertToPoints(px: real): (pt: real)
    ensures pt * 100.0 == px * 72.0
  {
    px / 100.0 * 72.0
  }

  /** One page side, in points, of a label side given in inches. */
  function InchesToPoints(inches: real): real {
    inches * 72.0
  }

  /**
   * A length the designer draws across the whole label (inches * 100 pixels)
   * covers the whole PDF page side, and every length keeps its physical size.
   */
  lemma PointsKeepPhysicalLength(inches: real, px: real)
    ensures ConvertToPoints(InchesToPixels(inches)) == InchesToPoints(inches)
    ensures ConvertToPoints(px) / 72.0 == px / 100.0
  {
  }

  lemma PointsExamples()
    ensures ConvertToPoints(100.0) == 72.0 && ConvertToPoints(50.0) == 36.0
    ensures InchesToPoints(4.0) == 288.0 && InchesToPoints(6.0) == 432.0
  {
  }
}

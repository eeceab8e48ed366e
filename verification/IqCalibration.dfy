/** The magnitude approximation of the I/Q calibration. */
module IqCalibration {
  import opened MachineWords

  /** Division as the machine does it, towards zero. */
  function Quotient(a: int, b: int): int
    requires b > 0
  {
    if a >= 0 then a / b else -(-a / b)
  }

  function Abs(x: int): nat { if x >= 0 then x else -x }

  function MagApprox(re: int, im: int): int {
    var absI, absQ := Abs(re), Abs(im);
    var max, min := if absI > absQ then absI else absQ, if absI > absQ then absQ else absI;
    max - Quotient(max, 32) + Quotient(min, 8) + Quotient(min, 4)
  }

  /** sin and cos of twice the phase difference, before they are scaled to length one: the product wraps. */
  function Unscaled(a: s32, b: s32): (r: s32)
    ensures -0x400_0000 <= r < 0x400_0000
  {
    Quotient(Signed32(Signed32(a - b) * 256), 32)
  }

  /** A measurement in units of 2^-15, as divided by the machine. */
  function Ratio(x: int, power: int): int
    requires power > 0
  {
    Quotient(x * 32768, power)
  }

  /** Rounding costs less than one above and less than two below. */
  lemma RoundingError(max: nat, min: nat, approx: int, exact: real)
    requires approx == max - max / 32 + min / 8 + min / 4
    requires exact == 31.0 / 32.0 * max as real + 3.0 / 8.0 * min as real
    ensures exact - 2.0 < approx as real < exact + 1.0
  {
  }

  /** The weighted sum of two sides is at least 19/20 of the hypotenuse... */
  lemma WeightsFromBelow(x: real, y: real, z: real)
    requires 0.0 <= y <= x && z >= 0.0 && z * z == x * x + y * y
    ensures 31.0 / 32.0 * x + 3.0 / 8.0 * y >= 19.0 / 20.0 * z
  {
    var e := 31.0 / 32.0 * x + 3.0 / 8.0 * y;
    var d := x - y;
    SquareBelow(y, d);
    assert x == y + d;
    SquareOrder(e, 19.0 / 20.0 * z);
    assert (19.0 / 20.0 * z) * (19.0 / 20.0 * z) == 361.0 / 400.0 * (z * z);
  }

  lemma SquareBelow(y: real, d: real)
    requires y >= 0.0 && d >= 0.0
    ensures var x := y + d;
            var e := 31.0 / 32.0 * x + 3.0 / 8.0 * y;
            e * e >= 361.0 / 400.0 * (x * x + y * y)
  {
  }

  lemma Positive(a: real, b: real)
    requires a > 0.0 && b > 0.0
    ensures a * b > 0.0
  {
  }

  lemma SquareOrder(a: real, b: real)
    requires a >= 0.0 && b >= 0.0 && a * a >= b * b
    ensures a >= b
  {
    if a < b {
      assert b * b - a * a == (b - a) * (b + a);
      Positive(b - a, b + a);
    }
  }

  /** ... and at most 26/25 from above. */
  lemma WeightsFromAbove(x: real, y: real, z: real)
    requires 0.0 <= y <= x && z >= 0.0 && z * z == x * x + y * y
    ensures 31.0 / 32.0 * x + 3.0 / 8.0 * y <= 26.0 / 25.0 * z
  {
    var e := 31.0 / 32.0 * x + 3.0 / 8.0 * y;
    var cross := 31.0 / 32.0 * y - 3.0 / 8.0 * x;
    assert cross * cross >= 0.0;
    assert e * e == 961.0 / 1024.0 * (x * x) + 744.0 / 1024.0 * (x * y) + 144.0 / 1024.0 * (y * y);
    assert cross * cross == 961.0 / 1024.0 * (y * y) - 744.0 / 1024.0 * (x * y) + 144.0 / 1024.0 * (x * x);
    assert (26.0 / 25.0 * z) * (26.0 / 25.0 * z) == 676.0 / 625.0 * (z * z);
    SquareOrder(26.0 / 25.0 * z, e);
  }

  /** The approximation is within these bounds of the true magnitude z. */
  lemma MagApproxBounds(re: int, im: int, z: real)
    requires z >= 0.0 && z * z == (re * re + im * im) as real
    ensures 19.0 / 20.0 * z - 2.0 <= MagApprox(re, im) as real <= 26.0 / 25.0 * z + 1.0
  {
    var max, min := if Abs(re) > Abs(im) then Abs(re) else Abs(im), if Abs(re) > Abs(im) then Abs(im) else Abs(re);
    var x, y := max as real, min as real;
    AbsSquare(re);
    AbsSquare(im);
    assert max * max + min * min == re * re + im * im;
    RealSquare(max);
    RealSquare(min);
    WeightsFromBelow(x, y, z);
    WeightsFromAbove(x, y, z);
    RoundingError(max, min, MagApprox(re, im), 31.0 / 32.0 * x + 3.0 / 8.0 * y);
  }

  lemma AbsSquare(x: int)
    ensures Abs(x) * Abs(x) == x * x
  {
  }

  lemma RealSquare(x: nat)
    ensures x as real * x as real == (x * x) as real
  {
  }

  /** The guard against dividing by the magnitude fires exactly for the zero vector. */
  lemma MagZeroExactly(re: int, im: int)
    ensures MagApprox(re, im) >= 0
    ensures MagApprox(re, im) == 0 <==> re == 0 && im == 0
  {
  }

  /** Inputs up to 2^30 keep every step of the approximation inside of 32 bits. */
  lemma MagApproxFits(re: int, im: int)
    requires Abs(re) <= 0x4000_0000 && Abs(im) <= 0x4000_0000
    ensures MagApprox(re, im) < 0x8000_0000
  {
  }

  /** What is passed in is eight times the difference, modulo 2^24 with its sign. */
  lemma UnscaledExactly(a: s32, b: s32)
    ensures Unscaled(a, b) == 8 * ((a - b + 0x80_0000) % 0x100_0000 - 0x80_0000)
    ensures -0x80_0000 <= a - b < 0x80_0000 ==> Unscaled(a, b) == 8 * (a - b)
  {
    var d: int := Signed32(a - b);
    var k := (a - b + 0x8000_0000) / 0x1_0000_0000;
    assert a - b == d + k * 0x1_0000_0000;
    SameLowBits(0x80_0000 + a - b, d + 0x80_0000, k);
    var q, r: int := (d + 0x80_0000) / 0x100_0000, (d + 0x80_0000) % 0x100_0000;
    assert d * 256 + 0x8000_0000 == q * 0x1_0000_0000 + r * 256;
    assert Signed32(d * 256) == (r - 0x80_0000) * 256;
  }

  /** What is passed in vanishes exactly for differences that are multiples of 2^24. */
  lemma UnscaledZeroExactly(a: s32, b: s32)
    ensures Unscaled(a, b) == 0 <==> (a - b) % 0x100_0000 == 0
  {
    var d := Signed32(a - b);
    var k := (a - b + 0x8000_0000) / 0x1_0000_0000;
    assert a - b == d + k * 0x1_0000_0000;
    WrapsToZero(d);
    assert (a - b) % 0x100_0000 == d % 0x100_0000 by { SameLowBits(a - b, d, k); }
  }

  lemma SameLowBits(x: int, d: int, k: int)
    requires x == d + k * 0x1_0000_0000
    ensures x % 0x100_0000 == d % 0x100_0000
  {
    assert x == d + (k * 256) * 0x100_0000;
  }

  lemma WrapsToZero(d: s32)
    ensures Quotient(Signed32(d * 256), 32) == 0 <==> d % 0x100_0000 == 0
  {
    var q, r := d / 0x100_0000, d % 0x100_0000;
    assert d * 256 == q * 0x1_0000_0000 + r * 256;
    assert Signed32(d * 256) == Signed32(r * 256);
  }

  /** The guard against dividing by the magnitude fires exactly if both differences are multiples of 2^24. For
      smaller differences this says that both pairs of measurements agree. */
  lemma GuardFiresExactly(a: s32, b: s32, c: s32, d: s32)
    ensures var fires := MagApprox(Unscaled(a, b), Unscaled(c, d)) == 0;
            && (fires <==> (a - b) % 0x100_0000 == 0 && (c - d) % 0x100_0000 == 0)
            && (Abs(a - b) < 0x100_0000 && Abs(c - d) < 0x100_0000 ==> (fires <==> a == b && c == d))
  {
    hide MagApprox, Unscaled;
    UnscaledZeroExactly(a, b);
    UnscaledZeroExactly(c, d);
    MagZeroExactly(Unscaled(a, b), Unscaled(c, d));
  }

  /** An input: a pair of measurements that differ by 2^24 fires the guard. */
  lemma WrapFiresGuard()
    ensures Ratio(-512, 1) != Ratio(0, 1)
    ensures MagApprox(Unscaled(Ratio(-512, 1), Ratio(0, 1)), Unscaled(Ratio(0, 1), Ratio(0, 1))) == 0
  {
    hide MagApprox, Unscaled;
    GuardFiresExactly(-0x100_0000, 0, 0, 0);
  }
}

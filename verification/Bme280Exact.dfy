/** How far the fixed-point results of the BME280 driver (src/bme280.c) are from the exact values of the
    compensation polynomials, as the sensor's data sheet means them (BST-BME280-DS002, section 4.2.3). */
module Bme280Exact {
  import opened MachineInts
  import opened Bme280Compensation

  // ---- the exact polynomials --------------------------------------------------------------

  /** The divisor of the pressure times 2 to the 41; v is the fine temperature less 128000. */
  function Rate(v: int, c: Calibration): int
  {
    (0x80_0000_0000_0000 + v * v * c.p3 + v * c.p2 * 0x10_0000) * c.p1
  }

  /** Its dividend times 2 to the 41. */
  function Excess(v: int, adc: int, c: Calibration): int
  {
    var offset := v * v * c.p6 + v * c.p5 * 0x2_0000 + c.p4 * 0x8_0000_0000;
    ((0x10_0000 - adc) * 0x8000_0000 - offset) * 3125 * 0x200_0000_0000
  }

  /** The pressure in hundredths of a pascal is this over ExactDen: with p = Excess / Rate it is
      (p + P9 p^2 / 2^51 + P8 p / 2^19) 25 / 2^14 + P7 25 / 4. */
  function ExactNum(tFine: int, adc: int, c: Calibration): int
  {
    var n, x := Rate(tFine - 128000, c), Excess(tFine - 128000, adc, c);
    25 * (x * n * 0x8_0000_0000_0000 + c.p9 * x * x + c.p8 * x * n * 0x1_0000_0000 +
          c.p7 * n * n * 0x8000_0000_0000_0000)
  }

  function ExactDen(tFine: int, c: Calibration): int
  {
    var n := Rate(tFine - 128000, c);
    n * n * 0x2_0000_0000_0000_0000
  }

  // ---- steps ------------------------------------------------------------------------------

  lemma QuotNear(a: int, b: int)
    requires b > 0
    ensures Within(b * Quot(a, b) - a, b - 1)
    ensures Magnitude(b * Quot(a, b)) <= Magnitude(a)
  {
    var m := Magnitude(a);
    var q := m / b;
    Division(m, b);
    assert b * -q == -(b * q);
  }

  lemma Division(m: nat, b: int)
    requires b > 0
    ensures 0 <= m - b * (m / b) <= b - 1 && b * (m / b) >= 0
  {
    assert m == m / b * b + m % b;
    MulMonotone(0, m / b, b);
  }

  lemma ScaleWithin(a: int, e: int, m: int)
    requires Within(a, e) && m >= 0
    ensures Within(a * m, e * m)
  {
    MulMonotone(a, e, m);
    MulMonotone(-e, a, m);
    assert -e * m == -(e * m);
  }

  /** The divisor is near the exact one, which is large. */
  lemma DivisorNear(v: int, c: Calibration)
    requires InDesignRange(v + 128000, c)
    ensures Divisor(v, c).Fits? && Within(Divisor(v, c).value * 0x200_0000_0000 - Rate(v, c), 0x200_0100_0000)
    ensures Rate(v, c) >= 0x14_0000_0000_0000_0000
  {
    DivisorPositive(v, c);
    RateLarge(v, c);
    var a, b := v * v * c.p3, v * c.p2;
    var q := Quot(a, 256);
    QuotNear(a, 256);
    var sum := 0x8000_0000_0000 + (q + b * 4096);
    var product := sum * c.p1;
    ScaleWithin(256 * q - a, 255, c.p1);
    assert 256 * product - Rate(v, c) == (256 * q - a) * c.p1 by {
      assert 256 * sum - (0x80_0000_0000_0000 + a + b * 0x10_0000) == 256 * q - a;
      Distribute(256 * sum, 0x80_0000_0000_0000 + a + b * 0x10_0000, c.p1);
      assert 256 * sum * c.p1 == 256 * product;
    }
    QuotNear(product, 0x2_0000_0000);
  }

  lemma Distribute(a: int, b: int, m: int)
    ensures a * m - b * m == (a - b) * m
  {
  }

  lemma RateLarge(v: int, c: Calibration)
    requires InDesignRange(v + 128000, c)
    ensures Rate(v, c) >= 0x14_0000_0000_0000_0000
  {
    ProductWithin(v, v, 0x8_0000, 0x8_0000);
    ProductWithin(v * v, c.p3, 0x40_0000_0000, 0x4000);
    ProductWithin(v, c.p2, 0x8_0000, 0x4000);
    var sum := 0x80_0000_0000_0000 + v * v * c.p3 + v * c.p2 * 0x10_0000;
    MulMonotone(0x50_0000_0000_0000, sum, c.p1);
  }

  /** The quotient y of n by a divisor d near rate / 2^41. */
  lemma RatioNear(n: int, d: int, rate: int, y: int)
    requires d > 0 && y == Quot(n, d) && Within(y, 0xD_0000_0000) && rate >= 0x14_0000_0000_0000_0000
    requires Within(d * 0x200_0000_0000 - rate, 0x200_0100_0000)
    ensures Within(y * rate - n * 0x200_0000_0000, 334 * rate)
  {
    QuotNear(n, d);
    var diff, rest := rate - d * 0x200_0000_0000, y * d - n;
    assert y * rate - n * 0x200_0000_0000 == y * diff + rest * 0x200_0000_0000;
    ProductWithin(y, diff, 0xD_0000_0000, 0x200_0100_0000);
  }

  /** The quadratic correction, with s the shortened quotient and z its value times rate. */
  lemma QuadraticNear(y: int, p9: int, rate: int, x: int)
    requires Within(y, 0xD_0000_0000) && Within(p9, 0x8000) && rate > 0 && Within(y * rate - x, 334 * rate)
    ensures var s := Quot(y, 8192);
            var e := Quot(p9 * s * s, 0x200_0000);
            var w := rate * rate * 0x8_0000_0000_0000;
            Within(e * w - p9 * x * x, 13855 * w)
  {
    var s := Quot(y, 8192);
    var z := 8192 * s * rate;
    ShortenedNear(y, s, rate, x);
    SquaresNear(z, x, rate);
    TruncatedNear(s, p9, rate, z);
    WeightedNear(p9, z, x, rate * rate);
    var e, w := Quot(p9 * s * s, 0x200_0000), rate * rate * 0x8_0000_0000_0000;
    Chain(e * w, p9 * z * z, p9 * x * x, w, 0x8000 * 8525 * 0x1A_0000_014E * (rate * rate), 13855 * w);
  }

  lemma Chain(a: int, b: int, c: int, e: int, f: int, bound: int)
    requires Within(a - b, e) && Within(b - c, f) && e + f <= bound
    ensures Within(a - c, bound)
  {
  }

  lemma TruncatedNear(s: int, p9: int, rate: int, z: int)
    requires z == 8192 * s * rate && rate > 0
    ensures var w := rate * rate * 0x8_0000_0000_0000;
            Within(Quot(p9 * s * s, 0x200_0000) * w - p9 * z * z, w)
  {
    var a, rr := p9 * s * s, rate * rate;
    var e := Quot(a, 0x200_0000);
    QuotNear(a, 0x200_0000);
    ScaleWithin(0x200_0000 * e - a, 0x200_0000, rr * 0x400_0000);
    SameSquare(p9, s, rate);
    Rearranged(e, a, rr);
  }

  lemma WeightedNear(p9: int, z: int, x: int, rr: int)
    requires Within(p9, 0x8000) && Within(z * z - x * x, 8525 * 0x1A_0000_014E * rr)
    ensures Within(p9 * z * z - p9 * x * x, 0x8000 * 8525 * 0x1A_0000_014E * rr)
  {
    var d := z * z - x * x;
    ProductWithin(p9, d, 0x8000, 8525 * 0x1A_0000_014E * rr);
    assert p9 * d == p9 * z * z - p9 * x * x;
  }

  lemma ShortenedNear(y: int, s: int, rate: int, x: int)
    requires s == Quot(y, 8192) && Within(y, 0xD_0000_0000) && rate > 0 && Within(y * rate - x, 334 * rate)
    ensures var z := 8192 * s * rate;
            Within(z - x, 8525 * rate) && Within(z + x, 0x1A_0000_014E * rate)
  {
    QuotNear(y, 8192);
    ScaleWithin(8192 * s - y, 8191, rate);
    ScaleWithin(8192 * s, 0xD_0000_0000, rate);
    ScaleWithin(y, 0xD_0000_0000, rate);
    Distribute(8192 * s, y, rate);
  }

  lemma SquaresNear(z: int, x: int, rate: int)
    requires rate > 0 && Within(z - x, 8525 * rate) && Within(z + x, 0x1A_0000_014E * rate)
    ensures Within(z * z - x * x, 8525 * 0x1A_0000_014E * (rate * rate))
  {
    ProductWithin(z - x, z + x, 8525 * rate, 0x1A_0000_014E * rate);
    assert (z - x) * (z + x) == z * z - x * x;
    assert 8525 * rate * (0x1A_0000_014E * rate) == 8525 * 0x1A_0000_014E * (rate * rate);
  }

  lemma SameSquare(p9: int, s: int, rate: int)
    ensures var z := 8192 * s * rate; p9 * s * s * (rate * rate * 0x400_0000) == p9 * z * z
  {
    var t := s * rate;
    assert s * s * (rate * rate) == t * t;
    assert p9 * s * s * (rate * rate) == p9 * (s * s * (rate * rate));
    assert p9 * (8192 * t) * (8192 * t) == 0x400_0000 * (p9 * (t * t));
  }

  lemma Rearranged(e: int, a: int, rr: int)
    ensures (0x200_0000 * e - a) * (rr * 0x400_0000) == e * (rr * 0x8_0000_0000_0000) - a * (rr * 0x400_0000)
  {
  }

  /** The linear correction. */
  lemma LinearNear(y: int, p8: int, rate: int, x: int)
    requires Within(p8, 0x8000) && rate > 0 && Within(y * rate - x, 334 * rate)
    ensures var f := Quot(p8 * y, 0x8_0000);
            var w := rate * rate * 0x8_0000_0000_0000;
            Within(f * w - p8 * x * rate * 0x1_0000_0000, 22 * w)
  {
    var a := p8 * y;
    var f := Quot(a, 0x8_0000);
    QuotNear(a, 0x8_0000);
    ScaleWithin(0x8_0000 * f - a, 0x8_0000, rate);
    ProductWithin(p8, y * rate - x, 0x8000, 334 * rate);
    Products(f, p8, y, rate, x);
    Chain(0x8_0000 * (f * rate), a * rate, p8 * x, 0x8_0000 * rate, 0x8000 * 334 * rate, 22 * 0x8_0000 * rate);
    ScaleWithin(0x8_0000 * (f * rate) - p8 * x, 22 * 0x8_0000 * rate, rate * 0x1_0000_0000);
    Scaled(f, p8 * x, rate);
  }

  lemma Products(f: int, p8: int, y: int, rate: int, x: int)
    ensures (0x8_0000 * f - p8 * y) * rate == 0x8_0000 * (f * rate) - p8 * y * rate
    ensures p8 * (y * rate - x) == p8 * y * rate - p8 * x
  {
  }

  lemma Scaled(f: int, b: int, rate: int)
    ensures (0x8_0000 * (f * rate) - b) * (rate * 0x1_0000_0000) ==
            f * (rate * rate * 0x8_0000_0000_0000) - b * rate * 0x1_0000_0000
    ensures 22 * 0x8_0000 * rate * (rate * 0x1_0000_0000) == 22 * (rate * rate * 0x8_0000_0000_0000)
  {
  }

  /** The quotient itself, over the common denominator. */
  lemma QuotientNear(y: int, rate: int, x: int)
    requires rate > 0 && Within(y * rate - x, 334 * rate)
    ensures var w := rate * rate * 0x8_0000_0000_0000; Within(y * w - x * rate * 0x8_0000_0000_0000, 334 * w)
  {
    ScaleWithin(y * rate - x, 334 * rate, rate * 0x8_0000_0000_0000);
    assert (y * rate - x) * (rate * 0x8_0000_0000_0000) ==
           y * (rate * rate * 0x8_0000_0000_0000) - x * rate * 0x8_0000_0000_0000;
    assert 334 * rate * (rate * 0x8_0000_0000_0000) == 334 * (rate * rate * 0x8_0000_0000_0000);
  }

  /** The sum of quotient and corrections, and its scaling. */
  lemma ScaledNear(g: int, p7: int, w: int, total: int)
    requires w > 0 && Within(g * w - total, 14211 * w)
    ensures var r := Quot(Quot(Quot(g, 256) + p7 * 16, 2) * 100, 128);
            Within(r * (0x4000 * w) - 25 * (total + 4096 * p7 * w), 24 * (0x4000 * w))
  {
    var q, r := Steps(g, p7);
    ScaleWithin(256 * q - g, 255, w);
    ScaleWithin(256 * r - 100 * (q + p7 * 16), 354, w);
    Expanded(g, q, p7, r, w);
    Combined(r * w, q * w, p7 * w, g * w, w, total);
    Regrouped(r, p7, w);
  }

  lemma Steps(g: int, p7: int) returns (q: int, r: int)
    ensures q == Quot(g, 256) && r == Quot(Quot(q + p7 * 16, 2) * 100, 128)
    ensures Within(256 * q - g, 255) && Within(256 * r - 100 * (q + p7 * 16), 354)
  {
    q := Quot(g, 256);
    var k := Quot(q + p7 * 16, 2);
    r := Quot(k * 100, 128);
    QuotNear(g, 256);
    QuotNear(q + p7 * 16, 2);
    QuotNear(k * 100, 128);
  }

  lemma Regrouped(r: int, p7: int, w: int)
    ensures r * (0x4000 * w) == 0x4000 * (r * w) && 4096 * p7 * w == 4096 * (p7 * w)
  {
  }

  lemma Expanded(g: int, q: int, p7: int, r: int, w: int)
    ensures (256 * q - g) * w == 256 * (q * w) - g * w
    ensures (256 * r - 100 * (q + p7 * 16)) * w == 256 * (r * w) - 100 * (q * w) - 1600 * (p7 * w)
  {
  }

  lemma Combined(rw: int, qw: int, pw: int, gw: int, w: int, total: int)
    requires w > 0 && Within(gw - total, 14211 * w) && Within(256 * qw - gw, 255 * w)
    requires Within(256 * rw - 100 * qw - 1600 * pw, 354 * w)
    ensures Within(0x4000 * rw - 25 * (total + 4096 * pw), 24 * (0x4000 * w))
  {
  }

  lemma SumNear(y: int, c: Calibration, rate: int, x: int)
    requires Within(y, 0xD_0000_0000) && I16(c.p8) && I16(c.p9) && rate > 0 && Within(y * rate - x, 334 * rate)
    ensures var s := Quot(y, 8192);
            var g := y + Quot(c.p9 * s * s, 0x200_0000) + Quot(c.p8 * y, 0x8_0000);
            var w := rate * rate * 0x8_0000_0000_0000;
            Within(g * w - (x * rate * 0x8_0000_0000_0000 + c.p9 * x * x + c.p8 * x * rate * 0x1_0000_0000), 14211 * w)
  {
    var s, w := Quot(y, 8192), rate * rate * 0x8_0000_0000_0000;
    var e, f := Quot(c.p9 * s * s, 0x200_0000), Quot(c.p8 * y, 0x8_0000);
    QuotientNear(y, rate, x);
    QuadraticNear(y, c.p9, rate, x);
    LinearNear(y, c.p8, rate, x);
    ThreeTerms(y, e, f, w);
  }

  lemma ThreeTerms(y: int, e: int, f: int, w: int)
    ensures (y + e + f) * w == y * w + e * w + f * w
  {
  }

  /** For every reading and calibration in the design range the computed pressure is within 24 hundredths of
      a pascal of the exact one. */
  lemma PressureNear(tFine: int, adc: u32, c: Calibration)
    requires adc < 0x10_0000 && InDesignRange(tFine, c)
    ensures RawPressure(tFine, adc, c).Fits? && ExactDen(tFine, c) > 0
    ensures Within(RawPressure(tFine, adc, c).value * ExactDen(tFine, c) - ExactNum(tFine, adc, c),
                   24 * ExactDen(tFine, c))
  {
    var v := tFine - 128000;
    var n, x := Rate(v, c), Excess(v, adc, c);
    var y := RawQuotient(tFine, adc, c);
    SumNear(y, c, n, x);
    var s, w := Quot(y, 8192), n * n * 0x8_0000_0000_0000;
    var g := y + Quot(c.p9 * s * s, 0x200_0000) + Quot(c.p8 * y, 0x8_0000);
    var total := x * n * 0x8_0000_0000_0000 + c.p9 * x * x + c.p8 * x * n * 0x1_0000_0000;
    SquarePositive(n);
    ScaledNear(g, c.p7, w, total);
    Denominators(n, c.p7);
  }

  lemma SquarePositive(n: int)
    requires n > 0
    ensures n * n * 0x8_0000_0000_0000 > 0 && n * n * 0x2_0000_0000_0000_0000 > 0
  {
    MulMonotone(1, n, n);
  }

  lemma Denominators(n: int, p7: int)
    ensures n * n * 0x2_0000_0000_0000_0000 == 0x4000 * (n * n * 0x8_0000_0000_0000)
    ensures p7 * n * n * 0x8000_0000_0000_0000 == 4096 * p7 * (n * n * 0x8_0000_0000_0000)
  {
  }

  /** The quotient that the driver computes, and what becomes of it. */
  lemma RawQuotient(tFine: int, adc: u32, c: Calibration) returns (y: int)
    requires adc < 0x10_0000 && InDesignRange(tFine, c)
    ensures var v := tFine - 128000;
            && Rate(v, c) > 0 && Within(y, 0xD_0000_0000)
            && Within(y * Rate(v, c) - Excess(v, adc, c), 334 * Rate(v, c))
    ensures var s := Quot(y, 8192);
            var g := y + Quot(c.p9 * s * s, 0x200_0000) + Quot(c.p8 * y, 0x8_0000);
            RawPressure(tFine, adc, c) == Fits(Quot(Quot(Quot(g, 256) + c.p7 * 16, 2) * 100, 128))
  {
    var v := tFine - 128000;
    var d: int;
    y, d := RatioFits(tFine, adc, c);
    DivisorNear(v, c);
    RatioNear(Numerator(tFine, adc, c), d, Rate(v, c), y);
    OffsetFits(v, c);
    CorrectedFits(y, c);
    PressureNeverOverflows(tFine, adc, c);
    assert Excess(v, adc, c) == Numerator(tFine, adc, c) * 0x200_0000_0000;
  }

  /** So is the reported pressure, if the exact one is as far as that inside the range of the sensor. */
  lemma ReportedNear(tFine: int, adc: u32, c: Calibration)
    requires adc < 0x10_0000 && InDesignRange(tFine, c)
    requires 3000024 * ExactDen(tFine, c) <= ExactNum(tFine, adc, c) <= 10999976 * ExactDen(tFine, c)
    ensures Pressure(tFine, adc, c).Fits?
    ensures Within(Pressure(tFine, adc, c).value * ExactDen(tFine, c) - ExactNum(tFine, adc, c),
                   24 * ExactDen(tFine, c))
  {
    PressureNear(tFine, adc, c);
    InRange(RawPressure(tFine, adc, c).value, ExactDen(tFine, c), ExactNum(tFine, adc, c));
    Unlimited(RawPressure(tFine, adc, c));
  }

  lemma Unlimited(raw: Checked)
    requires raw.Fits? && 3000000 <= raw.value <= 11000000
    ensures Reported(raw) == raw
  {
  }

  lemma InRange(raw: int, den: int, num: int)
    requires den > 0 && Within(raw * den - num, 24 * den) && 3000024 * den <= num <= 10999976 * den
    ensures 3000000 <= raw <= 11000000
  {
    if raw < 3000000 { MulMonotone(raw + 1, 3000000, den); }
    if raw > 11000000 { MulMonotone(11000001, raw, den); }
  }

  // ---- temperature ------------------------------------------------------------------------

  /** The fine temperature times 2 to the 34, and the temperature in hundredths of a degree times 2 to the 42
      divided by 5; u is the reading less 16 times T1. */
  function ExactFine(adc: int, c: Calibration): int
  {
    var u := adc - 16 * c.t1;
    u * c.t2 * 0x10_0000 + u * u * c.t3
  }

  /** For every reading and calibration in range the fine temperature is within 24 units of the exact one, and
      the temperature, where no limit applies, within 2 hundredths of a degree. */
  lemma TemperatureNear(adc: u32, c: Calibration)
    requires Typed(c) && InTemperatureRange(adc, c)
    ensures var fine := FineTemperature(adc, c);
            && fine.Fits? && Within(fine.value * 0x4_0000_0000 - ExactFine(adc, c), 24 * 0x4_0000_0000)
            && var t := Temperature(fine.value);
               && t.Fits?
               && (-3998 * 0x400_0000_0000 <= 5 * ExactFine(adc, c) <= 8498 * 0x400_0000_0000 ==>
                     Within(t.value * 0x400_0000_0000 - 5 * ExactFine(adc, c), 2 * 0x400_0000_0000))
  {
    TemperatureNeverOverflows(adc, c);
    Differences(adc, c);
    var coarse, delta, u := adc / 8 - c.t1 * 2, adc / 16 - c.t1, adc - 16 * c.t1;
    LinearNearby(u, coarse, c.t2);
    SquareNearby(u, delta, c.t3);
    var fine := FineTemperature(adc, c).value;
    assert fine == Quot(coarse * c.t2, 2048) + Quot(delta * delta / 4096 * c.t3, 16384);
    HundredthsNear(fine, ExactFine(adc, c));
  }

  lemma LinearNearby(u: int, coarse: int, t2: int)
    requires 0 <= u - 8 * coarse <= 7 && Within(t2, 32767)
    ensures Within(Quot(coarse * t2, 2048) * 0x4_0000_0000 - u * t2 * 0x10_0000, 15 * 0x4_0000_0000)
  {
    QuotNear(coarse * t2, 2048);
    ProductWithin(u - 8 * coarse, t2, 7, 32767);
    assert (u - 8 * coarse) * t2 == u * t2 - 8 * (coarse * t2);
  }

  lemma SquareNearby(u: int, delta: int, t3: int)
    requires 0 <= u - 16 * delta <= 15 && Within(delta, 0x8000) && Within(t3, 8191)
    ensures Within(Quot(delta * delta / 4096 * t3, 16384) * 0x4_0000_0000 - u * u * t3, 9 * 0x4_0000_0000)
  {
    var square := delta * delta;
    ProductWithin(delta, delta, 0x8000, 0x8000);
    var shortened := square / 4096;
    QuotNear(shortened * t3, 16384);
    ProductWithin(square - 4096 * shortened, t3, 4095, 8191);
    ProductWithin(u - 16 * delta, u + 16 * delta, 15, 1048591);
    ProductWithin(u * u - 256 * square, t3, 15 * 1048591, 8191);
    assert (u - 16 * delta) * (u + 16 * delta) == u * u - 256 * square;
    assert (square - 4096 * shortened) * t3 == square * t3 - 4096 * (shortened * t3);
    assert (u * u - 256 * square) * t3 == u * u * t3 - 256 * (square * t3);
  }

  lemma HundredthsNear(fine: int, exact: int)
    requires Within(fine * 0x4_0000_0000 - exact, 24 * 0x4_0000_0000) && Within(fine, 0x20_0000)
    ensures var t := Temperature(fine);
            && t.Fits?
            && (-3998 * 0x400_0000_0000 <= 5 * exact <= 8498 * 0x400_0000_0000 ==>
                  Within(t.value * 0x400_0000_0000 - 5 * exact, 2 * 0x400_0000_0000))
  {
    QuotNear(fine * 5 + 128, 256);
  }
}

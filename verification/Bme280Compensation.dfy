/** Model of the integer compensation of the BME280 driver (src/bme280.c, 64-bit pressure path).

    Signed overflow has no meaning in C, so every signed operation is checked. Unsigned arithmetic
    and casts wrap. */
module Bme280Compensation {
  import opened MachineInts

  /** The C quotient, rounded toward zero. */
  function Quot(a: int, b: int): int
    requires b != 0
  {
    if (a >= 0) == (b > 0) then Magnitude(a) / Magnitude(b) else -(Magnitude(a) / Magnitude(b))
  }

  function Magnitude(a: int): nat { if a < 0 then -a else a }

  datatype Calibration = Calibration(
    t1: int, t2: int, t3: int,
    p1: int, p2: int, p3: int, p4: int, p5: int, p6: int, p7: int, p8: int, p9: int)

  predicate I16(x: int) { -0x8000 <= x < 0x8000 }

  /** The types of the trim variables. */
  predicate Typed(c: Calibration)
  {
    && 0 <= c.t1 < 0x1_0000 && I16(c.t2) && I16(c.t3)
    && 0 <= c.p1 < 0x1_0000 && I16(c.p2) && I16(c.p3) && I16(c.p4) && I16(c.p5) && I16(c.p6)
    && I16(c.p7) && I16(c.p8) && I16(c.p9)
  }

  // ---- temperature ------------------------------------------------------------------------

  /** t_fine, the fine temperature the driver keeps for the pressure computation. */
  function FineTemperature(adc: u32, c: Calibration): Checked
    requires Typed(c)
  {
    var coarse := AsI32(U32(adc / 8 - c.t1 * 2));
    var scaled :- I32(coarse * c.t2);
    var delta := AsI32(U32(adc / 16 - c.t1));
    var square :- I32(delta * delta);
    var cubic :- I32(square / 4096 * c.t3);
    I32(Quot(scaled, 2048) + Quot(cubic, 16384))
  }

  /** Hundredths of a degree, limited to the sensor's range. */
  function Temperature(tFine: int): Checked
  {
    var times :- I32(tFine * 5);
    var shifted :- I32(times + 128);
    var t := Quot(shifted, 256);
    Fits(if t < -4000 then -4000 else if t > 8500 then 8500 else t)
  }

  // ---- pressure ---------------------------------------------------------------------------

  function Offset(v: int, c: Calibration): Checked
  {
    var square :- I64(v * v);
    var a :- I64(square * c.p6);
    var b0 :- I64(v * c.p5);
    var b :- I64(b0 * 131072);
    var ab :- I64(a + b);
    var d :- I64(c.p4 * 34359738368);
    I64(ab + d)
  }

  function Divisor(v: int, c: Calibration): Checked
  {
    var square :- I64(v * v);
    var a :- I64(square * c.p3);
    var b0 :- I64(v * c.p2);
    var b :- I64(b0 * 4096);
    var slope :- I64(Quot(a, 256) + b);
    var sum :- I64(140737488355328 + slope);
    var product :- I64(sum * c.p1);
    Fits(Quot(product, 8589934592))
  }

  /** The quadratic correction of a raw pressure. */
  function Correction(v4: int, c: Calibration): Checked
  {
    var e0 :- I64(c.p9 * Quot(v4, 8192));
    var e :- I64(e0 * Quot(v4, 8192));
    var f :- I64(c.p8 * v4);
    var g0 :- I64(v4 + Quot(e, 33554432));
    var g :- I64(g0 + Quot(f, 524288));
    I64(Quot(g, 256) + c.p7 * 16)
  }

  /** The correction and the final scaling. */
  function Corrected(v4: int, c: Calibration): Checked
  {
    var h :- Correction(v4, c);
    var hundred :- I64(Quot(h, 2) * 100);
    Fits(Quot(hundred, 128))
  }

  function Scaled(adc: u32, offset: int, divisor: int): Checked
    requires divisor != 0
  {
    var scaled :- I64(U32(1048576 - adc) * 2147483648);
    var net :- I64(scaled - offset);
    var numerator :- I64(net * 3125);
    Fits(Quot(numerator, divisor))
  }

  /** The computed pressure before it is stored in an unsigned word and limited. */
  function RawPressure(tFine: int, adc: u32, c: Calibration): Checked
  {
    var v :- I64(tFine - 128000);
    var offset :- Offset(v, c);
    var divisor :- Divisor(v, c);
    if divisor == 0 then Fits(3000000)
    else
      var v4 :- Scaled(adc, offset, divisor);
      Corrected(v4, c)
  }

  function Limited(pressure: u32): u32
  {
    if pressure < 3000000 then 3000000 else if pressure > 11000000 then 11000000 else pressure
  }

  /** What is reported for a computed pressure. */
  function Reported(raw: Checked): Checked
  {
    var p :- raw;
    Fits(Limited(U32(p)))
  }

  function Pressure(tFine: int, adc: u32, c: Calibration): Checked { Reported(RawPressure(tFine, adc, c)) }

  // ---- ranges -----------------------------------------------------------------------------

  predicate Within(x: int, bound: int) { -bound <= x <= bound }

  lemma ProductWithin(a: int, b: int, x: int, y: int)
    requires Within(a, x) && Within(b, y)
    ensures Within(a * b, x * y)
  {
    var m, n: int := Magnitude(a), Magnitude(b);
    MulMonotone(m, x, n);
    MulMonotone(n, y, x);
    assert a * b == m * n || a * b == -(m * n);
  }

  lemma QuotientMonotone(a: int, x: int, b: int)
    requires b > 0 && 0 <= a <= x
    ensures 0 <= a / b <= x / b
  {
    var p, q := a / b, x / b;
    assert a == p * b + a % b && x == q * b + x % b;
    if q < p { MulMonotone(q + 1, p, b); }
  }

  lemma QuotWithin(a: int, b: int, x: int)
    requires b > 0 && Within(a, x)
    ensures Within(Quot(a, b), x / b)
  {
    QuotientMonotone(Magnitude(a), x, b);
  }

  /** The calibration and temperature range for which the 64-bit path is designed. */
  predicate InDesignRange(tFine: int, c: Calibration)
  {
    && Within(tFine - 128000, 0x8_0000)
    && 0x4000 <= c.p1 <= 47662
    && Within(c.p2, 0x4000) && Within(c.p3, 0x4000) && Within(c.p4, 0x2000)
    && Within(c.p5, 0x1000) && Within(c.p6, 0x100)
    && I16(c.p7) && I16(c.p8) && I16(c.p9)
  }

  const P47 := 140737488355328

  /** The offset of the numerator stays below 2^46 + 2^48 + 2^48. */
  lemma OffsetFits(v: int, c: Calibration)
    requires InDesignRange(v + 128000, c)
    ensures Offset(v, c).Fits? && Within(Offset(v, c).value, 633318697598976)
  {
    ProductWithin(v, v, 0x8_0000, 0x8_0000);
    ProductWithin(v * v, c.p6, 0x40_0000_0000, 0x100);
    ProductWithin(v, c.p5, 0x8_0000, 0x1000);
  }

  /** The divisor is strictly positive, and its product with P1 just fits in 63 bits. */
  lemma DivisorPositive(v: int, c: Calibration)
    requires InDesignRange(v + 128000, c)
    ensures Divisor(v, c).Fits? && 167772160 <= Divisor(v, c).value
  {
    ProductWithin(v, v, 0x8_0000, 0x8_0000);
    ProductWithin(v * v, c.p3, 0x40_0000_0000, 0x4000);
    ProductWithin(v, c.p2, 0x8_0000, 0x4000);
    var a := v * v * c.p3;
    QuotWithin(a, 256, 0x10_0000_0000_0000);
    var sum := P47 + Quot(a, 256) + v * c.p2 * 4096;
    MulMonotone(87960930222080, sum, c.p1);
    MulMonotone(sum, 193514046488576, c.p1);
    QuotientMonotone(87960930222080 * 0x4000, sum * c.p1, 8589934592);
  }

  /** The scaled pressure is at most 2^36 in magnitude, so its square still fits. */
  lemma CorrectedFits(v4: int, c: Calibration)
    requires I16(c.p7) && I16(c.p8) && I16(c.p9) && Within(v4, 0xD_0000_0000)
    ensures Corrected(v4, c).Fits?
    ensures Within(Corrected(v4, c).value, 0x1000_0000)
  {
    var s := Quot(v4, 8192);
    QuotWithin(v4, 8192, 0xD_0000_0000);
    ProductWithin(c.p9, s, 0x8000, 0x68_0000);
    ProductWithin(c.p9 * s, s, 0x34_0000_0000, 0x68_0000);
    ProductWithin(c.p8, v4, 0x8000, 0xD_0000_0000);
    var e, f := c.p9 * s * s, c.p8 * v4;
    QuotWithin(e, 33554432, 0x34_0000_0000 * 0x68_0000);
    QuotWithin(f, 524288, 0x8000 * 0xD_0000_0000);
    var g := v4 + Quot(e, 33554432) + Quot(f, 524288);
    QuotWithin(g, 256, 0xD_0000_0000 + 0x34_0000_0000 * 0x68_0000 / 33554432 + 0x8000 * 0xD_0000_0000 / 524288);
  }

  lemma ScaledFits(adc: u32, offset: int, d: int)
    requires adc < 0x10_0000 && Within(offset, 633318697598976) && d >= 167772160
    ensures Scaled(adc, offset, d).Fits? && Within(Scaled(adc, offset, d).value, 0xD_0000_0000)
  {
    var n := Magnitude(((1048576 - adc) * 2147483648 - offset) * 3125);
    var q := n / d;
    assert n == q * d + n % d;
    MulMonotone(167772160, d, q);
  }

  /** For every 20-bit reading and every calibration in range, the 64-bit pressure arithmetic never
      overflows and never divides by zero, and the result is within the limits. */
  lemma PressureNeverOverflows(tFine: int, adc: u32, c: Calibration)
    requires adc < 0x10_0000 && InDesignRange(tFine, c)
    ensures Divisor(tFine - 128000, c).Fits? && Divisor(tFine - 128000, c).value > 0
    ensures RawPressure(tFine, adc, c).Fits? && Within(RawPressure(tFine, adc, c).value, 0x1000_0000)
    ensures Pressure(tFine, adc, c).Fits? && 3000000 <= Pressure(tFine, adc, c).value <= 11000000
  {
    var v := tFine - 128000;
    OffsetFits(v, c);
    DivisorPositive(v, c);
    var offset, d := Offset(v, c).value, Divisor(v, c).value;
    ScaledFits(adc, offset, d);
    CorrectedFits(Scaled(adc, offset, d).value, c);
  }

  /** The upper bound on P1 is exact: above it the divisor's product overflows within the other bounds. */
  lemma DesignRangeIsTight(c: Calibration)
    requires c.p1 > 47662 && c.p2 == 0x4000 && c.p3 == 0x4000
    ensures Divisor(0x8_0000, c) == Overflow
  {
    assert Quot(0x8_0000 * 0x8_0000 * c.p3, 256) == 17592186044416;
    MulMonotone(47663, c.p1, 193514046488576);
  }

  /** The nearest value the sensor is specified for. */
  function Nearest(raw: int): int
  {
    if raw < 3000000 then 3000000 else if raw > 11000000 then 11000000 else raw
  }

  lemma LimitedWord(raw: int)
    requires Within(raw, 0x1000_0000)
    ensures Limited(U32(raw)) == Nearest(raw) <==> raw >= 0
    ensures raw < 0 ==> Limited(U32(raw)) == 11000000
  {
  }

  /** The reported pressure is the value nearest to the computed one that the sensor is specified for. */
  predicate NearestReported(tFine: int, adc: u32, c: Calibration)
  {
    var raw := RawPressure(tFine, adc, c);
    raw.Fits? && Pressure(tFine, adc, c) == Fits(Nearest(raw.value))
  }

  /** The computed pressure is negative. */
  predicate NegativeRaw(tFine: int, adc: u32, c: Calibration)
  {
    var raw := RawPressure(tFine, adc, c);
    raw.Fits? && raw.value < 0
  }

  /** The corrected sum, before it is scaled, is at least -3. */
  predicate SumInReach(tFine: int, adc: u32, c: Calibration)
  {
    var sum := CorrectedSum(tFine, adc, c);
    sum.Fits? && sum.value >= -3
  }

  /** The limiter works on an unsigned word: the reported pressure is the nearest value in range exactly
      when the computed pressure is not negative, and the upper limit otherwise. That is the case exactly
      when the corrected sum is at least -3. */
  lemma LimiterExact(tFine: int, adc: u32, c: Calibration)
    requires adc < 0x10_0000 && InDesignRange(tFine, c)
    ensures NearestReported(tFine, adc, c) <==> SumInReach(tFine, adc, c)
    ensures NearestReported(tFine, adc, c) <==> !NegativeRaw(tFine, adc, c)
    ensures !SumInReach(tFine, adc, c) ==> Pressure(tFine, adc, c) == Fits(11000000)
  {
    PressureNeverOverflows(tFine, adc, c);
    SumFits(tFine, adc, c);
    ScaledSign(CorrectedSum(tFine, adc, c).value);
    LimitedWord(RawPressure(tFine, adc, c).value);
  }

  /** The value of var4 before it is scaled to the result. */
  function CorrectedSum(tFine: int, adc: u32, c: Calibration): Checked
  {
    var v :- I64(tFine - 128000);
    var offset :- Offset(v, c);
    var divisor :- Divisor(v, c);
    if divisor == 0 then Overflow
    else
      var v4 :- Scaled(adc, offset, divisor);
      Correction(v4, c)
  }

  lemma SumFits(tFine: int, adc: u32, c: Calibration)
    requires adc < 0x10_0000 && InDesignRange(tFine, c)
    ensures CorrectedSum(tFine, adc, c).Fits?
    ensures RawPressure(tFine, adc, c) == Fits(Quot(Quot(CorrectedSum(tFine, adc, c).value, 2) * 100, 128))
  {
    PressureNeverOverflows(tFine, adc, c);
  }

  lemma ScaledSign(h: int)
    ensures Quot(Quot(h, 2) * 100, 128) >= 0 <==> h >= -3
  {
  }

  /** A condition on readings and calibration: with a numerator that is not negative and correction
      coefficients that are not, the reported pressure is the nearest one in range. */
  lemma PressureRight(tFine: int, adc: u32, c: Calibration)
    requires adc < 0x10_0000 && InDesignRange(tFine, c)
    requires Numerator(tFine, adc, c) >= 0 && c.p7 >= 0 && c.p8 >= 0 && c.p9 >= 0
    ensures NearestReported(tFine, adc, c)
  {
    SumPositive(tFine, adc, c);
    LimiterExact(tFine, adc, c);
  }

  lemma SumPositive(tFine: int, adc: u32, c: Calibration)
    requires adc < 0x10_0000 && InDesignRange(tFine, c)
    requires Numerator(tFine, adc, c) >= 0 && c.p7 >= 0 && c.p8 >= 0 && c.p9 >= 0
    ensures SumInReach(tFine, adc, c)
  {
    var v4, d := RatioFits(tFine, adc, c);
    QuotientSign(Numerator(tFine, adc, c), d);
    CorrectionSign(v4, c);
  }

  /** Without correction the reported pressure is the nearest one in range exactly if the numerator is
      above -1024 times the divisor. */
  lemma UncorrectedPressureRight(tFine: int, adc: u32, c: Calibration)
    requires adc < 0x10_0000 && InDesignRange(tFine, c) && c.p7 == c.p8 == c.p9 == 0
    ensures NearestReported(tFine, adc, c) <==> Numerator(tFine, adc, c) > -1024 * Denominator(tFine, c)
  {
    UncorrectedReach(tFine, adc, c);
    LimiterExact(tFine, adc, c);
  }

  lemma UncorrectedReach(tFine: int, adc: u32, c: Calibration)
    requires adc < 0x10_0000 && InDesignRange(tFine, c) && c.p7 == c.p8 == c.p9 == 0
    ensures SumInReach(tFine, adc, c) <==> Numerator(tFine, adc, c) > -1024 * Denominator(tFine, c)
  {
    var v4, d := RatioFits(tFine, adc, c);
    QuotientAbove(Numerator(tFine, adc, c), d);
    UncorrectedSum(v4, c);
  }

  /** The numerator of the raw pressure. */
  function Numerator(tFine: int, adc: u32, c: Calibration): int
    requires InDesignRange(tFine, c)
  {
    OffsetFits(tFine - 128000, c);
    ((1048576 - adc) * 2147483648 - Offset(tFine - 128000, c).value) * 3125
  }

  /** The divisor. */
  function Denominator(tFine: int, c: Calibration): int
    requires InDesignRange(tFine, c)
  {
    DivisorPositive(tFine - 128000, c);
    Divisor(tFine - 128000, c).value
  }

  lemma RatioFits(tFine: int, adc: u32, c: Calibration) returns (v4: int, d: int)
    requires adc < 0x10_0000 && InDesignRange(tFine, c)
    ensures d == Denominator(tFine, c) && d > 0 && v4 == Quot(Numerator(tFine, adc, c), d)
    ensures Within(v4, 0xD_0000_0000) && CorrectedSum(tFine, adc, c) == Correction(v4, c)
  {
    var v := tFine - 128000;
    OffsetFits(v, c);
    DivisorPositive(v, c);
    d := Divisor(v, c).value;
    ScaledFits(adc, Offset(v, c).value, d);
    v4 := Scaled(adc, Offset(v, c).value, d).value;
  }

  lemma QuotientSign(n: int, d: int)
    requires d > 0 && n >= 0
    ensures Quot(n, d) >= 0
  {
  }

  lemma CorrectionSign(v4: int, c: Calibration)
    requires 0 <= v4 <= 0xD_0000_0000 && 0 <= c.p7 < 0x8000 && 0 <= c.p8 < 0x8000 && 0 <= c.p9 < 0x8000
    ensures Correction(v4, c).Fits? && Correction(v4, c).value >= 0
  {
    CorrectedFits(v4, c);
    var s := Quot(v4, 8192);
    MulMonotone(0, c.p9, s);
    MulMonotone(0, c.p9 * s, s);
    MulMonotone(0, c.p8, v4);
  }

  lemma UncorrectedSum(v4: int, c: Calibration)
    requires Within(v4, 0xD_0000_0000) && c.p7 == c.p8 == c.p9 == 0
    ensures Correction(v4, c) == Fits(Quot(v4, 256))
    ensures Quot(v4, 256) >= -3 <==> v4 > -1024
  {
    assert 0 * Quot(v4, 8192) == 0 && 0 * v4 == 0;
  }

  lemma QuotientAbove(n: int, d: int)
    requires d > 0
    ensures Quot(n, d) > -1024 <==> n > -1024 * d
  {
    var m := Magnitude(n);
    var q := m / d;
    assert m == q * d + m % d;
    if q >= 1024 {
      MulMonotone(1024, q, d);
    } else {
      MulMonotone(q + 1, 1024, d);
      assert (q + 1) * d == q * d + d;
    }
  }

  /** A negative pressure is reachable within the design range: with this calibration every temperature
      reading below 2^19 gives the fine temperature 0, and the highest pressure reading is
      reported as the upper limit. */
  lemma NegativePressureReadsAsMaximum(c: Calibration, temperature: u32)
    requires c == Calibration(0, 0, 0, 0x4000, 0, 0, 0x2000, 0, 0, 0, 0, 0) && temperature < 0x8_0000
    ensures FineTemperature(temperature, c) == Fits(0) && InDesignRange(0, c)
    ensures RawPressure(0, 0xF_FFFF, c) == Fits(-4999961)
    ensures Pressure(0, 0xF_FFFF, c) == Fits(11000000)
  {
    NoTemperature(c, temperature);
    NegativeRawPressure(c);
  }

  lemma NoTemperature(c: Calibration, temperature: u32)
    requires c.t1 == c.t2 == c.t3 == 0 && Typed(c) && temperature < 0x8_0000
    ensures FineTemperature(temperature, c) == Fits(0)
  {
    var coarse, delta := temperature / 8, temperature / 16;
    assert AsI32(U32(coarse)) == coarse && AsI32(U32(delta)) == delta;
    ProductWithin(delta, delta, 0x8000, 0x8000);
    assert coarse * c.t2 == 0 && delta * delta / 4096 * c.t3 == 0;
  }

  lemma NegativeRawPressure(c: Calibration)
    requires c == Calibration(0, 0, 0, 0x4000, 0, 0, 0x2000, 0, 0, 0, 0, 0)
    ensures RawPressure(0, 0xF_FFFF, c) == Fits(-4999961) && Pressure(0, 0xF_FFFF, c) == Fits(11000000)
  {
    NegativeOffset(c);
    NegativeDivisor(c);
    NegativeScaled();
    NegativeCorrected(c);
  }

  lemma NegativeOffset(c: Calibration)
    requires c.p4 == 0x2000 && c.p5 == c.p6 == 0
    ensures Offset(-128000, c) == Fits(281474976710656)
  {
  }

  lemma NegativeDivisor(c: Calibration)
    requires c.p1 == 0x4000 && c.p2 == c.p3 == 0
    ensures Divisor(-128000, c) == Fits(268435456)
  {
    assert Quot(0, 256) == 0 && Quot(140737488355328 * 0x4000, 8589934592) == 268435456;
  }

  lemma NegativeScaled()
    ensures Scaled(0xF_FFFF, 281474976710656, 268435456) == Fits(-3276775000)
  {
  }

  lemma NegativeCorrected(c: Calibration)
    requires c.p7 == c.p8 == c.p9 == 0
    ensures Corrected(-3276775000, c) == Fits(-4999961)
  {
    assert Quot(-3276775000, 256) == -12799902;
  }

  /** Readings and calibrations for which the 32-bit path is designed. */
  predicate InTemperatureRange(adc: u32, c: Calibration)
  {
    && adc < 0x10_0000 && Within(adc / 16 - c.t1, 0x8000) && Within(c.t2, 32767) && Within(c.t3, 8191)
  }

  /** The unsigned differences mean what they say. */
  lemma Differences(adc: u32, c: Calibration)
    requires Typed(c) && InTemperatureRange(adc, c)
    ensures AsI32(U32(adc / 8 - c.t1 * 2)) == adc / 8 - c.t1 * 2 && Within(adc / 8 - c.t1 * 2, 65537)
    ensures AsI32(U32(adc / 16 - c.t1)) == adc / 16 - c.t1
  {
  }

  lemma LinearFits(coarse: int, t2: int)
    requires Within(coarse, 65537) && Within(t2, 32767)
    ensures I32(coarse * t2).Fits? && Within(Quot(coarse * t2, 2048), 0x10_0000)
  {
    ProductWithin(coarse, t2, 65537, 32767);
    QuotWithin(coarse * t2, 2048, 65537 * 32767);
  }

  lemma CubicFits(delta: int, t3: int)
    requires Within(delta, 0x8000) && Within(t3, 8191)
    ensures I32(delta * delta).Fits? && I32(delta * delta / 4096 * t3).Fits?
    ensures Within(Quot(delta * delta / 4096 * t3, 16384), 0x10_0000)
  {
    ProductWithin(delta, delta, 0x8000, 0x8000);
    ProductWithin(delta * delta / 4096, t3, 0x4_0000, 8191);
    QuotWithin(delta * delta / 4096 * t3, 16384, 0x4_0000 * 8191);
  }

  lemma FineTemperatureFits(adc: u32, c: Calibration)
    requires Typed(c) && InTemperatureRange(adc, c)
    ensures FineTemperature(adc, c).Fits? && Within(FineTemperature(adc, c).value, 0x20_0000)
  {
    Differences(adc, c);
    LinearFits(adc / 8 - c.t1 * 2, c.t2);
    CubicFits(adc / 16 - c.t1, c.t3);
  }

  lemma TemperatureFits(tFine: int)
    requires Within(tFine, 0x20_0000)
    ensures var t := Temperature(tFine); t.Fits? && -4000 <= t.value <= 8500
  {
  }

  /** For every 20-bit reading and calibration in range, the 32-bit temperature arithmetic never
      overflows, the unsigned differences mean what they say, and the result is in range. */
  lemma TemperatureNeverOverflows(adc: u32, c: Calibration)
    requires Typed(c) && InTemperatureRange(adc, c)
    ensures var fine := FineTemperature(adc, c);
            && fine.Fits? && Within(fine.value, 0x20_0000)
            && var t := Temperature(fine.value);
               t.Fits? && -4000 <= t.value <= 8500
  {
    FineTemperatureFits(adc, c);
    TemperatureFits(FineTemperature(adc, c).value);
  }

  // ---- the driver -------------------------------------------------------------------------

  /** What a call asks for. */
  datatype Components = Components(press: bool, temp: bool, hum: bool)

  datatype Reading = Reading(temperature: Checked, pressure: Checked)

  /** The calibration structure, whose t_fine field links the two computations. */
  class Compensator {
    const calibration: Calibration
    var tFine: int

    constructor (calibration: Calibration)
      ensures this.calibration == calibration
    {
      this.calibration := calibration;
      tFine := 0;
    }

    /** compensate_temperature: on success the fine temperature is left for the pressure. */
    method CompensateTemperature(adc: u32) returns (t: Checked)
      requires Typed(calibration)
      modifies this`tFine
      ensures var fine := FineTemperature(adc, calibration);
              if fine.Fits? then tFine == fine.value && t == Temperature(tFine) else t == Overflow
    {
      var fine := Fine(adc);
      var sum :- fine;
      tFine := sum;
      t := Hundredths();
    }

    /** Its two variables and their sum. */
    method Fine(adc: u32) returns (sum: Checked)
      requires Typed(calibration)
      ensures sum == FineTemperature(adc, calibration)
    {
      var c := calibration;
      var var1 := AsI32(U32(adc / 8 - c.t1 * 2));
      var1 :- I32(var1 * c.t2);
      var1 := Quot(var1, 2048);
      var var2 := AsI32(U32(adc / 16 - c.t1));
      var2 :- I32(var2 * var2);
      var2 :- I32(Quot(var2, 4096) * c.t3);
      var2 := Quot(var2, 16384);
      sum := I32(var1 + var2);
    }

    /** The limited temperature. */
    method Hundredths() returns (t: Checked)
      ensures t == Temperature(tFine)
    {
      var temperature :- I32(tFine * 5);
      temperature :- I32(temperature + 128);
      temperature := Quot(temperature, 256);
      if temperature < -4000 {
        temperature := -4000;
      } else if temperature > 8500 {
        temperature := 8500;
      }
      t := Fits(temperature);
    }

    /** If anything is asked for, the temperature is compensated first, so the pressure of a sample is
        always computed with that sample's own fine temperature, never with an older one. After an
        overflow there, which never happens in range, nothing is promised. */
    method CompensateData(wanted: Components, temperature: u32, pressure: u32) returns (r: Reading)
      requires Typed(calibration)
      modifies this`tFine
      ensures wanted == Components(false, false, false) ==> r == Reading(Fits(0), Fits(0)) && tFine == old(tFine)
      ensures wanted != Components(false, false, false) ==>
                var fine := FineTemperature(temperature, calibration);
                if fine.Fits? && Temperature(fine.value).Fits? then
                  && tFine == fine.value && r.temperature == Temperature(tFine)
                  && r.pressure == if wanted.press then Pressure(tFine, pressure, calibration) else Fits(0)
                else r == Reading(Overflow, Overflow)
      ensures wanted != Components(false, false, false) && InTemperatureRange(temperature, calibration) ==>
                r.temperature.Fits? && Within(tFine, 0x20_0000)
    {
      if InTemperatureRange(temperature, calibration) {
        TemperatureNeverOverflows(temperature, calibration);
      }
      var t, p := Fits(0), Fits(0);
      if wanted.press || wanted.temp || wanted.hum {
        t := CompensateTemperature(temperature);
        if t == Overflow {
          return Reading(Overflow, Overflow);
        }
      }
      if wanted.press {
        p := CompensatePressure(pressure);
      }
      r := Reading(t, p);
    }

    /** The first part of compensate_pressure, one checked assignment after the other: the offset in var2
        and the divisor in var1. */
    method OffsetAndDivisor(v: int) returns (var2: Checked, var1: Checked)
      ensures var2 == Offset(v, calibration) && (var2.Fits? ==> var1 == Divisor(v, calibration))
    {
      var c := calibration;
      var2, var1 := Overflow, Overflow;
      var square :- I64(v * v);
      var product :- I64(square * c.p6);
      var term :- I64(v * c.p5);
      term :- I64(term * 131072);
      product :- I64(product + term);
      term :- I64(c.p4 * 34359738368);
      var2 := I64(product + term);
      var1 := DivisorOf(v, square);
    }

    method DivisorOf(v: int, square: int) returns (var1: Checked)
      requires I64(v * v) == Fits(square)
      ensures var1 == Divisor(v, calibration)
    {
      var c := calibration;
      var product :- I64(square * c.p3);
      var term :- I64(v * c.p2);
      term :- I64(term * 4096);
      product :- I64(Quot(product, 256) + term);
      product :- I64(140737488355328 + product);
      product :- I64(product * c.p1);
      var1 := Fits(Quot(product, 8589934592));
    }

    /** The correction of the raw pressure and its scaling. */
    method Correct(raw: int) returns (pressure: Checked)
      ensures pressure == Corrected(raw, calibration)
    {
      var c, var4 := calibration, raw;
      var var1 :- I64(c.p9 * Quot(var4, 8192));
      var1 :- I64(var1 * Quot(var4, 8192));
      var1 := Quot(var1, 33554432);
      var var2 :- I64(c.p8 * var4);
      var2 := Quot(var2, 524288);
      var4 :- I64(var4 + var1);
      var4 :- I64(var4 + var2);
      var4 :- I64(Quot(var4, 256) + c.p7 * 16);
      var4 :- I64(Quot(var4, 2) * 100);
      pressure := Fits(Quot(var4, 128));
    }

    /** compensate_pressure. */
    method CompensatePressure(adc: u32) returns (p: Checked)
      ensures p == Pressure(tFine, adc, calibration)
    {
      var v :- I64(tFine - 128000);
      var offset, divisor := OffsetAndDivisor(v);
      var var2 :- offset;
      var var1 :- divisor;
      var pressure: u32 := 3000000;
      if var1 != 0 {
        var var4 :- I64(U32(1048576 - adc) * 2147483648);
        var4 :- I64(var4 - var2);
        var4 :- I64(var4 * 3125);
        var corrected := Correct(Quot(var4, var1));
        var4 :- corrected;
        pressure := U32(var4);
        if pressure < 3000000 {
          pressure := 3000000;
        } else if pressure > 11000000 {
          pressure := 11000000;
        }
      }
      p := Fits(pressure);
    }
  }
}

/** The position and speed sentences of the NMEA parser (nmea_on_rx_frame in src/nmea.c): what they leave
    in the data structure that all sentences share. */
module NmeaData {
  import opened MachineInts
  import opened NmeaFields

  const UTC_TIME := Format(W32, W16, 3)
  const COORDINATE := Format(W16, W16, 4)
  const HDOP := Format(W8, W8, 1)
  const ALTITUDE := Format(W16, W8, 2)
  const HEADING := Format(W16, W8, 2)
  const SPEED := Format(W8, W8, 2)

  const SOUTH: u8 := 0x53
  const WEST: u8 := 0x57
  const ONE: u8 := 0x31

  /** Integer part and fraction of a number. */
  datatype Fixed = Fixed(whole: int, fraction: int)

  /** The start of the n-th field after the one at i. */
  function Nth(s: seq<u8>, i: nat, n: nat): (k: nat)
    requires Terminated(s, i)
    ensures Terminated(s, k)
    decreases n
  {
    if n == 0 then i else Nth(s, NextParam(s, i), n - 1)
  }

  lemma {:induction false} NthSum(s: seq<u8>, i: nat, m: nat, n: nat)
    requires Terminated(s, i)
    ensures Nth(s, i, m + n) == Nth(s, Nth(s, i, m), n)
    ensures Nth(s, i, 1) == NextParam(s, i)
    decreases m
  {
    if m != 0 { NthSum(s, NextParam(s, i), m - 1, n); }
    assert Nth(s, NextParam(s, i), 0) == NextParam(s, i);
  }

  /** The number of satellites. */
  function Count(s: seq<u8>, i: nat): u8
    requires Terminated(s, i)
  {
    U8(Dec(s[i..FieldEnd(s, i)]))
  }

  /** What an unsigned field leaves of a number. */
  function Unsigned(s: seq<u8>, i: nat, f: Format, before: Fixed): Fixed
    requires Terminated(s, i) && 0 <= before.fraction
  {
    var (whole, fraction) := FixedPoint(s, i, f, before.fraction);
    Fixed(whole, fraction)
  }

  /** A coordinate: a number, and a field for the direction. */
  function Coordinate(s: seq<u8>, i: nat, negative: u8): Fixed
    requires Terminated(s, i)
  {
    var j := FieldEnd(s, i);
    Fixed(SignedWord(Dec(s[i..j]), s[NextParam(s, i)] == negative), FractionPart(s, j, COORDINATE, 0))
  }

  /** The altitude, which has its sign in front. */
  function Altitude(s: seq<u8>, i: nat, before: Fixed): Fixed
    requires Terminated(s, i) && 0 <= before.fraction
  {
    var j := FieldEnd(s, i);
    Fixed(SignedWord(Dec(Minusless(s[i..j])), HasMinus(s[i..j])), FractionPart(s, j, ALTITUDE, before.fraction))
  }

  // ---- what the numbers mean --------------------------------------------------------------

  /** The value of a decimal field times 10 to the p, rounded down. */
  function Value(ints: seq<u8>, fracs: seq<u8>, p: nat): int { Shift(Dec(ints), p) + Decimals(fracs, p) }

  /** The number stored, times m. */
  function Number(x: Fixed, m: int): int { x.whole * m + if x.whole < 0 then -x.fraction else x.fraction }

  predicate IsUnsigned(f: Format) { f == UTC_TIME || f == HDOP || f == HEADING || f == SPEED }

  lemma Shifts(x: int)
    ensures Shift(x, 1) == 10 * x && Shift(x, 2) == 100 * x && Shift(x, 3) == 1000 * x && Shift(x, 4) == 10000 * x
  {
    assert Shift(x, 0) == x;
    assert Shift(x, 1) == 10 * Shift(x, 0);
    assert Shift(x, 2) == 10 * Shift(x, 1);
    assert Shift(x, 3) == 10 * Shift(x, 2);
    assert Shift(x, 4) == 10 * Shift(x, 3);
  }

  /** What is read of a decimal field: the decimals never wrap. */
  lemma DecimalParts(s: seq<u8>, i: nat, j: nat, e: nat, f: Format, before: nat)
    requires Terminated(s, i) && DecimalAt(s, i, j, e) && Pow10(f.precision) <= Modulus(f.fraction)
    ensures FieldEnd(s, i) == j && Terminated(s, j) && Dec(s[i..j]) >= 0
    ensures FractionPart(s, j, f, before) == if j < e then Decimals(Fraction(s, j, e), f.precision) else before
    ensures 0 <= Decimals(Fraction(s, j, e), f.precision) < Pow10(f.precision)
    ensures j == e ==> Decimals(Fraction(s, j, e), f.precision) == 0
  {
    FieldParts(s, i, j, e, f, before);
    DigitSlice(s, i, j);
    DigitsBound(s[i..j]);
    if j < e {
      DigitSlice(s, j + 1, e);
    }
    DecimalsBound(Fraction(s, j, e), f.precision);
    if j == e {
      NoDecimals(f.precision);
    }
  }

  lemma {:induction false} NoDecimals(p: nat)
    ensures Decimals([], p) == 0
  {
    var none: seq<u8> := [];
    assert none[..0] == none && Dec(none) == 0;
    ZeroShifted(p);
  }

  lemma {:induction false} ZeroShifted(p: nat)
    ensures Shift(0, p) == 0
  {
    if p != 0 { ZeroShifted(p - 1); }
  }

  /** An unsigned field is stored as its value, rounded down, exactly if its integer part fits the word and
      it has a point or the fraction left by an earlier sentence is 0. */
  lemma UnsignedRight(s: seq<u8>, i: nat, j: nat, e: nat, f: Format, before: Fixed)
    requires Terminated(s, i) && DecimalAt(s, i, j, e) && IsUnsigned(f)
    requires 0 <= before.fraction < Modulus(f.fraction)
    ensures Number(Unsigned(s, i, f, before), Pow10(f.precision)) == Value(s[i..j], Fraction(s, j, e), f.precision) <==>
            Dec(s[i..j]) < Modulus(f.whole) && (j < e || before.fraction == 0)
  {
    Shifts(1);
    Shifts(Dec(s[i..j]));
    DecimalParts(s, i, j, e, f, before.fraction);
    var decimals := Decimals(Fraction(s, j, e), f.precision);
    StoredRight(Dec(s[i..j]), f, decimals, if j < e then decimals else before.fraction);
    if j == e {
      assert decimals == 0;
    }
  }

  lemma StoredRight(d: nat, f: Format, decimals: nat, fraction: nat)
    requires IsUnsigned(f) && decimals < Pow10(f.precision) && (fraction == decimals || decimals == 0)
    requires fraction < Modulus(f.fraction)
    ensures Number(Fixed(Wrap(f.whole, d), fraction), Pow10(f.precision)) == Shift(d, f.precision) + decimals <==>
            d < Modulus(f.whole) && fraction == decimals
  {
    Shifts(1);
    Shifts(d);
    Unwrapped(d, f.whole);
  }

  lemma Unwrapped(d: nat, w: Width)
    ensures 0 <= Wrap(w, d) <= d && (Wrap(w, d) == d <==> d < Modulus(w))
    ensures d >= Modulus(w) ==> d - Wrap(w, d) >= Modulus(w)
  {
  }

  /** The magnitude fits a signed word. */
  predicate InWord(d: int, negative: bool) { d < 0x8000 || (negative && d == 0x8000) }

  /** The sign is kept in the integer part, so zero has none. */
  predicate SignLost(d: int, negative: bool, decimals: int) { negative && d == 0 && decimals != 0 }

  lemma SignedRight(d: nat, negative: bool, decimals: nat, fraction: nat, m: nat)
    requires (m == 100 && fraction < 0x100) || (m == 10000 && fraction < 10000)
    requires decimals < m
    ensures Number(Fixed(SignedWord(d, negative), fraction), m) ==
            (if negative then -(d * m + decimals) else d * m + decimals) <==>
            InWord(d, negative) && fraction == decimals && !SignLost(d, negative, decimals)
  {
    if d < 0x8000 {
    } else if d < 0x1_0000 {
      assert S16(d) == d - 0x1_0000;
    } else {
      var w := SignedWord(d, negative);
      assert -0x8000 <= w <= 0x7FFF;
    }
  }

  /** A coordinate, with a point or without, is stored as its value exactly if its integer part fits the
      signed word and is not 0 with a negative direction and decimals. */
  lemma CoordinateRight(s: seq<u8>, i: nat, j: nat, e: nat, direction: u8)
    requires Terminated(s, i) && DecimalAt(s, i, j, e)
    ensures var v, negative := Value(s[i..j], Fraction(s, j, e), 4), s[NextParam(s, i)] == direction;
            Number(Coordinate(s, i, direction), 10000) == (if negative then -v else v) <==>
            InWord(Dec(s[i..j]), negative) && !SignLost(Dec(s[i..j]), negative, Decimals(Fraction(s, j, e), 4))
  {
    Shifts(1);
    Shifts(Dec(s[i..j]));
    DecimalParts(s, i, j, e, COORDINATE, 0);
    var decimals := Decimals(Fraction(s, j, e), 4);
    SignedRight(Dec(s[i..j]), s[NextParam(s, i)] == direction, decimals, decimals, 10000);
  }

  lemma {:induction false} OneDigit(c: u8)
    requires Digit(c)
    ensures Dec([c]) == c - ZERO
  {
    assert [c][..0] == [];
  }

  /** Half a minute south of the equator is stored like half a minute north of it. */
  lemma SouthLost()
    ensures var s := [ZERO, POINT, ZERO + 5, COMMA, SOUTH, 0];
            DecimalAt(s, 0, 1, 3) && s[NextParam(s, 0)] == SOUTH && Coordinate(s, 0, SOUTH) == Fixed(0, 5000)
  {
    var s: seq<u8> := [ZERO, POINT, ZERO + 5, COMMA, SOUTH, 0];
    OneDigit(ZERO);
    OneDigit(ZERO + 5);
    assert s[0..1] == [ZERO] && s[2..3] == [ZERO + 5];
    assert FieldEnd(s, 0) == 1 && FractionScan(s, 2, 4) == (3, 3);
    assert NextParam(s, 3) == 4 && NextParam(s, 2) == 4 && NextParam(s, 1) == 4 && NextParam(s, 0) == 4;
    Shifts(5);
  }

  /** A number with or without a minus sign in front. */
  predicate SignedAt(s: seq<u8>, i: nat, j: nat, e: nat, negative: bool)
  {
    if negative then i < |s| && s[i] == MINUS && DecimalAt(s, i + 1, j, e) else DecimalAt(s, i, j, e)
  }

  function Magnitude(s: seq<u8>, i: nat, j: nat, negative: bool): int
    requires i < j <= |s| || (!negative && i <= j <= |s|)
  {
    Dec(if negative then s[i + 1..j] else s[i..j])
  }

  lemma {:induction false} SignInFront(t: seq<u8>)
    requires Digits(t)
    ensures Minusless([MINUS] + t) == t && HasMinus([MINUS] + t)
    decreases |t|
  {
    if t == [] {
      assert [MINUS] + t == [] + [MINUS];
      MinuslessSnoc([], MINUS);
    } else {
      var u, c := t[..|t| - 1], t[|t| - 1];
      SignInFront(u);
      MinuslessSnoc([MINUS] + u, c);
      assert [MINUS] + t == ([MINUS] + u) + [c] && t == u + [c];
    }
  }

  /** The same for the altitude, which also needs a point or the fraction 0 before. */
  lemma AltitudeRight(s: seq<u8>, i: nat, j: nat, e: nat, negative: bool, before: Fixed)
    requires Terminated(s, i) && SignedAt(s, i, j, e, negative) && 0 <= before.fraction < 0x100
    ensures var d, decimals := Magnitude(s, i, j, negative), Decimals(Fraction(s, j, e), 2);
            Number(Altitude(s, i, before), 100) == (if negative then -(100 * d + decimals) else 100 * d + decimals) <==>
            InWord(d, negative) && (j < e || before.fraction == 0) && !SignLost(d, negative, decimals)
  {
    Shifts(1);
    AltitudeParts(s, i, j, e, negative, before.fraction);
    var decimals := Decimals(Fraction(s, j, e), 2);
    SignedRight(Magnitude(s, i, j, negative), negative, decimals, if j < e then decimals else before.fraction, 100);
  }

  lemma AltitudeParts(s: seq<u8>, i: nat, j: nat, e: nat, negative: bool, before: nat)
    requires Terminated(s, i) && SignedAt(s, i, j, e, negative)
    ensures FieldEnd(s, i) == j && Terminated(s, j)
    ensures Dec(Minusless(s[i..j])) == Magnitude(s, i, j, negative) >= 0 && HasMinus(s[i..j]) == negative
    ensures FractionPart(s, j, ALTITUDE, before) == if j < e then Decimals(Fraction(s, j, e), 2) else before
    ensures 0 <= Decimals(Fraction(s, j, e), 2) < Pow10(2) && (j == e ==> Decimals(Fraction(s, j, e), 2) == 0)
  {
    if negative {
      DecimalParts(s, i + 1, j, e, ALTITUDE, before);
      DigitSlice(s, i + 1, j);
      SignInFront(s[i + 1..j]);
      assert s[i..j] == [MINUS] + s[i + 1..j];
      assert FieldEnd(s, i) == FieldEnd(s, i + 1);
    } else {
      DecimalParts(s, i, j, e, ALTITUDE, before);
      DigitSlice(s, i, j);
      MinuslessDigits(s[i..j]);
    }
  }

  lemma DigitSlice(s: seq<u8>, i: nat, j: nat)
    requires DigitsIn(s, i, j)
    ensures Digits(s[i..j])
  {
    forall k | 0 <= k < j - i ensures Digit(s[i..j][k]) {
      assert s[i..j][k] == s[i + k];
    }
  }

  // ---- the data ---------------------------------------------------------------------------

  lemma WordOnly(x: int, negative: bool)
    ensures S16(Wrap(W16, x)) == S16(x)
    ensures SignedWord(x, negative) == if negative then S16(-S16(x)) else S16(x)
  {
    SameWord(x, -(x / 0x1_0000));
  }

  /** The data structure nmea_data. */
  datatype Data = Data(utcTime: Fixed, latitude: Fixed, longitude: Fixed, altitude: Fixed, heading: Fixed,
                       speed: Fixed, hdop: Fixed, satellites: u8)

  /** The fractions fit their words. */
  predicate Typed(d: Data)
  {
    && 0 <= d.utcTime.fraction < 0x1_0000 && 0 <= d.hdop.fraction < 0x100 && 0 <= d.altitude.fraction < 0x100
    && 0 <= d.heading.fraction < 0x100 && 0 <= d.speed.fraction < 0x100
  }

  /** What a position sentence with its first field at i leaves in the data. */
  function AfterGga(s: seq<u8>, i: nat, d: Data): Data
    requires Terminated(s, i) && Typed(d)
  {
    d.(utcTime := Unsigned(s, i, UTC_TIME, d.utcTime),
       latitude := Coordinate(s, Nth(s, i, 1), SOUTH),
       longitude := Coordinate(s, Nth(s, i, 3), WEST),
       satellites := Count(s, Nth(s, i, 6)),
       hdop := Unsigned(s, Nth(s, i, 7), HDOP, d.hdop),
       altitude := Altitude(s, Nth(s, i, 8), d.altitude))
  }

  /** What a speed sentence leaves there. */
  function AfterVtg(s: seq<u8>, i: nat, d: Data): Data
    requires Terminated(s, i) && Typed(d)
  {
    d.(heading := Unsigned(s, i, HEADING, d.heading), speed := Unsigned(s, Nth(s, i, 6), SPEED, d.speed))
  }

  class Gps {
    var data: Data
    var ggaValid: bool
    var vtgValid: bool

    /** How often the application has been told that there is new data. */
    var reports: nat

    /** As the data is when the program starts. */
    constructor ()
      ensures Typed(data) && !ggaValid && !vtgValid && data.speed == Fixed(0, 0)
    {
      var zero := Fixed(0, 0);
      data := Data(zero, zero, zero, zero, zero, zero, zero, 0);
      ggaValid, vtgValid, reports := false, false, 0;
    }

    /** A coordinate and its direction. */
    static method ParseCoordinate(s: seq<u8>, start: nat, direction: u8) returns (x: Fixed, next: nat)
      requires Terminated(s, start)
      ensures x == Coordinate(s, start, direction) && next == Nth(s, start, 2)
    {
      var word, i := ParseUnsigned(s, start, W16);
      WordOnly(Dec(s[start..i]), s[NextParam(s, start)] == direction);
      WholeSkipped(s, start);
      var whole, fraction := S16(word), 0;
      fraction, next := ParseRest(s, i, COORDINATE, fraction);
      if s[next] == direction {
        whole := S16(-whole);
      }
      x := Fixed(whole, fraction);
      next := FindNextParam(s, next);
    }

    static method ParseNumber(s: seq<u8>, start: nat, f: Format, before: Fixed) returns (x: Fixed, next: nat)
      requires Terminated(s, start) && 0 <= before.fraction < Modulus(f.fraction)
      ensures x == Unsigned(s, start, f, before) && 0 <= x.fraction < Modulus(f.fraction)
      ensures next == NextParam(s, start)
    {
      var whole, fraction;
      whole, fraction, next := ParseFixedPoint(s, start, f, before.fraction);
      x := Fixed(whole, fraction);
    }

    /** The application is told of new data, and the flags are taken back. */
    method Report()
      modifies this`ggaValid, this`vtgValid, this`reports
      ensures !ggaValid && !vtgValid
      ensures reports == old(reports) + if old(ggaValid) || old(vtgValid) then 1 else 0
    {
      if ggaValid || vtgValid {
        reports := reports + 1;
        ggaValid := false;
        vtgValid := false;
      }
    }

    /** A position sentence, from its first field on. The application is told of it whatever its field for
        a valid fix says. */
    method OnGga(s: seq<u8>, start: nat)
      requires Typed(data) && Terminated(s, start)
      modifies this
      ensures Typed(data) && data == AfterGga(s, start, old(data))
      ensures reports == old(reports) + 1 && !ggaValid && !vtgValid
    {
      ggaValid := false;
      data, ggaValid := ParseGga(s, start, data);
      ggaValid := true;
      Report();
    }

    /** The fields of a position sentence, and whether it says that the fix is valid. */
    static method ParseGga(s: seq<u8>, start: nat, data: Data) returns (d: Data, valid: bool)
      requires Terminated(s, start) && Typed(data)
      ensures Typed(d) && d == AfterGga(s, start, data)
      ensures valid <==> s[Nth(s, start, 5)] == ONE
    {
      d := data;
      var utcTime, latitude, longitude, buffer := ParsePosition(s, start, d.utcTime);
      NthSum(s, start, 5, 1);
      NthSum(s, start, 5, 2);
      NthSum(s, start, 5, 3);
      valid := s[buffer] == ONE;
      var satellites, hdop, altitude := ParseQuality(s, buffer, d.hdop, d.altitude);
      d := d.(utcTime := utcTime, latitude := latitude, longitude := longitude, satellites := satellites, hdop := hdop,
              altitude := altitude);
    }

    /** The fields for time and position. */
    static method ParsePosition(s: seq<u8>, start: nat, before: Fixed)
      returns (utc: Fixed, latitude: Fixed, longitude: Fixed, next: nat)
      requires Terminated(s, start) && 0 <= before.fraction < 0x1_0000
      ensures utc == Unsigned(s, start, UTC_TIME, before) && 0 <= utc.fraction < 0x1_0000
      ensures latitude == Coordinate(s, Nth(s, start, 1), SOUTH)
      ensures longitude == Coordinate(s, Nth(s, start, 3), WEST)
      ensures next == Nth(s, start, 5)
    {
      NthSum(s, start, 1, 2);
      NthSum(s, start, 3, 2);
      utc, next := ParseNumber(s, start, UTC_TIME, before);
      latitude, next := ParseCoordinate(s, next, SOUTH);
      longitude, next := ParseCoordinate(s, next, WEST);
    }

    /** The fields behind the one that says whether the fix is valid. */
    static method ParseQuality(s: seq<u8>, start: nat, hdop: Fixed, altitude: Fixed)
      returns (satellites: u8, hdop': Fixed, altitude': Fixed)
      requires Terminated(s, start) && 0 <= hdop.fraction < 0x100 && 0 <= altitude.fraction < 0x100
      ensures satellites == Count(s, Nth(s, start, 1))
      ensures hdop' == Unsigned(s, Nth(s, start, 2), HDOP, hdop) && 0 <= hdop'.fraction < 0x100
      ensures altitude' == Altitude(s, Nth(s, start, 3), altitude) && 0 <= altitude'.fraction < 0x100
    {
      NthSum(s, start, 1, 1);
      NthSum(s, start, 2, 1);
      var buffer := FindNextParam(s, start);
      WholeSkipped(s, buffer);
      satellites, buffer := ParseUnsigned(s, buffer, W8);
      buffer := FindNextParam(s, buffer);
      hdop', buffer := ParseNumber(s, buffer, HDOP, hdop);
      altitude' := ParseAltitude(s, buffer, altitude);
    }

    static method ParseAltitude(s: seq<u8>, start: nat, before: Fixed) returns (x: Fixed)
      requires Terminated(s, start) && 0 <= before.fraction < 0x100
      ensures x == Altitude(s, start, before) && 0 <= x.fraction < 0x100
    {
      var whole, i := ParseSigned(s, start);
      var fraction, _ := ParseRest(s, i, ALTITUDE, before.fraction);
      x := Fixed(whole, fraction);
    }

    /** The fields of a speed sentence. */
    static method ParseVtg(s: seq<u8>, start: nat, data: Data) returns (d: Data)
      requires Terminated(s, start) && Typed(data)
      ensures Typed(d) && d == AfterVtg(s, start, data)
    {
      NthSum(s, start, 1, 5);
      var heading, buffer := ParseNumber(s, start, HEADING, data.heading);
      buffer := FindNextParam(s, buffer);
      buffer := FindNextParam(s, buffer);
      buffer := FindNextParam(s, buffer);
      buffer := FindNextParam(s, buffer);
      buffer := FindNextParam(s, buffer);
      var speed, _ := ParseNumber(s, buffer, SPEED, data.speed);
      d := data.(heading := heading, speed := speed);
    }

    /** A speed sentence, from its first field on. */
    method OnVtg(s: seq<u8>, start: nat)
      requires Typed(data) && Terminated(s, start)
      modifies this
      ensures Typed(data) && data == AfterVtg(s, start, old(data))
      ensures reports == old(reports) + 1 && !ggaValid && !vtgValid
    {
      data := ParseVtg(s, start, data);
      vtgValid := true;
      Report();
    }
  }

  lemma {:induction false} Commas(s: seq<u8>, i: nat, n: nat)
    requires i + n < |s| && Terminated(s, i) && forall k :: i <= k < i + n ==> s[k] == COMMA
    ensures Nth(s, i, n) == i + n
    decreases n
  {
    if n != 0 { Commas(s, i + 1, n - 1); }
  }

  /** After a speed of 1.5 the sentence with the speed 1 is taken for 1.5 again. */
  method KeptFraction() returns (gps: Gps)
    ensures fresh(gps) && gps.data.speed == Fixed(1, 50)
  {
    gps := new Gps();
    var first: seq<u8> := [COMMA, COMMA, COMMA, COMMA, COMMA, COMMA, ONE, POINT, ZERO + 5, 0];
    var second: seq<u8> := [COMMA, COMMA, COMMA, COMMA, COMMA, COMMA, ONE, 0];
    Commas(first, 0, 6);
    Commas(second, 0, 6);
    Speeds(first, second);
    gps.OnVtg(first, 0);
    gps.OnVtg(second, 0);
  }

  lemma Speeds(first: seq<u8>, second: seq<u8>)
    requires |first| == 10 && first[6..] == [ONE, POINT, ZERO + 5, 0]
    requires |second| == 8 && second[6..] == [ONE, 0]
    ensures forall x: Fixed :: 0 <= x.fraction ==>
              && Unsigned(first, 6, SPEED, x) == Fixed(1, 50)
              && Unsigned(second, 6, SPEED, x) == Fixed(1, x.fraction)
  {
    assert first[6] == first[6..][0] && first[7] == first[6..][1];
    assert first[8] == first[6..][2] && first[9] == first[6..][3];
    assert second[6] == second[6..][0] && second[7] == second[6..][1];
    assert first[6..7] == [ONE] && second[6..7] == [ONE] && first[8..9] == [ZERO + 5];
    OneDigit(ONE);
    OneDigit(ZERO + 5);
    assert FieldEnd(first, 6) == 7 && FieldEnd(second, 6) == 7 && FractionScan(first, 8, 2) == (9, 1);
    Shifts(5);
  }
}

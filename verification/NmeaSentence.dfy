/** Whole position and speed sentences of NMEA 0183, as rows of fields: each member of the data gets the
    value of the field in its own place of the row. */
module NmeaSentence {
  import opened MachineInts
  import opened NmeaFields
  import opened NmeaData

  // ---- fields as texts --------------------------------------------------------------------

  /** What stands before the first point of a text, and behind it. */
  function Ints(t: seq<u8>): seq<u8>
  {
    if t == [] || t[0] == POINT then [] else [t[0]] + Ints(t[1..])
  }

  function Fracs(t: seq<u8>): seq<u8>
  {
    if t == [] then [] else if t[0] == POINT then t[1..] else Fracs(t[1..])
  }

  predicate HasPoint(t: seq<u8>) { |Ints(t)| < |t| }

  predicate IsDecimal(t: seq<u8>) { Digits(Ints(t)) && Digits(Fracs(t)) }

  /** The number that a text spells, times 10 to the p, rounded down. */
  function Amount(t: seq<u8>, p: nat): int { Value(Ints(t), Fracs(t), p) }

  predicate Negative(t: seq<u8>) { t != [] && t[0] == MINUS }

  /** A text without the minus sign in front. */
  function Bare(t: seq<u8>): seq<u8> { if Negative(t) then t[1..] else t }

  predicate StartsWith(t: seq<u8>, c: u8) { t != [] && t[0] == c }

  predicate Plain(t: seq<u8>) { forall k :: 0 <= k < |t| ==> t[k] != COMMA && t[k] != 0 }

  /** Fields joined by commas. */
  function Row(fields: seq<seq<u8>>): seq<u8>
  {
    if fields == [] then []
    else if |fields| == 1 then fields[0]
    else fields[0] + [COMMA] + Row(fields[1..])
  }

  /** From i on a string consists of fields joined by commas, up to its end. */
  predicate RowAt(s: seq<u8>, i: nat, fields: seq<seq<u8>>)
  {
    fields != [] && (forall k :: 0 <= k < |fields| ==> Plain(fields[k])) && i <= |s| && s[i..] == Row(fields) + [0]
  }

  /** A field stands at i. */
  predicate FieldAt(s: seq<u8>, i: nat, t: seq<u8>)
  {
    i + |t| < |s| && s[i..i + |t|] == t && Ends(s[i + |t|])
  }

  // ---- places -----------------------------------------------------------------------------

  lemma {:induction false} TextParts(t: seq<u8>)
    ensures |Ints(t)| <= |t| && t[..|Ints(t)|] == Ints(t)
    ensures HasPoint(t) ==> t[|Ints(t)|] == POINT && t[|Ints(t)| + 1..] == Fracs(t)
    ensures !HasPoint(t) ==> Fracs(t) == []
  {
    if t != [] && t[0] != POINT {
      TextParts(t[1..]);
      assert t[..|Ints(t)|] == [t[0]] + t[1..][..|Ints(t[1..])|];
      if HasPoint(t) {
        assert t[|Ints(t)| + 1..] == t[1..][|Ints(t[1..])| + 1..];
      }
    }
  }

  lemma {:induction false} FirstField(s: seq<u8>, i: nat, fields: seq<seq<u8>>)
    requires RowAt(s, i, fields)
    ensures Terminated(s, i) && FieldAt(s, i, fields[0])
    ensures |fields| > 1 ==> s[i + |fields[0]|] == COMMA && RowAt(s, i + |fields[0]| + 1, fields[1..])
  {
    var t, r := fields[0], Row(fields) + [0];
    assert s[|s| - 1] == s[i..][|s| - 1 - i];
    assert r[..|t|] == t;
    assert s[i..i + |t|] == s[i..][..|t|];
    assert s[i + |t|] == s[i..][|t|];
    if |fields| > 1 {
      assert r == t + ([COMMA] + (Row(fields[1..]) + [0]));
      assert s[i + |t| + 1..] == s[i..][|t| + 1..] == Row(fields[1..]) + [0];
    }
  }

  lemma {:induction false} Skipped(s: seq<u8>, i: nat, e: nat)
    requires i <= e && Terminated(s, i) && e < |s| && s[e] == COMMA && Plain(s[i..e])
    ensures NextParam(s, i) == e + 1
    decreases e - i
  {
    if i < e {
      assert s[i] == s[i..e][0] && s[i + 1..e] == s[i..e][1..];
      Skipped(s, i + 1, e);
    }
  }

  /** The n-th field of the row stands where the parser looks for it. */
  lemma {:induction false} NthField(s: seq<u8>, i: nat, fields: seq<seq<u8>>, n: nat)
    requires RowAt(s, i, fields) && n < |fields|
    ensures Terminated(s, i) && RowAt(s, Nth(s, i, n), fields[n..]) && FieldAt(s, Nth(s, i, n), fields[n])
    decreases n
  {
    if n != 0 {
      NextField(s, i, fields);
      NthField(s, NextParam(s, i), fields[1..], n - 1);
      Dropped(fields, n);
    } else {
      FirstField(s, i, fields);
      assert fields[0..] == fields;
    }
  }

  lemma {:induction false} NextField(s: seq<u8>, i: nat, fields: seq<seq<u8>>)
    requires RowAt(s, i, fields) && |fields| > 1
    ensures Terminated(s, i) && RowAt(s, NextParam(s, i), fields[1..])
  {
    FirstField(s, i, fields);
    Skipped(s, i, i + |fields[0]|);
  }

  lemma Dropped(fields: seq<seq<u8>>, n: nat)
    requires 0 < n < |fields|
    ensures fields[1..][n - 1..] == fields[n..] && fields[1..][n - 1] == fields[n]
  {
  }

  /** The field behind it stands behind its comma. */
  lemma {:induction false} NextStarts(s: seq<u8>, i: nat, fields: seq<seq<u8>>, n: nat, c: u8)
    requires RowAt(s, i, fields) && n + 1 < |fields| && !Ends(c)
    ensures Terminated(s, i) && (s[NextParam(s, Nth(s, i, n))] == c <==> StartsWith(fields[n + 1], c))
  {
    NthField(s, i, fields, n);
    NthField(s, i, fields, n + 1);
    NthSum(s, i, n, 1);
    var a, t := Nth(s, i, n + 1), fields[n + 1];
    NthSum(s, Nth(s, i, n), 0, 1);
    assert a == NextParam(s, Nth(s, i, n));
    if t != [] {
      assert s[a] == s[a..a + |t|][0];
    }
  }

  /** Place and value of a decimal field, told by its text. */
  lemma {:induction false} DecimalPlace(s: seq<u8>, i: nat, t: seq<u8>, p: nat) returns (j: nat, e: nat)
    requires FieldAt(s, i, t) && IsDecimal(t)
    ensures DecimalAt(s, i, j, e) && (j < e <==> HasPoint(t)) && e == i + |t| && j == i + |Ints(t)|
    ensures Value(s[i..j], Fraction(s, j, e), p) == Amount(t, p) && Dec(s[i..j]) == Dec(Ints(t))
    ensures Decimals(Fraction(s, j, e), p) == Decimals(Fracs(t), p)
  {
    DecimalField(s, i, t);
    j, e := i + |Ints(t)|, i + |t|;
  }

  /** A decimal field of the row is a decimal at its place. */
  lemma {:induction false} DecimalField(s: seq<u8>, i: nat, t: seq<u8>)
    requires FieldAt(s, i, t) && IsDecimal(t)
    ensures var j, e := i + |Ints(t)|, i + |t|;
            && DecimalAt(s, i, j, e) && s[i..j] == Ints(t) && Fraction(s, j, e) == Fracs(t)
            && (j < e <==> HasPoint(t))
  {
    TextParts(t);
    var j, e := i + |Ints(t)|, i + |t|;
    assert s[i..j] == s[i..e][..|Ints(t)|];
    forall k | i <= k < j ensures Digit(s[k]) {
      assert s[k] == Ints(t)[k - i];
    }
    if HasPoint(t) {
      assert s[j] == s[i..e][|Ints(t)|];
      assert s[j + 1..e] == s[i..e][|Ints(t)| + 1..];
      forall k | j + 1 <= k < e ensures Digit(s[k]) {
        assert s[k] == Fracs(t)[k - j - 1];
      }
    }
  }

  // ---- what each member gets --------------------------------------------------------------

  lemma UnsignedField(s: seq<u8>, i: nat, t: seq<u8>, f: Format, before: Fixed)
    requires Terminated(s, i) && FieldAt(s, i, t) && IsDecimal(t) && IsUnsigned(f)
    requires 0 <= before.fraction < Modulus(f.fraction)
    ensures Number(Unsigned(s, i, f, before), Pow10(f.precision)) == Amount(t, f.precision) <==>
            Dec(Ints(t)) < Modulus(f.whole) && (HasPoint(t) || before.fraction == 0)
  {
    var j, e := DecimalPlace(s, i, t, f.precision);
    UnsignedRight(s, i, j, e, f, before);
  }

  lemma CoordinateField(s: seq<u8>, i: nat, t: seq<u8>, c: u8)
    requires Terminated(s, i) && FieldAt(s, i, t) && IsDecimal(t)
    ensures var v, negative := Amount(t, 4), s[NextParam(s, i)] == c;
            Number(Coordinate(s, i, c), 10000) == (if negative then -v else v) <==>
            InWord(Dec(Ints(t)), negative) && !SignLost(Dec(Ints(t)), negative, Decimals(Fracs(t), 4))
  {
    var j, e := DecimalPlace(s, i, t, 4);
    CoordinateRight(s, i, j, e, c);
  }

  lemma {:induction false} AltitudeField(s: seq<u8>, i: nat, t: seq<u8>, before: Fixed)
    requires Terminated(s, i) && FieldAt(s, i, t) && IsDecimal(Bare(t)) && 0 <= before.fraction < 0x100
    ensures var m, negative := Bare(t), Negative(t);
            Number(Altitude(s, i, before), 100) == (if negative then -Amount(m, 2) else Amount(m, 2)) <==>
            InWord(Dec(Ints(m)), negative) && (HasPoint(m) || before.fraction == 0) &&
            !SignLost(Dec(Ints(m)), negative, Decimals(Fracs(m), 2))
  {
    var m, k := Bare(t), if Negative(t) then i + 1 else i;
    if Negative(t) {
      assert s[i] == s[i..i + |t|][0];
      assert s[i + 1..i + |t|] == s[i..i + |t|][1..];
    }
    var j, e := DecimalPlace(s, k, m, 2);
    Hundredths(Ints(m), Fracs(m));
    AltitudeRight(s, i, j, e, Negative(t), before);
  }

  lemma Hundredths(ints: seq<u8>, fracs: seq<u8>)
    ensures Value(ints, fracs, 2) == 100 * Dec(ints) + Decimals(fracs, 2)
  {
    Shifts(Dec(ints));
  }

  lemma {:induction false} CountField(s: seq<u8>, i: nat, t: seq<u8>)
    requires Terminated(s, i) && FieldAt(s, i, t) && IsDecimal(t)
    ensures Count(s, i) == Dec(Ints(t)) % 0x100
  {
    DecimalField(s, i, t);
    IntegerPartEnds(s, i, i + |Ints(t)|);
  }

  // ---- whole sentences --------------------------------------------------------------------

  /** A position sentence whose fields for numbers are decimal: time, latitude with its direction, longitude
      with its direction, the number of satellites, precision and altitude come from the first, second to
      fifth, seventh, eighth and ninth field, and each is right exactly if it fits, has a point or follows a
      number without a fraction where the fraction is not cleared, and does not lose its sign. */
  method ReadPosition(gps: Gps, s: seq<u8>, start: nat, fields: seq<seq<u8>>)
    requires Typed(gps.data) && RowAt(s, start, fields) && |fields| >= 9
    requires IsDecimal(fields[0]) && IsDecimal(fields[1]) && IsDecimal(fields[3]) && IsDecimal(fields[6])
    requires IsDecimal(fields[7]) && IsDecimal(Bare(fields[8]))
    modifies gps
    ensures Number(gps.data.utcTime, 1000) == Amount(fields[0], 3) <==>
            Dec(Ints(fields[0])) < 0x1_0000_0000 && (HasPoint(fields[0]) || old(gps.data).utcTime.fraction == 0)
    ensures var v, south := Amount(fields[1], 4), StartsWith(fields[2], 0x53);
            Number(gps.data.latitude, 10000) == (if south then -v else v) <==>
            InWord(Dec(Ints(fields[1])), south) && !SignLost(Dec(Ints(fields[1])), south, Decimals(Fracs(fields[1]), 4))
    ensures var v, west := Amount(fields[3], 4), StartsWith(fields[4], 0x57);
            Number(gps.data.longitude, 10000) == (if west then -v else v) <==>
            InWord(Dec(Ints(fields[3])), west) && !SignLost(Dec(Ints(fields[3])), west, Decimals(Fracs(fields[3]), 4))
    ensures gps.data.satellites == Dec(Ints(fields[6])) % 0x100
    ensures Number(gps.data.hdop, 10) == Amount(fields[7], 1) <==>
            Dec(Ints(fields[7])) < 0x100 && (HasPoint(fields[7]) || old(gps.data).hdop.fraction == 0)
    ensures var m, negative := Bare(fields[8]), Negative(fields[8]);
            Number(gps.data.altitude, 100) == (if negative then -Amount(m, 2) else Amount(m, 2)) <==>
            InWord(Dec(Ints(m)), negative) && (HasPoint(m) || old(gps.data).altitude.fraction == 0) &&
            !SignLost(Dec(Ints(m)), negative, Decimals(Fracs(m), 2))
    ensures gps.data.heading == old(gps.data).heading && gps.data.speed == old(gps.data).speed
  {
    TimeRead(s, start, fields, gps.data.utcTime);
    CoordinateRead(s, start, fields, 1, SOUTH);
    CoordinateRead(s, start, fields, 3, WEST);
    CountRead(s, start, fields, 6);
    PrecisionRead(s, start, fields, 7, gps.data.hdop);
    AltitudeRead(s, start, fields, 8, gps.data.altitude);
    gps.OnGga(s, start);
  }

  lemma {:induction false} TimeRead(s: seq<u8>, i: nat, fields: seq<seq<u8>>, before: Fixed)
    requires RowAt(s, i, fields) && IsDecimal(fields[0]) && 0 <= before.fraction < 0x1_0000
    ensures Terminated(s, i)
    ensures Number(Unsigned(s, i, UTC_TIME, before), 1000) == Amount(fields[0], 3) <==>
            Dec(Ints(fields[0])) < 0x1_0000_0000 && (HasPoint(fields[0]) || before.fraction == 0)
  {
    NthField(s, i, fields, 0);
    Shifts(1);
    UnsignedField(s, i, fields[0], UTC_TIME, before);
  }

  lemma {:induction false} CoordinateRead(s: seq<u8>, i: nat, fields: seq<seq<u8>>, n: nat, c: u8)
    requires RowAt(s, i, fields) && n + 1 < |fields| && IsDecimal(fields[n]) && !Ends(c)
    ensures Terminated(s, i)
    ensures var t, negative := fields[n], StartsWith(fields[n + 1], c);
            Number(Coordinate(s, Nth(s, i, n), c), 10000) == (if negative then -Amount(t, 4) else Amount(t, 4)) <==>
            InWord(Dec(Ints(t)), negative) && !SignLost(Dec(Ints(t)), negative, Decimals(Fracs(t), 4))
  {
    NthField(s, i, fields, n);
    NextStarts(s, i, fields, n, c);
    CoordinateField(s, Nth(s, i, n), fields[n], c);
  }

  lemma {:induction false} PrecisionRead(s: seq<u8>, i: nat, fields: seq<seq<u8>>, n: nat, before: Fixed)
    requires RowAt(s, i, fields) && n < |fields| && IsDecimal(fields[n]) && 0 <= before.fraction < 0x100
    ensures Terminated(s, i)
    ensures Number(Unsigned(s, Nth(s, i, n), HDOP, before), 10) == Amount(fields[n], 1) <==>
            Dec(Ints(fields[n])) < 0x100 && (HasPoint(fields[n]) || before.fraction == 0)
  {
    NthField(s, i, fields, n);
    Shifts(1);
    UnsignedField(s, Nth(s, i, n), fields[n], HDOP, before);
  }

  lemma {:induction false} HeadingRead(s: seq<u8>, i: nat, fields: seq<seq<u8>>, before: Fixed)
    requires RowAt(s, i, fields) && IsDecimal(fields[0]) && 0 <= before.fraction < 0x100
    ensures Terminated(s, i)
    ensures Number(Unsigned(s, i, HEADING, before), 100) == Amount(fields[0], 2) <==>
            Dec(Ints(fields[0])) < 0x1_0000 && (HasPoint(fields[0]) || before.fraction == 0)
  {
    NthField(s, i, fields, 0);
    Shifts(1);
    UnsignedField(s, i, fields[0], HEADING, before);
  }

  lemma {:induction false} SpeedRead(s: seq<u8>, i: nat, fields: seq<seq<u8>>, n: nat, before: Fixed)
    requires RowAt(s, i, fields) && n < |fields| && IsDecimal(fields[n]) && 0 <= before.fraction < 0x100
    ensures Terminated(s, i)
    ensures Number(Unsigned(s, Nth(s, i, n), SPEED, before), 100) == Amount(fields[n], 2) <==>
            Dec(Ints(fields[n])) < 0x100 && (HasPoint(fields[n]) || before.fraction == 0)
  {
    NthField(s, i, fields, n);
    Shifts(1);
    UnsignedField(s, Nth(s, i, n), fields[n], SPEED, before);
  }

  lemma {:induction false} AltitudeRead(s: seq<u8>, i: nat, fields: seq<seq<u8>>, n: nat, before: Fixed)
    requires RowAt(s, i, fields) && n < |fields| && IsDecimal(Bare(fields[n])) && 0 <= before.fraction < 0x100
    ensures Terminated(s, i)
    ensures var m, negative := Bare(fields[n]), Negative(fields[n]);
            Number(Altitude(s, Nth(s, i, n), before), 100) == (if negative then -Amount(m, 2) else Amount(m, 2)) <==>
            InWord(Dec(Ints(m)), negative) && (HasPoint(m) || before.fraction == 0) &&
            !SignLost(Dec(Ints(m)), negative, Decimals(Fracs(m), 2))
  {
    NthField(s, i, fields, n);
    AltitudeField(s, Nth(s, i, n), fields[n], before);
  }

  lemma {:induction false} CountRead(s: seq<u8>, i: nat, fields: seq<seq<u8>>, n: nat)
    requires RowAt(s, i, fields) && n < |fields| && IsDecimal(fields[n])
    ensures Terminated(s, i) && Count(s, Nth(s, i, n)) == Dec(Ints(fields[n])) % 0x100
  {
    NthField(s, i, fields, n);
    CountField(s, Nth(s, i, n), fields[n]);
  }

  /** A speed sentence: heading and speed come from the first and the seventh field. */
  method ReadSpeed(gps: Gps, s: seq<u8>, start: nat, fields: seq<seq<u8>>)
    requires Typed(gps.data) && RowAt(s, start, fields) && |fields| >= 7
    requires IsDecimal(fields[0]) && IsDecimal(fields[6])
    modifies gps
    ensures Number(gps.data.heading, 100) == Amount(fields[0], 2) <==>
            Dec(Ints(fields[0])) < 0x1_0000 && (HasPoint(fields[0]) || old(gps.data).heading.fraction == 0)
    ensures Number(gps.data.speed, 100) == Amount(fields[6], 2) <==>
            Dec(Ints(fields[6])) < 0x100 && (HasPoint(fields[6]) || old(gps.data).speed.fraction == 0)
    ensures gps.data == old(gps.data).(heading := gps.data.heading, speed := gps.data.speed)
  {
    HeadingRead(s, start, fields, gps.data.heading);
    SpeedRead(s, start, fields, 6, gps.data.speed);
    gps.OnVtg(s, start);
  }
}

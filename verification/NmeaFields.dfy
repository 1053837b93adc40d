/** Model of the field parsers of src/nmea.c: comma-separated decimal fields of a received
    sentence, read into fixed-point numbers. A sentence is a byte string up to and including its
    terminating zero, and a pointer into it is an index. */
module NmeaFields {
  import opened MachineInts

  const COMMA: u8 := 0x2C
  const POINT: u8 := 0x2E
  const SPACE: u8 := 0x20
  const ZERO: u8 := 0x30
  const MINUS: u8 := 0x2D

  predicate Terminated(s: seq<u8>, i: nat)
  {
    i < |s| && s[|s| - 1] == 0
  }

  predicate Stops(c: u8) { c == COMMA || c == POINT || c == 0 }

  predicate Digit(c: u8) { ZERO <= c <= ZERO + 9 }

  predicate Digits(t: seq<u8>) { forall k :: 0 <= k < |t| ==> Digit(t[k]) }

  /** The accumulator widths of the parser variants. */
  datatype Width = W8 | W16 | W32

  function Modulus(w: Width): int
  {
    match w
    case W8 => 0x100
    case W16 => 0x1_0000
    case W32 => 0x1_0000_0000
  }

  function Wrap(w: Width, x: int): u32 { x % Modulus(w) }

  /** x followed by n zeros. */
  function Shift(x: int, n: nat): int
  {
    if n == 0 then x else 10 * Shift(x, n - 1)
  }

  function Pow10(n: nat): int { Shift(1, n) }

  /** The number a run of characters denotes; spaces do not count. */
  function Dec(t: seq<u8>): int
  {
    if t == [] then 0
    else if t[|t| - 1] == SPACE then Dec(t[..|t| - 1])
    else 10 * Dec(t[..|t| - 1]) + (t[|t| - 1] - ZERO)
  }

  lemma {:induction false} DecSnoc(t: seq<u8>, c: u8)
    ensures Dec(t + [c]) == if c == SPACE then Dec(t) else 10 * Dec(t) + (c - ZERO)
  {
    assert (t + [c])[..|t|] == t;
  }

  /** Where the integer part ends. */
  function FieldEnd(s: seq<u8>, i: nat): (j: nat)
    requires Terminated(s, i)
    ensures i <= j < |s| && Stops(s[j]) && forall k :: i <= k < j ==> !Stops(s[k])
    decreases |s| - i
  {
    if Stops(s[i]) then i else FieldEnd(s, i + 1)
  }

  /** Where the fraction ends when at most p digits are wanted, and how many of them are missing. */
  function FractionScan(s: seq<u8>, i: nat, p: nat): (r: (nat, nat))
    requires Terminated(s, i)
    ensures i <= r.0 && Terminated(s, r.0) && r.1 <= p
    decreases |s| - i
  {
    if Stops(s[i]) || p == 0 then (i, p)
    else
      FractionScan(s, i + 1, if s[i] == SPACE then p else p - 1)
  }

  /** The start of the next field: past the next comma, or at the terminating zero. */
  function NextParam(s: seq<u8>, i: nat): (j: nat)
    requires Terminated(s, i)
    ensures i <= j && Terminated(s, j)
    ensures s[j] == 0 || (j > i && s[j - 1] == COMMA)
    ensures forall k :: i <= k < j - 1 ==> s[k] != COMMA && s[k] != 0
    decreases |s| - i
  {
    if s[i] == 0 then i
    else
      if s[i] == COMMA then i + 1 else NextParam(s, i + 1)
  }

  // ---- wrap-around ------------------------------------------------------------------------

  /** Keeping an accumulator wrapped after each step is the same as wrapping once at the end. */
  lemma {:induction false} WrapDigit(w: Width, x: int, d: int)
    ensures Wrap(w, 10 * Wrap(w, x)) == Wrap(w, 10 * x)
    ensures Wrap(w, Wrap(w, 10 * Wrap(w, x)) + d) == Wrap(w, 10 * x + d)
  {
    WrapScaled(x, Modulus(w));
    WrapSum(10 * x, d, Modulus(w));
  }

  lemma {:induction false} WrapScaled(x: int, m: int)
    requires m > 0
    ensures (10 * (x % m)) % m == (10 * x) % m
  {
    var k := -10 * (x / m);
    assert 10 * (x % m) == 10 * x + k * m by {
      assert x == (x / m) * m + x % m;
      assert k * m == -10 * ((x / m) * m);
    }
    ModPlusMultiple(10 * x, k, m);
  }

  lemma {:induction false} WrapSum(y: int, d: int, m: int)
    requires m > 0
    ensures (y % m + d) % m == (y + d) % m
  {
    var k := y / m;
    assert y == k * m + y % m;
    assert (-k) * m == -(k * m);
    ModPlusMultiple(y + d, -k, m);
  }

  /** One more character of a run: a space leaves the accumulator, a digit is shifted in. */
  lemma {:induction false} NextDigit(s: seq<u8>, start: nat, i: nat, w: Width)
    requires start <= i < |s|
    ensures s[i] == SPACE ==> Dec(s[start..i + 1]) == Dec(s[start..i])
    ensures s[i] != SPACE ==>
              Wrap(w, Wrap(w, 10 * Wrap(w, Dec(s[start..i]))) + (s[i] - ZERO)) == Wrap(w, Dec(s[start..i + 1]))
  {
    DecSnoc(s[start..i], s[i]);
    assert s[start..i + 1] == s[start..i] + [s[i]];
    WrapDigit(w, Dec(s[start..i]), s[i] - ZERO);
  }

  // ---- the parsers ------------------------------------------------------------------------

  /** nmea_parse_str_to_u8, _u16 and _u32, which differ in the width of the accumulator only: the
      value of the digits before the next comma, point or end, modulo 2 to the width. */
  method ParseUnsigned(s: seq<u8>, start: nat, w: Width) returns (value: int, i: nat)
    requires Terminated(s, start)
    ensures i == FieldEnd(s, start)
    ensures value == Wrap(w, Dec(s[start..i]))
  {
    value, i := 0, start;
    assert s[start..start] == [];
    while s[i] != COMMA && s[i] != POINT && s[i] != 0
      invariant start <= i < |s| && Terminated(s, i) && FieldEnd(s, i) == FieldEnd(s, start)
      invariant value == Wrap(w, Dec(s[start..i]))
      decreases |s| - i
    {
      NextDigit(s, start, i, w);
      if s[i] == SPACE {
        i := i + 1;
        continue;
      }
      value := Wrap(w, 10 * value);
      value := Wrap(w, value + (s[i] - ZERO));
      i := i + 1;
    }
  }

  /** nmea_parse_str_fraction_to_u8 and _u16: at most precision digits, scaled up to precision. */
  method ParseFraction(s: seq<u8>, start: nat, precision: u8, w: Width) returns (value: int, i: nat)
    requires Terminated(s, start)
    ensures i == FractionScan(s, start, precision).0
    ensures value == Wrap(w, Shift(Dec(s[start..i]), FractionScan(s, start, precision).1))
  {
    var left := precision;
    value, i := 0, start;
    assert s[start..start] == [];
    while s[i] != COMMA && s[i] != POINT && s[i] != 0 && left != 0
      invariant start <= i < |s| && Terminated(s, i) && 0 <= left <= precision
      invariant FractionScan(s, i, left) == FractionScan(s, start, precision)
      invariant value == Wrap(w, Dec(s[start..i]))
      decreases |s| - i
    {
      NextDigit(s, start, i, w);
      if s[i] == SPACE {
        i := i + 1;
        continue;
      }
      value := Wrap(w, 10 * value);
      value := Wrap(w, value + (s[i] - ZERO));
      i := i + 1;
      left := left - 1;
    }
    value := ScaleUp(value, left, w, Dec(s[start..i]));
  }

  /** The second loop of the fraction parsers: one zero for each digit that was not there. */
  method ScaleUp(start: int, precision: nat, w: Width, ghost digits: int) returns (value: int)
    requires start == Wrap(w, digits)
    ensures value == Wrap(w, Shift(digits, precision))
  {
    value := start;
    var left := precision;
    while left != 0
      invariant 0 <= left <= precision
      invariant value == Wrap(w, Shift(digits, precision - left))
    {
      WrapDigit(w, Shift(digits, precision - left), 0);
      left := left - 1;
      value := Wrap(w, 10 * value);
    }
  }

  method FindNextParam(s: seq<u8>, start: nat) returns (i: nat)
    requires Terminated(s, start)
    ensures i == NextParam(s, start)
  {
    i := start;
    while s[i] != COMMA
      invariant start <= i < |s| && Terminated(s, i) && NextParam(s, i) == NextParam(s, start)
      decreases |s| - i
    {
      if s[i] == 0 {
        return;
      }
      i := i + 1;
    }
    i := i + 1;
  }

  // ---- fixed-point fields -----------------------------------------------------------------

  lemma {:induction false} ShiftTwice(x: int, a: nat, b: nat)
    ensures Shift(Shift(x, a), b) == Shift(x, a + b)
  {
    if b != 0 { ShiftTwice(x, a, b - 1); }
  }

  lemma {:induction false} ShiftSum(x: int, y: int, n: nat)
    ensures Shift(x + y, n) == Shift(x, n) + Shift(y, n)
  {
    if n != 0 { ShiftSum(x, y, n - 1); }
  }

  lemma {:induction false} ShiftMonotone(x: int, y: int, n: nat)
    requires x < y
    ensures Shift(x, n) < Shift(y, n)
  {
    if n != 0 { ShiftMonotone(x, y, n - 1); }
  }

  lemma {:induction false} DigitsBound(t: seq<u8>)
    requires Digits(t)
    ensures 0 <= Dec(t) < Pow10(|t|)
  {
    if t != [] { DigitsBound(t[..|t| - 1]); }
  }

  lemma {:induction false} DecConcat(t: seq<u8>, u: seq<u8>)
    requires Digits(u)
    ensures Dec(t + u) == Shift(Dec(t), |u|) + Dec(u)
  {
    if u == [] {
      assert t + u == t;
    } else {
      var v, c := u[..|u| - 1], u[|u| - 1];
      assert u == v + [c] && t + u == (t + v) + [c];
      DecSnoc(t + v, c);
      DecSnoc(v, c);
      DecConcat(t, v);
    }
  }

  predicate DigitsIn(s: seq<u8>, i: nat, j: nat)
  {
    i <= j <= |s| && forall k :: i <= k < j ==> Digit(s[k])
  }

  /** A field ends at a comma, the last one at the end of the string. */
  predicate Ends(c: u8) { c == COMMA || c == 0 }

  /** From i there are digits up to j, then the end e of the field, or a point and more digits up to e. */
  predicate DecimalAt(s: seq<u8>, i: nat, j: nat, e: nat)
  {
    && j <= e < |s| && DigitsIn(s, i, j) && Ends(s[e])
    && (j < e ==> s[j] == POINT && DigitsIn(s, j + 1, e))
  }

  /** The digits behind the point. */
  function Fraction(s: seq<u8>, j: nat, e: nat): seq<u8>
    requires j <= e < |s|
  {
    if j < e then s[j + 1..e] else []
  }

  /** v is the exact value of the field times 10 to the p, rounded down. */
  predicate RoundedDown(v: int, p: nat, ints: seq<u8>, fracs: seq<u8>)
  {
    Shift(v, |fracs|) <= Shift(Dec(ints + fracs), p) < Shift(v + 1, |fracs|)
  }

  /** The first p digits behind the point, with zeros for those that are not there. */
  function Decimals(fracs: seq<u8>, p: nat): int
  {
    var n := if |fracs| < p then |fracs| else p;
    Shift(Dec(fracs[..n]), p - n)
  }

  /** So this is the value rounded down. */
  lemma {:induction false} Rounded(ints: seq<u8>, fracs: seq<u8>, p: nat)
    requires Digits(ints) && Digits(fracs)
    ensures RoundedDown(Shift(Dec(ints), p) + Decimals(fracs, p), p, ints, fracs)
  {
    if |fracs| <= p {
      assert fracs[..|fracs|] == fracs;
      ScaledUp(ints, fracs, p);
    } else {
      CutOff(ints, fracs[..p], fracs[p..]);
      assert fracs == fracs[..p] + fracs[p..];
    }
  }

  lemma {:induction false} DecimalsBound(fracs: seq<u8>, p: nat)
    requires Digits(fracs)
    ensures 0 <= Decimals(fracs, p) < Pow10(p)
  {
    var n := if |fracs| < p then |fracs| else p;
    var t := fracs[..n];
    DigitsBound(t);
    ShiftNotNegative(Dec(t), p - n);
    ShiftMonotone(Dec(t), Pow10(n), p - n);
    ShiftTwice(1, n, p - n);
  }

  /** With at most p digits written, the value is exact. */
  lemma {:induction false} ScaledUp(ints: seq<u8>, fracs: seq<u8>, p: nat)
    requires Digits(ints) && Digits(fracs) && |fracs| <= p
    ensures RoundedDown(Shift(Dec(ints), p) + Shift(Dec(fracs), p - |fracs|), p, ints, fracs)
  {
    var f := |fracs|;
    var v := Shift(Dec(ints), p) + Shift(Dec(fracs), p - f);
    DecConcat(ints, fracs);
    ShiftSum(Shift(Dec(ints), f), Dec(fracs), p);
    ShiftTwice(Dec(ints), f, p);
    ShiftTwice(Dec(ints), p, f);
    ShiftTwice(Dec(fracs), p - f, f);
    ShiftSum(Shift(Dec(ints), p), Shift(Dec(fracs), p - f), f);
    ShiftMonotone(v, v + 1, f);
  }

  /** With more than p digits written, the digits past p are cut off. */
  lemma {:induction false} CutOff(ints: seq<u8>, head: seq<u8>, tail: seq<u8>)
    requires Digits(ints) && Digits(head) && Digits(tail)
    ensures RoundedDown(Shift(Dec(ints), |head|) + Dec(head), |head|, ints, head + tail)
  {
    ConcatParts(ints, head, tail);
    DigitsBound(tail);
    CutDigits(Shift(Dec(ints), |head|) + Dec(head), Dec(tail), |head|, |tail|);
  }

  lemma {:induction false} ConcatParts(ints: seq<u8>, head: seq<u8>, tail: seq<u8>)
    requires Digits(head) && Digits(tail)
    ensures Dec(ints + (head + tail)) == Shift(Shift(Dec(ints), |head|) + Dec(head), |tail|) + Dec(tail)
  {
    DecConcat(ints, head);
    DecConcat(ints + head, tail);
    assert ints + (head + tail) == (ints + head) + tail;
  }

  lemma {:induction false} CutDigits(v: int, rest: nat, h: nat, t: nat)
    requires rest < Pow10(t)
    ensures Shift(v, h + t) <= Shift(Shift(v, t) + rest, h) < Shift(v + 1, h + t)
  {
    ShiftSum(Shift(v, t), rest, h);
    ShiftTwice(v, t, h);
    ShiftNotNegative(rest, h);
    ShiftMonotone(rest, Pow10(t), h);
    ShiftTwice(1, t, h);
    ShiftSum(v, 1, h + t);
  }

  lemma {:induction false} ShiftNotNegative(x: nat, n: nat)
    ensures Shift(x, n) >= 0
  {
    if n != 0 { ShiftNotNegative(x, n - 1); }
  }

  /** The parsers find the parts of a field where they are written. */
  lemma {:induction false} IntegerPartEnds(s: seq<u8>, i: nat, j: nat)
    requires Terminated(s, i) && DigitsIn(s, i, j) && j < |s| && Stops(s[j])
    ensures FieldEnd(s, i) == j && Terminated(s, j)
    decreases j - i
  {
    if i < j {
      IntegerPartEnds(s, i + 1, j);
    }
  }

  lemma {:induction false} FractionPartEnds(s: seq<u8>, i: nat, e: nat, p: nat)
    requires Terminated(s, i) && DigitsIn(s, i, e) && e < |s| && Ends(s[e])
    ensures var n := if e - i < p then e - i else p;
            FractionScan(s, i, p) == (i + n, p - n)
    decreases e - i
  {
    if i < e && p != 0 {
      FractionPartEnds(s, i + 1, e, p - 1);
    }
  }

  /** What the parsers leave unread of a field is skipped. */
  lemma {:induction false} WholeSkipped(s: seq<u8>, i: nat)
    requires Terminated(s, i)
    ensures NextParam(s, FieldEnd(s, i)) == NextParam(s, i)
    decreases |s| - i
  {
    if !Stops(s[i]) {
      WholeSkipped(s, i + 1);
    }
  }

  lemma {:induction false} FractionSkipped(s: seq<u8>, i: nat, p: nat)
    requires Terminated(s, i)
    ensures NextParam(s, FractionScan(s, i, p).0) == NextParam(s, i)
    decreases |s| - i
  {
    if !Stops(s[i]) && p != 0 {
      FractionSkipped(s, i + 1, if s[i] == SPACE then p else p - 1);
    }
  }

  /** How a fixed-point field is stored. */
  datatype Format = Format(whole: Width, fraction: Width, precision: u8)

  /** Integer part and fraction of a field, as the parsers find them. A field without a point leaves the
      fraction as it was. */
  function FixedPoint(s: seq<u8>, i: nat, f: Format, before: nat): (nat, nat)
    requires Terminated(s, i)
  {
    var j := FieldEnd(s, i);
    (Wrap(f.whole, Dec(s[i..j])), FractionPart(s, j, f, before))
  }

  function FractionPart(s: seq<u8>, j: nat, f: Format, before: nat): nat
    requires Terminated(s, j)
  {
    if s[j] == POINT then
      var (k, left) := FractionScan(s, j + 1, f.precision);
      Wrap(f.fraction, Shift(Dec(s[j + 1..k]), left))
    else before
  }

  /** Point, fraction parse and next field, as nmea_on_rx_frame has them behind every integer part. */
  method ParseRest(s: seq<u8>, j: nat, f: Format, before: nat) returns (fraction: nat, next: nat)
    requires Terminated(s, j)
    ensures fraction == FractionPart(s, j, f, before) && next == NextParam(s, j)
  {
    var i: nat := j;
    fraction := before;
    if s[i] == POINT {
      fraction, i := ParseFraction(s, i + 1, f.precision, f.fraction);
      FractionSkipped(s, j + 1, f.precision);
    }
    next := FindNextParam(s, i);
  }

  /** An unsigned field and the start of the next one. */
  method ParseFixedPoint(s: seq<u8>, start: nat, f: Format, before: nat)
    returns (whole: nat, fraction: nat, next: nat)
    requires Terminated(s, start)
    ensures (whole, fraction) == FixedPoint(s, start, f, before) && next == NextParam(s, start)
  {
    var i;
    whole, i := ParseUnsigned(s, start, f.whole);
    WholeSkipped(s, start);
    fraction, next := ParseRest(s, i, f, before);
  }

  /** What is read of a decimal field. */
  lemma {:induction false} FieldParts(s: seq<u8>, i: nat, j: nat, e: nat, f: Format, before: nat)
    requires Terminated(s, i) && DecimalAt(s, i, j, e)
    ensures FieldEnd(s, i) == j && Terminated(s, j)
    ensures FractionPart(s, j, f, before) ==
            if j < e then Wrap(f.fraction, Decimals(s[j + 1..e], f.precision)) else before
  {
    IntegerPartEnds(s, i, j);
    if j < e {
      FractionPartEnds(s, j + 1, e, f.precision);
      var n := if e - j - 1 < f.precision then e - j - 1 else f.precision;
      Prefix(s, j + 1, e, n);
    }
  }

  lemma Prefix(s: seq<u8>, a: nat, e: nat, n: nat)
    requires a + n <= e <= |s|
    ensures s[a..e][..n] == s[a..a + n]
  {
  }

  // ---- signs ------------------------------------------------------------------------------

  /** A number kept in a signed 16-bit word. */
  function S16(x: int): (y: int)
    ensures -0x8000 <= y < 0x8000 && (-0x8000 <= x < 0x8000 ==> y == x)
  {
    (x + 0x8000) % 0x1_0000 - 0x8000
  }

  /** The same with a sign applied in 16 bits. */
  function SignedWord(x: int, negative: bool): int { if negative then S16(-S16(x)) else S16(x) }

  /** A run of characters without the minus signs. */
  function Minusless(t: seq<u8>): seq<u8>
  {
    if t == [] then []
    else Minusless(t[..|t| - 1]) + if t[|t| - 1] == MINUS then [] else [t[|t| - 1]]
  }

  predicate HasMinus(t: seq<u8>) { t != [] && (HasMinus(t[..|t| - 1]) || t[|t| - 1] == MINUS) }

  lemma {:induction false} MinuslessSnoc(t: seq<u8>, c: u8)
    ensures Minusless(t + [c]) == Minusless(t) + if c == MINUS then [] else [c]
    ensures HasMinus(t + [c]) <==> HasMinus(t) || c == MINUS
  {
    assert (t + [c])[..|t|] == t;
  }

  lemma {:induction false} MinuslessDigits(t: seq<u8>)
    requires Digits(t)
    ensures Minusless(t) == t && !HasMinus(t)
  {
    if t != [] {
      MinuslessDigits(t[..|t| - 1]);
      assert t == t[..|t| - 1] + [t[|t| - 1]];
    }
  }

  /** What the signed parser has accumulated from start to i, without the sign. */
  function Accumulated(s: seq<u8>, start: nat, i: nat): int
    requires start <= i <= |s|
  {
    S16(Dec(Minusless(s[start..i])))
  }

  /** One more character of a signed run. */
  lemma {:induction false} NextSigned(s: seq<u8>, start: nat, i: nat)
    requires start <= i < |s|
    ensures s[i] == SPACE || s[i] == MINUS ==> Accumulated(s, start, i + 1) == Accumulated(s, start, i)
    ensures s[i] != SPACE && s[i] != MINUS ==>
              Accumulated(s, start, i + 1) == S16(S16(10 * Accumulated(s, start, i)) + (s[i] - ZERO))
    ensures HasMinus(s[start..i + 1]) <==> HasMinus(s[start..i]) || s[i] == MINUS
  {
    var t := Minusless(s[start..i]);
    assert s[start..i + 1] == s[start..i] + [s[i]];
    MinuslessSnoc(s[start..i], s[i]);
    assert t + [] == t;
    DecSnoc(t, s[i]);
    SignedStep(Dec(t), s[i] - ZERO);
  }

  /** Keeping a signed accumulator in a word after each step is the same as doing so once at the end. */
  lemma SignedStep(x: int, d: int)
    ensures S16(S16(10 * S16(x)) + d) == S16(10 * x + d)
  {
    var k, l := (x + 0x8000) / 0x1_0000, (10 * S16(x) + 0x8000) / 0x1_0000;
    SameWord(10 * x + d, -10 * k - l);
  }

  lemma SameWord(x: int, k: int)
    ensures S16(x + k * 0x1_0000) == S16(x)
  {
  }

  /** What the signed parser makes of the characters from i on: the number without its sign, and whether
      there is a sign. */
  function SignedScan(s: seq<u8>, i: nat, value: int, negative: bool): (int, bool)
    requires Terminated(s, i)
    decreases |s| - i
  {
    if Stops(s[i]) then (value, negative)
    else if s[i] == SPACE then SignedScan(s, i + 1, value, negative)
    else if s[i] == MINUS then SignedScan(s, i + 1, value, true)
    else SignedScan(s, i + 1, S16(S16(10 * value) + (s[i] - ZERO)), negative)
  }

  lemma {:induction false} SignedScanned(s: seq<u8>, start: nat, i: nat)
    requires start <= i && Terminated(s, i)
    ensures var e := FieldEnd(s, i);
            SignedScan(s, i, Accumulated(s, start, i), HasMinus(s[start..i])) ==
            (Accumulated(s, start, e), HasMinus(s[start..e]))
    decreases |s| - i
  {
    if !Stops(s[i]) {
      NextSigned(s, start, i);
      SignedScanned(s, start, i + 1);
    }
  }

  /** nmea_parse_str_to_s16: minus signs count wherever they stand. */
  method ParseSigned(s: seq<u8>, start: nat) returns (value: int, i: nat)
    requires Terminated(s, start)
    ensures i == FieldEnd(s, start)
    ensures value == SignedWord(Dec(Minusless(s[start..i])), HasMinus(s[start..i]))
  {
    var negative := false;
    value, i := 0, start;
    SignedScanned(s, start, start);
    assert s[start..start] == [];
    while s[i] != COMMA && s[i] != POINT && s[i] != 0
      invariant start <= i < |s| && Terminated(s, i) && FieldEnd(s, i) == FieldEnd(s, start)
      invariant SignedScan(s, i, value, negative) == SignedScan(s, start, 0, false)
      decreases |s| - i
    {
      if s[i] == SPACE {
        i := i + 1;
        continue;
      } else if s[i] == MINUS {
        negative := true;
        i := i + 1;
        continue;
      }
      value := S16(10 * value);
      value := S16(value + (s[i] - ZERO));
      i := i + 1;
    }
    if negative {
      value := S16(-value);
    }
  }
}

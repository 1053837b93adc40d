/** Digits of 32-bit words in the four radices of the console (src/monitor.c): what the formatter prints
    and how the parser reads characters. */
module MonitorDigits {
  import opened MachineInts

  function Code(c: char): u8 { U8(c as int) }

  /** The character at a place of a zero-terminated string. */
  function At(s: string, i: nat): u8 { if i < |s| then Code(s[i]) else 0 }

  // ---- digits -----------------------------------------------------------------------------

  /** The four radices. */
  type Radix = r: int | r in {2, 8, 10, 16} witness 10

  function Times(x: int, r: Radix): int
  {
    if r == 2 then 2 * x else if r == 8 then 8 * x else if r == 10 then 10 * x else 16 * x
  }

  /** Quotient and remainder by a radix. */
  function Over(x: nat, r: Radix): nat
  {
    if r == 2 then x / 2 else if r == 8 then x / 8 else if r == 10 then x / 10 else x / 16
  }

  function Rest(x: nat, r: Radix): (d: nat)
    ensures d < r
  {
    if r == 2 then x % 2 else if r == 8 then x % 8 else if r == 10 then x % 10 else x % 16
  }

  /** The size of the digit buffer of the formatter. */
  const DIGIT_BUFFER := 16

  function DigitChar(d: int, lower: bool): char
    requires 0 <= d < 16
  {
    (d + (if d <= 9 then 0 else if lower then 0x27 else 0x07) + 0x30) as char
  }

  /** The digits of v in radix r, most significant first, but never more than cap of them. */
  function Digits(v: nat, r: Radix, cap: nat): (ds: seq<int>)
    ensures forall k :: 0 <= k < |ds| ==> 0 <= ds[k] < r
    ensures |ds| <= cap && (cap > 0 ==> |ds| > 0)
    decreases cap, v
  {
    if cap == 0 then []
    else (if Over(v, r) == 0 then [] else Digits(Over(v, r), r, cap - 1)) + [Rest(v, r)]
  }

  function Text(ds: seq<int>, lower: bool): (t: string)
    requires forall k :: 0 <= k < |ds| ==> 0 <= ds[k] < 16
    ensures |t| == |ds|
  {
    seq(|ds|, k requires 0 <= k < |ds| => DigitChar(ds[k], lower))
  }

  /** What the parser makes of a character as a digit of radix r; -1 is no digit. Only what is 17 or more
      past '0' is taken for a letter. */
  function DigitOf(c: u8, r: Radix): int
  {
    var folded := if c >= 0x61 then c - 0x20 else c;
    var d := U8(folded - 0x30);
    if d >= 17 && d - 7 <= 9 then -1
    else
      var digit := if d >= 17 then d - 7 else d;
      if digit < r then digit else -1
  }

  /** What a character means as a digit of radix r. */
  function MeantDigit(c: u8, r: Radix): int
  {
    var d := if 0x30 <= c <= 0x39 then c - 0x30 else if 0x41 <= c <= 0x46 then c - 0x37
             else if 0x61 <= c <= 0x66 then c - 0x57 else 16;
    if d < r then d else -1
  }

  /** The characters between the digits and the letters. */
  predicate Between(c: u8) { 0x3A <= c <= 0x3F }

  /** The parser reads every character as what it means, except those between the digits and the letters,
      which it takes for the hexadecimal digits 10 to 15. */
  lemma DigitMeant(c: u8, r: Radix)
    ensures DigitOf(c, r) == MeantDigit(c, r) <==> !(r == 16 && Between(c))
    ensures r == 16 && Between(c) ==> DigitOf(c, r) == c - 0x30 && MeantDigit(c, r) == -1
  {
  }

  /** The test that is to reject them never holds: a character taken for a letter is at least 10. */
  lemma LetterTestIsDead(c: u8)
    ensures var d := U8((if c >= 0x61 then c - 0x20 else c) - 0x30); d >= 17 ==> !(d - 7 <= 9)
  {
  }

  /** How the parser reads the characters of a string from i to e. */
  function Reading(s: string, i: nat, e: nat, r: Radix): (ds: seq<int>)
    requires i <= e
    ensures |ds| == e - i
  {
    seq(e - i, k requires 0 <= k < e - i => DigitOf(At(s, i + k), r))
  }

  /** What those characters mean. */
  function Meaning(s: string, i: nat, e: nat, r: Radix): (ds: seq<int>)
    requires i <= e
    ensures |ds| == e - i
  {
    seq(e - i, k requires 0 <= k < e - i => MeantDigit(At(s, i + k), r))
  }

  predicate AllDigits(ds: seq<int>) { forall k :: 0 <= k < |ds| ==> ds[k] >= 0 }

  /** The number that a row of digits denotes. */
  function Value(ds: seq<int>, r: Radix): int
  {
    if ds == [] then 0 else Times(Value(ds[..|ds| - 1], r), r) + ds[|ds| - 1]
  }

  lemma DigitRead(d: int, lower: bool, r: Radix)
    requires 0 <= d < r
    ensures DigitOf(Code(DigitChar(d, lower)), r) == d && Code(DigitChar(d, lower)) > 0x20
    ensures d < 10 ==> 0x30 <= Code(DigitChar(d, lower)) <= 0x39
  {
  }

  /** Printed digits are read as themselves wherever they stand, and none of them ends a number. */
  lemma TextRead(s: string, i: nat, ds: seq<int>, lower: bool, r: Radix)
    requires forall k :: 0 <= k < |ds| ==> 0 <= ds[k] < r
    requires i + |ds| <= |s| && s[i..i + |ds|] == Text(ds, lower)
    ensures Reading(s, i, i + |ds|, r) == ds && forall k :: i <= k < i + |ds| ==> At(s, k) > 0x20
  {
    forall k | i <= k < i + |ds| ensures DigitOf(At(s, k), r) == ds[k - i] && At(s, k) > 0x20 {
      assert s[k] == s[i..i + |ds|][k - i];
      DigitRead(ds[k - i], lower, r);
    }
  }

  /** What cap digits of radix r keep of a number. */
  function Kept(v: nat, r: Radix, cap: nat): nat
    decreases cap, v
  {
    if cap == 0 then 0 else Times(Kept(Over(v, r), r, cap - 1), r) + Rest(v, r)
  }

  lemma {:induction false} ValueSnoc(ds: seq<int>, d: int, r: Radix)
    ensures Value(ds + [d], r) == Times(Value(ds, r), r) + d
  {
    assert (ds + [d])[..|ds|] == ds;
  }

  /** The digits denote what the digit buffer keeps of the number. */
  lemma {:induction false} DigitsDenote(v: nat, r: Radix, cap: nat)
    ensures Value(Digits(v, r, cap), r) == Kept(v, r, cap)
    decreases cap, v
  {
    if cap != 0 {
      if Over(v, r) == 0 {
        LastDigit(v, r, cap);
      } else {
        DigitsDenote(Over(v, r), r, cap - 1);
        ValueSnoc(Digits(Over(v, r), r, cap - 1), Rest(v, r), r);
      }
    }
  }

  lemma {:induction false} LastDigit(v: nat, r: Radix, cap: nat)
    requires cap != 0 && Over(v, r) == 0
    ensures Value(Digits(v, r, cap), r) == Kept(v, r, cap)
  {
    KeptZero(r, cap - 1);
    ValueSnoc([], Rest(v, r), r);
  }

  lemma {:induction false} KeptZero(r: Radix, cap: nat)
    ensures Kept(0, r, cap) == 0
  {
    if cap != 0 { KeptZero(r, cap - 1); }
  }

  function Power(r: Radix, n: nat): int { if n == 0 then 1 else Times(Power(r, n - 1), r) }

  /** A number with no more digits than that is kept whole. */
  lemma {:induction false} KeptWhole(v: nat, r: Radix, cap: nat)
    requires v < Power(r, cap)
    ensures Kept(v, r, cap) == v
    decreases cap, v
  {
    if cap != 0 { KeptWhole(Over(v, r), r, cap - 1); }
  }

  /** Of a binary number the low bits are kept. */
  lemma {:induction false} KeptBinary(v: nat, cap: nat)
    ensures Kept(v, 2, cap) == v % Pow2(cap)
    decreases cap, v
  {
    if cap != 0 {
      KeptBinary(v / 2, cap - 1);
      LowBit(v, Pow2(cap - 1));
    }
  }

  lemma LowBit(v: nat, p: nat)
    requires p > 0
    ensures v % (2 * p) == 2 * (v / 2 % p) + v % 2
  {
    var q, r := v / 2 / p, v / 2 % p;
    assert v / 2 == q * p + r;
    assert v == q * (2 * p) + (2 * r + v % 2);
    Quotient(v, q, 2 * p, 2 * r + v % 2);
  }

  /** Sixteen digits hold every 32-bit word in radix 8, 10 and 16, and its low half in radix 2. */
  lemma {:induction false} WordKept(v: u32, r: Radix)
    ensures Kept(v, r, DIGIT_BUFFER) == if r == 2 then v % 0x1_0000 else v
  {
    if r == 2 {
      KeptBinary(v, 16);
      Pow2Values();
    } else {
      PowersSuffice(r);
      KeptWhole(v, r, 16);
    }
  }

  lemma PowersSuffice(r: Radix)
    requires r != 2
    ensures Power(r, 16) >= 0x1_0000_0000
  {
    assert Power(8, 8) == 0x100_0000 && Power(10, 8) == 100000000 && Power(16, 8) == 0x1_0000_0000;
    assert Power(8, 12) == 0x10_0000_0000 && Power(10, 12) == 1000000000000 && Power(16, 12) == 0x1_0000_0000_0000;
  }
}

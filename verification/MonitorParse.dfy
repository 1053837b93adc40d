/** Model of the number parser of src/monitor.c: xatoi. */
module MonitorParse {
  import opened MachineInts
  import opened MonitorDigits

  function SkipSpaces(s: string, i: nat): (j: nat)
    requires i <= |s|
    ensures i <= j <= |s|
    decreases |s| - i
  {
    if At(s, i) == 0x20 then SkipSpaces(s, i + 1) else i
  }

  /** Where a number ends: at the first character that is not above a space. */
  function NumberEnd(s: string, i: nat): (j: nat)
    requires i <= |s|
    ensures i <= j <= |s| && At(s, j) <= 0x20
    ensures forall k :: i <= k < j ==> At(s, k) > 0x20
    decreases |s| - i
  {
    if At(s, i) <= 0x20 then i else NumberEnd(s, i + 1)
  }

  datatype Option<T> = None | Some(value: T)

  datatype Parse = Failed | Read(value: u32, next: nat)

  /** The digits from i to the end of the number, in radix r. */
  function DigitsAt(s: string, i: nat, r: Radix, negative: bool): (p: Parse)
    requires i <= |s|
    ensures p.Read? ==> i <= p.next <= |s|
  {
    var e := NumberEnd(s, i);
    var ds := Reading(s, i, e, r);
    if AllDigits(ds) then Read(U32(if negative then -Value(ds, r) else Value(ds, r)), e) else Failed
  }

  predicate DecimalDigit(c: u8) { 0x30 <= c <= 0x39 }

  /** A number as it stands in a string: a lone zero, or digits of a radix. */
  datatype Token = NoNumber | Zero(next: nat) | Numeral(start: nat, r: Radix, negative: bool)

  /** The number behind a sign: a leading zero selects the radix. */
  function TokenAt(s: string, i: nat, negative: bool): (t: Token)
    requires i <= |s|
    ensures t.Zero? ==> i <= t.next <= |s|
    ensures t.Numeral? ==> i <= t.start <= |s|
  {
    if At(s, i) == Code('0') then
      if At(s, i + 1) == Code('x') then Numeral(i + 2, 16, negative)
      else if At(s, i + 1) == Code('b') then Numeral(i + 2, 2, negative)
      else if At(s, i + 1) <= 0x20 then Zero(i + 1)
      else if DecimalDigit(At(s, i + 1)) then Numeral(i + 1, 8, negative)
      else NoNumber
    else if DecimalDigit(At(s, i)) then Numeral(i, 10, negative)
    else NoNumber
  }

  /** A number behind its sign, as it is read. */
  function Unsigned(s: string, i: nat, negative: bool): (p: Parse)
    requires i <= |s|
    ensures p.Read? ==> i <= p.next <= |s|
  {
    match TokenAt(s, i, negative)
    case NoNumber => Failed
    case Zero(next) => Read(0, next)
    case Numeral(start, r, _) => DigitsAt(s, start, r, negative)
  }

  /** What xatoi reads at a place of a string. */
  function Atoi(s: string, i: nat): (p: Parse)
    requires i <= |s|
    ensures p.Read? ==> i <= p.next <= |s|
  {
    Signed(s, SkipSpaces(s, i))
  }

  function Signed(s: string, i: nat): (p: Parse)
    requires i <= |s|
    ensures p.Read? ==> i <= p.next <= |s|
  {
    if At(s, i) == Code('-') then Unsigned(s, i + 1, true) else Unsigned(s, i, false)
  }

  // ---- what is meant ----------------------------------------------------------------------

  /** The number at a place of a string, behind spaces and a sign. */
  function TokenOf(s: string, i: nat): (t: Token)
    requires i <= |s|
    ensures t.Zero? ==> t.next <= |s|
    ensures t.Numeral? ==> t.start <= |s|
  {
    var j := SkipSpaces(s, i);
    if At(s, j) == Code('-') then TokenAt(s, j + 1, true) else TokenAt(s, j, false)
  }

  /** The prefix from b to start announces radix r: "0x" and "0b", a zero before octal digits, and nothing
      before decimal ones, of which only a lone zero starts with a zero. */
  predicate Announced(s: string, b: nat, start: nat, e: nat, r: Radix)
  {
    if r == 10 then start == b && (At(s, b) != Code('0') || e == b + 1)
    else
      At(s, b) == Code('0') &&
      (if r == 8 then start == b + 1
       else start == b + 2 && At(s, b + 1) == Code(if r == 16 then 'x' else 'b'))
  }

  /** From i to e stands the number v: spaces up to j, perhaps a sign, a prefix, and from start on at least
      one digit, all of radix r. */
  predicate WrittenAs(s: string, i: nat, e: nat, v: int, j: nat, negative: bool, start: nat, r: Radix)
  {
    var b := if negative then j + 1 else j;
    && i <= j && (forall k :: i <= k < j ==> At(s, k) == 0x20) && (negative ==> At(s, j) == Code('-'))
    && Announced(s, b, start, e, r) && start < e <= |s| && At(s, e) <= 0x20
    && AllDigits(Meaning(s, start, e, r))
    && v == (if negative then -Value(Meaning(s, start, e, r), r) else Value(Meaning(s, start, e, r), r))
  }

  ghost predicate Written(s: string, i: nat, e: nat, v: int)
  {
    exists j: nat, negative: bool, start: nat, r: Radix :: WrittenAs(s, i, e, v, j, negative, start, r)
  }

  /** xatoi does what it is meant to: it fails where no number stands, and otherwise returns the number that
      stands there as a signed word and stops behind it. */
  ghost predicate Right(s: string, i: nat)
    requires i <= |s|
  {
    match Atoi(s, i)
    case Failed => forall e: nat, v: int :: !Written(s, i, e, v)
    case Read(value, next) => Written(s, i, next, AsI32(value))
  }

  predicate HexOrBetween(c: u8) { MeantDigit(c, 16) >= 0 || Between(c) }

  /** A hexadecimal token of hexadecimal digits and characters between the digits and the letters, with at
      least one of the latter. */
  predicate Mixed(s: string, i: nat)
    requires i <= |s|
  {
    var t := TokenOf(s, i);
    t.Numeral? && t.r == 16 &&
    (forall k :: t.start <= k < NumberEnd(s, t.start) ==> HexOrBetween(At(s, k))) &&
    (exists k :: t.start <= k < NumberEnd(s, t.start) && Between(At(s, k)))
  }

  /** A prefix without any digit behind it. */
  predicate Empty(s: string, i: nat)
    requires i <= |s|
  {
    var t := TokenOf(s, i);
    t.Numeral? && NumberEnd(s, t.start) == t.start
  }

  /** A number that is no signed 32-bit word. */
  ghost predicate TooLarge(s: string, i: nat)
  {
    exists e: nat, v: int :: Written(s, i, e, v) && !(-0x8000_0000 <= v < 0x8000_0000)
  }

  /** The number of a token, if it means one. */
  function TokenNumber(s: string, t: Token): (n: Option<(nat, int)>)
    requires t.Zero? ==> t.next <= |s|
    requires t.Numeral? ==> t.start <= |s|
  {
    match t
    case NoNumber => None
    case Zero(next) => Some((next, 0))
    case Numeral(start, r, negative) =>
      var e := NumberEnd(s, start);
      var ds := Meaning(s, start, e, r);
      if start < e && AllDigits(ds) then Some((e, if negative then -Value(ds, r) else Value(ds, r))) else None
  }

  /** What is written at a place is the number of the token there. */
  lemma {:induction false} WrittenIsToken(s: string, i: nat, e: nat, v: int)
    requires i <= |s| && Written(s, i, e, v)
    ensures TokenNumber(s, TokenOf(s, i)) == Some((e, v))
  {
    var j: nat, negative: bool, start: nat, r: Radix :| WrittenAs(s, i, e, v, j, negative, start, r);
    TokenFound(s, i, e, v, j, negative, start, r);
  }

  lemma {:induction false} TokenFound(s: string, i: nat, e: nat, v: int, j: nat, negative: bool, start: nat, r: Radix)
    requires i <= |s| && WrittenAs(s, i, e, v, j, negative, start, r)
    ensures TokenNumber(s, TokenOf(s, i)) == Some((e, v))
  {
    DigitsMean(s, start, e, r);
    SignedToken(s, i, j, negative, start, e, r);
    if r == 10 && At(s, start) == Code('0') {
      LoneZero(s, start, e);
    } else {
      NumberEndsAt(s, start, e);
      assert TokenOf(s, i) == Numeral(start, r, negative);
    }
  }

  lemma SignedToken(s: string, i: nat, j: nat, negative: bool, start: nat, e: nat, r: Radix)
    requires i <= j && (forall k :: i <= k < j ==> At(s, k) == 0x20) && (negative ==> At(s, j) == Code('-'))
    requires Announced(s, if negative then j + 1 else j, start, e, r) && start < e <= |s| && At(s, e) <= 0x20
    requires MeantDigit(At(s, start), r) >= 0
    ensures TokenOf(s, i) == if r == 10 && At(s, start) == Code('0') then Zero(e) else Numeral(start, r, negative)
  {
    AnnouncedToken(s, if negative then j + 1 else j, start, e, r, negative);
    SpacesEnd(s, i, j);
  }

  lemma DigitsMean(s: string, i: nat, e: nat, r: Radix)
    requires i <= e && AllDigits(Meaning(s, i, e, r))
    ensures forall k :: i <= k < e ==> MeantDigit(At(s, k), r) >= 0 && At(s, k) > 0x20
  {
    forall k | i <= k < e ensures MeantDigit(At(s, k), r) >= 0 && At(s, k) > 0x20 {
      assert Meaning(s, i, e, r)[k - i] == MeantDigit(At(s, k), r);
    }
  }

  lemma AnnouncedToken(s: string, b: nat, start: nat, e: nat, r: Radix, negative: bool)
    requires Announced(s, b, start, e, r) && start < e <= |s| && At(s, e) <= 0x20
    requires MeantDigit(At(s, start), r) >= 0
    ensures b <= |s| && At(s, b) != 0x20 && At(s, b) != Code('-')
    ensures TokenAt(s, b, negative) ==
            if r == 10 && At(s, b) == Code('0') then Zero(e) else Numeral(start, r, negative)
  {
  }

  lemma {:induction false} LoneZero(s: string, i: nat, e: nat)
    requires e == i + 1 && At(s, i) == Code('0')
    ensures AllDigits(Meaning(s, i, e, 10)) && Value(Meaning(s, i, e, 10), 10) == 0
  {
    var ds := Meaning(s, i, e, 10);
    assert ds[0] == MeantDigit(At(s, i + 0), 10);
    assert ds[..0] == [];
  }

  lemma {:induction false} SpacesEnd(s: string, i: nat, j: nat)
    requires i <= j <= |s| && At(s, j) != 0x20 && forall k :: i <= k < j ==> At(s, k) == 0x20
    ensures SkipSpaces(s, i) == j
    decreases j - i
  {
    if i < j { SpacesEnd(s, i + 1, j); }
  }

  lemma {:induction false} NumberEndsAt(s: string, i: nat, e: nat)
    requires i <= e <= |s| && At(s, e) <= 0x20 && forall k :: i <= k < e ==> At(s, k) > 0x20
    ensures NumberEnd(s, i) == e
    decreases e - i
  {
    if i < e { NumberEndsAt(s, i + 1, e); }
  }

  lemma {:induction false} SpacesSkipped(s: string, i: nat)
    requires i <= |s|
    ensures At(s, SkipSpaces(s, i)) != 0x20 && forall k :: i <= k < SkipSpaces(s, i) ==> At(s, k) == 0x20
    decreases |s| - i
  {
    if At(s, i) == 0x20 { SpacesSkipped(s, i + 1); }
  }

  /** And the number of a token is written there. */
  lemma {:induction false} TokenIsWritten(s: string, i: nat)
    requires i <= |s| && TokenNumber(s, TokenOf(s, i)).Some?
    ensures var (e, v) := TokenNumber(s, TokenOf(s, i)).value; Written(s, i, e, v)
  {
    var t := TokenOf(s, i);
    var (e, v) := TokenNumber(s, t).value;
    var j := SkipSpaces(s, i);
    var negative := At(s, j) == Code('-');
    var b := if negative then j + 1 else j;
    SpacesSkipped(s, i);
    if t.Zero? {
      LoneZero(s, b, e);
      assert WrittenAs(s, i, e, v, j, negative, b, 10);
    } else {
      assert WrittenAs(s, i, e, v, j, negative, t.start, t.r);
    }
  }

  /** xatoi does what it is meant to, except that it accepts mixed tokens and prefixes without digits, which
      are no numbers, and returns numbers that are too large modulo 2 to the 32. */
  lemma {:induction false} AtoiMeant(s: string, i: nat)
    requires i <= |s|
    ensures Right(s, i) <==> !Mixed(s, i) && !Empty(s, i) && !TooLarge(s, i)
    ensures forall e, v :: Written(s, i, e, v) ==> Atoi(s, i) == Read(U32(v), e)
    ensures Mixed(s, i) || Empty(s, i) ==> Atoi(s, i).Read? && forall e, v :: !Written(s, i, e, v)
  {
    var t := TokenOf(s, i);
    if t.Numeral? {
      DigitsMeant(s, t.start, NumberEnd(s, t.start), t.r);
    }
    TokenRead(s, i);
    forall e, v | Written(s, i, e, v) ensures TokenNumber(s, t) == Some((e, v)) {
      WrittenIsToken(s, i, e, v);
    }
    if TokenNumber(s, t).Some? {
      TokenIsWritten(s, i);
      WordOf(TokenNumber(s, t).value.1);
    }
  }

  lemma WordOf(v: int)
    ensures AsI32(U32(v)) == v <==> -0x8000_0000 <= v < 0x8000_0000
  {
  }

  /** What is read of the token at a place. */
  lemma {:induction false} TokenRead(s: string, i: nat)
    requires i <= |s|
    ensures TokenNumber(s, TokenOf(s, i)).Some? ==>
              var (e, v) := TokenNumber(s, TokenOf(s, i)).value; Atoi(s, i) == Read(U32(v), e)
    ensures TokenNumber(s, TokenOf(s, i)).None? ==> (Atoi(s, i).Read? <==> Mixed(s, i) || Empty(s, i))
    ensures TokenNumber(s, TokenOf(s, i)).Some? ==> !Mixed(s, i) && !Empty(s, i)
  {
    var t := TokenOf(s, i);
    if t.Numeral? {
      DigitsMeant(s, t.start, NumberEnd(s, t.start), t.r);
    }
  }

  /** The digits read are those meant, or the token is accepted without meaning a number, or it is
      neither. */
  lemma {:induction false} DigitsMeant(s: string, i: nat, e: nat, r: Radix)
    requires i <= e
    ensures AllDigits(Meaning(s, i, e, r)) ==> Reading(s, i, e, r) == Meaning(s, i, e, r)
    ensures AllDigits(Reading(s, i, e, r)) && !AllDigits(Meaning(s, i, e, r)) <==>
            r == 16 && (forall k :: i <= k < e ==> HexOrBetween(At(s, k))) &&
            (exists k :: i <= k < e && Between(At(s, k)))
  {
    var read, meant := Reading(s, i, e, r), Meaning(s, i, e, r);
    forall k | i <= k < e
      ensures read[k - i] == DigitOf(At(s, k), r) && meant[k - i] == MeantDigit(At(s, k), r)
      ensures read[k - i] == meant[k - i] <==> !(r == 16 && Between(At(s, k)))
      ensures r == 16 ==> (read[k - i] >= 0 <==> HexOrBetween(At(s, k)))
      ensures meant[k - i] >= 0 ==> !Between(At(s, k))
    {
      DigitMeant(At(s, k), r);
    }
    if AllDigits(meant) {
      assert read == meant;
    }
    if AllDigits(read) && !AllDigits(meant) {
      var j :| 0 <= j < |meant| && meant[j] < 0;
      assert read[j] >= 0 && Between(At(s, i + j));
    }
  }

  lemma {:induction false} OneDigit(d: int, r: Radix)
    ensures Value([d], r) == d
  {
    assert [d][..0] == [];
  }

  /** The shortest mixed token is read as ten. */
  lemma {:induction false} ColonReadsAsTen(s: string)
    requires s == "0x:"
    ensures Atoi(s, 0) == Read(10, 3) && forall e, v :: !Written(s, 0, e, v)
  {
    assert At(s, 0) == 0x30 && At(s, 1) == Code('x') && At(s, 2) == 0x3A && At(s, 3) == 0;
    assert SkipSpaces(s, 0) == 0 && NumberEnd(s, 3) == 3 && NumberEnd(s, 2) == 3;
    assert Reading(s, 2, 3, 16) == [10];
    OneDigit(10, 16);
    assert HexOrBetween(At(s, 2)) && Between(At(s, 2));
    AtoiMeant(s, 0);
  }

  /** A prefix alone is read as zero. */
  lemma {:induction false} PrefixReadsAsZero(s: string)
    requires s == "0x"
    ensures Atoi(s, 0) == Read(0, 2) && forall e, v :: !Written(s, 0, e, v)
  {
    assert At(s, 0) == 0x30 && At(s, 1) == Code('x') && At(s, 2) == 0;
    assert SkipSpaces(s, 0) == 0 && NumberEnd(s, 2) == 2;
    AtoiMeant(s, 0);
  }

  /** A hexadecimal digit with n zeros behind it. */
  lemma {:induction false} RaisedWritten(s: string, d: int, n: nat)
    requires |s| == n + 3 && At(s, 0) == Code('0') && At(s, 1) == Code('x')
    requires 1 <= d <= 9 && At(s, 2) == 0x30 + d && forall k :: 3 <= k < |s| ==> At(s, k) == 0x30
    ensures Written(s, 0, |s|, Raised(d, 16, n)) && Atoi(s, 0) == Read(U32(Raised(d, 16, n)), |s|)
  {
    var ds := Meaning(s, 2, |s|, 16);
    forall k | 0 <= k < |ds| ensures ds[k] == ([d] + seq(n, k => 0))[k] {
      assert ds[k] == MeantDigit(At(s, 2 + k), 16);
    }
    assert ds == [d] + seq(n, k => 0);
    Zeros([d], 16, n);
    OneDigit(d, 16);
    assert WrittenAs(s, 0, |s|, Raised(d, 16, n), 0, false, 2, 16);
    AtoiMeant(s, 0);
  }

  /** 2 to the 32 is read as zero. */
  lemma {:induction false} OverflowReadsAsZero(s: string)
    requires s == "0x100000000"
    ensures Written(s, 0, 11, 0x1_0000_0000) && Atoi(s, 0) == Read(0, 11)
  {
    RaisedWritten(s, 1, 8);
    assert Raised(1, 16, 8) == 0x1_0000_0000;
  }

  /** 2 to the 31 is read as its negative. */
  lemma {:induction false} WordReadsAsNegative(s: string)
    requires s == "0x80000000"
    ensures Written(s, 0, 10, 0x8000_0000)
    ensures Atoi(s, 0) == Read(0x8000_0000, 10) && AsI32(0x8000_0000) == -0x8000_0000
  {
    RaisedWritten(s, 8, 7);
    assert Raised(8, 16, 7) == 0x8000_0000;
  }

  lemma {:induction false} Zeros(ds: seq<int>, r: Radix, n: nat)
    ensures Value(ds + seq(n, k => 0), r) == Raised(Value(ds, r), r, n)
  {
    var zeros := seq(n, k => 0);
    if n == 0 {
      assert ds + zeros == ds;
    } else {
      assert (ds + zeros)[..|ds| + n - 1] == ds + seq(n - 1, k => 0);
      Zeros(ds, r, n - 1);
    }
  }

  /** x with n zeros behind it. */
  function Raised(x: int, r: Radix, n: nat): int { if n == 0 then x else Times(Raised(x, r, n - 1), r) }

  /** One more character of a number. */
  lemma {:induction false} NextDigit(s: string, start: nat, i: nat, e: nat, r: Radix)
    requires start <= i < e
    ensures var d, ds := DigitOf(At(s, i), r), Reading(s, start, i, r);
            && (d < 0 ==> !AllDigits(Reading(s, start, e, r)))
            && (d >= 0 && AllDigits(ds) ==> AllDigits(Reading(s, start, i + 1, r)))
            && U32(Value(Reading(s, start, i + 1, r), r)) == U32(Times(U32(Value(ds, r)), r) + d)
  {
    var d, ds := DigitOf(At(s, i), r), Reading(s, start, i, r);
    assert Reading(s, start, e, r)[i - start] == d;
    assert Reading(s, start, i + 1, r) == ds + [d];
    ValueSnoc(ds, d, r);
    WrapShift(Value(ds, r), d, r);
  }

  lemma WrapShift(x: int, d: int, r: Radix)
    ensures U32(Times(U32(x), r) + d) == U32(Times(x, r) + d)
  {
    var q := x / 0x1_0000_0000;
    assert x == q * 0x1_0000_0000 + U32(x);
    ModPlusMultiple(Times(U32(x), r) + d, Times(q, r), 0x1_0000_0000);
  }

  lemma WrapNegative(x: int)
    ensures U32(0 - U32(x)) == U32(-x)
  {
    var q, m: int := x / 0x1_0000_0000, U32(x);
    assert 0 - m == -x + q * 0x1_0000_0000;
    ModPlusMultiple(-x, q, 0x1_0000_0000);
  }

  /** The digit loop of xatoi: the digits of a token are folded into a 32-bit word. */
  method ReadDigits(s: string, start: nat, r: Radix) returns (ok: bool, val: u32, i: nat)
    requires start <= |s|
    ensures ok == AllDigits(Reading(s, start, NumberEnd(s, start), r))
    ensures ok ==> i == NumberEnd(s, start) && val == U32(Value(Reading(s, start, i, r), r))
  {
    val, i := 0, start;
    ghost var e := NumberEnd(s, start);
    while At(s, i) > 0x20
      invariant start <= i <= e && NumberEnd(s, i) == e
      invariant AllDigits(Reading(s, start, i, r)) && val == U32(Value(Reading(s, start, i, r), r))
      decreases e - i
    {
      var d := DigitOf(At(s, i), r);
      NextDigit(s, start, i, e, r);
      if d < 0 { return false, 0, i; }
      val := U32(Times(val, r) + d);
      i := i + 1;
    }
    return true, val, i;
  }

  /** The part of xatoi behind the sign: radix prefix, digits and sign. */
  method ReadUnsigned(s: string, start: nat, negative: bool) returns (p: Parse)
    requires start <= |s|
    ensures p == Unsigned(s, start, negative)
  {
    var i, r: Radix := start, 10;
    if At(s, i) == Code('0') {
      i := i + 1;
      if At(s, i) == Code('x') {
        r, i := 16, i + 1;
      } else if At(s, i) == Code('b') {
        r, i := 2, i + 1;
      } else {
        if At(s, i) <= 0x20 { return Read(0, i); }
        if !DecimalDigit(At(s, i)) { return Failed; }
        r := 8;
      }
    } else if !DecimalDigit(At(s, i)) {
      return Failed;
    }
    p := ReadSigned(s, i, r, negative);
  }

  method ReadSigned(s: string, start: nat, r: Radix, negative: bool) returns (p: Parse)
    requires start <= |s|
    ensures p == DigitsAt(s, start, r, negative)
  {
    var ok, word, i := ReadDigits(s, start, r);
    if !ok { return Failed; }
    WrapNegative(Value(Reading(s, start, i, r), r));
    var val: int := word;
    if negative { val := U32(0 - val); }
    p := Read(val, i);
  }

  /** xatoi: the result, or zero if the call fails. */
  method Xatoi(s: string, start: nat) returns (ok: bool, res: u32, next: nat)
    requires start <= |s|
    ensures ok == Atoi(s, start).Read?
    ensures if ok then Atoi(s, start) == Read(res, next) else res == 0
  {
    var i := start;
    while At(s, i) == 0x20
      invariant start <= i <= |s| && SkipSpaces(s, i) == SkipSpaces(s, start)
      decreases |s| - i
    {
      i := i + 1;
    }
    var negative := At(s, i) == Code('-');
    if negative { i := i + 1; }
    var p := ReadUnsigned(s, i, negative);
    match p {
      case Failed => ok, res, next := false, 0, i;
      case Read(value, j) => ok, res, next := true, value, j;
    }
  }
}

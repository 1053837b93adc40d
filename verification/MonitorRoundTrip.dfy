/** The formatter and the parser of src/monitor.c undo each other. */
module MonitorRoundTrip {
  import opened MachineInts
  import opened MonitorDigits
  import opened MonitorFormat
  import opened MonitorParse

  /** A printed numeral stands in s from i to e, and the number ends there. */
  ghost predicate NumeralAt(s: string, i: nat, e: nat, v: u32, r: Radix, lower: bool)
  {
    i <= e <= |s| && s[i..e] == Text(Digits(v, r, DIGIT_BUFFER), lower) && At(s, e) <= 0x20
  }

  lemma {:induction false} NumeralRead(s: string, i: nat, e: nat, v: u32, r: Radix, lower: bool, negative: bool)
    requires NumeralAt(s, i, e, v, r, lower)
    ensures var k := if r == 2 then v % 0x1_0000 else v;
            DigitsAt(s, i, r, negative) == Read(U32(if negative then -(k as int) else k), e)
  {
    TextNumber(s, i, e, Digits(v, r, DIGIT_BUFFER), lower, r, negative);
    DigitsKept(v, r);
  }

  lemma {:induction false} TextNumber(s: string, i: nat, e: nat, ds: seq<int>, lower: bool, r: Radix, negative: bool)
    requires forall k :: 0 <= k < |ds| ==> 0 <= ds[k] < r
    requires i <= e <= |s| && s[i..e] == Text(ds, lower) && At(s, e) <= 0x20
    ensures DigitsAt(s, i, r, negative) == Read(U32(if negative then -Value(ds, r) else Value(ds, r)), e)
  {
    TextRead(s, i, ds, lower, r);
    NumberEndsAt(s, i, e);
    AllRead(s, i, e, ds, r, negative);
  }

  lemma AllRead(s: string, i: nat, e: nat, ds: seq<int>, r: Radix, negative: bool)
    requires i <= e && i <= |s| && NumberEnd(s, i) == e && Reading(s, i, e, r) == ds && AllDigits(ds)
    ensures DigitsAt(s, i, r, negative) == Read(U32(if negative then -Value(ds, r) else Value(ds, r)), e)
  {
  }

  lemma {:induction false} DigitsKept(v: u32, r: Radix)
    ensures Value(Digits(v, r, DIGIT_BUFFER), r) == if r == 2 then v % 0x1_0000 else v
  {
    DigitsDenote(v, r, DIGIT_BUFFER);
    WordKept(v, r);
  }

  /** The first digit of a number that fits is zero for zero only. */
  lemma {:induction false} LeadingDigit(v: nat, r: Radix, cap: nat)
    requires 0 < v < Power(r, cap)
    ensures Digits(v, r, cap)[0] != 0
    decreases cap, v
  {
    if Over(v, r) != 0 { LeadingDigit(Over(v, r), r, cap - 1); }
  }

  /** The ways a number is printed for reading back: a decimal with any width padded by spaces on
      either side, or one of the prefixed radices. */
  datatype Form = Decimal(left: bool, width: u32) | Hex(lower: bool) | Octal | Binary

  /** The printed number without padding. */
  function Body(f: Form, v: u32): string
  {
    match f
    case Decimal(_, _) => NumberText(Size(v), 10, false, Negative(v))
    case Hex(lower) => "0x" + NumberText(v, 16, lower, false)
    case Octal => "0" + NumberText(v, 8, false, false)
    case Binary => "0b" + NumberText(v, 2, false, false)
  }

  function Side(left: bool): Padding { if left then LeftJustified else Spaces }

  function FormText(f: Form, v: u32): string
  {
    match f
    case Decimal(left, width) => Padded(Body(f, v), Side(left), width)
    case _ => Body(f, v)
  }

  /** What reading the number back gives: of a binary only the low half survives. */
  function Survives(f: Form, v: u32): u32 { if f == Binary then v % 0x1_0000 else v }

  /** The plain characters before a conversion are printed as they are. */
  lemma {:induction false} PrefixPrinted(prefix: string, fmt: string, args: seq<Arg>)
    requires forall k :: 0 <= k < |prefix| ==> prefix[k] != '%' && prefix[k] != '\n'
    requires Suits(fmt, args)
    ensures Suits(prefix + fmt, args) && Printed(prefix + fmt, args) == prefix + Printed(fmt, args)
    decreases |prefix|
  {
    if prefix == "" {
      assert prefix + fmt == fmt;
    } else {
      assert (prefix + fmt)[1..] == prefix[1..] + fmt;
      PrefixPrinted(prefix[1..], fmt, args);
      assert [prefix[0]] + prefix[1..] == prefix;
      Associative([prefix[0]], prefix[1..], Printed(fmt, args));
    }
  }

  /** A format that is one numeric conversion prints its item. */
  lemma {:induction false} ItemPrinted(f: string, v: u32)
    requires Parsed(f).rest == "" && Kind(Parsed(f).conv).Numeric?
    ensures Suits("%" + f, [Word(v)])
    ensures Printed("%" + f, [Word(v)]) == Item(Parsed(f), Word(v))
  {
    assert ("%" + f)[1..] == f;
    assert Printed("", [Word(v)][1..]) == "";
  }

  // ---- widths -----------------------------------------------------------------------------

  /** A width as it is written in a format; none for 0. */
  function WidthText(w: u32): string { if w == 0 then "" else Text(Digits(w, 10, DIGIT_BUFFER), false) }

  /** The digits of a format are read up to the first other character. */
  lemma {:induction false} WidthDigits(ds: seq<int>, w: u32, rest: string)
    requires forall k :: 0 <= k < |ds| ==> 0 <= ds[k] < 10
    requires rest != "" && !('0' <= rest[0] <= '9')
    ensures WidthOf(Text(ds, false) + rest, w) == (U32(Continued(w, ds)), rest)
    decreases |ds|
  {
    var f := Text(ds, false) + rest;
    if ds == [] {
      assert f == rest;
    } else {
      var next: u32 := U32(w * 10 + ds[0]);
      assert f[0] == DigitChar(ds[0], false) && f[1..] == Text(ds[1..], false) + rest;
      WidthDigits(ds[1..], next, rest);
      ContinuedWraps(w * 10 + ds[0], ds[1..]);
    }
  }

  /** A number to which digits are appended. */
  function Continued(w: int, ds: seq<int>): int
    decreases |ds|
  {
    if ds == [] then w else Continued(w * 10 + ds[0], ds[1..])
  }

  lemma {:induction false} ContinuedWraps(w: int, ds: seq<int>)
    ensures U32(Continued(U32(w), ds)) == U32(Continued(w, ds))
    decreases |ds|
  {
    if ds != [] {
      ContinuedWraps(U32(w) * 10 + ds[0], ds[1..]);
      ContinuedWraps(w * 10 + ds[0], ds[1..]);
      WrapShift(w, ds[0], 10);
    }
  }

  lemma {:induction false} ContinuedSnoc(w: int, ds: seq<int>, d: int)
    ensures Continued(w, ds + [d]) == Continued(w, ds) * 10 + d
    decreases |ds|
  {
    if ds == [] {
      assert [d][1..] == [] && ds + [d] == [d];
    } else {
      assert (ds + [d])[1..] == ds[1..] + [d];
      ContinuedSnoc(w * 10 + ds[0], ds[1..], d);
    }
  }

  lemma {:induction false} ContinuedValue(ds: seq<int>)
    ensures Continued(0, ds) == Value(ds, 10)
    decreases |ds|
  {
    if ds != [] {
      var n := |ds| - 1;
      ContinuedValue(ds[..n]);
      ContinuedSnoc(0, ds[..n], ds[n]);
      assert ds[..n] + [ds[n]] == ds;
    }
  }

  lemma {:induction false} WidthReadBack(w: u32)
    ensures WidthOf(Text(Digits(w, 10, DIGIT_BUFFER), false) + "d", 0) == (w, "d")
  {
    WidthDigits(Digits(w, 10, DIGIT_BUFFER), 0, "d");
    WidthValue(w);
  }

  lemma {:induction false} WidthValue(w: u32)
    ensures U32(Continued(0, Digits(w, 10, DIGIT_BUFFER))) == w
  {
    ContinuedValue(Digits(w, 10, DIGIT_BUFFER));
    DigitsKept(w, 10);
  }

  lemma {:induction false} WidthStart(w: u32)
    requires w > 0
    ensures var t := Text(Digits(w, 10, DIGIT_BUFFER), false); t[0] != '0' && t[0] != '-'
  {
    PowersSuffice(10);
    LeadingDigit(w, 10, DIGIT_BUFFER);
    NonZeroDigit(Digits(w, 10, DIGIT_BUFFER)[0]);
  }

  /** A written width is read as that width, and starts with neither a zero nor a minus sign. */
  lemma {:induction false} WidthWritten(w: u32)
    ensures var digits := WidthText(w) + "d"; digits[0] != '0' && digits[0] != '-' && WidthOf(digits, 0) == (w, "d")
  {
    if w == 0 {
      assert WidthText(w) + "d" == "d";
    } else {
      WidthReadBack(w);
      WidthStart(w);
    }
  }

  lemma NonZeroDigit(d: int)
    requires 0 < d < 10
    ensures DigitChar(d, false) != '0' && DigitChar(d, false) != '-'
  {
  }

  lemma {:induction false} WidthParsed(left: bool, w: u32)
    ensures Parsed((if left then "-" else "") + WidthText(w) + "d") == Directive(Side(left), w, 'd', "")
  {
    WidthWritten(w);
    var digits := WidthText(w) + "d";
    if left {
      assert "-" + WidthText(w) + "d" == "-" + digits && ("-" + digits)[1..] == digits;
    } else {
      assert "" + WidthText(w) + "d" == digits;
    }
  }

  // ---- the formats ------------------------------------------------------------------------

  /** Every format whose conversion is a decimal not padded by zeros prints the decimal form. */
  lemma {:induction false} DecimalPrints(f: string, v: u32)
    requires Parsed(f).conv == 'd' && Parsed(f).pad != Zeros && Parsed(f).rest == ""
    ensures Suits("%" + f, [Word(v)])
    ensures Printed("%" + f, [Word(v)]) == FormText(Decimal(Parsed(f).pad == LeftJustified, Parsed(f).width), v)
  {
    ItemPrinted(f, v);
  }

  /** What follows the percent sign. */
  function Conversion(f: Form): string
  {
    match f
    case Decimal(left, width) => (if left then "-" else "") + WidthText(width) + "d"
    case Hex(lower) => if lower then "x" else "X"
    case Octal => "o"
    case Binary => "b"
  }

  function Prefix(f: Form): string
  {
    match f
    case Decimal(_, _) => ""
    case Hex(_) => "0x"
    case Octal => "0"
    case Binary => "0b"
  }

  function FormatOf(f: Form): string { Prefix(f) + ("%" + Conversion(f)) }

  /** The formats "%d" with any width on either side, "0x%x", "0x%X", "0%o" and "0b%b" print the forms. */
  lemma {:induction false} FormatPrints(f: Form, v: u32)
    ensures Suits(FormatOf(f), [Word(v)]) && Printed(FormatOf(f), [Word(v)]) == FormText(f, v)
  {
    ItemText(f, v);
    PrefixPrinted(Prefix(f), "%" + Conversion(f), [Word(v)]);
  }

  lemma {:induction false} ItemText(f: Form, v: u32)
    ensures Suits("%" + Conversion(f), [Word(v)])
    ensures Prefix(f) + Printed("%" + Conversion(f), [Word(v)]) == FormText(f, v)
  {
    match f
    case Decimal(left, width) =>
      WidthParsed(left, width);
      DecimalPrints(Conversion(f), v);
      assert "" + FormText(f, v) == FormText(f, v);
    case Hex(lower) =>
      ItemPrinted(Conversion(f), v);
      NoPadding(NumberText(v, 16, lower, false));
    case Octal =>
      ItemPrinted(Conversion(f), v);
      NoPadding(NumberText(v, 8, false, false));
    case Binary =>
      ItemPrinted(Conversion(f), v);
      NoPadding(NumberText(v, 2, false, false));
  }

  lemma NoPadding(body: string)
    ensures Padded(body, Spaces, 0) == body
  {
  }

  /** The body of a form stands in s from i to e, and the number ends there. */
  ghost predicate BodyAt(s: string, i: nat, e: nat, f: Form, v: u32)
  {
    i <= e <= |s| && s[i..e] == Body(f, v) && At(s, e) <= 0x20
  }

  lemma {:induction false} PositiveRead(s: string, i: nat, e: nat, v: u32, r: Radix, lower: bool)
    requires NumeralAt(s, i, e, v, r, lower)
    ensures DigitsAt(s, i, r, false) == Read(if r == 2 then v % 0x1_0000 else v, e)
  {
    NumeralRead(s, i, e, v, r, lower, false);
  }

  lemma {:induction false} PrefixedRead(s: string, i: nat, e: nat, letter: char, v: u32, r: Radix, lower: bool)
    requires (letter == 'x' && r == 16) || (letter == 'b' && r == 2)
    requires i + 2 <= e <= |s| && s[i] == '0' && s[i + 1] == letter && NumeralAt(s, i + 2, e, v, r, lower)
    ensures At(s, i) == Code('0') && Unsigned(s, i, false) == Read(if r == 2 then v % 0x1_0000 else v, e)
  {
    PrefixedPlace(s, i, letter, r);
    PositiveRead(s, i + 2, e, v, r, lower);
  }

  lemma PrefixedPlace(s: string, i: nat, letter: char, r: Radix)
    requires (letter == 'x' && r == 16) || (letter == 'b' && r == 2)
    requires i + 2 <= |s| && s[i] == '0' && s[i + 1] == letter
    ensures At(s, i) == Code('0') && Unsigned(s, i, false) == DigitsAt(s, i + 2, r, false)
  {
  }

  lemma {:induction false} OctalRead(s: string, i: nat, e: nat, v: u32)
    requires i + 1 <= e <= |s| && s[i] == '0' && NumeralAt(s, i + 1, e, v, 8, false)
    ensures At(s, i) == Code('0') && Unsigned(s, i, false) == Read(v, e)
  {
    OctalPlace(s, i, e, v);
    PositiveRead(s, i + 1, e, v, 8, false);
  }

  lemma {:induction false} OctalPlace(s: string, i: nat, e: nat, v: u32)
    requires i + 1 <= e <= |s| && s[i] == '0' && NumeralAt(s, i + 1, e, v, 8, false)
    ensures At(s, i) == Code('0') && Unsigned(s, i, false) == DigitsAt(s, i + 1, 8, false)
  {
    OctalStart(s, i + 1, e, v);
    OctalDigits(s, i);
  }

  lemma {:induction false} OctalStart(s: string, i: nat, e: nat, v: u32)
    requires NumeralAt(s, i, e, v, 8, false)
    ensures DecimalDigit(At(s, i))
  {
    var d := Digits(v, 8, DIGIT_BUFFER)[0];
    assert s[i] == s[i..e][0] == DigitChar(d, false);
    DigitRead(d, false, 8);
  }

  lemma OctalDigits(s: string, i: nat)
    requires i < |s| && s[i] == '0' && i + 1 <= |s| && DecimalDigit(At(s, i + 1))
    ensures At(s, i) == Code('0') && Unsigned(s, i, false) == DigitsAt(s, i + 1, 8, false)
  {
  }

  lemma {:induction false} FormRead(s: string, i: nat, e: nat, f: Form, v: u32)
    requires BodyAt(s, i, e, f, v) && !f.Decimal?
    ensures At(s, i) == Code('0') && Unsigned(s, i, false) == Read(Survives(f, v), e)
  {
    var b := Body(f, v);
    assert s[i] == s[i..e][0] && s[i + 1] == s[i..e][1];
    match f {
      case Hex(lower) =>
        assert s[i + 2..e] == s[i..e][2..] == NumberText(v, 16, lower, false);
        PrefixedRead(s, i, e, 'x', v, 16, lower);
      case Octal =>
        assert s[i + 1..e] == s[i..e][1..] == NumberText(v, 8, false, false);
        OctalRead(s, i, e, v);
      case Binary =>
        assert s[i + 2..e] == s[i..e][2..] == NumberText(v, 2, false, false);
        PrefixedRead(s, i, e, 'b', v, 2, false);
    }
  }

  /** A printed decimal starts with a digit, which is zero for zero only. */
  lemma {:induction false} DecimalStart(s: string, i: nat, e: nat, v: u32)
    requires NumeralAt(s, i, e, v, 10, false)
    ensures i < e && DecimalDigit(At(s, i))
    ensures if v == 0 then At(s, i) == Code('0') && e == i + 1 else At(s, i) != Code('0')
  {
    var ds := Digits(v, 10, DIGIT_BUFFER);
    assert s[i] == s[i..e][0] == DigitChar(ds[0], false);
    DigitRead(ds[0], false, 10);
    if v != 0 {
      PowersSuffice(10);
      LeadingDigit(v, 10, DIGIT_BUFFER);
    }
  }

  lemma {:induction false} DecimalRead(s: string, i: nat, e: nat, v: u32, negative: bool)
    requires NumeralAt(s, i, e, v, 10, false)
    ensures DecimalDigit(At(s, i))
    ensures Unsigned(s, i, negative) == Read(U32(if negative then -(v as int) else v), e)
  {
    DecimalStart(s, i, e, v);
    if v != 0 { NumeralRead(s, i, e, v, 10, false, negative); }
  }

  lemma {:induction false} NegativeRead(s: string, i: nat, e: nat, v: u32)
    requires i + 1 <= e <= |s| && s[i] == '-' && NumeralAt(s, i + 1, e, Size(v), 10, false) && Negative(v)
    ensures Signed(s, i) == Read(v, e)
  {
    BehindSign(s, i);
    Negated(v);
    DecimalRead(s, i + 1, e, Size(v), true);
  }

  lemma BehindSign(s: string, i: nat)
    requires i < |s| && s[i] == '-'
    ensures Signed(s, i) == Unsigned(s, i + 1, true)
  {
  }

  lemma Negated(v: u32)
    requires Negative(v)
    ensures U32(-(Size(v) as int)) == v
  {
  }

  lemma {:induction false} BodyRead(s: string, i: nat, e: nat, f: Form, v: u32)
    requires BodyAt(s, i, e, f, v)
    ensures At(s, i) != 0x20 && Signed(s, i) == Read(Survives(f, v), e)
  {
    if !f.Decimal? {
      FormRead(s, i, e, f, v);
      NoSign(s, i);
    } else {
      DecimalBodyRead(s, i, e, f, v);
    }
  }

  lemma {:induction false} DecimalBodyRead(s: string, i: nat, e: nat, f: Form, v: u32)
    requires BodyAt(s, i, e, f, v) && f.Decimal?
    ensures At(s, i) != 0x20 && Signed(s, i) == Read(v, e)
  {
    if Negative(v) {
      NegativeBody(s, i, e, f, v);
      NegativeRead(s, i, e, v);
    } else {
      assert s[i..e] == Text(Digits(v, 10, DIGIT_BUFFER), false);
      DecimalRead(s, i, e, v, false);
      NoSign(s, i);
    }
  }

  /** A number that starts with a digit has no sign. */
  lemma NoSign(s: string, i: nat)
    requires i <= |s| && DecimalDigit(At(s, i))
    ensures At(s, i) != 0x20 && Signed(s, i) == Unsigned(s, i, false)
  {
  }

  lemma {:induction false} NegativeBody(s: string, i: nat, e: nat, f: Form, v: u32)
    requires BodyAt(s, i, e, f, v) && f.Decimal? && Negative(v)
    ensures i + 1 <= e && s[i] == '-' && NumeralAt(s, i + 1, e, Size(v), 10, false)
  {
    assert s[i] == s[i..e][0] == '-';
    assert s[i + 1..e] == s[i..e][1..] == Text(Digits(Size(v), 10, DIGIT_BUFFER), false);
  }

  /** Reading a printed number back, in whatever form it was printed and whatever spaces precede it. */
  lemma {:induction false} NumberReadBack(s: string, start: nat, i: nat, e: nat, f: Form, v: u32)
    requires start <= i && BodyAt(s, i, e, f, v)
    requires forall k :: start <= k < i ==> At(s, k) == 0x20
    ensures Atoi(s, start) == Read(Survives(f, v), e)
  {
    BodyRead(s, i, e, f, v);
    SpacesEnd(s, start, i);
  }

  // ---- several numbers --------------------------------------------------------------------

  datatype Number = Number(form: Form, value: u32)

  /** The texts of printed numbers. */
  function Texts(ns: seq<Number>): seq<string>
  {
    seq(|ns|, k requires 0 <= k < |ns| => FormText(ns[k].form, ns[k].value))
  }

  /** Texts one after the other, separated by spaces. */
  function Line(ts: seq<string>): string
    decreases |ts|, 0
  {
    if ts == [] then "" else ts[0] + Tail(ts[1..])
  }

  /** The further texts of a line, each behind a space. */
  function Tail(ts: seq<string>): string
    decreases |ts|, 1
  {
    if ts == [] then "" else " " + Line(ts)
  }

  /** The results of up to n calls of xatoi, each continuing where the last one stopped. */
  function ReadAll(s: string, i: nat, n: nat): seq<u32>
    requires i <= |s|
    decreases n
  {
    if n == 0 then []
    else
      match Atoi(s, i)
      case Failed => []
      case Read(value, next) => [value] + ReadAll(s, next, n - 1)
  }

  function Surviving(ns: seq<Number>): seq<u32>
  {
    if ns == [] then [] else [Survives(ns[0].form, ns[0].value)] + Surviving(ns[1..])
  }

  predicate AllSpaces(t: string) { forall k :: 0 <= k < |t| ==> t[k] == ' ' }

  lemma PaddedParts(body: string, left: bool, width: nat) returns (lead: string, trail: string)
    ensures Padded(body, Side(left), width) == lead + body + trail
    ensures AllSpaces(lead) && AllSpaces(trail)
  {
    var gap := Repeat(' ', width - |body|);
    if left {
      lead, trail := "", gap;
      assert "" + body == body;
    } else {
      lead, trail := gap, "";
      assert gap + body + "" == gap + body;
    }
  }

  /** A printed number is its body between spaces. */
  lemma FormParts(f: Form, v: u32) returns (lead: string, trail: string)
    ensures FormText(f, v) == lead + Body(f, v) + trail
    ensures AllSpaces(lead) && AllSpaces(trail)
  {
    if f.Decimal? {
      lead, trail := PaddedParts(Body(f, v), f.left, f.width);
    } else {
      lead, trail := "", "";
      assert "" + Body(f, v) + "" == Body(f, v);
    }
  }

  /** Nothing follows, or something behind a space. */
  predicate Apart(rest: string) { rest == "" || rest[0] == ' ' }

  lemma Cut(s: string, j: nat, lead: string, body: string, trail: string, rest: string)
    requires j <= |s| && s[j..] == lead + body + trail + rest && AllSpaces(lead) && AllSpaces(trail)
    ensures var a := j + |lead|;
            var e := a + |body|;
            var next := e + |trail|;
            && next <= |s| && s[a..e] == body && s[next..] == rest
            && (forall k :: j <= k < a ==> s[k] == ' ') && (forall k :: e <= k < next ==> s[k] == ' ')
  {
    var a := j + |lead|;
    var e := a + |body|;
    var next := e + |trail|;
    var t := lead + body + trail + rest;
    assert |s| - j == |t|;
    forall k | j <= k < |s| ensures s[k] == t[k - j] {
      assert s[k] == s[j..][k - j];
    }
    forall k | 0 <= k < |body| ensures s[a..e][k] == body[k] {
      assert s[a + k] == t[|lead| + k];
    }
    assert s[a..e] == body;
    forall k | 0 <= k < |rest| ensures s[next..][k] == rest[k] {
      assert s[next + k] == t[next - j + k];
    }
    assert s[next..] == rest;
  }

  /** xatoi undoes xsprintf: every 32-bit word printed in any of the forms, with any width on either
      side, is read back, a binary one modulo 2 to the 16 because no more digits fit the buffer. */
  lemma PrintThenParse(f: Form, v: u32)
    ensures var p := Atoi(FormText(f, v), 0); p.Read? && p.value == Survives(f, v)
  {
    var s, body := FormText(f, v), Body(f, v);
    var lead, trail := FormParts(f, v);
    var e := |lead| + |body|;
    assert s[|lead|..e] == body;
    assert e < |s| ==> s[e] == trail[0];
    NumberReadBack(s, 0, |lead|, e, f, v);
  }

  /** xsprintf followed by xatoi: every word comes back. */
  method PrintAndRead(console: Console, f: Form, v: u32) returns (ok: bool, res: u32)
    modifies console
    ensures ok && res == Survives(f, v) && console.out == old(console.out)
  {
    FormatPrints(f, v);
    PrintThenParse(f, v);
    var text := console.Xsprintf(FormatOf(f), [Word(v)]);
    var next;
    ok, res, next := Xatoi(text, 0);
  }

  /** Successive calls read successive numbers: whatever forms they were printed in, n calls on a line
      of n numbers return them in order. */
  lemma {:induction false} LineReadBack(s: string, i: nat, j: nat, ns: seq<Number>, ts: seq<string>)
    requires i <= j <= |s| && (forall k :: i <= k < j ==> s[k] == ' ') && s[j..] == Line(ts)
    requires ts == Texts(ns)
    ensures ReadAll(s, i, |ns|) == Surviving(ns)
    decreases |ns|, 1
  {
    if ns != [] {
      TextsTail(ns);
      var e, next := FirstReadBack(s, i, j, ns[0].form, ns[0].value, Tail(ts[1..]), |ns| - 1);
      RestReadBack(s, e, next, ns, ts);
      Joined(s, i, e, ns);
    }
  }

  /** What follows the first number. */
  lemma {:induction false} RestReadBack(s: string, e: nat, next: nat, ns: seq<Number>, ts: seq<string>)
    requires ns != [] && ts == Texts(ns) && e <= next <= |s| && (forall k :: e <= k < next ==> s[k] == ' ')
    requires s[next..] == Tail(ts[1..])
    ensures ReadAll(s, e, |ns| - 1) == Surviving(ns[1..])
    decreases |ns|, 0
  {
    TextsTail(ns);
    if |ns| > 1 {
      BehindSpace(s, e, next, Line(ts[1..]));
      LineReadBack(s, e, next + 1, ns[1..], ts[1..]);
    }
  }

  lemma Joined(s: string, i: nat, e: nat, ns: seq<Number>)
    requires ns != [] && i <= |s| && e <= |s| && ReadAll(s, e, |ns| - 1) == Surviving(ns[1..])
    requires ReadAll(s, i, |ns|) == [Survives(ns[0].form, ns[0].value)] + ReadAll(s, e, |ns| - 1)
    ensures ReadAll(s, i, |ns|) == Surviving(ns)
  {
  }

  lemma TextsTail(ns: seq<Number>)
    requires ns != []
    ensures Texts(ns)[0] == FormText(ns[0].form, ns[0].value) && Texts(ns)[1..] == Texts(ns[1..])
  {
    forall k | 0 <= k < |ns| - 1 ensures Texts(ns)[1..][k] == Texts(ns[1..])[k] {
      assert ns[1..][k] == ns[k + 1];
    }
  }

  lemma BehindSpace(s: string, e: nat, next: nat, t: string)
    requires e <= next <= |s| && (forall k :: e <= k < next ==> s[k] == ' ') && s[next..] == " " + t
    ensures next + 1 <= |s| && (forall k :: e <= k < next + 1 ==> s[k] == ' ') && s[next + 1..] == t
  {
    assert s[next] == s[next..][0] && s[next + 1..] == s[next..][1..];
  }

  /** One call reads the first number of what is left of a line. */
  lemma {:induction false} FirstReadBack(s: string, i: nat, j: nat, f: Form, v: u32, rest: string, n: nat)
    returns (e: nat, next: nat)
    requires i <= j <= |s| && (forall k :: i <= k < j ==> s[k] == ' ') && s[j..] == FormText(f, v) + rest && Apart(rest)
    ensures e <= next <= |s| && (forall k :: e <= k < next ==> s[k] == ' ') && s[next..] == rest
    ensures ReadAll(s, i, n + 1) == [Survives(f, v)] + ReadAll(s, e, n)
  {
    var lead, trail := FormParts(f, v);
    var body := Body(f, v);
    Cut(s, j, lead, body, trail, rest);
    e := j + |lead| + |body|;
    next := e + |trail|;
    assert next < |s| ==> s[next] == rest[0];
    NumberReadBack(s, i, j + |lead|, e, f, v);
  }
}

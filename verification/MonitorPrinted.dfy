/** What xsprintf prints, told by reading the printed text back: digits, padding, sign, strings and
    characters, for every flag, width and argument (src/monitor.c). */
module MonitorPrinted {
  import opened MachineInts
  import opened MonitorDigits
  import opened MonitorFormat
  import opened MonitorRoundTrip

  const LOWER := "0123456789abcdef"
  const UPPER := "0123456789ABCDEF"

  /** A text that spells a row of digits of radix r. */
  predicate Spells(t: string, ds: seq<int>, r: Radix, lower: bool)
  {
    |t| == |ds| && forall k :: 0 <= k < |t| ==> 0 <= ds[k] < r && t[k] == (if lower then LOWER else UPPER)[ds[k]]
  }

  /** The letters of the numeric conversions. */
  predicate Letter(conv: char, r: Radix)
  {
    || (r == 2 && (conv == 'b' || conv == 'B'))
    || (r == 8 && (conv == 'o' || conv == 'O'))
    || (r == 10 && (conv == 'd' || conv == 'D' || conv == 'u' || conv == 'U'))
    || (r == 16 && (conv == 'x' || conv == 'X'))
  }

  /** The letters to which a word is a signed number. */
  predicate Signed(conv: char) { conv == 'd' || conv == 'D' }

  predicate Flag(flag: string) { flag == "" || flag == "-" || flag == "0" }

  predicate SizePrefix(size: string) { size == "" || size == "l" || size == "L" }

  /** A format of one conversion. */
  function Format(flag: string, w: u32, size: string, conv: char): string
  {
    "%" + (flag + (WidthText(w) + (size + [conv])))
  }

  function Larger(a: int, b: int): int { if a > b then a else b }

  /** What is left of a word in the digit buffer. */
  function Shown(v: u32, r: Radix): nat { if r == 2 then v % 0x1_0000 else v }

  // ---- formats ----------------------------------------------------------------------------

  function PaddingOf(flag: string): Padding
  {
    if flag == "0" then Zeros else if flag == "-" then LeftJustified else Spaces
  }

  predicate Plainly(conv: char)
  {
    conv != 'l' && conv != 'L' && conv != '-' && conv != '\0' && !('0' <= conv <= '9')
  }

  lemma {:induction false} WidthThen(w: u32, rest: string)
    requires rest != "" && !('0' <= rest[0] <= '9') && rest[0] != '-'
    ensures WidthOf(WidthText(w) + rest, 0) == (w, rest)
    ensures (WidthText(w) + rest)[0] != '0' && (WidthText(w) + rest)[0] != '-'
  {
    if w == 0 {
      assert WidthText(w) + rest == rest;
    } else {
      WidthDigits(Digits(w, 10, DIGIT_BUFFER), 0, rest);
      WidthValue(w);
      WidthStart(w);
    }
  }

  lemma {:induction false} FormatParsed(flag: string, w: u32, size: string, conv: char, tail: string)
    requires Flag(flag) && SizePrefix(size) && Plainly(conv)
    ensures Parsed(flag + (WidthText(w) + (size + ([conv] + tail)))) == Directive(PaddingOf(flag), w, conv, tail)
  {
    var rest := size + ([conv] + tail);
    var g := WidthText(w) + rest;
    LastPart(size, conv, tail);
    WidthThen(w, rest);
    if flag == "" {
      assert flag + g == g;
    } else {
      assert (flag + g)[0] == flag[0] && (flag + g)[1..] == g;
    }
  }

  lemma LastPart(size: string, conv: char, tail: string)
    requires SizePrefix(size) && Plainly(conv)
    ensures var rest := size + ([conv] + tail);
            && rest != "" && !('0' <= rest[0] <= '9') && rest[0] != '-'
            && (size == "" ==> rest[0] == conv && rest[1..] == tail)
            && (size != "" ==> (rest[0] == 'l' || rest[0] == 'L') && rest[1..] == [conv] + tail &&
                               ([conv] + tail)[1..] == tail)
  {
  }

  lemma {:induction false} FormatPrinted(flag: string, w: u32, size: string, conv: char, arg: Arg)
    requires Flag(flag) && SizePrefix(size) && Plainly(conv)
    requires Takes(conv) && Fitting(Directive(PaddingOf(flag), w, conv, ""), arg)
    ensures Suits(Format(flag, w, size, conv), [arg])
    ensures Printed(Format(flag, w, size, conv), [arg]) == Item(Directive(PaddingOf(flag), w, conv, ""), arg)
  {
    var f := flag + (WidthText(w) + (size + [conv]));
    FormatParsed(flag, w, size, conv, "");
    assert [conv] + "" == [conv];
    assert ("%" + f)[0] == '%' && ("%" + f)[1..] == f;
    assert Printed("", [arg][1..]) == "";
  }

  // ---- numbers ----------------------------------------------------------------------------

  lemma DigitSpelled(d: int, lower: bool)
    requires 0 <= d < 16
    ensures DigitChar(d, lower) == (if lower then LOWER else UPPER)[d]
  {
  }

  lemma {:induction false} TextSpells(ds: seq<int>, r: Radix, lower: bool)
    requires forall k :: 0 <= k < |ds| ==> 0 <= ds[k] < r
    ensures Spells(Text(ds, lower), ds, r, lower)
  {
    forall k | 0 <= k < |ds| ensures Text(ds, lower)[k] == (if lower then LOWER else UPPER)[ds[k]] {
      DigitSpelled(ds[k], lower);
    }
  }

  lemma {:induction false} LeadingZeros(n: nat, ds: seq<int>, r: Radix)
    ensures Value(seq(n, k => 0) + ds, r) == Value(ds, r)
    decreases |ds|
  {
    var zeros := seq(n, k => 0);
    if ds == [] {
      assert zeros + ds == zeros;
      OnlyZeros(n, r);
    } else {
      var m := |ds| - 1;
      assert (zeros + ds)[..n + m] == zeros + ds[..m];
      LeadingZeros(n, ds[..m], r);
    }
  }

  lemma {:induction false} OnlyZeros(n: nat, r: Radix)
    ensures Value(seq(n, k => 0), r) == 0
  {
    if n != 0 {
      assert seq(n, k => 0)[..n - 1] == seq(n - 1, k => 0);
      OnlyZeros(n - 1, r);
    }
  }

  /** The digits of a word: no more than the buffer holds, none of them a superfluous zero. */
  lemma {:induction false} DigitsShown(v: u32, r: Radix)
    ensures var ds := Digits(v, r, DIGIT_BUFFER);
            && 1 <= |ds| <= 16 && Value(ds, r) == Shown(v, r)
            && (r != 2 || v < 0x1_0000 ==> if v == 0 then |ds| == 1 else ds[0] != 0)
  {
    DigitsKept(v, r);
    if v == 0 {
      assert Over(0, r) == 0;
    } else if r != 2 {
      PowersSuffice(r);
      LeadingDigit(v, r, DIGIT_BUFFER);
    } else if v < 0x1_0000 {
      assert Power(2, 8) == 0x100 && Power(2, 16) == 0x1_0000;
      LeadingDigit(v, r, DIGIT_BUFFER);
    }
  }

  /** With the flag for zeros an unsigned number fills its width with digits and nothing else: the text is
      as long as the width or longer, spells the word in the radix of the letter, and has no superfluous
      zero where it is longer than the width. */
  lemma {:induction false} ZeroPadded(w: u32, size: string, conv: char, r: Radix, v: u32) returns (ds: seq<int>)
    requires SizePrefix(size) && Letter(conv, r) && (Signed(conv) ==> v < 0x8000_0000)
    ensures Suits(Format("0", w, size, conv), [Word(v)])
    ensures var t := Printed(Format("0", w, size, conv), [Word(v)]);
            && Spells(t, ds, r, conv == 'x') && Value(ds, r) == Shown(v, r)
            && w <= |t| <= Larger(w, 16)
            && (|t| > w && (r != 2 || v < 0x1_0000) ==> |t| == 1 || ds[0] != 0)
  {
    UnsignedItem("0", w, size, conv, r, v);
    ds := ZeroFilledWord(Printed(Format("0", w, size, conv), [Word(v)]), w, r, v, conv == 'x');
  }

  lemma {:induction false} ZeroFilledWord(t: string, w: u32, r: Radix, v: u32, lower: bool) returns (ds: seq<int>)
    requires t == Padded(Text(Digits(v, r, DIGIT_BUFFER), lower), Zeros, w)
    ensures Spells(t, ds, r, lower) && Value(ds, r) == Shown(v, r) && w <= |t| <= Larger(w, 16)
    ensures |t| > w && (r != 2 || v < 0x1_0000) ==> |t| == 1 || ds[0] != 0
  {
    DigitsShown(v, r);
    ds := ZeroFilled(Digits(v, r, DIGIT_BUFFER), w, r, lower);
  }

  /** A number that prints without a sign. */
  lemma {:induction false} UnsignedItem(flag: string, w: u32, size: string, conv: char, r: Radix, v: u32)
    requires Flag(flag) && SizePrefix(size) && Letter(conv, r) && (Signed(conv) ==> v < 0x8000_0000)
    ensures Suits(Format(flag, w, size, conv), [Word(v)])
    ensures Printed(Format(flag, w, size, conv), [Word(v)]) ==
            Padded(Text(Digits(v, r, DIGIT_BUFFER), conv == 'x'), PaddingOf(flag), w)
  {
    LetterKind(conv, r);
    FormatPrinted(flag, w, size, conv, Word(v));
    var body := Text(Digits(v, r, DIGIT_BUFFER), conv == 'x');
    assert "" + body == body;
  }

  lemma LetterKind(conv: char, r: Radix)
    requires Letter(conv, r)
    ensures Kind(conv) == Numeric(r) && (Folded(conv) == 'D' <==> Signed(conv)) && Plainly(conv)
  {
  }

  lemma {:induction false} ZeroFilled(body: seq<int>, w: nat, r: Radix, lower: bool) returns (ds: seq<int>)
    requires forall k :: 0 <= k < |body| ==> 0 <= body[k] < r
    ensures var t := Padded(Text(body, lower), Zeros, w);
            Spells(t, ds, r, lower) && Value(ds, r) == Value(body, r) && |t| == Larger(w, |body|)
    ensures |ds| > w ==> ds == body
  {
    var n := if w > |body| then w - |body| else 0;
    var zeros := seq(n, k => 0);
    ds := zeros + body;
    LeadingZeros(n, body, r);
    TextSpells(body, r, lower);
    forall k | 0 <= k < n ensures Repeat('0', w - |body|)[k] == (if lower then LOWER else UPPER)[zeros[k]] {
    }
  }

  lemma {:induction false} NegativeItem(flag: string, w: u32, size: string, conv: char, v: u32)
    requires Flag(flag) && SizePrefix(size) && Signed(conv) && v >= 0x8000_0000
    ensures Suits(Format(flag, w, size, conv), [Word(v)])
    ensures Printed(Format(flag, w, size, conv), [Word(v)]) ==
            Padded("-" + Text(Digits(0x1_0000_0000 - v, 10, DIGIT_BUFFER), false), PaddingOf(flag), w)
  {
    LetterKind(conv, 10);
    FormatPrinted(flag, w, size, conv, Word(v));
  }

  /** With the flag for zeros a negative number has its zeros in front of the sign. */
  lemma {:induction false} NegativeZeroPadded(w: u32, size: string, conv: char, v: u32) returns (a: nat, ds: seq<int>)
    requires SizePrefix(size) && Signed(conv) && v >= 0x8000_0000
    ensures Suits(Format("0", w, size, conv), [Word(v)])
    ensures var t := Printed(Format("0", w, size, conv), [Word(v)]);
            && |ds| > 0 && |t| == a + 1 + |ds| == Larger(w, 1 + |ds|)
            && (forall k :: 0 <= k < a ==> t[k] == '0') && t[a] == '-' && Spells(t[a + 1..], ds, 10, false)
            && Value(ds, 10) == 0x1_0000_0000 - v && ds[0] != 0
  {
    NegativeItem("0", w, size, conv, v);
    a, ds := ZerosAndSign(Printed(Format("0", w, size, conv), [Word(v)]), w, 0x1_0000_0000 - v);
  }

  lemma {:induction false} ZerosAndSign(t: string, w: u32, m: u32) returns (a: nat, ds: seq<int>)
    requires m > 0 && t == Padded("-" + Text(Digits(m, 10, DIGIT_BUFFER), false), Zeros, w)
    ensures |ds| > 0 && |t| == a + 1 + |ds| == Larger(w, 1 + |ds|)
    ensures (forall k :: 0 <= k < a ==> t[k] == '0') && t[a] == '-' && Spells(t[a + 1..], ds, 10, false)
    ensures Value(ds, 10) == m && ds[0] != 0
  {
    ds := Digits(m, 10, DIGIT_BUFFER);
    DigitsShown(m, 10);
    TextSpells(ds, 10, false);
    a := ZerosBefore(t, Text(ds, false), ds, w);
  }

  lemma ZerosBefore(t: string, digits: string, ds: seq<int>, w: nat) returns (a: nat)
    requires t == Padded("-" + digits, Zeros, w) && Spells(digits, ds, 10, false)
    ensures |t| == a + 1 + |ds| == Larger(w, 1 + |ds|)
    ensures (forall k :: 0 <= k < a ==> t[k] == '0') && t[a] == '-' && Spells(t[a + 1..], ds, 10, false)
  {
    a := if w > 1 + |digits| then w - 1 - |digits| else 0;
    var body := "-" + digits;
    assert t == Repeat('0', a) + body;
    assert t[a] == body[0] && t[a + 1..] == body[1..] == digits;
  }

  /** Without that flag a number stands between spaces: in front of it without a flag, behind it with the
      flag for the left side, and only as many as the width asks for. */
  lemma {:induction false} NumberPrinted(flag: string, w: u32, size: string, conv: char, r: Radix, v: u32)
    returns (a: nat, ds: seq<int>)
    requires (flag == "" || flag == "-") && SizePrefix(size) && Letter(conv, r)
    ensures Suits(Format(flag, w, size, conv), [Word(v)])
    ensures var negative := Signed(conv) && v >= 0x8000_0000;
            && InSpaces(Printed(Format(flag, w, size, conv), [Word(v)]), a, ds, w, r, negative, conv == 'x',
                        flag == "-")
            && Value(ds, r) == Shown(if negative then 0x1_0000_0000 - v else v, r)
            && (r != 2 || v < 0x1_0000 ==> |ds| == 1 || ds[0] != 0)
  {
    if Signed(conv) && v >= 0x8000_0000 {
      NegativeItem(flag, w, size, conv, v);
      a, ds := SpacedWord(Printed(Format(flag, w, size, conv), [Word(v)]), flag == "-", w, r, 0x1_0000_0000 - v,
                          true, conv == 'x');
    } else {
      UnsignedItem(flag, w, size, conv, r, v);
      a, ds := SpacedWord(Printed(Format(flag, w, size, conv), [Word(v)]), flag == "-", w, r, v, false, conv == 'x');
    }
  }

  lemma {:induction false} SpacedWord(t: string, left: bool, w: u32, r: Radix, m: u32, negative: bool, lower: bool)
    returns (a: nat, ds: seq<int>)
    requires var digits := Text(Digits(m, r, DIGIT_BUFFER), lower);
             t == Padded(if negative then "-" + digits else digits, if left then LeftJustified else Spaces, w)
    ensures InSpaces(t, a, ds, w, r, negative, lower, left) && Value(ds, r) == Shown(m, r)
    ensures r != 2 || m < 0x1_0000 ==> |ds| == 1 || ds[0] != 0
  {
    ds := Digits(m, r, DIGIT_BUFFER);
    DigitsShown(m, r);
    TextSpells(ds, r, lower);
    a := SpacedDigits(t, Text(ds, lower), left, w, r, ds, negative, lower);
  }

  /** The digits ds, behind a sign if the number is negative, stand in t at a, and spaces around them fill the
      width w and nothing more: on the right side if the number is to stand on the left, else on the left. */
  predicate InSpaces(t: string, a: nat, ds: seq<int>, w: nat, r: Radix, negative: bool, lower: bool, left: bool)
  {
    var b := if negative then a + 1 else a;
    && |ds| > 0 && |t| == Larger(w, b - a + |ds|) && b + |ds| <= |t| && (negative ==> t[a] == '-')
    && Spells(t[b..b + |ds|], ds, r, lower)
    && (forall k :: 0 <= k < |t| && !(a <= k < b + |ds|) ==> t[k] == ' ')
    && (if left then a == 0 else b + |ds| == |t|)
  }

  lemma {:induction false} SpacedDigits(t: string, digits: string, left: bool, w: u32, r: Radix, ds: seq<int>,
                                        negative: bool, lower: bool) returns (a: nat)
    requires digits != "" && Spells(digits, ds, r, lower)
    requires t == Padded(if negative then "-" + digits else digits, if left then LeftJustified else Spaces, w)
    ensures InSpaces(t, a, ds, w, r, negative, lower, left)
  {
    if negative {
      a := Between(t, "-" + digits, left, w);
      Behind(t, a, "-", digits);
    } else {
      a := Between(t, digits, left, w);
    }
  }

  lemma Between(t: string, body: string, left: bool, w: nat) returns (a: nat)
    requires t == Padded(body, if left then LeftJustified else Spaces, w)
    ensures |t| == Larger(w, |body|) && a + |body| <= |t| && t[a..a + |body|] == body
    ensures forall k :: 0 <= k < |t| && !(a <= k < a + |body|) ==> t[k] == ' '
    ensures if left then a == 0 else a + |body| == |t|
  {
    a := if !left && w > |body| then w - |body| else 0;
  }

  lemma Behind(t: string, a: nat, sign: string, digits: string)
    requires |sign| == 1 && a + 1 + |digits| <= |t| && t[a..a + |sign + digits|] == sign + digits
    ensures t[a] == sign[0] && t[a + 1..a + 1 + |digits|] == digits
  {
    var body := sign + digits;
    assert t[a] == t[a..a + |body|][0];
    assert t[a + 1..a + 1 + |digits|] == t[a..a + |body|][1..] == body[1..];
  }

  // ---- strings and characters -------------------------------------------------------------

  /** A text with the carriage returns taken out that stand before line feeds. */
  function Unreturned(t: string): string
    decreases |t|
  {
    if t == "" then ""
    else if |t| > 1 && t[0] == '\r' && t[1] == '\n' then "\n" + Unreturned(t[2..])
    else [t[0]] + Unreturned(t[1..])
  }

  lemma {:induction false} PutsUndone(t: string)
    ensures Unreturned(Puts(t)) == t
    ensures t != "" ==> Puts(t) != "" && Puts(t)[0] != '\n'
    decreases |t|
  {
    if t != "" {
      var rest := Puts(t[1..]);
      PutsUndone(t[1..]);
      if t[0] == '\n' {
        assert Puts(t) == "\r\n" + rest && ("\r\n" + rest)[2..] == rest;
      } else {
        assert Puts(t) == [t[0]] + rest && ([t[0]] + rest)[1..] == rest;
      }
      assert [t[0]] + t[1..] == t;
    }
  }

  /** A string is printed between spaces that fill its width, every line feed behind a carriage return. */
  lemma {:induction false} StringPrinted(flag: string, w: u32, size: string, conv: char, t: string)
    returns (a: nat, e: nat)
    requires Flag(flag) && SizePrefix(size) && (conv == 's' || conv == 'S')
    ensures Suits(Format(flag, w, size, conv), [Str(t)])
    ensures var p := Printed(Format(flag, w, size, conv), [Str(t)]);
            && a <= e <= |p| && Unreturned(p[a..e]) == t
            && (forall k :: 0 <= k < |p| && !(a <= k < e) ==> p[k] == ' ')
            && a + (|p| - e) == Larger(w - |t|, 0) && (if flag == "-" then a == 0 else e == |p|)
  {
    assert Kind(conv) == Textual;
    FormatPrinted(flag, w, size, conv, Str(t));
    PutsUndone(t);
    a, e := TextBetween(Printed(Format(flag, w, size, conv), [Str(t)]), flag, w, t);
  }

  lemma TextBetween(p: string, flag: string, w: nat, t: string) returns (a: nat, e: nat)
    requires Flag(flag) && p == TextField(t, PaddingOf(flag), w)
    ensures a <= e <= |p| && p[a..e] == Puts(t)
    ensures forall k :: 0 <= k < |p| && !(a <= k < e) ==> p[k] == ' '
    ensures a + (|p| - e) == Larger(w - |t|, 0) && (if flag == "-" then a == 0 else e == |p|)
  {
    a := if flag == "-" then 0 else Larger(w - |t|, 0);
    e := a + |Puts(t)|;
  }

  /** A character is printed as it is, a line feed behind a carriage return; flag and width do not count. */
  lemma {:induction false} CharacterPrinted(flag: string, w: u32, size: string, conv: char, v: u32)
    requires Flag(flag) && SizePrefix(size) && (conv == 'c' || conv == 'C')
    ensures Suits(Format(flag, w, size, conv), [Word(v)])
    ensures Unreturned(Printed(Format(flag, w, size, conv), [Word(v)])) == [(v % 0x100) as char]
  {
    assert Kind(conv) == Character;
    FormatPrinted(flag, w, size, conv, Word(v));
    var c := (v % 0x100) as char;
    assert Unreturned("") == "";
    if c == '\n' {
      assert "\r\n"[2..] == "";
    } else {
      assert [c][1..] == "";
    }
  }

  // ---- longer formats -----------------------------------------------------------------------

  /** A format is printed piece by piece, each conversion with its own argument: the plain text before a
      conversion as it is, except for line feeds, then the conversion, then what is behind it. */
  lemma {:induction false} InRow(plain: string, flag: string, w: u32, size: string, conv: char, tail: string,
                                 arg: Arg, args: seq<Arg>) returns (front: string)
    requires '%' !in plain && Flag(flag) && SizePrefix(size) && Plainly(conv)
    requires Suits(Format(flag, w, size, conv), [arg]) && Takes(conv) && Suits(tail, args)
    ensures Suits(plain + (Format(flag, w, size, conv) + tail), [arg] + args) && Unreturned(front) == plain
    ensures Printed(plain + (Format(flag, w, size, conv) + tail), [arg] + args) ==
            front + (Printed(Format(flag, w, size, conv), [arg]) + Printed(tail, args))
  {
    front := Puts(plain);
    PutsUndone(plain);
    FirstInRow(flag, w, size, conv, tail, arg, args);
    PlainFirst(plain, Format(flag, w, size, conv) + tail, [arg] + args);
  }

  lemma {:induction false} FirstInRow(flag: string, w: u32, size: string, conv: char, tail: string, arg: Arg,
                                      args: seq<Arg>)
    requires Flag(flag) && SizePrefix(size) && Plainly(conv) && Takes(conv)
    requires Suits(Format(flag, w, size, conv), [arg]) && Suits(tail, args)
    ensures Suits(Format(flag, w, size, conv) + tail, [arg] + args)
    ensures Printed(Format(flag, w, size, conv) + tail, [arg] + args) ==
            Printed(Format(flag, w, size, conv), [arg]) + Printed(tail, args)
  {
    FormatFits(flag, w, size, conv, arg);
    FormatPrinted(flag, w, size, conv, arg);
    FormatParsed(flag, w, size, conv, tail);
    var f := flag + (WidthText(w) + (size + ([conv] + tail)));
    Regroup(flag, WidthText(w), size, [conv], tail);
    assert ("%" + f)[0] == '%' && ("%" + f)[1..] == f;
    assert ([arg] + args)[1..] == args;
  }

  lemma Regroup(a: string, b: string, c: string, d: string, e: string)
    ensures "%" + (a + (b + (c + d))) + e == "%" + (a + (b + (c + (d + e))))
  {
  }

  lemma {:induction false} FormatFits(flag: string, w: u32, size: string, conv: char, arg: Arg)
    requires Flag(flag) && SizePrefix(size) && Plainly(conv) && Takes(conv)
    requires Suits(Format(flag, w, size, conv), [arg])
    ensures Fitting(Directive(PaddingOf(flag), w, conv, ""), arg)
  {
    var f := flag + (WidthText(w) + (size + [conv]));
    FormatParsed(flag, w, size, conv, "");
    assert [conv] + "" == [conv];
    assert ("%" + f)[0] == '%' && ("%" + f)[1..] == f;
  }

  lemma {:induction false} PlainFirst(plain: string, fmt: string, args: seq<Arg>)
    requires '%' !in plain && Suits(fmt, args)
    ensures Suits(plain + fmt, args) && Printed(plain + fmt, args) == Puts(plain) + Printed(fmt, args)
    decreases |plain|
  {
    if plain == "" {
      assert plain + fmt == fmt;
    } else {
      assert plain[0] in plain;
      assert (plain + fmt)[1..] == plain[1..] + fmt;
      PlainFirst(plain[1..], fmt, args);
      Associative(Put(plain[0]), Puts(plain[1..]), Printed(fmt, args));
    }
  }
}

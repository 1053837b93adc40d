/** Model of the console formatter of src/monitor.c: xvprintf, xsprintf and the output functions. */
module MonitorFormat {
  import opened MachineInts
  import opened MonitorDigits

  datatype Padding = Spaces | Zeros | LeftJustified

  function Repeat(c: char, n: int): (t: string)
    ensures |t| == if n > 0 then n else 0
  {
    seq(if n > 0 then n else 0, k => c)
  }

  /** A text brought to a minimum width. */
  function Padded(body: string, pad: Padding, width: nat): string
  {
    match pad
    case Spaces => Repeat(' ', width - |body|) + body
    case Zeros => Repeat('0', width - |body|) + body
    case LeftJustified => body + Repeat(' ', width - |body|)
  }

  /** A number as the formatter prints it. */
  function NumberText(v: u32, r: Radix, lower: bool, minus: bool): string
  {
    (if minus then "-" else "") + Text(Digits(v, r, DIGIT_BUFFER), lower)
  }

  function Backward(t: string): (b: string)
    ensures |b| == |t|
  {
    if t == "" then "" else [t[|t| - 1]] + Backward(t[..|t| - 1])
  }

  lemma {:induction false} BackwardSnoc(t: string, c: char)
    ensures Backward(t + [c]) == [c] + Backward(t)
  {
    assert (t + [c])[..|t|] == t;
  }

  /** A number below r to the n has at most n digits. */
  lemma {:induction false} FewDigits(v: nat, r: Radix, cap: nat, n: nat)
    requires n > 0 && v < Power(r, n)
    ensures |Digits(v, r, cap)| <= n
    decreases cap, v
  {
    if cap != 0 && Over(v, r) != 0 {
      FewDigits(Over(v, r), r, cap - 1, n - 1);
    }
  }

  lemma {:induction false} TenDigits(v: u32)
    ensures |Digits(v, 10, DIGIT_BUFFER)| <= 10
  {
    assert Power(10, 5) == 100000;
    assert Power(10, 10) == 10000000000;
    FewDigits(v, 10, DIGIT_BUFFER, 10);
  }

  /** One turn of the digit loop: the last digit moves from the digits ahead to those stored. */
  lemma {:induction false} NextDigit(v: nat, r: Radix, cap: nat, lower: bool, goal: string, done: string)
    returns (stored: string, ahead: string)
    requires cap > 0 && goal == Text(Digits(v, r, cap), lower) + Backward(done)
    ensures stored == done + [DigitChar(Rest(v, r), lower)]
    ensures ahead == if Over(v, r) != 0 && cap > 1 then Text(Digits(Over(v, r), r, cap - 1), lower) else ""
    ensures goal == ahead + Backward(stored)
  {
    var d := Rest(v, r);
    var head := if Over(v, r) == 0 then [] else Digits(Over(v, r), r, cap - 1);
    stored, ahead := done + [DigitChar(d, lower)], Text(head, lower);
    BackwardSnoc(done, DigitChar(d, lower));
    TextSnoc(head, d, lower);
    Associative(ahead, [DigitChar(d, lower)], Backward(done));
  }

  lemma TextSnoc(ds: seq<int>, d: int, lower: bool)
    requires 0 <= d < 16 && forall k :: 0 <= k < |ds| ==> 0 <= ds[k] < 16
    ensures Text(ds + [d], lower) == Text(ds, lower) + [DigitChar(d, lower)]
  {
  }

  /** The console: the text of the destination that is switched on, the device or a buffer. */
  class Console {
    var out: string

    constructor ()
      ensures out == ""
    {
      out := "";
    }

    /** xputc: a line feed is preceded by a carriage return. */
    method Putc(c: char)
      modifies this
      ensures out == old(out) + Put(c)
    {
      if c == '\n' { out := out + ['\r']; }
      out := out + [c];
    }

    method PutRepeated(c: char, n: int)
      requires c != '\n'
      modifies this
      ensures out == old(out) + Repeat(c, n)
    {
      var j := 0;
      while j < n
        invariant 0 <= j && (n >= 0 ==> j <= n) && (n < 0 ==> j == 0)
        invariant out == old(out) + Repeat(c, j)
      {
        Putc(c);
        assert Repeat(c, j + 1) == Repeat(c, j) + [c];
        j := j + 1;
      }
    }

    /** The numeral branch of xvprintf: digits are produced backward into a small buffer, then printed
        from its end between the padding. */
    method PutNumber(word: u32, r: Radix, lower: bool, minus: bool, pad: Padding, width: nat)
      requires minus ==> r == 10
      modifies this
      ensures out == old(out) + Padded(NumberText(word, r, lower, minus), pad, width)
    {
      var s := new char[DIGIT_BUFFER];
      var i := FillBuffer(s, word, r, lower, minus);
      NumberIsPlain(word, r, lower, minus);
      PutPadded(s, i, pad, width, NumberText(word, r, lower, minus));
    }

    method PutPadded(s: array<char>, n: nat, pad: Padding, width: nat, ghost body: string)
      requires n <= s.Length && Backward(s[..n]) == body && Plain(body)
      modifies this
      ensures out == old(out) + Padded(body, pad, width)
    {
      ghost var start, gap := out, Repeat(if pad == Zeros then '0' else ' ', width - |body|);
      if pad != LeftJustified {
        PutRepeated(if pad == Zeros then '0' else ' ', width - n);
        PutBackward(s, n, body);
        Associative(start, gap, body);
      } else {
        PutBackward(s, n, body);
        PutRepeated(' ', width - n);
        Associative(start, body, gap);
      }
    }

    /** Digits and sign, which never take more than the sixteen places. */
    static method FillBuffer(s: array<char>, word: u32, r: Radix, lower: bool, minus: bool) returns (i: nat)
      requires s.Length == DIGIT_BUFFER && (minus ==> r == 10)
      modifies s
      ensures i <= DIGIT_BUFFER && Backward(s[..i]) == NumberText(word, r, lower, minus)
    {
      i := FillDigits(s, word, r, lower);
      if minus {
        TenDigits(word);
        BackwardSnoc(s[..i], '-');
        StoreChar(s, i, '-');
        i := i + 1;
      }
    }

    /** The digit loop; it stops when the number or the sixteen places are used up. */
    static method FillDigits(s: array<char>, word: u32, r: Radix, lower: bool) returns (i: nat)
      requires s.Length == DIGIT_BUFFER
      modifies s
      ensures i <= DIGIT_BUFFER && Backward(s[..i]) == Text(Digits(word, r, DIGIT_BUFFER), lower)
    {
      var v: nat := word;
      ghost var goal := Text(Digits(word, r, DIGIT_BUFFER), lower);
      ghost var done, ahead := "", goal;
      i := 0;
      var more := true;
      while more
        invariant 0 <= i <= DIGIT_BUFFER && (more ==> i < DIGIT_BUFFER)
        invariant s[..i] == done
        invariant goal == ahead + Backward(done)
        invariant ahead == if more then Text(Digits(v, r, DIGIT_BUFFER - i), lower) else ""
        decreases DIGIT_BUFFER - i
      {
        var d := DigitChar(Rest(v, r), lower);
        StoreChar(s, i, d);
        done, ahead := NextDigit(v, r, DIGIT_BUFFER - i, lower, goal, done);
        v := Over(v, r);
        i := i + 1;
        more := v != 0 && i < DIGIT_BUFFER;
      }
    }

    static method StoreChar(s: array<char>, i: nat, c: char)
      requires i < s.Length
      modifies s
      ensures s[..i + 1] == old(s[..i]) + [c]
    {
      s[i] := c;
    }

    method PutBackward(s: array<char>, n: nat, ghost body: string)
      requires n <= s.Length && Backward(s[..n]) == body && Plain(body)
      modifies this
      ensures out == old(out) + body
    {
      var i := n;
      ghost var done := "";
      while i != 0
        invariant 0 <= i <= n
        invariant body == done + Backward(s[..i])
        invariant out == old(out) + done
      {
        i := i - 1;
        assert s[..i + 1][..i] == s[..i];
        assert body[|done|] == s[i];
        Putc(s[i]);
        done := done + [s[i]];
      }
    }

    /** xputs. */
    method PutString(t: string)
      modifies this
      ensures out == old(out) + Puts(t)
    {
      var k := 0;
      while k < |t|
        invariant 0 <= k <= |t|
        invariant out + Puts(t[k..]) == old(out) + Puts(t)
      {
        assert t[k..][1..] == t[k + 1..];
        Putc(t[k]);
        k := k + 1;
      }
    }

    /** The string branch of xvprintf; the width counts the characters of the string. */
    method PutText(t: string, pad: Padding, width: nat)
      modifies this
      ensures out == old(out) + TextField(t, pad, width)
    {
      ghost var start, gap := out, Repeat(' ', width - |t|);
      if pad != LeftJustified {
        PutRepeated(' ', width - |t|);
        PutString(t);
        Associative(start, gap, Puts(t));
      } else {
        PutString(t);
        PutRepeated(' ', width - |t|);
        Associative(start, Puts(t), gap);
      }
    }

    method PutField(d: Directive, r: Radix, word: u32)
      requires Folded(d.conv) == 'D' ==> r == 10
      modifies this
      ensures out == old(out) + NumberField(d, r, word)
    {
      if Folded(d.conv) == 'D' && word >= 0x8000_0000 {
        var v: int := word;
        v := U32(0 - v);
        PutNumber(v, r, d.conv == 'x', true, d.pad, d.width);
      } else {
        PutNumber(word, r, d.conv == 'x', false, d.pad, d.width);
      }
    }

    /** One conversion. */
    method PutItem(d: Directive, arg: Arg)
      requires Fitting(d, arg)
      modifies this
      ensures out == old(out) + Item(d, arg)
    {
      match Kind(d.conv) {
        case Numeric(r) => PutField(d, r, arg.word);
        case Textual => PutText(arg.text, d.pad, d.width);
        case Character => Putc((arg.word % 0x100) as char);
        case Other => Putc(d.conv);
      }
    }

    /** xvprintf: the format is read from left to right, and each conversion takes one argument. */
    method Xvprintf(fmt: string, args: seq<Arg>)
      requires Suits(fmt, args)
      modifies this
      ensures out == old(out) + Printed(fmt, args)
    {
      var rest, left := fmt, args;
      ghost var done := "";
      while rest != ""
        invariant Suits(rest, left)
        invariant Printed(fmt, args) == done + Printed(rest, left)
        invariant out == old(out) + done
        decreases |rest|
      {
        if rest[0] != '%' {
          Associative(done, Put(rest[0]), Printed(rest[1..], left));
          Associative(old(out), done, Put(rest[0]));
          Putc(rest[0]);
          done, rest := done + Put(rest[0]), rest[1..];
        } else {
          var d := Parsed(rest[1..]);
          if d.conv == '\0' {
            return;
          }
          var arg := if Takes(d.conv) then left[0] else Word(0);
          ghost var item, next := Item(d, arg), if Takes(d.conv) then left[1..] else left;
          Associative(done, item, Printed(d.rest, next));
          Associative(old(out), done, item);
          PutItem(d, arg);
          done, rest, left := done + item, d.rest, if Takes(d.conv) then left[1..] else left;
        }
      }
    }

    /** xsprintf switches the output to a buffer and back. */
    method Xsprintf(fmt: string, args: seq<Arg>) returns (buff: string)
      requires Suits(fmt, args)
      modifies this
      ensures buff == Printed(fmt, args) && out == old(out)
    {
      var device := out;
      out := "";
      Xvprintf(fmt, args);
      buff := out;
      out := device;
    }
  }

  // ---- formats ----------------------------------------------------------------------------

  datatype Arg = Word(word: u32) | Str(text: string)

  /** A conversion: its padding, its minimum width, its letter, and the format behind it. A format
      that ends inside a conversion has the letter zero. */
  datatype Directive = Directive(pad: Padding, width: u32, conv: char, rest: string)

  datatype Conversion = Numeric(r: Radix) | Textual | Character | Other

  function Folded(c: char): char { if c >= 'a' && c as int < 0x100 then (c as int - 0x20) as char else c }

  function Kind(c: char): Conversion
  {
    match Folded(c)
    case 'S' => Textual
    case 'C' => Character
    case 'B' => Numeric(2)
    case 'O' => Numeric(8)
    case 'D' => Numeric(10)
    case 'U' => Numeric(10)
    case 'X' => Numeric(16)
    case _ => Other
  }

  predicate Takes(c: char) { Kind(c) != Other }

  predicate Fitting(d: Directive, arg: Arg)
  {
    Takes(d.conv) ==> if Kind(d.conv) == Textual then arg.Str? else arg.Word?
  }

  /** The leading digits of a format as a width, and what follows them. */
  function WidthOf(f: string, w: u32): (r: (u32, string))
    ensures |r.1| <= |f|
  {
    if f == "" || !('0' <= f[0] <= '9') then (w, f) else WidthOf(f[1..], U32(w * 10 + f[0] as int - '0' as int))
  }

  /** Flag, width, size prefix and letter of the conversion behind a percent sign. */
  function Parsed(f: string): (d: Directive)
    ensures |d.rest| <= |f|
  {
    var pad := if f != "" && f[0] == '0' then Zeros else if f != "" && f[0] == '-' then LeftJustified else Spaces;
    var (width, g) := WidthOf(if pad == Spaces then f else f[1..], 0);
    var h := if g != "" && (g[0] == 'l' || g[0] == 'L') then g[1..] else g;
    if h == "" then Directive(pad, width, '\0', "") else Directive(pad, width, h[0], h[1..])
  }

  function TextField(t: string, pad: Padding, width: nat): string
  {
    if pad == LeftJustified then Puts(t) + Repeat(' ', width - |t|) else Repeat(' ', width - |t|) + Puts(t)
  }

  /** A word read as a signed number: its sign and its magnitude. */
  predicate Negative(v: u32) { v >= 0x8000_0000 }

  function Size(v: u32): u32 { if Negative(v) then 0x1_0000_0000 - v else v }

  /** A numeric conversion; a word with its top bit set is negative to 'd' only. */
  function NumberField(d: Directive, r: Radix, word: u32): string
  {
    if Folded(d.conv) == 'D' && Negative(word)
    then Padded(NumberText(Size(word), r, d.conv == 'x', true), d.pad, d.width)
    else Padded(NumberText(word, r, d.conv == 'x', false), d.pad, d.width)
  }

  /** What one conversion prints. */
  function Item(d: Directive, arg: Arg): string
    requires Fitting(d, arg)
  {
    match Kind(d.conv)
    case Numeric(r) => NumberField(d, r, arg.word)
    case Textual => TextField(arg.text, d.pad, d.width)
    case Character => Put((arg.word % 0x100) as char)
    case Other => Put(d.conv)
  }

  /** The arguments are those that the format asks for. */
  predicate Suits(fmt: string, args: seq<Arg>)
    decreases |fmt|
  {
    if fmt == "" then true
    else if fmt[0] != '%' then Suits(fmt[1..], args)
    else
      var d := Parsed(fmt[1..]);
      if d.conv == '\0' then true
      else if Takes(d.conv) then args != [] && Fitting(d, args[0]) && Suits(d.rest, args[1..])
      else Suits(d.rest, args)
  }

  function Printed(fmt: string, args: seq<Arg>): string
    requires Suits(fmt, args)
    decreases |fmt|
  {
    if fmt == "" then ""
    else if fmt[0] != '%' then Put(fmt[0]) + Printed(fmt[1..], args)
    else
      var d := Parsed(fmt[1..]);
      if d.conv == '\0' then ""
      else if Takes(d.conv) then Item(d, args[0]) + Printed(d.rest, args[1..])
      else Item(d, Word(0)) + Printed(d.rest, args)
  }

  lemma Associative(a: string, b: string, c: string)
    ensures (a + b) + c == a + (b + c)
  {
  }

  /** A text without line feeds. */
  predicate Plain(t: string) { forall k :: 0 <= k < |t| ==> t[k] != '\n' }

  function Put(c: char): string { if c == '\n' then "\r\n" else [c] }

  /** xputs. */
  function Puts(t: string): string
  {
    if t == "" then "" else Put(t[0]) + Puts(t[1..])
  }

  /** A printed number has no line feed in it. */
  lemma NumberIsPlain(v: u32, r: Radix, lower: bool, minus: bool)
    ensures Plain(NumberText(v, r, lower, minus))
  {
  }
}

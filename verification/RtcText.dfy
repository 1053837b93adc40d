/** Model of the date printer and parser of src/LPC_RTC_CALENDAR.c. */
module RtcText {
  import opened MachineInts
  import opened Rtc

  // ---- printing ---------------------------------------------------------------------------

  function DigitChar(d: int): char
    requires 0 <= d <= 9
  {
    "0123456789"[d]
  }

  /** sprintf "%d" of a number that is not negative, and "%02d". */
  function Decimal(n: nat): (s: string)
    ensures |s| > 0
  {
    if n < 10 then [DigitChar(n)] else Decimal(n / 10) + [DigitChar(n % 10)]
  }

  function TwoDigits(n: nat): string
  {
    if n < 10 then "0" + Decimal(n) else Decimal(n)
  }

  /** The fields that the formatter reads; the clock only counts years from 2000. */
  datatype DateTime = DateTime(date: Date, hour: u8, minute: u8, second: u8, dayOfWeek: u8, unixtime: u32)

  predicate Printable(t: DateTime) { ValidDate(t.date) }

  const MONTHS := ["January", "February", "March", "April", "May", "June", "July", "August",
                   "September", "October", "November", "December"]

  const WEEKDAYS := ["Monday", "Tuesday", "Wednesday", "Thursday", "Friday", "Saturday", "Sunday"]

  function StrMonth(month: int): (s: string)
    ensures |s| >= 3
  {
    if 1 <= month <= 12 then MONTHS[month - 1] else "Unknown"
  }

  function StrDayOfWeek(day: int): (s: string)
    ensures |s| >= 3
  {
    if 1 <= day <= 7 then WEEKDAYS[day - 1] else "Unknown"
  }

  function StrDaySuffix(day: nat): string
  {
    if day % 10 == 1 then "st" else if day % 10 == 2 then "nd" else if day % 10 == 3 then "rd" else "th"
  }

  function Hour12(hour: u8): nat
  {
    if hour == 0 then 12 else if hour > 12 then hour - 12 else hour
  }

  function StrAmPm(hour: u8, upper: bool): string
  {
    if hour < 12 then if upper then "AM" else "am" else if upper then "PM" else "pm"
  }

  /** What one character of a format prints. */
  function Piece(c: char, t: DateTime): string
    requires Printable(t)
  {
    match c
    case 'd' => TwoDigits(t.date.day)
    case 'j' => Decimal(t.date.day)
    case 'l' => StrDayOfWeek(t.dayOfWeek)
    case 'D' => StrDayOfWeek(t.dayOfWeek)[..3]
    case 'N' => Decimal(t.dayOfWeek)
    case 'w' => Decimal((t.dayOfWeek + 7) % 7)
    case 'z' => Decimal(DayOfYear(t.date))
    case 'S' => StrDaySuffix(t.date.day)
    case 'm' => TwoDigits(t.date.month)
    case 'n' => Decimal(t.date.month)
    case 'F' => StrMonth(t.date.month)
    case 'M' => StrMonth(t.date.month)[..3]
    case 't' => Decimal(DaysInMonth(t.date.year, t.date.month))
    case 'Y' => Decimal(t.date.year)
    case 'y' => TwoDigits(t.date.year - 2000)
    case 'L' => if Leap(t.date.year) then "1" else "0"
    case 'H' => TwoDigits(t.hour)
    case 'G' => Decimal(t.hour)
    case 'h' => TwoDigits(Hour12(t.hour))
    case 'g' => Decimal(Hour12(t.hour))
    case 'A' => StrAmPm(t.hour, true)
    case 'a' => StrAmPm(t.hour, false)
    case 'i' => TwoDigits(t.minute)
    case 's' => TwoDigits(t.second)
    case 'U' => Decimal(t.unixtime)
    case _ => [c]
  }

  /** dayInYear, which shares the deviation of date2days. */
  function DayOfYear(d: Date): u16
    requires ValidDate(d)
  {
    U16(DayNumber(d) + Deviation(d) - DayNumber(d.(month := 1, day := 1)))
  }

  /** The pieces of a format, one for each character. */
  function Pieces(format: string, t: DateTime): seq<string>
    requires Printable(t)
  {
    seq(|format|, k requires 0 <= k < |format| => Piece(format[k], t))
  }

  function Concat(ps: seq<string>): string
  {
    if ps == [] then "" else Concat(ps[..|ps| - 1]) + ps[|ps| - 1]
  }

  function Formatted(format: string, t: DateTime): string
    requires Printable(t)
  {
    Concat(Pieces(format, t))
  }

  lemma {:induction false} ConcatSnoc(ps: seq<string>, p: string)
    ensures Concat(ps + [p]) == Concat(ps) + p
  {
    assert (ps + [p])[..|ps|] == ps;
  }

  lemma {:induction false} ConcatFive(a: string, b: string, c: string, d: string, e: string)
    ensures Concat([a, b, c, d, e]) == a + b + c + d + e
  {
    ConcatSnoc([], a);
    ConcatSnoc([a], b);
    ConcatSnoc([a, b], c);
    ConcatSnoc([a, b, c], d);
    ConcatSnoc([a, b, c, d], e);
    assert [] + [a] == [a] && [a] + [b] == [a, b] && [a, b] + [c] == [a, b, c];
    assert [a, b, c] + [d] == [a, b, c, d] && [a, b, c, d] + [e] == [a, b, c, d, e];
    assert "" + a == a;
  }

  lemma {:induction false} ConcatTwo(ps: seq<string>, p: string, q: string)
    ensures Concat(ps + [p, q]) == Concat(ps) + (p + q)
  {
    ConcatSnoc(ps, p);
    ConcatSnoc(ps + [p], q);
    assert ps + [p] + [q] == ps + [p, q];
  }

  // ---- parsing ----------------------------------------------------------------------------

  /** conv2d: two characters as a number; a first character that is no digit counts as 0. */
  function Conv2d(a: char, b: char): u8
  {
    var v := if '0' <= a <= '9' then a as int - '0' as int else 0;
    U8(10 * v + b as int - '0' as int)
  }

  /** The month that the first three characters of a date select. */
  function MonthOf(a: char, b: char, c: char): u8
    requires a in "JFAMSOND"
  {
    match a
    case 'J' => if b == 'a' then 1 else if c == 'n' then 6 else 7
    case 'F' => 2
    case 'A' => if c == 'r' then 4 else 8
    case 'M' => if c == 'r' then 3 else 5
    case 'S' => 9
    case 'O' => 10
    case 'N' => 11
    case _ => 12
  }

  /** The date and time that lpcrtc_setDateTime_array reads from its two strings. */
  function Parsed(date: string, time: string): Moment
    requires |date| >= 11 && |time| >= 8 && date[0] in "JFAMSOND"
  {
    Moment(Date(2000 + Conv2d(date[9], date[10]), MonthOf(date[0], date[1], date[2]), Conv2d(date[4], date[5])),
           Conv2d(time[0], time[1]), Conv2d(time[3], time[4]), Conv2d(time[6], time[7]))
  }

  // ---- round trip -------------------------------------------------------------------------

  lemma TwoDigitsRead(n: nat)
    requires n < 100
    ensures |TwoDigits(n)| == 2 && Conv2d(TwoDigits(n)[0], TwoDigits(n)[1]) == n
  {
    if n >= 10 {
      assert Decimal(n) == [DigitChar(n / 10)] + [DigitChar(n % 10)];
    }
    DigitValue(n / 10);
    DigitValue(n % 10);
  }

  lemma DigitValue(d: int)
    requires 0 <= d <= 9
    ensures '0' <= DigitChar(d) <= '9' && DigitChar(d) as int == '0' as int + d
  {
  }

  lemma YearRead(year: nat)
    requires 2000 <= year <= 2099
    ensures Decimal(year) == "20" + TwoDigits(year - 2000)
  {
    var k := year - 2000;
    assert Decimal(year / 100) == "20" by {
      assert year / 100 == 20;
      assert Decimal(20) == Decimal(2) + [DigitChar(0)];
    }
    assert year / 10 == 200 + k / 10 && year / 10 / 10 == 20;
    assert Decimal(year / 10) == "20" + [DigitChar(k / 10)];
    assert Decimal(year) == Decimal(year / 10) + [DigitChar(k % 10)];
    if k >= 10 { assert Decimal(k) == [DigitChar(k / 10)] + [DigitChar(k % 10)]; }
  }

  lemma MonthRead(month: int)
    requires 1 <= month <= 12
    ensures var s := StrMonth(month)[..3]; s[0] in "JFAMSOND" && MonthOf(s[0], s[1], s[2]) == month
  {
  }

  lemma FormatParts(a: char, b: char, c: char, d: char, e: char, t: DateTime)
    requires Printable(t)
    ensures Formatted([a, b, c, d, e], t) == Piece(a, t) + Piece(b, t) + Piece(c, t) + Piece(d, t) + Piece(e, t)
  {
    assert Pieces([a, b, c, d, e], t) == [Piece(a, t), Piece(b, t), Piece(c, t), Piece(d, t), Piece(e, t)];
    ConcatFive(Piece(a, t), Piece(b, t), Piece(c, t), Piece(d, t), Piece(e, t));
  }

  /** Printing a date as "M d Y" and a time as "H:i:s" and reading both back gives the same moment,
      for every date of 2000 to 2099 and every time of day. */
  lemma TextRoundTrip(t: DateTime)
    requires ValidDate(t.date) && t.date.year <= 2099 && t.hour < 24 && t.minute < 60 && t.second < 60
    ensures var date, time := Formatted("M d Y", t), Formatted("H:i:s", t);
            && |date| == 11 && |time| == 8 && date[0] in "JFAMSOND"
            && Parsed(date, time) == Moment(t.date, t.hour, t.minute, t.second)
  {
    DateText(t);
    TimeText(t);
  }

  lemma DateText(t: DateTime)
    requires ValidDate(t.date) && t.date.year <= 2099
    ensures var s := Formatted("M d Y", t);
            && |s| == 11 && s[0] in "JFAMSOND" && MonthOf(s[0], s[1], s[2]) == t.date.month
            && Conv2d(s[4], s[5]) == t.date.day && Conv2d(s[9], s[10]) == t.date.year - 2000
  {
    FormatParts('M', ' ', 'd', ' ', 'Y', t);
    MonthRead(t.date.month);
    TwoDigitsRead(t.date.day);
    YearRead(t.date.year);
    TwoDigitsRead(t.date.year - 2000);
  }

  lemma TimeText(t: DateTime)
    requires Printable(t) && t.hour < 24 && t.minute < 60 && t.second < 60
    ensures var s := Formatted("H:i:s", t);
            && |s| == 8 && Conv2d(s[0], s[1]) == t.hour && Conv2d(s[3], s[4]) == t.minute
            && Conv2d(s[6], s[7]) == t.second
  {
    FormatParts('H', ':', 'i', ':', 's', t);
    TwoDigitsRead(t.hour);
    TwoDigitsRead(t.minute);
    TwoDigitsRead(t.second);
  }

  // ---- what each letter prints --------------------------------------------------------------

  predicate AllDigits(s: string) { forall k :: 0 <= k < |s| ==> '0' <= s[k] <= '9' }

  /** The number that a row of digits denotes. */
  function ReadDecimal(s: string): int
  {
    if s == "" then 0 else 10 * ReadDecimal(s[..|s| - 1]) + (s[|s| - 1] as int - '0' as int)
  }

  /** A number without leading zeros, or in two digits at least. */
  predicate Shows(s: string, n: int) { s != "" && AllDigits(s) && ReadDecimal(s) == n && (s[0] == '0' ==> |s| == 1) }

  predicate ShowsTwo(s: string, n: int)
  {
    |s| >= 2 && AllDigits(s) && ReadDecimal(s) == n && (s[0] == '0' ==> |s| == 2)
  }

  lemma {:induction false} DecimalShows(n: nat)
    ensures Shows(Decimal(n), n) && (Decimal(n)[0] == '0' ==> n == 0)
    decreases n
  {
    var s := Decimal(n);
    if n < 10 {
      assert s[..0] == "";
    } else {
      DecimalShows(n / 10);
      assert s[..|s| - 1] == Decimal(n / 10) && s[0] == Decimal(n / 10)[0];
    }
  }

  lemma {:induction false} TwoDigitsShow(n: nat)
    ensures ShowsTwo(TwoDigits(n), n)
  {
    DecimalShows(n);
    if n < 10 {
      var s := "0" + Decimal(n);
      assert s[..1] == "0" && "0"[..0] == "";
    } else {
      assert Decimal(n) == Decimal(n / 10) + [DigitChar(n % 10)];
    }
  }

  /** The letters for numbers: day, */
  lemma DayNumbers(t: DateTime)
    requires Printable(t)
    ensures ShowsTwo(Piece('d', t), t.date.day) && Shows(Piece('j', t), t.date.day)
  {
    TwoDigitsShow(t.date.day);
    DecimalShows(t.date.day);
  }

  /** weekday, */
  lemma WeekdayNumbers(t: DateTime)
    requires Printable(t)
    ensures Shows(Piece('N', t), t.dayOfWeek) && Shows(Piece('w', t), t.dayOfWeek % 7)
  {
    DecimalShows(t.dayOfWeek);
    DecimalShows(t.dayOfWeek % 7);
  }

  /** month and its length, */
  lemma MonthNumbers(t: DateTime)
    requires Printable(t)
    ensures ShowsTwo(Piece('m', t), t.date.month) && Shows(Piece('n', t), t.date.month)
  {
    TwoDigitsShow(t.date.month);
    DecimalShows(t.date.month);
  }

  lemma MonthLength(t: DateTime)
    requires Printable(t)
    ensures Shows(Piece('t', t), if t.date.month == 2 then if t.date.year % 4 == 0 then 29 else 28
                                 else if t.date.month in {4, 6, 9, 11} then 30 else 31)
  {
    DecimalShows(DaysInMonth(t.date.year, t.date.month));
  }

  /** year and whether it has a leap day, */
  lemma YearNumbers(t: DateTime)
    requires Printable(t)
    ensures Shows(Piece('Y', t), t.date.year)
    ensures Piece('L', t) == if t.date.year % 4 == 0 then "1" else "0"
  {
    DecimalShows(t.date.year);
  }

  lemma ShortYear(t: DateTime)
    requires Printable(t)
    ensures ShowsTwo(Piece('y', t), t.date.year - 2000)
  {
    TwoDigitsShow(t.date.year - 2000);
  }

  /** hour, on a clock of 24 hours and on one that goes from 12 over 1 to 11, */
  lemma HourNumbers(t: DateTime)
    requires Printable(t) && t.hour < 24
    ensures ShowsTwo(Piece('H', t), t.hour) && Shows(Piece('G', t), t.hour)
  {
    TwoDigitsShow(t.hour);
    DecimalShows(t.hour);
  }

  lemma HalfDayNumbers(t: DateTime)
    requires Printable(t) && t.hour < 24
    ensures ShowsTwo(Piece('h', t), (t.hour + 11) % 12 + 1)
  {
    assert Hour12(t.hour) == (t.hour + 11) % 12 + 1;
    TwoDigitsShow(Hour12(t.hour));
  }

  lemma ShortHalfDayNumber(t: DateTime)
    requires Printable(t) && t.hour < 24
    ensures Shows(Piece('g', t), (t.hour + 11) % 12 + 1)
  {
    assert Hour12(t.hour) == (t.hour + 11) % 12 + 1;
    DecimalShows(Hour12(t.hour));
  }

  /** minute, second and the seconds of the epoch. */
  lemma MinuteNumbers(t: DateTime)
    requires Printable(t)
    ensures ShowsTwo(Piece('i', t), t.minute) && ShowsTwo(Piece('s', t), t.second)
  {
    TwoDigitsShow(t.minute);
    TwoDigitsShow(t.second);
  }

  lemma EpochNumber(t: DateTime)
    requires Printable(t)
    ensures Shows(Piece('U', t), t.unixtime)
  {
    DecimalShows(t.unixtime);
  }

  /** The day of the year counts from 0, and is off by the deviation of the day count. */
  lemma YearDay(t: DateTime)
    requires Printable(t)
    ensures Shows(Piece('z', t), DayNumber(t.date) - DayNumber(Date(t.date.year, 1, 1)) + Deviation(t.date))
  {
    YearDayCount(t.date);
    DecimalShows(DayOfYear(t.date));
  }

  lemma YearDayCount(d: Date)
    requires ValidDate(d)
    ensures DayOfYear(d) == DayNumber(d) - DayNumber(Date(d.year, 1, 1)) + Deviation(d)
  {
    DaysBeforeTable();
  }

  /** The letters for names. */
  lemma WeekdayNames(t: DateTime)
    requires Printable(t) && 1 <= t.dayOfWeek <= 7
    ensures Piece('D', t) == ["Mon", "Tue", "Wed", "Thu", "Fri", "Sat", "Sun"][t.dayOfWeek - 1]
    ensures Piece('l', t) == Piece('D', t) + ["", "s", "nes", "rs", "", "ur", ""][t.dayOfWeek - 1] + "day"
  {
    var full, short := Piece('l', t), ["Mon", "Tue", "Wed", "Thu", "Fri", "Sat", "Sun"][t.dayOfWeek - 1];
    assert full[0] == short[0] && full[1] == short[1] && full[2] == short[2];
    assert full[..3] == short;
  }

  lemma MonthNames(t: DateTime)
    requires Printable(t)
    ensures Piece('M', t) ==
            ["Jan", "Feb", "Mar", "Apr", "May", "Jun", "Jul", "Aug", "Sep", "Oct", "Nov", "Dec"][t.date.month - 1]
    ensures Piece('F', t) ==
            Piece('M', t) + ["uary", "ruary", "ch", "il", "", "e", "y", "ust", "tember", "ober", "ember", "ember"]
              [t.date.month - 1]
  {
    var full := Piece('F', t);
    var short := ["Jan", "Feb", "Mar", "Apr", "May", "Jun", "Jul", "Aug", "Sep", "Oct", "Nov", "Dec"][t.date.month - 1];
    assert full[0] == short[0] && full[1] == short[1] && full[2] == short[2];
    assert full[..3] == short;
  }

  lemma HalfDayNames(t: DateTime)
    requires Printable(t)
    ensures Piece('a', t) == (if t.hour < 12 then "am" else "pm") && Piece('A', t) == if t.hour < 12 then "AM" else "PM"
  {
  }

  /** A character that is no letter of the formatter prints itself. */
  lemma OtherPieces(c: char, t: DateTime)
    requires Printable(t) && c !in "djlDNwzSmnFMtYyLHGhgAaisU"
    ensures Piece(c, t) == [c]
  {
  }

  /** The ending of an ordinal number. */
  function OrdinalEnding(n: nat): string
  {
    if 11 <= n % 100 <= 13 then "th"
    else if n % 10 == 1 then "st" else if n % 10 == 2 then "nd" else if n % 10 == 3 then "rd" else "th"
  }

  /** The printed ending is the right one exactly if the day is not the 11th, 12th or 13th. */
  lemma EndingRight(t: DateTime)
    requires Printable(t)
    ensures Piece('S', t) == OrdinalEnding(t.date.day) <==> !(11 <= t.date.day <= 13)
  {
  }

  /** Two more characters of a format. */
  lemma FormatMore(f: string, c: char, d: char, t: DateTime)
    requires Printable(t)
    ensures Formatted(f + [c, d], t) == Formatted(f, t) + (Piece(c, t) + Piece(d, t))
  {
    assert Pieces(f + [c, d], t) == Pieces(f, t) + [Piece(c, t), Piece(d, t)];
    ConcatTwo(Pieces(f, t), Piece(c, t), Piece(d, t));
  }

  /** The date line that the repository prints, "d/m/Y D F", has day, month, year, weekday and month name at
      their places. */
  lemma DateLine(t: DateTime)
    requires ValidDate(t.date) && t.date.year <= 2099 && 1 <= t.dayOfWeek <= 7
    ensures var s := Formatted("d/m/Y D F", t);
            && |s| >= 18 && s[2] == s[5] == '/' && s[10] == s[14] == ' '
            && Conv2d(s[0], s[1]) == t.date.day && Conv2d(s[3], s[4]) == t.date.month
            && s[6] == '2' && s[7] == '0' && Conv2d(s[8], s[9]) == t.date.year - 2000
            && s[11..14] == Piece('D', t) && s[15..] == Piece('F', t)
  {
    DatePieces(t);
    TwoDigitsRead(t.date.day);
    TwoDigitsRead(t.date.month);
    YearPlaces(t.date.year);
    Places(Piece('d', t), Piece('m', t), Piece('Y', t), Piece('D', t), Piece('F', t));
  }

  lemma YearPlaces(year: nat)
    requires 2000 <= year <= 2099
    ensures var y := Decimal(year); |y| == 4 && y[0] == '2' && y[1] == '0' && Conv2d(y[2], y[3]) == year - 2000
  {
    YearRead(year);
    TwoDigitsRead(year - 2000);
  }

  lemma DatePieces(t: DateTime)
    requires Printable(t)
    ensures Formatted("d/m/Y D F", t) ==
            Piece('d', t) + "/" + Piece('m', t) + "/" + Piece('Y', t) + (" " + Piece('D', t)) + (" " + Piece('F', t))
  {
    FormatParts('d', '/', 'm', '/', 'Y', t);
    FormatMore("d/m/Y", ' ', 'D', t);
    FormatMore("d/m/Y D", ' ', 'F', t);
    OtherPieces('/', t);
    OtherPieces(' ', t);
    assert "d/m/Y" == ['d', '/', 'm', '/', 'Y'];
    assert "d/m/Y D" == "d/m/Y" + [' ', 'D'] && "d/m/Y D F" == "d/m/Y D" + [' ', 'F'];
  }

  lemma Places(d: string, m: string, y: string, w: string, f: string)
    requires |d| == |m| == 2 && |y| == 4 && |w| == 3
    ensures var s := d + "/" + m + "/" + y + (" " + w) + (" " + f);
            && |s| == 15 + |f| && s[2] == s[5] == '/' && s[10] == s[14] == ' '
            && s[0] == d[0] && s[1] == d[1] && s[3] == m[0] && s[4] == m[1]
            && s[6] == y[0] && s[7] == y[1] && s[8] == y[2] && s[9] == y[3] && s[11..14] == w && s[15..] == f
  {
  }

  /** And its time line, "h:i:s a": the time of day is recovered. */
  lemma TimeLine(t: DateTime)
    requires Printable(t) && t.hour < 24 && t.minute < 60 && t.second < 60
    ensures var s := Formatted("h:i:s a", t);
            && |s| == 11 && s[2] == s[5] == ':' && s[8] == ' ' && s[9..] in {"am", "pm"}
            && Conv2d(s[0], s[1]) % 12 + (if s[9..] == "pm" then 12 else 0) == t.hour
            && Conv2d(s[3], s[4]) == t.minute && Conv2d(s[6], s[7]) == t.second
  {
    TimePieces(t);
    TwoDigitsRead(Hour12(t.hour));
    TwoDigitsRead(t.minute);
    TwoDigitsRead(t.second);
    TimePlaces(Piece('h', t), Piece('i', t), Piece('s', t), Piece('a', t));
  }

  lemma TimePlaces(h: string, i: string, s: string, a: string)
    requires |h| == |i| == |s| == |a| == 2
    ensures var r := h + ":" + i + ":" + s + (" " + a);
            && |r| == 11 && r[2] == r[5] == ':' && r[8] == ' ' && r[9..] == a
            && r[0] == h[0] && r[1] == h[1] && r[3] == i[0] && r[4] == i[1] && r[6] == s[0] && r[7] == s[1]
  {
  }

  lemma TimePieces(t: DateTime)
    requires Printable(t)
    ensures Formatted("h:i:s a", t) ==
            Piece('h', t) + ":" + Piece('i', t) + ":" + Piece('s', t) + (" " + Piece('a', t))
  {
    FormatParts('h', ':', 'i', ':', 's', t);
    FormatMore("h:i:s", ' ', 'a', t);
    OtherPieces(':', t);
    OtherPieces(' ', t);
    assert "h:i:s" == ['h', ':', 'i', ':', 's'] && "h:i:s a" == "h:i:s" + [' ', 'a'];
  }

  // ---- the driver -------------------------------------------------------------------------

  const BUFFER_SIZE := 255

  lemma NextPiece(format: string, k: nat, t: DateTime)
    requires Printable(t) && k < |format|
    ensures Formatted(format[..k + 1], t) == Formatted(format[..k], t) + Piece(format[k], t)
  {
    assert Pieces(format[..k + 1], t) == Pieces(format[..k], t) + [Piece(format[k], t)];
    ConcatSnoc(Pieces(format[..k], t), Piece(format[k], t));
  }

  /** The formatter appends to a fixed global buffer. */
  class Formatter {
    var buffer: string

    constructor () ensures buffer == "" { buffer := ""; }

    method DateFormat(format: string, t: DateTime)
      requires Printable(t) && |Formatted(format, t)| < BUFFER_SIZE
      modifies this
      ensures buffer == Formatted(format, t)
    {
      buffer := "";
      var k := 0;
      while k < |format|
        invariant 0 <= k <= |format|
        invariant buffer == Formatted(format[..k], t)
      {
        NextPiece(format, k, t);
        buffer := buffer + Piece(format[k], t);
        k := k + 1;
      }
      assert format[..k] == format;
    }
  }

  /** lpcrtc_setDateTime_array. */
  method SetDateTimeArray(clock: Clock, date: string, time: string)
    requires |date| >= 11 && |time| >= 8 && date[0] in "JFAMSOND"
    modifies clock
    ensures clock.Now() == Parsed(date, time)
    ensures var d := Parsed(date, time).date; clock.dayOfWeek == Dow(d.year, d.month, d.day)
  {
    var year: u16 := Conv2d(date[9], date[10]);
    var month := MonthOf(date[0], date[1], date[2]);
    var day := Conv2d(date[4], date[5]);
    clock.SetDateTime(2000 + year, month, day, Conv2d(time[0], time[1]), Conv2d(time[3], time[4]),
                      Conv2d(time[6], time[7]));
  }
}

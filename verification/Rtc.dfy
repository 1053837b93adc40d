/** Model of the calendar arithmetic of src/LPC_RTC_CALENDAR.c: seconds to date, date to seconds, and
    the day of the week. */
module Rtc {
  import opened MachineInts

  const EPOCH: u32 := 946681200

  datatype Date = Date(year: int, month: int, day: int)

  // ---- the calendar -----------------------------------------------------------------------

  /** daysArray. */
  const DAYS: seq<u8> := [31, 28, 31, 30, 31, 30, 31, 31, 30, 31, 30, 31]

  /** dowArray. */
  const DOW: seq<u8> := [0, 3, 2, 5, 0, 3, 5, 1, 4, 6, 2, 4]

  predicate Leap(year: int) { year % 4 == 0 }

  function DaysInMonth(year: int, month: int): u8
    requires 1 <= month <= 12
  {
    if month == 2 && Leap(year) then 29 else DAYS[month - 1]
  }

  predicate ValidDate(d: Date)
  {
    2000 <= d.year && 1 <= d.month <= 12 && 1 <= d.day <= DaysInMonth(d.year, d.month)
  }

  /** The following day. */
  function NextDay(d: Date): Date
    requires ValidDate(d)
  {
    if d.day < DaysInMonth(d.year, d.month) then d.(day := d.day + 1)
    else if d.month < 12 then Date(d.year, d.month + 1, 1)
    else Date(d.year + 1, 1, 1)
  }

  /** The n-th day after 1 January 2000. */
  function NthDay(n: nat): (d: Date)
    ensures ValidDate(d)
  {
    if n == 0 then Date(2000, 1, 1) else NextDay(NthDay(n - 1))
  }

  /** Days before a month of a common year. */
  function DaysBefore(month: int): nat
    requires 1 <= month <= 13
  {
    if month == 1 then 0 else DaysBefore(month - 1) + DAYS[month - 2]
  }

  /** Days before a year 2000 + k, and before a month within its year. */
  function YearStart(k: nat): nat { 365 * k + (k + 3) / 4 }

  function MonthStart(year: int, month: int): nat
    requires 1 <= month <= 13
  {
    DaysBefore(month) + if month > 2 && Leap(year) then 1 else 0
  }

  /** Days since 1 January 2000. */
  function DayNumber(d: Date): nat
    requires ValidDate(d)
  {
    YearStart(d.year - 2000) + MonthStart(d.year, d.month) + d.day - 1
  }

  lemma DaysBeforeTable()
    ensures DaysBefore(1) == 0 && DaysBefore(2) == 31 && DaysBefore(3) == 59 && DaysBefore(4) == 90
    ensures DaysBefore(5) == 120 && DaysBefore(6) == 151 && DaysBefore(7) == 181 && DaysBefore(8) == 212
    ensures DaysBefore(9) == 243 && DaysBefore(10) == 273 && DaysBefore(11) == 304 && DaysBefore(12) == 334
    ensures DaysBefore(13) == 365
  {
    assert DaysBefore(4) == 90;
    assert DaysBefore(7) == 181;
    assert DaysBefore(10) == 273;
  }

  lemma MonthSpan(d: Date)
    requires ValidDate(d)
    ensures MonthStart(d.year, d.month) + DaysInMonth(d.year, d.month) == MonthStart(d.year, d.month + 1)
    ensures MonthStart(d.year, d.month + 1) <= MonthStart(d.year, 13) == 365 + if Leap(d.year) then 1 else 0
  {
    DaysBeforeTable();
  }

  lemma YearSpan(year: int)
    requires 2000 <= year
    ensures YearStart(year - 2000) + 365 + (if Leap(year) then 1 else 0) == YearStart(year + 1 - 2000)
  {
  }

  lemma NextDayNumber(d: Date)
    requires ValidDate(d)
    ensures ValidDate(NextDay(d)) && DayNumber(NextDay(d)) == DayNumber(d) + 1
  {
    MonthSpan(d);
    YearSpan(d.year);
    DaysBeforeTable();
  }

  /** The closed form of the day number inverts counting days forward. */
  lemma {:induction false} DayNumberInverts(n: nat)
    ensures DayNumber(NthDay(n)) == n
  {
    if n == 0 {
      DaysBeforeTable();
    } else {
      DayNumberInverts(n - 1);
      NextDayNumber(NthDay(n - 1));
    }
  }

  lemma {:induction false} LaterMonth(year: int, m: int, n: int)
    requires 1 <= m <= n <= 13
    ensures MonthStart(year, m) <= MonthStart(year, n)
  {
    if m < n { LaterMonth(year, m, n - 1); }
  }

  /** An earlier date has a smaller day number. */
  lemma DayNumberOrder(d: Date, e: Date)
    requires ValidDate(d) && ValidDate(e)
    requires d.year < e.year || (d.year == e.year && (d.month < e.month || (d.month == e.month && d.day < e.day)))
    ensures DayNumber(d) < DayNumber(e)
  {
    MonthSpan(d);
    YearSpan(d.year);
    if d.year == e.year && d.month < e.month { LaterMonth(d.year, d.month + 1, e.month); }
  }

  /** A date with a day number is the only one. */
  lemma DayNumberDetermines(d: Date, n: nat)
    requires ValidDate(d) && DayNumber(d) == n
    ensures d == NthDay(n)
  {
    var e := NthDay(n);
    DayNumberInverts(n);
    if d != e {
      if d.year < e.year || (d.year == e.year && (d.month < e.month || (d.month == e.month && d.day < e.day))) {
        DayNumberOrder(d, e);
      } else {
        DayNumberOrder(e, d);
      }
    }
  }

  // ---- the day of the week ----------------------------------------------------------------

  /** dow: 1 is Monday, 7 is Sunday. */
  function Dow(year: u16, m: int, d: u8): u8
    requires 1 <= m <= 12
  {
    var y := U16(year - if m < 3 then 1 else 0);
    var w := (y + y / 4 - y / 100 + y / 400 + DOW[m - 1] + d) % 7;
    if w == 0 then 7 else w
  }

  /** 1 January 2000 was a Saturday. */
  function Weekday(n: nat): u8 { (n + 5) % 7 + 1 }

  predicate BeforeMarch2100(d: Date) { d.year < 2100 || (d.year == 2100 && d.month < 3) }

  /** The month table of the weekday formula, modulo the days before the month. */
  lemma DowTable(m: int)
    requires 1 <= m <= 12
    ensures (DOW[m - 1] + (if m < 3 then 0 else 1) - DaysBefore(m)) % 7 == 0
  {
    DaysBeforeTable();
  }

  lemma SevenDays(a: int, b: int, c: int)
    requires a == b + 7 * c
    ensures a % 7 == b % 7
  {
  }

  /** The closed-form weekday advances with the day count for every date that the conversion can
      produce up to 28 February 2100, and is one day behind from then on: the conversion counts
      29 February 2100, which the weekday formula does not. */
  lemma DowCountsDays(d: Date)
    requires ValidDate(d) && d.year < 2200
    ensures BeforeMarch2100(d) ==> Dow(d.year, d.month, d.day) == Weekday(DayNumber(d))
    ensures !BeforeMarch2100(d) ==> Dow(d.year, d.month, d.day) == Weekday(DayNumber(d) + 6)
  {
    var m := d.month;
    DowTable(m);
    var t, y := DOW[m - 1], d.year - if m < 3 then 1 else 0;
    assert U16(y) == y;
    WeekdayArithmetic(d.year - 2000, m < 3, t, DaysBefore(m), d.day);
    MondayIsOne(y + y / 4 - y / 100 + y / 400 + t + d.day, DayNumber(d) + if y < 2100 then 0 else 6);
  }

  lemma MondayIsOne(x: int, n: nat)
    requires x % 7 == (n + 6) % 7
    ensures (if x % 7 == 0 then 7 else x % 7) == Weekday(n)
  {
  }

  lemma WeekdayArithmetic(k: nat, early: bool, t: int, before: int, day: int)
    requires k < 200 && (t + (if early then 0 else 1) - before) % 7 == 0
    ensures var y := 2000 + k - if early then 1 else 0;
            var n := YearStart(k) + before + (if !early && Leap(2000 + k) then 1 else 0) + day - 1;
            (y + y / 4 - y / 100 + y / 400 + t + day) % 7 == (n + (if y < 2100 then 0 else 6) + 6) % 7
  {
    var y := 2000 + k - if early then 1 else 0;
    var c := (t + (if early then 0 else 1) - before) / 7;
    Centuries(y);
    QuarterYears(k);
    SevenDays(y + y / 4 - y / 100 + y / 400 + t + day,
              YearStart(k) + before + (if !early && Leap(2000 + k) then 1 else 0) + day - 1 +
              (if y < 2100 then 0 else 6) + 6,
              354 - 52 * k + c - if y < 2100 then 0 else 1);
  }

  lemma Centuries(y: int)
    requires 1999 <= y < 2200
    ensures y / 400 - y / 100 == if y < 2100 then -15 else -16
  {
  }

  lemma QuarterYears(k: nat)
    ensures (2000 + k) / 4 == 500 + k / 4 && (1999 + k) / 4 == 499 + (k + 3) / 4
    ensures (k + 3) / 4 == k / 4 + if Leap(2000 + k) then 0 else 1
  {
  }

  /** So the weekday steps by one from each day to the next across every month, year and leap
      boundary in range. */
  lemma DowSteps(d: Date)
    requires ValidDate(d) && BeforeMarch2100(NextDay(d))
    ensures var e := NextDay(d);
            Dow(e.year, e.month, e.day) == Dow(d.year, d.month, d.day) % 7 + 1
  {
    NextDayNumber(d);
    DowCountsDays(d);
    DowCountsDays(NextDay(d));
    WeekdaySteps(DayNumber(d));
  }

  lemma WeekdaySteps(n: nat)
    ensures Weekday(n + 1) == Weekday(n) % 7 + 1
  {
  }

  // ---- seconds ----------------------------------------------------------------------------

  const DAY_SECONDS := 86400

  /** The seconds since the epoch that time2long and unixtime give for a day count. */
  function Seconds(days: int, hour: int, minute: int, second: int): int
  {
    ((days * 24 + hour) * 60 + minute) * 60 + second
  }

  /** By how many days date2days is off: it adds the leap day in February, where it does not belong
      yet, and leaves it out from March on. */
  function Deviation(d: Date): int
  {
    if !Leap(d.year) || d.month == 1 then 0 else if d.month == 2 then 1 else -1
  }

  /** A date and time of day. */
  datatype Moment = Moment(date: Date, hour: int, minute: int, second: int)

  predicate ValidMoment(w: Moment)
  {
    ValidDate(w.date) && 0 <= w.hour < 24 && 0 <= w.minute < 60 && 0 <= w.second < 60
  }

  /** The moment s seconds after the epoch. */
  function MomentAt(s: nat): (w: Moment)
    ensures ValidMoment(w)
  {
    Moment(NthDay(s / DAY_SECONDS), s / 3600 % 24, s / 60 % 60, s % 60)
  }

  function SecondsOf(w: Moment): int
    requires ValidMoment(w)
  {
    Seconds(DayNumber(w.date), w.hour, w.minute, w.second)
  }

  /** The two conversions are inverse to each other when the leap day is counted from March on. */
  lemma SecondsInvert(s: nat)
    ensures SecondsOf(MomentAt(s)) == s
  {
    DayNumberInverts(s / DAY_SECONDS);
    Nested(s);
  }

  lemma Nested(s: nat)
    ensures Seconds(s / DAY_SECONDS, s / 3600 % 24, s / 60 % 60, s % 60) == s
    ensures s / 60 / 60 / 24 == s / DAY_SECONDS && s / 60 / 60 % 24 == s / 3600 % 24
  {
    var minutes := s / 60;
    var hours := minutes / 60;
    assert hours == s / 3600 && hours / 24 == s / DAY_SECONDS;
  }

  lemma MomentsInvert(w: Moment)
    requires ValidMoment(w)
    ensures SecondsOf(w) >= 0 && MomentAt(SecondsOf(w)) == w
  {
    DayNumberDetermines(w.date, DayNumber(w.date));
    Parts(DayNumber(w.date), w.hour, w.minute, w.second);
  }

  lemma Parts(n: nat, hour: int, minute: int, second: int)
    requires 0 <= hour < 24 && 0 <= minute < 60 && 0 <= second < 60
    ensures var s := Seconds(n, hour, minute, second);
            s >= 0 && s / DAY_SECONDS == n && s / 3600 % 24 == hour && s / 60 % 60 == minute && s % 60 == second
  {
    var hours := n * 24 + hour;
    var minutes := hours * 60 + minute;
    var s := minutes * 60 + second;
    Quotient(s, minutes, 60, second);
    Quotient(minutes, hours, 60, minute);
    Quotient(s, hours, 3600, minute * 60 + second);
    Quotient(hours, n, 24, hour);
    Quotient(s, n, DAY_SECONDS, hour * 3600 + minute * 60 + second);
  }

  // ---- the clock --------------------------------------------------------------------------

  /** The clock registers. */
  class Clock {
    var year: u16
    var month: u8
    var day: u8
    var hour: u8
    var minute: u8
    var second: u8
    var dayOfWeek: u8

    constructor (year: u16, month: u8, day: u8, hour: u8, minute: u8, second: u8)
      requires 1 <= month <= 12
      ensures Now() == Moment(Date(year, month, day), hour, minute, second)
      ensures dayOfWeek == Dow(year, month, day)
    {
      this.year, this.month, this.day := year, month, day;
      this.hour, this.minute, this.second := hour, minute, second;
      dayOfWeek := Dow(year, month, day);
    }

    ghost function Now(): Moment
      reads this
    {
      Moment(Date(year, month, day), hour, minute, second)
    }

    method SetDateTime(year: u16, month: u8, day: u8, hour: u8, minute: u8, second: u8)
      requires 1 <= month <= 12
      modifies this
      ensures Now() == Moment(Date(year, month, day), hour, minute, second)
      ensures dayOfWeek == Dow(year, month, day)
    {
      this.year, this.month, this.day := year, month, day;
      this.hour, this.minute, this.second := hour, minute, second;
      dayOfWeek := Dow(year, month, day);
    }

    /** Sets the clock to the moment a number of seconds after the epoch, for every 32-bit word; both
        searches end, and daysArray is indexed within its bounds. */
    method SetDateTimeWord(t: u32)
      modifies this
      ensures Now() == MomentAt(U32(t - EPOCH))
      ensures BeforeMarch2100(Now().date) ==> dayOfWeek == Weekday(U32(t - EPOCH) / DAY_SECONDS)
    {
      var s := U32(t - EPOCH);
      Nested(s);
      var rest := s;
      var second := rest % 60;
      rest := rest / 60;
      var minute := rest % 60;
      rest := rest / 60;
      var hour := rest % 24;
      var days: u16 := rest / 24;
      var year, dayInYear := FindYear(days);
      var month, dayInMonth := FindMonth(2000 + year, dayInYear);
      DayNumberDetermines(Date(2000 + year, month, dayInMonth + 1), days);
      DowCountsDays(Date(2000 + year, month, dayInMonth + 1));
      SetDateTime(year + 2000, month, dayInMonth + 1, hour, minute, second);
    }

    /** The first loop: whole years are taken off a day count. */
    static method FindYear(days: u16) returns (year: nat, rest: u16)
      ensures YearStart(year) + rest == days && rest < 365 + if Leap(2000 + year) then 1 else 0
      ensures year < 180
    {
      rest := days;
      year := 0;
      while rest >= 365 + (if Leap(year) then 1 else 0)
        invariant YearStart(year) + rest == days
        decreases rest
      {
        YearSpan(2000 + year);
        rest := rest - (365 + if Leap(year) then 1 else 0);
        year := year + 1;
      }
    }

    /** The second loop: whole months are taken off, without running past the twelfth. */
    static method FindMonth(year: int, days: nat) returns (month: nat, rest: nat)
      requires 2000 <= year && days < 365 + if Leap(year) then 1 else 0
      ensures 1 <= month <= 12 && rest < DaysInMonth(year, month)
      ensures MonthStart(year, month) + rest == days
    {
      rest := days;
      month := 1;
      while rest >= DaysInMonth(year, month)
        invariant 1 <= month <= 12
        invariant MonthStart(year, month) + rest == days
        decreases rest
      {
        MonthSpan(Date(year, month, 1));
        rest := rest - DaysInMonth(year, month);
        month := month + 1;
      }
    }

    /** date2days, with the leap day where the source has it. */
    method Date2Days(year: u16, month: u8, day: u8) returns (days: u16)
      requires ValidDate(Date(year, month, day))
      ensures days == U16(DayNumber(Date(year, month, day)) + Deviation(Date(year, month, day)))
    {
      var y := year - 2000;
      var days16 := day;
      var i := 1;
      while i < month
        invariant 1 <= i <= month
        invariant days16 == day + DaysBefore(i)
      {
        days16 := days16 + DAYS[i - 1];
        i := i + 1;
      }
      if month == 2 && Leap(y) {
        days16 := days16 + 1;
      }
      SumOfDays(Date(year, month, day));
      days := U16(days16 + 365 * y + (y + 3) / 4 - 1);
    }

    /** time2long computes in signed 32-bit words; up to the minutes every 16-bit day count fits. */
    static method Time2Long(days: u16, hours: u8, minutes: u8, seconds: u8) returns (t: Checked)
      ensures t == Long(Seconds(days, hours, minutes, seconds))
    {
      var x: int := (days * 24 + hours) * 60 + minutes;
      x :- I32(x * 60);
      t := I32(x + seconds);
    }

    /** The seconds of the clock on the 16-bit day count, or the overflow of the signed arithmetic. */
    method UnixTime() returns (u: Checked)
      requires ValidMoment(Now())
      ensures u == Counted(Now())
    {
      var days := Date2Days(year, month, day);
      var t :- Time2Long(days, hour, minute, second);
      u := Fits(U32(t + EPOCH));
    }
  }

  /** A count of seconds as a signed 32-bit word. */
  function Long(seconds: int): Checked { if seconds < 0x8000_0000 then Fits(seconds) else Overflow }

  /** The seconds of a 16-bit day count and a time of day, after the epoch. */
  function CountedFrom(days: int, hour: int, minute: int, second: int): Checked
  {
    var t :- Long(Seconds(U16(days), hour, minute, second));
    Fits(U32(t + EPOCH))
  }

  /** What unixtime computes for a moment. */
  function Counted(w: Moment): Checked
    requires ValidMoment(w)
  {
    CountedFrom(DayNumber(w.date) + Deviation(w.date), w.hour, w.minute, w.second)
  }

  lemma SmallCount(n: int, dev: int, hour: int, minute: int, second: int)
    requires 0 <= n + dev < 0x1_0000
    ensures var s := Seconds(n, hour, minute, second) + DAY_SECONDS * dev;
            CountedFrom(n + dev, hour, minute, second) == if s < 0x8000_0000 then Fits(U32(EPOCH + s)) else Overflow
  {
    assert U16(n + dev) == n + dev;
    assert Seconds(n + dev, hour, minute, second) == Seconds(n, hour, minute, second) + DAY_SECONDS * dev;
  }

  /** Up to the year 2177 the day count fits 16 bits, and the clock reads the seconds exact but for the
      deviation, unless they are 2^31 or more after the epoch: then the signed arithmetic overflows. */
  lemma CountedExactly(w: Moment)
    requires ValidMoment(w) && w.date.year < 2178
    ensures Counted(w) == if Unix(w) - EPOCH < 0x8000_0000 then Fits(U32(Unix(w))) else Overflow
  {
    DayCountFits(w.date);
    SmallCount(DayNumber(w.date), Deviation(w.date), w.hour, w.minute, w.second);
  }

  lemma SumOfDays(d: Date)
    requires ValidDate(d)
    ensures var y := d.year - 2000;
            d.day + DaysBefore(d.month) + (if d.month == 2 && Leap(y) then 1 else 0) + 365 * y + (y + 3) / 4 - 1 ==
            DayNumber(d) + Deviation(d)
  {
    DaysBeforeTable();
  }

  lemma DayCountFits(d: Date)
    requires ValidDate(d) && d.year < 2178
    ensures 0 <= DayNumber(d) + Deviation(d) < 0x1_0000
  {
    DaysBeforeTable();
  }

  /** The seconds that unixtime computes for a moment, as the code is written. */
  function Unix(w: Moment): int
    requires ValidMoment(w)
  {
    EPOCH + SecondsOf(w) + DAY_SECONDS * Deviation(w.date)
  }

  /** Setting the clock to t and reading it back, as the code is written: exact in common years and in
      January, one day late in the February of a leap year and one day early from its March on. Up to
      2^31 seconds after the epoch no signed 32-bit word overflows in between. */
  lemma ReadBack(t: u32, w: Moment)
    requires 0 <= t - EPOCH < 0x8000_0000 && w == MomentAt(t - EPOCH)
    ensures Unix(w) == t + DAY_SECONDS * Deviation(w.date)
    ensures Counted(w) == Fits(U32(t + DAY_SECONDS * Deviation(w.date)))
    ensures Counted(w) == Fits(t) <==> !Leap(w.date.year) || w.date.month == 1
  {
    UnixOfMoment(t, w);
    DayNumberInverts((t - EPOCH) / DAY_SECONDS);
    CountedNearby(t, w, (t - EPOCH) / DAY_SECONDS);
    NoDeviation(w.date);
  }

  lemma CountedNearby(t: u32, w: Moment, n: nat)
    requires 0 <= t - EPOCH < 0x8000_0000 && ValidMoment(w) && DayNumber(w.date) == n == (t - EPOCH) / DAY_SECONDS
    requires Unix(w) == t + DAY_SECONDS * Deviation(w.date)
    ensures Counted(w) == Fits(U32(t + DAY_SECONDS * Deviation(w.date)))
    ensures Counted(w) == Fits(t) <==> Deviation(w.date) == 0
  {
    UnixNearby(t, w.date, n);
    LastDayFits(t - EPOCH);
    EarlyYear(w.date);
    CountedExactly(w);
  }

  lemma NoDeviation(d: Date)
    ensures Deviation(d) == 0 <==> !Leap(d.year) || d.month == 1
  {
  }

  lemma UnixOfMoment(t: u32, w: Moment)
    requires 0 <= t - EPOCH && w == MomentAt(t - EPOCH)
    ensures Unix(w) == t + DAY_SECONDS * Deviation(w.date)
  {
    SecondsInvert(t - EPOCH);
  }

  lemma EarlyYear(d: Date)
    requires ValidDate(d) && DayNumber(d) <= 24855
    ensures d.year < 2178
  {
  }

  lemma UnixNearby(t: u32, d: Date, n: nat)
    requires 0 <= t - EPOCH < 0x8000_0000 && ValidDate(d) && DayNumber(d) == n == (t - EPOCH) / DAY_SECONDS
    ensures 0 <= t - EPOCH + DAY_SECONDS * Deviation(d) < 0x8000_0000
    ensures U32(t + DAY_SECONDS * Deviation(d)) == t <==> Deviation(d) == 0
  {
    LastDayFits(t - EPOCH);
    LeapFebruaryEarly(d);
    Nearby(t, Deviation(d));
  }

  lemma LastDayFits(s: nat)
    requires s < 0x8000_0000
    ensures s / DAY_SECONDS <= 24855
    ensures s / DAY_SECONDS < 24800 ==> s + DAY_SECONDS < 0x8000_0000
    ensures s / DAY_SECONDS >= 59 ==> s - DAY_SECONDS >= 0
  {
  }

  lemma Nearby(t: u32, dev: int)
    requires -1 <= dev <= 1 && 0 <= t - EPOCH + DAY_SECONDS * dev < 0x8000_0000
    ensures U32(t + DAY_SECONDS * dev) == t <==> dev == 0
  {
  }

  /** The last day that fits in 2^31 seconds is a January one. */
  lemma LeapFebruaryEarly(d: Date)
    requires ValidDate(d) && DayNumber(d) <= 24855
    ensures Deviation(d) == 1 ==> DayNumber(d) < 24800
    ensures Deviation(d) == -1 ==> DayNumber(d) >= 59
  {
    DaysBeforeTable();
  }
}

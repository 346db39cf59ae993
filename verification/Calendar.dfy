/** The number of seconds to a date and time of the proleptic Gregorian calendar. */
module Calendar {
  const SECONDS_TO_UNIX_EPOCH := 62167219200
  const DAYS_IN_MONTH := [31, 28, 31, 30, 31, 30, 31, 31, 30, 31, 30, 31]
  const DAYS_SINCE_JANUARY_FOR_MONTH := [0, 31, 59, 90, 120, 151, 181, 212, 243, 273, 304, 334]

  const SATURDAY := 5
  const THURSDAY := 3

  /** Division that rounds toward zero, and its remainder. */
  function Quot(a: int, b: int): int
    requires b > 0
  {
    if a < 0 then -(-a / b) else a / b
  }

  function Rem(a: int, b: int): int
    requires b > 0
  {
    a - Quot(a, b) * b
  }

  predicate IsLeapYear(year: int) {
    (Rem(year, 4) == 0 && Rem(year, 100) != 0) || Rem(year, 400) == 0
  }

  function DaysInMonth(year: int, mon: int): (n: int)
    requires 0 <= mon < 12
    ensures 28 <= n <= 31
  {
    DAYS_IN_MONTH[mon] + if mon == 1 && IsLeapYear(year) then 1 else 0
  }

  /** A day of a year, with the month counted from zero and the day of the month from one. */
  datatype Date = Date(year: int, mon: int, mday: int) {
    predicate Valid() {
      0 <= mon < 12 && 1 <= mday <= DaysInMonth(year, mon)
    }

    predicate Before(d: Date) {
      year < d.year || (year == d.year && (mon < d.mon || (mon == d.mon && mday < d.mday)))
    }

    /** The day after. */
    function Next(): Date
      requires Valid()
    {
      if mday < DaysInMonth(year, mon) then Date(year, mon, mday + 1)
      else if mon < 11 then Date(year, mon + 1, 1)
      else Date(year + 1, 0, 1)
    }
  }

  /** The days of a year in front of a month, counted month by month. */
  function MonthStart(year: int, mon: nat): (n: nat)
    requires mon <= 12
    ensures n <= 31 * mon
  {
    if mon == 0 then 0 else MonthStart(year, mon - 1) + DaysInMonth(year, mon - 1)
  }

  /** The days from the first of January of the year zero, counted year by year in either direction. */
  function YearStart(year: int): int
    decreases if year < 0 then -year else year
  {
    if year == 0 then 0
    else if year > 0 then YearStart(year - 1) + MonthStart(year - 1, 12)
    else YearStart(year + 1) - MonthStart(year, 12)
  }

  function DayNumber(d: Date): int
    requires 0 <= d.mon < 12
  {
    YearStart(d.year) + MonthStart(d.year, d.mon) + d.mday - 1
  }

  /** How many days too late a day is taken: years before the year zero start a day late unless they are leap years. */
  function DaysLate(year: int): int {
    if year < 0 && !IsLeapYear(year) then 1 else 0
  }

  lemma {:induction false} MonthTable(year: int, mon: int)
    requires 0 <= mon < 12
    ensures MonthStart(year, mon) == DAYS_SINCE_JANUARY_FOR_MONTH[mon] + if mon > 1 && IsLeapYear(year) then 1 else 0
    decreases mon
  {
    if mon > 0 {
      MonthTable(year, mon - 1);
    }
  }

  lemma {:induction false} YearLength(year: int)
    ensures MonthStart(year, 12) == if IsLeapYear(year) then 366 else 365
  {
    MonthTable(year, 11);
  }

  /** The closed form of the number of days in front of a year. */
  function DaysToYear(year: int): int {
    year * 365 + Quot(year, 4) - Quot(year, 100) + Quot(year, 400) + if !IsLeapYear(year) then 1 else 0
  }

  predicate FitsInt(x: int) {
    -0x8000_0000 <= x < 0x8000_0000
  }

  /** Whether the sums of the closed form, which are computed in 32 bits, all fit these. */
  predicate SumsFit(year: int) {
    var a := year * 365;
    var b := a + Quot(year, 4);
    var c := b - Quot(year, 100);
    var d := c + Quot(year, 400);
    FitsInt(a) && FitsInt(b) && FitsInt(c) && FitsInt(d) && FitsInt(DaysToYear(year))
  }

  const LAST_YEAR := 5879489

  /** The years whose days can be counted in 32 bits. */
  lemma {:induction false} YearsInRange(year: int)
    ensures SumsFit(year) <==> -LAST_YEAR <= year <= LAST_YEAR
  {
    hide IsLeapYear;
    if year >= 0 {
      assert year / 100 <= year / 4 && year / 400 <= year / 100;
    } else {
      assert -year / 100 <= -year / 4 && -year / 400 <= -year / 100;
    }
  }

  /** One step away from zero in a rounded quotient. */
  lemma {:induction false} QuotStep4(y: int)
    ensures y > 0 ==> Quot(y, 4) == Quot(y - 1, 4) + if Rem(y, 4) == 0 then 1 else 0
    ensures y < 0 ==> Quot(y, 4) == Quot(y + 1, 4) - if Rem(y, 4) == 0 then 1 else 0
  {
  }

  lemma {:induction false} QuotStep100(y: int)
    ensures y > 0 ==> Quot(y, 100) == Quot(y - 1, 100) + if Rem(y, 100) == 0 then 1 else 0
    ensures y < 0 ==> Quot(y, 100) == Quot(y + 1, 100) - if Rem(y, 100) == 0 then 1 else 0
  {
  }

  lemma {:induction false} QuotStep400(y: int)
    ensures y > 0 ==> Quot(y, 400) == Quot(y - 1, 400) + if Rem(y, 400) == 0 then 1 else 0
    ensures y < 0 ==> Quot(y, 400) == Quot(y + 1, 400) - if Rem(y, 400) == 0 then 1 else 0
  {
  }

  lemma {:induction false} Multiples(y: int)
    ensures Rem(y, 400) == 0 ==> Rem(y, 100) == 0
    ensures Rem(y, 100) == 0 ==> Rem(y, 4) == 0
  {
    if Rem(y, 400) == 0 {
      assert Quot(y, 100) == 4 * Quot(y, 400);
    }
    if Rem(y, 100) == 0 {
      assert Quot(y, 4) == 25 * Quot(y, 100);
    }
  }

  lemma {:induction false} ClosedStep(y: int)
    ensures y > 0 ==> DaysToYear(y) == DaysToYear(y - 1) + 365 + if IsLeapYear(y - 1) then 1 else 0
    ensures y < 0 ==>
      DaysToYear(y) - DaysLate(y) == DaysToYear(y + 1) - DaysLate(y + 1) - 365 - if IsLeapYear(y) then 1 else 0
  {
    QuotStep4(y);
    QuotStep100(y);
    QuotStep400(y);
    Multiples(y);
  }

  lemma {:induction false} ClosedForm(year: int)
    ensures DaysToYear(year) == YearStart(year) + DaysLate(year)
    decreases if year < 0 then -year else year
  {
    if year > 0 {
      ClosedStep(year);
      ClosedForm(year - 1);
      YearLength(year - 1);
    } else if year < 0 {
      ClosedStep(year);
      ClosedForm(year + 1);
      YearLength(year);
    }
  }

  /** The day of the week counted from Sunday. */
  function Weekday(d: Date): int
    requires 0 <= d.mon < 12
  {
    Rem(SATURDAY + 1 + DayNumber(d) + DaysLate(d.year), 7)
  }

  /** The day of the week counted from Monday. */
  function FromMonday(wday: int): int {
    Rem(wday + 7 - 1, 7)
  }

  /** The broken down time of the C library. */
  class BrokenTime {
    var year: int // since 1900
    var mon: int
    var mday: int
    var hour: int
    var min: int
    var sec: int
    var wday: int

    function Day(): Date
      reads this
    {
      Date(year + 1900, mon, mday)
    }

    /** Seconds since the Unix epoch; sets the day of the week. */
    method MkGmTime() returns (time: int)
      requires 0 <= mon < 12
      modifies `wday
      ensures time == SecondsTo(Day(), hour, min, sec)
      ensures wday == Weekday(Day())
      ensures Day().Valid() ==>
        (time == 86400 * DayNumber(Day()) + 3600 * hour + 60 * min + sec - SECONDS_TO_UNIX_EPOCH <==>
          Day().year >= 0 || IsLeapYear(Day().year))
    {
      hide MonthStart, YearStart;
      var y := year + 1900;
      var leapYear := IsLeapYear(y);
      var days := y * 365 + Quot(y, 4) - Quot(y, 100) + Quot(y, 400) + if !leapYear then 1 else 0;
      ClosedForm(y);
      MonthTable(y, mon);
      days := days + DAYS_SINCE_JANUARY_FOR_MONTH[mon];
      if mon > 1 && leapYear {
        days := days + 1;
      }
      days := days + (mday - 1);
      wday := Rem(SATURDAY + 1 + days, 7);
      var seconds := days * 24 * 60 * 60;
      seconds := seconds + hour * 60 * 60;
      seconds := seconds + min * 60;
      seconds := seconds + sec;
      time := seconds - SECONDS_TO_UNIX_EPOCH;
      if Day().Valid() {
        ExactWhen(Day());
        assert time - (3600 * hour + 60 * min + sec) == SecondsTo(Day(), 0, 0, 0);
      }
    }

    function DayOfWeek(): int
      reads this
    {
      FromMonday(wday)
    }
  }

  function SecondsTo(d: Date, hour: int, min: int, sec: int): int
    requires 0 <= d.mon < 12
  {
    86400 * (DayNumber(d) + DaysLate(d.year)) + 3600 * hour + 60 * min + sec - SECONDS_TO_UNIX_EPOCH
  }

  predicate ValidTime(hour: int, min: int, sec: int) {
    0 <= hour < 24 && 0 <= min < 60 && 0 <= sec < 60
  }

  predicate EarlierTime(h: int, m: int, s: int, h2: int, m2: int, s2: int) {
    h < h2 || (h == h2 && (m < m2 || (m == m2 && s < s2)))
  }

  /** The next day is the next number, in every year. */
  lemma {:induction false} NextDay(d: Date)
    requires d.Valid()
    ensures d.Next().Valid() && d.Before(d.Next()) && DayNumber(d.Next()) == DayNumber(d) + 1
  {
    if d.mday == DaysInMonth(d.year, d.mon) && d.mon == 11 {
      YearsFollow(d.year);
    }
  }

  lemma {:induction false} YearsFollow(year: int)
    ensures YearStart(year + 1) == YearStart(year) + MonthStart(year, 12)
  {
  }

  lemma {:induction false} MonthsGrow(year: int, m: nat, n: nat)
    requires m < n <= 12
    ensures MonthStart(year, m) + DaysInMonth(year, m) <= MonthStart(year, n)
    decreases n
  {
    if m + 1 < n {
      MonthsGrow(year, m, n - 1);
    }
  }

  lemma {:induction false} YearsGrow(y: int, z: int)
    requires y < z
    ensures YearStart(y) + MonthStart(y, 12) <= YearStart(z)
    decreases z - y
  {
    YearsFollow(z - 1);
    if y + 1 < z {
      YearsGrow(y, z - 1);
    }
  }

  /** An earlier day has a smaller number. */
  lemma {:induction false} EarlierDay(d: Date, e: Date)
    requires d.Valid() && e.Valid() && d.Before(e)
    ensures DayNumber(d) < DayNumber(e)
  {
    MonthsGrow(d.year, d.mon, 12);
    if d.year < e.year {
      YearsGrow(d.year, e.year);
    } else if d.mon < e.mon {
      MonthsGrow(d.year, d.mon, e.mon);
    }
  }

  /** From the year zero on the result is later just when the date and time are. */
  lemma {:induction false} OrderKept(d: Date, h: int, m: int, s: int, e: Date, h2: int, m2: int, s2: int)
    requires d.Valid() && e.Valid() && d.year >= 0 && e.year >= 0
    requires ValidTime(h, m, s) && ValidTime(h2, m2, s2)
    ensures SecondsTo(d, h, m, s) < SecondsTo(e, h2, m2, s2)
      <==> d.Before(e) || (d == e && EarlierTime(h, m, s, h2, m2, s2))
  {
    if d.Before(e) {
      EarlierDay(d, e);
    } else if e.Before(d) {
      EarlierDay(e, d);
    }
  }

  /** From the year zero on a day later is 86400 seconds later. */
  lemma {:induction false} DayLater(d: Date, h: int, m: int, s: int)
    requires d.Valid() && d.year >= 0
    ensures SecondsTo(d.Next(), h, m, s) == SecondsTo(d, h, m, s) + 86400
  {
    NextDay(d);
  }

  /** Every day from the year zero on has a date. */
  lemma {:induction false} EveryDayHasADate(n: nat) returns (d: Date)
    ensures d.Valid() && d.year >= 0 && DayNumber(d) == n
  {
    if n == 0 {
      d := Date(0, 0, 1);
    } else {
      var e := EveryDayHasADate(n - 1);
      NextDay(e);
      d := e.Next();
    }
  }

  /** The result is the true number of seconds just for years from zero on and for leap years. */
  lemma {:induction false} ExactWhen(d: Date)
    requires d.Valid()
    ensures 86400 * DayNumber(d) - SECONDS_TO_UNIX_EPOCH == SecondsTo(d, 0, 0, 0) <==> d.year >= 0 || IsLeapYear(d.year)
  {
  }

  lemma {:induction false} LastDay(d: Date)
    requires d.Valid() && d.Next().year > d.year
    ensures d.Next().year == d.year + 1 && DayNumber(d.Next()) == DayNumber(d) + 1
  {
    NextDay(d);
  }

  /** The last day of a late year is taken for the first day of the next, unless that one is late as well. */
  lemma {:induction false} LateYearEnds(d: Date)
    requires d.Valid() && d.year < 0 && !IsLeapYear(d.year) && d.Next().year > d.year
    ensures SecondsTo(d, 0, 0, 0) == SecondsTo(d.Next(), 0, 0, 0) <==> d.year == -1 || IsLeapYear(d.year + 1)
  {
    LastDay(d);
    assert DaysLate(d.year) == 1;
  }

  lemma {:induction false} NotBeforeYearZero(year: nat)
    ensures YearStart(year) >= 0
  {
    if year > 0 {
      NotBeforeYearZero(year - 1);
    }
  }

  lemma {:induction false} NextInWeek(n: nat)
    ensures 0 <= Rem(n, 7) < 7 && Rem(n + 1, 7) == (Rem(n, 7) + 1) % 7
  {
  }

  lemma {:induction false} NextFromMonday(w: int)
    requires 0 <= w < 7
    ensures 0 <= FromMonday(w) < 7 && FromMonday((w + 1) % 7) == (FromMonday(w) + 1) % 7
  {
  }

  /** From the year zero on the day of the week goes on by one from day to day. */
  lemma {:induction false} WeekdayAdvances(d: Date)
    requires d.Valid() && d.year >= 0
    ensures 0 <= Weekday(d) < 7 && Weekday(d.Next()) == (Weekday(d) + 1) % 7
    ensures 0 <= FromMonday(Weekday(d)) < 7 && FromMonday(Weekday(d.Next())) == (FromMonday(Weekday(d)) + 1) % 7
  {
    NextDay(d);
    NotBeforeYearZero(d.year);
    NextInWeek(SATURDAY + 1 + DayNumber(d));
    NextFromMonday(Weekday(d));
  }

  lemma {:induction false} EpochYear(y: int)
    requires y == 1970
    ensures YearStart(y) == 719528
  {
    ClosedForm(y);
    assert Quot(y, 4) == 492 && Quot(y, 100) == 19 && Quot(y, 400) == 4;
  }

  lemma {:induction false} FirstOfJanuary(d: Date)
    requires d.year >= 0 && d.mon == 0 && d.mday == 1
    ensures SecondsTo(d, 0, 0, 0) == 86400 * YearStart(d.year) - SECONDS_TO_UNIX_EPOCH
    ensures Weekday(d) == Rem(SATURDAY + 1 + YearStart(d.year), 7)
  {
  }

  lemma {:induction false} FirstEpochDay(d: Date, n: int)
    requires d.year >= 0 && d.mon == 0 && d.mday == 1 && YearStart(d.year) == n && n == 719528
    ensures SecondsTo(d, 0, 0, 0) == 0 && FromMonday(Weekday(d)) == THURSDAY
  {
    FirstOfJanuary(d);
    assert Weekday(d) == Rem(SATURDAY + 1 + n, 7);
  }

  /** The Unix epoch starts at zero, on a Thursday. */
  lemma {:induction false} UnixEpoch(d: Date)
    requires d.year == 1970 && d.mon == 0 && d.mday == 1
    ensures SecondsTo(d, 0, 0, 0) == 0 && FromMonday(Weekday(d)) == THURSDAY
  {
    EpochYear(d.year);
    FirstEpochDay(d, YearStart(d.year));
  }

  /** The leap years: every fourth year but for the hundreds that are no multiples of 400, before the year zero too. */
  lemma {:induction false} LeapYears(year: int)
    ensures IsLeapYear(year) <==> year % 4 == 0 && (year % 100 != 0 || year % 400 == 0)
  {
    assert Rem(year, 4) == 0 <==> year % 4 == 0;
    assert Rem(year, 100) == 0 <==> year % 100 == 0;
    assert Rem(year, 400) == 0 <==> year % 400 == 0;
  }

  /** The lengths of the months from January on. */
  lemma {:induction false} MonthLengths(year: int)
    ensures DaysInMonth(year, 0) == 31 && DaysInMonth(year, 2) == 31 && DaysInMonth(year, 3) == 30
    ensures DaysInMonth(year, 4) == 31 && DaysInMonth(year, 5) == 30 && DaysInMonth(year, 6) == 31
    ensures DaysInMonth(year, 7) == 31 && DaysInMonth(year, 8) == 30 && DaysInMonth(year, 9) == 31
    ensures DaysInMonth(year, 10) == 30 && DaysInMonth(year, 11) == 31
    ensures DaysInMonth(year, 1) == if year % 4 == 0 && (year % 100 != 0 || year % 400 == 0) then 29 else 28
  {
    hide IsLeapYear;
    LeapYears(year);
  }

  /** Quotients 400 years later; crossing the year zero changes them by one less for a year that is no multiple. */
  lemma {:induction false} QuotientsLater(y: int)
    ensures Quot(y + 400, 4) == Quot(y, 4) + 100 - if -400 < y < 0 && y % 4 != 0 then 1 else 0
    ensures Quot(y + 400, 100) == Quot(y, 100) + 4 - if -400 < y < 0 && y % 100 != 0 then 1 else 0
    ensures Quot(y + 400, 400) == Quot(y, 400) + 1 - if -400 < y < 0 && y % 400 != 0 then 1 else 0
  {
  }

  lemma {:induction false} ClosedInCenturies(y: int)
    ensures DaysToYear(y + 400) - DaysLate(y + 400) == DaysToYear(y) - DaysLate(y) + 146097
  {
    hide IsLeapYear, Quot;
    LeapYears(y);
    LeapYears(y + 400);
    QuotientsLater(y);
  }

  /** The calendar repeats after 400 years, which are 146097 days, a whole number of weeks. */
  lemma {:induction false} FourHundredYears(year: int)
    ensures YearStart(year + 400) == YearStart(year) + 146097 && 146097 % 7 == 0
  {
    hide YearStart;
    ClosedForm(year);
    ClosedForm(year + 400);
    ClosedInCenturies(year);
  }

  /** The first of March 2000 is a Wednesday, 951868800 seconds after the Unix epoch. */
  lemma {:induction false} FirstOfMarch2000(d: Date)
    requires d.year == 2000 && d.mon == 2 && d.mday == 1
    ensures SecondsTo(d, 0, 0, 0) == 951868800 && FromMonday(Weekday(d)) == 2
  {
    hide YearStart, MonthStart, IsLeapYear;
    ClosedForm(d.year);
    LeapYears(d.year);
    assert DaysToYear(d.year) == 730485;
    MonthTable(d.year, d.mon);
  }

  lemma {:induction false} InWeek(n: int)
    ensures (Rem(n, 7) - n) % 7 == 0 && (n >= 0 ==> 0 <= Rem(n, 7) < 7) && (n <= 0 ==> -7 < Rem(n, 7) <= 0)
  {
  }

  lemma {:induction false} InWeekFromMonday(n: int, w: int)
    requires -7 < w < 7 && (w - n) % 7 == 0
    ensures 0 <= FromMonday(w) < 7 && (FromMonday(w) - (n - 1)) % 7 == 0
  {
    assert FromMonday(w) == if w <= 0 then w + 6 else w - 1;
  }

  /** The day of the week goes with the number of the day. Counted from Sunday it is negative or zero before the year
      zero, but for the days of its last week; counted from Monday it never is. */
  lemma {:induction false} WeekdayOfDay(d: Date)
    requires d.Valid()
    ensures var n := 6 + DayNumber(d) + DaysLate(d.year);
      && (Weekday(d) - n) % 7 == 0 && (n >= 0 ==> 0 <= Weekday(d) < 7) && (n <= 0 ==> -7 < Weekday(d) <= 0)
      && 0 <= FromMonday(Weekday(d)) < 7 && (FromMonday(Weekday(d)) - (n - 1)) % 7 == 0
  {
    hide MonthStart, YearStart, IsLeapYear, Rem, FromMonday, DaysLate;
    var n := 6 + DayNumber(d) + DaysLate(d.year);
    InWeek(n);
    InWeekFromMonday(n, Weekday(d));
  }
}

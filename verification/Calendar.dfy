/** `ulocaltime` of lib/ustdlib.c against the Gregorian calendar. */
module Calendar {
  import opened Numbers

  // ---- the calendar -------------------------------------------------------------------------

  predicate Leap(year: nat) {
    year % 4 == 0 && (year % 100 != 0 || year % 400 == 0)
  }

  /** Days from 1 January 1970 to 1 January of `year`. */
  function DaysBefore(year: nat): nat
    requires year >= 1970
  {
    if year == 1970 then 0 else DaysBefore(year - 1) + (if Leap(year - 1) then 366 else 365)
  }

  /** Months are counted from 0. */
  function MonthDays(year: nat, mon: nat): nat {
    if mon == 1 then (if Leap(year) then 29 else 28)
    else if mon == 3 || mon == 5 || mon == 8 || mon == 10 then 30 else 31
  }

  function DaysBeforeMonth(year: nat, mon: nat): nat {
    if mon == 0 then 0 else DaysBeforeMonth(year, mon - 1) + MonthDays(year, mon - 1)
  }

  /** Sunday is 0; the first day of 1970 was a Thursday. */
  function Weekday(day: nat): nat {
    if day == 0 then 4 else (Weekday(day - 1) + 1) % 7
  }

  datatype Date = Date(year: nat, mon: nat, mday: nat, hour: nat, min: nat, sec: nat)

  predicate Exists(d: Date) {
    d.year >= 1970 && d.mon < 12 && 1 <= d.mday <= MonthDays(d.year, d.mon) && d.hour < 24 && d.min < 60 && d.sec < 60
  }

  function DayNumber(year: nat, mon: nat, mday: nat): nat
    requires year >= 1970 && mday >= 1
  {
    DaysBefore(year) + DaysBeforeMonth(year, mon) + mday - 1
  }

  /** Seconds from the beginning of 1970. */
  function Seconds(d: Date): nat
    requires Exists(d)
  {
    ((DayNumber(d.year, d.mon, d.mday) * 24 + d.hour) * 60 + d.min) * 60 + d.sec
  }

  /** The beginning of 1 March 2100. */
  const MARCH_2100 := 4107542400

  // ---- dates are determined by their seconds --------------------------------------------------

  lemma {:induction false} MonthsFit(year: nat, mon: nat, later: nat)
    requires mon < later <= 12
    ensures DaysBeforeMonth(year, mon) + MonthDays(year, mon) <= DaysBeforeMonth(year, later)
    decreases later
  {
    if mon + 1 < later {
      MonthsFit(year, mon, later - 1);
    }
  }

  lemma YearIsMonths(year: nat)
    ensures DaysBeforeMonth(year, 12) == if Leap(year) then 366 else 365
  {
    TableIsMonths(year, 11);
  }

  lemma {:induction false} YearsFit(year: nat, later: nat)
    requires 1970 <= year < later
    ensures DaysBefore(year) + DaysBeforeMonth(year, 12) <= DaysBefore(later)
    decreases later
  {
    YearIsMonths(year);
    if year + 1 < later {
      YearsFit(year, later - 1);
    }
  }

  /** A day of an earlier year or month has a smaller number. */
  lemma EarlierDay(a: Date, b: Date)
    requires Exists(a) && Exists(b) && (a.year < b.year || (a.year == b.year && a.mon < b.mon))
    ensures DayNumber(a.year, a.mon, a.mday) < DayNumber(b.year, b.mon, b.mday)
  {
    hide MonthDays, DaysBefore, DaysBeforeMonth;
    if a.year < b.year {
      MonthsFit(a.year, a.mon, 12);
      YearsFit(a.year, b.year);
    } else {
      MonthsFit(a.year, a.mon, b.mon);
    }
  }

  /** No two dates have the same seconds. */
  lemma Unique(a: Date, b: Date)
    requires Exists(a) && Exists(b) && Seconds(a) == Seconds(b)
    ensures a == b
  {
    hide MonthDays, DaysBefore, DaysBeforeMonth;
    if a.year < b.year || (a.year == b.year && a.mon < b.mon) {
      EarlierDay(a, b);
    } else if b.year < a.year || (b.year == a.year && b.mon < a.mon) {
      EarlierDay(b, a);
    }
  }

  // ---- what the program computes --------------------------------------------------------------

  const DAYS_TO_MONTH: seq<nat> := [0, 31, 59, 90, 120, 151, 181, 212, 243, 273, 304, 334]

  /** Days before a year counted from 1968, with a leap year every four years. */
  function JulianBefore(year: nat): nat
    requires year >= 1968
  {
    (year - 1968) * 365 + (year - 1968 + 3) / 4
  }

  /** The two calendars differ by the leap day of 2100 only. */
  lemma {:induction false} JulianAgrees(year: nat)
    requires 1970 <= year < 2200
    ensures JulianBefore(year) == DaysBefore(year) + 731 + (if year > 2100 then 1 else 0)
  {
    if year > 1970 {
      JulianAgrees(year - 1);
    }
  }

  lemma {:induction false} TableIsMonths(year: nat, mon: nat)
    requires mon < 12
    ensures DaysBeforeMonth(year, mon) == DAYS_TO_MONTH[mon] + (if mon >= 2 && Leap(year) then 1 else 0)
  {
    if mon > 0 {
      TableIsMonths(year, mon - 1);
    }
  }

  lemma {:induction false} WeekdayIs(day: nat)
    ensures Weekday(day) == (day + 4) % 7
  {
    if day > 0 {
      WeekdayIs(day - 1);
    }
  }

  /** The year the division by 365 finds once the leap days are taken off. */
  lemma YearFound(days: nat, q: nat, r: nat, leaps: nat, year: nat, left: nat)
    requires days + 731 == q * 1461 + r && r < 1461 && leaps == (if r > 59 then q + 1 else q)
    requires year == (days + 731 - leaps) / 365 + 1968 && left + (year - 1968) * 365 + leaps == days + 731
    ensures year >= 1970 && left < 365
    ensures r <= 59 ==> year % 4 == 0 && JulianBefore(year) + left == days + 731 && left <= 59
    ensures r > 59 && year % 4 == 0 ==> left >= 59 && JulianBefore(year) + left + 1 == days + 731
    ensures r > 59 && year % 4 != 0 ==> JulianBefore(year) + left == days + 731
  {
  }

  /** The month and day the table gives: right for the year unless it is 29 February 2100. */
  lemma DateFound(days: nat, year: nat, left: nat, early: bool, mon: nat, mday: nat)
    requires 1970 <= year < 2200 && left < 365 && mon < 12 && mday == left - DAYS_TO_MONTH[mon] + 1 >= 1
    requires mon < (if early then 1 else 11) ==> left < DAYS_TO_MONTH[mon + 1]
    requires if early then year % 4 == 0 && left <= 59 && mon < 2 else year % 4 == 0 ==> left >= 59
    requires JulianBefore(year) + left + (if !early && year % 4 == 0 then 1 else 0) == days + 731
    ensures days < 47541 ==> mday <= MonthDays(year, mon) && DayNumber(year, mon, mday) == days
    ensures days >= 47541 ==> mday > MonthDays(year, mon) || DayNumber(year, mon, mday) != days
  {
    hide DaysBefore, DaysBeforeMonth;
    JulianAgrees(year);
    TableIsMonths(year, mon);
    assert year % 4 == 0 ==> Leap(year) || year == 2100;
  }

  /** The three divisions split a time into its day and the time of day. */
  lemma TimeOfDay(t: nat)
    ensures var m, h, d := t / 60, t / 3600, t / 86400;
      && t / 60 / 60 == h && t / 60 / 60 / 24 == d
      && 0 <= t - m * 60 < 60 && 0 <= m - h * 60 < 60 && 0 <= h - d * 24 < 24
      && t == ((d * 24 + (h - d * 24)) * 60 + (m - h * 60)) * 60 + (t - m * 60)
      && t % 86400 == ((h - d * 24) * 60 + (m - h * 60)) * 60 + (t - m * 60)
  {
  }

  /** The broken-down time the caller passes in. */
  class Time {
    var sec: nat
    var min: nat
    var hour: nat
    var mday: nat
    var mon: nat
    var year: nat
    var wday: nat

    function Value(): Date
      reads this
    {
      Date(year, mon, mday, hour, min, sec)
    }

    /** The date of a day. */
    method SetDate(days: nat)
      requires days < 50000
      modifies `year, `mon, `mday
      ensures days < 47541 ==>
        year >= 1970 && mon < 12 && 1 <= mday <= MonthDays(year, mon) && DayNumber(year, mon, mday) == days
      ensures days >= 47541 ==>
        year >= 1970 && mday >= 1 && (mday > MonthDays(year, mon) || DayNumber(year, mon, mday) != days)
    {
      hide MonthDays, DayNumber;
      var time := days + (366 + 365);
      var leaps := time / 1461;
      ghost var q, r := leaps, time - leaps * 1461;
      var months := 2;
      if time - leaps * 1461 > 31 + 28 {
        leaps := leaps + 1;
        months := 12;
      }
      year := (time - leaps) / 365 + 1968;
      time := time - ((year - 1968) * 365 + leaps);
      YearFound(days, q, r, leaps, year, time);
      var m := 0;
      while m < months && DAYS_TO_MONTH[m] <= time
        invariant m <= months && (m > 0 ==> DAYS_TO_MONTH[m - 1] <= time)
      {
        m := m + 1;
      }
      mon := m - 1;
      mday := time - DAYS_TO_MONTH[m - 1] + 1;
      DateFound(days, year, time, months == 2, mon, mday);
    }

    /** For every 32-bit time: the result is the date of that time exactly before March 2100, the time of
        day and the weekday are always right. */
    method LocalTime(t: U32)
      modifies this
      ensures t < 4107542400 <==> Exists(Value()) && Seconds(Value()) == t
      ensures hour < 24 && min < 60 && sec < 60 && t % 86400 == (hour * 60 + min) * 60 + sec
      ensures wday == Weekday(t / 86400)
    {
      hide MonthDays, DayNumber, Weekday;
      TimeOfDay(t);
      var time: nat := t;
      var temp := time / 60;
      sec := time - temp * 60;
      time := temp;
      temp := time / 60;
      min := time - temp * 60;
      time := temp;
      temp := time / 24;
      hour := time - temp * 24;
      time := temp;
      wday := (time + 4) % 7;
      WeekdayIs(time);
      SetDate(time);
    }
  }

  /** The limit is the beginning of 1 March 2100, a date the program gets wrong. */
  lemma LimitIsMarch2100()
    ensures Exists(Date(2100, 2, 1, 0, 0, 0)) && Seconds(Date(2100, 2, 1, 0, 0, 0)) == MARCH_2100
  {
    hide DaysBefore;
    JulianAgrees(2100);
  }

  /** 29 February 2000 was a Tuesday, and 1 March 2100 will be a Monday. */
  lemma KnownDays()
    ensures DayNumber(2000, 1, 29) == 11016 && Weekday(11016) == 2
    ensures DayNumber(2100, 2, 1) == 47541 && Weekday(47541) == 1
  {
    hide DaysBefore, Weekday;
    JulianAgrees(2000);
    JulianAgrees(2100);
    WeekdayIs(11016);
    WeekdayIs(47541);
  }
}

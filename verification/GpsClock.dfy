/**
  The clock correction of app/gps_control.c: `UTC2BTC` moves a date-time one second and
  eight hours on, carrying through minutes, hours, days, months and years in place.
  */
module GpsClock {

  datatype Time = Time(year: int, month: int, day: int, hour: int, minute: int, second: int)

  /** The code's calendar has a leap year every fourth year, centuries included. */
  datatype Calendar = EveryFourth | Gregorian

  const SHIFT: int := 8 * 3600 + 1
  const DAY: int := 86400

  predicate Leap(c: Calendar, year: int) {
    year % 4 == 0 && (c == EveryFourth || year % 100 != 0 || year % 400 == 0)
  }

  function DaysIn(c: Calendar, year: int, month: int): int {
    if month == 2 then (if Leap(c, year) then 29 else 28)
    else if month == 4 || month == 6 || month == 9 || month == 11 then 30
    else 31
  }

  predicate Valid(c: Calendar, t: Time) {
    && 1 <= t.month <= 12 && 1 <= t.day <= DaysIn(c, t.year, t.month)
    && 0 <= t.hour < 24 && 0 <= t.minute < 60 && 0 <= t.second < 60
  }

  // ----- Linear time

  function DaysBefore(c: Calendar, year: int, month: int): int
    requires 1 <= month <= 13
    decreases month
  {
    if month == 1 then 0 else DaysBefore(c, year, month - 1) + DaysIn(c, year, month - 1)
  }

  /** Leap years from year 0 up to but not including `year`, negative years counted back. */
  function LeapsBefore(c: Calendar, year: int): int {
    (year + 3) / 4 - (if c == EveryFourth then 0 else (year + 99) / 100 - (year + 399) / 400)
  }

  function DayNumber(c: Calendar, t: Time): int
    requires 1 <= t.month <= 12
  {
    365 * t.year + LeapsBefore(c, t.year) + DaysBefore(c, t.year, t.month) + t.day
  }

  function SecondOfDay(t: Time): int {
    (t.hour * 60 + t.minute) * 60 + t.second
  }

  function Seconds(c: Calendar, t: Time): int
    requires 1 <= t.month <= 12
  {
    DayNumber(c, t) * DAY + SecondOfDay(t)
  }

  lemma {:induction false} By4(x: int, q: int, r: int)
    requires x == 4 * q + r && 0 <= r < 4
    ensures x / 4 == q && x % 4 == r
  {
  }

  lemma {:induction false} By100(x: int, q: int, r: int)
    requires x == 100 * q + r && 0 <= r < 100
    ensures x / 100 == q && x % 100 == r
  {
  }

  lemma {:induction false} By400(x: int, q: int, r: int)
    requires x == 400 * q + r && 0 <= r < 400
    ensures x / 400 == q && x % 400 == r
  {
  }

  lemma {:induction false} MultiplesStep4(y: int)
    ensures (y + 4) / 4 - (y + 3) / 4 == if y % 4 == 0 then 1 else 0
  {
    var q, r := y / 4, y % 4;
    By4(y + 4, q + 1, r);
    By4(y + 3, if r == 0 then q else q + 1, if r == 0 then 3 else r - 1);
  }

  lemma {:induction false} MultiplesStep100(y: int)
    ensures (y + 100) / 100 - (y + 99) / 100 == if y % 100 == 0 then 1 else 0
  {
    var q, r := y / 100, y % 100;
    By100(y + 100, q + 1, r);
    By100(y + 99, if r == 0 then q else q + 1, if r == 0 then 99 else r - 1);
  }

  lemma {:induction false} MultiplesStep400(y: int)
    ensures (y + 400) / 400 - (y + 399) / 400 == if y % 400 == 0 then 1 else 0
  {
    var q, r := y / 400, y % 400;
    By400(y + 400, q + 1, r);
    By400(y + 399, if r == 0 then q else q + 1, if r == 0 then 399 else r - 1);
  }

  lemma {:induction false} Multiples(y: int)
    ensures y % 400 == 0 ==> y % 100 == 0
    ensures y % 100 == 0 ==> y % 4 == 0
  {
    if y % 400 == 0 {
      By100(y, 4 * (y / 400), 0);
    }
    if y % 100 == 0 {
      By4(y, 25 * (y / 100), 0);
    }
  }

  lemma {:induction false} LeapsStep(c: Calendar, year: int)
    ensures LeapsBefore(c, year + 1) == LeapsBefore(c, year) + (if Leap(c, year) then 1 else 0)
  {
    MultiplesStep4(year);
    MultiplesStep100(year);
    MultiplesStep400(year);
    Multiples(year);
    assert year + 1 + 3 == year + 4 && year + 1 + 99 == year + 100 && year + 1 + 399 == year + 400;
  }

  lemma {:induction false} YearLength(c: Calendar, year: int)
    ensures DaysBefore(c, year, 13) == 365 + (if Leap(c, year) then 1 else 0)
  {
    assert DaysBefore(c, year, 3) == 59 + (if Leap(c, year) then 1 else 0);
    assert DaysBefore(c, year, 6) == DaysBefore(c, year, 3) + 92;
    assert DaysBefore(c, year, 9) == DaysBefore(c, year, 6) + 92;
    assert DaysBefore(c, year, 12) == DaysBefore(c, year, 9) + 91;
  }

  /** The calendars year by year and month by month. */
  lemma {:induction false} MonthLengths(year: int, month: int)
    requires 1 <= month <= 12
    ensures Leap(Gregorian, year) <==> (year % 4 == 0 && year % 100 != 0) || year % 400 == 0
    ensures Leap(EveryFourth, year) <==> year % 4 == 0
    ensures forall c :: DaysIn(c, year, month)
                        == [31, if Leap(c, year) then 29 else 28, 31, 30, 31, 30, 31, 31, 30, 31, 30, 31][month - 1]
  {
    Multiples(year);
  }

  // ----- The next day, and Beijing time

  function NextDay(c: Calendar, t: Time): Time {
    if t.day < DaysIn(c, t.year, t.month) then t.(day := t.day + 1)
    else if t.month < 12 then t.(month := t.month + 1, day := 1)
    else t.(year := t.year + 1, month := 1, day := 1)
  }

  function AtSecond(t: Time, s: int): Time {
    t.(hour := s / 3600, minute := s / 60 % 60, second := s % 60)
  }

  function Beijing(c: Calendar, t: Time): Time {
    var s := SecondOfDay(t) + SHIFT;
    if s < DAY then AtSecond(t, s) else AtSecond(NextDay(c, t), s - DAY)
  }

  lemma {:induction false} NextDayIsNext(c: Calendar, t: Time)
    requires Valid(c, t)
    ensures Valid(c, NextDay(c, t)) && DayNumber(c, NextDay(c, t)) == DayNumber(c, t) + 1
  {
    if t.day == DaysIn(c, t.year, t.month) && t.month == 12 {
      LeapsStep(c, t.year);
      YearLength(c, t.year);
      assert DaysBefore(c, t.year, 13) == DaysBefore(c, t.year, 12) + 31;
    }
  }

  lemma {:induction false} AtSecondIsThere(t: Time, s: int)
    requires 0 <= s < DAY
    ensures SecondOfDay(AtSecond(t, s)) == s
    ensures 0 <= s / 3600 < 24 && 0 <= s / 60 % 60 < 60 && 0 <= s % 60 < 60
  {
    assert s / 3600 == s / 60 / 60;
  }

  /** Beijing time is a valid time exactly 28801 seconds later, across every carry. */
  lemma {:induction false} BeijingIsLater(c: Calendar, t: Time)
    requires Valid(c, t)
    ensures Valid(c, Beijing(c, t)) && Seconds(c, Beijing(c, t)) == Seconds(c, t) + 28801
  {
    var s := SecondOfDay(t) + SHIFT;
    if s < DAY {
      AtSecondIsThere(t, s);
    } else {
      NextDayIsNext(c, t);
      AtSecondIsThere(NextDay(c, t), s - DAY);
    }
  }

  lemma {:induction false} DaysBeforeGrows(c: Calendar, year: int, a: int, b: int)
    requires 1 <= a < b <= 13
    ensures DaysBefore(c, year, a) + DaysIn(c, year, a) <= DaysBefore(c, year, b)
    decreases b
  {
    if a + 1 < b {
      DaysBeforeGrows(c, year, a, b - 1);
    }
  }

  lemma {:induction false} YearsGrow(c: Calendar, a: int, b: int)
    requires a < b
    ensures 365 * a + LeapsBefore(c, a) + DaysBefore(c, a, 13) <= 365 * b + LeapsBefore(c, b)
    decreases b - a
  {
    LeapsStep(c, a);
    YearLength(c, a);
    if a + 1 < b {
      YearsGrow(c, a + 1, b);
      YearLength(c, a + 1);
    }
  }

  /** No two valid times have the same linear second, so the second count pins the result down. */
  lemma {:induction false} SecondsDetermineTime(c: Calendar, t: Time, u: Time)
    requires Valid(c, t) && Valid(c, u) && Seconds(c, t) == Seconds(c, u)
    ensures t == u
  {
    SecondsOfDay(c, t, u);
    hide Seconds, SecondOfDay, Leap, DaysIn, DaysBefore, LeapsBefore;
    if t.year < u.year {
      EarlierYear(c, t, u);
    } else if u.year < t.year {
      EarlierYear(c, u, t);
    } else if t.month < u.month {
      DaysBeforeGrows(c, t.year, t.month, u.month);
    } else if u.month < t.month {
      DaysBeforeGrows(c, t.year, u.month, t.month);
    }
  }

  /** Two counts of seconds are one only if day and time of day are. */
  lemma {:induction false} SecondsOfDay(c: Calendar, t: Time, u: Time)
    requires Valid(c, t) && Valid(c, u) && Seconds(c, t) == Seconds(c, u)
    ensures DayNumber(c, t) == DayNumber(c, u) && t.hour == u.hour && t.minute == u.minute && t.second == u.second
  {
    hide DayNumber, DaysIn;
    assert 0 <= SecondOfDay(t) < DAY && 0 <= SecondOfDay(u) < DAY;
  }

  lemma {:induction false} EarlierYear(c: Calendar, t: Time, u: Time)
    requires Valid(c, t) && Valid(c, u) && t.year < u.year
    ensures DayNumber(c, t) < DayNumber(c, u)
  {
    YearsGrow(c, t.year, u.year);
    DaysBeforeGrows(c, t.year, t.month, 13);
    if u.month > 1 {
      DaysBeforeGrows(c, u.year, 1, u.month);
    }
  }

  // ----- Against the Gregorian calendar

  /** The last day of February in a century year that is not a leap year, late enough for the date to change. */
  predicate CenturyTrap(t: Time) {
    t.year % 4 == 0 && !Leap(Gregorian, t.year) && t.month == 2 && t.day == 28 && SecondOfDay(t) + SHIFT >= DAY
  }

  /** On Gregorian dates the code's calendar gives Gregorian Beijing time exactly outside the trap. */
  lemma {:induction false} GregorianExactlyOutsideTrap(t: Time)
    requires Valid(Gregorian, t)
    ensures Valid(EveryFourth, t)
    ensures Beijing(EveryFourth, t) == Beijing(Gregorian, t) <==> !CenturyTrap(t)
  {}

  lemma {:induction false} NoTrapThisCentury(t: Time)
    requires Valid(Gregorian, t) && 2000 <= t.year <= 2099
    ensures Beijing(EveryFourth, t) == Beijing(Gregorian, t)
  {
    GregorianExactlyOutsideTrap(t);
  }

  lemma {:induction false} TrapExists()
    ensures var t := Time(2100, 2, 28, 16, 0, 0);
            && Valid(Gregorian, t) && CenturyTrap(t)
            && Beijing(EveryFourth, t) == Time(2100, 2, 29, 0, 0, 1)
            && Beijing(Gregorian, t) == Time(2100, 3, 1, 0, 0, 1)
  {}

  /** Noon at Greenwich, the turn of a day, of February in a leap year, and of a year. */
  lemma {:induction false} KnownTimes()
    ensures Beijing(Gregorian, Time(2023, 6, 15, 12, 0, 0)) == Time(2023, 6, 15, 20, 0, 1)
    ensures Beijing(Gregorian, Time(2023, 6, 30, 15, 59, 59)) == Time(2023, 7, 1, 0, 0, 0)
    ensures Beijing(Gregorian, Time(2024, 2, 28, 16, 0, 0)) == Time(2024, 2, 29, 0, 0, 1)
    ensures Beijing(Gregorian, Time(2023, 12, 31, 23, 59, 58)) == Time(2024, 1, 1, 7, 59, 59)
  {}

  // ----- The code

  class DateTime {
    var year: int
    var month: int
    var day: int
    var hour: int
    var minute: int
    var second: int

    function Value(): Time
      reads this
    {
      Time(year, month, day, hour, minute, second)
    }

    constructor (t: Time)
      ensures Value() == t
    {
      year, month, day, hour, minute, second := t.year, t.month, t.day, t.hour, t.minute, t.second;
    }

    /** `UTC2BTC` */
    method Utc2Btc()
      modifies this
      ensures Valid(EveryFourth, old(Value())) ==> Value() == Beijing(EveryFourth, old(Value()))
      ensures Valid(Gregorian, old(Value()))
              ==> (Value() == Beijing(Gregorian, old(Value())) <==> !CenturyTrap(old(Value())))
    {
      ghost var t := Value();
      if Valid(Gregorian, t) {
        GregorianExactlyOutsideTrap(t);
      }
      second := second + 1;
      if second > 59 {
        second := 0;
        minute := minute + 1;
        if minute > 59 {
          minute := 0;
          hour := hour + 1;
        }
      }
      hour := hour + 8;
      if hour > 23 {
        hour := hour - 24;
        if Valid(EveryFourth, t) {
          TimeOfDay(Value(), SecondOfDay(t) + SHIFT - DAY);
        }
        StepDate();
      } else if Valid(EveryFourth, t) {
        TimeOfDay(Value(), SecondOfDay(t) + SHIFT);
      }
    }

    /** The date part of `UTC2BTC`. */
    method StepDate()
      modifies this`day, this`month, this`year
      ensures 1 <= old(month) <= 12 && 1 <= old(day) <= DaysIn(EveryFourth, old(year), old(month))
              ==> Value() == NextDay(EveryFourth, old(Value()))
    {
      day := day + 1;
      if month == 2 || month == 4 || month == 6 || month == 9 || month == 11 {
        if day > 30 {
          day := 1;
          month := month + 1;
        }
      } else {
        if day > 31 {
          day := 1;
          month := month + 1;
        }
      }
      if year % 4 == 0 {
        if day > 29 && month == 2 {
          day := 1;
          month := month + 1;
        }
      } else {
        if day > 28 && month == 2 {
          day := 1;
          month := month + 1;
        }
      }
      if month > 12 {
        month := month - 12;
        year := year + 1;
      }
    }
  }

  lemma {:induction false} TimeOfDay(t: Time, s: int)
    requires 0 <= t.minute < 60 && 0 <= t.second < 60 && s == SecondOfDay(t)
    ensures t.hour == s / 3600 && t.minute == s / 60 % 60 && t.second == s % 60
  {}
}

/** The proleptic Gregorian calendar that Go's time package reads off a wall clock.

    A civil day is an integer, the number of days since 1970-01-01. A month is an
    integer too, year * 12 + (month - 1), so that the month after December is simply
    the next number; that is how time.Date normalizes month 13. */
module Calendar {
  import opened Remainders

  const DAY := 86400
  const EPOCH_MONTH := 1970 * 12

  predicate Leap(y: int) {
    y % 4 == 0 && (y % 100 != 0 || y % 400 == 0)
  }

  /** The number of days of month mi. */
  function DaysIn(mi: int): int {
    var m := mi % 12 + 1;
    if m == 2 then (if Leap(mi / 12) then 29 else 28)
    else if m == 4 || m == 6 || m == 9 || m == 11 then 30
    else 31
  }

  /** The civil day of the first of month mi: the lengths of the months since 1970, added up. */
  function MonthStart(mi: int): int
    decreases if mi >= EPOCH_MONTH then mi - EPOCH_MONTH else EPOCH_MONTH - mi
  {
    if mi == EPOCH_MONTH then 0
    else if mi > EPOCH_MONTH then MonthStart(mi - 1) + DaysIn(mi - 1)
    else MonthStart(mi + 1) - DaysIn(mi)
  }

  lemma MonthStep(mi: int)
    ensures MonthStart(mi + 1) == MonthStart(mi) + DaysIn(mi)
    ensures 28 <= DaysIn(mi) <= 31
  {
  }

  lemma {:induction false} MonthStartsIncrease(a: int, b: int)
    requires a <= b
    ensures MonthStart(a) + 28 * (b - a) <= MonthStart(b)
    decreases b - a
  {
    if a >= b {
    } else {
      MonthStep(a);
      MonthStartsIncrease(a + 1, b);
    }
  }

  /** How far civil day d lies outside the days lo..hi-1. */
  function Outside(d: int, lo: int, hi: int): nat {
    if d < lo then lo - d else if d >= hi then d - hi + 1 else 0
  }

  /** The month that contains civil day d, found by walking from month mi. */
  function Locate(d: int, mi: int): (r: int)
    ensures MonthStart(r) <= d < MonthStart(r + 1)
    decreases Outside(d, MonthStart(mi), MonthStart(mi + 1))
  {
    MonthStep(mi - 1);
    MonthStep(mi);
    MonthStep(mi + 1);
    if d < MonthStart(mi) then Locate(d, mi - 1)
    else if d >= MonthStart(mi + 1) then Locate(d, mi + 1)
    else mi
  }

  function MonthOf(d: int): (mi: int)
    ensures MonthStart(mi) <= d < MonthStart(mi + 1)
  {
    Locate(d, EPOCH_MONTH)
  }

  function YearOf(d: int): int { MonthOf(d) / 12 }

  function MonthNumber(d: int): (m: int)
    ensures 1 <= m <= 12
  {
    MonthOf(d) % 12 + 1
  }

  function DayOfMonth(d: int): (day: int)
    ensures 1 <= day <= 31
  {
    MonthStep(MonthOf(d));
    d - MonthStart(MonthOf(d)) + 1
  }

  /** Sunday is 0; 1970-01-01 was a Thursday. */
  function Weekday(d: int): (weekday: int)
    ensures 0 <= weekday <= 6
  {
    (d + 4) % 7
  }

  /** A day before the first of a month lies in an earlier month, a day on or after it does not. */
  lemma BeforeMonthStart(d: int, mi: int)
    ensures d < MonthStart(mi) <==> MonthOf(d) < mi
  {
    if d < MonthStart(mi) && MonthOf(d) >= mi {
      MonthStartsIncrease(mi, MonthOf(d));
    }
    if d >= MonthStart(mi) && MonthOf(d) < mi {
      MonthStartsIncrease(MonthOf(d) + 1, mi);
    }
  }

  lemma BeforeYear(d: int, y: int)
    ensures d < MonthStart(y * 12) <==> YearOf(d) < y
  {
    BeforeMonthStart(d, y * 12);
  }

  lemma MonthOfMonotone(d: int, e: int)
    requires d <= e
    ensures MonthOf(d) <= MonthOf(e)
    ensures YearOf(d) <= YearOf(e)
  {
    BeforeMonthStart(e, MonthOf(d));
  }

  // ----- the closed form -----

  /** Days from January 1 to the first of a month, in a year that is not a leap year. */
  function DaysBefore(month: int): int
    requires 1 <= month <= 12
  {
    if month == 1 then 0 else if month == 2 then 31 else if month == 3 then 59
    else if month == 4 then 90 else if month == 5 then 120 else if month == 6 then 151
    else if month == 7 then 181 else if month == 8 then 212 else if month == 9 then 243
    else if month == 10 then 273 else if month == 11 then 304 else 334
  }

  /** Leap days of the years before y, up to a constant. */
  function LeapDays(y: int): int {
    (y - 1) / 4 - (y - 1) / 100 + (y - 1) / 400
  }

  function DaysFromCivil(y: int, month: int): int
    requires 1 <= month <= 12
  {
    365 * (y - 1970) + LeapDays(y) - LeapDays(1970) + DaysBefore(month) + if month > 2 && Leap(y) then 1 else 0
  }

  /** Counting days month by month agrees with the usual days-from-civil formula. */
  lemma {:induction false} ClosedForm(mi: int)
    ensures MonthStart(mi) == DaysFromCivil(mi / 12, mi % 12 + 1)
    decreases if mi >= EPOCH_MONTH then mi - EPOCH_MONTH else EPOCH_MONTH - mi
  {
    ClosedFormAtEpoch();
    hide DaysFromCivil, DaysIn;
    if mi > EPOCH_MONTH {
      ClosedForm(mi - 1);
      ClosedFormStep(mi - 1);
    } else if mi < EPOCH_MONTH {
      ClosedForm(mi + 1);
      ClosedFormStep(mi);
    }
  }

  lemma ClosedFormAtEpoch()
    ensures DaysFromCivil(EPOCH_MONTH / 12, EPOCH_MONTH % 12 + 1) == 0
  {
  }

  lemma ClosedFormStep(mi: int)
    ensures DaysFromCivil((mi + 1) / 12, (mi + 1) % 12 + 1) == DaysFromCivil(mi / 12, mi % 12 + 1) + DaysIn(mi)
  {
    var y, m := mi / 12, mi % 12 + 1;
    if m == 12 {
      LeapDaysStep(y);
      assert (mi + 1) / 12 == y + 1 && (mi + 1) % 12 == 0;
    } else {
      assert (mi + 1) / 12 == y && (mi + 1) % 12 == m;
    }
  }

  lemma LeapDaysStep(y: int)
    ensures LeapDays(y + 1) == LeapDays(y) + if Leap(y) then 1 else 0
  {
    QuotientStep(y, 4);
    QuotientStep(y, 100);
    QuotientStep(y, 400);
    MultipleOfMultiple(y, 100, 4);
    MultipleOfMultiple(y, 4, 25);
  }

  lemma MultipleOfMultiple(y: int, n: int, m: int)
    requires n > 0 && m > 0
    ensures y % (n * m) == 0 ==> y % n == 0
  {
    if y % (n * m) == 0 {
      var q := y / (n * m);
      assert y == (n * m) * q == n * (m * q);
      RemainderIs(y, n, m * q, 0);
    }
  }

  lemma QuotientStep(y: int, n: int)
    requires n > 1
    ensures y / n - (y - 1) / n == if y % n == 0 then 1 else 0
  {
    var q, r := y / n, y % n;
    if r == 0 {
      RemainderIs(y - 1, n, q - 1, n - 1);
    } else {
      RemainderIs(y - 1, n, q, r - 1);
    }
  }
}

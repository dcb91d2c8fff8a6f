/** Cron specs as bit masks plus calendar constraints, and the wall-clock readings they match. */
module Schedules {
  import opened BitFacts
  import opened Calendar
  import opened Options
  import opened Zones

  const STAR_BIT: bv64 := 0x8000_0000_0000_0000

  /** The day-of-month rules L, L-n, LW and nW. */
  datatype DomConstraint = Last | LastOffset(n: int) | LastWeekday | NearestTo(n: int)

  /** The n-th weekday of the month; n is -1 for the last one. */
  datatype DowConstraint = Nth(weekday: int, n: int)

  datatype SpecSchedule = SpecSchedule(
    second: bv64, minute: bv64, hour: bv64, dom: bv64, month: bv64, dow: bv64,
    years: Option<set<int>>,
    maxSearchYears: int,
    domConstraints: seq<DomConstraint>,
    dowConstraints: seq<DowConstraint>,
    dowOrDom: bool,
    dstSkip: bool)

  /** The mask with only the bit of one value. */
  function Bit(value: int): bv64
    requires 0 <= value < 64
  {
    Shl(1, value)
  }

  predicate FieldMatches(value: int, bits: bv64)
    requires 0 <= value < 64
  {
    And(Bit(value), bits) != 0
  }

  predicate YearMatches(year: int, years: Option<set<int>>) {
    years.None? || year in years.value
  }

  /** The day of month nearest to `target` that is a weekday, in a month of `last` days that starts
      on civil day `first`; -1 when the month has no such day. */
  function NearestWeekday(first: int, last: int, target: int): int {
    if target > last then -1
    else
      var weekday := Weekday(first + target - 1);
      if weekday == 6 then (if target > 1 then target - 1 else target + 2)
      else if weekday == 0 then (if target < last then target + 1 else target - 2)
      else target
  }

  function LastWeekdayOfMonth(first: int, last: int): int {
    var weekday := Weekday(first + last - 1);
    if weekday == 6 then last - 1 else if weekday == 0 then last - 2 else last
  }

  predicate DomConstraintHolds(c: DomConstraint, d: int) {
    var mi, day := MonthOf(d), DayOfMonth(d);
    match c
    case Last => day == DaysIn(mi)
    case LastOffset(n) => day == DaysIn(mi) - n
    case LastWeekday => day == LastWeekdayOfMonth(MonthStart(mi), DaysIn(mi))
    case NearestTo(n) => day == NearestWeekday(MonthStart(mi), DaysIn(mi), n)
  }

  predicate DowConstraintHolds(c: DowConstraint, d: int) {
    var day := DayOfMonth(d);
    && c.weekday == Weekday(d)
    && (if c.n == -1 then day + 7 > DaysIn(MonthOf(d)) else c.n == (day - 1) / 7 + 1)
  }

  predicate DayMatches(s: SpecSchedule, d: int) {
    var domMatch := FieldMatches(DayOfMonth(d), s.dom) || exists c :: c in s.domConstraints && DomConstraintHolds(c, d);
    var dowMatch := FieldMatches(Weekday(d), s.dow) || exists c :: c in s.dowConstraints && DowConstraintHolds(c, d);
    if s.dowOrDom && s.dom & STAR_BIT == 0 && s.dow & STAR_BIT == 0 then domMatch || dowMatch
    else domMatch && dowMatch
  }

  /** The date fields of s match civil day d. */
  predicate DateMatches(s: SpecSchedule, d: int) {
    YearMatches(YearOf(d), s.years) && FieldMatches(MonthNumber(d), s.month) && DayMatches(s, d)
  }

  function HourOf(w: int): (h: int)
    ensures 0 <= h < 24
  {
    w / HOUR % 24
  }

  function MinuteOf(w: int): (m: int)
    ensures 0 <= m < 60
  {
    w / MINUTE % 60
  }

  function SecondOf(w: int): (s: int)
    ensures 0 <= s < 60
  {
    w % MINUTE
  }

  predicate TimeMatches(s: SpecSchedule, w: int) {
    && FieldMatches(HourOf(w), s.hour)
    && FieldMatches(MinuteOf(w), s.minute)
    && FieldMatches(SecondOf(w), s.second)
  }

  /** matchesWall: every field of s matches the wall-clock reading w. */
  predicate Matches(s: SpecSchedule, w: int) {
    DateMatches(s, w / DAY) && TimeMatches(s, w)
  }

  const DEFAULT_SEARCH_YEARS := 5

  function SearchSpan(s: SpecSchedule): (n: int)
    ensures n > 0
  {
    if s.maxSearchYears > 0 then s.maxSearchYears else DEFAULT_SEARCH_YEARS
  }

  /** nW names a Monday-to-Friday of the same month, and no other one is closer to n. */
  lemma NearestWeekdayIsNearest(first: int, last: int, target: int, other: int)
    requires 28 <= last && 1 <= target <= last
    requires 1 <= other <= last && 1 <= Weekday(first + other - 1) <= 5
    ensures var day := NearestWeekday(first, last, target);
            && 1 <= day <= last
            && 1 <= Weekday(first + day - 1) <= 5
            && Distance(day, target) <= Distance(other, target)
  {
  }

  /** LW names the last Monday-to-Friday of the month. */
  lemma LastWeekdayIsLast(first: int, last: int, other: int)
    requires 28 <= last
    requires 1 <= other <= last && 1 <= Weekday(first + other - 1) <= 5
    ensures var day := LastWeekdayOfMonth(first, last);
            && 1 <= day <= last
            && 1 <= Weekday(first + day - 1) <= 5
            && other <= day
  {
  }

  function Distance(a: int, b: int): nat { if a < b then b - a else a - b }
}

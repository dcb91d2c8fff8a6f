/** nextExisting: the least matching instant, found field by field with wrap-around restarts. */
module ForwardSearch {
  import opened Calendar
  import opened Options
  import opened Zones
  import opened Schedules
  import opened WallSteps

  // ----- seconds and minutes -----

  predicate HourOk(s: SpecSchedule, z: Zone, t: int) { FieldMatches(HourOf(Wall(z, t)), s.hour) }

  predicate MinuteOk(s: SpecSchedule, z: Zone, t: int) { FieldMatches(MinuteOf(Wall(z, t)), s.minute) }

  predicate SecondOk(s: SpecSchedule, z: Zone, t: int) { FieldMatches(SecondOf(Wall(z, t)), s.second) }

  function WallMinute(z: Zone, t: int): int { Wall(z, t) / MINUTE }

  /** An uninterrupted clock: u lies in t's period. */
  lemma WallRuns(z: Zone, t: int, u: int)
    requires Spaced(z) && t <= u
    requires PeriodEnd(z, t).None? || u < PeriodEnd(z, t).value
    ensures Wall(z, u) == Wall(z, t) + (u - t)
    ensures PeriodEnd(z, u) == PeriodEnd(z, t)
  {
    hide Period, Spaced;
    PeriodIs(z, u, Period(z, t));
  }

  lemma MinuteRuns(w: int, d: int)
    requires 0 <= d < MINUTE - SecondOf(w)
    ensures (w + d) / MINUTE == w / MINUTE
  {
  }

  lemma NextMinute(w: int)
    ensures var v := w + MINUTE - SecondOf(w);
            && SecondOf(v) == 0
            && v / MINUTE == w / MINUTE + 1
            && (MinuteOf(v) != 0 ==> MinuteOf(v) == MinuteOf(w) + 1 && v / HOUR == w / HOUR)
  {
    var q := w / MINUTE;
    assert w == q * MINUTE + SecondOf(w);
    assert w + MINUTE - SecondOf(w) == (q + 1) * MINUTE;
  }

  lemma HourStart(w: int, q: int)
    requires q == w / MINUTE && (q + 1) % 60 == 0
    ensures (q + 1) * MINUTE == (w / HOUR + 1) * HOUR
  {
    UnitsNest(w);
    var m := (q + 1) / 60;
    assert q + 1 == m * 60 && q / 60 == m - 1;
  }

  /** The first reading of a later minute that shows minute 0 starts the next hour. */
  lemma NextMinuteHour(w: int)
    ensures var v := w + MINUTE - SecondOf(w); MinuteOf(v) == 0 ==> v == (w / HOUR + 1) * HOUR
  {
    var q := w / MINUTE;
    assert w == q * MINUTE + SecondOf(w);
    var v := (q + 1) * MINUTE;
    assert v / MINUTE == q + 1;
    if MinuteOf(v) == 0 {
      HourStart(w, q);
    }
  }

  /** advanceMinute: no skipped instant shows a matching minute or leaves the hour; without a wrap the result does
      match, in the same hour; with one it is the start of the next hour or a change. */
  method AdvanceMinute(s: SpecSchedule, z: Zone, from: int) returns (t: int, wrap: bool)
    requires Spaced(z)
    ensures t >= from && (wrap ==> t > from)
    ensures forall u :: from <= u < t ==> !MinuteOk(s, z, u) && WallHour(z, u) == WallHour(z, from)
    ensures wrap ==> IsChange(z, t) || Wall(z, t) == NextHourReading(z, from)
    ensures !wrap ==> MinuteOk(s, z, t) && WallHour(z, t) == WallHour(z, from)
  {
    hide Spaced, FieldMatches, Wall, PeriodEnd, SecondOf, MinuteOf;
    t, wrap := from, false;
    var change, looked := None, false;
    var minute := MinuteOf(Wall(z, t));
    while !FieldMatches(minute, s.minute)
      invariant from <= t && minute == MinuteOf(Wall(z, t))
      invariant forall u :: from <= u < t ==> !MinuteOk(s, z, u) && WallHour(z, u) == WallHour(z, from)
      invariant WallHour(z, t) == WallHour(z, from)
      invariant if looked then SecondOf(Wall(z, t)) == 0 && change == PeriodEnd(z, t) else t == from
      decreases MINUTE - minute
    {
      ghost var start := t;
      NextMinute(Wall(z, t));
      NextMinuteHour(Wall(z, t));
      if !looked {
        change, looked := PeriodEnd(z, t), true;
        t := t + MINUTE - SecondOf(Wall(z, t));
      } else {
        t := t + MINUTE;
      }
      forall u | start <= u < t && (change.None? || u < change.value)
        ensures MinuteOf(Wall(z, u)) == minute && WallHour(z, u) == WallHour(z, from)
      {
        MinuteHolds(z, start, u);
      }
      minute := MinuteOf(Wall(z, t));
      EndsAreChanges(z, start);
      if change.Some? && t > change.value {
        return change.value, true;
      }
      if minute == 0 || (change.Some? && t >= change.value) {
        if change.None? || t < change.value {
          WallRuns(z, start, t);
        }
        return t, true;
      }
      WallRuns(z, start, t);
    }
  }

  lemma MinuteHolds(z: Zone, t: int, u: int)
    requires Spaced(z) && t <= u < t + MINUTE - SecondOf(Wall(z, t))
    requires PeriodEnd(z, t).None? || u < PeriodEnd(z, t).value
    ensures MinuteOf(Wall(z, u)) == MinuteOf(Wall(z, t)) && WallHour(z, u) == WallHour(z, t)
  {
    hide Spaced, Wall, PeriodEnd;
    WallRuns(z, t, u);
    MinuteRuns(Wall(z, t), u - t);
    UnitsNest(Wall(z, t));
    UnitsNest(Wall(z, u));
  }

  /** Inside a minute of a zone of whole minutes the clock simply ticks. */
  lemma SecondTicks(z: Zone, t: int)
    requires Spaced(z) && WholeMinutes(z)
    ensures SecondOf(Wall(z, t + 1)) == if SecondOf(Wall(z, t)) == 59 then 0 else SecondOf(Wall(z, t)) + 1
    ensures SecondOf(Wall(z, t)) != 59 ==> Wall(z, t + 1) == Wall(z, t) + 1
  {
    hide Spaced, Wall, Period;
    SecondsAgree(z, t);
    SecondsAgree(z, t + 1);
    if t % MINUTE != 59 {
      var end := PeriodEnd(z, t);
      if end.Some? {
        assert end.value % MINUTE == 0;
      }
      WallRuns(z, t, t + 1);
    }
  }

  lemma MinuteTicks(w: int)
    requires SecondOf(w) != 59
    ensures (w + 1) / MINUTE == w / MINUTE
  {
  }

  /** advanceSecond: no skipped instant shows a matching second or leaves the minute; without a wrap the result does
      match, in the same minute; with one the minute has ended. */
  method AdvanceSecond(s: SpecSchedule, z: Zone, from: int) returns (t: int, wrap: bool)
    requires Spaced(z) && WholeMinutes(z)
    ensures t >= from && (wrap ==> t > from)
    ensures forall u :: from <= u < t ==> !SecondOk(s, z, u) && WallMinute(z, u) == WallMinute(z, from)
    ensures wrap ==> SecondOf(Wall(z, t)) == 0
    ensures !wrap ==> SecondOk(s, z, t) && WallMinute(z, t) == WallMinute(z, from)
  {
    hide Spaced, WholeMinutes, FieldMatches, Wall, SecondOf;
    t, wrap := from, false;
    var sec := SecondOf(Wall(z, t));
    while !FieldMatches(sec, s.second)
      invariant from <= t && sec == SecondOf(Wall(z, t))
      invariant forall u :: from <= u < t ==> !SecondOk(s, z, u) && WallMinute(z, u) == WallMinute(z, from)
      invariant WallMinute(z, t) == WallMinute(z, from)
      decreases MINUTE - sec
    {
      SecondTicks(z, t);
      if sec != 59 {
        MinuteTicks(Wall(z, t));
      }
      t := t + 1;
      var prev := sec;
      sec := SecondOf(Wall(z, t));
      if sec <= prev {
        return t, true;
      }
    }
  }

  // ----- hours and the time of day -----

  /** The lowest offset of the zone, which bounds how late an instant can show a given reading. */
  function LowestOffset(z: Zone, k: nat): (low: int)
    requires k <= |z.changes|
    ensures forall j :: 0 <= j <= k ==> low <= PeriodOffset(z, j)
  {
    if k == 0 then z.base
    else
      var low := LowestOffset(z, k - 1);
      if PeriodOffset(z, k) < low then PeriodOffset(z, k) else low
  }

  /** No instant from here on shows a reading before the start of `day`. */
  function Horizon(z: Zone, day: int): int { day * DAY - LowestOffset(z, |z.changes|) }

  lemma HorizonBounds(z: Zone, day: int, t: int)
    requires WallDay(z, t) < day
    ensures t < Horizon(z, day)
  {
    hide Period, LowestOffset;
    assert LowestOffset(z, |z.changes|) <= PeriodOffset(z, Period(z, t));
  }

  /** Neighbouring dates have different days of the month, so comparing those tells the dates apart. */
  lemma DayOfMonthTellsApart(d: int, e: int)
    requires d <= e <= d + 1
    ensures DayOfMonth(d) == DayOfMonth(e) <==> d == e
  {
    hide MonthStart, MonthOf;
    if e == d + 1 {
      MonthOfMonotone(d, e);
      MonthStep(MonthOf(d));
      BeforeMonthStart(e, MonthOf(d) + 1);
      BeforeMonthStart(e, MonthOf(d) + 2);
      MonthStep(MonthOf(d) + 1);
    }
  }

  /** An hour's end is on the same date or the next one. */
  lemma HourEndDate(z: Zone, t: int)
    requires Regular(z)
    ensures WallDay(z, t) <= WallDay(z, HourEnd(z, t)) <= WallDay(z, t) + 1
  {
    hide Spaced, KeepsDate, WholeMinutes, HourEnd, Wall;
    HourEndIsNear(z, t);
    WallDayMonotone(z, t, HourEnd(z, t));
    HourEndReading(z, t);
    NextHourReadingIsNear(z, t);
    WallNearby(z, t, HourEnd(z, t));
  }

  /** advanceHour: no skipped instant shows a matching hour or another date; without a wrap the result does match, on
      the same date; with one it is where the next date starts. */
  method AdvanceHour(s: SpecSchedule, loc: Location, from: int) returns (t: int, wrap: bool)
    requires Valid(loc)
    ensures t >= from && (wrap ==> t > from)
    ensures forall u :: from <= u < t ==> !HourOk(s, loc.zone, u) && WallDay(loc.zone, u) == WallDay(loc.zone, from)
    ensures wrap ==> WallDay(loc.zone, t) == WallDay(loc.zone, from) + 1
    ensures !wrap ==> HourOk(s, loc.zone, t) && WallDay(loc.zone, t) == WallDay(loc.zone, from)
  {
    hide Spaced, KeepsDate, WholeMinutes, Resolves, FieldMatches, HourEnd, Wall, HourOf, DayOfMonth, Horizon;
    var z := loc.zone;
    t, wrap := from, false;
    while !FieldMatches(HourOf(Wall(z, t)), s.hour)
      invariant from <= t && WallDay(z, t) == WallDay(z, from)
      invariant forall u :: from <= u < t ==> !HourOk(s, z, u) && WallDay(z, u) == WallDay(z, from)
      decreases Horizon(z, WallDay(z, from) + 1) - t
    {
      var day := DayOfMonth(WallDay(z, t));
      ghost var start := t;
      HorizonBounds(z, WallDay(z, from) + 1, t);
      HourEndIsNear(z, t);
      HourEndDate(z, t);
      t := NextHourStart(loc, t);
      forall u | start <= u < t
        ensures HourOf(Wall(z, u)) == HourOf(Wall(z, start)) && WallDay(z, u) == WallDay(z, start)
      {
        HourEndIsExact(z, start, u);
        SameHourOf(z, start, u);
        SameHourDay(z, start, u);
      }
      DayOfMonthTellsApart(WallDay(z, start), WallDay(z, t));
      if DayOfMonth(WallDay(z, t)) != day {
        return t, true;
      }
    }
  }

  lemma SameHourOf(z: Zone, t: int, u: int)
    requires WallHour(z, t) == WallHour(z, u)
    ensures HourOf(Wall(z, t)) == HourOf(Wall(z, u))
  {
    hide Wall;
  }

  predicate TimeOk(s: SpecSchedule, z: Zone, t: int) { HourOk(s, z, t) && MinuteOk(s, z, t) && SecondOk(s, z, t) }

  lemma SameMinuteOf(z: Zone, t: int, u: int)
    requires WallMinute(z, t) == WallMinute(z, u)
    ensures MinuteOf(Wall(z, t)) == MinuteOf(Wall(z, u))
    ensures WallHour(z, t) == WallHour(z, u)
    ensures WallDay(z, t) == WallDay(z, u)
  {
    hide Wall;
    UnitsNest(Wall(z, t));
    UnitsNest(Wall(z, u));
  }

  lemma SameHourDay(z: Zone, t: int, u: int)
    requires WallHour(z, t) == WallHour(z, u)
    ensures WallDay(z, t) == WallDay(z, u)
  {
    hide Wall;
    UnitsNest(Wall(z, t));
    UnitsNest(Wall(z, u));
  }

  /** advanceTime: no skipped instant shows a matching time of day or another date; without a wrap the result does
      match, on the same date. */
  method AdvanceTime(s: SpecSchedule, loc: Location, from: int) returns (t: int, wrap: bool)
    requires Valid(loc)
    ensures t >= from && (wrap ==> t > from)
    ensures forall u :: from <= u < t ==> !TimeOk(s, loc.zone, u) && WallDay(loc.zone, u) == WallDay(loc.zone, from)
    ensures !wrap ==> TimeOk(s, loc.zone, t) && WallDay(loc.zone, t) == WallDay(loc.zone, from)
  {
    hide Spaced, KeepsDate, WholeMinutes, Resolves, FieldMatches, Wall, HourOf, MinuteOf, SecondOf, WallHour;
    hide WallMinute, WallDay;
    var z := loc.zone;
    t, wrap := AdvanceHour(s, loc, from);
    if wrap {
      return;
    }
    ghost var onHour := t;
    t, wrap := AdvanceMinute(s, z, t);
    forall u | onHour <= u < t
      ensures WallDay(z, u) == WallDay(z, from)
    {
      SameHourDay(z, onHour, u);
    }
    if wrap {
      return;
    }
    ghost var onMinute := t;
    SameHourDay(z, onHour, onMinute);
    SameHourOf(z, onHour, onMinute);
    t, wrap := AdvanceSecond(s, z, t);
    forall u | onMinute <= u < t
      ensures WallDay(z, u) == WallDay(z, from)
    {
      SameMinuteOf(z, onMinute, u);
    }
    if !wrap {
      SameMinuteOf(z, onMinute, t);
      SameHourOf(z, onMinute, t);
    }
  }

  // ----- days, months and years -----

  predicate DateOk(s: SpecSchedule, z: Zone, t: int) { DateMatches(s, WallDay(z, t)) }

  datatype SearchStep = Found | Wrapped | Exhausted

  /** From one date's first instant to just before the next one's, only that date is shown. */
  lemma OnlyThatDate(z: Zone, from: int, r: int, u: int)
    requires Regular(z) && FirstOfDay(z, r, WallDay(z, from) + 1) && from <= u < r
    ensures WallDay(z, u) == WallDay(z, from)
  {
    hide Spaced, KeepsDate, WholeMinutes, Wall, FirstOfDay;
    FirstOfDaySplits(z, r, WallDay(z, from) + 1, u);
    WallDayMonotone(z, from, u);
  }

  /** No date is skipped whole: the first instant of the next date shows that date. */
  lemma FirstInstantShowsDate(z: Zone, r: int, day: int)
    requires Regular(z) && FirstOfDay(z, r, day)
    ensures WallDay(z, r) == day
  {
    hide Spaced, KeepsDate, WholeMinutes, Wall;
    NextSecondDay(z, r - 1);
  }

  lemma MonthNumberTellsApart(d: int)
    ensures MonthNumber(d + 1) == MonthNumber(d) <==> MonthOf(d + 1) == MonthOf(d)
    ensures MonthOf(d) <= MonthOf(d + 1) <= MonthOf(d) + 1
  {
    hide MonthStart, DaysIn;
    MonthOfMonotone(d, d + 1);
    MonthStep(MonthOf(d) + 1);
    BeforeMonthStart(d + 1, MonthOf(d) + 2);
  }

  /** advanceDay: no skipped instant shows a matching day or another month; without a wrap the result does match, in the
      same month; with one it is where the next month starts. */
  method AdvanceDay(s: SpecSchedule, loc: Location, from: int) returns (t: int, step: SearchStep)
    requires Valid(loc)
    ensures t >= from
    ensures forall u :: from <= u < t ==> !DayMatches(s, WallDay(loc.zone, u))
                                          && MonthOf(WallDay(loc.zone, u)) == MonthOf(WallDay(loc.zone, from))
    ensures step == Found || (step == Wrapped && t > from)
    ensures step == Wrapped ==> MonthOf(WallDay(loc.zone, t)) == MonthOf(WallDay(loc.zone, from)) + 1
    ensures step == Found ==> DayMatches(s, WallDay(loc.zone, t))
                              && MonthOf(WallDay(loc.zone, t)) == MonthOf(WallDay(loc.zone, from))
  {
    hide Spaced, KeepsDate, WholeMinutes, Resolves, DayMatches, Wall, WallDay, FirstOfDay, MonthStart, MonthNumber;
    var z := loc.zone;
    t, step := from, Found;
    while !DayMatches(s, WallDay(z, t))
      invariant from <= t
      invariant forall u :: from <= u < t
                            ==> !DayMatches(s, WallDay(z, u)) && MonthOf(WallDay(z, u)) == MonthOf(WallDay(z, from))
      invariant MonthOf(WallDay(z, t)) == MonthOf(WallDay(z, from))
      decreases MonthStart(MonthOf(WallDay(z, from)) + 1) - WallDay(z, t)
    {
      var month := MonthNumber(WallDay(z, t));
      ghost var start := t;
      t := DateStart(loc, WallDay(z, t) + 1, t);
      forall u | start <= u < t
        ensures WallDay(z, u) == WallDay(z, start)
      {
        OnlyThatDate(z, start, t, u);
      }
      FirstInstantShowsDate(z, t, WallDay(z, start) + 1);
      MonthNumberTellsApart(WallDay(z, start));
      if MonthNumber(WallDay(z, t)) != month {
        return t, Wrapped;
      }
    }
  }

  /** Dates before the first of a later month lie in months before it. */
  lemma BeforeThatMonth(z: Zone, from: int, r: int, mi: int, u: int)
    requires Regular(z) && MonthOf(WallDay(z, from)) < mi && FirstOfDay(z, r, MonthStart(mi)) && from <= u < r
    ensures MonthOf(WallDay(z, from)) <= MonthOf(WallDay(z, u)) < mi
  {
    hide Spaced, KeepsDate, WholeMinutes, Wall, WallDay, FirstOfDay, MonthStart;
    FirstOfDaySplits(z, r, MonthStart(mi), u);
    WallDayMonotone(z, from, u);
    MonthOfMonotone(WallDay(z, from), WallDay(z, u));
    BeforeMonthStart(WallDay(z, u), mi);
  }

  lemma FirstInstantShowsMonth(z: Zone, r: int, mi: int)
    requires Regular(z) && FirstOfDay(z, r, MonthStart(mi))
    ensures MonthOf(WallDay(z, r)) == mi
  {
    hide Spaced, KeepsDate, WholeMinutes, Wall, WallDay, FirstOfDay;
    FirstInstantShowsDate(z, r, MonthStart(mi));
    MonthStep(mi);
    BeforeMonthStart(MonthStart(mi), mi);
    BeforeMonthStart(MonthStart(mi), mi + 1);
  }

  /** advanceDate: no skipped instant shows a matching date. */
  method AdvanceDate(s: SpecSchedule, loc: Location, from: int, yearLimit: int) returns (t: int, step: SearchStep)
    requires Valid(loc) && YearOf(WallDay(loc.zone, from)) <= yearLimit
    ensures t >= from
    ensures forall u :: from <= u < t ==> !DateOk(s, loc.zone, u)
    ensures step == Found ==> DateOk(s, loc.zone, t) && YearOf(WallDay(loc.zone, t)) <= yearLimit
    ensures step == Wrapped ==> t > from
    ensures step == Exhausted ==> YearOf(WallDay(loc.zone, t)) > yearLimit
  {
    hide Spaced, KeepsDate, WholeMinutes, Resolves, DayMatches, Wall, WallDay, FirstOfDay, MonthStart, MonthOf;
    hide FieldMatches, YearMatches;
    var z := loc.zone;
    t := from;
    while !YearMatches(YearOf(WallDay(z, t)), s.years)
      invariant from <= t && YearOf(WallDay(z, t)) <= yearLimit
      invariant forall u :: from <= u < t ==> !DateOk(s, z, u)
      decreases yearLimit - YearOf(WallDay(z, t))
    {
      ghost var start := t;
      var first := (YearOf(WallDay(z, t)) + 1) * 12;
      BeforeMonthStart(WallDay(z, t), first);
      t := DateStart(loc, MonthStart(first), t);
      forall u | start <= u < t
        ensures YearOf(WallDay(z, u)) == YearOf(WallDay(z, start))
      {
        BeforeThatMonth(z, start, t, first, u);
      }
      FirstInstantShowsMonth(z, t, first);
      if YearOf(WallDay(z, t)) > yearLimit {
        return t, Exhausted;
      }
    }
    while !FieldMatches(MonthNumber(WallDay(z, t)), s.month)
      invariant from <= t && YearOf(WallDay(z, t)) <= yearLimit
      invariant YearMatches(YearOf(WallDay(z, t)), s.years)
      invariant forall u :: from <= u < t ==> !DateOk(s, z, u)
      decreases (YearOf(WallDay(z, t)) + 1) * 12 - MonthOf(WallDay(z, t))
    {
      ghost var start := t;
      var year := YearOf(WallDay(z, t));
      var next := MonthOf(WallDay(z, t)) + 1;
      BeforeMonthStart(WallDay(z, t), next);
      t := DateStart(loc, MonthStart(next), t);
      forall u | start <= u < t
        ensures MonthOf(WallDay(z, u)) == MonthOf(WallDay(z, start))
      {
        BeforeThatMonth(z, start, t, next, u);
      }
      FirstInstantShowsMonth(z, t, next);
      if YearOf(WallDay(z, t)) != year {
        return t, Wrapped;
      }
    }
    t, step := AdvanceDay(s, loc, t);
  }

  // ----- the search -----

  /** The wall clock shows a matching reading at t. */
  predicate MatchesAt(s: SpecSchedule, z: Zone, t: int) { Matches(s, Wall(z, t)) }

  lemma MatchesInParts(s: SpecSchedule, z: Zone, t: int)
    ensures MatchesAt(s, z, t) <==> DateOk(s, z, t) && TimeOk(s, z, t)
  {
    hide FieldMatches, HourOf, MinuteOf, SecondOf, DateMatches, Wall;
  }

  /** The last year in which a search from t looks for a run. */
  function YearLimit(s: SpecSchedule, z: Zone, t: int): int { YearOf(WallDay(z, t + 1)) + SearchSpan(s) }

  /** r is the least matching instant after t or, when it is None, nothing matches through the last year searched. */
  ghost predicate IsNextExisting(s: SpecSchedule, z: Zone, t: int, r: Option<int>) {
    match r
    case Some(run) =>
      && run > t && MatchesAt(s, z, run) && YearOf(WallDay(z, run)) <= YearLimit(s, z, t)
      && forall u :: t < u < run ==> !MatchesAt(s, z, u)
    case None => forall u :: u > t && YearOf(WallDay(z, u)) <= YearLimit(s, z, t) ==> !MatchesAt(s, z, u)
  }

  /** Once the year is past the limit, it stays past it. */
  lemma PastTheLimit(z: Zone, t: int, u: int, yearLimit: int)
    requires Regular(z) && t <= u && YearOf(WallDay(z, t)) > yearLimit
    ensures YearOf(WallDay(z, u)) > yearLimit
  {
    hide Spaced, KeepsDate, WholeMinutes, Wall, WallDay, MonthOf;
    WallDayMonotone(z, t, u);
    MonthOfMonotone(WallDay(z, t), WallDay(z, u));
  }

  /** nextExisting */
  method NextExisting(s: SpecSchedule, loc: Location, after: int) returns (r: Option<int>)
    requires Valid(loc)
    ensures IsNextExisting(s, loc.zone, after, r)
  {
    hide Spaced, KeepsDate, WholeMinutes, Resolves, DateOk, TimeOk, MatchesAt, Wall, WallDay, YearOf, MonthStart;
    hide Horizon, SearchSpan;
    var z := loc.zone;
    var t := after + 1;
    var yearLimit := YearOf(WallDay(z, t)) + SearchSpan(s);
    while YearOf(WallDay(z, t)) <= yearLimit
      invariant after < t
      invariant forall u :: after < u < t ==> !MatchesAt(s, z, u)
      decreases Horizon(z, MonthStart((yearLimit + 1) * 12)) - t
    {
      BeforeYear(WallDay(z, t), yearLimit + 1);
      HorizonBounds(z, MonthStart((yearLimit + 1) * 12), t);
      ghost var start := t;
      var step;
      t, step := AdvanceDate(s, loc, t, yearLimit);
      NothingMissed(s, z, start, t);
      if step == Exhausted {
        NothingBeyond(s, z, after, t, yearLimit);
        return None;
      }
      if step != Wrapped {
        ghost var onDate := t;
        var wrap;
        t, wrap := AdvanceTime(s, loc, t);
        NothingMissed(s, z, onDate, t);
        if !wrap {
          MatchesInParts(s, z, t);
          SameDateOk(s, z, onDate, t);
          return Some(t);
        }
      }
    }
    NothingBeyond(s, z, after, t, yearLimit);
    return None;
  }

  lemma NothingMissed(s: SpecSchedule, z: Zone, from: int, t: int)
    requires (forall u :: from <= u < t ==> !DateOk(s, z, u)) || (forall u :: from <= u < t ==> !TimeOk(s, z, u))
    ensures forall u :: from <= u < t ==> !MatchesAt(s, z, u)
  {
    hide DateOk, TimeOk, MatchesAt;
    forall u | from <= u < t
      ensures !MatchesAt(s, z, u)
    {
      MatchesInParts(s, z, u);
    }
  }

  lemma NothingBeyond(s: SpecSchedule, z: Zone, after: int, t: int, yearLimit: int)
    requires Regular(z) && YearOf(WallDay(z, t)) > yearLimit
    requires forall u :: after < u < t ==> !MatchesAt(s, z, u)
    ensures forall u :: u > after && YearOf(WallDay(z, u)) <= yearLimit ==> !MatchesAt(s, z, u)
  {
    hide Spaced, KeepsDate, WholeMinutes, MatchesAt, WallDay, YearOf;
    forall u | u > after && YearOf(WallDay(z, u)) <= yearLimit
      ensures !MatchesAt(s, z, u)
    {
      if u >= t {
        PastTheLimit(z, t, u, yearLimit);
      }
    }
  }

  lemma SameDateOk(s: SpecSchedule, z: Zone, t: int, u: int)
    requires WallDay(z, t) == WallDay(z, u)
    ensures DateOk(s, z, t) <==> DateOk(s, z, u)
  {
    hide DateMatches, WallDay;
  }
}

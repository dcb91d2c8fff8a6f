/** Prev, the mirror image of Next, in zones whose offset never changes. */
module BackwardSearch {
  import opened Calendar
  import opened Options
  import opened Zones
  import opened Schedules
  import opened WallSteps
  import opened ForwardSearch
  import opened GapRuns

  /** A zone of one fixed offset, in which time.Date has nothing to choose. */
  ghost predicate Fixed(loc: Location) {
    loc.zone.changes == [] && forall w :: loc.date(w) == w - loc.zone.base
  }

  lemma FixedClock(loc: Location, t: int)
    requires Fixed(loc)
    ensures Wall(loc.zone, t) == t + loc.zone.base
    ensures EarlierCopy(loc.zone, t) == LaterCopy(loc.zone, t) == t
    ensures PeriodStart(loc.zone, t).None?
  {
  }

  // ----- seconds, minutes and hours -----

  /** The reading with which the wall clock enters t's hour. */
  function HourReading(z: Zone, t: int): int { WallHour(z, t) * HOUR }

  function PrevFullHourEnd(loc: Location, t: int, want: int): int {
    var z := loc.zone;
    var prev := loc.date(HourReading(z, t) - 1);
    if HourOf(Wall(z, prev)) == want && MinuteOf(Wall(z, prev)) == 59 then
      if LaterCopy(z, prev) < t then LaterCopy(z, prev)
      else if prev < t then prev
      else if EarlierCopy(z, prev) < t then EarlierCopy(z, prev)
      else t - HOUR
    else t - HOUR
  }

  function PrevHourEnd(loc: Location, t: int): int {
    var z := loc.zone;
    var prev := PrevFullHourEnd(loc, t, (HourOf(Wall(z, t)) + 23) % 24);
    var start := PeriodStart(z, t);
    if start.Some? && start.value - 1 > prev && HourOf(Wall(z, start.value - 1)) != HourOf(Wall(z, t))
    then start.value - 1 else prev
  }

  /** prevHourEnd: the last instant before t's hour. */
  lemma PrevHourEndIs(loc: Location, t: int)
    requires Fixed(loc)
    ensures Wall(loc.zone, PrevHourEnd(loc, t)) == HourReading(loc.zone, t) - 1
    ensures PrevHourEnd(loc, t) < t
  {
    hide Wall, HourOf, MinuteOf, EarlierCopy, LaterCopy, PeriodStart;
    var w := HourReading(loc.zone, t) - 1;
    FixedClock(loc, t);
    FixedClock(loc, loc.date(w));
    HourBefore(Wall(loc.zone, t));
  }

  lemma HourBefore(w: int)
    ensures var v := w / HOUR * HOUR - 1;
            v < w && HourOf(v) == (HourOf(w) + 23) % 24 && MinuteOf(v) == 59 && v / HOUR == w / HOUR - 1
  {
    var q := w / HOUR;
    assert w == q * HOUR + w % HOUR;
    assert q * HOUR - 1 == (q - 1) * HOUR + 59 * MINUTE + 59;
    assert (q * HOUR - 1) / HOUR == q - 1;
    assert q * HOUR - 1 == (q * 60 - 1) * MINUTE + 59;
  }

  /** retreatHour: without a wrap the result shows a matching hour of the same date. */
  method RetreatHour(s: SpecSchedule, loc: Location, from: int) returns (t: int, moved: bool, wrap: bool)
    requires Fixed(loc)
    ensures t <= from && (moved <==> t < from) && (wrap ==> t < from && moved)
    ensures forall u :: t < u <= from ==> !HourOk(s, loc.zone, u)
    ensures if wrap then EndOfDay(loc.zone, t) && WallDay(loc.zone, t) == WallDay(loc.zone, from) - 1
            else HourOk(s, loc.zone, t) && WallDay(loc.zone, t) == WallDay(loc.zone, from)
  {
    hide Fixed, FieldMatches, Wall, PrevHourEnd, HourOf;
    var z := loc.zone;
    t, moved, wrap := from, false, false;
    while !FieldMatches(HourOf(Wall(z, t)), s.hour)
      invariant t <= from && (moved <==> t < from)
      invariant WallDay(z, t) == WallDay(z, from)
      invariant forall u :: t < u <= from ==> !HourOk(s, z, u)
      decreases HourOf(Wall(z, t))
    {
      var cur := HourOf(Wall(z, t));
      ghost var start := t;
      moved := true;
      t := PrevHourEnd(loc, t);
      PrevHourEndIs(loc, start);
      forall u | t < u <= start
        ensures HourOf(Wall(z, u)) == cur
      {
        SameHourBack(loc, start, u);
      }
      HourBack(Wall(z, start));
      if HourOf(Wall(z, t)) > cur {
        wrap := true;
        return;
      }
    }
  }

  /** t is the last second of the date it shows. */
  predicate EndOfDay(z: Zone, t: int) { Wall(z, t) % DAY == DAY - 1 }

  lemma SameHourBack(loc: Location, t: int, u: int)
    requires Fixed(loc) && PrevHourEnd(loc, t) < u <= t
    ensures HourOf(Wall(loc.zone, u)) == HourOf(Wall(loc.zone, t))
  {
    PrevHourEndIs(loc, t);
    FixedClock(loc, t);
    FixedClock(loc, u);
    FixedClock(loc, PrevHourEnd(loc, t));
    hide PrevHourEnd, Wall;
    assert Wall(loc.zone, u) / HOUR == Wall(loc.zone, t) / HOUR;
  }

  lemma HourBack(w: int)
    ensures var v := w / HOUR * HOUR - 1;
            if HourOf(w) == 0 then HourOf(v) == 23 && v % DAY == DAY - 1 && v / DAY == w / DAY - 1
            else HourOf(v) == HourOf(w) - 1 && v / DAY == w / DAY
  {
    HourBefore(w);
    var day, hour := w / DAY, HourOf(w);
    assert w / HOUR == day * 24 + hour;
  }

  /** prevMinuteEnd */
  function PrevMinuteEnd(z: Zone, t: int): int { t - (SecondOf(Wall(z, t)) + 1) }

  /** subMinuteFallBack: t's period started with a fall-back shorter than a minute. */
  predicate SubMinuteFallBack(z: Zone, t: int) {
    var p := Period(z, t);
    p > 0 && -MINUTE < Jump(z, p - 1) < 0
  }

  /** lastBeforeZone: the last second before from's period when t lies before it. */
  function LastBeforeZone(z: Zone, from: int, t: int): int {
    var start := PeriodStart(z, from);
    if start.Some? && t < start.value then start.value - 1 else t
  }

  lemma MinutesOfHour(w: int)
    ensures w / HOUR == w / MINUTE / 60
  {
    var q := w / MINUTE;
    assert w == q / 60 * HOUR + (q % 60 * MINUTE + SecondOf(w));
  }

  lemma MinuteBack(w: int, v: int)
    requires v == w - SecondOf(w) - 1
    ensures SecondOf(v) == 59
    ensures if MinuteOf(w) == 0 then v == w / HOUR * HOUR - 1
            else v / HOUR == w / HOUR && MinuteOf(v) == MinuteOf(w) - 1
  {
    var q := w / MINUTE;
    assert w == q * MINUTE + SecondOf(w);
    assert v == (q - 1) * MINUTE + 59;
    MinutesOfHour(w);
    MinutesOfHour(v);
  }

  lemma MinuteHoldsBack(w: int, x: int)
    requires w - SecondOf(w) <= x <= w
    ensures MinuteOf(x) == MinuteOf(w)
  {
    assert x / MINUTE == w / MINUTE;
  }

  /** One step back of retreatMinute, to the end of the minute before. */
  lemma MinuteStepsBack(loc: Location, from: int, t: int)
    requires Fixed(loc) && t == PrevMinuteEnd(loc.zone, from)
    ensures t < from && SecondOf(Wall(loc.zone, t)) == 59
    ensures forall u :: t < u <= from ==> MinuteOf(Wall(loc.zone, u)) == MinuteOf(Wall(loc.zone, from))
    ensures MinuteOf(Wall(loc.zone, from)) != 0 ==>
              WallHour(loc.zone, t) == WallHour(loc.zone, from)
              && HourOf(Wall(loc.zone, t)) == HourOf(Wall(loc.zone, from))
              && MinuteOf(Wall(loc.zone, t)) == MinuteOf(Wall(loc.zone, from)) - 1
    ensures MinuteOf(Wall(loc.zone, from)) == 0 ==>
              HourOf(Wall(loc.zone, t)) != HourOf(Wall(loc.zone, from))
              && (WallDay(loc.zone, t) == WallDay(loc.zone, from)
                  || (EndOfDay(loc.zone, t) && WallDay(loc.zone, t) == WallDay(loc.zone, from) - 1))
    ensures !SubMinuteFallBack(loc.zone, from) && LastBeforeZone(loc.zone, from, t) == t
  {
    hide MinuteOf, SecondOf, HourOf;
    var z := loc.zone;
    MinuteBack(Wall(z, from), Wall(z, t));
    HourBack(Wall(z, from));
    forall u | t < u <= from
      ensures MinuteOf(Wall(z, u)) == MinuteOf(Wall(z, from))
    {
      MinuteHoldsBack(Wall(z, from), Wall(z, u));
    }
    if MinuteOf(Wall(z, from)) != 0 {
      SameHourOf(z, from, t);
    }
  }

  /** retreatMinute: without a wrap the result shows a matching minute of the same hour. */
  method RetreatMinute(s: SpecSchedule, loc: Location, from: int) returns (t: int, moved: bool, wrap: bool)
    requires Fixed(loc)
    ensures t <= from && (moved <==> t < from) && (wrap ==> t < from && moved)
    ensures forall u :: t < u <= from ==> !MinuteOk(s, loc.zone, u)
    ensures wrap ==> WallDay(loc.zone, t) == WallDay(loc.zone, from)
                     || (EndOfDay(loc.zone, t) && WallDay(loc.zone, t) == WallDay(loc.zone, from) - 1)
    ensures !wrap ==> MinuteOk(s, loc.zone, t) && WallHour(loc.zone, t) == WallHour(loc.zone, from)
  {
    hide Fixed, FieldMatches, HourOf, MinuteOf, SecondOf, Wall, WallHour, WallDay, EndOfDay, SubMinuteFallBack;
    hide LastBeforeZone;
    var z := loc.zone;
    t, moved, wrap := from, false, false;
    while !FieldMatches(MinuteOf(Wall(z, t)), s.minute)
      invariant t <= from && (moved <==> t < from)
      invariant WallHour(z, t) == WallHour(z, from) && WallDay(z, t) == WallDay(z, from)
      invariant moved ==> SecondOf(Wall(z, t)) == 59
      invariant forall u :: t < u <= from ==> !MinuteOk(s, z, u)
      decreases MinuteOf(Wall(z, t))
    {
      var cur, hour, start := MinuteOf(Wall(z, t)), HourOf(Wall(z, t)), t;
      t := if moved then t - MINUTE else PrevMinuteEnd(z, t);
      moved := true;
      MinuteStepsBack(loc, start, t);
      var wrapped := MinuteOf(Wall(z, t)) > cur || HourOf(Wall(z, t)) != hour;
      if !wrapped && SubMinuteFallBack(z, start) {
        t := LastBeforeZone(z, start, t);
      }
      if wrapped {
        t, wrap := LastBeforeZone(z, start, t), true;
        return;
      }
      if WallHour(z, t) == WallHour(z, start) {
        SameHourDay(z, start, t);
      }
    }
  }

  lemma SecondBack(w: int)
    ensures if SecondOf(w) == 0 then SecondOf(w - 1) == 59 else SecondOf(w - 1) == SecondOf(w) - 1
                                                                && (w - 1) / MINUTE == w / MINUTE
    ensures (w - 1) / DAY == w / DAY || ((w - 1) % DAY == DAY - 1 && (w - 1) / DAY == w / DAY - 1)
  {
  }

  /** retreatSecond: without a wrap the result shows a matching second of the same minute. */
  method RetreatSecond(s: SpecSchedule, loc: Location, from: int) returns (t: int, wrap: bool)
    requires Fixed(loc)
    ensures t <= from && (wrap ==> t < from)
    ensures forall u :: t < u <= from ==> !SecondOk(s, loc.zone, u)
    ensures wrap ==> WallDay(loc.zone, t) == WallDay(loc.zone, from)
                     || (EndOfDay(loc.zone, t) && WallDay(loc.zone, t) == WallDay(loc.zone, from) - 1)
    ensures !wrap ==> SecondOk(s, loc.zone, t) && WallMinute(loc.zone, t) == WallMinute(loc.zone, from)
  {
    hide FieldMatches, SecondOf;
    var z := loc.zone;
    t, wrap := from, false;
    while !FieldMatches(SecondOf(Wall(z, t)), s.second)
      invariant t <= from
      invariant WallMinute(z, t) == WallMinute(z, from)
      invariant forall u :: t < u <= from ==> !SecondOk(s, z, u)
      decreases SecondOf(Wall(z, t))
    {
      var cur := SecondOf(Wall(z, t));
      SecondBack(Wall(z, t));
      SameMinuteOf(z, t, from);
      t := t - 1;
      if SecondOf(Wall(z, t)) > cur {
        return t, true;
      }
    }
  }

  /** retreatTime */
  method RetreatTime(s: SpecSchedule, loc: Location, from: int, wasAdded: bool)
      returns (t: int, added: bool, wrap: bool)
    requires Fixed(loc)
    ensures t <= from && (wasAdded ==> added) && (wrap ==> t < from)
    ensures forall u :: t < u <= from ==> !TimeOk(s, loc.zone, u)
    ensures wrap ==> WallDay(loc.zone, t) == WallDay(loc.zone, from)
                     || (EndOfDay(loc.zone, t) && WallDay(loc.zone, t) == WallDay(loc.zone, from) - 1)
    ensures !wrap ==> TimeOk(s, loc.zone, t) && WallDay(loc.zone, t) == WallDay(loc.zone, from)
  {
    hide Fixed, FieldMatches, HourOf, MinuteOf, SecondOf, Wall, WallHour, WallMinute, WallDay, EndOfDay;
    var z := loc.zone;
    var moved;
    t, moved, wrap := RetreatHour(s, loc, from);
    added := wasAdded || moved;
    if wrap {
      return;
    }
    ghost var onHour := t;
    t, moved, wrap := RetreatMinute(s, loc, t);
    added := added || moved;
    if wrap {
      return;
    }
    SameHourDay(z, onHour, t);
    SameHourOf(z, onHour, t);
    ghost var onMinute := t;
    t, wrap := RetreatSecond(s, loc, t);
    if !wrap {
      SameMinuteOf(z, onMinute, t);
      SameHourOf(z, onMinute, t);
    }
  }

  // ----- days, months and years -----

  /** time.AddDate */
  function AddDate(loc: Location, t: int, years: int, days: int): int {
    var d := WallDay(loc.zone, t);
    loc.date((MonthStart(MonthOf(d) + 12 * years) + DayOfMonth(d) - 1 + days) * DAY + Wall(loc.zone, t) % DAY)
  }

  function DayEnd(loc: Location, t: int): int { loc.date(WallDay(loc.zone, t) * DAY + DAY - 1) }

  /** normalizeDSTDayPrev */
  function NormalizeDayPrev(loc: Location, t: int): int {
    if HourOf(Wall(loc.zone, t)) == 23 then t else DayEnd(loc, t)
  }

  /** prevDay */
  function PrevDay(loc: Location, t: int): int {
    var prev := NormalizeDayPrev(loc, AddDate(loc, t, 0, -1));
    if DayOfMonth(WallDay(loc.zone, prev)) == DayOfMonth(WallDay(loc.zone, t))
    then NormalizeDayPrev(loc, prev - DAY) else prev
  }

  lemma LastHour(w: int)
    requires w % DAY == DAY - 1
    ensures HourOf(w) == 23
  {
  }

  /** From the end of a day, prevDay goes to the end of the day before. */
  lemma PrevDayIs(loc: Location, t: int)
    requires Fixed(loc) && EndOfDay(loc.zone, t)
    ensures PrevDay(loc, t) == t - DAY
    ensures EndOfDay(loc.zone, t - DAY) && WallDay(loc.zone, t - DAY) == WallDay(loc.zone, t) - 1
  {
    hide HourOf, MonthStart, MonthOf;
    var z := loc.zone;
    assert AddDate(loc, t, 0, -1) == t - DAY;
    LastHour(Wall(z, t - DAY));
    DayOfMonthTellsApart(WallDay(z, t - DAY), WallDay(z, t));
  }

  lemma DayEndIs(loc: Location, t: int)
    requires Fixed(loc)
    ensures t <= DayEnd(loc, t) && EndOfDay(loc.zone, DayEnd(loc, t))
            && WallDay(loc.zone, DayEnd(loc, t)) == WallDay(loc.zone, t)
    ensures EndOfDay(loc.zone, t) ==> DayEnd(loc, t) == t
  {
  }

  lemma SameDateBack(loc: Location, t: int, u: int)
    requires Fixed(loc) && EndOfDay(loc.zone, t) && t - DAY < u <= t
    ensures WallDay(loc.zone, u) == WallDay(loc.zone, t)
  {
  }

  /** retreatDay: without a wrap the result shows a matching day of the same month. */
  method RetreatDay(s: SpecSchedule, loc: Location, from: int, wasAdded: bool)
    returns (t: int, added: bool, step: SearchStep)
    requires Fixed(loc)
    requires wasAdded && !DayMatches(s, WallDay(loc.zone, from)) ==> EndOfDay(loc.zone, from)
    ensures t <= from && (wasAdded ==> added)
    ensures forall u :: t < u <= from ==> !DayMatches(s, WallDay(loc.zone, u))
    ensures step == Found || (step == Wrapped && t < from && added)
    ensures step == Found ==> DayMatches(s, WallDay(loc.zone, t))
                              && MonthOf(WallDay(loc.zone, t)) == MonthOf(WallDay(loc.zone, from))
    ensures step == Wrapped ==> EndOfDay(loc.zone, t)
                                && MonthOf(WallDay(loc.zone, t) + 1) == MonthOf(WallDay(loc.zone, from))
  {
    hide Fixed, DayMatches, Wall, WallDay, EndOfDay, PrevDay, DayEnd, MonthStart, MonthOf, DayOfMonth;
    var z := loc.zone;
    t, added, step := from, wasAdded, Found;
    while !DayMatches(s, WallDay(z, t))
      invariant t <= from && (wasAdded ==> added)
      invariant added && !DayMatches(s, WallDay(z, t)) ==> EndOfDay(z, t)
      invariant !added ==> t == from
      invariant MonthOf(WallDay(z, t)) == MonthOf(WallDay(z, from))
      invariant forall u :: t < u <= from ==> !DayMatches(s, WallDay(z, u))
      decreases DayOfMonth(WallDay(z, t))
    {
      var cur := DayOfMonth(WallDay(z, t));
      ghost var start := t;
      if !added {
        added := true;
        t := DayEnd(loc, t);
        DayEndIs(loc, start);
      }
      ghost var end := t;
      PrevDayIs(loc, t);
      t := PrevDay(loc, t);
      forall u | t < u <= start
        ensures WallDay(z, u) == WallDay(z, start)
      {
        SameDateBack(loc, end, u);
      }
      BackInMonth(WallDay(z, end));
      BackOverDay(loc, start, end);
      if DayOfMonth(WallDay(z, t)) > cur {
        return t, added, Wrapped;
      }
    }
  }

  /** Going back a day lowers the day of the month, or raises it past the start of the month. */
  lemma BackInMonth(d: int)
    ensures if DayOfMonth(d) == 1 then DayOfMonth(d - 1) > 1
            else DayOfMonth(d - 1) == DayOfMonth(d) - 1 && MonthOf(d - 1) == MonthOf(d)
  {
    hide DaysIn;
    MonthOfMonotone(d - 1, d);
    BeforeMonthStart(d - 1, MonthOf(d));
    BeforeMonthStart(d - 1, MonthOf(d) - 1);
    MonthStep(MonthOf(d) - 1);
  }

  lemma BackOverDay(loc: Location, start: int, end: int)
    requires Fixed(loc) && WallDay(loc.zone, start) == WallDay(loc.zone, end) && EndOfDay(loc.zone, end)
    ensures end - DAY < start
  {
  }

  /** t is the last second of the date before one in a matching year: where a wrap leaves the search. */
  predicate AtWrap(s: SpecSchedule, z: Zone, t: int) {
    EndOfDay(z, t) && YearMatches(YearOf(WallDay(z, t) + 1), s.years)
  }

  function YearEnd(loc: Location, year: int): int { loc.date(MonthStart((year + 1) * 12) * DAY - 1) }

  /** From the last second of a year, AddDate goes to the last second of the year before. */
  lemma YearBack(loc: Location, year: int)
    requires Fixed(loc)
    ensures AddDate(loc, YearEnd(loc, year), -1, 0) == YearEnd(loc, year - 1)
    ensures YearOf(WallDay(loc.zone, YearEnd(loc, year))) == year
    ensures EndOfDay(loc.zone, YearEnd(loc, year))
    ensures WallDay(loc.zone, YearEnd(loc, year)) + 1 == MonthStart((year + 1) * 12)
  {
    hide MonthOf, DayOfMonth, MonthStart;
    var december, d := year * 12 + 11, MonthStart((year + 1) * 12) - 1;
    MonthStep(december);
    MonthStep(december - 12);
    BeforeMonthStart(d, december);
    BeforeMonthStart(d, december + 1);
    assert WallDay(loc.zone, YearEnd(loc, year)) == d;
    assert DaysIn(december) == DaysIn(december - 12) == 31;
    DecemberDay(d, december);
  }

  lemma DecemberDay(d: int, december: int)
    requires MonthOf(d) == december && d + 1 == MonthStart(december + 1) && DaysIn(december) == 31
    ensures DayOfMonth(d) == 31
  {
    hide MonthOf;
    MonthStep(december);
  }

  /** Between the ends of two consecutive years only the later one is shown. */
  lemma OnlyThatYear(loc: Location, year: int, u: int)
    requires Fixed(loc) && YearEnd(loc, year - 1) < u <= YearEnd(loc, year)
    ensures YearOf(WallDay(loc.zone, u)) == year
  {
    hide MonthStart, MonthOf;
    BeforeYear(WallDay(loc.zone, u), year);
    BeforeYear(WallDay(loc.zone, u), year + 1);
  }

  lemma YearEndOf(loc: Location, t: int, year: int)
    requires Fixed(loc) && YearOf(WallDay(loc.zone, t)) == year
    ensures YearEnd(loc, year - 1) < t <= YearEnd(loc, year)
    ensures EndOfDay(loc.zone, t) && YearOf(WallDay(loc.zone, t) + 1) != year ==> t == YearEnd(loc, year)
  {
    hide MonthStart, MonthOf;
    BeforeYear(WallDay(loc.zone, t), year);
    BeforeYear(WallDay(loc.zone, t), year + 1);
    BeforeYear(WallDay(loc.zone, t) + 1, year);
    BeforeYear(WallDay(loc.zone, t) + 1, year + 1);
  }

  /** The instant that starts month mi. */
  lemma MonthBack(loc: Location, t: int)
    requires Fixed(loc)
    ensures var z, mi := loc.zone, MonthOf(WallDay(loc.zone, t));
            var r := EarlierCopy(z, loc.date(MonthStart(mi) * DAY)) - 1;
            && r < t && EndOfDay(z, r) && WallDay(z, r) + 1 == MonthStart(mi)
            && MonthOf(WallDay(z, r)) == mi - 1
            && forall u :: r < u <= t ==> MonthOf(WallDay(z, u)) == mi
  {
    hide MonthStart, MonthOf;
    var z, mi := loc.zone, MonthOf(WallDay(loc.zone, t));
    var r := EarlierCopy(z, loc.date(MonthStart(mi) * DAY)) - 1;
    FixedClock(loc, loc.date(MonthStart(mi) * DAY));
    BeforeMonthStart(WallDay(z, t), mi);
    BeforeMonthStart(WallDay(z, r), mi);
    BeforeMonthStart(WallDay(z, r), mi - 1);
    MonthStep(mi - 1);
    forall u | r < u <= t
      ensures MonthOf(WallDay(z, u)) == mi
    {
      BeforeMonthStart(WallDay(z, u), mi);
      MonthOfMonotone(WallDay(z, u), WallDay(z, t));
    }
  }

  /** The year loop of retreatDate. */
  method RetreatYear(s: SpecSchedule, loc: Location, from: int, wasAdded: bool, yearLimit: int)
    returns (t: int, added: bool, exhausted: bool)
    requires Fixed(loc) && YearOf(WallDay(loc.zone, from)) >= yearLimit
    requires wasAdded ==> DateOk(s, loc.zone, from) || AtWrap(s, loc.zone, from)
    ensures t <= from && (wasAdded ==> added)
    ensures forall u :: t < u <= from ==> !YearMatches(YearOf(WallDay(loc.zone, u)), s.years)
    ensures exhausted ==> YearOf(WallDay(loc.zone, t)) < yearLimit
    ensures !exhausted ==> YearOf(WallDay(loc.zone, t)) >= yearLimit
                           && YearMatches(YearOf(WallDay(loc.zone, t)), s.years)
                           && (added && !DateOk(s, loc.zone, t) ==> EndOfDay(loc.zone, t))
  {
    hide Fixed, DayMatches, YearMatches, FieldMatches, Wall, WallDay, EndOfDay, YearEnd, AddDate, MonthStart;
    hide MonthOf, YearOf, MonthNumber;
    var z := loc.zone;
    t, added, exhausted := from, wasAdded, false;
    YearEndOf(loc, from, YearOf(WallDay(z, from)));
    while !YearMatches(YearOf(WallDay(z, t)), s.years)
      invariant t <= from && (wasAdded ==> added)
      invariant YearOf(WallDay(z, t)) >= yearLimit
      invariant added && !YearMatches(YearOf(WallDay(z, t)), s.years) ==> t == YearEnd(loc, YearOf(WallDay(z, t)))
      invariant added && !DateOk(s, z, t) ==> EndOfDay(z, t)
      invariant forall u :: t < u <= from ==> !YearMatches(YearOf(WallDay(z, u)), s.years)
      decreases YearOf(WallDay(z, t)) - yearLimit
    {
      ghost var start := t;
      var year := YearOf(WallDay(z, t));
      YearEndOf(loc, t, year);
      if !added {
        added := true;
        t := YearEnd(loc, year);
      }
      YearBack(loc, year);
      YearBack(loc, year - 1);
      t := AddDate(loc, t, -1, 0);
      forall u | t < u <= start
        ensures YearOf(WallDay(z, u)) == year
      {
        OnlyThatYear(loc, year, u);
      }
      if YearOf(WallDay(z, t)) < yearLimit {
        exhausted := true;
        return;
      }
    }
  }

  /** The month loop of retreatDate. */
  method RetreatMonth(s: SpecSchedule, loc: Location, from: int, wasAdded: bool)
    returns (t: int, added: bool, wrapped: bool)
    requires Fixed(loc)
    requires wasAdded && !DateOk(s, loc.zone, from) ==> EndOfDay(loc.zone, from)
    ensures t <= from && (wasAdded ==> added) && (added && !DateOk(s, loc.zone, t) ==> EndOfDay(loc.zone, t))
    ensures forall u :: t < u <= from ==> !FieldMatches(MonthNumber(WallDay(loc.zone, u)), s.month)
    ensures wrapped ==> t < from && EndOfDay(loc.zone, t)
                        && YearOf(WallDay(loc.zone, t) + 1) == YearOf(WallDay(loc.zone, from))
    ensures !wrapped ==> FieldMatches(MonthNumber(WallDay(loc.zone, t)), s.month)
                         && YearOf(WallDay(loc.zone, t)) == YearOf(WallDay(loc.zone, from))
  {
    hide Fixed, DateOk, FieldMatches, Wall, WallDay, EndOfDay, MonthStart, MonthOf, EarlierCopy;
    var z := loc.zone;
    t, added, wrapped := from, wasAdded, false;
    while !FieldMatches(MonthNumber(WallDay(z, t)), s.month)
      invariant t <= from && (wasAdded ==> added) && (added && !DateOk(s, z, t) ==> EndOfDay(z, t))
      invariant YearOf(WallDay(z, t)) == YearOf(WallDay(z, from))
      invariant forall u :: t < u <= from ==> !FieldMatches(MonthNumber(WallDay(z, u)), s.month)
      decreases MonthNumber(WallDay(z, t))
    {
      ghost var mi := MonthOf(WallDay(z, t));
      var cur := MonthNumber(WallDay(z, t));
      added := true;
      MonthBack(loc, t);
      t := EarlierCopy(z, loc.date(MonthStart(MonthOf(WallDay(z, t))) * DAY)) - 1;
      YearOfMonthStart(mi);
      if MonthNumber(WallDay(z, t)) > cur {
        wrapped := true;
        return;
      }
    }
  }

  /** retreatDate: no skipped instant shows a matching date. */
  method RetreatDate(s: SpecSchedule, loc: Location, from: int, wasAdded: bool, yearLimit: int)
    returns (t: int, added: bool, step: SearchStep)
    requires Fixed(loc) && YearOf(WallDay(loc.zone, from)) >= yearLimit
    requires wasAdded ==> DateOk(s, loc.zone, from) || AtWrap(s, loc.zone, from)
    ensures t <= from && (wasAdded ==> added)
    ensures forall u :: t < u <= from ==> !DateOk(s, loc.zone, u)
    ensures step == Found ==> DateOk(s, loc.zone, t) && YearOf(WallDay(loc.zone, t)) >= yearLimit
    ensures step == Wrapped ==> t < from && AtWrap(s, loc.zone, t)
    ensures step == Exhausted ==> YearOf(WallDay(loc.zone, t)) < yearLimit
  {
    hide Fixed, DayMatches, YearMatches, FieldMatches, Wall, WallDay, EndOfDay, MonthOf;
    var exhausted, wrapped;
    t, added, exhausted := RetreatYear(s, loc, from, wasAdded, yearLimit);
    if exhausted {
      return t, added, Exhausted;
    }
    t, added, wrapped := RetreatMonth(s, loc, t, added);
    if wrapped {
      return t, added, Wrapped;
    }
    t, added, step := RetreatDay(s, loc, t, added);
  }

  lemma YearOfMonthStart(mi: int)
    ensures YearOf(MonthStart(mi)) == mi / 12
  {
    hide MonthOf;
    MonthStep(mi);
    BeforeMonthStart(MonthStart(mi), mi);
    BeforeMonthStart(MonthStart(mi), mi + 1);
  }

  // ----- the search -----

  function YearFloor(s: SpecSchedule, z: Zone, t: int): int { YearOf(WallDay(z, t - 1)) - SearchSpan(s) }

  /** r is the greatest matching instant before t or, when it is None, nothing matches back to the last year
      searched. */
  ghost predicate IsPrevExisting(s: SpecSchedule, z: Zone, t: int, r: Option<int>) {
    match r
    case Some(run) =>
      && run < t && MatchesAt(s, z, run) && YearOf(WallDay(z, run)) >= YearFloor(s, z, t)
      && forall u :: run < u < t ==> !MatchesAt(s, z, u)
    case None => forall u :: u < t && YearOf(WallDay(z, u)) >= YearFloor(s, z, t) ==> !MatchesAt(s, z, u)
  }

  /** prevExisting; `before` is the second in which the given time lies. */
  method PrevExisting(s: SpecSchedule, loc: Location, before: int) returns (r: Option<int>)
    requires Fixed(loc)
    ensures IsPrevExisting(s, loc.zone, before, r)
  {
    hide Fixed, DateOk, TimeOk, MatchesAt, Wall, WallDay, YearOf, MonthStart, SearchSpan, EndOfDay, YearMatches;
    var z := loc.zone;
    var t, added := before - 1, false;
    var yearLimit := YearOf(WallDay(z, t)) - SearchSpan(s);
    while YearOf(WallDay(z, t)) >= yearLimit
      invariant t < before
      invariant added ==> DateOk(s, z, t) || AtWrap(s, z, t)
      invariant forall u :: t < u < before ==> !MatchesAt(s, z, u)
      decreases t + z.base - MonthStart(yearLimit * 12) * DAY
    {
      YearFloorBounds(loc, yearLimit, t);
      ghost var start := t;
      var step;
      t, added, step := RetreatDate(s, loc, t, added, yearLimit);
      NothingMissed(s, z, t + 1, start + 1);
      if step == Exhausted {
        NothingBefore(s, loc, before, t, yearLimit);
        return None;
      }
      if step != Wrapped {
        ghost var onDate := t;
        var wrap;
        t, added, wrap := RetreatTime(s, loc, t, added);
        NothingMissed(s, z, t + 1, onDate + 1);
        if WallDay(z, t) == WallDay(z, onDate) {
          SameDateOk(s, z, onDate, t);
        }
        if !wrap {
          MatchesInParts(s, z, t);
          return Some(t);
        }
        DateOkYear(s, z, onDate);
      }
    }
    NothingBefore(s, loc, before, t, yearLimit);
    return None;
  }

  lemma DateOkYear(s: SpecSchedule, z: Zone, t: int)
    requires DateOk(s, z, t)
    ensures YearMatches(YearOf(WallDay(z, t)), s.years)
  {
    hide WallDay;
  }

  lemma YearFloorBounds(loc: Location, year: int, t: int)
    requires Fixed(loc) && YearOf(WallDay(loc.zone, t)) >= year
    ensures t + loc.zone.base >= MonthStart(year * 12) * DAY
  {
    hide MonthStart, MonthOf;
    BeforeYear(WallDay(loc.zone, t), year);
  }

  lemma NothingBefore(s: SpecSchedule, loc: Location, before: int, t: int, yearLimit: int)
    requires Fixed(loc) && YearOf(WallDay(loc.zone, t)) < yearLimit
    requires forall u :: t < u < before ==> !MatchesAt(s, loc.zone, u)
    ensures forall u :: u < before && YearOf(WallDay(loc.zone, u)) >= yearLimit ==> !MatchesAt(s, loc.zone, u)
  {
    hide MatchesAt, YearOf;
    forall u | u < before && YearOf(WallDay(loc.zone, u)) >= yearLimit
      ensures !MatchesAt(s, loc.zone, u)
    {
      if u <= t {
        MonthOfMonotone(WallDay(loc.zone, u), WallDay(loc.zone, t));
      }
    }
  }

  /** Prev; with a fixed offset there is no gap to run for. */
  method Prev(s: SpecSchedule, loc: Location, before: int) returns (r: Option<int>)
    requires Fixed(loc)
    ensures IsPrevExisting(s, loc.zone, before, r)
  {
    r := PrevExisting(s, loc, before);
    if s.dstSkip {
      return;
    }
    var limit := if r.Some? then r.value
                 else loc.date(MonthStart((YearOf(WallDay(loc.zone, before)) - SearchSpan(s)) * 12) * DAY) - 1;
    var run := PrevGapRun(s, loc.zone, before, limit);
    if run.Some? {
      return run;
    }
  }

  /** Prev undoes Next: the run before the second after a run is that run, and nothing matches between t and it. */
  lemma PrevUndoesNext(s: SpecSchedule, loc: Location, t: int, next: int, back: Option<int>)
    requires Fixed(loc) && IsNext(s, loc.zone, t, Some(next))
    requires IsPrevExisting(s, loc.zone, next + 1, back)
    ensures back == Some(next) && forall u :: t < u < next ==> !MatchesAt(s, loc.zone, u)
  {
    hide MatchesAt, YearOf, WallDay;
    assert next + 1 - 1 == next;
    forall u | t < u < next
      ensures !MatchesAt(s, loc.zone, u)
    {
      FixedYears(loc, u, next);
    }
  }

  lemma FixedYears(loc: Location, t: int, u: int)
    requires Fixed(loc) && t <= u
    ensures YearOf(WallDay(loc.zone, t)) <= YearOf(WallDay(loc.zone, u))
  {
    hide MonthOf, Wall;
    FixedClock(loc, t);
    FixedClock(loc, u);
    MonthOfMonotone(WallDay(loc.zone, t), WallDay(loc.zone, u));
  }

  /** Next undoes Prev: the run after the second before a run is that run. */
  lemma NextUndoesPrev(s: SpecSchedule, loc: Location, t: int, prev: int, again: Option<int>)
    requires Fixed(loc) && IsPrevExisting(s, loc.zone, t, Some(prev))
    requires IsNext(s, loc.zone, prev - 1, again)
    ensures again == Some(prev)
  {
    hide MatchesAt, MonthOf;
    assert prev - 1 + 1 == prev;
    MonthNumberTellsApart(WallDay(loc.zone, prev - 1));
  }
}

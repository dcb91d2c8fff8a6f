/** Laws of cron specs that do not go through the way a reading is matched: how the fields combine, what a spec of
    single values matches, and which days the day rules name, counted in the calendar. */
module ScheduleLaws {
  import opened BitFacts
  import opened Calendar
  import opened FieldMasks
  import opened ForwardSearch
  import opened Options
  import opened Schedules
  import opened Zones

  // ----- day-of-month and day-of-week -----

  /** s with the day-of-week left open. */
  function FreeDow(s: SpecSchedule): SpecSchedule { s.(dow := ALL, dowConstraints := []) }

  /** s with the day-of-month left open. */
  function FreeDom(s: SpecSchedule): SpecSchedule { s.(dom := ALL, domConstraints := []) }

  /** Either field is enough: the option is set and neither field starts with a star. */
  predicate EitherDay(s: SpecSchedule) { s.dowOrDom && !FieldMatches(63, s.dom) && !FieldMatches(63, s.dow) }

  lemma StarBitIs(mask: bv64)
    ensures mask & STAR_BIT != 0 <==> FieldMatches(63, mask)
  {
    hide Shl;
    TopIsLast();
    AndSwap(mask, STAR_BIT);
    assert And(STAR_BIT, mask) == mask & STAR_BIT;
  }

  /** What each day field says of civil day d. */
  predicate DomSays(s: SpecSchedule, d: int) {
    FieldMatches(DayOfMonth(d), s.dom) || exists c :: c in s.domConstraints && DomConstraintHolds(c, d)
  }

  predicate DowSays(s: SpecSchedule, d: int) {
    FieldMatches(Weekday(d), s.dow) || exists c :: c in s.dowConstraints && DowConstraintHolds(c, d)
  }

  lemma DayFieldsCombine(s: SpecSchedule, d: int)
    ensures DayMatches(s, d)
            <==> if EitherDay(s) then DomSays(s, d) || DowSays(s, d) else DomSays(s, d) && DowSays(s, d)
    ensures DayMatches(FreeDow(s), d) <==> DomSays(s, d)
    ensures DayMatches(FreeDom(s), d) <==> DowSays(s, d)
  {
    hide FieldMatches, DayOfMonth, Weekday, DomConstraintHolds, DowConstraintHolds;
    StarBitIs(s.dom);
    StarBitIs(s.dow);
    StarBitIs(ALL);
    FullMask(63);
    FullMask(DayOfMonth(d));
    FullMask(Weekday(d));
  }

  /** Unless either is enough, a spec matches where it matches with each of the two day fields left open. */
  lemma BothDayFields(s: SpecSchedule, w: int)
    requires !EitherDay(s)
    ensures Matches(s, w) <==> Matches(FreeDow(s), w) && Matches(FreeDom(s), w)
  {
    hide FieldMatches, DayMatches, EitherDay, DomSays, DowSays, YearMatches;
    DayFieldsCombine(s, w / DAY);
  }

  /** With the option and no star, it matches where it matches with one of them left open. */
  lemma EitherDayField(s: SpecSchedule, w: int)
    requires EitherDay(s)
    ensures Matches(s, w) <==> Matches(FreeDow(s), w) || Matches(FreeDom(s), w)
  {
    hide FieldMatches, DayMatches, EitherDay, DomSays, DowSays, YearMatches;
    DayFieldsCombine(s, w / DAY);
  }

  // ----- one value in each field -----

  /** One day-of-month value and an open day-of-week. */
  lemma OneDayOfMonth(s: SpecSchedule, v: nat, w: int)
    requires v < 63 && s.dom == Bit(v) && s.domConstraints == []
    ensures Matches(FreeDow(s), w) ==> DayOfMonth(w / DAY) == v
  {
    hide FieldMatches, EitherDay, YearMatches, DayMatches, Bit, DayOfMonth;
    DayFieldsCombine(s, w / DAY);
    OneValue(v, DayOfMonth(w / DAY));
  }

  lemma OneWeekday(s: SpecSchedule, v: nat, w: int)
    requires v < 63 && s.dow == Bit(v) && s.dowConstraints == []
    ensures Matches(FreeDom(s), w) ==> Weekday(w / DAY) == v
  {
    hide FieldMatches, EitherDay, YearMatches, DayMatches, Bit, Weekday;
    DayFieldsCombine(s, w / DAY);
    OneValue(v, Weekday(w / DAY));
  }

  /** The spec of a single second: one value in each field and one year. */
  function OneShot(year: int, month: nat, day: nat, hour: nat, minute: nat, second: nat): SpecSchedule
    requires month <= 12 && day <= 31 && hour < 24 && minute < 60 && second < 60
  {
    SpecSchedule(Bit(second), Bit(minute), Bit(hour), Bit(day), Bit(month), ALL, Some({year}), 0, [], [], false, false)
  }

  /** It matches that second of the calendar and no other. */
  lemma OneShotMatches(year: int, month: nat, day: nat, hour: nat, minute: nat, second: nat, w: int)
    requires 1 <= month <= 12 && 1 <= day <= DaysIn(year * 12 + month - 1) <= 31
    requires hour < 24 && minute < 60 && second < 60
    ensures Matches(OneShot(year, month, day, hour, minute, second), w)
            <==> w == (MonthStart(year * 12 + month - 1) + day - 1) * DAY + hour * HOUR + minute * MINUTE + second
  {
    hide FieldMatches, Bit, DayMatches, MonthOf, DayOfMonth, Weekday, MonthNumber, HourOf, MinuteOf, SecondOf;
    hide MonthStart;
    hide DaysIn;
    var s, d := OneShot(year, month, day, hour, minute, second), w / DAY;
    OneValue(second, SecondOf(w));
    OneValue(minute, MinuteOf(w));
    OneValue(hour, HourOf(w));
    OneValue(day, DayOfMonth(d));
    OneValue(month, MonthNumber(d));
    FullMask(Weekday(d));
    OneShotDay(s, d);
    TimeFields(w);
    TimeFieldsAre(w, MonthStart(year * 12 + month - 1) + day - 1, hour, minute, second);
    DateFields(d, year, month, day);
  }

  lemma OneShotDay(s: SpecSchedule, d: int)
    requires s.domConstraints == [] && s.dowConstraints == [] && s.dow == ALL
    ensures DayMatches(s, d) <==> FieldMatches(DayOfMonth(d), s.dom)
  {
    hide FieldMatches, DayOfMonth, Weekday;
    DayFieldsCombine(s, d);
    assert FreeDow(s) == s;
  }

  /** A reading is its date and its time of day. */
  lemma TimeFields(w: int)
    ensures w == w / DAY * DAY + HourOf(w) * HOUR + MinuteOf(w) * MINUTE + SecondOf(w)
  {
    UnitsNest(w);
  }

  lemma TimeFieldsAre(w: int, d: int, h: int, m: int, s: int)
    requires 0 <= h < 24 && 0 <= m < 60 && 0 <= s < 60
    ensures w == d * DAY + h * HOUR + m * MINUTE + s
            ==> w / DAY == d && HourOf(w) == h && MinuteOf(w) == m && SecondOf(w) == s
  {
    if w == d * DAY + h * HOUR + m * MINUTE + s {
      UnitsNest(w);
      assert w / MINUTE == (d * 24 + h) * 60 + m;
      assert w / HOUR == d * 24 + h;
    }
  }

  lemma DateFields(d: int, year: int, month: nat, day: nat)
    requires 1 <= month <= 12 && 1 <= day <= DaysIn(year * 12 + month - 1)
    ensures YearOf(d) == year && MonthNumber(d) == month && DayOfMonth(d) == day
            <==> d == MonthStart(year * 12 + month - 1) + day - 1
  {
    hide MonthOf, MonthStart, DaysIn;
    var mi := year * 12 + month - 1;
    MonthStep(mi);
    BeforeMonthStart(d, mi);
    BeforeMonthStart(d, mi + 1);
  }

  // ----- more than one value in a field -----

  lemma SameDays(s: SpecSchedule, t: SpecSchedule, d: int)
    requires s.dom == t.dom && s.dow == t.dow && s.dowOrDom == t.dowOrDom
    requires s.domConstraints == t.domConstraints && s.dowConstraints == t.dowConstraints
    ensures DayMatches(s, d) <==> DayMatches(t, d)
  {
    hide FieldMatches, DayOfMonth, Weekday, DomConstraintHolds, DowConstraintHolds;
  }

  lemma DateFree(s: SpecSchedule, t: SpecSchedule, d: int)
    requires t == s.(second := t.second, minute := t.minute, hour := t.hour)
    ensures DateMatches(t, d) <==> DateMatches(s, d)
  {
    hide FieldMatches, DayMatches, YearOf, MonthNumber;
    SameDays(s, t, d);
  }

  /** A field with the values of two masks matches where one of them does. */
  lemma MoreSeconds(s: SpecSchedule, a: bv64, b: bv64, w: int)
    ensures Matches(s.(second := Or(a, b)), w) <==> Matches(s.(second := a), w) || Matches(s.(second := b), w)
  {
    hide FieldMatches, Or, DateMatches;
    Union(a, b, SecondOf(w));
    DateFree(s, s.(second := Or(a, b)), w / DAY);
    DateFree(s, s.(second := a), w / DAY);
    DateFree(s, s.(second := b), w / DAY);
  }

  lemma MoreMinutes(s: SpecSchedule, a: bv64, b: bv64, w: int)
    ensures Matches(s.(minute := Or(a, b)), w) <==> Matches(s.(minute := a), w) || Matches(s.(minute := b), w)
  {
    hide FieldMatches, Or, DateMatches;
    Union(a, b, MinuteOf(w));
    DateFree(s, s.(minute := Or(a, b)), w / DAY);
    DateFree(s, s.(minute := a), w / DAY);
    DateFree(s, s.(minute := b), w / DAY);
  }

  lemma MoreHours(s: SpecSchedule, a: bv64, b: bv64, w: int)
    ensures Matches(s.(hour := Or(a, b)), w) <==> Matches(s.(hour := a), w) || Matches(s.(hour := b), w)
  {
    hide FieldMatches, Or, DateMatches;
    Union(a, b, HourOf(w));
    DateFree(s, s.(hour := Or(a, b)), w / DAY);
    DateFree(s, s.(hour := a), w / DAY);
    DateFree(s, s.(hour := b), w / DAY);
  }

  lemma MoreMonths(s: SpecSchedule, a: bv64, b: bv64, w: int)
    ensures Matches(s.(month := Or(a, b)), w) <==> Matches(s.(month := a), w) || Matches(s.(month := b), w)
  {
    hide FieldMatches, Or, DayMatches, MonthNumber, YearOf, YearMatches, TimeMatches;
    Union(a, b, MonthNumber(w / DAY));
    MonthFree(s, Or(a, b), w);
    MonthFree(s, a, w);
    MonthFree(s, b, w);
  }

  lemma MonthFree(s: SpecSchedule, month: bv64, w: int)
    ensures TimeMatches(s.(month := month), w) <==> TimeMatches(s, w)
    ensures DayMatches(s.(month := month), w / DAY) <==> DayMatches(s, w / DAY)
  {
    hide FieldMatches, DayMatches;
    SameDays(s, s.(month := month), w / DAY);
  }

  /** The same for the day fields when the other one is open. */
  lemma MoreDays(s: SpecSchedule, a: bv64, b: bv64, w: int)
    ensures Matches(FreeDow(s.(dom := Or(a, b))), w)
            <==> Matches(FreeDow(s.(dom := a)), w) || Matches(FreeDow(s.(dom := b)), w)
    ensures Matches(FreeDom(s.(dow := Or(a, b))), w)
            <==> Matches(FreeDom(s.(dow := a)), w) || Matches(FreeDom(s.(dow := b)), w)
  {
    hide FieldMatches, Or, DayOfMonth, Weekday, MonthNumber, YearOf, YearMatches, DayMatches, EitherDay;
    hide DomConstraintHolds, DowConstraintHolds;
    var d := w / DAY;
    Union(a, b, DayOfMonth(d));
    Union(a, b, Weekday(d));
    DayFieldsCombine(s.(dom := Or(a, b)), d);
    DayFieldsCombine(s.(dom := a), d);
    DayFieldsCombine(s.(dom := b), d);
    DayFieldsCombine(s.(dow := Or(a, b)), d);
    DayFieldsCombine(s.(dow := a), d);
    DayFieldsCombine(s.(dow := b), d);
  }

  lemma MoreYears(s: SpecSchedule, a: set<int>, b: set<int>, w: int)
    ensures Matches(s.(years := Some(a + b)), w)
            <==> Matches(s.(years := Some(a)), w) || Matches(s.(years := Some(b)), w)
    ensures Matches(s.(years := None), w) <==> Matches(s.(years := Some({YearOf(w / DAY)})), w)
  {
    hide FieldMatches, DayMatches, MonthNumber, YearOf, TimeMatches;
    YearFree(s, Some(a + b), w);
    YearFree(s, Some(a), w);
    YearFree(s, Some(b), w);
    YearFree(s, None, w);
    YearFree(s, Some({YearOf(w / DAY)}), w);
  }

  lemma YearFree(s: SpecSchedule, years: Option<set<int>>, w: int)
    ensures TimeMatches(s.(years := years), w) <==> TimeMatches(s, w)
    ensures DayMatches(s.(years := years), w / DAY) <==> DayMatches(s, w / DAY)
  {
    hide FieldMatches, DayMatches;
    SameDays(s, s.(years := years), w / DAY);
  }

  /** A day rule adds the days on which it holds. */
  lemma MoreRules(s: SpecSchedule, dom: DomConstraint, dow: DowConstraint, w: int)
    ensures Matches(FreeDow(s.(domConstraints := s.domConstraints + [dom])), w)
            <==> Matches(FreeDow(s), w) || (Matches(FreeDom(FreeDow(s)), w) && DomConstraintHolds(dom, w / DAY))
    ensures Matches(FreeDom(s.(dowConstraints := s.dowConstraints + [dow])), w)
            <==> Matches(FreeDom(s), w) || (Matches(FreeDom(FreeDow(s)), w) && DowConstraintHolds(dow, w / DAY))
  {
    hide FieldMatches, DayOfMonth, Weekday, MonthNumber, YearOf, YearMatches, DayMatches, EitherDay;
    hide DomConstraintHolds, DowConstraintHolds;
    var d := w / DAY;
    FullMask(DayOfMonth(d));
    DayFieldsCombine(s, d);
    DayFieldsCombine(FreeDow(s), d);
    DayFieldsCombine(s.(domConstraints := s.domConstraints + [dom]), d);
    DayFieldsCombine(s.(dowConstraints := s.dowConstraints + [dow]), d);
    FullMask(Weekday(d));
  }

  // ----- days counted -----

  /** 1970-01-01 was a Thursday, and the days of the week go round. */
  lemma WeekdaysTurn(d: int)
    ensures Weekday(0) == 4 && Weekday(d + 1) == if Weekday(d) == 6 then 0 else Weekday(d) + 1
  {
  }

  /** How many of the days from `first` up to before d fall on the weekday. */
  function CountWeekday(first: int, d: int, weekday: int): nat
    requires first <= d
    decreases d - first
  {
    if first == d then 0
    else CountWeekday(first, d - 1, weekday) + if Weekday(d - 1) == weekday then 1 else 0
  }

  lemma {:induction false} CountedInWeeks(first: int, d: int)
    requires first <= d
    ensures CountWeekday(first, d, Weekday(d)) == (d - first) / 7
    decreases d - first
  {
    if d - first < 7 {
      NoneInAWeek(first, d, Weekday(d));
    } else {
      var w := Weekday(d);
      CountedInWeeks(first, d - 7);
      assert Weekday(d - 7) == w;
      NoneInAWeek(d - 6, d, w);
      CountSplits(first, d - 7, d, w);
      CountSplits(d - 7, d - 6, d, w);
      assert CountWeekday(d - 7, d - 6, w) == 1 by {
        assert CountWeekday(d - 7, d - 7, w) == 0;
      }
    }
  }

  lemma {:induction false} NoneInAWeek(first: int, d: int, weekday: int)
    requires first <= d && forall e :: first <= e < d ==> Weekday(e) != weekday
    ensures CountWeekday(first, d, weekday) == 0
    decreases d - first
  {
    if first == d {
    } else {
      NoneInAWeek(first, d - 1, weekday);
    }
  }

  lemma {:induction false} CountSplits(first: int, middle: int, d: int, weekday: int)
    requires first <= middle <= d
    ensures CountWeekday(first, d, weekday) == CountWeekday(first, middle, weekday) + CountWeekday(middle, d, weekday)
    decreases d - middle
  {
    if middle == d {
    } else {
      CountSplits(first, middle, d - 1, weekday);
    }
  }

  /** The n-th of a weekday has n - 1 earlier days of the month on that weekday. */
  lemma NthIsCounted(c: DowConstraint, d: int)
    requires c.n >= 1
    ensures DowConstraintHolds(c, d)
            <==> Weekday(d) == c.weekday && CountWeekday(MonthStart(MonthOf(d)), d, c.weekday) == c.n - 1
  {
    hide MonthOf, MonthStart, Weekday, DaysIn;
    CountedInWeeks(MonthStart(MonthOf(d)), d);
  }

  predicate Weekdays(d: int) { 1 <= Weekday(d) <= 5 }

  /** The last of a weekday has no later day of the month on that weekday. */
  lemma LastIsLast(c: DowConstraint, d: int)
    requires c.n == -1
    ensures DowConstraintHolds(c, d)
            <==> Weekday(d) == c.weekday && forall e :: d < e && MonthOf(e) == MonthOf(d) ==> Weekday(e) != c.weekday
  {
    hide MonthOf, MonthStart, DaysIn;
    MonthStep(MonthOf(d));
    forall e
      ensures d < e && MonthOf(e) == MonthOf(d) <==> d < e < MonthStart(MonthOf(d) + 1)
    {
      InMonth(d, e);
    }
    if d + 7 < MonthStart(MonthOf(d) + 1) {
      assert Weekday(d + 7) == Weekday(d);
    }
    forall e | d < e < d + 7
      ensures Weekday(e) != Weekday(d)
    {
    }
  }

  lemma InMonth(d: int, e: int)
    ensures MonthOf(e) == MonthOf(d) <==> MonthStart(MonthOf(d)) <= e < MonthStart(MonthOf(d) + 1)
  {
    hide MonthOf, MonthStart, DaysIn;
    BeforeMonthStart(e, MonthOf(d));
    BeforeMonthStart(e, MonthOf(d) + 1);
  }

  /** L-n has n later days in its month; L has none. */
  lemma LastDays(n: nat, d: int)
    ensures DomConstraintHolds(Last, d) <==> MonthOf(d + 1) != MonthOf(d)
    ensures DomConstraintHolds(LastOffset(n), d) <==> MonthOf(d + n) == MonthOf(d) && MonthOf(d + n + 1) != MonthOf(d)
  {
    hide MonthOf, MonthStart, DaysIn;
    MonthStep(MonthOf(d));
    InMonth(d, d + 1);
    InMonth(d, d + n);
    InMonth(d, d + n + 1);
  }

  /** LW is a Monday-to-Friday with no later one in its month. */
  lemma LastWeekdayCounted(d: int)
    ensures DomConstraintHolds(LastWeekday, d)
            <==> Weekdays(d) && forall e :: d < e && MonthOf(e) == MonthOf(d) ==> !Weekdays(e)
  {
    hide MonthOf, MonthStart, DaysIn;
    var first, last := MonthStart(MonthOf(d)), DaysIn(MonthOf(d));
    MonthStep(MonthOf(d));
    var best := first + LastWeekdayOfMonth(first, last) - 1;
    LastWeekdayOnlyWeekends(first, last);
    InMonth(d, best);
    forall e | d < e && MonthOf(e) == MonthOf(d)
      ensures first <= e < first + last
    {
      InMonth(d, e);
    }
  }

  lemma LastWeekdayOnlyWeekends(first: int, last: int)
    requires 28 <= last
    ensures var best := first + LastWeekdayOfMonth(first, last) - 1;
            first <= best < first + last && Weekdays(best) && forall e :: best < e < first + last ==> !Weekdays(e)
  {
  }

  /** nW is the Monday-to-Friday of the month that is nearest to the n-th. */
  lemma NearestCounted(n: nat, d: int)
    requires 1 <= n
    ensures DomConstraintHolds(NearestTo(n), d)
            <==> n <= DaysIn(MonthOf(d)) && Weekdays(d)
                 && forall e :: MonthOf(e) == MonthOf(d) && Weekdays(e)
                                ==> Distance(DayOfMonth(d), n) <= Distance(DayOfMonth(e), n)
  {
    hide MonthOf, MonthStart, DaysIn, NearestWeekday;
    var first, last := MonthStart(MonthOf(d)), DaysIn(MonthOf(d));
    MonthStep(MonthOf(d));
    if n <= last {
      NearestIsUnique(first, last, n, DayOfMonth(d));
      var best := first + NearestWeekday(first, last, n) - 1;
      InMonth(d, best);
      forall e | MonthOf(e) == MonthOf(d)
        ensures first <= e < first + last
      {
        InMonth(d, e);
      }
      forall e | MonthOf(e) == MonthOf(d) && Weekdays(e)
        ensures Distance(DayOfMonth(best), n) <= Distance(DayOfMonth(e), n)
      {
        NearestWeekdayIsNearest(first, last, n, e - first + 1);
      }
    } else {
      NoNearest(first, last, n);
    }
  }

  lemma NoNearest(first: int, last: int, n: int)
    requires last < n
    ensures NearestWeekday(first, last, n) == -1
  {
  }

  lemma NearestIsUnique(first: int, last: int, n: int, other: int)
    requires 28 <= last && 1 <= n <= last && 1 <= other <= last
    ensures var day := NearestWeekday(first, last, n);
            && 1 <= day <= last && Weekdays(first + day - 1)
            && (Weekdays(first + other - 1) && other != day ==> Distance(day, n) < Distance(other, n))
  {
  }

  // ----- what the search answers -----

  /** Midnight on the days that the mask and the day-of-week mask name. */
  function Midnights(dom: bv64, dow: bv64, either: bool): SpecSchedule {
    SpecSchedule(Bit(0), Bit(0), Bit(0), dom, ALL, dow, None, 0, [], [], either, false)
  }

  lemma MidnightsMatch(dom: bv64, dow: bv64, either: bool, w: int)
    ensures Matches(Midnights(dom, dow, either), w)
            <==> w % DAY == 0 && DayMatches(Midnights(dom, dow, either), w / DAY)
  {
    hide FieldMatches, Bit, DayMatches, MonthNumber, YearOf, HourOf, MinuteOf, SecondOf;
    OneValue(0, HourOf(w));
    OneValue(0, MinuteOf(w));
    OneValue(0, SecondOf(w));
    FullMask(MonthNumber(w / DAY));
    TimeFields(w);
    TimeFieldsAre(w, w / DAY, 0, 0, 0);
  }

  function Utc(): Zone { Zone(0, []) }

  /** Thursday, 1 January 2026. */
  const NEW_YEAR := 20454

  lemma JanuaryStarts()
    ensures MonthStart(2026 * 12) == NEW_YEAR && MonthStart(2026 * 12 + 1) == NEW_YEAR + 31
    ensures MonthStart(2026 * 12 + 2) == NEW_YEAR + 59
  {
    hide MonthStart;
    ClosedForm(2026 * 12);
    MonthStep(2026 * 12);
    MonthStep(2026 * 12 + 1);
  }

  lemma January(d: int)
    requires NEW_YEAR <= d < NEW_YEAR + 59
    ensures YearOf(d) == 2026
    ensures DayOfMonth(d) == if d < NEW_YEAR + 31 then d - NEW_YEAR + 1 else d - NEW_YEAR - 30
  {
    hide MonthOf, MonthStart, DaysIn;
    JanuaryStarts();
    BeforeMonthStart(d, 2026 * 12);
    BeforeMonthStart(d, 2026 * 12 + 1);
    BeforeMonthStart(d, 2026 * 12 + 2);
  }

  lemma UtcClock(t: int)
    ensures Wall(Utc(), t) == t
  {
  }

  /** The least match within the span is the answer of the search. */
  lemma LeastIsNext(s: SpecSchedule, z: Zone, t: int, first: int, r: Option<int>)
    requires first > t && MatchesAt(s, z, first) && YearOf(WallDay(z, first)) <= YearLimit(s, z, t)
    requires forall u :: t < u < first ==> !MatchesAt(s, z, u)
    requires IsNextExisting(s, z, t, r)
    ensures r == Some(first)
  {
    hide MatchesAt, YearOf, YearLimit, WallDay;
  }

  lemma UtcDay(day: int, second: int)
    requires 0 <= second < DAY
    ensures WallDay(Utc(), day * DAY + second) == day
  {
    hide Wall;
    UtcClock(day * DAY + second);
  }

  lemma MidnightInYear(s: SpecSchedule, day: int)
    requires NEW_YEAR < day < NEW_YEAR + 59
    ensures YearOf(WallDay(Utc(), day * DAY)) <= YearLimit(s, Utc(), NEW_YEAR * DAY)
  {
    hide YearOf, WallDay, Utc, SearchSpan, DayOfMonth;
    January(NEW_YEAR);
    January(day);
    UtcDay(day, 0);
    UtcDay(NEW_YEAR, 1);
  }

  lemma NoMidnightBetween(s: SpecSchedule, from: int, day: int, u: int)
    requires s == Midnights(s.dom, s.dow, s.dowOrDom) && forall d :: from < d < day ==> !DayMatches(s, d)
    requires from * DAY < u < day * DAY
    ensures !MatchesAt(s, Utc(), u)
  {
    hide DayMatches, Matches, Wall, Utc;
    UtcClock(u);
    MidnightsMatch(s.dom, s.dow, s.dowOrDom, u);
    if u % DAY == 0 {
      var d := u / DAY;
      assert u == d * DAY;
    }
  }

  lemma MidnightIsNext(s: SpecSchedule, day: int, r: Option<int>)
    requires s == Midnights(s.dom, s.dow, s.dowOrDom) && NEW_YEAR < day < NEW_YEAR + 59
    requires DayMatches(s, day) && forall d :: NEW_YEAR < d < day ==> !DayMatches(s, d)
    requires IsNextExisting(s, Utc(), NEW_YEAR * DAY, r)
    ensures r == Some(day * DAY)
  {
    hide DayMatches, Matches, YearOf, Wall, IsNextExisting, Midnights, YearLimit, WallDay, Utc;
    UtcClock(day * DAY);
    MidnightsMatch(s.dom, s.dow, s.dowOrDom, day * DAY);
    MidnightInYear(s, day);
    forall u | NEW_YEAR * DAY < u < day * DAY
      ensures !MatchesAt(s, Utc(), u)
    {
      NoMidnightBetween(s, NEW_YEAR, day, u);
    }
    LeastIsNext(s, Utc(), NEW_YEAR * DAY, day * DAY, r);
  }

  /** "0 0 13 * *": the 13th, whatever its weekday. */
  lemma ThirteenthOfMonth(r: Option<int>)
    requires IsNextExisting(Midnights(Bit(13), ALL, false), Utc(), NEW_YEAR * DAY, r)
    ensures r == Some((NEW_YEAR + 12) * DAY)
  {
    hide FieldMatches, Bit, DayMatches, DayOfMonth, IsNextExisting;
    var s := Midnights(Bit(13), ALL, false);
    forall d | NEW_YEAR < d <= NEW_YEAR + 12
      ensures DayMatches(s, d) <==> d == NEW_YEAR + 12
    {
      DayFieldsCombine(s, d);
      January(d);
      OneValue(13, DayOfMonth(d));
      assert FreeDow(s) == s;
    }
    MidnightIsNext(s, NEW_YEAR + 12, r);
  }

  /** "0 0 13 * FRI": the next Friday the 13th, in February; with DowOrDom, the next Friday or 13th. */
  lemma FridayThirteenth(either: bool, r: Option<int>)
    requires IsNextExisting(Midnights(Bit(13), Bit(5), either), Utc(), NEW_YEAR * DAY, r)
    ensures r == Some((NEW_YEAR + if either then 1 else 43) * DAY)
  {
    hide FieldMatches, Bit, DayMatches, DayOfMonth, IsNextExisting;
    var s, day := Midnights(Bit(13), Bit(5), either), NEW_YEAR + if either then 1 else 43;
    OneValue(13, 63);
    OneValue(5, 63);
    forall d | NEW_YEAR < d <= day
      ensures DayMatches(s, d) <==> d == day
    {
      DayFieldsCombine(s, d);
      January(d);
      OneValue(13, DayOfMonth(d));
      OneValue(5, Weekday(d));
    }
    MidnightIsNext(s, day, r);
  }

  // ----- how far the search looks -----

  /** "0 0 29 2 *" with a search span. */
  function LeapDay(span: int): SpecSchedule {
    SpecSchedule(Bit(0), Bit(0), Bit(0), Bit(29), Bit(2), ALL, None, span, [], [], false, false)
  }

  lemma LeapDayMatches(span: int, w: int)
    ensures Matches(LeapDay(span), w) <==> w % DAY == 0 && MonthNumber(w / DAY) == 2 && DayOfMonth(w / DAY) == 29
  {
    hide FieldMatches, Bit, DayMatches, MonthNumber, YearOf, HourOf, MinuteOf, SecondOf, DayOfMonth;
    OneValue(0, HourOf(w));
    OneValue(0, MinuteOf(w));
    OneValue(0, SecondOf(w));
    OneValue(29, DayOfMonth(w / DAY));
    OneValue(2, MonthNumber(w / DAY));
    OneShotDay(LeapDay(span), w / DAY);
    TimeFields(w);
    TimeFieldsAre(w, w / DAY, 0, 0, 0);
  }

  lemma LeapDayInLeapYear(d: int)
    requires MonthNumber(d) == 2 && DayOfMonth(d) == 29
    ensures Leap(YearOf(d))
  {
    hide MonthOf, MonthStart;
    MonthStep(MonthOf(d));
  }

  /** 1 March 2096, and 29 February 2104: 2100 is no leap year. */
  const MARCH_2096 := 46081
  const LEAP_DAY_2104 := 49001

  lemma LeapDates(d: int)
    ensures MARCH_2096 <= d ==> YearOf(d) >= 2096
    ensures MARCH_2096 <= d && MonthNumber(d) == 2 ==> YearOf(d) >= 2097
    ensures YearOf(MARCH_2096) == 2096
  {
    hide MonthOf, MonthStart, DaysIn;
    ClosedForm(2096 * 12 + 2);
    BeforeMonthStart(d, 2096 * 12 + 2);
    BeforeMonthStart(MARCH_2096, 2096 * 12 + 2);
    BeforeMonthStart(MARCH_2096, 2096 * 12 + 3);
    MonthStep(2096 * 12 + 2);
  }

  lemma LeapDay2104(d: int)
    ensures YearOf(d) == 2104 && MonthNumber(d) == 2 && DayOfMonth(d) == 29 <==> d == LEAP_DAY_2104
  {
    hide MonthOf, MonthStart, YearOf, MonthNumber, DayOfMonth;
    ClosedForm(2104 * 12 + 1);
    DateFields(d, 2104, 2, 29);
  }

  /** From 1 March 2096 the next 29 February is eight years off: five years, the default, do not reach it. */
  lemma LeapDaySpan(span: int, r: Option<int>)
    requires IsNextExisting(LeapDay(span), Utc(), MARCH_2096 * DAY, r)
    ensures r == if span >= 8 then Some(LEAP_DAY_2104 * DAY) else None
  {
    hide Matches, YearOf, Wall, LeapDay, Utc, MonthNumber, DayOfMonth, WallDay, IsNextExisting;
    var s, z, t, first := LeapDay(span), Utc(), MARCH_2096 * DAY, LEAP_DAY_2104 * DAY;
    LeapLimit(span);
    LeapDay2104(LEAP_DAY_2104);
    UtcClock(first);
    UtcDay(LEAP_DAY_2104, 0);
    LeapDayMatches(span, first);
    forall u | t < u && MatchesAt(s, z, u)
      ensures u >= first && YearOf(WallDay(z, u)) >= 2104
    {
      LaterLeapDays(span, u);
    }
    if span >= 8 {
      LeastIsNext(s, z, t, first, r);
    } else {
      NoneIsNext(s, z, t, r);
    }
  }

  lemma LeapLimit(span: int)
    ensures YearLimit(LeapDay(span), Utc(), MARCH_2096 * DAY) == 2096 + if span > 0 then span else 5
  {
    hide YearOf, WallDay, Utc;
    UtcDay(MARCH_2096, 1);
    LeapDates(MARCH_2096);
  }

  lemma LaterLeapDays(span: int, u: int)
    requires MARCH_2096 * DAY < u && MatchesAt(LeapDay(span), Utc(), u)
    ensures u >= LEAP_DAY_2104 * DAY && YearOf(WallDay(Utc(), u)) >= 2104
  {
    hide Matches, YearOf, Wall, LeapDay, Utc, MonthNumber, DayOfMonth, WallDay, MonthOf;
    var d := u / DAY;
    UtcClock(u);
    LeapDayMatches(span, u);
    UtcDay(d, 0);
    LeapDayInLeapYear(d);
    LeapDates(d);
    LeapDay2104(d);
    LeapDay2104(LEAP_DAY_2104);
    if d < LEAP_DAY_2104 {
      MonthOfMonotone(d, LEAP_DAY_2104);
    }
  }

  lemma NoneIsNext(s: SpecSchedule, z: Zone, t: int, r: Option<int>)
    requires forall u :: t < u && MatchesAt(s, z, u) ==> YearOf(WallDay(z, u)) > YearLimit(s, z, t)
    requires IsNextExisting(s, z, t, r)
    ensures r == None
  {
    hide MatchesAt, YearOf, YearLimit, WallDay;
  }
}

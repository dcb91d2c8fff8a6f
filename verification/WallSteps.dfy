/** The forward search of SpecSchedule.Next over a wall clock that jumps forward and back.

    Each step of the search promises the same thing: it moves to a later instant and skips only
    instants that cannot match. Put together, nothing that matches is ever skipped. */
module WallSteps {
  import opened Calendar
  import opened Options
  import opened Remainders
  import opened Zones
  import opened Schedules

  /** A zone together with an implementation of time.Date for it. */
  datatype Location = Location(zone: Zone, date: int -> int)

  ghost predicate Valid(loc: Location) {
    Regular(loc.zone) && forall w :: Resolves(loc.zone, w, loc.date(w))
  }

  /** How Go's time.Date resolves a reading: it takes the offset in force at the reading taken as UTC and, if that
      leads into another period, the offset of that period instead. */
  function GoDate(z: Zone, w: int): int {
    var utc := w - Offset(z, w);
    if Period(z, utc) == Period(z, w) then utc else w - Offset(z, utc)
  }

  /** It keeps the promise made for time.Date, so locations as the search needs them exist. */
  lemma GoDateResolves(z: Zone, w: int)
    requires Spaced(z) && forall k :: 0 <= k <= |z.changes| ==> -DAY <= PeriodOffset(z, k) <= DAY
    ensures Resolves(z, w, GoDate(z, w))
  {
    hide Spaced, Period;
    var p, utc := Period(z, w), w - Offset(z, w);
    var q := Period(z, utc);
    if q != p {
      assert -DAY <= PeriodOffset(z, p) <= DAY && -DAY <= PeriodOffset(z, q) <= DAY;
      if utc <= w {
        PeriodsNearby(z, utc, w);
        AroundChange(z, q, GoDate(z, w));
        assert Wall(z, GoDate(z, w)) == w || Skips(z, q, w);
      } else {
        PeriodsNearby(z, w, utc);
        AroundChange(z, p, GoDate(z, w));
        assert Wall(z, GoDate(z, w)) == w || Skips(z, p, w);
      }
    }
  }

  // ----- copies of a repeated reading -----

  /** The first copy of t's reading when t lies in the second copy of a fall-back, t otherwise. */
  function EarlierCopy(z: Zone, t: int): int {
    var p := Period(z, t);
    if p == 0 then t
    else
      var repeated := -Jump(z, p - 1);
      if repeated <= 0 || t >= z.changes[p - 1].at + repeated then t else t - repeated
  }

  /** The second copy of t's reading when t lies in the first copy of a fall-back, t otherwise. */
  function LaterCopy(z: Zone, t: int): int {
    var p := Period(z, t);
    if p == |z.changes| then t
    else
      var repeated := -Jump(z, p);
      if repeated <= 0 || t < z.changes[p].at - repeated then t else t + repeated
  }

  lemma EarlierCopyShowsTheSame(z: Zone, t: int)
    requires Spaced(z)
    ensures Wall(z, EarlierCopy(z, t)) == Wall(z, t)
    ensures EarlierCopy(z, t) != t ==> Period(z, EarlierCopy(z, t)) + 1 == Period(z, t)
  {
    hide Period, Spaced;
    var p := Period(z, t);
    if EarlierCopy(z, t) != t {
      AroundChange(z, p - 1, z.changes[p - 1].at);
      AroundChange(z, p - 1, EarlierCopy(z, t));
    }
  }

  lemma LaterCopyShowsTheSame(z: Zone, t: int)
    requires Spaced(z)
    ensures Wall(z, LaterCopy(z, t)) == Wall(z, t)
    ensures LaterCopy(z, t) != t ==> Period(z, LaterCopy(z, t)) == Period(z, t) + 1
  {
    hide Period, Spaced;
    var p := Period(z, t);
    if LaterCopy(z, t) != t {
      AroundChange(z, p, z.changes[p].at);
      AroundChange(z, p, LaterCopy(z, t));
    }
  }

  /** The clock reaches a reading at its first copy: no earlier instant shows it, and a second earlier the clock shows
      less. */
  lemma FirstCopyIsFirst(z: Zone, m: int)
    requires Spaced(z)
    ensures Wall(z, EarlierCopy(z, m)) == Wall(z, m) && forall u :: u < EarlierCopy(z, m) ==> Wall(z, u) != Wall(z, m)
    ensures Wall(z, EarlierCopy(z, m) - 1) < Wall(z, m)
  {
    hide Period, Spaced;
    var p, c := Period(z, m), EarlierCopy(z, m);
    EarlierCopyShowsTheSame(z, m);
    forall u | u < c && c <= m
      ensures Wall(z, u) != Wall(z, m)
    {
      if Wall(z, u) == Wall(z, m) {
        AllCopies(z, u, m);
      }
    }
    if c != m {
      AroundChange(z, p - 1, z.changes[p - 1].at);
      AroundChange(z, p - 1, c - 1);
    } else if p > 0 && m == z.changes[p - 1].at {
      AroundChange(z, p - 1, m - 1);
    } else {
      PeriodIs(z, m - 1, p);
    }
  }

  /** A reading is shown at most twice, and the two functions find the other copy. */
  lemma AllCopies(z: Zone, x: int, y: int)
    requires Spaced(z) && x < y && Wall(z, x) == Wall(z, y)
    ensures LaterCopy(z, x) == y && EarlierCopy(z, y) == x
  {
    hide Period, Spaced;
    if y - x > 2 * DAY {
      FarApart(z, x, y);
    }
    PeriodsNearby(z, x, y);
  }

  lemma CopiesInOrder(z: Zone, x: int, u: int)
    requires Spaced(z) && Wall(z, u) == Wall(z, x)
    ensures u == x || u == EarlierCopy(z, x) || u == LaterCopy(z, x)
    ensures EarlierCopy(z, x) <= x <= LaterCopy(z, x)
    ensures Wall(z, EarlierCopy(z, x)) == Wall(z, LaterCopy(z, x)) == Wall(z, x)
  {
    if u < x {
      AllCopies(z, u, x);
    } else if x < u {
      AllCopies(z, x, u);
    }
    EarlierCopyShowsTheSame(z, x);
    LaterCopyShowsTheSame(z, x);
  }

  /** time.Date returns an instant that shows w, or w is never shown and the instant shows a nearby reading. */
  lemma DateOfReading(loc: Location, w: int)
    requires Valid(loc)
    ensures var z, m := loc.zone, loc.date(w);
            || Wall(z, m) == w
            || ((forall u :: Wall(z, u) != w)
                && w - MAX_JUMP <= Wall(z, m) <= w + MAX_JUMP
                && (w % MINUTE == 0 ==> Wall(z, m) % MINUTE == 0))
  {
    hide Period, Spaced, KeepsDate, EarlierCopy, Wall, Skips, PeriodOffset, WholeMinutes;
    var z, m := loc.zone, loc.date(w);
    assert Resolves(z, w, m);
    if Wall(z, m) != w {
      var k :| 0 <= k < |z.changes| && Skips(z, k, w)
               && (m == w - PeriodOffset(z, k) || m == w - z.changes[k].offset);
      DateInGap(z, k, w, m);
      SecondsAgree(z, m);
      OffsetsAreMinutes(z, k, w);
      forall u ensures Wall(z, u) != w {
        SkippedNotShown(z, k, w, u);
      }
    }
  }

  lemma OffsetsAreMinutes(z: Zone, k: nat, w: int)
    requires WholeMinutes(z) && k < |z.changes|
    ensures w % MINUTE == 0 ==> (w - PeriodOffset(z, k)) % MINUTE == 0 && (w - z.changes[k].offset) % MINUTE == 0
  {
  }

  /** In a zone of whole minutes the wall clock shows the seconds of UTC. */
  lemma SecondsAgree(z: Zone, t: int)
    requires WholeMinutes(z)
    ensures Wall(z, t) % MINUTE == t % MINUTE
  {
    hide Period;
  }

  // ----- days -----

  /** The wall date reaches `day` at c and not a second earlier. */
  predicate FirstOfDay(z: Zone, c: int, day: int) {
    WallDay(z, c) >= day && WallDay(z, c - 1) < day
  }

  /** Before FirstOfDay every instant shows an earlier date, from it on every instant shows the date or a later one. */
  lemma FirstOfDaySplits(z: Zone, c: int, day: int, u: int)
    requires Regular(z) && FirstOfDay(z, c, day)
    ensures WallDay(z, u) < day <==> u < c
  {
    hide Period, Spaced, KeepsDate, WholeMinutes, Wall;
    if u < c {
      WallDayMonotone(z, u, c - 1);
    } else {
      WallDayMonotone(z, c, u);
    }
  }

  /** In one second the wall clock moves on by at most one date. */
  lemma NextSecondDay(z: Zone, t: int)
    requires Regular(z)
    ensures WallDay(z, t) <= WallDay(z, t + 1) <= WallDay(z, t) + 1
  {
    hide Period, Spaced, KeepsDate, WholeMinutes, Wall;
    WallDayMonotone(z, t, t + 1);
    WallNearby(z, t, t + 1);
  }

  /** The first copy of midnight starts the day. */
  lemma MidnightStartsDay(z: Zone, m: int, day: int)
    requires Spaced(z) && Wall(z, m) == day * DAY
    ensures FirstOfDay(z, EarlierCopy(z, m), day)
  {
    hide Period, Spaced, EarlierCopy, Wall;
    EarlierCopyShowsTheSame(z, m);
    FirstCopyIsFirst(z, m);
  }

  /** When midnight is skipped, the change that skips it starts the day. */
  lemma SkippingChangeStartsDay(z: Zone, k: nat, day: int)
    requires Spaced(z) && k < |z.changes| && Skips(z, k, day * DAY)
    ensures FirstOfDay(z, z.changes[k].at, day)
  {
    hide Period, Spaced;
    AroundChange(z, k, z.changes[k].at);
    AroundChange(z, k, z.changes[k].at - 1);
  }

  ghost predicate IsChange(z: Zone, t: int) {
    exists k :: 0 <= k < |z.changes| && z.changes[k].at == t
  }

  /** The instant that time.Date returns for a skipped reading lies near the change that skips it. */
  lemma DateInGap(z: Zone, k: nat, w: int, m: int)
    requires Spaced(z) && k < |z.changes| && Skips(z, k, w)
    requires m == w - PeriodOffset(z, k) || m == w - z.changes[k].offset
    ensures z.changes[k].at - MAX_JUMP <= m <= z.changes[k].at + MAX_JUMP
    ensures EarlierCopy(z, m) == m
    ensures w - MAX_JUMP <= Wall(z, m) <= w + MAX_JUMP && Wall(z, m) != w
  {
    hide Period, Spaced;
    AroundChange(z, k, z.changes[k].at);
    AroundChange(z, k, m);
    if k > 0 {
      AroundChange(z, k - 1, z.changes[k - 1].at);
      ChangesApart(z, k - 1, k);
    }
  }

  lemma ChangesApart(z: Zone, i: nat, j: nat)
    requires Spaced(z) && i < j < |z.changes|
    ensures z.changes[i].at + 2 * DAY < z.changes[j].at
  {
  }

  /** Where time.Date lands for the midnight of `day`, and what that says about the day's start. */
  lemma DateOfMidnight(loc: Location, day: int) returns (c: int)
    requires Valid(loc)
    ensures FirstOfDay(loc.zone, c, day)
    ensures var z, m := loc.zone, loc.date(day * DAY);
            if Wall(z, m) == day * DAY then c == EarlierCopy(z, m)
            else EarlierCopy(z, m) == m && IsChange(z, c) && c - MAX_JUMP <= m <= c + MAX_JUMP
  {
    hide Period, Spaced, KeepsDate, WholeMinutes, EarlierCopy, Wall, FirstOfDay, Skips;
    var z, m := loc.zone, loc.date(day * DAY);
    assert Resolves(z, day * DAY, m);
    if Wall(z, m) == day * DAY {
      MidnightStartsDay(z, m, day);
      c := EarlierCopy(z, m);
    } else {
      var k :| 0 <= k < |z.changes| && Skips(z, k, day * DAY)
               && (m == day * DAY - PeriodOffset(z, k) || m == day * DAY - z.changes[k].offset);
      SkippingChangeStartsDay(z, k, day);
      DateInGap(z, k, day * DAY, m);
      c := z.changes[k].at;
    }
  }

  /** The next date starts within two days of t. */
  lemma NextDateIsNear(z: Zone, t: int, c: int)
    requires Regular(z) && FirstOfDay(z, c, WallDay(z, t) + 1)
    ensures t < c <= t + 2 * DAY
  {
    hide Period, Spaced, KeepsDate, WholeMinutes, Wall, FirstOfDay;
    FirstOfDaySplits(z, c, WallDay(z, t) + 1, t);
    WallNearby(z, t, t + 2 * DAY);
    FirstOfDaySplits(z, c, WallDay(z, t) + 1, t + 2 * DAY);
  }

  /** A change ahead of t within two days ends t's period; behind t it leaves the two days ahead alone. */
  lemma ChangeNearby(z: Zone, t: int, c: int)
    requires Spaced(z) && IsChange(z, c)
    ensures t < c <= t + 2 * DAY ==> PeriodEnd(z, t) == Some(c)
    ensures c == t ==> PeriodEnd(z, t).None? || PeriodEnd(z, t).value > t + 2 * DAY
  {
    hide Period, Spaced;
    var k :| 0 <= k < |z.changes| && z.changes[k].at == c;
    if c - 2 * DAY <= t <= c {
      AroundChange(z, k, t);
      if k + 1 < |z.changes| {
        ChangesApart(z, k, k + 1);
      }
    }
  }

  /** No midnight lies ahead of t before its date changes: t is a zone change, or time.Date resolves the
      coming midnight to t itself. */
  ghost predicate Settled(loc: Location, t: int) {
    IsChange(loc.zone, t) || loc.date((WallDay(loc.zone, t) + 1) * DAY) == t
  }

  lemma EndsAreChanges(z: Zone, t: int)
    ensures PeriodEnd(z, t).Some? ==> IsChange(z, PeriodEnd(z, t).value) && PeriodEnd(z, t).value > t
  {
  }

  lemma EndIsFirstChange(z: Zone, t: int)
    requires Spaced(z)
    ensures forall c :: IsChange(z, c) && c > t ==> PeriodEnd(z, t).Some? && PeriodEnd(z, t).value <= c
  {
  }

  /** nextMidnightOrChange: no date starts and no change happens before the result. */
  method NextMidnightOrChange(loc: Location, t: int) returns (next: int)
    requires Valid(loc)
    ensures next > t && forall c :: IsChange(loc.zone, c) ==> !(t < c < next)
    ensures WallDay(loc.zone, next - 1) == WallDay(loc.zone, t) <= WallDay(loc.zone, next)
    ensures WallDay(loc.zone, next) > WallDay(loc.zone, t) || (Settled(loc, next) && !Settled(loc, t))
  {
    hide Period, Spaced, KeepsDate, WholeMinutes, EarlierCopy, Wall, FirstOfDay, PeriodEnd, Resolves;
    var z := loc.zone;
    next := loc.date((WallDay(z, t) + 1) * DAY);
    ghost var c := DateOfMidnight(loc, WallDay(z, t) + 1);
    NextDateIsNear(z, t, c);
    EndsAreChanges(z, t);
    EndIsFirstChange(z, t);
    if IsChange(z, c) {
      ChangeNearby(z, t, c);
    }
    if IsChange(z, t) {
      ChangeNearby(z, t, t);
    }
    var first := EarlierCopy(z, next);
    if first > t {
      next := first;
    }
    var end := PeriodEnd(z, t);
    if end.Some? && (next <= t || end.value < next) {
      next := end.value;
    }
    if next <= t {
      next := t + HOUR;
    }
    assert t < next <= c;
    FirstOfDaySplits(z, c, WallDay(z, t) + 1, next - 1);
    FirstOfDaySplits(z, c, WallDay(z, t) + 1, next);
    WallDayMonotone(z, t, next - 1);
    WallDayMonotone(z, t, next);
  }

  const MAX_ROUNDS := 64

  /** dateChangeAfter: the walk over midnights and zone changes reaches any date within a month. */
  method DateChangeAfter(loc: Location, day: int, from: int) returns (r: int)
    requires Valid(loc) && WallDay(loc.zone, from) < day
    ensures r > from
    ensures day <= WallDay(loc.zone, from) + 31 ==> FirstOfDay(loc.zone, r, day)
  {
    hide Period, Spaced, KeepsDate, WholeMinutes, Wall, Resolves, Settled;
    var t := from;
    for i := 0 to MAX_ROUNDS
      invariant from <= t && WallDay(loc.zone, t) < day
      invariant i <= 2 * (WallDay(loc.zone, t) - WallDay(loc.zone, from)) + if Settled(loc, t) then 1 else 0
    {
      var next := NextMidnightOrChange(loc, t);
      if WallDay(loc.zone, next) >= day {
        return next;
      }
      t := next;
    }
    r := t + 1;
  }

  /** dateStart: the first instant after `after` that shows `day` or a later date. */
  method DateStart(loc: Location, day: int, after: int) returns (r: int)
    requires Valid(loc) && WallDay(loc.zone, after) < day
    ensures r > after && FirstOfDay(loc.zone, r, day)
  {
    hide Period, Spaced, KeepsDate, WholeMinutes, EarlierCopy, LaterCopy, Wall, FirstOfDay, Resolves;
    var z := loc.zone;
    var m := loc.date(day * DAY);
    ghost var c := DateOfMidnight(loc, day);
    FirstOfDaySplits(z, c, day, after);
    if Wall(z, m) == day * DAY {
      r := if EarlierCopy(z, m) > after then EarlierCopy(z, m)
           else if m > after then m else LaterCopy(z, m);
      if r > after {
        return;
      }
    }
    var from := after;
    if m - 2 * DAY > from {
      from := m - 2 * DAY;
    }
    FirstOfDaySplits(z, c, day, from);
    SkippedMidnightIsNear(z, c, day, from, m);
    r := DateChangeAfter(loc, day, from);
  }

  /** From two days before the instant that time.Date returns, a skipped midnight is at most a few dates away. */
  lemma SkippedMidnightIsNear(z: Zone, c: int, day: int, from: int, m: int)
    requires Regular(z) && FirstOfDay(z, c, day)
    requires c - MAX_JUMP <= m <= c + MAX_JUMP && m - 2 * DAY <= from < c
    ensures day <= WallDay(z, from) + 31
  {
    hide Period, Spaced, KeepsDate, WholeMinutes, Wall;
    if from >= c - 2 * DAY {
      WallNearby(z, from, c);
    } else {
      WallNearby(z, from, from + 2 * DAY);
      WallNearby(z, from + 2 * DAY, c);
    }
  }

  // ----- hours -----

  function WallHour(z: Zone, t: int): int { Wall(z, t) / HOUR }

  /** The reading at which the hour after t's hour starts. */
  function NextHourReading(z: Zone, t: int): int { (WallHour(z, t) + 1) * HOUR }

  /** The instant at which the wall clock leaves the hour it shows at t. */
  function HourEnd(z: Zone, t: int): int {
    var w, end := NextHourReading(z, t), PeriodEnd(z, t);
    if end.None? || end.value > t + (w - Wall(z, t)) then t + (w - Wall(z, t))
    else if WallHour(z, end.value) != WallHour(z, t) then end.value
    else end.value + (w - Wall(z, end.value))
  }

  lemma NextHourReadingIsNear(z: Zone, t: int)
    ensures 0 < NextHourReading(z, t) - Wall(z, t) <= HOUR
    ensures NextHourReading(z, t) / HOUR == WallHour(z, t) + 1
  {
    hide Wall;
  }

  lemma HourEndIsNear(z: Zone, t: int)
    requires Spaced(z)
    ensures t < HourEnd(z, t) <= t + DAY
  {
    hide Period, Spaced, WallHour;
    NextHourReadingIsNear(z, t);
    var end := PeriodEnd(z, t);
    if end.Some? && end.value <= t + DAY {
      NextHourReadingIsNear(z, end.value);
      AroundChange(z, Period(z, t), end.value);
    }
  }

  /** Up to HourEnd the clock stays in t's hour, there it shows another one. */
  lemma HourEndIsExact(z: Zone, t: int, u: int)
    requires Spaced(z) && t <= u <= HourEnd(z, t)
    ensures WallHour(z, u) == WallHour(z, t) <==> u < HourEnd(z, t)
  {
    hide Period, Spaced;
    HourEndIsNear(z, t);
    var end := PeriodEnd(z, t);
    if end.None? || u < end.value {
      PeriodIs(z, u, Period(z, t));
      WithinHour(Wall(z, t), u - t);
    } else {
      AroundChange(z, Period(z, t), end.value);
      AroundChange(z, Period(z, t), u);
      WithinHour(Wall(z, end.value), u - end.value);
    }
  }

  /** d seconds on, an uninterrupted clock has left the hour of w just when d reaches the rest of that hour. */
  lemma WithinHour(w: int, d: int)
    requires 0 <= d <= (w / HOUR + 1) * HOUR - w
    ensures (w + d) / HOUR == w / HOUR <==> d < (w / HOUR + 1) * HOUR - w
  {
  }

  /** A whole-minute reading x near the start of the hour after w is that start just when it shows that hour and minute
      0. */
  lemma FullHourReading(w: int, x: int)
    requires x % MINUTE == 0
    requires (w / HOUR + 1) * HOUR - MAX_JUMP <= x <= (w / HOUR + 1) * HOUR + MAX_JUMP
    ensures HourOf(x) == (HourOf(w) + 1) % 24 && MinuteOf(x) == 0 <==> x == (w / HOUR + 1) * HOUR
  {
    var hour, q := w / HOUR + 1, x / HOUR;
    assert x == q * HOUR + x % HOUR;
    assert hour - 3 <= q <= hour + 3;
  }

  lemma NextHourReadingDef(z: Zone, t: int)
    ensures NextHourReading(z, t) == (Wall(z, t) / HOUR + 1) * HOUR
    ensures NextHourReading(z, t) % MINUTE == 0
  {
    hide Wall;
    var q := Wall(z, t) / HOUR + 1;
    SameRemainder(0, MINUTE, 60 * q);
  }

  lemma ReadingShownAt(z: Zone, x: int)
    requires Spaced(z)
    ensures forall u :: Wall(z, u) == Wall(z, x) ==> u == x || u == EarlierCopy(z, x) || u == LaterCopy(z, x)
    ensures EarlierCopy(z, x) <= x <= LaterCopy(z, x)
    ensures Wall(z, EarlierCopy(z, x)) == Wall(z, LaterCopy(z, x)) == Wall(z, x)
  {
    hide Spaced, Wall, EarlierCopy, LaterCopy;
    forall u | Wall(z, u) == Wall(z, x)
      ensures u == x || u == EarlierCopy(z, x) || u == LaterCopy(z, x)
    {
      CopiesInOrder(z, x, u);
    }
    CopiesInOrder(z, x, x);
  }

  /** nextFullHour: the first instant after t that shows the start of the next hour, or an hour from t if none does. */
  method NextFullHour(loc: Location, t: int, want: int) returns (r: int)
    requires Valid(loc) && want == (HourOf(Wall(loc.zone, t)) + 1) % 24
    ensures r > t
    ensures forall u :: u > t && Wall(loc.zone, u) == NextHourReading(loc.zone, t) ==> r <= u
    ensures Wall(loc.zone, r) == NextHourReading(loc.zone, t)
            || (r == t + HOUR && forall u :: u > t ==> Wall(loc.zone, u) != NextHourReading(loc.zone, t))
  {
    hide Period, Spaced, KeepsDate, WholeMinutes, Wall, EarlierCopy, LaterCopy, Resolves, HourOf, MinuteOf;
    hide NextHourReading;
    var z := loc.zone;
    var w := NextHourReading(z, t);
    NextHourReadingDef(z, t);
    var next := loc.date(w);
    DateOfReading(loc, w);
    FullHourReading(Wall(z, t), Wall(z, next));
    if HourOf(Wall(z, next)) == want && MinuteOf(Wall(z, next)) == 0 {
      ReadingShownAt(z, next);
      if EarlierCopy(z, next) > t {
        return EarlierCopy(z, next);
      }
      if next > t {
        return next;
      }
      if LaterCopy(z, next) > t {
        return LaterCopy(z, next);
      }
    }
    return t + HOUR;
  }

  /** nextHourStart: exactly the instant at which the clock leaves t's hour. */
  method NextHourStart(loc: Location, t: int) returns (r: int)
    requires Valid(loc)
    ensures r == HourEnd(loc.zone, t)
  {
    hide Period, Spaced, KeepsDate, WholeMinutes, Wall, Resolves, HourOf, MinuteOf, HourEnd, PeriodEnd;
    var z := loc.zone;
    var want := (HourOf(Wall(z, t)) + 1) % 24;
    if MinuteOf(Wall(z, t)) == 0 && SecondOf(Wall(z, t)) == 0 {
      var next := t + HOUR;
      if HourOf(Wall(z, next)) == want && MinuteOf(Wall(z, next)) == 0 {
        FullHourStep(z, t);
        return next;
      }
    }
    var next := NextFullHour(loc, t, want);
    HourEndInCode(z, t, next);
    var end := PeriodEnd(z, t);
    if end.Some? && end.value < next && HourOf(Wall(z, end.value)) != HourOf(Wall(z, t)) {
      return end.value;
    }
    return next;
  }

  /** From a full hour, an hour on is the next full hour when it reads so. */
  lemma FullHourStep(z: Zone, t: int)
    requires Spaced(z) && WholeMinutes(z)
    requires MinuteOf(Wall(z, t)) == 0 && SecondOf(Wall(z, t)) == 0
    requires HourOf(Wall(z, t + HOUR)) == (HourOf(Wall(z, t)) + 1) % 24 && MinuteOf(Wall(z, t + HOUR)) == 0
    ensures HourEnd(z, t) == t + HOUR
  {
    hide Period, Spaced, WholeMinutes, HourOf, Wall, HourEnd;
    SecondsAgree(z, t);
    SecondsAgree(z, t + HOUR);
    WallNearby(z, t, t + HOUR);
    FullHourStarts(Wall(z, t));
    NextHourReadingIsNear(z, t);
    FullHourReading(Wall(z, t), Wall(z, t + HOUR));
    HourEndAfterHour(z, t);
  }

  lemma FullHourStarts(w: int)
    requires MinuteOf(w) == 0 && SecondOf(w) == 0
    ensures (w / HOUR + 1) * HOUR == w + HOUR
  {
  }

  lemma HourEndAfterHour(z: Zone, t: int)
    requires Spaced(z) && NextHourReading(z, t) == Wall(z, t) + HOUR == Wall(z, t + HOUR)
    ensures HourEnd(z, t) == t + HOUR
  {
    hide Period, Spaced;
    NextHourReadingIsNear(z, t);
    var end := PeriodEnd(z, t);
    if end.Some? && end.value <= t + HOUR {
      AroundChange(z, Period(z, t), end.value);
      AroundChange(z, Period(z, t), t + HOUR);
      SameHour(WallHour(z, t), Wall(z, t), end.value - t);
    }
  }

  lemma SameHour(hour: int, w: int, d: int)
    requires w / HOUR == hour && (hour + 1) * HOUR == w + HOUR && 0 < d <= HOUR
    ensures (w + d) / HOUR == if d < HOUR then hour else hour + 1
  {
  }

  /** Where t's hour ends, the clock shows the next full hour or changes to another hour. */
  lemma HourEndReading(z: Zone, t: int)
    requires Spaced(z)
    ensures var end, r := PeriodEnd(z, t), HourEnd(z, t);
            && (Wall(z, r) == NextHourReading(z, t)
                || (end == Some(r) && r <= t + HOUR && WallHour(z, r) != WallHour(z, t)))
            && (end.Some? && end.value < r ==> end.value <= t + HOUR && WallHour(z, end.value) == WallHour(z, t))
  {
    hide Period, Spaced, WallHour;
    NextHourReadingIsNear(z, t);
    var end := PeriodEnd(z, t);
    if end.Some? {
      NextHourReadingIsNear(z, end.value);
    }
    if end.None? || end.value > t + (NextHourReading(z, t) - Wall(z, t)) {
      PeriodIs(z, HourEnd(z, t), Period(z, t));
    } else {
      AroundChange(z, Period(z, t), end.value);
      AroundChange(z, Period(z, t), HourEnd(z, t));
    }
  }

  /** Within an hour's walk the hour of the day tells the hours apart. */
  lemma HourOfTellsApart(z: Zone, t: int, u: int)
    requires Spaced(z) && t <= u <= t + HOUR
    ensures HourOf(Wall(z, u)) == HourOf(Wall(z, t)) <==> WallHour(z, u) == WallHour(z, t)
  {
    hide Period, Spaced, Wall;
    WallNearby(z, t, u);
  }

  /** What nextHourStart picks, the next full hour or the change before it, is where t's hour ends. */
  lemma HourEndInCode(z: Zone, t: int, next: int)
    requires Spaced(z) && next > t
    requires forall u :: u > t && Wall(z, u) == NextHourReading(z, t) ==> next <= u
    requires Wall(z, next) == NextHourReading(z, t)
             || (next == t + HOUR && forall u :: u > t ==> Wall(z, u) != NextHourReading(z, t))
    ensures var end := PeriodEnd(z, t);
            HourEnd(z, t) ==
            if end.Some? && end.value < next && HourOf(Wall(z, end.value)) != HourOf(Wall(z, t)) then end.value
            else next
  {
    hide Period, Spaced, HourOf, Wall, HourEnd, PeriodEnd, NextHourReading, WallHour;
    var end, r := PeriodEnd(z, t), HourEnd(z, t);
    HourEndIsNear(z, t);
    HourEndIsExact(z, t, r);
    if next < r {
      HourEndIsExact(z, t, next);
      HourShown(z, t, next);
    }
    HourEndReading(z, t);
    if end.Some? && end.value <= t + HOUR {
      HourOfTellsApart(z, t, end.value);
    }
  }

  lemma HourShown(z: Zone, t: int, u: int)
    ensures Wall(z, u) == NextHourReading(z, t) ==> WallHour(z, u) != WallHour(z, t)
  {
    hide Wall;
  }
}

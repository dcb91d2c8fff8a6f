/** Next with the runs for spring-forward gaps: a gap that skips scheduled times runs the schedule once,
    at the earliest of them shifted by the length of the gap. */
module GapRuns {
  import opened Calendar
  import opened Options
  import opened Zones
  import opened Schedules
  import opened WallSteps
  import opened ForwardSearch

  // ----- the run of one gap -----

  /** The least reading of lo..hi-1 that the schedule matches. */
  ghost function EarliestMatch(s: SpecSchedule, lo: int, hi: int): (r: Option<int>)
    ensures r.Some? ==> lo <= r.value < hi && Matches(s, r.value)
    ensures forall w :: lo <= w < (if r.Some? then r.value else hi) ==> !Matches(s, w)
    decreases hi - lo
  {
    if lo >= hi then None else if Matches(s, lo) then Some(lo) else EarliestMatch(s, lo + 1, hi)
  }

  /** The reading at which the clock is taken forward or back by change k. */
  function ChangeReading(z: Zone, k: nat): int
    requires k < |z.changes|
  {
    z.changes[k].at + PeriodOffset(z, k)
  }

  /** The run that change k adds: None unless it skips a scheduled reading. */
  ghost function GapRunOf(s: SpecSchedule, z: Zone, k: nat): (run: Option<int>)
    requires k < |z.changes|
  {
    var start := ChangeReading(z, k);
    match EarliestMatch(s, start, start + Jump(z, k))
    case Some(w) => Some(z.changes[k].at + (w - start))
    case None => None
  }

  /** A gap's run lies in the first stretch after the gap that is as long as the gap itself, and shows the
      skipped reading shifted by that length. */
  lemma GapRunShift(s: SpecSchedule, z: Zone, k: nat)
    requires Spaced(z) && k < |z.changes| && GapRunOf(s, z, k).Some?
    ensures var run := GapRunOf(s, z, k).value;
            && z.changes[k].at <= run < z.changes[k].at + Jump(z, k)
            && Skips(z, k, Wall(z, run) - Jump(z, k))
            && Matches(s, Wall(z, run) - Jump(z, k))
            && (forall w :: Skips(z, k, w) && Matches(s, w) ==> Wall(z, run) - Jump(z, k) <= w)
  {
    hide Spaced, Period, Matches;
    AroundChange(z, k, z.changes[k].at);
    AroundChange(z, k, GapRunOf(s, z, k).value);
  }

  lemma MinuteFieldsHold(s: SpecSchedule, w: int, x: int)
    requires w <= x && x / MINUTE == w / MINUTE
    ensures MinuteFieldsMatch(s, x) <==> MinuteFieldsMatch(s, w)
  {
    hide DateMatches, FieldMatches;
    UnitsNest(w);
    UnitsNest(x);
  }

  /** All fields but the second match. */
  predicate MinuteFieldsMatch(s: SpecSchedule, w: int) {
    DateMatches(s, w / DAY) && FieldMatches(HourOf(w), s.hour) && FieldMatches(MinuteOf(w), s.minute)
  }

  lemma MatchesBySecond(s: SpecSchedule, w: int)
    ensures Matches(s, w) <==> MinuteFieldsMatch(s, w) && FieldMatches(SecondOf(w), s.second)
  {
    hide DateMatches, FieldMatches;
  }

  lemma EarliestMatchIs(s: SpecSchedule, lo: int, hi: int, w: int)
    requires lo <= w < hi && Matches(s, w) && forall x :: lo <= x < w ==> !Matches(s, x)
    ensures EarliestMatch(s, lo, hi) == Some(w)
  {
    hide Matches;
  }

  lemma EarliestMatchIsNone(s: SpecSchedule, lo: int, hi: int)
    requires forall x :: lo <= x < hi ==> !Matches(s, x)
    ensures EarliestMatch(s, lo, hi) == None
  {
    hide Matches;
  }

  /** gapRun: minute by minute, then second by second, through the skipped readings. */
  method GapRun(s: SpecSchedule, z: Zone, k: nat) returns (run: Option<int>)
    requires k < |z.changes|
    ensures run == GapRunOf(s, z, k)
  {
    hide Matches, MinuteFieldsMatch, FieldMatches, SecondOf, MinuteOf;
    var gap := Jump(z, k);
    var start := ChangeReading(z, k);
    if gap <= 0 {
      EarliestMatchIsNone(s, start, start + gap);
      return None;
    }
    var end := start + gap;
    var w := start;
    while w < end
      invariant start <= w
      invariant forall x :: start <= x < w && x < end ==> !Matches(s, x)
      decreases end - w
    {
      var nextMinute := (w / MINUTE + 1) * MINUTE;
      MinuteSpan(w);
      forall x | w <= x < nextMinute
        ensures MinuteOf(x) == MinuteOf(w) && MinuteFieldsMatch(s, x) == MinuteFieldsMatch(s, w)
      {
        MinuteOfSpan(w, x);
        MinuteFieldsHold(s, w, x);
      }
      forall x
        ensures Matches(s, x) <==> MinuteFieldsMatch(s, x) && FieldMatches(SecondOf(x), s.second)
      {
        MatchesBySecond(s, x);
      }
      if MinuteFieldsMatch(s, w) {
        var sec := w;
        while MinuteOf(sec) == MinuteOf(w) && sec < end
          invariant w <= sec <= nextMinute && sec <= end
          invariant forall x :: start <= x < sec ==> !Matches(s, x)
          decreases end - sec
        {
          if FieldMatches(SecondOf(sec), s.second) {
            EarliestMatchIs(s, start, end, sec);
            return Some(z.changes[k].at + (sec - start));
          }
          sec := sec + 1;
        }
      }
      w := nextMinute;
    }
    EarliestMatchIsNone(s, start, end);
    return None;
  }

  lemma MinuteSpan(w: int)
    ensures var next := (w / MINUTE + 1) * MINUTE; w < next <= w + MINUTE && MinuteOf(next) != MinuteOf(w)
  {
    var q := w / MINUTE;
    assert (q + 1) * MINUTE / MINUTE == q + 1;
  }

  lemma MinuteOfSpan(w: int, x: int)
    requires w <= x < (w / MINUTE + 1) * MINUTE
    ensures x / MINUTE == w / MINUTE && MinuteOf(x) == MinuteOf(w)
  {
  }

  // ----- the runs of all gaps -----

  predicate Before(t: int, limit: int, run: Option<int>) { run.Some? && t < run.value < limit }

  /** The gap runs follow one another like their gaps. */
  lemma GapRunsInOrder(s: SpecSchedule, z: Zone, i: nat, j: nat)
    requires Spaced(z) && i < j < |z.changes|
    ensures GapRunOf(s, z, i).Some? ==> GapRunOf(s, z, i).value < z.changes[i].at + MAX_JUMP < z.changes[j].at
    ensures GapRunOf(s, z, i).Some? && GapRunOf(s, z, j).Some? ==> GapRunOf(s, z, i).value < GapRunOf(s, z, j).value
  {
    hide Spaced, Period, GapRunOf, Wall, Matches;
    ChangesApart(z, i, j);
    AroundChange(z, i, z.changes[i].at);
    if GapRunOf(s, z, i).Some? {
      GapRunShift(s, z, i);
    }
    if GapRunOf(s, z, j).Some? {
      GapRunShift(s, z, j);
    }
  }

  /** Changes before t's period, and the one that opened it once its gap length has passed, have no run after t. */
  lemma EarlierGapsHaveRun(s: SpecSchedule, z: Zone, t: int, j: nat)
    requires Spaced(z) && j < Period(z, t)
    requires j + 1 == Period(z, t) ==> t >= z.changes[j].at + Jump(z, j)
    ensures GapRunOf(s, z, j).Some? ==> GapRunOf(s, z, j).value <= t
  {
    hide Spaced, Period, GapRunOf, Wall, Matches;
    var k := Period(z, t) - 1;
    if j < k {
      GapRunsInOrder(s, z, j, k);
    } else if GapRunOf(s, z, j).Some? {
      GapRunShift(s, z, j);
    }
  }

  /** How far a gap search from t goes: to the next existing match or, without one, to where time.Date puts the start
      of the year after the search span. */
  function GapLimit(s: SpecSchedule, loc: Location, t: int, next: Option<int>): int {
    if next.Some? then next.value else SpanEnd(s, loc, t)
  }

  /** nextGapRun: the least gap run after t and before the limit. */
  method NextGapRun(s: SpecSchedule, loc: Location, t: int, next: Option<int>) returns (r: Option<int>)
    requires Valid(loc)
    ensures r.Some? ==> exists k :: 0 <= k < |loc.zone.changes| && GapRunOf(s, loc.zone, k) == r
                                    && Before(t, GapLimit(s, loc, t, next), r)
    ensures forall k :: 0 <= k < |loc.zone.changes| && Before(t, GapLimit(s, loc, t, next), GapRunOf(s, loc.zone, k))
                        ==> r.Some? && r.value <= GapRunOf(s, loc.zone, k).value
  {
    hide Spaced, KeepsDate, WholeMinutes, Resolves, Period, GapRunOf, Wall, Matches, GapLimit;
    var z := loc.zone;
    var end := GapLimit(s, loc, t, next);
    var k := Period(z, t);
    if k > 0 && t < z.changes[k - 1].at + Jump(z, k - 1) {
      k := k - 1;
    }
    forall j | 0 <= j < k
      ensures !Before(t, end, GapRunOf(s, z, j))
    {
      EarlierGapsHaveRun(s, z, t, j);
    }
    while k < |z.changes| && z.changes[k].at < end
      invariant 0 <= k <= |z.changes|
      invariant forall j :: 0 <= j < k ==> !Before(t, end, GapRunOf(s, z, j))
    {
      var run := GapRun(s, z, k);
      if Before(t, end, run) {
        forall j | k < j < |z.changes|
          ensures Before(t, end, GapRunOf(s, z, j)) ==> run.value <= GapRunOf(s, z, j).value
        {
          GapRunsInOrder(s, z, k, j);
        }
        return run;
      }
      k := k + 1;
    }
    forall j | k <= j < |z.changes|
      ensures !Before(t, end, GapRunOf(s, z, j))
    {
      if GapRunOf(s, z, j).Some? {
        GapRunShift(s, z, j);
        if k < j {
          ChangesApart(z, k, j);
        }
      }
    }
    return None;
  }

  /** prevGapRun: the greatest gap run after `limit` and before t. */
  method PrevGapRun(s: SpecSchedule, z: Zone, t: int, limit: int) returns (r: Option<int>)
    requires Spaced(z)
    ensures r.Some? ==> exists k :: 0 <= k < |z.changes| && GapRunOf(s, z, k) == r && Before(limit, t, r)
    ensures forall k :: 0 <= k < |z.changes| && Before(limit, t, GapRunOf(s, z, k))
                        ==> r.Some? && GapRunOf(s, z, k).value <= r.value
  {
    hide Spaced, Period, GapRunOf, Wall, Matches;
    var k := Period(z, t);
    forall j | k <= j < |z.changes|
      ensures !Before(limit, t, GapRunOf(s, z, j))
    {
      LaterGapsRunLater(s, z, t, j);
    }
    while k > 0
      invariant 0 <= k <= |z.changes|
      invariant forall j :: k <= j < |z.changes| ==> !Before(limit, t, GapRunOf(s, z, j))
    {
      var run := GapRun(s, z, k - 1);
      if Before(limit, t, run) {
        forall j | 0 <= j < k - 1
          ensures Before(limit, t, GapRunOf(s, z, j)) ==> GapRunOf(s, z, j).value <= run.value
        {
          GapRunsInOrder(s, z, j, k - 1);
        }
        return run;
      }
      k := k - 1;
      if z.changes[k].at <= limit {
        forall j | 0 <= j < k
          ensures !Before(limit, t, GapRunOf(s, z, j))
        {
          GapRunsInOrder(s, z, j, k);
        }
        break;
      }
    }
    return None;
  }

  lemma LaterGapsRunLater(s: SpecSchedule, z: Zone, t: int, j: nat)
    requires Spaced(z) && Period(z, t) <= j < |z.changes|
    ensures GapRunOf(s, z, j).Some? ==> GapRunOf(s, z, j).value > t
  {
    hide Spaced, Period, GapRunOf, Wall, Matches;
    if GapRunOf(s, z, j).Some? {
      GapRunShift(s, z, j);
      if Period(z, t) < j {
        ChangesApart(z, Period(z, t), j);
      }
    }
  }

  /** The first civil day after the years a gap search from t covers. */
  function SpanEndDay(s: SpecSchedule, z: Zone, t: int): int {
    MonthStart((YearOf(WallDay(z, t)) + SearchSpan(s) + 1) * 12)
  }

  function SpanEnd(s: SpecSchedule, loc: Location, t: int): int {
    loc.date(SpanEndDay(s, loc.zone, t) * DAY)
  }

  // ----- Next -----

  ghost predicate IsGapRun(s: SpecSchedule, z: Zone, u: int) {
    exists k :: 0 <= k < |z.changes| && GapRunOf(s, z, k) == Some(u)
  }

  /** The schedule runs at u: the wall clock matches, or u is the run of a gap. */
  ghost predicate RunsAt(s: SpecSchedule, z: Zone, u: int) {
    MatchesAt(s, z, u) || (!s.dstSkip && IsGapRun(s, z, u))
  }

  /** What Next promises: the least run after t, as far as the search span reaches. */
  ghost predicate IsNext(s: SpecSchedule, z: Zone, t: int, r: Option<int>) {
    match r
    case Some(run) =>
      && run > t && RunsAt(s, z, run)
      && (YearOf(WallDay(z, run)) <= YearLimit(s, z, t) || IsGapRun(s, z, run))
      && forall u :: t < u < run && RunsAt(s, z, u) ==> YearOf(WallDay(z, u)) > YearLimit(s, z, t) && !IsGapRun(s, z, u)
    case None =>
      forall u :: u > t && RunsAt(s, z, u) ==> YearOf(WallDay(z, u)) > YearOf(WallDay(z, t)) + SearchSpan(s)
  }

  /** Next */
  method Next(s: SpecSchedule, loc: Location, t: int) returns (r: Option<int>)
    requires Valid(loc)
    ensures IsNext(s, loc.zone, t, r)
  {
    hide Spaced, KeepsDate, WholeMinutes, Resolves, Period, GapRunOf, Wall, Matches, MatchesAt, YearOf, SpanEnd;
    hide SearchSpan, WallDay;
    var z := loc.zone;
    var next := NextExisting(s, loc, t);
    WallDayMonotone(z, t, t + 1);
    YearsMonotone(z, t, t + 1);
    if s.dstSkip {
      return next;
    }
    var run := NextGapRun(s, loc, t, next);
    ghost var limit := GapLimit(s, loc, t, next);
    forall u | IsGapRun(s, z, u)
      ensures t < u < limit ==> run.Some? && run.value <= u
    {
      var k :| 0 <= k < |z.changes| && GapRunOf(s, z, k) == Some(u);
      assert Before(t, limit, GapRunOf(s, z, k)) <==> t < u < limit;
    }
    if run.Some? {
      return run;
    }
    if next.None? {
      forall u | u > t && IsGapRun(s, z, u)
        ensures YearOf(WallDay(z, u)) > YearOf(WallDay(z, t)) + SearchSpan(s)
      {
        if YearOf(WallDay(z, u)) <= YearOf(WallDay(z, t)) + SearchSpan(s) {
          GapRunsBeforeSpanEnd(s, loc, t, u);
        }
      }
    }
    return next;
  }

  lemma YearsMonotone(z: Zone, t: int, u: int)
    requires Regular(z) && t <= u
    ensures YearOf(WallDay(z, t)) <= YearOf(WallDay(z, u))
  {
    hide Spaced, KeepsDate, WholeMinutes, WallDay, MonthOf;
    WallDayMonotone(z, t, u);
    MonthOfMonotone(WallDay(z, t), WallDay(z, u));
  }

  /** A gap run in a year that the search covers lies before the bound of the gap search. */
  lemma GapRunsBeforeSpanEnd(s: SpecSchedule, loc: Location, t: int, u: int)
    requires Valid(loc) && IsGapRun(s, loc.zone, u)
    requires YearOf(WallDay(loc.zone, u)) <= YearOf(WallDay(loc.zone, t)) + SearchSpan(s)
    ensures u < SpanEnd(s, loc, t)
  {
    hide Spaced, KeepsDate, WholeMinutes, Resolves, Period, GapRunOf, Wall, WallDay, Matches, YearOf, FirstOfDay;
    hide SearchSpan, EarlierCopy;
    var z, day := loc.zone, SpanEndDay(s, loc.zone, t);
    var c := DateOfMidnight(loc, day);
    BeforeYear(WallDay(z, u), YearOf(WallDay(z, t)) + SearchSpan(s) + 1);
    FirstOfDaySplits(z, c, day, u);
    var k :| 0 <= k < |z.changes| && GapRunOf(s, z, k) == Some(u);
    GapRunShift(s, z, k);
    if IsChange(z, c) {
      var j :| 0 <= j < |z.changes| && z.changes[j].at == c;
      if k < j {
        ChangesApart(z, k, j);
        AroundChange(z, k, z.changes[k].at);
      } else if j < k {
        ChangesApart(z, j, k);
      }
    }
    EarlierCopyIsEarlier(z, loc.date(day * DAY));
  }

  lemma EarlierCopyIsEarlier(z: Zone, t: int)
    ensures EarlierCopy(z, t) <= t
  {
  }

  /** With a run inside the search span, Next is the least element after t of the matching instants and the gap runs. */
  lemma NextIsLeastRun(s: SpecSchedule, z: Zone, t: int, r: Option<int>, u: int)
    requires Regular(z) && IsNext(s, z, t, r)
    requires u > t && RunsAt(s, z, u) && YearOf(WallDay(z, u)) <= YearOf(WallDay(z, t)) + SearchSpan(s)
    ensures r.Some? && t < r.value <= u && RunsAt(s, z, r.value)
    ensures forall v :: t < v < r.value ==> !RunsAt(s, z, v)
  {
    hide Spaced, KeepsDate, WholeMinutes, WallDay, YearOf, RunsAt, SearchSpan, IsGapRun;
    YearsMonotone(z, t, t + 1);
    forall v | t < v <= u
      ensures YearOf(WallDay(z, v)) <= YearLimit(s, z, t)
    {
      YearsMonotone(z, v, u);
    }
  }

  /** Each gap adds at most one run, and two gaps never share one. */
  lemma OneRunPerGap(s: SpecSchedule, z: Zone, i: nat, j: nat)
    requires Spaced(z) && i < |z.changes| && j < |z.changes|
    requires GapRunOf(s, z, i).Some? && GapRunOf(s, z, i) == GapRunOf(s, z, j)
    ensures i == j
  {
    hide Spaced, GapRunOf;
    if i < j {
      GapRunsInOrder(s, z, i, j);
    } else if j < i {
      GapRunsInOrder(s, z, j, i);
    }
  }
}

/** Entries that are added with the last run of an earlier process (WithPrev): when the fall-back guard keeps the
    reading of that run from running again. */
module RestoredRuns {
  import opened BitFacts
  import opened Calendar
  import opened FallBackGuard
  import opened FieldMasks
  import opened ForwardSearch
  import opened GapRuns
  import opened Options
  import opened Schedules
  import opened Zones

  /** The entry ran strictly between r and t, by its schedule or not. */
  ghost predicate RanBetween(a: EntryRun, r: int, t: int) {
    exists u :: (u in a.fired || u in a.triggered) && r < u < t
  }

  /** Whatever runs again at the reading of the restored run was forced, recurs anyway, or comes after another run. */
  ghost predicate RestoredKept(s: Schedule, local: Zone, a: EntryRun)
    requires s.Spec?
  {
    a.restored.Some? ==>
      var z, r := ScheduleZone(s, local), a.restored.value;
      && (forall t :: t in a.fired && Wall(z, t) == Wall(z, r) && t !in a.forced ==> Excused(s, z, a, t))
      && (a.next.Some? && !a.immediate && Wall(z, a.next.value) == Wall(z, r) ==> Excused(s, z, a, a.next.value))
  }

  ghost predicate Excused(s: Schedule, z: Zone, a: EntryRun, t: int)
    requires s.Spec? && a.restored.Some?
  {
    Recurs(s.spec, z, a.restored.value, t) || RanBetween(a, a.restored.value, t)
  }

  /** While nothing else has run, the guard recognizes the second copy of the restored run. */
  lemma RestoredIsRecognized(s: Schedule, local: Zone, a: EntryRun, t: int)
    requires s.Spec? && Spaced(ScheduleZone(s, local)) && PrevIsARun(a) && a.restored.Some? && a.prev.value < t
    requires Wall(ScheduleZone(s, local), t) == Wall(ScheduleZone(s, local), a.restored.value)
    requires !IsFallBackRepeat(s, local, a.runs, a.prev, Some(t))
    ensures Excused(s, ScheduleZone(s, local), a, t)
  {
    hide Spaced, Wall, IsFallBackRepeat, Recurs;
    var z, r := ScheduleZone(s, local), a.restored.value;
    SpecRepeatIs(s, local, a.runs, a.prev, t);
    if a.prev != a.restored {
      assert r < a.prev.value < t && (a.prev.value in a.fired || a.prev.value in a.triggered);
    }
  }

  lemma StillExcused(s: Schedule, z: Zone, a: EntryRun, b: EntryRun, t: int)
    requires s.Spec? && a.restored.Some? && b.restored == a.restored && Excused(s, z, a, t)
    requires (forall u :: u in a.fired ==> u in b.fired) && a.triggered <= b.triggered
    ensures Excused(s, z, b, t)
  {
    hide Recurs;
  }

  lemma RestoredAfterReschedule(s: Schedule, local: Zone, a: EntryRun, now: int, skipping: seq<int>, b: EntryRun)
    requires s.Spec? && MovesOn(s) && Spaced(ScheduleZone(s, local)) && PrevIsARun(a) && RestoredKept(s, local, a)
    requires now >= a.clock && Rescheduled(s, local, a, now, skipping, b)
    ensures RestoredKept(s, local, b)
  {
    hide IsFallBackRepeat, Wall, ScheduleZone, Excused, Spaced;
    var z := ScheduleZone(s, local);
    SkipsForward(s, local, a.runs, a.prev, s.next(now), skipping, b.next);
    if a.restored.Some? {
      if b.next.Some? && Wall(z, b.next.value) == Wall(z, a.restored.value) {
        RestoredIsRecognized(s, local, a, b.next.value);
      }
      forall t | Excused(s, z, a, t)
        ensures Excused(s, z, b, t)
      {
        StillExcused(s, z, a, b, t);
      }
    }
  }

  lemma RestoredAfterRun(s: Schedule, local: Zone, a: EntryRun, t: int, now: int)
    requires s.Spec? && RestoredKept(s, local, a)
    requires a.restored.Some? && !a.immediate
             && Wall(ScheduleZone(s, local), t) == Wall(ScheduleZone(s, local), a.restored.value)
             ==> Excused(s, ScheduleZone(s, local), a, t)
    ensures RestoredKept(s, local, Ran(s, local, a, t).(clock := now))
  {
    hide AddFallBackRun, Wall, ScheduleZone, Excused;
    var z, b := ScheduleZone(s, local), Ran(s, local, a, t).(clock := now);
    if a.restored.Some? {
      forall u | Excused(s, z, a, u)
        ensures Excused(s, z, b, u)
      {
        StillExcused(s, z, a, b, u);
      }
    }
  }

  lemma RestoredAfterTrigger(s: Schedule, local: Zone, a: EntryRun, b: EntryRun)
    requires s.Spec? && RestoredKept(s, local, a)
    requires b == a.(prev := b.prev, clock := b.clock, triggered := b.triggered) && a.triggered <= b.triggered
    ensures RestoredKept(s, local, b)
  {
    hide Wall, ScheduleZone, Excused;
    var z := ScheduleZone(s, local);
    if a.restored.Some? {
      forall u | Excused(s, z, a, u)
        ensures Excused(s, z, b, u)
      {
        StillExcused(s, z, a, b, u);
      }
    }
  }

  lemma RestoredWith(s: Schedule, local: Zone, a: EntryRun, b: EntryRun)
    requires s.Spec? && RestoredKept(s, local, a)
    requires b == a.(next := b.next, immediate := b.immediate, clock := b.clock) && (b.immediate || b.next.None?)
    ensures RestoredKept(s, local, b)
  {
    hide Wall, ScheduleZone, Recurs;
  }

  lemma StepKeepsRestored(s: Schedule, local: Zone, a: EntryRun, e: Event, b: EntryRun)
    requires s.Spec? && MovesOn(s) && Spaced(ScheduleZone(s, local))
    requires Guarded(s, local, a) && RestoredKept(s, local, a) && Step(s, local, a, e, b)
    ensures RestoredKept(s, local, b) && b.restored == a.restored
  {
    hide IsFallBackRepeat, ScheduleZone, OncePerReading, FirstCopyRan, Remembers, Increasing, SkipsTo, MovesOn, Spaced;
    hide AddFallBackRun, RestoredKept, Excused, Wall, AnswersFrom;
    match e
    case Reschedule(now, skipping) =>
      RestoredAfterReschedule(s, local, a, now, skipping, b);
    case RunImmediately(now) =>
      RestoredWith(s, local, a, b);
    case Dispatch(now, skipping) =>
      DueIsExcused(s, local, a);
      RestoredAfterRun(s, local, a, a.next.value, now);
      var ran := Ran(s, local, a, a.next.value).(clock := now);
      GuardedAfterRun(s, local, a, a.next.value, now);
      RestoredAfterReschedule(s, local, ran, now, skipping, b);
    case SkipPaused(now, skipping) =>
      RestoredAfterReschedule(s, local, a, now, skipping, b);
    case CatchUp(now, missed) =>
      var ready := a.(immediate := false, next := None);
      RestoredWith(s, local, a, ready);
      if a.restored.Some? && Wall(ScheduleZone(s, local), missed) == Wall(ScheduleZone(s, local), a.restored.value) {
        RestoredIsRecognized(s, local, a, missed);
        StillExcused(s, ScheduleZone(s, local), a, ready, missed);
      }
      RestoredAfterRun(s, local, ready, missed, now);
    case Trigger(now) =>
      RestoredAfterTrigger(s, local, a, b);
  }

  lemma DueIsExcused(s: Schedule, local: Zone, a: EntryRun)
    requires s.Spec? && RestoredKept(s, local, a) && a.next.Some?
    ensures a.restored.Some? && !a.immediate
            && Wall(ScheduleZone(s, local), a.next.value) == Wall(ScheduleZone(s, local), a.restored.value)
            ==> Excused(s, ScheduleZone(s, local), a, a.next.value)
  {
    hide Wall, ScheduleZone, Excused;
  }

  lemma {:induction false} RestoredKeptAlways(s: Schedule, local: Zone, states: seq<EntryRun>, events: seq<Event>)
    requires s.Spec? && MovesOn(s) && Spaced(ScheduleZone(s, local)) && Steps(s, local, states, events)
    ensures RestoredKept(s, local, states[|states| - 1]) && states[|states| - 1].restored == states[0].restored
    decreases |events|
  {
    hide Step, Guarded, Spaced, MovesOn, Excused, ScheduleZone, Wall;
    if events == [] {
    } else {
      var n := |events| - 1;
      RestoredKeptAlways(s, local, states[..n + 1], events[..n]);
      OncePerReadingAlways(s, local, states[..n + 1], events[..n]);
      assert Step(s, local, states[n], events[n], states[n + 1]);
      StepKeepsRestored(s, local, states[n], events[n], states[n + 1]);
    }
  }

  /** Over every run in forward time, the reading of the restored run is fired again only immediately, where it recurs
      anyway, or after the entry has run in between. */
  lemma RestoredRunsOnce(s: Schedule, local: Zone, states: seq<EntryRun>, events: seq<Event>, t: int)
    requires s.Spec? && MovesOn(s) && Spaced(ScheduleZone(s, local)) && Steps(s, local, states, events)
    requires states[0].restored.Some? && t in states[|states| - 1].fired
    requires Wall(ScheduleZone(s, local), t) == Wall(ScheduleZone(s, local), states[0].restored.value)
    ensures var a := states[|states| - 1];
            || t in a.forced
            || Recurs(s.spec, ScheduleZone(s, local), states[0].restored.value, t)
            || RanBetween(a, states[0].restored.value, t)
  {
    hide Step, Spaced, MovesOn, ScheduleZone, Wall;
    RestoredKeptAlways(s, local, states, events);
  }

  // ----- what the schedule fires -----

  /** Next is exact. */
  ghost predicate Exact(s: Schedule, local: Zone)
    requires s.Spec?
  {
    forall x :: IsNext(s.spec, ScheduleZone(s, local), x, s.next(x))
  }

  /** Everything fired or to be fired next is a run of the spec or was forced. */
  ghost predicate RunsOnly(s: Schedule, local: Zone, a: EntryRun)
    requires s.Spec?
  {
    var z := ScheduleZone(s, local);
    && (forall t :: t in a.fired && t !in a.forced ==> RunsAt(s.spec, z, t))
    && (a.next.Some? && !a.immediate ==> RunsAt(s.spec, z, a.next.value))
  }

  lemma AnswerRuns(s: Schedule, local: Zone, x: int)
    requires s.Spec? && Exact(s, local)
    ensures s.next(x).Some? ==> RunsAt(s.spec, ScheduleZone(s, local), s.next(x).value)
  {
    hide RunsAt, ScheduleZone;
    assert IsNext(s.spec, ScheduleZone(s, local), x, s.next(x));
  }

  lemma {:induction false} SkipsToRuns(s: Schedule, local: Zone, fired: seq<int>, prev: Option<int>,
                                       first: Option<int>, skipped: seq<int>, next: Option<int>)
    requires s.Spec? && Exact(s, local) && SkipsTo(s, local, fired, prev, first, skipped, next)
    requires first.Some? ==> RunsAt(s.spec, ScheduleZone(s, local), first.value)
    ensures next.Some? ==> RunsAt(s.spec, ScheduleZone(s, local), next.value)
    decreases |skipped|
  {
    hide RunsAt, Exact, IsFallBackRepeat, ScheduleZone;
    if skipped == [] {
    } else {
      AnswerRuns(s, local, skipped[0]);
      SkipsToRuns(s, local, fired, prev, s.next(skipped[0]), skipped[1..], next);
    }
  }

  lemma StepKeepsRunsOnly(s: Schedule, local: Zone, a: EntryRun, e: Event, b: EntryRun)
    requires s.Spec? && Exact(s, local) && RunsOnly(s, local, a) && Step(s, local, a, e, b)
    ensures RunsOnly(s, local, b)
  {
    hide RunsAt, Exact, IsFallBackRepeat, ScheduleZone, SkipsTo, AddFallBackRun;
    AnswerRuns(s, local, e.now);
    match e
    case Reschedule(now, skipping) =>
      SkipsToRuns(s, local, a.runs, a.prev, s.next(now), skipping, b.next);
    case RunImmediately(now) =>
    case Dispatch(now, skipping) =>
      var ran := Ran(s, local, a, a.next.value);
      SkipsToRuns(s, local, ran.runs, ran.prev, s.next(now), skipping, b.next);
    case SkipPaused(now, skipping) =>
      SkipsToRuns(s, local, a.runs, a.prev, s.next(now), skipping, b.next);
    case CatchUp(now, missed) =>
      var u :| u >= a.prev.value && s.next(u) == Some(missed);
      AnswerRuns(s, local, u);
    case Trigger(now) =>
  }

  lemma {:induction false} RunsOnlyAlways(s: Schedule, local: Zone, states: seq<EntryRun>, events: seq<Event>)
    requires s.Spec? && Exact(s, local) && Steps(s, local, states, events)
    ensures RunsOnly(s, local, states[|states| - 1])
    decreases |events|
  {
    hide Step, Exact, RunsAt, ScheduleZone;
    if events == [] {
    } else {
      var n := |events| - 1;
      RunsOnlyAlways(s, local, states[..n + 1], events[..n]);
      assert Step(s, local, states[n], events[n], states[n + 1]);
      StepKeepsRunsOnly(s, local, states[n], events[n], states[n + 1]);
    }
  }

  // ----- the run that repeats a restored reading -----

  /** From every answer of Next the guard finds the way to one that is no repeat. */
  lemma {:induction false} SkipsSomewhere(s: Schedule, local: Zone, fired: seq<int>, prev: Option<int>,
                                          first: Option<int>, bound: int)
      returns (skipped: seq<int>, next: Option<int>)
    requires MovesOn(s) && forall t :: IsFallBackRepeat(s, local, fired, prev, Some(t)) ==> t <= bound
    ensures SkipsTo(s, local, fired, prev, first, skipped, next)
    decreases if first.Some? && first.value <= bound then bound - first.value + 1 else 0
  {
    hide IsFallBackRepeat;
    RepeatIsATime(s, local, fired, prev, first);
    if IsFallBackRepeat(s, local, fired, prev, first) {
      assert s.next(first.value).Some? ==> s.next(first.value).value > first.value;
      assert IsFallBackRepeat(s, local, fired, prev, Some(first.value));
      skipped, next := SkipsSomewhere(s, local, fired, prev, s.next(first.value), bound);
      assert ([first.value] + skipped)[1..] == skipped;
      skipped := [first.value] + skipped;
    } else {
      skipped, next := [], first;
    }
  }

  /** Only two instants show one reading. */
  lemma OnlyTwoCopies(z: Zone, r: int, u: int, t: int)
    requires Spaced(z) && r < u < t && Wall(z, r) == Wall(z, t)
    ensures Wall(z, u) != Wall(z, r) && SecondCopyRepeat(z, t) == t - r
  {
    hide Spaced, Wall, Offset, SecondCopyRepeat, InFirstCopy;
    SameReading(z, r, t);
    if Wall(z, u) == Wall(z, t) {
      SameReading(z, u, t);
    }
  }

  /** Once u has run after r, t is no repeat for the guard. */
  lemma Forgotten(s: Schedule, local: Zone, runs: seq<int>, r: int, u: int, t: int)
    requires s.Spec? && Spaced(ScheduleZone(s, local)) && r < u < t
    requires Wall(ScheduleZone(s, local), r) == Wall(ScheduleZone(s, local), t)
    requires forall x :: x in runs ==> x == u
    ensures !IsFallBackRepeat(s, local, [], Some(r), Some(u)) && !IsFallBackRepeat(s, local, runs, Some(u), Some(t))
  {
    hide Spaced, Wall, Recurs, IsFallBackRepeat;
    var z := ScheduleZone(s, local);
    OnlyTwoCopies(z, r, u, t);
    SpecRepeatIs(s, local, [], Some(r), u);
    SpecRepeatIs(s, local, runs, Some(u), t);
  }

  /** When u runs between r and its second copy t, t runs as well. */
  lemma RestoredRunsTwice(s: Schedule, local: Zone, r: int, u: int, t: int)
      returns (states: seq<EntryRun>, events: seq<Event>)
    requires s.Spec? && MovesOn(s) && Spaced(ScheduleZone(s, local)) && r < u < t
    requires Wall(ScheduleZone(s, local), r) == Wall(ScheduleZone(s, local), t)
    requires s.next(r) == Some(u) && s.next(t - 1) == Some(t)
    ensures Steps(s, local, states, events) && states[0].restored == Some(r)
    ensures var a := states[|states| - 1]; a.fired == [u, t] && a.forced == {} && a.triggered == {}
  {
    hide IsFallBackRepeat, Spaced, Wall, ScheduleZone, MovesOn, InSomeFirstCopy;
    var runs := AddFallBackRun(s, local, [], u);
    Forgotten(s, local, runs, r, u, t);
    var a0 := EntryRun(Some(r), [], None, false, r, Some(r), [], {}, {}, {});
    var a1 := a0.(next := Some(u));
    assert Rescheduled(s, local, a0, r, [], a1);
    assert Step(s, local, a0, Reschedule(r, []), a1);
    var a2 := EntryRun(Some(u), runs, Some(t), false, t - 1, Some(r), [u], {}, {}, {});
    assert Rescheduled(s, local, Ran(s, local, a1, u), t - 1, [], a2);
    assert Step(s, local, a1, Dispatch(t - 1, []), a2);
    var ran := Ran(s, local, a2, t);
    var bound := RepeatsEnd(s, local, ran.runs, ran.prev);
    var skipped, next := SkipsSomewhere(s, local, ran.runs, ran.prev, s.next(t), bound);
    var a3 := ran.(next := next, immediate := false, clock := t, skipped := ran.skipped + set x | x in skipped);
    assert Step(s, local, a2, Dispatch(t, skipped), a3);
    states, events := [a0, a1, a2, a3], [Reschedule(r, []), Dispatch(t - 1, []), Dispatch(t, skipped)];
  }

  // ----- exactly when -----

  /** The entry was not run by hand, by a workflow or immediately strictly between r and t. */
  ghost predicate Calm(a: EntryRun, r: int, t: int) {
    forall u :: u in a.forced || u in a.triggered ==> !(r < u < t)
  }

  /** In every such run that was added with the last run r, t is not fired by the schedule. */
  ghost predicate NeverAgain(s: Schedule, local: Zone, r: int, t: int) {
    forall states: seq<EntryRun>, events: seq<Event> :: Steps(s, local, states, events) && states[0].restored == Some(r)
                             ==> var a := states[|states| - 1]; Calm(a, r, t) && t in a.fired ==> t in a.forced
  }

  /** The second copy t of a restored run r, itself a run of the spec that does not recur, is never fired exactly when
      the next run after r is t: then nothing runs in between. */
  lemma RestoredOnceExactly(s: Schedule, local: Zone, r: int, t: int)
    requires s.Spec? && MovesOn(s) && Regular(ScheduleZone(s, local)) && Exact(s, local)
    requires r < t && Wall(ScheduleZone(s, local), r) == Wall(ScheduleZone(s, local), t)
    requires RunsAt(s.spec, ScheduleZone(s, local), t) && !Recurs(s.spec, ScheduleZone(s, local), r, t)
    ensures NeverAgain(s, local, r, t) <==> s.next(r) == Some(t)
  {
    hide Wall, ScheduleZone, MovesOn, Step, RunsAt, Recurs, KeepsDate, WholeMinutes, Spaced, Exact;
    NextRunAfter(s, local, r, t);
    if s.next(r) == Some(t) {
      forall states: seq<EntryRun>, events: seq<Event> | Steps(s, local, states, events)
             && states[0].restored == Some(r)
        ensures var a := states[|states| - 1]; Calm(a, r, t) && t in a.fired ==> t in a.forced
      {
        if Calm(states[|states| - 1], r, t) {
          CalmRunsOnce(s, local, r, t, states, events);
        }
      }
    } else {
      var states, events := RestoredRunsTwice(s, local, r, s.next(r).value, t);
      assert !NeverAgain(s, local, r, t);
    }
  }

  /** Next from r gives t or something before it, and nothing runs before its answer. */
  lemma NextRunAfter(s: Schedule, local: Zone, r: int, t: int)
    requires s.Spec? && Regular(ScheduleZone(s, local)) && Exact(s, local)
    requires r < t && Wall(ScheduleZone(s, local), r) == Wall(ScheduleZone(s, local), t)
    requires RunsAt(s.spec, ScheduleZone(s, local), t)
    ensures s.next(r).Some? && r < s.next(r).value <= t && s.next(t - 1) == Some(t)
    ensures forall v :: r < v < s.next(r).value ==> !RunsAt(s.spec, ScheduleZone(s, local), v)
  {
    hide ScheduleZone, RunsAt, Regular, IsNext, YearOf, SearchSpan;
    var z := ScheduleZone(s, local);
    assert IsNext(s.spec, z, r, s.next(r)) && IsNext(s.spec, z, t - 1, s.next(t - 1));
    YearsMonotone(z, r, t - 1);
    NextIsLeastRun(s.spec, z, r, s.next(r), t);
    NextIsLeastRun(s.spec, z, t - 1, s.next(t - 1), t);
  }

  lemma CalmRunsOnce(s: Schedule, local: Zone, r: int, t: int, states: seq<EntryRun>, events: seq<Event>)
    requires s.Spec? && MovesOn(s) && Spaced(ScheduleZone(s, local)) && Exact(s, local)
    requires Steps(s, local, states, events) && states[0].restored == Some(r) && Calm(states[|states| - 1], r, t)
    requires Wall(ScheduleZone(s, local), r) == Wall(ScheduleZone(s, local), t)
    requires !Recurs(s.spec, ScheduleZone(s, local), r, t)
    requires forall v :: r < v < t ==> !RunsAt(s.spec, ScheduleZone(s, local), v)
    ensures t in states[|states| - 1].fired ==> t in states[|states| - 1].forced
  {
    hide Wall, ScheduleZone, MovesOn, Step, RunsAt, Recurs, Spaced, Exact;
    var a := states[|states| - 1];
    RunsOnlyAlways(s, local, states, events);
    assert !RanBetween(a, r, t);
    if t in a.fired {
      RestoredRunsOnce(s, local, states, events, t);
    }
  }

  // ----- "0,30 1 * * *" in New York, restored with its run at 01:00 before the clock goes back -----

  /** 3 November 2024, 06:00 UTC. */
  const GOES_BACK := 1730613600

  function NewYork(): Zone { Zone(-4 * HOUR, [Transition(GOES_BACK, -5 * HOUR)]) }

  function ZeroThirty(): SpecSchedule {
    SpecSchedule(Bit(0), With(Bit(0), 30), Bit(1), ALL, ALL, ALL, None, 0, [], [], false, false)
  }

  lemma ZeroThirtyMatches(w: int)
    ensures Matches(ZeroThirty(), w) <==> HourOf(w) == 1 && MinuteOf(w) in {0, 30} && SecondOf(w) == 0
  {
    hide FieldMatches, Bit, With, Weekday, DayOfMonth, MonthNumber, YearOf;
    OneValue(1, HourOf(w));
    SetBit(Bit(0), 30, MinuteOf(w));
    OneValue(0, MinuteOf(w));
    OneValue(0, SecondOf(w));
    FullMask(DayOfMonth(w / DAY));
    FullMask(Weekday(w / DAY));
    FullMask(MonthNumber(w / DAY));
  }

  lemma NewYorkClock(x: int)
    requires GOES_BACK - HOUR <= x <= GOES_BACK
    ensures Spaced(NewYork()) && Wall(NewYork(), x) == if x < GOES_BACK then x - 4 * HOUR else x - 5 * HOUR
  {
  }

  /** d seconds after 01:00 on that date. */
  lemma AfterOne(d: int)
    requires 0 <= d < HOUR
    ensures var w := GOES_BACK - 5 * HOUR + d; HourOf(w) == 1 && MinuteOf(w) == d / MINUTE && SecondOf(w) == d % MINUTE
    ensures HourOf(GOES_BACK - 6 * HOUR) == 0 && HourOf(GOES_BACK - 4 * HOUR) == 2
  {
  }

  /** From 01:00 before the change to 01:00 after it the only other run is 01:30, and 01:00 does not recur. */
  lemma ZeroThirtyRuns(x: int)
    requires GOES_BACK - HOUR <= x <= GOES_BACK
    ensures MatchesAt(ZeroThirty(), NewYork(), x) <==> x in {GOES_BACK - HOUR, GOES_BACK - 30 * MINUTE, GOES_BACK}
    ensures !Recurs(ZeroThirty(), NewYork(), GOES_BACK - HOUR, GOES_BACK) && Spaced(NewYork())
    ensures Wall(NewYork(), GOES_BACK) == Wall(NewYork(), GOES_BACK - HOUR)
  {
    hide Matches, ZeroThirty, NewYork, HourOf, MinuteOf, SecondOf, Wall, SecondCopyRepeat;
    NewYorkClock(x);
    NewYorkClock(GOES_BACK - HOUR);
    NewYorkClock(GOES_BACK);
    var d := if x < GOES_BACK then x - GOES_BACK + HOUR else 0;
    AfterOne(d);
    ZeroThirtyMatches(GOES_BACK - 5 * HOUR + d);
    OneHourRepeats();
    ZeroThirtyMatches(GOES_BACK - 6 * HOUR);
    ZeroThirtyMatches(GOES_BACK - 4 * HOUR);
    assert d / MINUTE in {0, 30} && d % MINUTE == 0 <==> d in {0, 30 * MINUTE};
  }

  lemma OneHourRepeats()
    ensures SecondCopyRepeat(NewYork(), GOES_BACK) == HOUR
  {
  }

  /** The entry runs at 01:30 before the change and then at 01:00 again: the guard has forgotten the restored run. */
  lemma ZeroThirtyRunsAgain(s: Schedule, local: Zone) returns (states: seq<EntryRun>, events: seq<Event>)
    requires s.Spec? && s.spec == ZeroThirty() && ScheduleZone(s, local) == NewYork() && MovesOn(s)
    requires s.next(GOES_BACK - HOUR) == Some(GOES_BACK - 30 * MINUTE) && s.next(GOES_BACK - 1) == Some(GOES_BACK)
    ensures Steps(s, local, states, events) && states[0].restored == Some(GOES_BACK - HOUR)
    ensures var a := states[|states| - 1];
            a.fired == [GOES_BACK - 30 * MINUTE, GOES_BACK] && a.forced == {} && a.triggered == {}
    ensures Wall(NewYork(), GOES_BACK) == Wall(NewYork(), GOES_BACK - HOUR)
    ensures !Recurs(ZeroThirty(), NewYork(), GOES_BACK - HOUR, GOES_BACK)
  {
    hide Steps, Recurs, Wall, ZeroThirty, NewYork, MovesOn, Spaced, MatchesAt;
    ZeroThirtyRuns(GOES_BACK);
    states, events := RestoredRunsTwice(s, local, GOES_BACK - HOUR, GOES_BACK - 30 * MINUTE, GOES_BACK);
  }

  // ----- "0 * * * *" on the same night -----

  function Hourly(): SpecSchedule { SpecSchedule(Bit(0), Bit(0), ALL, ALL, ALL, ALL, None, 0, [], [], false, false) }

  lemma HourlyMatches(w: int)
    ensures Matches(Hourly(), w) <==> w % HOUR == 0
  {
    hide FieldMatches, Bit, Weekday, DayOfMonth, MonthNumber, YearOf, HourOf, MinuteOf, SecondOf;
    FullMask(HourOf(w));
    OneValue(0, MinuteOf(w));
    OneValue(0, SecondOf(w));
    FullMask(DayOfMonth(w / DAY));
    FullMask(Weekday(w / DAY));
    FullMask(MonthNumber(w / DAY));
    WholeHour(w);
  }

  lemma WholeHour(w: int)
    ensures w % HOUR == 0 <==> MinuteOf(w) == 0 && SecondOf(w) == 0
  {
    assert w == w / MINUTE * MINUTE + SecondOf(w);
    UnitsNest(w);
  }

  /** An hourly job keeps its rhythm: the second 01:00 is no repeat, whatever ran before, and is the next run. */
  lemma HourlyRunsBothCopies(s: Schedule, local: Zone, fired: seq<int>, prev: Option<int>)
    requires s.Spec? && s.spec == Hourly() && ScheduleZone(s, local) == NewYork()
    requires s.next(GOES_BACK - HOUR) == Some(GOES_BACK)
    ensures !IsFallBackRepeat(s, local, fired, prev, Some(GOES_BACK))
    ensures SkipsTo(s, local, fired, prev, s.next(GOES_BACK - HOUR), [], Some(GOES_BACK))
  {
    hide IsFallBackRepeat, Recurs, Hourly, NewYork, Wall, Spaced, SecondCopyRepeat;
    NewYorkClock(GOES_BACK);
    HourlyRecurs();
    SpecRepeatIs(s, local, fired, prev, GOES_BACK);
    forall x
      ensures !Repeats(s.spec, NewYork(), x, GOES_BACK)
    {
      if x < GOES_BACK && Wall(NewYork(), x) == Wall(NewYork(), GOES_BACK) {
        SameReading(NewYork(), x, GOES_BACK);
        OneHourRepeats();
      }
    }
  }

  lemma HourlyRecurs()
    ensures Recurs(Hourly(), NewYork(), GOES_BACK - HOUR, GOES_BACK)
  {
    hide Matches, Hourly, NewYork, Wall;
    NewYorkClock(GOES_BACK);
    HourlyMatches(GOES_BACK - 6 * HOUR);
  }

  /** "0,30 1 * * *" skips the second 01:00 once the first one has run. */
  lemma ZeroThirtySkips(s: Schedule, local: Zone, fired: seq<int>, prev: Option<int>)
    requires s.Spec? && s.spec == ZeroThirty() && ScheduleZone(s, local) == NewYork()
    requires GOES_BACK - HOUR in fired || prev == Some(GOES_BACK - HOUR)
    ensures IsFallBackRepeat(s, local, fired, prev, Some(GOES_BACK))
  {
    hide IsFallBackRepeat, Recurs, ZeroThirty, NewYork, Wall, Spaced;
    ZeroThirtyRuns(GOES_BACK);
    SpecRepeatIs(s, local, fired, prev, GOES_BACK);
    assert Repeats(s.spec, NewYork(), GOES_BACK - HOUR, GOES_BACK);
  }
}

/** The fall-back guard: which runs repeat a wall-clock time that already ran, and what a whole run of an entry
    does with them. */
module FallBackGuard {
  import opened Calendar
  import opened Options
  import opened Schedules
  import opened Zones

  /** A schedule as the guard sees it: how it answers Next, what kind it is, and its own time zone if it has one. */
  datatype Schedule =
    | Interval(next: int -> Option<int>)
    | Spec(next: int -> Option<int>, spec: SpecSchedule, zone: Option<Zone>)
    | Union(next: int -> Option<int>, members: seq<Schedule>)
    | Other(next: int -> Option<int>)

  /** Next answers with a later time or with none, for the schedule and all its members. */
  ghost predicate MovesOn(s: Schedule) {
    && (forall t :: s.next(t).Some? ==> s.next(t).value > t)
    && (s.Union? ==> forall i :: 0 <= i < |s.members| ==> MovesOn(s.members[i]))
  }

  /** scheduleLocation */
  function ScheduleZone(s: Schedule, local: Zone): Zone {
    if s.Spec? && s.zone.Some? then s.zone.value else local
  }

  /** secondCopyRepeat: how long the clock repeats when t shows a reading for the second time, else zero. */
  function SecondCopyRepeat(z: Zone, t: int): (repeated: int)
    ensures repeated >= 0
  {
    var p := Period(z, t);
    if p == 0 then 0
    else
      var repeated := -Jump(z, p - 1);
      if repeated <= 0 || t >= z.changes[p - 1].at + repeated then 0 else repeated
  }

  /** recursAcrossRepeat */
  predicate RecursAcrossRepeat(s: SpecSchedule, w: int, repeated: int) {
    Matches(s, w - repeated) || Matches(s, w + repeated)
  }

  /** isDSTFallBackDuplicate */
  predicate IsDuplicate(z: Zone, prev: Option<int>, next: Option<int>) {
    && prev.Some? && next.Some?
    && Wall(z, prev.value) == Wall(z, next.value)
    && Offset(z, next.value) < Offset(z, prev.value)
  }

  /** firesAt */
  predicate FiresAt(s: Schedule, t: Option<int>) {
    t.Some? && s.next(t.value - 1) == t
  }

  /** isFallBackRepeat */
  predicate IsFallBackRepeat(s: Schedule, local: Zone, fired: seq<int>, prev: Option<int>, next: Option<int>) {
    match s
    case Interval(_) => false
    case Spec(_, spec, _) =>
      var z := ScheduleZone(s, local);
      var repeated := if next.Some? then SecondCopyRepeat(z, next.value) else 0;
      if repeated == 0 || RecursAcrossRepeat(spec, Wall(z, next.value), repeated) then false
      else IsDuplicate(z, prev, next) || next.value - repeated in fired
    case Union(_, members) =>
      && (exists i :: 0 <= i < |members| && FiresAt(members[i], next))
      && (forall i :: 0 <= i < |members| && FiresAt(members[i], next)
                      ==> IsFallBackRepeat(members[i], local, fired, prev, next))
    case Other(_) => IsDuplicate(ScheduleZone(s, local), prev, next)
  }

  /** inFallBackFirstCopy */
  predicate InFirstCopy(z: Zone, t: int) {
    var p := Period(z, t);
    && p < |z.changes|
    && Jump(z, p) < 0
    && t >= z.changes[p].at + Jump(z, p)
  }

  predicate InSomeFirstCopy(s: Schedule, local: Zone, t: int) {
    if s.Union? then exists i :: 0 <= i < |s.members| && InFirstCopy(ScheduleZone(s.members[i], local), t)
    else InFirstCopy(ScheduleZone(s, local), t)
  }

  /** addFallBackRun */
  function AddFallBackRun(s: Schedule, local: Zone, runs: seq<int>, t: int): seq<int> {
    if !InSomeFirstCopy(s, local, t) then runs
    else if |runs| > 0 && runs[|runs| - 1] < t - 3 * HOUR then [t]
    else runs + [t]
  }

  /** The zones in which the guard looks for first copies. */
  function GuardedZones(s: Schedule, local: Zone): set<Zone> {
    if s.Union? then set i | 0 <= i < |s.members| :: ScheduleZone(s.members[i], local) else {ScheduleZone(s, local)}
  }

  /** A run is recorded exactly when its reading comes again in one of those zones. */
  lemma RecordsFirstCopies(s: Schedule, local: Zone, runs: seq<int>, t: int)
    requires t !in runs && forall z :: z in GuardedZones(s, local) ==> Spaced(z)
    ensures t in AddFallBackRun(s, local, runs, t)
            <==> exists z, u :: z in GuardedZones(s, local) && t < u && Wall(z, t) == Wall(z, u)
  {
    hide Spaced, InFirstCopy, Wall, ScheduleZone;
    forall z | z in GuardedZones(s, local)
      ensures InFirstCopy(z, t) <==> exists u :: t < u && Wall(z, t) == Wall(z, u)
    {
      ComesAgain(z, t);
    }
    if s.Union? && InSomeFirstCopy(s, local, t) {
      var i :| 0 <= i < |s.members| && InFirstCopy(ScheduleZone(s.members[i], local), t);
      assert ScheduleZone(s.members[i], local) in GuardedZones(s, local);
    }
  }

  lemma ComesAgain(z: Zone, t: int)
    requires Spaced(z)
    ensures InFirstCopy(z, t) <==> exists u :: t < u && Wall(z, t) == Wall(z, u)
  {
    hide Period;
    var p := Period(z, t);
    if InFirstCopy(z, t) {
      assert -MAX_JUMP <= Jump(z, p) <= MAX_JUMP;
      AroundChange(z, p, t - Jump(z, p));
      assert t < t - Jump(z, p) && Wall(z, t) == Wall(z, t - Jump(z, p));
    }
    if u :| t < u && Wall(z, t) == Wall(z, u) {
      SameReading(z, t, u);
    }
  }

  // ----- the skip loop ends -----

  lemma {:induction false} OffsetsFrom(z: Zone, k: nat) returns (bound: int)
    requires k <= |z.changes|
    ensures forall i :: 0 <= i <= k ==> -PeriodOffset(z, i) <= bound
    ensures forall i :: 0 <= i < k ==> z.changes[i].at - Jump(z, i) <= bound
  {
    bound := -PeriodOffset(z, k);
    if k == 0 {
    } else {
      var rest := OffsetsFrom(z, k - 1);
      bound := if rest > bound then rest else bound;
      var last := z.changes[k - 1].at - Jump(z, k - 1);
      bound := if last > bound then last else bound;
    }
  }

  /** After some instant nothing repeats any more: a zone has finitely many changes. */
  lemma {:induction false} RepeatsEnd(s: Schedule, local: Zone, fired: seq<int>, prev: Option<int>) returns (bound: int)
    ensures forall t :: IsFallBackRepeat(s, local, fired, prev, Some(t)) ==> t <= bound
    decreases s
  {
    if s.Union? {
      if s.members == [] {
        bound := 0;
      } else {
        bound := MembersRepeatsEnd(s.members, local, fired, prev);
      }
    } else {
      var z := ScheduleZone(s, local);
      bound := OffsetsFrom(z, |z.changes|);
      if prev.Some? && prev.value + Offset(z, prev.value) + bound > bound {
        bound := prev.value + Offset(z, prev.value) + bound;
      }
      forall t | IsFallBackRepeat(s, local, fired, prev, Some(t))
        ensures t <= bound
      {
        var p := Period(z, t);
      }
    }
  }

  lemma {:induction false} MembersRepeatsEnd(members: seq<Schedule>, local: Zone, fired: seq<int>, prev: Option<int>)
      returns (bound: int)
    requires members != []
    ensures forall i, t :: 0 <= i < |members| && IsFallBackRepeat(members[i], local, fired, prev, Some(t))
                           ==> t <= bound
    decreases members
  {
    bound := RepeatsEnd(members[0], local, fired, prev);
    if |members| <= 1 {
    } else {
      var rest := MembersRepeatsEnd(members[1..], local, fired, prev);
      bound := if rest > bound then rest else bound;
      forall i, t | 0 <= i < |members| && IsFallBackRepeat(members[i], local, fired, prev, Some(t))
        ensures t <= bound
      {
        if i > 0 {
          assert members[1..][i - 1] == members[i];
        }
      }
    }
  }

  /** skipped are the answers of Next from t on that repeat a run; next is the answer after them. */
  ghost predicate SkipsTo(s: Schedule, local: Zone, fired: seq<int>, prev: Option<int>,
                          first: Option<int>, skipped: seq<int>, next: Option<int>)
    decreases |skipped|
  {
    if skipped == [] then first == next && !IsFallBackRepeat(s, local, fired, prev, next)
    else
      && first == Some(skipped[0])
      && IsFallBackRepeat(s, local, fired, prev, first)
      && SkipsTo(s, local, fired, prev, s.next(skipped[0]), skipped[1..], next)
  }

  /** Like SkipsTo, but next may repeat a run as well. */
  ghost predicate SkipsSoFar(s: Schedule, local: Zone, fired: seq<int>, prev: Option<int>,
                             first: Option<int>, skipped: seq<int>, next: Option<int>)
    decreases |skipped|
  {
    if skipped == [] then first == next
    else
      && first == Some(skipped[0])
      && IsFallBackRepeat(s, local, fired, prev, first)
      && SkipsSoFar(s, local, fired, prev, s.next(skipped[0]), skipped[1..], next)
  }

  lemma {:induction false} SkipsOneMore(s: Schedule, local: Zone, fired: seq<int>, prev: Option<int>,
                     first: Option<int>, skipped: seq<int>, next: Option<int>)
    requires SkipsSoFar(s, local, fired, prev, first, skipped, next)
    requires IsFallBackRepeat(s, local, fired, prev, next) && next.Some?
    ensures SkipsSoFar(s, local, fired, prev, first, skipped + [next.value], s.next(next.value))
    decreases |skipped|
  {
    hide IsFallBackRepeat;
    if skipped == [] {
    } else {
      SkipsOneMore(s, local, fired, prev, s.next(skipped[0]), skipped[1..], next);
      assert (skipped + [next.value])[1..] == skipped[1..] + [next.value];
    }
  }

  lemma {:induction false} SkipsDone(s: Schedule, local: Zone, fired: seq<int>, prev: Option<int>,
                  first: Option<int>, skipped: seq<int>, next: Option<int>)
    requires SkipsSoFar(s, local, fired, prev, first, skipped, next) && !IsFallBackRepeat(s, local, fired, prev, next)
    ensures SkipsTo(s, local, fired, prev, first, skipped, next)
    decreases |skipped|
  {
    hide IsFallBackRepeat;
    if skipped == [] {
    } else {
      SkipsDone(s, local, fired, prev, s.next(skipped[0]), skipped[1..], next);
    }
  }

  /** What is skipped and what comes after it is no earlier than the first answer. */
  lemma {:induction false} SkipsForward(s: Schedule, local: Zone, fired: seq<int>, prev: Option<int>,
                     first: Option<int>, skipped: seq<int>, next: Option<int>)
    requires MovesOn(s) && SkipsTo(s, local, fired, prev, first, skipped, next)
    ensures forall x :: x in skipped
                        ==> first.Some? && x >= first.value && IsFallBackRepeat(s, local, fired, prev, Some(x))
    ensures next.Some? ==> first.Some? && next.value >= first.value
    ensures !IsFallBackRepeat(s, local, fired, prev, next)
    decreases |skipped|
  {
    hide IsFallBackRepeat;
    if skipped == [] {
    } else {
      assert s.next(skipped[0]).Some? ==> s.next(skipped[0]).value > skipped[0];
      SkipsForward(s, local, fired, prev, s.next(skipped[0]), skipped[1..], next);
      forall x | x in skipped
        ensures x >= first.value && IsFallBackRepeat(s, local, fired, prev, Some(x))
      {
        assert x == skipped[0] || x in skipped[1..];
      }
    }
  }

  /** skipFallBackRepeats: move next past every repeat. */
  method SkipFallBackRepeats(s: Schedule, local: Zone, fired: seq<int>, prev: Option<int>, first: Option<int>)
      returns (next: Option<int>, skipped: seq<int>)
    requires MovesOn(s)
    ensures SkipsTo(s, local, fired, prev, first, skipped, next)
    ensures next.Some? ==> first.Some? && next.value >= first.value
  {
    hide IsFallBackRepeat;
    next, skipped := first, [];
    ghost var bound := RepeatsEnd(s, local, fired, prev);
    while IsFallBackRepeat(s, local, fired, prev, next)
      invariant SkipsSoFar(s, local, fired, prev, first, skipped, next)
      decreases if next.Some? && next.value <= bound then bound - next.value + 1 else 0
    {
      RepeatIsATime(s, local, fired, prev, next);
      SkipsOneMore(s, local, fired, prev, first, skipped, next);
      assert s.next(next.value).Some? ==> s.next(next.value).value > next.value;
      next, skipped := s.next(next.value), skipped + [next.value];
    }
    SkipsDone(s, local, fired, prev, first, skipped, next);
    SkipsForward(s, local, fired, prev, first, skipped, next);
  }

  lemma {:induction false} RepeatIsATime(s: Schedule, local: Zone, fired: seq<int>, prev: Option<int>,
                                         next: Option<int>)
    ensures IsFallBackRepeat(s, local, fired, prev, next) ==> next.Some?
  {
  }

  /** next is the answer of Next to now, or the first one after it that is no repeat. */
  ghost predicate IsNextRun(s: Schedule, local: Zone, fired: seq<int>, prev: Option<int>, now: int, next: Option<int>) {
    exists skipped :: SkipsTo(s, local, fired, prev, s.next(now), skipped, next)
  }

  // ----- whole runs of one entry -----

  /** An entry over time: what the guard remembers (prev, runs), the next run and whether that is an immediate one,
      and for the record the last run before the entry was added and everything that was fired, fired immediately,
      triggered by hand or by a workflow, and skipped since. */
  datatype EntryRun = EntryRun(prev: Option<int>, runs: seq<int>, next: Option<int>, immediate: bool, clock: int,
                               restored: Option<int>, fired: seq<int>, forced: set<int>, triggered: set<int>,
                               skipped: set<int>)

  /** What can happen to an entry at time now; skipped is what the guard skips on the way to the next run. */
  datatype Event =
    | Reschedule(now: int, skipping: seq<int>)
    | RunImmediately(now: int)
    | Dispatch(now: int, skipping: seq<int>)
    | SkipPaused(now: int, skipping: seq<int>)
    | CatchUp(now: int, missed: int)
    | Trigger(now: int)

  /** An entry as it is added, perhaps with the last run of an earlier process. */
  ghost predicate Added(a: EntryRun) {
    && a.runs == [] && a.next.None? && !a.immediate
    && a.fired == [] && a.forced == {} && a.triggered == {} && a.skipped == {}
    && a.prev == a.restored
    && (a.prev.Some? ==> a.prev.value <= a.clock)
  }

  /** The entry after it ran at its scheduled time t. */
  function Ran(s: Schedule, local: Zone, a: EntryRun, t: int): EntryRun {
    a.(prev := Some(t), runs := AddFallBackRun(s, local, a.runs, t), fired := a.fired + [t],
       forced := if a.immediate then a.forced + {t} else a.forced, next := None, immediate := false)
  }

  /** a is given the next run after now. */
  ghost predicate Rescheduled(s: Schedule, local: Zone, a: EntryRun, now: int, skipping: seq<int>, b: EntryRun) {
    && SkipsTo(s, local, a.runs, a.prev, s.next(now), skipping, b.next)
    && b == a.(next := b.next, immediate := false, clock := now, skipped := a.skipped + (set x | x in skipping))
  }

  /** t is an answer of Next to some time from `since` on. */
  ghost predicate AnswersFrom(s: Schedule, since: int, t: int) {
    exists u :: u >= since && s.next(u) == Some(t)
  }

  /** t lies after the restored run and everything that was fired. */
  ghost predicate Later(a: EntryRun, t: int) {
    (a.restored.Some? ==> a.restored.value < t) && forall u :: u in a.fired ==> u < t
  }

  ghost predicate Step(s: Schedule, local: Zone, a: EntryRun, e: Event, b: EntryRun) {
    && e.now >= a.clock
    && match e
       case Reschedule(now, skipping) => Rescheduled(s, local, a, now, skipping, b)
       case RunImmediately(now) => Later(a, now) && b == a.(next := Some(now), immediate := true, clock := now)
       case Dispatch(now, skipping) =>
         a.next.Some? && a.next.value <= now && Rescheduled(s, local, Ran(s, local, a, a.next.value), now, skipping, b)
       case SkipPaused(now, skipping) =>
         a.next.Some? && a.next.value <= now && Rescheduled(s, local, a, now, skipping, b)
       case CatchUp(now, missed) =>
         && a.prev.Some? && a.prev.value < missed < now && AnswersFrom(s, a.prev.value, missed)
         && !IsFallBackRepeat(s, local, a.runs, a.prev, Some(missed))
         && b == Ran(s, local, a.(immediate := false), missed).(clock := now)
       case Trigger(now) => b == a.(prev := Some(now), triggered := a.triggered + {now}, clock := now)
  }

  ghost predicate Steps(s: Schedule, local: Zone, states: seq<EntryRun>, events: seq<Event>) {
    && |states| == |events| + 1
    && Added(states[0])
    && forall i :: 0 <= i < |events| ==> Step(s, local, states[i], events[i], states[i + 1])
  }

  predicate Increasing(s: seq<int>) { forall i, j :: 0 <= i < j < |s| ==> s[i] < s[j] }

  /** A run more than three hours after t is remembered. */
  ghost predicate Superseded(runs: seq<int>, t: int) {
    exists u :: u in runs && t < u - 3 * HOUR
  }

  /** No run is more than three hours after the one before it. */
  predicate OneNight(runs: seq<int>) { forall i :: 0 < i < |runs| ==> runs[i] - runs[i - 1] <= 3 * HOUR }

  lemma OneNightMore(s: Schedule, local: Zone, runs: seq<int>, t: int)
    requires Increasing(runs) && OneNight(runs) && forall u :: u in runs ==> u < t
    ensures var after := AddFallBackRun(s, local, runs, t); Increasing(after) && OneNight(after)
  {
    hide InSomeFirstCopy;
    forall i | 0 <= i < |runs|
      ensures runs[i] < t
    {
      assert runs[i] in runs;
    }
  }

  /** The runs of a first copy are remembered for as long as the second copy can come, and only those of one change. */
  ghost predicate Remembers(s: Schedule, local: Zone, runs: seq<int>, fired: seq<int>) {
    && Increasing(runs) && OneNight(runs)
    && (forall t :: t in runs ==> t in fired)
    && (forall t :: t in fired && InSomeFirstCopy(s, local, t) && t !in runs ==> Superseded(runs, t))
  }

  lemma RemembersOneMore(s: Schedule, local: Zone, runs: seq<int>, fired: seq<int>, t: int)
    requires Remembers(s, local, runs, fired) && forall u :: u in fired ==> u < t
    ensures Remembers(s, local, AddFallBackRun(s, local, runs, t), fired + [t])
  {
    hide InSomeFirstCopy, OneNight;
    var after := AddFallBackRun(s, local, runs, t);
    OneNightMore(s, local, runs, t);
    forall u | u in after
      ensures u in fired + [t]
    {
      assert u in runs || u == t;
    }
    forall u | u in fired + [t] && InSomeFirstCopy(s, local, u) && u !in after
      ensures Superseded(after, u)
    {
      if u in runs {
        var i :| 0 <= i < |runs| && runs[i] == u;
        assert runs[i] <= runs[|runs| - 1] < t - 3 * HOUR;
        assert t in after;
      } else if u != t {
        assert Superseded(runs, u);
        var v :| v in runs && u < v - 3 * HOUR;
        assert t in after || v in after;
      }
    }
  }

  // ----- the two copies of a reading -----

  /** Where a fall-back lasts at most three hours, an earlier instant with the same reading is one repeat earlier
      and in the first copy. */
  lemma SameReading(z: Zone, a: int, b: int)
    requires Spaced(z) && a < b && Wall(z, a) == Wall(z, b)
    ensures SecondCopyRepeat(z, b) == b - a <= 3 * HOUR && InFirstCopy(z, a) && Offset(z, b) < Offset(z, a)
  {
    hide Period;
    if a + 2 * DAY < b {
      FarApart(z, a, b);
      assert false;
    }
    PeriodsNearby(z, a, b);
    var p := Period(z, b);
    assert -MAX_JUMP <= Jump(z, p - 1) <= MAX_JUMP;
  }

  /** One repeat before the second copy of a reading is its first copy. */
  lemma FirstCopyOf(z: Zone, b: int)
    requires Spaced(z) && SecondCopyRepeat(z, b) > 0
    ensures var a := b - SecondCopyRepeat(z, b); Wall(z, a) == Wall(z, b) && InFirstCopy(z, a)
  {
    hide Period;
    var p := Period(z, b);
    var a := b - SecondCopyRepeat(z, b);
    assert -MAX_JUMP <= Jump(z, p - 1) <= MAX_JUMP;
    AroundChange(z, p - 1, a);
  }

  // ----- once per reading -----

  /** t shows the reading of x again, and the spec also matches the clock one such repeat earlier or later. */
  predicate Recurs(s: SpecSchedule, z: Zone, x: int, t: int) {
    Matches(s, Wall(z, t) - (t - x)) || Matches(s, Wall(z, t) + (t - x))
  }

  /** t is a later instant with the reading of x and does not recur. */
  predicate Repeats(s: SpecSchedule, z: Zone, x: int, t: int) {
    x < t && Wall(z, x) == Wall(z, t) && !Recurs(s, z, x, t)
  }

  /** The guard takes t for a repeat exactly when it repeats the last run or a recorded one. */
  lemma SpecRepeatIs(s: Schedule, local: Zone, fired: seq<int>, prev: Option<int>, t: int)
    requires s.Spec? && Spaced(ScheduleZone(s, local))
    ensures IsFallBackRepeat(s, local, fired, prev, Some(t))
            <==> exists x :: (x in fired || prev == Some(x)) && Repeats(s.spec, ScheduleZone(s, local), x, t)
  {
    hide Spaced, Offset, SecondCopyRepeat, InFirstCopy, Matches;
    var z := ScheduleZone(s, local);
    if IsFallBackRepeat(s, local, fired, prev, Some(t)) {
      var x := if IsDuplicate(z, prev, Some(t)) then prev.value else t - SecondCopyRepeat(z, t);
      FirstCopyOf(z, t);
      if IsDuplicate(z, prev, Some(t)) {
        assert x < t;
        SameReading(z, x, t);
      }
      assert Repeats(s.spec, z, x, t);
    }
    if x :| (x in fired || prev == Some(x)) && Repeats(s.spec, z, x, t) {
      SameReading(z, x, t);
    }
  }

  /** A custom schedule repeats when it shows the reading of its last run again; an interval never does. */
  lemma OtherRepeatIs(s: Schedule, local: Zone, fired: seq<int>, prev: Option<int>, t: int)
    requires (s.Other? || s.Interval?) && Spaced(ScheduleZone(s, local))
    ensures IsFallBackRepeat(s, local, fired, prev, Some(t))
            <==> s.Other? && prev.Some? && prev.value < t
                 && Wall(ScheduleZone(s, local), prev.value) == Wall(ScheduleZone(s, local), t)
  {
    hide Spaced, SecondCopyRepeat, InFirstCopy;
    var z := ScheduleZone(s, local);
    if prev.Some? && prev.value < t && Wall(z, prev.value) == Wall(z, t) {
      SameReading(z, prev.value, t);
    }
  }

  /** A union of specs repeats at t when some of them fire at t and each of those repeats a run there. */
  lemma UnionRepeatIs(s: Schedule, local: Zone, fired: seq<int>, prev: Option<int>, t: int)
    requires s.Union?
    requires forall i :: 0 <= i < |s.members| ==> s.members[i].Spec? && Spaced(ScheduleZone(s.members[i], local))
    ensures IsFallBackRepeat(s, local, fired, prev, Some(t))
            <==> (exists i :: 0 <= i < |s.members| && s.members[i].next(t - 1) == Some(t))
                 && (forall i :: 0 <= i < |s.members| && s.members[i].next(t - 1) == Some(t)
                                 ==> exists x :: (x in fired || prev == Some(x))
                                                 && Repeats(s.members[i].spec, ScheduleZone(s.members[i], local), x, t))
  {
    hide Spaced, Repeats, ScheduleZone;
    forall i | 0 <= i < |s.members|
      ensures IsFallBackRepeat(s.members[i], local, fired, prev, Some(t))
              <==> exists x :: (x in fired || prev == Some(x))
                               && Repeats(s.members[i].spec, ScheduleZone(s.members[i], local), x, t)
      ensures FiresAt(s.members[i], Some(t)) <==> s.members[i].next(t - 1) == Some(t)
    {
      SpecRepeatIs(s.members[i], local, fired, prev, t);
    }
  }

  /** No reading is fired in both copies, except immediately or when the spec matches it one repeat away as well. */
  ghost predicate OncePerReading(s: SpecSchedule, z: Zone, fired: seq<int>, forced: set<int>) {
    forall a, b :: a in fired && b in fired && a < b && Wall(z, a) == Wall(z, b) ==> b in forced || Recurs(s, z, a, b)
  }

  /** The entry ran at t, by its schedule or not. */
  predicate RanAt(a: EntryRun, t: int) {
    t in a.fired || t in a.triggered || a.restored == Some(t)
  }

  /** t repeats an instant at which the entry ran. */
  ghost predicate FirstCopyRan(s: SpecSchedule, z: Zone, a: EntryRun, t: int) {
    exists x :: RanAt(a, x) && Repeats(s, z, x, t)
  }

  /** The last run of an entry, where it is known, is one of its runs and no earlier than the scheduled ones. */
  ghost predicate PrevIsARun(a: EntryRun) {
    && (a.prev.Some? ==> RanAt(a, a.prev.value) && a.prev.value <= a.clock)
    && (a.restored.Some? ==> a.prev.Some? && a.restored.value <= a.prev.value)
    && (forall u :: u in a.fired ==> a.prev.Some? && u <= a.prev.value)
    && (a.restored.Some? ==> forall u :: u in a.fired ==> a.restored.value < u)
  }

  ghost predicate Kept(s: Schedule, local: Zone, a: EntryRun) {
    && PrevIsARun(a)
    && Increasing(a.fired)
    && (a.next.Some? ==> Later(a, a.next.value))
    && (a.immediate || !IsFallBackRepeat(s, local, a.runs, None, a.next))
    && Remembers(s, local, a.runs, a.fired)
  }

  /** What holds of an entry at every moment. */
  ghost predicate Guarded(s: Schedule, local: Zone, a: EntryRun)
    requires s.Spec?
  {
    var z := ScheduleZone(s, local);
    && Kept(s, local, a)
    && OncePerReading(s.spec, z, a.fired, a.forced)
    && forall t :: t in a.skipped ==> FirstCopyRan(s.spec, z, a, t)
  }

  /** What is no repeat whatever ran last is none when nothing did. */
  lemma NoRepeatWithout(s: Schedule, local: Zone, runs: seq<int>, prev: Option<int>, t: Option<int>)
    requires s.Spec? && !IsFallBackRepeat(s, local, runs, prev, t)
    ensures !IsFallBackRepeat(s, local, runs, None, t)
  {
    hide SecondCopyRepeat, RecursAcrossRepeat, ScheduleZone;
  }

  /** A time that is no repeat does not bring back a reading that was fired. */
  lemma NotFiredBefore(s: Schedule, local: Zone, a: EntryRun, t: int, u: int)
    requires s.Spec? && Spaced(ScheduleZone(s, local)) && Kept(s, local, a)
    requires Later(a, t) && !IsFallBackRepeat(s, local, a.runs, None, Some(t))
    requires u in a.fired && Wall(ScheduleZone(s, local), u) == Wall(ScheduleZone(s, local), t)
    ensures Recurs(s.spec, ScheduleZone(s, local), u, t)
  {
    hide Spaced, Wall, Offset, SecondCopyRepeat, InFirstCopy, Recurs, IsFallBackRepeat;
    var z := ScheduleZone(s, local);
    SameReading(z, u, t);
    NotSuperseded(a.runs, a.fired, u, t);
    SpecRepeatIs(s, local, a.runs, None, t);
  }

  lemma NotSuperseded(runs: seq<int>, fired: seq<int>, u: int, t: int)
    requires (forall x :: x in runs ==> x in fired) && forall x :: x in fired ==> x < t <= u + 3 * HOUR
    ensures !Superseded(runs, u)
  {
  }

  /** A repeat of a spec has a first copy that ran. */
  lemma RepeatHasRun(s: Schedule, local: Zone, a: EntryRun, t: int)
    requires s.Spec? && Spaced(ScheduleZone(s, local)) && Kept(s, local, a)
    requires IsFallBackRepeat(s, local, a.runs, a.prev, Some(t))
    ensures FirstCopyRan(s.spec, ScheduleZone(s, local), a, t)
  {
    hide Repeats, IsFallBackRepeat;
    SpecRepeatIs(s, local, a.runs, a.prev, t);
    var x :| (x in a.runs || a.prev == Some(x)) && Repeats(s.spec, ScheduleZone(s, local), x, t);
    assert RanAt(a, x);
  }

  lemma FirstCopyStillRan(s: SpecSchedule, z: Zone, a: EntryRun, b: EntryRun, t: int)
    requires FirstCopyRan(s, z, a, t) && forall x :: RanAt(a, x) ==> RanAt(b, x)
    ensures FirstCopyRan(s, z, b, t)
  {
    hide Repeats, RanAt;
  }

  // ----- every step keeps it -----

  /** A time that is no repeat, after everything fired, may fire. */
  lemma OnceOneMore(s: Schedule, local: Zone, a: EntryRun, t: int)
    requires s.Spec? && Spaced(ScheduleZone(s, local)) && Guarded(s, local, a) && Later(a, t)
    requires a.immediate || !IsFallBackRepeat(s, local, a.runs, None, Some(t))
    ensures var b := Ran(s, local, a, t);
            && OncePerReading(s.spec, ScheduleZone(s, local), b.fired, b.forced)
            && forall u :: u in b.skipped ==> FirstCopyRan(s.spec, ScheduleZone(s, local), b, u)
  {
    hide Wall, Recurs, IsFallBackRepeat, ScheduleZone, Kept, FirstCopyRan;
    var z, b := ScheduleZone(s, local), Ran(s, local, a, t);
    forall x, y | x in b.fired && y in b.fired && x < y && Wall(z, x) == Wall(z, y)
      ensures y in b.forced || Recurs(s.spec, z, x, y)
    {
      if y == t && !a.immediate {
        NotFiredBefore(s, local, a, t, x);
      }
    }
    forall u | u in b.skipped
      ensures FirstCopyRan(s.spec, z, b, u)
    {
      FirstCopyStillRan(s.spec, z, a, b, u);
    }
  }

  /** Firing keeps what holds of an entry. */
  lemma GuardedAfterRun(s: Schedule, local: Zone, a: EntryRun, t: int, now: int)
    requires s.Spec? && Spaced(ScheduleZone(s, local)) && Guarded(s, local, a)
    requires t <= now && Later(a, t)
    requires a.immediate || !IsFallBackRepeat(s, local, a.runs, None, Some(t))
    ensures Guarded(s, local, Ran(s, local, a, t).(clock := now))
  {
    hide IsFallBackRepeat, AddFallBackRun, ScheduleZone, OncePerReading, FirstCopyRan, Remembers, Spaced;
    OnceOneMore(s, local, a, t);
    RemembersOneMore(s, local, a.runs, a.fired, t);
    var b := Ran(s, local, a, t);
    forall i | 0 <= i < |a.fired|
      ensures a.fired[i] < t
    {
      assert a.fired[i] in a.fired;
    }
    assert RanAt(b, t) && forall u :: u in b.fired ==> u in a.fired || u == t;
    RepeatIsATime(s, local, b.runs, None, None);
    forall u | u in b.skipped
      ensures FirstCopyRan(s.spec, ScheduleZone(s, local), b.(clock := now), u)
    {
      FirstCopyStillRan(s.spec, ScheduleZone(s, local), b, b.(clock := now), u);
    }
  }

  lemma GuardedAfterReschedule(s: Schedule, local: Zone, a: EntryRun, now: int, skipping: seq<int>, b: EntryRun)
    requires s.Spec? && MovesOn(s) && Spaced(ScheduleZone(s, local)) && Guarded(s, local, a)
    requires now >= a.clock && Rescheduled(s, local, a, now, skipping, b)
    ensures Guarded(s, local, b)
  {
    hide IsFallBackRepeat, Wall, ScheduleZone, OncePerReading, FirstCopyRan, Remembers, Increasing;
    SkipsForward(s, local, a.runs, a.prev, s.next(now), skipping, b.next);
    NoRepeatWithout(s, local, a.runs, a.prev, b.next);
    forall t | t in b.skipped
      ensures FirstCopyRan(s.spec, ScheduleZone(s, local), b, t)
    {
      if t in skipping {
        RepeatHasRun(s, local, a, t);
      }
      FirstCopyStillRan(s.spec, ScheduleZone(s, local), a, b, t);
    }
  }

  lemma GuardedAfterTrigger(s: Schedule, local: Zone, a: EntryRun, now: int)
    requires s.Spec? && Guarded(s, local, a) && now >= a.clock
    ensures Guarded(s, local, a.(prev := Some(now), triggered := a.triggered + {now}, clock := now))
  {
    hide IsFallBackRepeat, ScheduleZone, OncePerReading, FirstCopyRan, Remembers, Increasing;
    var b := a.(prev := Some(now), triggered := a.triggered + {now}, clock := now);
    forall t | t in b.skipped
      ensures FirstCopyRan(s.spec, ScheduleZone(s, local), b, t)
    {
      FirstCopyStillRan(s.spec, ScheduleZone(s, local), a, b, t);
    }
  }

  /** Fields that say nothing about past runs may change. */
  lemma GuardedWith(s: Schedule, local: Zone, a: EntryRun, b: EntryRun)
    requires s.Spec? && Guarded(s, local, a)
    requires b == a.(next := b.next, immediate := b.immediate, clock := b.clock) && b.clock >= a.clock
    requires b.next.Some? ==> Later(b, b.next.value)
    requires b.immediate || !IsFallBackRepeat(s, local, b.runs, None, b.next)
    ensures Guarded(s, local, b)
  {
    hide IsFallBackRepeat, ScheduleZone, OncePerReading, FirstCopyRan, Remembers, Increasing;
    forall t | t in b.skipped
      ensures FirstCopyRan(s.spec, ScheduleZone(s, local), b, t)
    {
      FirstCopyStillRan(s.spec, ScheduleZone(s, local), a, b, t);
    }
  }

  lemma StepKeepsGuarded(s: Schedule, local: Zone, a: EntryRun, e: Event, b: EntryRun)
    requires s.Spec? && MovesOn(s) && Spaced(ScheduleZone(s, local))
    requires Guarded(s, local, a) && Step(s, local, a, e, b)
    ensures Guarded(s, local, b)
  {
    hide IsFallBackRepeat, ScheduleZone, OncePerReading, FirstCopyRan, Remembers, Increasing, SkipsTo, MovesOn;
    hide AddFallBackRun;
    RepeatIsATime(s, local, a.runs, None, None);
    match e
    case Reschedule(now, skipping) =>
      GuardedAfterReschedule(s, local, a, now, skipping, b);
    case RunImmediately(now) =>
      GuardedWith(s, local, a, b);
    case Dispatch(now, skipping) =>
      GuardedAfterRun(s, local, a, a.next.value, now);
      var ran := Ran(s, local, a, a.next.value);
      GuardedAfterReschedule(s, local, ran.(clock := now), now, skipping, b);
    case SkipPaused(now, skipping) =>
      GuardedAfterReschedule(s, local, a, now, skipping, b);
    case CatchUp(now, missed) =>
      NoRepeatWithout(s, local, a.runs, a.prev, Some(missed));
      var ready := a.(immediate := false, next := None);
      GuardedWith(s, local, a, ready);
      GuardedAfterRun(s, local, ready, missed, now);
    case Trigger(now) =>
      GuardedAfterTrigger(s, local, a, now);
  }

  /** Over every run in forward time no reading is fired by the schedule in both copies unless the spec matches it one
      repeat away or it ran immediately, and every instant the guard skipped repeats one that ran. */
  lemma {:induction false} OncePerReadingAlways(s: Schedule, local: Zone, states: seq<EntryRun>, events: seq<Event>)
    requires s.Spec? && MovesOn(s) && Spaced(ScheduleZone(s, local)) && Steps(s, local, states, events)
    ensures var a, z := states[|states| - 1], ScheduleZone(s, local);
            && OncePerReading(s.spec, z, a.fired, a.forced)
            && forall t :: t in a.skipped ==> FirstCopyRan(s.spec, z, a, t)
    ensures Guarded(s, local, states[|states| - 1])
    decreases |events|
  {
    hide Step, Kept, OncePerReading, FirstCopyRan, Spaced, MovesOn;
    if events == [] {
      AddedIsGuarded(s, local, states[0]);
    } else {
      var n := |events| - 1;
      OncePerReadingAlways(s, local, states[..n + 1], events[..n]);
      assert Step(s, local, states[n], events[n], states[n + 1]);
      StepKeepsGuarded(s, local, states[n], events[n], states[n + 1]);
    }
  }

  lemma AddedIsGuarded(s: Schedule, local: Zone, a: EntryRun)
    requires s.Spec? && Added(a)
    ensures Guarded(s, local, a)
  {
  }

  // ----- putting steps together -----

  /** Some steps lead from a to b. */
  ghost predicate LeadsTo(s: Schedule, local: Zone, a: EntryRun, b: EntryRun) {
    exists states, events :: IsPath(s, local, a, states, events, b)
  }

  ghost predicate IsPath(s: Schedule, local: Zone, a: EntryRun, states: seq<EntryRun>, events: seq<Event>,
                         b: EntryRun) {
    && |states| == |events| + 1 && states[0] == a && states[|events|] == b
    && forall i :: 0 <= i < |events| ==> Step(s, local, states[i], events[i], states[i + 1])
  }

  /** a is a moment of some run of an entry. */
  ghost predicate Lives(s: Schedule, local: Zone, a: EntryRun) {
    exists states, events :: Steps(s, local, states, events) && states[|events|] == a
  }

  lemma LeadsToItself(s: Schedule, local: Zone, a: EntryRun)
    ensures LeadsTo(s, local, a, a)
  {
    hide Step;
    assert IsPath(s, local, a, [a], [], a);
  }

  lemma LeadsToNext(s: Schedule, local: Zone, a: EntryRun, b: EntryRun, e: Event, c: EntryRun)
    requires LeadsTo(s, local, a, b) && Step(s, local, b, e, c)
    ensures LeadsTo(s, local, a, c)
  {
    hide Step;
    var states, events :| IsPath(s, local, a, states, events, b);
    assert IsPath(s, local, a, states + [c], events + [e], c);
  }

  /** After a, the entry is given its next run: the answer of the skip loop or, immediately, now. */
  lemma LeadsToScheduled(s: Schedule, local: Zone, first: EntryRun, a: EntryRun, now: int, immediate: bool,
                         skipping: seq<int>, next: Option<int>)
      returns (b: EntryRun)
    requires LeadsTo(s, local, first, a) && a.clock <= now
    requires immediate ==> Later(a, now) && next == Some(now)
    requires !immediate ==> SkipsTo(s, local, a.runs, a.prev, s.next(now), skipping, next)
    ensures LeadsTo(s, local, first, b) && b.clock <= now
    ensures b.prev == a.prev && b.runs == a.runs && b.next == next && b.immediate == immediate
  {
    hide SkipsTo, Later, LeadsTo;
    if immediate {
      b := a.(next := next, immediate := true, clock := now);
      LeadsToNext(s, local, first, a, RunImmediately(now), b);
    } else {
      b := a.(next := next, immediate := false, clock := now, skipped := a.skipped + set x | x in skipping);
      LeadsToNext(s, local, first, a, Reschedule(now, skipping), b);
    }
  }

  /** a is triggered. */
  lemma LeadsToTriggered(s: Schedule, local: Zone, a: EntryRun, now: int) returns (b: EntryRun)
    requires a.clock <= now
    ensures LeadsTo(s, local, a, b) && b.clock <= now && now in b.triggered
    ensures b.prev == Some(now) && b.runs == a.runs && b.next == a.next && b.immediate == a.immediate
  {
    hide LeadsTo;
    b := a.(prev := Some(now), triggered := a.triggered + {now}, clock := now);
    LeadsToItself(s, local, a);
    LeadsToNext(s, local, a, a, Trigger(now), b);
  }

  lemma LeadsToTwice(s: Schedule, local: Zone, a: EntryRun, b: EntryRun, c: EntryRun)
    requires LeadsTo(s, local, a, b) && LeadsTo(s, local, b, c)
    ensures LeadsTo(s, local, a, c)
  {
    hide Step;
    var first, before :| IsPath(s, local, a, first, before, b);
    var second, after :| IsPath(s, local, b, second, after, c);
    PathTwice(s, local, a, first, before, b, second, after, c);
  }

  lemma PathTwice(s: Schedule, local: Zone, a: EntryRun, first: seq<EntryRun>, before: seq<Event>, b: EntryRun,
                  second: seq<EntryRun>, after: seq<Event>, c: EntryRun)
    requires IsPath(s, local, a, first, before, b) && IsPath(s, local, b, second, after, c)
    ensures IsPath(s, local, a, first + second[1..], before + after, c)
  {
    hide Step;
    var states, events := first + second[1..], before + after;
    forall i | 0 <= i < |events|
      ensures Step(s, local, states[i], events[i], states[i + 1])
    {
      if i >= |before| {
        assert Step(s, local, second[i - |before|], after[i - |before|], second[i - |before| + 1]);
      } else {
        assert Step(s, local, first[i], before[i], first[i + 1]);
      }
    }
  }

  /** What a run of an entry leads to belongs to a run of that entry. */
  lemma LivesOn(s: Schedule, local: Zone, a: EntryRun, b: EntryRun)
    requires Lives(s, local, a) && LeadsTo(s, local, a, b)
    ensures Lives(s, local, b)
  {
    hide Step, Added;
    var first, before :| Steps(s, local, first, before) && first[|before|] == a;
    var second, after :| IsPath(s, local, a, second, after, b);
    assert IsPath(s, local, first[0], first, before, a);
    PathTwice(s, local, first[0], first, before, a, second, after, b);
    assert Steps(s, local, first + second[1..], before + after);
  }

  lemma LivingIsGuarded(s: Schedule, local: Zone, a: EntryRun)
    requires s.Spec? && MovesOn(s) && Spaced(ScheduleZone(s, local)) && Lives(s, local, a)
    ensures Guarded(s, local, a)
  {
    hide Step, Guarded, MovesOn, Spaced, Added;
    var states, events :| Steps(s, local, states, events) && states[|events|] == a;
    OncePerReadingAlways(s, local, states, events);
  }

  lemma AddedLives(s: Schedule, local: Zone, a: EntryRun)
    requires Added(a)
    ensures Lives(s, local, a)
  {
    hide Step, Added;
    assert Steps(s, local, [a], []) && [a][0] == a;
  }
}

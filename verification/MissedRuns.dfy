/** Catching up on runs that were missed while the scheduler was not running. */
module MissedRuns {
  import opened Calendar
  import opened Entries
  import opened FallBackGuard
  import opened GapRuns
  import opened Options
  import opened Schedules
  import opened Zones

  const MAX_MISSED_RUNS := 100

  // ----- what is missed -----

  /** The answers of Next from t on, as long as they lie before now. */
  function Occurrences(s: Schedule, t: int, now: int): seq<int>
    requires MovesOn(s)
    decreases now - t
  {
    var n := s.next(t);
    if n.None? || n.value >= now then [] else [n.value] + Occurrences(s, n.value, now)
  }

  predicate TooOld(grace: int, now: int, t: int) { grace > 0 && now - t > grace }

  /** skipMissed */
  predicate SkipMissed(s: Schedule, local: Zone, grace: int, now: int, runs: seq<int>, prev: Option<int>, t: int) {
    TooOld(grace, now, t) || IsFallBackRepeat(s, local, runs, prev, Some(t))
  }

  /** The first `cap` of the times that are not left out; with `all` each of them counts as a run for the next. */
  function Missed(s: Schedule, local: Zone, grace: int, now: int, all: bool,
                  runs: seq<int>, prev: Option<int>, times: seq<int>, cap: nat): (r: seq<int>)
    ensures |r| <= cap
    decreases |times|
  {
    if times == [] || cap == 0 then []
    else
      var t := times[0];
      if SkipMissed(s, local, grace, now, runs, prev, t)
          then Missed(s, local, grace, now, all, runs, prev, times[1..], cap)
      else if all then
        [t] + Missed(s, local, grace, now, all, AddFallBackRun(s, local, runs, t), Some(t), times[1..], cap - 1)
      else [t] + Missed(s, local, grace, now, all, runs, prev, times[1..], cap - 1)
  }

  predicate CatchesUp(e: Entry)
    reads e`prev
  {
    e.prev.Some? && !e.runOnce && (e.missedPolicy.RunOnce? || e.missedPolicy.RunAll?)
  }

  /** What is still to come after the next answer has been looked at. */
  lemma MissedStep(s: Schedule, local: Zone, grace: int, now: int, all: bool, runs: seq<int>, prev: Option<int>,
                   t: int, cap: nat)
    requires MovesOn(s) && cap > 0
    ensures var rest, n := Missed(s, local, grace, now, all, runs, prev, Occurrences(s, t, now), cap), s.next(t);
            if n.None? || n.value >= now then rest == []
            else
              var later := Occurrences(s, n.value, now);
              if SkipMissed(s, local, grace, now, runs, prev, n.value) then
                rest == Missed(s, local, grace, now, all, runs, prev, later, cap)
              else if all then
                rest == [n.value] + Missed(s, local, grace, now, all, AddFallBackRun(s, local, runs, n.value), n, later,
                    cap - 1)
              else rest == [n.value] + Missed(s, local, grace, now, all, runs, prev, later, cap - 1)
  {
    hide SkipMissed, AddFallBackRun;
    var n := s.next(t);
    if n.Some? && n.value < now {
      assert Occurrences(s, t, now)[1..] == Occurrences(s, n.value, now);
    }
  }

  /** calculateMissedRuns */
  method CalculateMissedRuns(e: Entry, local: Zone, now: int) returns (missed: seq<int>)
    requires MovesOn(e.schedule)
    ensures missed == if CatchesUp(e)
                      then Missed(e.schedule, local, e.grace, now, e.missedPolicy.RunAll?, e.fallBackRuns, e.prev,
                                  Occurrences(e.schedule, e.prev.value, now), MAX_MISSED_RUNS)
                      else []
  {
    hide SkipMissed, AddFallBackRun, Missed, Occurrences;
    missed := [];
    if e.prev.None? || e.missedPolicy.Skip? || e.missedPolicy.Invalid? || e.runOnce {
      return;
    }
    var s, all := e.schedule, e.missedPolicy.RunAll?;
    var t, prev, fired := e.prev.value, e.prev, e.fallBackRuns;
    ghost var total := Missed(s, local, e.grace, now, all, fired, prev, Occurrences(s, t, now), MAX_MISSED_RUNS);
    while |missed| < MAX_MISSED_RUNS
      invariant |missed| <= MAX_MISSED_RUNS
      invariant total == missed + Missed(s, local, e.grace, now, all, fired, prev, Occurrences(s, t, now),
                MAX_MISSED_RUNS - |missed|)
      decreases now - t
    {
      MissedStep(s, local, e.grace, now, all, fired, prev, t, MAX_MISSED_RUNS - |missed|);
      var n := s.next(t);
      if n.None? || n.value >= now {
        break;
      }
      t := n.value;
      if SkipMissed(s, local, e.grace, now, fired, prev, t) {
        continue;
      }
      missed := missed + [t];
      if all {
        prev, fired := Some(t), AddFallBackRun(s, local, fired, t);
      }
    }
  }

  /** The runs remembered after all of `times` ran. */
  function RunsAfter(s: Schedule, local: Zone, runs: seq<int>, times: seq<int>): seq<int>
    decreases |times|
  {
    if times == [] then runs
    else AddFallBackRun(s, local, RunsAfter(s, local, runs, times[..|times| - 1]), times[|times| - 1])
  }

  /** handleMissedRuns; started are the scheduled times of the jobs it starts. */
  method HandleMissedRuns(e: Entry, local: Zone, missed: seq<int>) returns (started: seq<int>)
    modifies e`prev, e`fallBackRuns
    ensures started == if missed == [] then [] else match e.missedPolicy
                                                     case RunOnce => [missed[|missed| - 1]]
                                                     case RunAll => missed
                                                     case _ => []
    ensures e.prev == if started == [] then old(e.prev) else Some(started[|started| - 1])
    ensures e.fallBackRuns == RunsAfter(e.schedule, local, old(e.fallBackRuns), started)
  {
    hide AddFallBackRun;
    started := [];
    if missed == [] {
      return;
    }
    match e.missedPolicy
    case RunOnce =>
      var last := missed[|missed| - 1];
      started := [last];
      e.prev := Some(last);
      e.fallBackRuns := AddFallBackRun(e.schedule, local, e.fallBackRuns, last);
      assert started[..0] == [];
    case RunAll =>
      for i := 0 to |missed|
        invariant started == missed[..i]
        invariant e.prev == old(e.prev)
        invariant e.fallBackRuns == RunsAfter(e.schedule, local, old(e.fallBackRuns), started)
      {
        started := started + [missed[i]];
        e.fallBackRuns := AddFallBackRun(e.schedule, local, e.fallBackRuns, missed[i]);
        assert started[..i] == missed[..i];
      }
      e.prev := Some(missed[|missed| - 1]);
    case Skip =>
    case Invalid(_) =>
  }

  // ----- what the catch-up list is -----

  lemma IncreasingFrom(t: int, rest: seq<int>)
    requires Increasing(rest) && forall u :: u in rest ==> t < u
    ensures Increasing([t] + rest) && ([t] + rest)[1..] == rest
  {
    forall j | 0 <= j < |rest|
      ensures t < rest[j]
    {
      assert rest[j] in rest;
    }
  }

  lemma IncreasingEmpty()
    ensures Increasing([])
  {
  }

  lemma IncreasingTail(times: seq<int>)
    requires Increasing(times) && times != []
    ensures Increasing(times[1..]) && forall u :: u in times[1..] ==> times[0] < u && u in times
  {
  }

  lemma {:induction false} OccurrencesInOrder(s: Schedule, t: int, now: int)
    requires MovesOn(s)
    ensures Increasing(Occurrences(s, t, now)) && forall u :: u in Occurrences(s, t, now) ==> t < u < now
    decreases now - t
  {
    hide MovesOn;
    var n := s.next(t);
    if n.None? || n.value >= now {
    } else {
      AnswerIsLater(s, t);
      OccurrencesInOrder(s, n.value, now);
      IncreasingFrom(n.value, Occurrences(s, n.value, now));
    }
  }

  lemma AnswerIsLater(s: Schedule, t: int)
    requires MovesOn(s)
    ensures s.next(t).Some? ==> s.next(t).value > t
  {
  }

  /** For an exact Next the occurrences are the matching instants and the gap runs between t and now. */
  lemma {:induction false} OccurrencesAreRuns(s: Schedule, local: Zone, t: int, now: int, u: int)
    requires s.Spec? && MovesOn(s) && Regular(ScheduleZone(s, local))
    requires forall x :: IsNext(s.spec, ScheduleZone(s, local), x, s.next(x))
    requires t <= now
    requires var z := ScheduleZone(s, local); YearOf(WallDay(z, now)) <= YearOf(WallDay(z, t)) + SearchSpan(s.spec)
    ensures u in Occurrences(s, t, now) <==> t < u < now && RunsAt(s.spec, ScheduleZone(s, local), u)
    decreases now - t
  {
    hide MovesOn, Regular, IsNext, RunsAt, YearOf, WallDay, SearchSpan, ScheduleZone;
    var z, n := ScheduleZone(s, local), s.next(t);
    AnswerIsLater(s, t);
    assert IsNext(s.spec, z, t, n);
    if t < u < now && RunsAt(s.spec, z, u) {
      YearsMonotone(z, u, now);
      NextIsLeastRun(s.spec, z, t, n, u);
    }
    if n.None? || n.value >= now {
    } else {
      NextRuns(s.spec, z, t, n);
      YearsMonotone(z, t, n.value);
      OccurrencesAreRuns(s, local, n.value, now, u);
    }
  }

  lemma NextRuns(s: SpecSchedule, z: Zone, t: int, r: Option<int>)
    requires IsNext(s, z, t, r) && r.Some?
    ensures RunsAt(s, z, r.value)
  {
  }

  lemma {:induction false} MissedInOrder(s: Schedule, local: Zone, grace: int, now: int, all: bool,
                                        runs: seq<int>, prev: Option<int>, times: seq<int>, cap: nat)
    requires Increasing(times)
    ensures var r := Missed(s, local, grace, now, all, runs, prev, times, cap);
            Increasing(r) && forall t :: t in r ==> t in times
    decreases |times|
  {
    hide SkipMissed, AddFallBackRun, Increasing;
    if times != [] && cap > 0 {
      var t := times[0];
      IncreasingTail(times);
      if SkipMissed(s, local, grace, now, runs, prev, t) {
        MissedInOrder(s, local, grace, now, all, runs, prev, times[1..], cap);
      } else {
        var later, last := if all then AddFallBackRun(s, local, runs, t) else runs, if all then Some(t) else prev;
        MissedInOrder(s, local, grace, now, all, later, last, times[1..], cap - 1);
        IncreasingFrom(t, Missed(s, local, grace, now, all, later, last, times[1..], cap - 1));
      }
    } else {
      assert Increasing([]) by { IncreasingEmpty(); }
    }
  }

  /** The times that neither the grace period nor the guard removes. */
  function Remaining(s: Schedule, local: Zone, grace: int, now: int, runs: seq<int>, prev: Option<int>,
                     times: seq<int>): (r: seq<int>)
    ensures forall t :: t in r <==> t in times && !SkipMissed(s, local, grace, now, runs, prev, t)
    decreases |times|
  {
    if times == [] then []
    else
      assert times == [times[0]] + times[1..];
      var rest := Remaining(s, local, grace, now, runs, prev, times[1..]);
      if SkipMissed(s, local, grace, now, runs, prev, times[0]) then rest else [times[0]] + rest
  }

  /** MissedRunOnce lists the first `cap` occurrences that neither the grace period nor the guard removes. */
  lemma {:induction false} MissedOnceIsExact(s: Schedule, local: Zone, grace: int, now: int,
                                             runs: seq<int>, prev: Option<int>, times: seq<int>, cap: nat)
    ensures var all := Remaining(s, local, grace, now, runs, prev, times);
            Missed(s, local, grace, now, false, runs, prev, times, cap) == if |all| <= cap then all else all[..cap]
    decreases |times|
  {
    hide SkipMissed;
    if times == [] || cap == 0 {
    } else {
      var rest := times[1..];
      if SkipMissed(s, local, grace, now, runs, prev, times[0]) {
        MissedOnceIsExact(s, local, grace, now, runs, prev, rest, cap);
      } else {
        MissedOnceIsExact(s, local, grace, now, runs, prev, rest, cap - 1);
        var later := Remaining(s, local, grace, now, runs, prev, rest);
        if |later| >= cap {
          assert ([times[0]] + later)[..cap] == [times[0]] + later[..cap - 1];
        }
      }
    }
  }

  lemma {:induction false} RemainingInOrder(s: Schedule, local: Zone, grace: int, now: int,
                                            runs: seq<int>, prev: Option<int>, times: seq<int>)
    requires Increasing(times)
    ensures Increasing(Remaining(s, local, grace, now, runs, prev, times))
    decreases |times|
  {
    hide SkipMissed, Increasing;
    if times == [] {
      IncreasingEmpty();
    } else {
      IncreasingTail(times);
      RemainingInOrder(s, local, grace, now, runs, prev, times[1..]);
      IncreasingFrom(times[0], Remaining(s, local, grace, now, runs, prev, times[1..]));
    }
  }

  /** The run that MissedRunOnce starts is the latest missed one exactly when no more than `cap` of them remain. */
  lemma MissedOnceRunsLatest(s: Schedule, local: Zone, grace: int, now: int,
                             runs: seq<int>, prev: Option<int>, times: seq<int>, cap: nat)
    requires Increasing(times) && cap > 0
    requires exists t :: t in times && !SkipMissed(s, local, grace, now, runs, prev, t)
    ensures var r := Missed(s, local, grace, now, false, runs, prev, times, cap);
            && r != []
            && ((forall t :: t in times && !SkipMissed(s, local, grace, now, runs, prev, t) ==> t <= r[|r| - 1])
                <==> |Remaining(s, local, grace, now, runs, prev, times)| <= cap)
  {
    hide SkipMissed, Missed;
    var all := Remaining(s, local, grace, now, runs, prev, times);
    MissedOnceIsExact(s, local, grace, now, runs, prev, times, cap);
    RemainingInOrder(s, local, grace, now, runs, prev, times);
    assert all[|all| - 1] in all;
    forall t | t in all
      ensures t <= all[|all| - 1]
    {
      var i :| 0 <= i < |all| && all[i] == t;
    }
  }

  /** What remains: no older than the grace period, if there is one, and no repeat of a run. */
  lemma RemainingNamed(s: Schedule, local: Zone, grace: int, now: int, runs: seq<int>, prev: Option<int>,
                       times: seq<int>, t: int)
    ensures t in Remaining(s, local, grace, now, runs, prev, times)
            <==> t in times && (grace <= 0 || t >= now - grace) && !IsFallBackRepeat(s, local, runs, prev, Some(t))
  {
    hide IsFallBackRepeat;
  }

  /** No catch-up run is older than the grace period, whatever the policy. */
  lemma {:induction false} StartedInGrace(s: Schedule, local: Zone, grace: int, now: int, all: bool,
                                          runs: seq<int>, prev: Option<int>, times: seq<int>, cap: nat, t: int)
    requires grace > 0 && t in Missed(s, local, grace, now, all, runs, prev, times, cap)
    ensures t >= now - grace
    decreases |times|
  {
    hide IsFallBackRepeat, AddFallBackRun;
    if SkipMissed(s, local, grace, now, runs, prev, times[0]) {
      StartedInGrace(s, local, grace, now, all, runs, prev, times[1..], cap, t);
    } else if t != times[0] {
      var later := if all then AddFallBackRun(s, local, runs, times[0]) else runs;
      var last := if all then Some(times[0]) else prev;
      StartedInGrace(s, local, grace, now, all, later, last, times[1..], cap - 1, t);
    }
  }

  /** Without repeats MissedRunAll lists the first `cap` times within the grace period. */
  lemma {:induction false} AllWithinGrace(s: Schedule, local: Zone, grace: int, now: int,
                                          runs: seq<int>, prev: Option<int>, times: seq<int>, cap: nat)
    requires s.Interval?
    ensures var all := Remaining(s, local, grace, now, runs, prev, times);
            Missed(s, local, grace, now, true, runs, prev, times, cap) == if |all| <= cap then all else all[..cap]
    decreases |times|
  {
    if times == [] || cap == 0 {
    } else {
      var rest := times[1..];
      if SkipMissed(s, local, grace, now, runs, prev, times[0]) {
        AllWithinGrace(s, local, grace, now, runs, prev, rest, cap);
      } else {
        var more := AddFallBackRun(s, local, runs, times[0]);
        AllWithinGrace(s, local, grace, now, more, Some(times[0]), rest, cap - 1);
        SameRemaining(s, local, grace, now, runs, prev, more, Some(times[0]), rest);
        var later := Remaining(s, local, grace, now, runs, prev, rest);
        if |later| >= cap {
          assert ([times[0]] + later)[..cap] == [times[0]] + later[..cap - 1];
        }
      }
    }
  }

  lemma {:induction false} SameRemaining(s: Schedule, local: Zone, grace: int, now: int, runs: seq<int>,
                                         prev: Option<int>, more: seq<int>, last: Option<int>, times: seq<int>)
    requires s.Interval?
    ensures Remaining(s, local, grace, now, runs, prev, times) == Remaining(s, local, grace, now, more, last, times)
    decreases |times|
  {
    if times == [] {
    } else {
      SameRemaining(s, local, grace, now, runs, prev, more, last, times[1..]);
    }
  }

  // ----- one occurrence too many -----

  /** A job that runs once a minute. */
  function EveryMinute(): Schedule { Interval((t: int) => Some(t + MINUTE)) }

  lemma {:induction false} EveryMinuteOccurrences(t: int, n: nat)
    ensures MovesOn(EveryMinute())
    ensures Occurrences(EveryMinute(), t, t + (n + 1) * MINUTE) == seq(n, i requires 0 <= i < n => t + (i + 1) * MINUTE)
    decreases n
  {
    var now := t + (n + 1) * MINUTE;
    if n == 0 {
    } else {
      EveryMinuteOccurrences(t + MINUTE, n - 1);
      assert Occurrences(EveryMinute(), t, now) == [t + MINUTE] + Occurrences(EveryMinute(), t + MINUTE, now);
    }
  }

  /** A job that runs every minute and last ran 102 minutes ago has missed 101 runs; the one started is the 100th. */
  lemma MissedOnceAtTheCap(local: Zone)
    ensures var times := Occurrences(EveryMinute(), 0, 102 * MINUTE);
            var r := Missed(EveryMinute(), local, 0, 102 * MINUTE, false, [], Some(0), times, MAX_MISSED_RUNS);
            && |times| == 101 && times[100] == 101 * MINUTE
            && !SkipMissed(EveryMinute(), local, 0, 102 * MINUTE, [], Some(0), 101 * MINUTE)
            && r != [] && r[|r| - 1] == 100 * MINUTE
  {
    hide Missed;
    var now := 102 * MINUTE;
    var times := Occurrences(EveryMinute(), 0, now);
    EveryMinuteOccurrences(0, 101);
    NothingSkipped(local, now, times);
    MissedOnceIsExact(EveryMinute(), local, 0, now, [], Some(0), times, MAX_MISSED_RUNS);
  }

  lemma {:induction false} NothingSkipped(local: Zone, now: int, times: seq<int>)
    ensures Remaining(EveryMinute(), local, 0, now, [], Some(0), times) == times
    decreases |times|
  {
    if times == [] {
    } else {
      NothingSkipped(local, now, times[1..]);
    }
  }

  // ----- catch-ups respect the fall-back guard -----

  /** a after it caught up on t. */
  function CaughtUp(s: Schedule, local: Zone, a: EntryRun, now: int, t: int): EntryRun {
    Ran(s, local, a.(immediate := false), t).(clock := now)
  }

  /** Catching up on `times`, one after the other, is a run of CatchUp steps that leads to b. */
  ghost predicate CatchUpSteps(s: Schedule, local: Zone, a: EntryRun, now: int, times: seq<int>, b: EntryRun)
    decreases |times|
  {
    if times == [] then a == b
    else
      var next := CaughtUp(s, local, a, now, times[0]);
      && Step(s, local, a, CatchUp(now, times[0]), next)
      && CatchUpSteps(s, local, next, now, times[1..], b)
  }

  /** Catching up is a part of a run of the entry. */
  lemma {:induction false} CatchUpLeads(s: Schedule, local: Zone, first: EntryRun, a: EntryRun, now: int,
                                        times: seq<int>, b: EntryRun)
    requires LeadsTo(s, local, first, a) && CatchUpSteps(s, local, a, now, times, b) && a.clock <= now
    ensures LeadsTo(s, local, first, b) && b.clock <= now && (Later(a, now) ==> Later(b, now))
    decreases |times|
  {
    hide LeadsTo, IsFallBackRepeat, AddFallBackRun, AnswersFrom;
    if times == [] {
    } else {
      var next := CaughtUp(s, local, a, now, times[0]);
      LeadsToNext(s, local, first, a, CatchUp(now, times[0]), next);
      CatchUpLeads(s, local, first, next, now, times[1..], b);
    }
  }

  function AllCaughtUp(s: Schedule, local: Zone, a: EntryRun, now: int, times: seq<int>): EntryRun
    decreases |times|
  {
    if times == [] then a else AllCaughtUp(s, local, CaughtUp(s, local, a, now, times[0]), now, times[1..])
  }

  /** MissedRunAll catches up by steps the guard allows. */
  lemma {:induction false} MissedAllAreSteps(s: Schedule, local: Zone, grace: int, now: int, a: EntryRun, t: int,
                                             cap: nat)
    requires MovesOn(s) && a.clock <= now && a.prev.Some? && a.prev.value <= t
    ensures var r := Missed(s, local, grace, now, true, a.runs, a.prev, Occurrences(s, t, now), cap);
            CatchUpSteps(s, local, a, now, r, AllCaughtUp(s, local, a, now, r))
    decreases now - t
  {
    hide AddFallBackRun, IsFallBackRepeat, Rescheduled, Missed, Occurrences;
    var n := s.next(t);
    AnswerIsLater(s, t);
    if cap == 0 {
      assert Missed(s, local, grace, now, true, a.runs, a.prev, Occurrences(s, t, now), cap) == [];
    } else {
      MissedStep(s, local, grace, now, true, a.runs, a.prev, t, cap);
      if n.Some? && n.value < now {
        if SkipMissed(s, local, grace, now, a.runs, a.prev, n.value) {
          MissedAllAreSteps(s, local, grace, now, a, n.value, cap);
        } else {
          var b := CaughtUp(s, local, a, now, n.value);
          MissedAllAreSteps(s, local, grace, now, b, n.value, cap - 1);
          var rest := Missed(s, local, grace, now, true, b.runs, b.prev, Occurrences(s, n.value, now), cap - 1);
          assert ([n.value] + rest)[1..] == rest;
          assert AnswersFrom(s, a.prev.value, n.value);
          assert Step(s, local, a, CatchUp(now, n.value), b);
        }
      }
    }
  }

  lemma {:induction false} AllCaughtUpRuns(s: Schedule, local: Zone, a: EntryRun, now: int, times: seq<int>)
    ensures AllCaughtUp(s, local, a, now, times).runs == RunsAfter(s, local, a.runs, times)
    ensures AllCaughtUp(s, local, a, now, times).prev == if times == [] then a.prev else Some(times[|times| - 1])
    decreases |times|
  {
    hide AddFallBackRun;
    if times == [] {
    } else {
      var b := CaughtUp(s, local, a, now, times[0]);
      AllCaughtUpRuns(s, local, b, now, times[1..]);
      RunsAfterFirst(s, local, a.runs, times);
    }
  }

  lemma {:induction false} RunsAfterFirst(s: Schedule, local: Zone, runs: seq<int>, times: seq<int>)
    requires times != []
    ensures RunsAfter(s, local, runs, times)
            == RunsAfter(s, local, AddFallBackRun(s, local, runs, times[0]), times[1..])
    decreases |times|
  {
    hide AddFallBackRun;
    var n := |times| - 1;
    if n == 0 {
      assert times[..0] == [];
    } else {
      RunsAfterFirst(s, local, runs, times[..n]);
      assert times[..n][1..] == times[1..][..n - 1];
      assert times[..n][0] == times[0];
      assert times[1..][n - 1] == times[n];
    }
  }

  /** processMissedRuns, seen as part of the run a of the entry: it catches up by steps of that run. */
  method ProcessMissedRuns(e: Entry, local: Zone, now: int, ghost a: EntryRun)
      returns (started: seq<int>, ghost b: EntryRun)
    requires MovesOn(e.schedule)
    requires a.prev == e.prev && a.runs == e.fallBackRuns && a.clock <= now
    modifies e`prev, e`fallBackRuns
    ensures CatchUpSteps(e.schedule, local, a, now, started, b)
    ensures b.prev == e.prev && b.runs == e.fallBackRuns
    ensures !old(CatchesUp(e)) ==> started == []
    ensures old(CatchesUp(e)) ==>
              var missed := Missed(e.schedule, local, e.grace, now, e.missedPolicy.RunAll?, old(e.fallBackRuns),
                  old(e.prev),
                                   Occurrences(e.schedule, old(e.prev.value), now), MAX_MISSED_RUNS);
              started == if e.missedPolicy.RunAll? || missed == [] then missed else [missed[|missed| - 1]]
  {
    hide Missed, Occurrences, AddFallBackRun, IsFallBackRepeat, SkipMissed, Increasing;
    ghost var prev := e.prev;
    var missed := CalculateMissedRuns(e, local, now);
    started := HandleMissedRuns(e, local, missed);
    b := AllCaughtUp(e.schedule, local, a, now, started);
    AllCaughtUpRuns(e.schedule, local, a, now, started);
    if started != [] {
      if e.missedPolicy.RunAll? {
        MissedAllAreSteps(e.schedule, local, e.grace, now, a, prev.value, MAX_MISSED_RUNS);
      } else {
        LastMissedIsStep(e.schedule, local, e.grace, now, a, MAX_MISSED_RUNS);
      }
    }
  }

  lemma {:induction false} OccurrencesAnswer(s: Schedule, since: int, t: int, now: int, u: int)
    requires MovesOn(s) && since <= t && u in Occurrences(s, t, now)
    ensures AnswersFrom(s, since, u)
    decreases now - t
  {
    hide MovesOn;
    var n := s.next(t);
    AnswerIsLater(s, t);
    if u == n.value {
    } else {
      OccurrencesAnswer(s, since, n.value, now, u);
    }
  }

  /** MissedRunOnce catches up by a step the guard allows. */
  lemma LastMissedIsStep(s: Schedule, local: Zone, grace: int, now: int, a: EntryRun, cap: nat)
    requires MovesOn(s) && a.clock <= now && a.prev.Some?
    requires Missed(s, local, grace, now, false, a.runs, a.prev, Occurrences(s, a.prev.value, now), cap) != []
    ensures var r := Missed(s, local, grace, now, false, a.runs, a.prev, Occurrences(s, a.prev.value, now), cap);
            var t := r[|r| - 1];
            CatchUpSteps(s, local, a, now, [t], AllCaughtUp(s, local, a, now, [t]))
  {
    hide Missed, AddFallBackRun, IsFallBackRepeat, Rescheduled, AnswersFrom, Occurrences;
    var times := Occurrences(s, a.prev.value, now);
    var r := Missed(s, local, grace, now, false, a.runs, a.prev, times, cap);
    var t := r[|r| - 1];
    MissedOnceIsExact(s, local, grace, now, a.runs, a.prev, times, cap);
    assert t in Remaining(s, local, grace, now, a.runs, a.prev, times);
    OccurrencesInOrder(s, a.prev.value, now);
    OccurrencesAnswer(s, a.prev.value, a.prev.value, now, t);
    assert [t][1..] == [];
  }
}

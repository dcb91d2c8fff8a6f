/** Time zones as lists of offset changes, and the wall clock they show.

    Instants and wall-clock readings are whole seconds: an instant counts from the
    Unix epoch in UTC, a reading counts the seconds the wall clock has shown since
    1970-01-01 00:00, as if that clock were in UTC. */
module Zones {
  import opened Calendar
  import opened Options
  import opened Remainders

  const HOUR := 3600
  const MINUTE := 60
  const MAX_JUMP := 3 * HOUR

  /** From instant `at` on, the wall clock is `offset` seconds ahead of UTC. */
  datatype Transition = Transition(at: int, offset: int)

  datatype Zone = Zone(base: int, changes: seq<Transition>)

  /** The offset in force before change k, or after the last one. */
  function PeriodOffset(z: Zone, k: nat): int
    requires k <= |z.changes|
  {
    if k == 0 then z.base else z.changes[k - 1].offset
  }

  /** How far change k moves the wall clock forward. */
  function Jump(z: Zone, k: nat): int
    requires k < |z.changes|
  {
    z.changes[k].offset - PeriodOffset(z, k)
  }

  function LastPeriodUpTo(z: Zone, t: int, k: nat): (p: nat)
    requires k <= |z.changes|
    requires k < |z.changes| ==> t < z.changes[k].at
    ensures p <= |z.changes|
    ensures p > 0 ==> z.changes[p - 1].at <= t
    ensures p < |z.changes| ==> t < z.changes[p].at
  {
    if k > 0 && t < z.changes[k - 1].at then LastPeriodUpTo(z, t, k - 1) else k
  }

  /** The period that contains t: how many changes have happened by t. */
  function Period(z: Zone, t: int): (p: nat)
    ensures p <= |z.changes|
    ensures p > 0 ==> z.changes[p - 1].at <= t
    ensures p < |z.changes| ==> t < z.changes[p].at
  {
    LastPeriodUpTo(z, t, |z.changes|)
  }

  function Offset(z: Zone, t: int): int { PeriodOffset(z, Period(z, t)) }

  /** The reading of the wall clock at instant t. */
  function Wall(z: Zone, t: int): int { t + Offset(z, t) }

  function WallDay(z: Zone, t: int): int { Wall(z, t) / DAY }

  /** The first bound that time.ZoneBounds reports for t. */
  function PeriodStart(z: Zone, t: int): (start: Option<int>)
    ensures start.Some? ==> start.value <= t
  {
    var p := Period(z, t);
    if p == 0 then None else Some(z.changes[p - 1].at)
  }

  /** The second bound that time.ZoneBounds reports for t; zoneEndAfter is the same on an exact zone. */
  function PeriodEnd(z: Zone, t: int): (end: Option<int>)
    ensures end.Some? ==> end.value > t
  {
    var p := Period(z, t);
    if p == |z.changes| then None else Some(z.changes[p].at)
  }

  /** A reading's minute holds its hour, and its hour its day. */
  lemma UnitsNest(w: int)
    ensures w / HOUR == w / MINUTE / 60 && w / DAY == w / HOUR / 24
  {
    NestedQuotient(w, MINUTE, 60);
    NestedQuotient(w, HOUR, 24);
  }

  /** Changes lie more than two days apart and move the clock by at most three hours. */
  ghost predicate Spaced(z: Zone) {
    && (forall k :: 0 <= k < |z.changes| ==> -MAX_JUMP <= Jump(z, k) <= MAX_JUMP)
    && (forall i, j :: 0 <= i < j < |z.changes| ==> z.changes[i].at + 2 * DAY < z.changes[j].at)
  }

  /** No change takes the clock back to an earlier date. */
  ghost predicate KeepsDate(z: Zone) {
    forall k :: 0 <= k < |z.changes| ==> KeepsDateAt(z, k)
  }

  ghost predicate KeepsDateAt(z: Zone, k: nat)
    requires k < |z.changes|
  {
    (z.changes[k].at - 1 + PeriodOffset(z, k)) / DAY <= (z.changes[k].at + z.changes[k].offset) / DAY
  }

  /** Changes and offsets are whole minutes. */
  ghost predicate WholeMinutes(z: Zone) {
    && z.base % MINUTE == 0
    && forall k :: 0 <= k < |z.changes| ==> z.changes[k].at % MINUTE == 0 && z.changes[k].offset % MINUTE == 0
  }

  /** The zones the search is exact in. */
  ghost predicate Regular(z: Zone) {
    Spaced(z) && KeepsDate(z) && WholeMinutes(z)
  }

  /** Change k makes the wall clock skip the reading w. */
  predicate Skips(z: Zone, k: nat, w: int)
    requires k < |z.changes|
  {
    var c := z.changes[k];
    c.at + PeriodOffset(z, k) <= w < c.at + c.offset
  }

  /** What time.Date promises for the reading w: an instant that shows w or, when a change skips w,
      the instant that w names in one of the two offsets around that change. */
  ghost predicate Resolves(z: Zone, w: int, t: int) {
    || Wall(z, t) == w
    || exists k :: 0 <= k < |z.changes| && Skips(z, k, w)
                   && (t == w - PeriodOffset(z, k) || t == w - z.changes[k].offset)
  }

  lemma PeriodIs(z: Zone, t: int, p: nat)
    requires Spaced(z) && p <= |z.changes|
    requires p > 0 ==> z.changes[p - 1].at <= t
    requires p < |z.changes| ==> t < z.changes[p].at
    ensures Period(z, t) == p
  {
  }

  lemma PeriodMonotone(z: Zone, t: int, u: int)
    requires Spaced(z) && t <= u
    ensures Period(z, t) <= Period(z, u)
  {
  }

  /** Within two days the wall clock changes its offset at most once. */
  lemma PeriodsNearby(z: Zone, t: int, u: int)
    requires Spaced(z) && t <= u <= t + 2 * DAY
    ensures Period(z, t) <= Period(z, u) <= Period(z, t) + 1
  {
    PeriodMonotone(z, t, u);
  }

  lemma WallNearby(z: Zone, t: int, u: int)
    requires Spaced(z) && t <= u <= t + 2 * DAY
    ensures u - t - MAX_JUMP <= Wall(z, u) - Wall(z, t) <= u - t + MAX_JUMP
  {
    hide Period;
    PeriodsNearby(z, t, u);
    if Period(z, u) == Period(z, t) + 1 {
      assert -MAX_JUMP <= Jump(z, Period(z, t)) <= MAX_JUMP;
    }
  }

  /** The date that the wall clock shows never goes back. */
  lemma {:induction false} WallDayMonotone(z: Zone, t: int, u: int)
    requires Spaced(z) && KeepsDate(z) && t <= u
    ensures WallDay(z, t) <= WallDay(z, u)
    decreases Period(z, u)
  {
    hide Period;
    PeriodMonotone(z, t, u);
    if Period(z, t) >= Period(z, u) {
    } else {
      var k := Period(z, u) - 1;
      var at := z.changes[k].at;
      assert KeepsDateAt(z, k);
      PeriodIs(z, at, k + 1);
      PeriodIs(z, at - 1, k);
      WallDayMonotone(z, t, at - 1);
    }
  }

  /** Around change k, for two days on either side, no other change happens. */
  lemma AroundChange(z: Zone, k: nat, t: int)
    requires Spaced(z) && k < |z.changes|
    requires z.changes[k].at - 2 * DAY <= t <= z.changes[k].at + 2 * DAY
    ensures Wall(z, t) == t + if t < z.changes[k].at then PeriodOffset(z, k) else z.changes[k].offset
    ensures Period(z, t) == if t < z.changes[k].at then k else k + 1
    ensures -MAX_JUMP <= Jump(z, k) <= MAX_JUMP
  {
    PeriodIs(z, t, if t < z.changes[k].at then k else k + 1);
  }

  /** A reading that a change skips is never shown. */
  lemma SkippedNotShown(z: Zone, k: nat, w: int, t: int)
    requires Spaced(z) && k < |z.changes| && Skips(z, k, w)
    ensures Wall(z, t) != w
  {
    var at := z.changes[k].at;
    AroundChange(z, k, at);
    if at - 2 * DAY <= t <= at + 2 * DAY {
      AroundChange(z, k, t);
    } else if t < at {
      FarApart(z, t, at);
    } else {
      FarApart(z, at, t);
    }
  }

  /** More than two days apart, the wall clock has moved forward by more than a day and a half. */
  lemma {:induction false} FarApart(z: Zone, t: int, u: int)
    requires Spaced(z) && t + 2 * DAY < u
    ensures Wall(z, t) + 2 * DAY - 2 * MAX_JUMP < Wall(z, u)
    decreases u - t
  {
    hide Wall, Spaced;
    WallNearby(z, t, t + 2 * DAY);
    if u <= t + 4 * DAY {
      WallNearby(z, t + 2 * DAY, u);
    } else {
      FarApart(z, t + 2 * DAY, u);
    }
  }
}

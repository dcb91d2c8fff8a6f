/** Range expressions of cron fields and the masks they stand for: steps, wraparound and hashed values. */
module FieldRanges {
  import opened BitFacts
  import opened FieldMasks
  import opened Options
  import opened Remainders
  import opened Schedules

  /** The least and the greatest value of a field, and how it treats ranges. stepEnd is where "N/step" ends; 0 is
      max. */
  datatype Bounds = Bounds(min: nat, max: nat, wraparound: bool, lenientSteps: bool, stepEnd: nat) {
    predicate Valid() { min <= max < WIDTH && stepEnd <= max }

    function Size(): nat
      requires Valid()
    {
      max - min + 1
    }

    predicate IsDow() { min == 0 && max == 7 }
  }

  // ----- walks around a field -----

  /** The value that position i of an extended range stands for. */
  function Fold(i: int, b: Bounds): (v: int)
    requires b.Valid()
    ensures b.min <= i ==> b.min <= v <= b.max
  {
    if i > b.max then (i - b.min) % b.Size() + b.min else i
  }

  /** v is one of first, first + step, ... up to last, counted around the field. */
  ghost predicate Walked(v: int, first: nat, last: int, step: nat, b: Bounds)
    requires b.Valid() && b.min <= first && step > 0
  {
    exists i :: Visits(i, first, last, step) && Fold(i, b) == v
  }

  ghost predicate HasWalkAround(bits: bv64, first: nat, last: int, step: nat, b: Bounds)
    requires b.Valid() && b.min <= first && step > 0
  {
    forall w :: 0 <= w < 64 ==> (FieldMatches(w, bits) <==> Walked(w, first, last, step, b))
  }

  /** The walk up to the next position has one position more. */
  lemma VisitsMore(low: int, at: int, step: int, i: int)
    requires step > 0 && low <= at && (at - low) % step == 0
    ensures Visits(i, low, at + step - 1, step) <==> Visits(i, low, at - 1, step) || i == at
    ensures (at + step - low) % step == 0
  {
    NextMultiple(at - low, step);
    if at < i < at + step {
      NoMultipleBetween(at - low, i - low, step);
    }
  }

  lemma EmptyWalk(none: bv64, low: int, step: int)
    requires step > 0 && none == 0
    ensures HasWalk(none, low, low - 1, step)
  {
    hide FieldMatches;
    forall w | 0 <= w < 64
      ensures FieldMatches(w, none) <==> Visits(w, low, low - 1, step)
    {
      EmptyMask(w);
      assert !FieldMatches(w, none);
    }
  }

  lemma WalkMore(bits: bv64, low: int, at: nat, step: int)
    requires step > 0 && low <= at < 64 && (at - low) % step == 0 && HasWalk(bits, low, at - 1, step)
    ensures HasWalk(With(bits, at), low, at + step - 1, step)
  {
    hide FieldMatches, With, Visits;
    forall w | 0 <= w < 64
      ensures FieldMatches(w, With(bits, at)) <==> Visits(w, low, at + step - 1, step)
    {
      SetBit(bits, at, w);
      VisitsMore(low, at, step, w);
    }
  }

  /** Past the end the walk to the next position is the walk to the end. */
  lemma WalkEnds(low: int, high: int, at: int, step: int, i: int)
    requires step > 0 && low <= at && high < at && (at - low) % step == 0 && (at - step <= high || at == low)
    ensures Visits(i, low, at - 1, step) <==> Visits(i, low, high, step)
  {
    if at > low && high < i < at {
      NextMultiple(at - low, step);
      NoMultipleBetween(at - low - step, i - low, step);
    }
  }

  lemma WholeWalk(bits: bv64, low: int, high: int, at: int, step: int)
    requires step > 0 && low <= at && high < at && (at - low) % step == 0 && (at - step <= high || at == low)
    requires HasWalk(bits, low, at - 1, step)
    ensures HasWalk(bits, low, high, step)
  {
    hide FieldMatches, Visits;
    forall w | 0 <= w < 64
      ensures FieldMatches(w, bits) <==> Visits(w, low, high, step)
    {
      WalkEnds(low, high, at, step, w);
    }
  }

  /** getBits */
  method GetBits(low: nat, high: nat, step: nat) returns (bits: bv64)
    requires low < 64 && high < WIDTH && step > 0
    ensures HasWalk(bits, low, high, step)
  {
    hide FieldMatches, With, Visits, HasWalk, And, Not, Shl;
    if step == 1 {
      ShiftedIsWalk(low, high);
      return And(Not(Shl(ALL, high + 1)), Shl(ALL, low));
    }
    bits := 0;
    EmptyWalk(bits, low, step);
    var i := low;
    while i <= high
      invariant low <= i && (i - low) % step == 0 && (i <= high + step || i == low)
      invariant HasWalk(bits, low, i - 1, step)
      decreases high + 1 - i
    {
      WalkMore(bits, low, i, step);
      NextMultiple(i - low, step);
      bits := With(bits, i);
      i := i + step;
    }
    WholeWalk(bits, low, high, i, step);
  }

  // ----- walks that wrap -----

  lemma EmptyAround(none: bv64, first: nat, step: nat, b: Bounds)
    requires b.Valid() && b.min <= first && step > 0 && none == 0
    ensures HasWalkAround(none, first, first - 1, step, b)
  {
    hide FieldMatches, Fold;
    forall w | 0 <= w < 64
      ensures FieldMatches(w, none) <==> Walked(w, first, first - 1, step, b)
    {
      EmptyMask(w);
      assert !FieldMatches(w, none);
    }
  }

  lemma AroundMore(bits: bv64, first: nat, at: nat, step: nat, b: Bounds)
    requires b.Valid() && b.min <= first <= at && step > 0 && (at - first) % step == 0
    requires HasWalkAround(bits, first, at - 1, step, b)
    ensures HasWalkAround(With(bits, Fold(at, b)), first, at + step - 1, step, b)
  {
    hide FieldMatches, With, Visits, Fold, Walked;
    forall w | 0 <= w < 64
      ensures FieldMatches(w, With(bits, Fold(at, b))) <==> Walked(w, first, at + step - 1, step, b)
    {
      SetBit(bits, Fold(at, b), w);
      WalkedMore(w, first, at, step, b);
    }
  }

  lemma WalkedMore(w: int, first: nat, at: nat, step: nat, b: Bounds)
    requires b.Valid() && b.min <= first <= at && step > 0 && (at - first) % step == 0
    ensures Walked(w, first, at + step - 1, step, b) <==> Walked(w, first, at - 1, step, b) || w == Fold(at, b)
  {
    hide Visits, Fold;
    VisitsMore(first, at, step, at);
    if Walked(w, first, at + step - 1, step, b) {
      var i :| Visits(i, first, at + step - 1, step) && Fold(i, b) == w;
      VisitsMore(first, at, step, i);
    }
    if Walked(w, first, at - 1, step, b) {
      var i :| Visits(i, first, at - 1, step) && Fold(i, b) == w;
      VisitsMore(first, at, step, i);
    }
  }

  lemma WholeAround(bits: bv64, first: nat, last: int, at: nat, step: nat, b: Bounds)
    requires b.Valid() && b.min <= first <= at && last < at && step > 0 && (at - first) % step == 0
    requires at - step <= last || at == first
    requires HasWalkAround(bits, first, at - 1, step, b)
    ensures HasWalkAround(bits, first, last, step, b)
  {
    hide FieldMatches, Visits, Fold;
    forall w | 0 <= w < 64
      ensures FieldMatches(w, bits) <==> Walked(w, first, last, step, b)
    {
      forall i
        ensures Visits(i, first, at - 1, step) <==> Visits(i, first, last, step)
      {
        WalkEnds(first, last, at, step, i);
      }
    }
  }

  /** A walk that stays within the field does not wrap. */
  lemma AroundWithin(bits: bv64, first: nat, last: nat, step: nat, b: Bounds)
    requires b.Valid() && b.min <= first && last <= b.max && step > 0
    ensures HasWalkAround(bits, first, last, step, b) <==> HasWalk(bits, first, last, step)
  {
    hide FieldMatches;
    forall w: int
      ensures Walked(w, first, last, step, b) <==> Visits(w, first, last, step)
    {
      if Visits(w, first, last, step) {
        assert Fold(w, b) == w;
      }
    }
  }

  /** dowCycle: day-of-week ranges on the seven distinct days. */
  function DowCycle(start: nat, end: nat, b: Bounds): (r: (nat, nat, Bounds))
    requires b.Valid() && b.min <= start <= b.max && b.min <= end <= b.max
    ensures r.2.Valid() && r.2.min <= r.0 <= r.2.max && r.2.min <= r.1 <= r.2.max
    ensures r.2.min == b.min && r.2.max == (if b.IsDow() then 6 else b.max)
  {
    if !b.IsDow() then (start, end, b)
    else
      var e := if start == 0 && end == 7 then 6 else end;
      (start % 7, e % 7, Bounds(b.min, 6, b.wraparound, b.lenientSteps, if b.stepEnd == 7 then 6 else b.stepEnd))
  }

  /** cyclicRangeSize */
  function CyclicSize(start: nat, end: nat, b: Bounds): (n: nat)
    requires b.Valid() && b.min <= start <= b.max && b.min <= end <= b.max
    ensures 1 <= n <= b.Size()
  {
    if start > end then (b.max - start + 1) + (end - b.min + 1) else end - start + 1
  }

  /** The last position of a range that may wrap. */
  function LastPosition(start: nat, end: nat, b: Bounds): nat
    requires b.Valid()
  {
    if start > end then end + b.Size() else end
  }

  /** getWraparoundBits */
  method GetWraparoundBits(start: nat, end: nat, step: nat, b: Bounds) returns (bits: bv64)
    requires b.Valid() && b.min <= end < start <= b.max && step > 0
    ensures var (s, e, c) := if step > 1 then DowCycle(start, end, b) else (start, end, b);
            HasWalkAround(bits, s, LastPosition(s, e, c), step, c)
  {
    hide FieldMatches, With, Visits, HasWalk, HasWalkAround, Fold;
    var s, e, c := start, end, b;
    if step > 1 {
      var cycle := DowCycle(start, end, b);
      s, e, c := cycle.0, cycle.1, cycle.2;
      if s <= e {
        bits := GetBits(s, e, step);
        AroundWithin(bits, s, e, step, c);
        return;
      }
    }
    bits := 0;
    var extendedEnd := e + c.Size();
    EmptyAround(bits, s, step, c);
    var i := s;
    while i <= extendedEnd
      invariant s <= i && (i - s) % step == 0 && (i - step <= extendedEnd || i == s)
      invariant HasWalkAround(bits, s, i - 1, step, c)
      decreases extendedEnd + 1 - i
    {
      AroundMore(bits, s, i, step, c);
      NextMultiple(i - s, step);
      bits := With(bits, Fold(i, c));
      i := i + step;
    }
    WholeAround(bits, s, extendedEnd, i, step, c);
  }

  // ----- plain ranges -----

  datatype RangeError = StarStartsRange | StartBelowMin | StartAboveMax | EndBelowMin | EndAboveMax | Reversed
                      | ZeroStep | StepTooLarge | HashDisabled

  datatype Result<T> = Ok(value: T) | Err(error: RangeError)

  datatype Low = Star | Number(n: nat)

  /** A range as it is written: low, low-high, low/step or low-high/step. */
  datatype RangeExpr = RangeExpr(low: Low, high: Option<nat>, step: Option<nat>) {
    function Start(b: Bounds): nat { if low.Star? then b.min else low.n }

    function End(b: Bounds): nat {
      if low.Star? || (high.None? && step.Some?) then b.max else if high.Some? then high.value else low.n
    }

    function Step(): nat { if step.Some? then step.value else 1 }

    /** Values past stepEnd are dropped from "N/step". */
    predicate DropsPastStepEnd(b: Bounds) {
      high.None? && step.Some? && b.stepEnd != 0 && low.Number? && low.n <= b.stepEnd
    }

    predicate KeepsStar() { low.Star? && Step() <= 1 }
  }

  /** validateRangeBounds */
  function BoundsError(start: nat, end: nat, b: Bounds): Option<RangeError> {
    if start < b.min then Some(StartBelowMin)
    else if start > b.max then Some(StartAboveMax)
    else if end < b.min then Some(EndBelowMin)
    else if end > b.max then Some(EndAboveMax)
    else if start > end && !b.wraparound then Some(Reversed)
    else None
  }

  /** parseRangeBounds and validateRangeParams */
  function RangeFault(e: RangeExpr, b: Bounds): Option<RangeError>
    requires b.Valid()
  {
    if e.low.Star? && e.high.Some? then Some(StarStartsRange)
    else if BoundsError(e.Start(b), e.End(b), b).Some? then BoundsError(e.Start(b), e.End(b), b)
    else if e.Step() == 0 then Some(ZeroStep)
    else if e.Step() > 1 && e.Step() >= CyclicSize(e.Start(b), e.End(b), b) && !b.lenientSteps then Some(StepTooLarge)
    else None
  }

  /** w is one of the values that a range without fault selects. */
  ghost predicate Selected(w: int, e: RangeExpr, b: Bounds)
    requires b.Valid() && RangeFault(e, b).None?
  {
    var start, end, step := e.Start(b), e.End(b), e.Step();
    if start <= end then Visits(w, start, end, step) && !(e.DropsPastStepEnd(b) && w > b.stepEnd)
    else
      var (s, e', c) := if step > 1 then DowCycle(start, end, b) else (start, end, b);
      Walked(w, s, LastPosition(s, e', c), step, c)
  }

  /** What a mask says about values and the star bit. */
  ghost predicate MaskOf(mask: bv64, e: RangeExpr, b: Bounds)
    requires b.Valid() && RangeFault(e, b).None?
  {
    && (forall w :: 0 <= w < 63 ==> (FieldMatches(w, mask) <==> Selected(w, e, b)))
    && (FieldMatches(63, mask) <==> e.KeepsStar())
  }

  /** getRange */
  method GetRange(e: RangeExpr, b: Bounds) returns (r: Result<bv64>)
    requires b.Valid()
    ensures r.Err? <==> RangeFault(e, b).Some?
    ensures r.Err? ==> RangeFault(e, b) == Some(r.error)
    ensures r.Ok? ==> MaskOf(r.value, e, b)
  {
    hide FieldMatches, And, Or, Not, HasWalk, HasWalkAround, Walked, Visits, MaskOf;
    if e.low.Star? && e.high.Some? {
      return Err(StarStartsRange);
    }
    var start, end, step := e.Start(b), e.End(b), e.Step();
    var extra: bv64, dropped: bv64 := if e.low.Star? then STAR_BIT else 0, 0;
    if e.step.Some? {
      if e.DropsPastStepEnd(b) {
        dropped := GetBits(b.stepEnd + 1, b.max, 1);
      }
      if step > 1 {
        extra := 0;
      }
    }
    var fault := RangeFault(e, b);
    if fault.Some? {
      return Err(fault.value);
    }
    if start > end && b.wraparound {
      var around := GetWraparoundBits(start, end, step, b);
      AroundIsMask(around, extra, e, b);
      return Ok(Or(around, extra));
    }
    var bits := GetBits(start, end, step);
    PlainIsMask(bits, dropped, extra, e, b);
    return Ok(Or(And(bits, Not(dropped)), extra));
  }

  ghost predicate IsExtra(extra: bv64, e: RangeExpr) {
    extra == if e.KeepsStar() then STAR_BIT else 0
  }

  lemma ExtraIs(extra: bv64, e: RangeExpr, w: nat)
    requires IsExtra(extra, e) && w < 64
    ensures FieldMatches(w, extra) <==> w == 63 && e.KeepsStar()
  {
    hide FieldMatches;
    StarOnly(w);
    EmptyMask(w);
  }

  lemma PlainIsMask(bits: bv64, dropped: bv64, extra: bv64, e: RangeExpr, b: Bounds)
    requires b.Valid() && RangeFault(e, b).None? && e.Start(b) <= e.End(b) && IsExtra(extra, e)
    requires HasWalk(bits, e.Start(b), e.End(b), e.Step())
    requires if e.DropsPastStepEnd(b) then HasWalk(dropped, b.stepEnd + 1, b.max, 1) else dropped == 0
    ensures MaskOf(Or(And(bits, Not(dropped)), extra), e, b)
  {
    hide FieldMatches, And, Or, Not;
    forall w | 0 <= w < 64
      ensures FieldMatches(w, Or(And(bits, Not(dropped)), extra))
              <==> if w == 63 then e.KeepsStar() else Selected(w, e, b)
    {
      Union(And(bits, Not(dropped)), extra, w);
      Intersection(bits, Not(dropped), w);
      Complement(dropped, w);
      EmptyMask(w);
      ExtraIs(extra, e, w);
    }
  }

  lemma AroundIsMask(around: bv64, extra: bv64, e: RangeExpr, b: Bounds)
    requires b.Valid() && RangeFault(e, b).None? && e.Start(b) > e.End(b) && IsExtra(extra, e)
    requires var (s, e', c) := if e.Step() > 1 then DowCycle(e.Start(b), e.End(b), b) else (e.Start(b), e.End(b), b);
             HasWalkAround(around, s, LastPosition(s, e', c), e.Step(), c)
    ensures MaskOf(Or(around, extra), e, b)
  {
    hide FieldMatches, Visits, Or;
    forall w | 0 <= w < 64
      ensures FieldMatches(w, Or(around, extra)) <==> if w == 63 then e.KeepsStar() else Selected(w, e, b)
    {
      Union(around, extra, w);
      ExtraIs(extra, e, w);
    }
  }

  /** An accepted range selects at least one value, and only values of its field. */
  lemma RangeIsInField(e: RangeExpr, b: Bounds) returns (first: int)
    requires b.Valid() && RangeFault(e, b).None?
    ensures Selected(first, e, b)
    ensures forall w :: Selected(w, e, b) ==> b.min <= w <= b.max
  {
    hide Fold, DowCycle;
    var start, end, step := e.Start(b), e.End(b), e.Step();
    if start <= end {
      first := start;
    } else {
      var cycle := if step > 1 then DowCycle(start, end, b) else (start, end, b);
      assert Visits(cycle.0, cycle.0, LastPosition(cycle.0, cycle.1, cycle.2), step);
      first := Fold(cycle.0, cycle.2);
    }
  }

  // ----- hashed values -----

  /** Where a stepped H starts in a range of `size` values. */
  function HashOffset(size: nat, step: nat, hash: nat): (o: nat)
    requires size > 0 && step > 0
    ensures o < size
  {
    var o := hash % step;
    if o < size then o else hash / step % size
  }

  /** dowHashSunday7 */
  function Sunday7(start: nat, end: nat, size: nat, hash: nat): nat
    requires start <= 7 && ((start <= end && start != 0) || size > 1)
  {
    if start <= end && start != 0 then 0
    else
      var pos7 := 7 - start;
      var j := hash / size % (size - 1);
      (start + if j >= pos7 then j + 1 else j) % 8
  }

  /** The value getHashSingleBit chooses. */
  function HashedValue(start: nat, end: nat, b: Bounds, hash: nat): (v: int)
    requires b.Valid() && b.min <= start <= b.max && b.min <= end <= b.max
    ensures b.min <= v <= b.max
  {
    var size := CyclicSize(start, end, b);
    var v := Fold(start + hash % size, b);
    if v == 7 && b.IsDow() then Sunday7(start, end, size, hash) else v
  }

  /** getHashStepBits */
  method GetHashStepBits(start: nat, end: nat, step: nat, b: Bounds, hash: nat) returns (bits: bv64)
    requires b.Valid() && b.min <= start <= b.max && b.min <= end <= b.max && step > 0
    ensures var (s, e, c) := DowCycle(start, end, b);
            HasWalkAround(bits, s + HashOffset(CyclicSize(s, e, c), step, hash), LastPosition(s, e, c), step, c)
  {
    hide FieldMatches, With, Visits, HasWalk, HasWalkAround, Fold, DowCycle, HashOffset, CyclicSize;
    var cycle := DowCycle(start, end, b);
    var s, e, c := cycle.0, cycle.1, cycle.2;
    var size := CyclicSize(s, e, c);
    var first := s + HashOffset(size, step, hash);
    bits := 0;
    var v := first;
    if s > e {
      var extendedEnd := e + c.Size();
      EmptyAround(bits, first, step, c);
      while v <= extendedEnd
        invariant first <= v && (v - first) % step == 0 && (v - step <= extendedEnd || v == first)
        invariant HasWalkAround(bits, first, v - 1, step, c)
        decreases extendedEnd + 1 - v
      {
        AroundMore(bits, first, v, step, c);
        NextMultiple(v - first, step);
        bits := With(bits, Fold(v, c));
        v := v + step;
      }
      WholeAround(bits, first, extendedEnd, v, step, c);
      return;
    }
    EmptyWalk(bits, first, step);
    while v <= e
      invariant first <= v && (v - first) % step == 0 && (v - step <= e || v == first)
      invariant HasWalk(bits, first, v - 1, step)
      decreases e + 1 - v
    {
      WalkMore(bits, first, v, step);
      NextMultiple(v - first, step);
      bits := With(bits, v);
      v := v + step;
    }
    WholeWalk(bits, first, e, v, step);
    AroundWithin(bits, first, e, step, c);
  }

  /** A stepped H has its first value within the range, so it selects something. */
  lemma HashedWalkStarts(start: nat, end: nat, step: nat, b: Bounds, hash: nat)
    requires b.Valid() && b.min <= start <= b.max && b.min <= end <= b.max && step > 0
    ensures var (s, e, c) := DowCycle(start, end, b);
            var first := s + HashOffset(CyclicSize(s, e, c), step, hash);
            Walked(Fold(first, c), first, LastPosition(s, e, c), step, c)
  {
    hide DowCycle, HashOffset, Fold;
    var cycle := DowCycle(start, end, b);
    var s, e, c := cycle.0, cycle.1, cycle.2;
    var first := s + HashOffset(CyclicSize(s, e, c), step, hash);
    assert Visits(first, first, LastPosition(s, e, c), step);
  }

  /** A stepped H selects only values of its field. */
  lemma HashedWalkInField(start: nat, end: nat, step: nat, b: Bounds, hash: nat, w: int)
    requires b.Valid() && b.min <= start <= b.max && b.min <= end <= b.max && step > 0
    ensures var (s, e, c) := DowCycle(start, end, b);
            Walked(w, s + HashOffset(CyclicSize(s, e, c), step, hash), LastPosition(s, e, c), step, c)
            ==> b.min <= w <= (if b.IsDow() then 6 else b.max)
  {
    hide DowCycle, HashOffset, Fold;
  }

  /** How many days after the first one the last day of a day-of-week range lies; 0-7 is the whole week. */
  function DaysAfter(start: nat, end: nat): nat {
    if start == 0 && end == 7 then 6 else (end - start) % 7
  }

  lemma VisitsShifted(i: int, low: int, high: int, step: int, shift: int)
    requires step > 0
    ensures Visits(i + shift, low + shift, high + shift, step) <==> Visits(i, low, high, step)
  {
    assert i + shift - (low + shift) == i - low;
  }

  lemma DowCycleIs(start: nat, end: nat, b: Bounds)
    requires b.Valid() && b.IsDow() && start <= 7 && end <= 7
    ensures var (s, e, c) := DowCycle(start, end, b);
            && c.min == 0 && c.max == 6 && 0 <= s <= start && (start - s == 0 || start - s == 7)
            && LastPosition(s, e, c) - s == DaysAfter(start, end)
  {
  }

  lemma FoldIsDay(i: int, c: Bounds, shift: int)
    requires c.Valid() && c.min == 0 && c.max == 6 && i >= 0 && (shift == 0 || shift == 7)
    ensures Fold(i, c) == (i + shift) % 7
  {
  }

  /** In the day-of-week field a stepped walk from `skip` days after the start selects exactly the days reached by going
      on `step` days at a time up to the end of the range, with 7 read as 0. */
  lemma DowWalk(v: int, start: nat, end: nat, skip: nat, step: nat, b: Bounds)
    requires b.Valid() && b.IsDow() && start <= 7 && end <= 7 && step > 0
    ensures var (s, e, c) := DowCycle(start, end, b);
            Walked(v, s + skip, LastPosition(s, e, c), step, c)
            <==> exists i :: Visits(i, start + skip, start + DaysAfter(start, end), step) && i % 7 == v
  {
    hide DowCycle, LastPosition, DaysAfter, Fold;
    DowCycleIs(start, end, b);
    var cycle := DowCycle(start, end, b);
    var s, e, c := cycle.0, cycle.1, cycle.2;
    var last, shift := LastPosition(s, e, c), start - s;
    if Walked(v, s + skip, last, step, c) {
      var i :| Visits(i, s + skip, last, step) && Fold(i, c) == v;
      VisitsShifted(i, s + skip, last, step, shift);
      FoldIsDay(i, c, shift);
      assert Visits(i + shift, start + skip, start + DaysAfter(start, end), step) && (i + shift) % 7 == v;
    }
    if j :| Visits(j, start + skip, start + DaysAfter(start, end), step) && j % 7 == v {
      VisitsShifted(j - shift, s + skip, last, step, shift);
      FoldIsDay(j - shift, c, shift);
      assert Visits(j - shift, s + skip, last, step) && Fold(j - shift, c) == v;
    }
  }

  /** A single H outside the day-of-week field picks a value of the range itself. */
  lemma HashedInRange(start: nat, end: nat, b: Bounds, hash: nat)
    requires b.Valid() && !b.IsDow() && b.min <= start <= b.max && b.min <= end <= b.max
    ensures Walked(HashedValue(start, end, b, hash), start, LastPosition(start, end, b), 1, b)
  {
    hide Fold;
    assert Visits(start + hash % CyclicSize(start, end, b), start, LastPosition(start, end, b), 1);
  }

  /** H, H/N, H(low-high) and H(low-high)/N. */
  datatype HashExpr = HashExpr(range: Option<(nat, nat)>, step: Option<nat>) {
    function Start(b: Bounds): nat { if range.Some? then range.value.0 else b.min }

    function End(b: Bounds): nat { if range.Some? then range.value.1 else b.max }
  }

  function HashFault(e: HashExpr, b: Bounds, enabled: bool): Option<RangeError> {
    if !enabled then Some(HashDisabled)
    else if BoundsError(e.Start(b), e.End(b), b).Some? then BoundsError(e.Start(b), e.End(b), b)
    else if e.step == Some(0) then Some(ZeroStep)
    else None
  }

  /** getRangeWithHash, for an item that starts with H; hash is the hash of the key. */
  method GetHashedRange(e: HashExpr, b: Bounds, hash: nat, enabled: bool) returns (r: Result<bv64>)
    requires b.Valid()
    ensures r.Err? <==> HashFault(e, b, enabled).Some?
    ensures r.Err? ==> HashFault(e, b, enabled) == Some(r.error)
    ensures r.Ok? && e.step.None? ==>
              forall w :: 0 <= w < 64
                     ==> (FieldMatches(w, r.value) <==> w == HashedValue(e.Start(b), e.End(b), b, hash))
    ensures r.Ok? && e.step.Some? ==>
              var (s, e', c) := DowCycle(e.Start(b), e.End(b), b);
              HasWalkAround(r.value, s + HashOffset(CyclicSize(s, e', c), e.step.value, hash), LastPosition(s, e', c),
                  e.step.value, c)
  {
    hide FieldMatches, Bit, DowCycle, HashedValue, HasWalkAround, HashOffset, CyclicSize;
    var fault := HashFault(e, b, enabled);
    if fault.Some? {
      return Err(fault.value);
    }
    var start, end := e.Start(b), e.End(b);
    if e.step.Some? {
      var bits := GetHashStepBits(start, end, e.step.value, b, hash);
      return Ok(bits);
    }
    var v := HashedValue(start, end, b, hash);
    forall w | 0 <= w < 64
      ensures FieldMatches(w, Bit(v)) <==> w == v
    {
      OneValue(v, w);
    }
    return Ok(Bit(v));
  }
}

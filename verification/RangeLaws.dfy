/** Laws of range expressions and hashed values: what the usual expressions select, and how evenly keys spread. */
module RangeLaws {
  import opened FieldMasks
  import opened FieldRanges
  import opened Options
  import opened Remainders
  import opened Schedules

  // ----- what the usual expressions select -----

  /** "5" selects 5 and nothing else, or lies outside the field. */
  lemma PlainNumber(n: nat, b: Bounds)
    requires b.Valid()
    ensures var e := RangeExpr(Number(n), None, None);
            && (RangeFault(e, b).None? <==> b.min <= n <= b.max)
            && (RangeFault(e, b).None? ==> !e.KeepsStar() && forall w :: Selected(w, e, b) <==> w == n)
  {
  }

  /** "2-5" selects 2 to 5. */
  lemma PlainRange(low: nat, high: nat, b: Bounds)
    requires b.Valid() && low <= high
    ensures var e := RangeExpr(Number(low), Some(high), None);
            && (RangeFault(e, b).None? <==> b.min <= low && high <= b.max)
            && (RangeFault(e, b).None? ==> !e.KeepsStar() && forall w :: Selected(w, e, b) <==> low <= w <= high)
  {
  }

  /** "22-2" selects from 22 to the end of the field and from its start to 2, where wrapping is allowed. */
  lemma PlainWraparound(low: nat, high: nat, b: Bounds)
    requires b.Valid() && b.min <= high < low <= b.max
    ensures var e := RangeExpr(Number(low), Some(high), None);
            && (RangeFault(e, b).None? <==> b.wraparound)
            && (b.wraparound ==> forall w :: Selected(w, e, b) <==> low <= w <= b.max || b.min <= w <= high)
  {
    var e := RangeExpr(Number(low), Some(high), None);
    if b.wraparound {
      forall w
        ensures Selected(w, e, b) <==> low <= w <= b.max || b.min <= w <= high
      {
        WrapsOnce(w, low, high, b);
      }
    }
  }

  lemma WrapsOnce(w: int, low: nat, high: nat, b: Bounds)
    requires b.Valid() && b.min <= high < low <= b.max
    ensures Walked(w, low, high + b.Size(), 1, b) <==> low <= w <= b.max || b.min <= w <= high
  {
    if low <= w <= b.max {
      assert Visits(w, low, high + b.Size(), 1) && Fold(w, b) == w;
    }
    if b.min <= w <= high {
      FoldsBack(w, b);
      assert Visits(w + b.Size(), low, high + b.Size(), 1) && Fold(w + b.Size(), b) == w;
    }
    if Walked(w, low, high + b.Size(), 1, b) {
      var i :| Visits(i, low, high + b.Size(), 1) && Fold(i, b) == w;
      if i > b.max {
        FoldsBack(i - b.Size(), b);
      }
    }
  }

  lemma FoldsBack(w: int, b: Bounds)
    requires b.Valid() && b.min <= w <= b.max
    ensures Fold(w + b.Size(), b) == w
  {
    RemainderIs(w + b.Size() - b.min, b.Size(), 1, w - b.min);
  }

  /** "*" selects the whole field and keeps the star. */
  lemma Everything(b: Bounds)
    requires b.Valid()
    ensures var e := RangeExpr(Star, None, None);
            RangeFault(e, b).None? && e.KeepsStar() && forall w :: Selected(w, e, b) <==> b.min <= w <= b.max
  {
  }

  /** With a step above one every step-th value is selected, no star is kept, and a step beyond the range is an
      error. */
  lemma Stepped(low: Low, step: nat, b: Bounds)
    requires b.Valid() && step > 1
    ensures var e := RangeExpr(low, None, Some(step));
            var start := if low.Star? then b.min else low.n;
            && (RangeFault(e, b).None? <==> b.min <= start <= b.max && (step <= b.max - start || b.lenientSteps))
            && (RangeFault(e, b).None? ==>
                  && !e.KeepsStar()
                  && forall w :: Selected(w, e, b)
                                 <==> start <= w <= b.max && (w - start) % step == 0
                                      && (low.Star? || b.stepEnd == 0 || start > b.stepEnd || w <= b.stepEnd))
  {
  }

  /** A step of zero is an error, and so is a range that starts with a star. */
  lemma Faults(e: RangeExpr, b: Bounds)
    requires b.Valid()
    ensures e.low.Star? && e.high.Some? ==> RangeFault(e, b).Some?
    ensures e.step == Some(0) ==> RangeFault(e, b).Some?
    ensures e.low.Number? && (e.low.n < b.min || e.low.n > b.max) ==> RangeFault(e, b).Some?
    ensures e.high.Some? && (e.high.value < b.min || e.high.value > b.max) ==> RangeFault(e, b).Some?
  {
  }

  /** An item that starts with H is an error without the hash option; with it, only for a zero step or a range outside
      the field, and a reversed range where wrapping is not allowed. */
  lemma HashFaults(e: HashExpr, b: Bounds, enabled: bool)
    requires b.Valid()
    ensures HashFault(e, b, enabled).None?
            <==> enabled && e.step != Some(0)
                 && (e.range.Some? ==>
                       && b.min <= e.range.value.0 <= b.max && b.min <= e.range.value.1 <= b.max
                       && (e.range.value.0 <= e.range.value.1 || b.wraparound))
  {
  }

  // ----- single hashed values -----

  /** Different positions of a range are different values. */
  lemma PositionsDiffer(start: nat, end: nat, b: Bounds, i: nat, j: nat)
    requires b.Valid() && b.min <= start <= b.max && b.min <= end <= b.max
    requires i < j < CyclicSize(start, end, b)
    ensures Fold(start + i, b) != Fold(start + j, b)
  {
    var m, n := start + i, start + j;
    if m > b.max {
      FoldsBack(m - b.Size(), b);
    }
    if n > b.max {
      FoldsBack(n - b.Size(), b);
    }
  }

  lemma RemaindersDiffer(n: nat, h: nat, k: nat)
    requires h < k < h + n
    ensures h % n != k % n
  {
    var p, q := h / n, k / n;
    assert h == n * p + h % n && k == n * q + k % n;
    if p < q {
      MultiplesApart(n, p, q);
    } else if q < p {
      MultiplesApart(n, q, p);
    }
  }

  /** Outside the day of week, keys less than the range size apart pick different values. */
  lemma KeysDiffer(start: nat, end: nat, b: Bounds, h: nat, k: nat)
    requires b.Valid() && !b.IsDow() && b.min <= start <= b.max && b.min <= end <= b.max
    requires h < k < h + CyclicSize(start, end, b)
    ensures HashedValue(start, end, b, h) != HashedValue(start, end, b, k)
  {
    hide Fold;
    var size := CyclicSize(start, end, b);
    RemaindersDiffer(size, h, k);
    if h % size < k % size {
      PositionsDiffer(start, end, b, h % size, k % size);
    } else {
      PositionsDiffer(start, end, b, k % size, h % size);
    }
  }

  /** Any `size` consecutive keys pick each value of the range. */
  lemma EachValuePicked(start: nat, end: nat, b: Bounds, h: nat, v: int) returns (k: nat)
    requires b.Valid() && !b.IsDow() && b.min <= start <= b.max && b.min <= end <= b.max
    requires Walked(v, start, LastPosition(start, end, b), 1, b)
    ensures h <= k < h + CyclicSize(start, end, b) && HashedValue(start, end, b, k) == v
  {
    hide Fold;
    var size := CyclicSize(start, end, b);
    var i :| Visits(i, start, LastPosition(start, end, b), 1) && Fold(i, b) == v;
    k := KeyWithRemainder(size, i - start, h);
  }

  lemma KeyWithRemainder(size: nat, r: nat, h: nat) returns (k: nat)
    requires r < size
    ensures h <= k < h + size && k % size == r
  {
    var q, s := h / size, h % size;
    k := if s <= r then h + (r - s) else h + (r + size - s);
    RemainderIs(k, size, if s <= r then q else q + 1, r);
  }

  // ----- where a stepped H starts -----

  /** In the a-th block of `step` keys each offset below the range size has its own key; the keys that are left all take
      the offset a, counted around the range. */
  lemma OffsetInBlock(size: nat, step: nat, a: nat, r: nat)
    requires size > 0 && r < step
    ensures HashOffset(size, step, step * a + r) == if r < size then r else a % size
  {
    RemainderIs(step * a + r, step, a, r);
  }

  /** How many of the first m keys of the a-th block take offset o. */
  function CountBlock(size: nat, step: nat, o: nat, a: nat, m: nat): nat
    requires size > 0 && m <= step && step > 0
  {
    if m == 0 then 0
    else CountBlock(size, step, o, a, m - 1) + if HashOffset(size, step, step * a + m - 1) == o then 1 else 0
  }

  lemma {:induction false} CountedBlock(size: nat, step: nat, o: nat, a: nat, m: nat)
    requires o < size && m <= step && step > 0
    ensures CountBlock(size, step, o, a, m)
            == (if o < m then 1 else 0) + (if a % size == o && m > size then m - size else 0)
    decreases m
  {
    hide HashOffset;
    if m == 0 {
    } else {
      CountedBlock(size, step, o, a, m - 1);
      OffsetInBlock(size, step, a, m - 1);
      assert step * a + (m - 1) == step * a + m - 1;
    }
  }

  /** How many of the keys of n blocks from the a-th on take offset o. */
  function CountBlocks(size: nat, step: nat, o: nat, a: nat, n: nat): nat
    requires size > 0 && step > 0
  {
    if n == 0 then 0 else CountBlocks(size, step, o, a, n - 1) + CountBlock(size, step, o, a + n - 1, step)
  }

  /** How many of the n numbers from a on leave the remainder o. */
  function CountRemainder(size: nat, o: nat, a: nat, n: nat): nat
    requires size > 0
  {
    if n == 0 then 0 else CountRemainder(size, o, a, n - 1) + if (a + n - 1) % size == o then 1 else 0
  }

  lemma {:induction false} FirstRemainder(size: nat, o: nat, a: nat, n: nat)
    requires size > 0 && n > 0
    ensures CountRemainder(size, o, a, n) == (if a % size == o then 1 else 0) + CountRemainder(size, o, a + 1, n - 1)
    decreases n
  {
    if n == 1 {
    } else {
      FirstRemainder(size, o, a, n - 1);
    }
  }

  lemma {:induction false} EachRemainderOnce(size: nat, o: nat, a: nat)
    requires o < size
    ensures CountRemainder(size, o, a, size) == 1
    decreases a
  {
    if a == 0 {
      SmallRemainders(size, o, size);
    } else {
      EachRemainderOnce(size, o, a - 1);
      FirstRemainder(size, o, a - 1, size);
      NextMultiple(a - 1, size);
    }
  }

  lemma {:induction false} SmallRemainders(size: nat, o: nat, n: nat)
    requires o < size && n <= size
    ensures CountRemainder(size, o, 0, n) == if o < n then 1 else 0
    decreases n
  {
    if n == 0 {
    } else {
      SmallRemainders(size, o, n - 1);
      RemainderIs(n - 1, size, 0, n - 1);
    }
  }

  lemma {:induction false} CountedBlocks(size: nat, step: nat, o: nat, a: nat, n: nat)
    requires o < size < step
    ensures CountBlocks(size, step, o, a, n) == n + (step - size) * CountRemainder(size, o, a, n)
    decreases n
  {
    hide CountBlock;
    if n == 0 {
    } else {
      CountedBlocks(size, step, o, a, n - 1);
      CountedBlock(size, step, o, a + n - 1, step);
      var c := CountRemainder(size, o, a, n - 1);
      assert (step - size) * (c + 1) == (step - size) * c + (step - size);
    }
  }

  /** A step up to the range size: every block of `step` keys takes each offset below the step once. With a step above
      the range size, `size` blocks take each offset of the range equally often. */
  lemma OffsetsSpread(size: nat, step: nat, o: nat, a: nat)
    requires size > 0 && step > 0
    ensures step <= size && o < step ==> CountBlock(size, step, o, a, step) == 1
    ensures o < size < step ==> CountBlocks(size, step, o, a, size) == step
  {
    hide CountBlock, CountBlocks, CountRemainder;
    if step <= size && o < step {
      CountedBlock(size, step, o, a, step);
    } else if o < size < step {
      CountedBlocks(size, step, o, a, size);
      EachRemainderOnce(size, o, a);
    }
  }
}

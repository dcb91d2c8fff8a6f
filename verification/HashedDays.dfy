/** A hashed day of the week falls on each day equally often, though Sunday has two numbers. */
module HashedDays {
  import opened FieldMasks
  import opened FieldRanges
  import opened Remainders

  const DOW := Bounds(0, 7, true, false, 0)

  /** The range holds 0 and 7. */
  predicate HoldsBothSundays(start: nat, end: nat) {
    start <= 7 && end <= 7 && (start > end || (start == 0 && end == 7))
  }

  /** That is, Sunday can be picked under both numbers. */
  lemma BothSundays(start: nat, end: nat)
    requires start <= 7 && end <= 7
    ensures HoldsBothSundays(start, end)
            <==> Walked(0, start, LastPosition(start, end, DOW), 1, DOW)
                 && Walked(7, start, LastPosition(start, end, DOW), 1, DOW)
  {
    var last := LastPosition(start, end, DOW);
    if HoldsBothSundays(start, end) {
      var sunday := if start == 0 then 0 else 8;
      assert Visits(sunday, start, last, 1) && Fold(sunday, DOW) == 0;
      assert Visits(7, start, last, 1) && Fold(7, DOW) == 7;
    }
  }

  function Size(start: nat, end: nat): (r: nat)
    requires HoldsBothSundays(start, end)
    ensures 2 <= r <= 8
  {
    CyclicSize(start, end, DOW)
  }

  function Day(start: nat, end: nat, hash: nat): int
    requires HoldsBothSundays(start, end)
  {
    HashedValue(start, end, DOW, hash)
  }

  /** Where the range, counted from its start, has day d. */
  function Place(start: nat, d: int): int { (d - start) % 8 }

  /** d is one of the distinct days 0-6 in the range. */
  predicate IsDayOf(start: nat, end: nat, d: int)
    requires HoldsBothSundays(start, end)
  {
    0 <= d <= 6 && Place(start, d) < Size(start, end)
  }

  /** The re-drawn keys that give the day at place p. */
  function Redraw(start: nat, p: int): int { if p > 7 - start then p - 1 else p }

  lemma WhenIsDay(start: nat, end: nat, d: int, hash: nat)
    requires HoldsBothSundays(start, end) && IsDayOf(start, end, d)
    ensures var r, p := Size(start, end), Place(start, d);
            Day(start, end, hash) == d
            <==> hash % r == p || (hash % r == 7 - start && hash / r % (r - 1) == Redraw(start, p))
    ensures Place(start, d) != 7 - start
  {
    DayOfKey(start, end, hash);
    PlaceIs(start, d, hash % Size(start, end));
    var r := Size(start, end);
    var j := hash / r % (r - 1);
    PlaceIs(start, d, if j >= 7 - start then j + 1 else j);
  }

  lemma PlaceIs(start: nat, d: int, i: nat)
    requires start <= 7 && 0 <= d <= 7 && i < 8
    ensures (start + i) % 8 == d <==> i == Place(start, d)
    ensures Place(start, 7) == 7 - start
  {
  }

  /** The day of a key, place by place. */
  lemma DayOfKey(start: nat, end: nat, hash: nat)
    requires HoldsBothSundays(start, end)
    ensures var r := Size(start, end);
            var i, j := hash % r, hash / r % (r - 1);
            Day(start, end, hash) == if i == 7 - start then (start + if j >= 7 - start then j + 1 else j) % 8
                                     else (start + i) % 8
  {
    var i := hash % Size(start, end);
    PlaceIs(start, 7, i);
  }

  /** Every key gives one of the distinct days of the range. */
  lemma AlwaysADay(start: nat, end: nat, hash: nat)
    requires HoldsBothSundays(start, end)
    ensures IsDayOf(start, end, Day(start, end, hash))
  {
    hide Day;
    DayOfKey(start, end, hash);
    var r := Size(start, end);
    var i, j := hash % r, hash / r % (r - 1);
    var k := if i == 7 - start then if j >= 7 - start then j + 1 else j else i;
    assert k < r && k != 7 - start;
    PlaceIs(start, (start + k) % 8, k);
    PlaceIs(start, 7, k);
  }

  /** In a range with one Sunday a key picks the day it falls on, with 7 read as 0. */
  lemma OneSunday(start: nat, end: nat, hash: nat)
    requires start <= end <= 7 && !HoldsBothSundays(start, end)
    ensures HashedValue(start, end, DOW, hash) == (start + hash % (end - start + 1)) % 7
  {
  }

  // ----- counting -----

  /** How many of the n keys from h on give day d. */
  function Count(start: nat, end: nat, d: int, h: nat, n: nat): nat
    requires HoldsBothSundays(start, end)
  {
    if n == 0 then 0
    else Count(start, end, d, h, n - 1) + if Day(start, end, h + n - 1) == d then 1 else 0
  }

  lemma {:induction false} CountFirst(start: nat, end: nat, d: int, h: nat, n: nat)
    requires HoldsBothSundays(start, end) && n > 0
    ensures Count(start, end, d, h, n)
            == (if Day(start, end, h) == d then 1 else 0) + Count(start, end, d, h + 1, n - 1)
    decreases n
  {
    hide Day;
    if n <= 1 {
    } else {
      CountFirst(start, end, d, h, n - 1);
    }
  }

  lemma {:induction false} CountConcat(start: nat, end: nat, d: int, h: nat, m: nat, n: nat)
    requires HoldsBothSundays(start, end)
    ensures Count(start, end, d, h, m + n) == Count(start, end, d, h, m) + Count(start, end, d, h + m, n)
    decreases n
  {
    hide Day;
    if n == 0 {
    } else {
      CountConcat(start, end, d, h, m, n - 1);
    }
  }

  /** Days repeat after r * (r - 1) keys. */
  lemma DaysRepeat(start: nat, end: nat, h: nat)
    requires HoldsBothSundays(start, end)
    ensures var r := Size(start, end); Day(start, end, h + r * (r - 1)) == Day(start, end, h)
  {
    hide Day, Size;
    var r := Size(start, end);
    RemaindersRepeat(h, r);
    DayOfKey(start, end, h);
    DayOfKey(start, end, h + r * (r - 1));
  }

  /** In the k-th block of r keys. */
  lemma {:induction false} CountInBlock(start: nat, end: nat, d: int, k: nat, m: nat)
    requires HoldsBothSundays(start, end) && IsDayOf(start, end, d)
    requires var r := Size(start, end); k < r - 1 && m <= r
    ensures var r, p := Size(start, end), Place(start, d);
            Count(start, end, d, r * k, m)
            == (if p < m then 1 else 0) + (if 7 - start < m && Redraw(start, p) == k then 1 else 0)
    decreases m
  {
    hide Day, Size, Place, Redraw;
    PlacesFit(start, end, d);
    if m == 0 {
    } else {
      var r := Size(start, end);
      CountInBlock(start, end, d, k, m - 1);
      RemainderIs(r * k + m - 1, r, k, m - 1);
      WhenIsDay(start, end, d, r * k + m - 1);
      SmallRemainder(k, r - 1);
    }
  }

  lemma SmallRemainder(k: nat, n: nat)
    requires k < n
    ensures k % n == k
  {
  }

  lemma {:induction false} CountInBlocks(start: nat, end: nat, d: int, k: nat)
    requires HoldsBothSundays(start, end) && IsDayOf(start, end, d)
    requires k <= Size(start, end) - 1
    ensures Count(start, end, d, 0, Size(start, end) * k) == k + if Redraw(start, Place(start, d)) < k then 1 else 0
    decreases k
  {
    hide Day, Size, Place, Redraw;
    PlacesFit(start, end, d);
    var r := Size(start, end);
    if k == 0 {
    } else {
      CountInBlocks(start, end, d, k - 1);
      assert r * k == r * (k - 1) + r;
      CountConcat(start, end, d, 0, r * (k - 1), r);
      CountInBlock(start, end, d, k - 1, r);
    }
  }

  lemma PlacesFit(start: nat, end: nat, d: int)
    requires HoldsBothSundays(start, end) && IsDayOf(start, end, d)
    ensures 0 <= Place(start, d) < Size(start, end) && 7 - start < Size(start, end)
    ensures 0 <= Redraw(start, Place(start, d)) < Size(start, end) - 1
  {
    PlaceIs(start, d, 7 - start);
  }

  /** Any r * (r - 1) consecutive keys give each of the r - 1 distinct days of a range of size r exactly r times. */
  lemma {:induction false} EachDayEquallyOften(start: nat, end: nat, d: int, h: nat)
    requires HoldsBothSundays(start, end) && IsDayOf(start, end, d)
    ensures var r := Size(start, end); Count(start, end, d, h, r * (r - 1)) == r
    decreases h
  {
    hide Day, Size, Place, Redraw;
    var r := Size(start, end);
    PlacesFit(start, end, d);
    if h == 0 {
      CountInBlocks(start, end, d, r - 1);
    } else {
      EachDayEquallyOften(start, end, d, h - 1);
      assert r * (r - 1) > 0;
      CountFirst(start, end, d, h - 1, r * (r - 1));
      DaysRepeat(start, end, h - 1);
    }
  }
}

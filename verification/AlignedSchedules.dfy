/** Schedules on a grid of absolute times, computed in 64-bit arithmetic with 128-bit products. */
module AlignedSchedules {
  import opened Remainders

  const TWO_63 := 0x8000_0000_0000_0000
  const TWO_64 := 0x1_0000_0000_0000_0000
  const SECOND := 1_000_000_000

  newtype int64 = x: int | -0x8000_0000_0000_0000 <= x < 0x8000_0000_0000_0000
  newtype uint64 = x: int | 0 <= x < 0x1_0000_0000_0000_0000

  // ----- the machine's operations -----

  /** Go's % on signed integers: the remainder has the sign of the dividend. */
  function TruncatedRem(a: int64, b: int64): (r: int64)
    requires b > 0
    ensures -b < r < b
  {
    if a >= 0 then a % b else -((-(a as int)) % (b as int)) as int64
  }

  /** The two halves of a 128-bit product: bits.Mul64. */
  function Mul64(x: uint64, y: uint64): (r: (uint64, uint64))
    ensures r.0 as int * TWO_64 + r.1 as int == x as int * y as int
  {
    ProductFits(x as int, y as int);
    (((x as int * y as int) / TWO_64) as uint64, ((x as int * y as int) % TWO_64) as uint64)
  }

  lemma ProductFits(x: int, y: int)
    requires 0 <= x < TWO_64 && 0 <= y < TWO_64
    ensures 0 <= x * y / TWO_64 < TWO_64
  {
    assert x * y <= x * TWO_64 <= TWO_64 * TWO_64 - TWO_64;
    assert 0 <= x * y;
  }

  /** The remainder of a 128-bit number: bits.Rem64. */
  function Rem64(hi: uint64, lo: uint64, y: uint64): (r: uint64)
    requires y > 0
    ensures r as int == (hi as int * TWO_64 + lo as int) % (y as int)
  {
    ((hi as int * TWO_64 + lo as int) % (y as int)) as uint64
  }

  /** floorMod */
  function FloorMod(a: int64, b: int64): (r: int64)
    requires b > 0
    ensures r as int == (a as int) % (b as int)
  {
    var m := TruncatedRem(a, b);
    FloorModIs(a as int, b as int);
    if m < 0 then m + b else m
  }

  lemma FloorModIs(a: int, b: int)
    requires b > 0
    ensures a < 0 ==> a % b == if (-a) % b == 0 then 0 else b - (-a) % b
  {
    if a < 0 {
      var q, r := (-a) / b, (-a) % b;
      assert -a == b * q + r;
      if r == 0 {
        RemainderIs(a, b, -q, 0);
      } else {
        assert a == b * (-q - 1) + (b - r);
        RemainderIs(a, b, -q - 1, b - r);
      }
    }
  }

  /** gridOffset, for an instant of sec seconds and nsec nanoseconds. No operation in it overflows. */
  function GridOffset(sec: int64, nsec: int64, d: int64): (r: int64)
    requires d > 0 && 0 <= nsec < 1_000_000_000
    ensures r as int == (sec as int * SECOND + nsec as int) % (d as int)
  {
    var n := d as uint64;
    var secRem := FloorMod(sec, d) as uint64;
    var product := Mul64(secRem, 1_000_000_000 % n);
    var rem := Rem64(product.0, product.1, n);
    var nsecRem := nsec as uint64 % n;
    OffsetIs(sec as int, nsec as int, d as int, rem as int);
    ((rem + nsecRem) % n) as int64
  }

  lemma OffsetIs(sec: int, nsec: int, d: int, rem: int)
    requires d > 0 && rem == ((sec % d) * (SECOND % d)) % d
    ensures (rem + nsec % d) % d == (sec * SECOND + nsec) % d
  {
    ProductRemainder(sec, SECOND, d);
    SumRemainder(sec * SECOND, nsec, d);
  }

  // ----- the grid -----

  /** x is a multiple of d. */
  ghost predicate OnGrid(x: int, d: int) { exists k :: x == d * k }

  ghost predicate AdjacentAfter(x: int, t: int, d: int) {
    OnGrid(x, d) && x > t && forall y :: OnGrid(y, d) && y > t ==> x <= y
  }

  ghost predicate AdjacentBefore(x: int, t: int, d: int) {
    OnGrid(x, d) && x < t && forall y :: OnGrid(y, d) && y < t ==> y <= x
  }

  /** An instant as time.Time holds it. */
  datatype Instant = Instant(sec: int64, nsec: int64) {
    ghost predicate Valid() { 0 <= nsec < 1_000_000_000 }

    /** Nanoseconds since the epoch, which need not fit 64 bits. */
    function Nanos(): int { sec as int * SECOND + nsec as int }
  }

  /** Next, in nanoseconds since the epoch. */
  function Next(interval: int64, t: Instant): (r: int)
    requires t.Valid()
    ensures interval > 0 ==> AdjacentAfter(r, t.Nanos(), interval as int)
    ensures interval <= 0 ==> r == t.Nanos() + SECOND
  {
    if interval <= 0 then t.Nanos() + SECOND
    else
      GridAround(t.Nanos(), interval as int);
      t.Nanos() + (interval - GridOffset(t.sec, t.nsec, interval)) as int
  }

  /** Prev, in nanoseconds since the epoch. */
  function Prev(interval: int64, t: Instant): (r: int)
    requires t.Valid()
    ensures interval > 0 ==> AdjacentBefore(r, t.Nanos(), interval as int)
    ensures interval <= 0 ==> r == t.Nanos() - SECOND
  {
    if interval <= 0 then t.Nanos() - SECOND
    else
      GridAround(t.Nanos(), interval as int);
      var off := GridOffset(t.sec, t.nsec, interval);
      t.Nanos() - (if off == 0 then interval else off) as int
  }

  lemma GridAround(t: int, d: int)
    requires d > 0
    ensures AdjacentAfter(t + (d - t % d), t, d)
    ensures AdjacentBefore(t - (if t % d == 0 then d else t % d), t, d)
  {
    var q := t / d;
    assert t == d * q + t % d;
    assert t + (d - t % d) == d * (q + 1);
    assert t % d == 0 ==> t - d == d * (q - 1);
    assert t - t % d == d * q;
    forall y | OnGrid(y, d)
      ensures y > t ==> d * (q + 1) <= y
      ensures y < t ==> y <= if t % d == 0 then d * (q - 1) else d * q
    {
      var k :| y == d * k;
      if y > t {
        GridOrder(d, q, k);
      } else if y < t {
        if t % d == 0 {
          GridOrder(d, k, q);
        } else {
          GridOrder(d, k, q + 1);
        }
      }
    }
  }

  /** Later on the grid is at least one interval later. */
  lemma GridOrder(d: int, j: int, k: int)
    requires d > 0 && d * j < d * k
    ensures d * (j + 1) <= d * k
  {
    if k < j {
      MultiplesApart(d, k, j);
    } else if j < k {
      MultiplesApart(d, j, k);
    }
    assert d * (j + 1) == d * j + d;
  }

  /** All instants in one cell of the grid agree on the next run. */
  lemma OneCellOneNext(interval: int64, t: Instant, u: Instant, k: int)
    requires interval > 0 && t.Valid() && u.Valid()
    requires interval as int * k <= t.Nanos() < interval as int * (k + 1)
    requires interval as int * k <= u.Nanos() < interval as int * (k + 1)
    ensures Next(interval, t) == Next(interval, u) == interval as int * (k + 1)
  {
    CellEnd(interval as int, k, t.Nanos(), Next(interval, t));
    CellEnd(interval as int, k, u.Nanos(), Next(interval, u));
  }

  lemma CellEnd(d: int, k: int, t: int, next: int)
    requires d > 0 && d * k <= t < d * (k + 1) && AdjacentAfter(next, t, d)
    ensures next == d * (k + 1)
  {
    assert OnGrid(d * (k + 1), d);
    var j :| next == d * j;
    GridOrder(d, k, j);
  }

  /** Prev undoes Next from the grid, and Next undoes Prev. */
  lemma NextPrevInverse(interval: int64, t: Instant, u: Instant)
    requires interval > 0 && t.Valid() && u.Valid() && OnGrid(t.Nanos(), interval as int)
    ensures u.Nanos() == Next(interval, t) ==> Prev(interval, u) == t.Nanos()
    ensures u.Nanos() == Prev(interval, t) ==> Next(interval, u) == t.Nanos()
  {
    var d := interval as int;
    var k :| t.Nanos() == d * k;
    if u.Nanos() == Next(interval, t) {
      CellEnd(d, k, t.Nanos(), u.Nanos());
      var p := Prev(interval, u);
      var j :| p == d * j;
      GridOrder(d, j, k + 1);
    }
    if u.Nanos() == Prev(interval, t) {
      var j :| u.Nanos() == d * j;
      CellEnd(d, j, u.Nanos(), Next(interval, u));
      GridOrder(d, j, k);
      assert OnGrid(d * (k - 1), d);
    }
  }
}

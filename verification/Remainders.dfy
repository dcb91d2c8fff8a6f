/** Remainders and multiples of integers. */
module Remainders {

  /** Different multiples lie at least n apart. */
  lemma {:induction false} MultiplesApart(n: int, p: int, q: int)
    requires n > 0 && p < q
    ensures n * p + n <= n * q
    decreases q - p
  {
    assert n * q == n * (q - 1) + n;
    if p >= q - 1 {
    } else {
      MultiplesApart(n, p, q - 1);
    }
  }

  /** There is one quotient with a remainder in [0, n). */
  lemma RemainderIs(x: int, n: int, q: int, r: int)
    requires 0 <= r < n && x == n * q + r
    ensures x / n == q && x % n == r
  {
    var p := x / n;
    assert x == n * p + x % n;
    if q > p {
      MultiplesApart(n, p, q);
    } else if q < p {
      MultiplesApart(n, q, p);
    }
  }

  /** Multiples of n do not change the remainder. */
  lemma SameRemainder(x: int, n: int, k: int)
    requires n > 0
    ensures (x + n * k) % n == x % n
  {
    RemainderIs(x + n * k, n, x / n + k, x % n);
  }

  lemma ProductRemainder(a: int, b: int, n: int)
    requires n > 0
    ensures ((a % n) * (b % n)) % n == (a * b) % n
  {
    var p, q := a / n, b / n;
    var r, s := a % n, b % n;
    ProductOfSums(a, b, n, p, r, q, s);
    SameRemainder(r * s, n, p * (n * q) + p * s + r * q);
  }

  lemma ProductOfSums(a: int, b: int, n: int, p: int, r: int, q: int, s: int)
    requires a == n * p + r && b == n * q + s
    ensures a * b == r * s + n * (p * (n * q) + p * s + r * q)
  {
    calc {
      a * b;
      (n * p + r) * (n * q + s);
      (n * p) * (n * q) + (n * p) * s + r * (n * q) + r * s;
    }
    assert (n * p) * (n * q) == n * (p * (n * q));
    assert (n * p) * s == n * (p * s);
    assert r * (n * q) == n * (r * q);
  }

  lemma SumRemainder(a: int, b: int, n: int)
    requires n > 0
    ensures (a % n + b % n) % n == (a + b) % n
  {
    assert a + b == (a % n + b % n) + n * (a / n + b / n);
    SameRemainder(a % n + b % n, n, a / n + b / n);
  }

  /** Between one multiple of n and the next there is none. */
  lemma NoMultipleBetween(a: int, c: int, n: int)
    requires n > 0 && a % n == 0 && a < c < a + n
    ensures c % n != 0
  {
    var p, q := c / n, a / n;
    assert a == n * q;
    if c % n == 0 {
      assert c == n * p;
      if p < q {
        MultiplesApart(n, p, q);
      } else if q < p {
        MultiplesApart(n, q, p);
      }
    }
  }

  /** Dividing by m and then by n is dividing by their product. */
  lemma NestedQuotient(x: int, m: int, n: int)
    requires m > 0 && n > 0
    ensures x / m / n == x / (m * n)
  {
    var q, r := x / m, x % m;
    var p, s := q / n, q % n;
    NestedSum(x, m, n, q, r, p, s);
    RemainderIs(x, m * n, p, m * s + r);
  }

  lemma NestedSum(x: int, m: int, n: int, q: int, r: int, p: int, s: int)
    requires x == m * q + r && q == n * p + s && 0 <= r < m && 0 <= s < n
    ensures x == (m * n) * p + (m * s + r) && 0 <= m * s + r < m * n
  {
    assert m * (n * p + s) == (m * n) * p + m * s;
    if s < n - 1 {
      MultiplesApart(m, s, n - 1);
    }
    assert m * (n - 1) == m * n - m;
  }

  /** After n * (n - 1) numbers both the remainder by n and that of the quotient by n - 1 come back. */
  lemma RemaindersRepeat(h: int, n: int)
    requires n > 1
    ensures (h + n * (n - 1)) % n == h % n && (h + n * (n - 1)) / n % (n - 1) == h / n % (n - 1)
  {
    var q, r := h / n, h % n;
    assert h + n * (n - 1) == n * (q + (n - 1)) + r;
    RemainderIs(h + n * (n - 1), n, q + (n - 1), r);
    NextMultiple(q, n - 1);
  }

  lemma NextMultiple(a: int, n: int)
    requires n > 0
    ensures (a + n) % n == a % n && (a - n) % n == a % n
  {
    SameRemainder(a, n, 1);
    SameRemainder(a, n, -1);
  }
}

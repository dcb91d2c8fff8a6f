/** The 64-bit operations that masks are made with. */
module BitFacts {

  const TOP_BIT: bv64 := 0x8000_0000_0000_0000
  const ALL: bv64 := 0xFFFF_FFFF_FFFF_FFFF

  function And(a: bv64, b: bv64): bv64 { a & b }

  function Or(a: bv64, b: bv64): bv64 { a | b }

  function Not(a: bv64): bv64 { !a }

  function Twice(a: bv64): bv64 { a << 1 }

  function Half(a: bv64): bv64 { a >> 1 }

  /** a << n, as n shifts by one. */
  function Shl(a: bv64, n: nat): bv64 {
    if n == 0 then a else Twice(Shl(a, n - 1))
  }

  lemma HalfOr(a: bv64, b: bv64)
    ensures Half(Or(a, b)) == Or(Half(a), Half(b))
  {
  }

  lemma OddOr(a: bv64, b: bv64)
    ensures And(1, Or(a, b)) != 0 <==> And(1, a) != 0 || And(1, b) != 0
  {
  }

  lemma AndSelf(x: bv64)
    ensures And(x, x) == x && And(x, ALL) == x && And(x, 0) == 0
  {
  }

  lemma AndTwice(x: bv64, y: bv64)
    ensures And(Twice(x), Twice(y)) == Twice(And(x, y))
  {
  }

  lemma AndHalf(x: bv64, a: bv64)
    ensures And(Twice(x), a) == Twice(And(x, Half(a)))
  {
  }

  lemma HalfAnd(a: bv64, b: bv64)
    ensures Half(And(a, b)) == And(Half(a), Half(b))
  {
  }

  lemma OddTwice(x: bv64)
    ensures And(1, Twice(x)) == 0 && And(Twice(x), 1) == 0
  {
  }

  lemma OddAnd(a: bv64, b: bv64)
    ensures And(1, And(a, b)) != 0 <==> And(1, a) != 0 && And(1, b) != 0
  {
  }

  lemma TwiceZero(x: bv64)
    requires And(x, TOP_BIT) == 0
    ensures Twice(x) == 0 <==> x == 0
  {
  }

  lemma AndTop(x: bv64, y: bv64)
    requires And(x, TOP_BIT) == 0
    ensures And(And(x, y), TOP_BIT) == 0
  {
  }

  lemma AndNot(a: bv64)
    ensures And(a, Not(a)) == 0 && Or(a, Not(a)) == ALL
  {
  }

  lemma AndSwap(a: bv64, b: bv64)
    ensures And(a, b) == And(b, a)
  {
  }

  lemma {:induction false} ShlAgain(a: bv64, m: nat, n: nat)
    ensures Shl(a, m + n) == Shl(Shl(a, m), n)
    decreases n
  {
    hide Twice;
    if n == 0 {
    } else {
      ShlAgain(a, m, n - 1);
    }
  }

  lemma ShlTwo(a: bv64)
    ensures Shl(a, 2) == a << 2
  {
    assert Shl(a, 1) == Twice(a);
  }

  lemma ShlFour(a: bv64)
    ensures Shl(a, 4) == a << 4
  {
    hide Shl, Twice;
    ShlTwo(a);
    ShlTwo(a << 2);
    ShlAgain(a, 2, 2);
  }

  lemma ShlByte(a: bv64)
    ensures Shl(a, 8) == a << 8
  {
    hide Shl, Twice;
    ShlFour(a);
    ShlFour(a << 4);
    ShlAgain(a, 4, 4);
  }

  lemma TopIsLast()
    ensures Shl(1, 63) == TOP_BIT
  {
    hide Shl;
    ShlByte(1);
    ShlByte(0x100);
    ShlAgain(1, 8, 8);
    ShlByte(0x1_0000);
    ShlAgain(1, 16, 8);
    ShlByte(0x100_0000);
    ShlAgain(1, 24, 8);
    ShlByte(0x1_0000_0000);
    ShlAgain(1, 32, 8);
    ShlByte(0x100_0000_0000);
    ShlAgain(1, 40, 8);
    ShlByte(0x1_0000_0000_0000);
    ShlAgain(1, 48, 8);
    LastShifts();
    ShlAgain(1, 56, 7);
  }

  lemma LastShifts()
    ensures Shl(0x100_0000_0000_0000, 7) == TOP_BIT
  {
    hide Shl, Twice;
    ShlFour(0x100_0000_0000_0000);
    ShlTwo(0x1000_0000_0000_0000);
    ShlAgain(0x100_0000_0000_0000, 4, 2);
    ShlAgain(0x100_0000_0000_0000, 6, 1);
    ShlOne(0x4000_0000_0000_0000);
  }

  lemma ShlOne(a: bv64)
    ensures Shl(a, 1) == a << 1
  {
    assert Shl(a, 0) == a;
  }
}

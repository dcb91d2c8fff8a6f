/** The bit masks of cron fields. */
module FieldMasks {
  import opened BitFacts
  import opened Schedules

  // Masks hold values below this; bit 63 is the star bit.
  const WIDTH := 63

  // ----- single bits -----

  /** A bit below the top one, and its double. */
  lemma BelowTop(v: nat)
    requires v < 63
    ensures And(Bit(v), TOP_BIT) == 0
  {
    hide And, Twice;
    TopIsLast();
    Apart(v, 63);
  }

  /** Bits of different values do not meet. */
  lemma {:induction false} Apart(v: nat, w: nat)
    requires v < w < 64
    ensures And(Bit(v), Bit(w)) == 0
    decreases w, v
  {
    hide And, Twice;
    var y := Bit(w - 1);
    assert Bit(w) == Twice(y);
    if v == 0 {
      OddTwice(y);
    } else {
      var x := Bit(v - 1);
      assert Bit(v) == Twice(x);
      Apart(v - 1, w - 1);
      AndTwice(x, y);
      TwiceNothing();
    }
  }

  lemma TwiceNothing()
    ensures Twice(0) == 0
  {
  }

  lemma {:induction false} BitIsSomething(v: nat)
    requires v < 64
    ensures Bit(v) != 0
    decreases v
  {
    hide And, Twice;
    if v == 0 {
    } else {
      BelowTop(v - 1);
      BitIsSomething(v - 1);
      assert Bit(v) == Twice(Bit(v - 1));
      TwiceZero(Bit(v - 1));
    }
  }

  /** A mask with one bit matches one value. */
  lemma OneValue(v: nat, w: nat)
    requires v < 64 && w < 64
    ensures FieldMatches(w, Bit(v)) <==> w == v
  {
    hide And, Bit;
    AndSwap(Bit(v), Bit(w));
    if v < w {
      Apart(v, w);
    } else if w < v {
      Apart(w, v);
    } else {
      AndSelf(Bit(v));
      BitIsSomething(v);
    }
  }

  lemma EmptyMask(w: nat)
    requires w < 64
    ensures !FieldMatches(w, 0)
  {
    hide And, Bit;
    AndSelf(Bit(w));
  }

  lemma FullMask(w: nat)
    requires w < 64
    ensures FieldMatches(w, ALL)
  {
    hide And, Bit;
    AndSelf(Bit(w));
    BitIsSomething(w);
  }

  /** Halving a mask moves every value down by one. */
  lemma MatchesHalf(w: nat, a: bv64)
    requires 0 < w < 64
    ensures FieldMatches(w, a) <==> FieldMatches(w - 1, Half(a))
  {
    hide And, Twice, Half;
    var x := Bit(w - 1);
    assert Bit(w) == Twice(x);
    BelowTop(w - 1);
    AndHalf(x, a);
    AndTop(x, Half(a));
    TwiceZero(And(x, Half(a)));
  }

  /** Doubling a mask moves every value up by one. */
  lemma MatchesTwice(w: nat, a: bv64)
    requires w < 64
    ensures FieldMatches(w, Twice(a)) <==> w > 0 && FieldMatches(w - 1, a)
  {
    hide And, Twice;
    if w == 0 {
      OddTwice(a);
    } else {
      var x := Bit(w - 1);
      assert Bit(w) == Twice(x);
      BelowTop(w - 1);
      AndTwice(x, a);
      AndTop(x, a);
      TwiceZero(And(x, a));
    }
  }

  // ----- union, intersection, complement -----

  lemma {:induction false} Union(a: bv64, b: bv64, w: nat)
    requires w < 64
    ensures FieldMatches(w, Or(a, b)) <==> FieldMatches(w, a) || FieldMatches(w, b)
    decreases w
  {
    hide And, Or, Half;
    if w == 0 {
      OddOr(a, b);
    } else {
      hide FieldMatches;
      MatchesHalf(w, a);
      MatchesHalf(w, b);
      MatchesHalf(w, Or(a, b));
      HalfOr(a, b);
      Union(Half(a), Half(b), w - 1);
    }
  }

  lemma {:induction false} Intersection(a: bv64, b: bv64, w: nat)
    requires w < 64
    ensures FieldMatches(w, And(a, b)) <==> FieldMatches(w, a) && FieldMatches(w, b)
    decreases w
  {
    hide And, Half;
    if w == 0 {
      OddAnd(a, b);
    } else {
      hide FieldMatches;
      MatchesHalf(w, a);
      MatchesHalf(w, b);
      MatchesHalf(w, And(a, b));
      HalfAnd(a, b);
      Intersection(Half(a), Half(b), w - 1);
    }
  }

  lemma Complement(a: bv64, w: nat)
    requires w < 64
    ensures FieldMatches(w, Not(a)) <==> !FieldMatches(w, a)
  {
    hide FieldMatches, And, Or, Not;
    AndNot(a);
    Union(a, Not(a), w);
    Intersection(a, Not(a), w);
    FullMask(w);
    EmptyMask(w);
  }

  function With(bits: bv64, v: int): bv64
    requires 0 <= v < 64
  {
    Or(bits, Bit(v))
  }

  /** Setting a bit adds its value to the mask and nothing else. */
  lemma SetBit(bits: bv64, v: nat, w: nat)
    requires v < 64 && w < 64
    ensures FieldMatches(w, With(bits, v)) <==> FieldMatches(w, bits) || w == v
  {
    hide FieldMatches, Or, Bit;
    Union(bits, Bit(v), w);
    OneValue(v, w);
  }

  lemma StarOnly(w: nat)
    requires w < 64
    ensures FieldMatches(w, STAR_BIT) <==> w == 63
  {
    hide FieldMatches, And, Twice;
    TopIsLast();
    assert Bit(63) == STAR_BIT;
    OneValue(63, w);
  }

  /** NormalizeDOW: Sunday as 7 becomes Sunday as 0. */
  function NormalizeDow(bits: bv64): bv64 {
    if And(bits, Bit(7)) != 0 then And(Or(bits, Bit(0)), Not(Bit(7))) else bits
  }

  lemma NormalizeDowIs(bits: bv64, w: nat)
    requires w < 64
    ensures FieldMatches(w, NormalizeDow(bits))
            <==> w != 7 && (FieldMatches(w, bits) || (w == 0 && FieldMatches(7, bits)))
  {
    hide And, Or, Not, Bit;
    AndSwap(bits, Bit(7));
    if And(bits, Bit(7)) != 0 {
      hide FieldMatches;
      OneValue(7, w);
      OneValue(0, w);
      Union(bits, Bit(0), w);
      Complement(Bit(7), w);
      Intersection(Or(bits, Bit(0)), Not(Bit(7)), w);
    }
  }

  // ----- runs of bits by shifting -----

  /** MaxUint64 << low has the values from low on. */
  lemma {:induction false} OnesFrom(low: nat, w: nat)
    requires low < 64 && w < 64
    ensures FieldMatches(w, Shl(ALL, low)) <==> low <= w
    decreases low
  {
    hide FieldMatches, Twice;
    if low == 0 {
      FullMask(w);
    } else {
      assert Shl(ALL, low) == Twice(Shl(ALL, low - 1));
      MatchesTwice(w, Shl(ALL, low - 1));
      if w > 0 {
        OnesFrom(low - 1, w - 1);
      }
    }
  }

  /** low, low + step, low + 2 * step and so on up to high. */
  predicate Visits(i: int, low: int, high: int, step: int)
    requires step > 0
  {
    low <= i <= high && (i - low) % step == 0
  }

  /** The mask has exactly the values of the walk. */
  ghost predicate HasWalk(bits: bv64, low: int, high: int, step: int)
    requires step > 0
  {
    forall w :: 0 <= w < 64 ==> (FieldMatches(w, bits) <==> Visits(w, low, high, step))
  }

  /** The shifts that getBits uses for step 1. */
  function Shifted(low: nat, high: nat): bv64
    requires low < 64 && high < 63
  {
    And(Not(Shl(ALL, high + 1)), Shl(ALL, low))
  }

  lemma ShiftedIsWalk(low: nat, high: nat)
    requires low < 64 && high < 63
    ensures HasWalk(Shifted(low, high), low, high, 1)
  {
    hide FieldMatches, And, Not, Shl;
    forall w | 0 <= w < 64
      ensures FieldMatches(w, Shifted(low, high)) <==> Visits(w, low, high, 1)
    {
      Intersection(Not(Shl(ALL, high + 1)), Shl(ALL, low), w);
      Complement(Shl(ALL, high + 1), w);
      OnesFrom(high + 1, w);
      OnesFrom(low, w);
    }
  }
}

/**
 * Rounding a decimal to a double: the nearest, ties to the even one (IEEE 754-2008, section 4.3.1), stated over all
 * doubles; and the proof that reading back means just that.
 */
module Nearest {
  import opened Powers
  import opened Words
  import opened Doubles
  import opened Readback
  import opened Scaling

  // Zero, the positive finite doubles, and two to the 1024, from whose midpoint on a number rounds to infinity.
  predicate IsDouble(w0: ULong, w1: ULong) {
    w0 < 0x7FF0_0000 || (w0 == 0x7FF0_0000 && w1 == 0)
  }

  // All of them are multiples of a quarter of the smallest.
  const UNIT: int := -1076

  function Units(w0: ULong, w1: ULong): nat {
    Shl(Quarters(w0, w1), QuarterExp(w0) - UNIT)
  }

  // A double on the scale on which m 10^p is compared.
  function At(w0: ULong, w1: ULong, p: int): nat {
    BinarySide(Units(w0, w1), UNIT, p)
  }

  function Away(m: nat, p: int, w0: ULong, w1: ULong): nat {
    var x, y := DecimalSide(m, p, UNIT), At(w0, w1, p);
    if x < y then y - x else x - y
  }

  // No double is nearer to m 10^p, and if another is as near, this one is even.
  ghost predicate RoundsToDouble(m: nat, p: int, w0: ULong, w1: ULong) {
    forall v0: ULong, v1: ULong :: IsDouble(v0, v1) && (v0, v1) != (w0, w1) ==>
      Away(m, p, w0, w1) <= Away(m, p, v0, v1) && (Away(m, p, w0, w1) == Away(m, p, v0, v1) ==> w1 % 2 == 0)
  }

  // Every other double is farther away.
  ghost predicate RoundsAlone(m: nat, p: int, w0: ULong, w1: ULong) {
    forall v0: ULong, v1: ULong :: IsDouble(v0, v1) && (v0, v1) != (w0, w1) ==> Away(m, p, w0, w1) < Away(m, p, v0, v1)
  }

  // ---- the doubles in order ----

  function Rank(w0: ULong, w1: ULong): nat {
    w0 * BASE + w1
  }

  function Previous(w0: ULong, w1: ULong): (ULong, ULong)
    requires Rank(w0, w1) > 0
  {
    if w1 == 0 then (w0 - 1, 0xFFFF_FFFF) else (w0, w1 - 1)
  }

  // A double, its upper midpoint and the next double are equally spaced.
  lemma NextUnits(w0: ULong, w1: ULong)
    requires w0 < 0x7FF0_0000
    ensures var (v0, v1) := Next(w0, w1);
      && IsDouble(v0, v1) && Units(w0, w1) < Units(v0, v1) && QuarterExp(w0) >= UNIT && QuarterExp(v0) >= UNIT
      && Quarters(v0, v1) >= LowGap(v0, v1)
      && 2 * Shl(Quarters(w0, w1) + HIGH_GAP, QuarterExp(w0) - UNIT) == Units(w0, w1) + Units(v0, v1)
      && 2 * Shl(Quarters(v0, v1) - LowGap(v0, v1), QuarterExp(v0) - UNIT) == Units(w0, w1) + Units(v0, v1)
  {
    var (v0, v1) := Next(w0, w1);
    var c, q, d, r := Quarters(w0, w1), QuarterExp(w0), Quarters(v0, v1), QuarterExp(v0);
    IntervalsMeet(w0, w1);
    EquallySpaced(c, q - UNIT, d, r - UNIT, LowGap(v0, v1));
  }

  lemma EquallySpaced(c: nat, e: nat, d: nat, f: nat, gap: nat)
    requires f >= e && gap <= d && c + HIGH_GAP == Shl(d - gap, f - e) && c + 2 * HIGH_GAP == Shl(d, f - e)
    ensures Shl(c, e) < Shl(d, f)
    ensures 2 * Shl(c + HIGH_GAP, e) == 2 * Shl(d - gap, f) == Shl(c, e) + Shl(d, f)
  {
    ShlAdd(d, f - e, e);
    ShlAdd(d - gap, f - e, e);
    ShlSum(c, HIGH_GAP, e);
    ShlSum(c + HIGH_GAP, HIGH_GAP, e);
    ShlOrder(0, HIGH_GAP, e);
  }

  // A larger double is at least the next one.
  lemma {:induction false} Ascending(w0: ULong, w1: ULong, v0: ULong, v1: ULong)
    requires IsDouble(v0, v1) && Rank(w0, w1) < Rank(v0, v1)
    ensures w0 < 0x7FF0_0000 && var (n0, n1) := Next(w0, w1); Units(n0, n1) <= Units(v0, v1)
    decreases Rank(v0, v1) - Rank(w0, w1)
  {
    var (n0, n1) := Next(w0, w1);
    if Rank(n0, n1) < Rank(v0, v1) {
      Ascending(n0, n1, v0, v1);
      NextUnits(n0, n1);
    }
  }

  lemma AtOrder(v0: ULong, v1: ULong, w0: ULong, w1: ULong, p: int)
    ensures Units(v0, v1) < Units(w0, w1) <==> At(v0, v1, p) < At(w0, w1, p)
    ensures Units(v0, v1) <= Units(w0, w1) <==> At(v0, v1, p) <= At(w0, w1, p)
  {
    SidesOrder(Units(v0, v1), Units(w0, w1), UNIT, p);
  }

  lemma NextAfterPrevious(w0: ULong, w1: ULong)
    requires PositiveFinite(w0, w1)
    ensures Rank(w0, w1) > 0
    ensures var (u0, u1) := Previous(w0, w1);
      u0 < 0x7FF0_0000 && Next(u0, u1) == (w0, w1) && Rank(u0, u1) + 1 == Rank(w0, w1)
  {}

  lemma RankOrders(w0: ULong, w1: ULong, v0: ULong, v1: ULong)
    ensures Rank(w0, w1) == Rank(v0, v1) <==> (w0, w1) == (v0, v1)
  {}

  // At most the next double: Ascending, on the scale of p.
  lemma AtMost(v0: ULong, v1: ULong, u0: ULong, u1: ULong, p: int)
    requires IsDouble(u0, u1) && Rank(v0, v1) <= Rank(u0, u1)
    ensures At(v0, v1, p) <= At(u0, u1, p)
  {
    RankOrders(v0, v1, u0, u1);
    if Rank(v0, v1) < Rank(u0, u1) {
      Ascending(v0, v1, u0, u1);
      NextUnits(v0, v1);
    }
    AtOrder(v0, v1, u0, u1, p);
  }

  // A double's neighbours enclose it, and every other double lies beyond them.
  lemma Neighbours(w0: ULong, w1: ULong, v0: ULong, v1: ULong, p: int)
    requires PositiveFinite(w0, w1) && IsDouble(v0, v1) && (v0, v1) != (w0, w1)
    ensures Rank(w0, w1) > 0
    ensures var (u0, u1) := Previous(w0, w1); var (n0, n1) := Next(w0, w1);
      && IsDouble(u0, u1) && IsDouble(n0, n1) && At(u0, u1, p) < At(w0, w1, p) < At(n0, n1, p)
      && (At(v0, v1, p) <= At(u0, u1, p) || At(n0, n1, p) <= At(v0, v1, p))
  {
    NextAfterPrevious(w0, w1);
    var (u0, u1) := Previous(w0, w1);
    var (n0, n1) := Next(w0, w1);
    NextUnits(u0, u1);
    NextUnits(w0, w1);
    AtOrder(u0, u1, w0, w1, p);
    AtOrder(w0, w1, n0, n1, p);
    RankOrders(w0, w1, v0, v1);
    if Rank(w0, w1) < Rank(v0, v1) {
      Ascending(w0, w1, v0, v1);
      AtOrder(n0, n1, v0, v1, p);
    } else {
      AtMost(v0, v1, u0, u1, p);
    }
  }

  // ---- reading back is rounding ----

  // The comparison of c 2^q with a decimal, moved to the common unit.
  lemma InUnits(c: nat, q: int, m: nat, p: int)
    requires q >= UNIT
    ensures var x, y, x', y' := DecimalSide(m, p, q), BinarySide(c, q, p), DecimalSide(m, p, UNIT), BinarySide(Shl(c, q - UNIT), UNIT, p);
      (x < y <==> x' < y') && (x == y <==> x' == y')
  {
    var t := -UNIT - Pos(-q);
    ShlAdd(Tens(m, Pos(p)), Pos(-q), t);
    TensShl(c, q - UNIT, Pos(-p));
    ShlAdd(Tens(c, Pos(-p)), Pos(q), t);
    ShlOrder(DecimalSide(m, p, q), BinarySide(c, q, p), t);
  }

  // Twice a midpoint, at the scale of p, is the sum of its two doubles.
  lemma MidpointAt(mid: nat, w0: ULong, w1: ULong, v0: ULong, v1: ULong, p: int)
    requires 2 * mid == Units(w0, w1) + Units(v0, v1)
    ensures 2 * BinarySide(mid, UNIT, p) == At(w0, w1, p) + At(v0, v1, p)
  {
    SidesSum(mid, mid, UNIT, p);
    SidesSum(Units(w0, w1), Units(v0, v1), UNIT, p);
  }

  // One end of an interval is a midpoint.
  lemma EndAt(c: nat, q: int, m: nat, w0: ULong, w1: ULong, v0: ULong, v1: ULong, p: int)
    requires q >= UNIT && 2 * Shl(c, q - UNIT) == Units(w0, w1) + Units(v0, v1)
    ensures var x, y := 2 * DecimalSide(m, p, UNIT), At(w0, w1, p) + At(v0, v1, p);
      && (x < y <==> DecimalSide(m, p, q) < BinarySide(c, q, p)) && (x == y <==> DecimalSide(m, p, q) == BinarySide(c, q, p))
  {
    InUnits(c, q, m, p);
    MidpointAt(Shl(c, q - UNIT), w0, w1, v0, v1, p);
  }

  lemma LowEnd(m: nat, p: int, u0: ULong, u1: ULong, w0: ULong, w1: ULong)
    requires u0 < 0x7FF0_0000 && Next(u0, u1) == (w0, w1)
    ensures Quarters(w0, w1) >= LowGap(w0, w1)
    ensures var x, y := 2 * DecimalSide(m, p, UNIT), At(u0, u1, p) + At(w0, w1, p);
      var d, e := DecimalSide(m, p, QuarterExp(w0)), BinarySide(Quarters(w0, w1) - LowGap(w0, w1), QuarterExp(w0), p);
      (x < y <==> d < e) && (x == y <==> d == e)
  {
    NextUnits(u0, u1);
    EndAt(Quarters(w0, w1) - LowGap(w0, w1), QuarterExp(w0), m, u0, u1, w0, w1, p);
  }

  lemma HighEnd(m: nat, p: int, w0: ULong, w1: ULong)
    requires w0 < 0x7FF0_0000
    ensures var (n0, n1) := Next(w0, w1);
      var x, y := 2 * DecimalSide(m, p, UNIT), At(w0, w1, p) + At(n0, n1, p);
      var d, e := DecimalSide(m, p, QuarterExp(w0)), BinarySide(Quarters(w0, w1) + HIGH_GAP, QuarterExp(w0), p);
      (x < y <==> d < e) && (x == y <==> d == e)
  {
    var (n0, n1) := Next(w0, w1);
    NextUnits(w0, w1);
    EndAt(Quarters(w0, w1) + HIGH_GAP, QuarterExp(w0), m, w0, w1, n0, n1, p);
  }

  // The interval of a double lies between the midpoints to its neighbours.
  lemma IntervalAt(m: nat, p: int, w0: ULong, w1: ULong)
    requires PositiveFinite(w0, w1)
    ensures Rank(w0, w1) > 0
    ensures var (u0, u1) := Previous(w0, w1); var (n0, n1) := Next(w0, w1);
      var x, low, high := 2 * DecimalSide(m, p, UNIT), At(u0, u1, p) + At(w0, w1, p), At(w0, w1, p) + At(n0, n1, p);
      && (ReadsBackTo(m, p, w0, w1, true) <==> low <= x <= high)
      && (ReadsBackTo(m, p, w0, w1, false) <==> low < x < high)
  {
    NextAfterPrevious(w0, w1);
    var (u0, u1) := Previous(w0, w1);
    LowEnd(m, p, u0, u1, w0, w1);
    HighEnd(m, p, w0, w1);
  }

  // Reading back, midpoints belonging to even doubles, is rounding to the nearest double, ties to even.
  lemma ReadsBackIsRounding(m: nat, p: int, w0: ULong, w1: ULong)
    requires PositiveFinite(w0, w1)
    ensures ReadsBackTo(m, p, w0, w1, w1 % 2 == 0) <==> RoundsToDouble(m, p, w0, w1)
    ensures ReadsBackTo(m, p, w0, w1, false) <==> RoundsAlone(m, p, w0, w1)
  {
    IntervalAt(m, p, w0, w1);
    NextAfterPrevious(w0, w1);
    NextUnits(w0, w1);
    var (u0, u1) := Previous(w0, w1);
    var (n0, n1) := Next(w0, w1);
    RankOrders(w0, w1, u0, u1);
    RankOrders(w0, w1, n0, n1);
    Neighbours(w0, w1, u0, u1, p);
    Neighbours(w0, w1, n0, n1, p);
    forall v0: ULong, v1: ULong | IsDouble(v0, v1) && (v0, v1) != (w0, w1)
      ensures ReadsBackTo(m, p, w0, w1, true) ==> Away(m, p, w0, w1) <= Away(m, p, v0, v1)
      ensures ReadsBackTo(m, p, w0, w1, false) ==> Away(m, p, w0, w1) < Away(m, p, v0, v1)
    {
      Neighbours(w0, w1, v0, v1, p);
    }
  }

  lemma NextIsOdd(w0: ULong, w1: ULong)
    requires w0 < 0x7FF0_0000 && w1 % 2 == 0
    ensures Next(w0, w1).1 % 2 == 1
  {}

  // Between two even doubles lies another.
  lemma EvenApart(w0: ULong, w1: ULong, v0: ULong, v1: ULong, p: int)
    requires w0 < 0x7FF0_0000 && IsDouble(v0, v1) && Rank(w0, w1) < Rank(v0, v1) && w1 % 2 == v1 % 2 == 0
    ensures var (n0, n1) := Next(w0, w1);
      IsDouble(n0, n1) && (n0, n1) != (w0, w1) && At(w0, w1, p) < At(n0, n1, p) < At(v0, v1, p)
  {
    var (n0, n1) := Next(w0, w1);
    NextUnits(w0, w1);
    NextIsOdd(w0, w1);
    AtOrder(w0, w1, n0, n1, p);
    RankOrders(n0, n1, v0, v1);
    Ascending(n0, n1, v0, v1);
    NextUnits(n0, n1);
    AtOrder(n0, n1, v0, v1, p);
  }

  // A decimal rounds to at most one double.
  lemma RoundsToOne(m: nat, p: int, w0: ULong, w1: ULong, v0: ULong, v1: ULong)
    requires w0 < 0x7FF0_0000 && IsDouble(v0, v1) && Rank(w0, w1) < Rank(v0, v1)
    ensures !(RoundsToDouble(m, p, w0, w1) && RoundsToDouble(m, p, v0, v1))
  {
    RankOrders(w0, w1, v0, v1);
    if RoundsToDouble(m, p, w0, w1) && RoundsToDouble(m, p, v0, v1) {
      assert Away(m, p, w0, w1) == Away(m, p, v0, v1);
      EvenApart(w0, w1, v0, v1, p);
    }
  }
}

/**
 * What a decimal means for a double, and the bridge to the fraction b / S of the digit generators: comparing
 * c times 2^q with m times 10^p is comparing two naturals, whatever the signs of the exponents.
 */
module Scaling {
  import opened Powers
  import opened Words
  import opened Doubles
  import opened Digits
  import opened DigitGen
  import opened Readback

  // c 2^q and m 10^p, both multiplied by the powers that make them whole.
  function BinarySide(c: nat, q: int, p: int): nat {
    Shl(Tens(c, Pos(-p)), Pos(q))
  }

  function DecimalSide(m: nat, p: int, q: int): nat {
    Shl(Tens(m, Pos(p)), Pos(-q))
  }

  // x / S times 10^k is c times 2^q.
  ghost predicate Measures(x: nat, S: nat, k: int, c: nat, q: int) {
    DecimalSide(x, k, q) == BinarySide(c, q, k) * S
  }

  // ---- linear in the scaled number ----

  lemma SidesSum(x: nat, y: nat, q: int, p: int)
    ensures BinarySide(x + y, q, p) == BinarySide(x, q, p) + BinarySide(y, q, p)
    ensures DecimalSide(x + y, p, q) == DecimalSide(x, p, q) + DecimalSide(y, p, q)
  {
    TensSum(x, y, Pos(-p));
    ShlSum(Tens(x, Pos(-p)), Tens(y, Pos(-p)), Pos(q));
    TensSum(x, y, Pos(p));
    ShlSum(Tens(x, Pos(p)), Tens(y, Pos(p)), Pos(-q));
  }

  lemma SidesOrder(x: nat, y: nat, q: int, p: int)
    ensures x < y <==> BinarySide(x, q, p) < BinarySide(y, q, p)
    ensures x == y <==> BinarySide(x, q, p) == BinarySide(y, q, p)
    ensures x < y <==> DecimalSide(x, p, q) < DecimalSide(y, p, q)
    ensures x == y <==> DecimalSide(x, p, q) == DecimalSide(y, p, q)
  {
    TensOrder(x, y, Pos(-p));
    ShlOrder(Tens(x, Pos(-p)), Tens(y, Pos(-p)), Pos(q));
    TensOrder(x, y, Pos(p));
    ShlOrder(Tens(x, Pos(p)), Tens(y, Pos(p)), Pos(-q));
  }

  lemma DecimalTimes(m: nat, p: int, q: int, S: nat)
    ensures DecimalSide(m * S, p, q) == DecimalSide(m, p, q) * S
  {
    TensTimes(m, Pos(p), S);
    ShlTimes(Tens(m, Pos(p)), Pos(-q), S);
  }

  lemma MeasuresSum(x: nat, y: nat, S: nat, k: int, c: nat, d: nat, q: int)
    requires Measures(x, S, k, c, q) && Measures(y, S, k, d, q)
    ensures Measures(x + y, S, k, c + d, q)
  {
    SidesSum(x, y, q, k);
    SidesSum(c, d, q, k);
    MulDist(BinarySide(c, q, k), BinarySide(d, q, k), S);
  }

  lemma MeasuresOrder(x: nat, y: nat, S: nat, k: int, c: nat, d: nat, q: int)
    requires S > 0 && Measures(x, S, k, c, q) && Measures(y, S, k, d, q)
    ensures x < y <==> c < d
    ensures x == y <==> c == d
  {
    SidesOrder(x, y, q, k);
    SidesOrder(c, d, q, k);
    MulCancel(BinarySide(c, q, k), BinarySide(d, q, k), S);
  }

  lemma MeasuresLess(x: nat, y: nat, S: nat, k: int, c: nat, d: nat, q: int)
    requires S > 0 && d <= c && Measures(x, S, k, c, q) && Measures(y, S, k, d, q)
    ensures y <= x && Measures(x - y, S, k, c - d, q)
  {
    MeasuresOrder(x, y, S, k, c, d, q);
    SidesSum(x - y, y, q, k);
    SidesSum(c - d, d, q, k);
    MulDist(BinarySide(c - d, q, k), BinarySide(d, q, k), S);
  }

  // The next smaller unit of the fraction.
  lemma MeasuresTenth(x: nat, S: nat, k: int, c: nat, q: int)
    requires Measures(x, S, k, c, q)
    ensures Measures(10 * x, S, k - 1, c, q)
  {
    if k > 0 {
      TensAdd(x, 1, k - 1);
      assert Tens(x, 1) == 10 * Tens(x, 0);
    } else {
      var n := -k;
      SidesTenfold(x, c, q, k);
      MulAssoc(10, BinarySide(c, q, k), S);
    }
  }

  lemma SidesTenfold(x: nat, c: nat, q: int, k: int)
    requires k <= 0
    ensures BinarySide(c, q, k - 1) == 10 * BinarySide(c, q, k)
    ensures DecimalSide(10 * x, k - 1, q) == 10 * DecimalSide(x, k, q)
  {
    assert Pos(-(k - 1)) == Pos(-k) + 1;
    TensShl(Tens(c, Pos(-k)), Pos(q), 1);
    TensShl(x, Pos(-q), 1);
    TenIsTens(Tens(c, Pos(-k)));
    TenIsTens(x);
    TenIsTens(BinarySide(c, q, k));
    TenIsTens(DecimalSide(x, k, q));
  }

  lemma TenIsTens(v: nat)
    ensures Tens(v, 1) == 10 * v
  {
    assert Tens(v, 1) == 10 * Tens(v, 0);
  }

  // ---- comparing a decimal with the fraction is comparing it with the double ----

  // Multiplying by 10^n what is measured in units of 10^k, and by 10^(k + n) on the other side.
  lemma SideTens(x: nat, k: int, q: int, n: nat)
    ensures DecimalSide(Tens(x, n), k, q) == Tens(DecimalSide(x, k, q), n)
    ensures Tens(BinarySide(x, q, k), n) == Shl(Tens(x, Pos(-k) + n), Pos(q))
    ensures DecimalSide(Tens(x, n), k, q) == Shl(Tens(x, n + Pos(k)), Pos(-q))
  {
    TensAdd(x, n, Pos(k));
    TensAdd(x, Pos(k), n);
    TensShl(Tens(x, Pos(k)), Pos(-q), n);
    TensAdd(x, Pos(-k), n);
    TensShl(Tens(x, Pos(-k)), Pos(q), n);
  }

  // How far both sides of the comparison at k exceed the one at p.
  function Excess(k: int, p: int): nat {
    Pos(-k) + Pos(k - p) - Pos(-p)
  }

  lemma FractionSide(y: nat, S: nat, k: int, c: nat, q: int, p: int)
    requires Measures(y, S, k, c, q)
    ensures DecimalSide(Tens(y, Pos(k - p)), k, q) == Tens(BinarySide(c, q, p), Excess(k, p)) * S
  {
    var n, t := Pos(k - p), Excess(k, p);
    SideTens(y, k, q, n);
    SideTens(c, k, q, n);
    SideTens(c, p, q, t);
    assert Pos(-k) + n == Pos(-p) + t;
    TensTimes(BinarySide(c, q, k), n, S);
  }

  lemma UnitsSide(m: nat, S: nat, k: int, q: int, p: int)
    ensures DecimalSide(Tens(m, Pos(p - k)) * S, k, q) == Tens(DecimalSide(m, p, q), Excess(k, p)) * S
  {
    var e, t := Pos(p - k), Excess(k, p);
    DecimalTimes(Tens(m, e), k, q, S);
    SideTens(m, k, q, e);
    SideTens(m, p, q, t);
    assert e + Pos(k) == Pos(p) + t;
    TensAdd(m, Pos(p), t);
    TensShl(Tens(m, Pos(p)), Pos(-q), t);
  }

  lemma PlaceCompare(y: nat, S: nat, k: int, c: nat, q: int, m: nat, p: int)
    requires S > 0 && Measures(y, S, k, c, q)
    ensures Tens(m, Pos(p - k)) * S < Tens(y, Pos(k - p)) <==> DecimalSide(m, p, q) < BinarySide(c, q, p)
    ensures Tens(m, Pos(p - k)) * S == Tens(y, Pos(k - p)) <==> DecimalSide(m, p, q) == BinarySide(c, q, p)
  {
    var u, y', t := Tens(m, Pos(p - k)) * S, Tens(y, Pos(k - p)), Excess(k, p);
    FractionSide(y, S, k, c, q, p);
    UnitsSide(m, S, k, q, p);
    SidesOrder(u, y', q, k);
    MulCancel(Tens(DecimalSide(m, p, q), t), Tens(BinarySide(c, q, p), t), S);
    TensOrder(DecimalSide(m, p, q), BinarySide(c, q, p), t);
  }

  // ---- the rounding interval of a double, in quarters of its last place ----

  function Quarters(w0: ULong, w1: ULong): nat {
    4 * Significand(w0, w1)
  }

  function QuarterExp(w0: ULong): int {
    Exponent(w0) - 2
  }

  // A normal power of two is only half as far from its lower neighbour, unless that is subnormal.
  function LowGap(w0: ULong, w1: ULong): nat {
    if w1 == 0 && w0 % FRAC_BITS == 0 && BiasedExp(w0) > 1 then 1 else 2
  }

  const HIGH_GAP: nat := 2

  // m 10^p lies between the midpoints to the neighbouring doubles; the midpoints belong when closed.
  ghost predicate ReadsBackTo(m: nat, p: int, w0: ULong, w1: ULong, closed: bool)
    requires PositiveFinite(w0, w1)
  {
    var c, q := Quarters(w0, w1), QuarterExp(w0);
    if closed then BinarySide(c - LowGap(w0, w1), q, p) <= DecimalSide(m, p, q) <= BinarySide(c + HIGH_GAP, q, p)
    else BinarySide(c - LowGap(w0, w1), q, p) < DecimalSide(m, p, q) < BinarySide(c + HIGH_GAP, q, p)
  }

  // The next larger double.
  function Next(w0: ULong, w1: ULong): (ULong, ULong)
    requires w0 < 0x7FF0_0000
  {
    if w1 == 0xFFFF_FFFF then (w0 + 1, 0) else (w0, w1 + 1)
  }

  // Neighbouring intervals meet: they cover the positive reals and overlap at most in an end point. Zero counts as a
  // neighbour, and so does two to the 1024, whose words are those of infinity.
  lemma IntervalsMeet(w0: ULong, w1: ULong)
    requires w0 < 0x7FF0_0000
    ensures var (v0, v1) := Next(w0, w1);
      var c, q, d, r := Quarters(w0, w1), QuarterExp(w0), Quarters(v0, v1), QuarterExp(v0);
      r >= q && d >= 4 && c + HIGH_GAP == Shl(d - LowGap(v0, v1), r - q) && c + 2 * HIGH_GAP == Shl(d, r - q)
  {
    var (v0, v1) := Next(w0, w1);
    var d := Quarters(v0, v1);
    assert Shl(d - LowGap(v0, v1), 1) == 2 * Shl(d - LowGap(v0, v1), 0) && Shl(d, 1) == 2 * Shl(d, 0);
  }

  // ---- from the fraction of the digit generators to the double ----

  // The fraction b / S is the double in units of 10^k, and mlo / S, mhi / S are its half gaps.
  ghost predicate IsFraction(b: nat, S: nat, mlo: nat, mhi: nat, k: int, w0: ULong, w1: ULong) {
    && S > 0
    && Measures(b, S, k, Quarters(w0, w1), QuarterExp(w0))
    && Measures(mlo, S, k, LowGap(w0, w1), QuarterExp(w0))
    && Measures(mhi, S, k, HIGH_GAP, QuarterExp(w0))
  }

  lemma ScaledEnds(s: Scale, n: nat)
    requires s.lo <= s.x
    ensures ScaleUp(s, n).x - ScaleUp(s, n).lo == Tens(s.x - s.lo, n)
    ensures ScaleUp(s, n).x + ScaleUp(s, n).hi == Tens(s.x + s.hi, n)
  {
    ScaleUpTens(s, n);
    TensSum(s.x - s.lo, s.lo, n);
    TensSum(s.x, s.hi, n);
  }

  lemma ReadsBackMeans(m: nat, p: int, b: nat, S: nat, mlo: nat, mhi: nat, k: int, w0: ULong, w1: ULong, closed: bool)
    requires PositiveFinite(w0, w1) && IsFraction(b, S, mlo, mhi, k, w0, w1)
    ensures ReadsBack(m, p, Scale(b, mlo, mhi), S, closed, k) <==> ReadsBackTo(m, p, w0, w1, closed)
  {
    var c, q := Quarters(w0, w1), QuarterExp(w0);
    MeasuresLess(b, mlo, S, k, c, LowGap(w0, w1), q);
    MeasuresSum(b, mhi, S, k, c, HIGH_GAP, q);
    PlaceCompare(b - mlo, S, k, c - LowGap(w0, w1), q, m, p);
    PlaceCompare(b + mhi, S, k, c + HIGH_GAP, q, m, p);
    ScaledEnds(Scale(b, mlo, mhi), Pos(k - p));
  }

  // The fraction lies between one and ten exactly when the double lies in the decade of 10^k.
  ghost predicate InDecade(c: nat, q: int, k: int) {
    DecimalSide(1, k, q) <= BinarySide(c, q, k) < DecimalSide(10, k, q)
  }

  lemma FirstDigit(b: nat, S: nat, k: int, c: nat, q: int)
    requires S > 0 && Measures(b, S, k, c, q)
    ensures InDecade(c, q, k) <==> S <= b < 10 * S
  {
    PlaceCompare(b, S, k, c, q, 1, k);
    PlaceCompare(b, S, k, c, q, 10, k);
    assert Tens(1, 0) * S == S && Tens(10, 0) * S == 10 * S;
  }

  // ---- correct rounding at a decimal place ----

  // units is the double in units of 10^p, rounded to the nearest integer, ties to even.
  ghost predicate RoundsTo(units: nat, p: int, w0: ULong, w1: ULong) {
    var c, q := Quarters(w0, w1), QuarterExp(w0);
    && (units > 0 ==> DecimalSide(2 * units - 1, p, q) <= BinarySide(2 * c, q, p))
    && BinarySide(2 * c, q, p) <= DecimalSide(2 * units + 1, p, q)
    && (units > 0 && DecimalSide(2 * units - 1, p, q) == BinarySide(2 * c, q, p) ==> units % 2 == 0)
    && (BinarySide(2 * c, q, p) == DecimalSide(2 * units + 1, p, q) ==> units % 2 == 0)
  }

  // The decimal is units times 10^p; no digits stand for zero.
  ghost predicate Denotes(out: Decimal, units: nat, p: int) {
    if out.digits == [] then units == 0
    else out.k - |out.digits| + 1 >= p && Tens(DigitsVal(out.digits), out.k - |out.digits| + 1 - p) == units
  }

  // Comparing m half units of place k - n with the fraction is comparing them with the double.
  lemma HalfPlace(b: nat, S: nat, k: int, c: nat, q: int, m: nat, n: nat)
    requires S > 0 && Measures(b, S, k, c, q)
    ensures m * S < 2 * Tens(b, n) <==> DecimalSide(m, k - n, q) < BinarySide(2 * c, q, k - n)
    ensures m * S == 2 * Tens(b, n) <==> DecimalSide(m, k - n, q) == BinarySide(2 * c, q, k - n)
  {
    MeasuresSum(b, b, S, k, c, c, q);
    TensSum(b, b, n);
    PlaceCompare(b + b, S, k, c + c, q, m, k - n);
    assert Tens(m, 0) == m;
  }

  lemma RoundingMeans(units: nat, b: nat, S: nat, k: int, n: nat, w0: ULong, w1: ULong)
    requires S > 0 && Measures(b, S, k, Quarters(w0, w1), QuarterExp(w0))
    requires NearestEven(units, Tens(b, n), S)
    ensures RoundsTo(units, k - n, w0, w1)
  {
    var c, q := Quarters(w0, w1), QuarterExp(w0);
    HalfUnits(units, S);
    if units > 0 {
      HalfPlace(b, S, k, c, q, 2 * units - 1, n);
    }
    HalfPlace(b, S, k, c, q, 2 * units + 1, n);
  }

  lemma HalfUnits(units: nat, S: nat)
    ensures (2 * units + 1) * S == 2 * (units * S) + S
    ensures units > 0 ==> (2 * units - 1) * S == 2 * (units * S) - S
  {
    MulAssoc(2, units, S);
    MulDist(2 * units, 1, S);
  }

  // An exact result is exact at every finer place.
  lemma {:induction false} ExactFiner(units: nat, x: nat, S: nat, j: nat)
    requires units * S == x && S > 0
    ensures NearestEven(Tens(units, j), Tens(x, j), S)
  {
    TensTimes(units, j, S);
  }

  lemma RepresentsDenotes(out: Decimal, units: nat, k: int, n: nat, j: nat)
    requires n > 0 && Represents(out, units, k, n) && out.digits != []
    ensures Denotes(out, Tens(units, j), k - n + 1 - j)
  {
    TensAdd(DigitsVal(out.digits), (out.k - |out.digits|) - (k - n), j);
  }

  // The decimal is the double rounded half-even at place p, without trailing zeros.
  ghost predicate Rounded(out: Decimal, p: int, w0: ULong, w1: ULong) {
    && (out.digits != [] ==> Proper(out))
    && exists units :: Denotes(out, units, p) && RoundsTo(units, p, w0, w1)
  }

  // ---- how close a decimal is ----

  function Off(m: nat, p: int, w0: ULong, w1: ULong): nat {
    var x, y := DecimalSide(m, p, QuarterExp(w0)), BinarySide(Quarters(w0, w1), QuarterExp(w0), p);
    if x < y then y - x else x - y
  }

  lemma OffMeans(m: nat, j: nat, b: nat, S: nat, mlo: nat, mhi: nat, k: int, w0: ULong, w1: ULong)
    requires S > 0 && Measures(b, S, k, Quarters(w0, w1), QuarterExp(w0))
    ensures DecimalSide(Distance(m, ScaleUp(Scale(b, mlo, mhi), j), S), k, QuarterExp(w0))
         == Tens(Off(m, k - j, w0, w1), Excess(k, k - j)) * S
  {
    var c, q, p, t := Quarters(w0, w1), QuarterExp(w0), k - j, Excess(k, k - j);
    var u, y, d, a, off := m * S, Tens(b, j), Distance(m, ScaleUp(Scale(b, mlo, mhi), j), S), DecimalSide(m, p, q), Off(m, p, w0, w1);
    var z := BinarySide(c, q, p);
    ScaleUpTens(Scale(b, mlo, mhi), j);
    PlaceCompare(b, S, k, c, q, m, p);
    FractionSide(b, S, k, c, q, p);
    UnitsSide(m, S, k, q, p);
    assert Tens(m, 0) == m;
    if u < y {
      SidesSum(u, d, q, k);
      TensSum(a, off, t);
      MulDist(Tens(a, t), Tens(off, t), S);
    } else {
      SidesSum(y, d, q, k);
      TensSum(z, off, t);
      MulDist(Tens(z, t), Tens(off, t), S);
    }
  }

  // No decimal with last place p that reads back is nearer to the double.
  ghost predicate NoCloser(units: nat, p: int, w0: ULong, w1: ULong, closed: bool)
    requires PositiveFinite(w0, w1)
  {
    forall m: nat :: ReadsBackTo(m, p, w0, w1, closed) ==> Off(units, p, w0, w1) <= Off(m, p, w0, w1)
  }

  lemma OffOrder(m: nat, units: nat, j: nat, b: nat, S: nat, mlo: nat, mhi: nat, k: int, w0: ULong, w1: ULong)
    requires S > 0 && Measures(b, S, k, Quarters(w0, w1), QuarterExp(w0))
    ensures var s := ScaleUp(Scale(b, mlo, mhi), j);
      Distance(m, s, S) < Distance(units, s, S) <==> Off(m, k - j, w0, w1) < Off(units, k - j, w0, w1)
  {
    var t := Excess(k, k - j);
    var s := ScaleUp(Scale(b, mlo, mhi), j);
    OffMeans(m, j, b, S, mlo, mhi, k, w0, w1);
    OffMeans(units, j, b, S, mlo, mhi, k, w0, w1);
    SidesOrder(Distance(m, s, S), Distance(units, s, S), QuarterExp(w0), k);
    MulCancel(Tens(Off(m, k - j, w0, w1), t), Tens(Off(units, k - j, w0, w1), t), S);
    TensOrder(Off(m, k - j, w0, w1), Off(units, k - j, w0, w1), t);
  }

  lemma ClosestMeans(units: nat, j: nat, b: nat, S: nat, mlo: nat, mhi: nat, k: int, w0: ULong, w1: ULong, closed: bool)
    requires PositiveFinite(w0, w1) && IsFraction(b, S, mlo, mhi, k, w0, w1)
    requires Closest(units, ScaleUp(Scale(b, mlo, mhi), j), S, closed)
    ensures NoCloser(units, k - j, w0, w1, closed)
  {
    var p := k - j;
    forall m: nat | ReadsBackTo(m, p, w0, w1, closed)
      ensures Off(units, p, w0, w1) <= Off(m, p, w0, w1)
    {
      ReadsBackMeans(m, p, b, S, mlo, mhi, k, w0, w1, closed);
      assert Tens(m, 0) == m;
      OffOrder(m, units, j, b, S, mlo, mhi, k, w0, w1);
    }
  }

  // ---- the one exit that need not be closest does not happen for doubles ----

  lemma {:induction false} ShlNotFive(k: nat)
    ensures Shl(1, k) % 5 != 0
  {
    if k > 0 { ShlNotFive(k - 1); }
  }

  lemma MeasuresTenfold(x: nat, S: nat, k: int, c: nat, q: int)
    requires Measures(x, S, k, c, q)
    ensures Measures(10 * x, S, k, 10 * c, q)
  {
    MeasuresSum(x, x, S, k, c, c, q);
    MeasuresSum(2 * x, 2 * x, S, k, 2 * c, 2 * c, q);
    MeasuresSum(4 * x, 4 * x, S, k, 4 * c, 4 * c, q);
    MeasuresSum(8 * x, 2 * x, S, k, 8 * c, 2 * c, q);
  }

  // Half gaps as wide as a tenth of the number make it subnormal, and a subnormal's midpoint is no power of ten.
  lemma WideGapIsSubnormal(b: nat, S: nat, mlo: nat, mhi: nat, k: int, w0: ULong, w1: ULong)
    requires PositiveFinite(w0, w1) && IsFraction(b, S, mlo, mhi, k, w0, w1)
    requires b < 10 * S && S <= mlo + mhi
    ensures QuarterExp(w0) == -1076 && Quarters(w0, w1) < 40
  {
    var q := QuarterExp(w0);
    MeasuresSum(mlo, mhi, S, k, LowGap(w0, w1), HIGH_GAP, q);
    MeasuresTenfold(mlo + mhi, S, k, LowGap(w0, w1) + HIGH_GAP, q);
    MeasuresOrder(b, 10 * (mlo + mhi), S, k, Quarters(w0, w1), 10 * (LowGap(w0, w1) + HIGH_GAP), q);
  }

  lemma NotATenth(c: nat, p: int)
    requires c < 42
    ensures DecimalSide(1, p, -1076) != BinarySide(c, -1076, p)
  {
    if p >= 0 {
      TensOrder(0, 1, Pos(p));
      TensIsPow(0, Pos(p));
      ShlGrows(Tens(1, Pos(p)), 8, 1076);
      EightBits(Tens(1, Pos(p)));
    } else {
      ShlNotFive(1076);
      FiveDivides(Tens(c, Pos(-p)), Tens(c, Pos(-p) - 1));
    }
  }

  lemma FiveDivides(v: nat, w: nat)
    requires v == 10 * w
    ensures v % 5 == 0
  {}

  lemma NoNineAtTheTop(b: nat, S: nat, mlo: nat, mhi: nat, k: int, w0: ULong, w1: ULong)
    requires PositiveFinite(w0, w1) && IsFraction(b, S, mlo, mhi, k, w0, w1)
    requires b < 10 * S
    ensures !(b + mhi == 10 * S && S <= mlo + mhi)
  {
    if b + mhi == 10 * S && S <= mlo + mhi {
      WideGapIsSubnormal(b, S, mlo, mhi, k, w0, w1);
      var c, q := Quarters(w0, w1), QuarterExp(w0);
      MeasuresSum(b, mhi, S, k, c, HIGH_GAP, q);
      TenIsTens(1);
      PlaceCompare(b + mhi, S, k, c + HIGH_GAP, q, 1, k + 1);
      NotATenth(c + HIGH_GAP, k + 1);
    }
  }

  // ---- what the generators' results mean for the double ----

  // No decimal below the limit, whatever its exponent, reads back as the double.
  ghost predicate NoneBelowTo(limit: nat, w0: ULong, w1: ULong, closed: bool)
    requires PositiveFinite(w0, w1)
  {
    forall m: nat, p: int :: m < limit ==> !ReadsBackTo(m, p, w0, w1, closed)
  }

  // The decimal reads back as the double, none with fewer digits does, and none of its length is nearer.
  ghost predicate IsShortest(out: Decimal, w0: ULong, w1: ULong, closed: bool)
    requires PositiveFinite(w0, w1)
  {
    && Proper(out)
    && ReadsBackTo(DigitsVal(out.digits), out.k - |out.digits| + 1, w0, w1, closed)
    && NoneBelowTo(Pow(10, |out.digits| - 1), w0, w1, closed)
    && exists units, p :: Denotes(out, units, p) && NoCloser(units, p, w0, w1, closed)
  }

  lemma NoneBelowMeans(limit: nat, b: nat, S: nat, mlo: nat, mhi: nat, k: int, w0: ULong, w1: ULong, closed: bool)
    requires PositiveFinite(w0, w1) && IsFraction(b, S, mlo, mhi, k, w0, w1)
    requires NoneBelow(limit, Scale(b, mlo, mhi), S, closed, k)
    ensures NoneBelowTo(limit, w0, w1, closed)
  {
    forall m: nat, p: int | m < limit
      ensures !ReadsBackTo(m, p, w0, w1, closed)
    {
      ReadsBackMeans(m, p, b, S, mlo, mhi, k, w0, w1, closed);
    }
  }

  lemma FinishMeans(o: Outcome, out: Decimal, b: nat, S: nat, mlo: nat, mhi: nat, k: int, w0: ULong, w1: ULong, closed: bool)
    requires PositiveFinite(w0, w1) && IsFraction(b, S, mlo, mhi, k, w0, w1) && b < 10 * S
    requires o.n > 0 && Finishes(o, out, ScaleUp(Scale(b, mlo, mhi), o.n - 1), S, closed, k)
    requires NoneBelow(Pow(10, |out.digits| - 1), Scale(b, mlo, mhi), S, closed, k)
    requires ReadsBack(DigitsVal(out.digits), out.k - |out.digits| + 1, Scale(b, mlo, mhi), S, closed, k)
    ensures IsShortest(out, w0, w1, closed)
  {
    NoNineAtTheTop(b, S, mlo, mhi, k, w0, w1);
    ClosestMeans(o.units, o.n - 1, b, S, mlo, mhi, k, w0, w1, closed);
    RepresentsDenotes(out, o.units, k, o.n, 0);
    assert Tens(o.units, 0) == o.units;
    assert Denotes(out, o.units, k - (o.n - 1));
    NoneBelowMeans(Pow(10, |out.digits| - 1), b, S, mlo, mhi, k, w0, w1, closed);
    ReadsBackMeans(DigitsVal(out.digits), out.k - |out.digits| + 1, b, S, mlo, mhi, k, w0, w1, closed);
  }

  lemma RoundsMeans(o: Outcome, out: Decimal, b: nat, S: nat, k: int, w0: ULong, w1: ULong)
    requires S > 0 && Measures(b, S, k, Quarters(w0, w1), QuarterExp(w0))
    requires o.n > 0 && Rounds(o, out, Tens(b, o.n - 1), S, k)
    ensures Rounded(out, k - o.n + 1, w0, w1)
  {
    RoundingMeans(o.units, b, S, k, o.n - 1, w0, w1);
    RepresentsDenotes(out, o.units, k, o.n, 0);
    assert Tens(o.units, 0) == o.units;
  }

  // A result that used up the fraction early is exact, so it is also the double rounded at the place asked for.
  lemma EarlyRoundsMeans(o: Outcome, out: Decimal, n: nat, b: nat, S: nat, k: int, w0: ULong, w1: ULong)
    requires S > 0 && Measures(b, S, k, Quarters(w0, w1), QuarterExp(w0))
    requires 0 < o.n <= n && Rounds(o, out, Tens(b, o.n - 1), S, k)
    requires o.n < n ==> o.units * S == Tens(b, o.n - 1)
    ensures Rounded(out, k - n + 1, w0, w1)
  {
    if o.n == n {
      RoundsMeans(o, out, b, S, k, w0, w1);
    } else {
      var j := n - o.n;
      ExactFiner(o.units, Tens(b, o.n - 1), S, j);
      TensAdd(b, o.n - 1, j);
      RoundingMeans(Tens(o.units, j), b, S, k, n - 1, w0, w1);
      RepresentsDenotes(out, o.units, k, o.n, j);
    }
  }

  // Modes 0, 1, 4 and 5: the shortest decimal that reads back, or, when that has more than ilim digits, the
  // double correctly rounded to ilim digits.
  ghost predicate ShortestOrCut(out: Decimal, ilim: int, k: int, w0: ULong, w1: ULong, closed: bool)
    requires PositiveFinite(w0, w1)
  {
    || (IsShortest(out, w0, w1, closed) && (ilim > 0 ==> |out.digits| <= ilim))
    || (ilim > 0 && NoneBelowTo(Pow(10, ilim), w0, w1, closed) && Rounded(out, k - ilim + 1, w0, w1))
  }

  lemma GapsOrdered(b: nat, S: nat, mlo: nat, mhi: nat, k: int, w0: ULong, w1: ULong)
    requires PositiveFinite(w0, w1) && IsFraction(b, S, mlo, mhi, k, w0, w1)
    ensures 0 < mlo <= mhi && mlo < b
  {
    var q := QuarterExp(w0);
    MeasuresOrder(mhi, mlo, S, k, HIGH_GAP, LowGap(w0, w1), q);
    MeasuresOrder(mlo, b, S, k, LowGap(w0, w1), Quarters(w0, w1), q);
    SidesOrder(0, LowGap(w0, w1), q, k);
    if mlo == 0 {
      TensIsPow(0, Pos(k));
      ShlZero(Pos(-q));
      MulStrict(0, BinarySide(LowGap(w0, w1), q, k), S);
    }
  }

  lemma ShortestMeans(b: nat, S: nat, mlo: nat, mhi: nat, closed: bool, ilim: int, k: int, w0: ULong, w1: ULong)
    requires PositiveFinite(w0, w1) && IsFraction(b, S, mlo, mhi, k, w0, w1)
    requires S <= b < 10 * S
    ensures mlo > 0 && ShortestOrCut(Shortest(b, S, mlo, mhi, closed, ilim, [], k), ilim, k, w0, w1, closed)
  {
    GapsOrdered(b, S, mlo, mhi, k, w0, w1);
    var out := Shortest(b, S, mlo, mhi, closed, ilim, [], k);
    var o, s := ShortestIsShortest(b, S, mlo, mhi, closed, ilim, k);
    ScaleUpTens(Scale(b, mlo, mhi), o.n - 1);
    if IsCut(o, out, s, S, closed, ilim, k) && NoneBelow(Pow(10, o.n), Scale(b, mlo, mhi), S, closed, k) {
      RoundsMeans(o, out, b, S, k, w0, w1);
      NoneBelowMeans(Pow(10, o.n), b, S, mlo, mhi, k, w0, w1, closed);
    } else {
      FinishMeans(o, out, b, S, mlo, mhi, k, w0, w1, closed);
    }
  }

  // Modes 2 and 3: the double correctly rounded to ilim digits.
  lemma FixedMeans(b: nat, S: nat, ilim: nat, k: int, w0: ULong, w1: ULong)
    requires S > 0 && Measures(b, S, k, Quarters(w0, w1), QuarterExp(w0))
    requires S <= b < 10 * S && ilim > 0
    ensures var out := Fixed(b, S, ilim, [], k);
      Rounded(out, k - ilim + 1, w0, w1) && 0 < |out.digits| <= ilim
  {
    var s0 := Scale(b, 0, 0);
    var o := FixedOutcome(b, S, ilim, [], k, s0);
    ScaleUpTens(s0, o.n - 1);
    EarlyRoundsMeans(o, Fixed(b, S, ilim, [], k), ilim, b, S, k, w0, w1);
  }
}

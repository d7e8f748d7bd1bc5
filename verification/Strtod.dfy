/** Conversion from decimal digits: the number of a digit string, and the exact test of an approximation. */
module Strtod {
  import opened Powers
  import opened Words
  import opened BigInts
  import opened BigArith
  import opened FivePowers
  import opened Doubles
  import opened Digits
  import opened Readback
  import opened Scaling
  import opened Nearest
  import opened DigitLoops
  import opened Dtoa

  // ---- from digits to a number ----

  // The text holds the digits, with a decimal point of dplen characters after the first nd0 of them.
  ghost predicate Spells(s: seq<nat>, ds: seq<nat>, nd0: nat, dplen: nat) {
    && nd0 <= |ds| && |ds| + dplen <= |s|
    && (forall i :: 0 <= i < nd0 ==> s[i] == ds[i])
    && (forall i :: nd0 <= i < |ds| ==> s[i + dplen] == ds[i])
  }

  method AddDigit(b: Bigint, d: nat) returns (r: Bigint)
    requires Num(b) && b.wds >= 1 && d <= 9
    modifies b, b.x
    ensures r == b || (fresh(r) && fresh(r.x))
    ensures Num(r) && r.wds >= 1 && r.Value() == old(b.Value()) * 10 + d
  {
    r := MultAdd(b, 10, d);
  }

  // The number of a digit string whose first nine digits have the value y9.
  method S2b(s: seq<nat>, nd0: nat, nd: nat, y9: ULong, dplen: nat, ghost ds: seq<nat>) returns (b: Bigint)
    requires Spells(s, ds, nd0, dplen) && |ds| == nd > 0 && AreDigits(ds)
    requires y9 == Prefix(ds, if nd < 9 then nd else 9)
    ensures fresh(b) && fresh(b.x)
    ensures Num(b) && b.wds >= 1 && b.Value() == DigitsVal(ds)
  {
    b := I2b(y9);
    var i := 9;
    while i < nd0
      invariant 9 <= i && (nd0 >= 9 ==> i <= nd0) && fresh(b) && fresh(b.x)
      invariant Num(b) && b.wds >= 1 && b.Value() == Prefix(ds, if nd < i then nd else i)
      invariant nd0 < 9 ==> i == 9
    {
      b := AddDigit(b, s[i]);
      i := i + 1;
    }
    while i < nd
      invariant 9 <= i && nd0 <= i && (nd >= 9 ==> i <= nd) && fresh(b) && fresh(b.x)
      invariant Num(b) && b.wds >= 1 && b.Value() == Prefix(ds, if nd < i then nd else i)
    {
      assert s[i + dplen] == ds[i];
      b := AddDigit(b, s[i + dplen]);
      i := i + 1;
    }
  }

  // ---- the exponents of the three numbers compared ----

  const P: nat := 53
  const EMIN: int := -1022

  // The exponent of half a unit in the last place of v 2^q, where v has n bits.
  function HalfExp(q: int, n: nat): int {
    if q + n - 1 < EMIN then EMIN - P else q + n - 1 - P
  }

  // An approximation is scaled up by two to the 2 P only for decimal exponents far below.
  ghost predicate ScaleAllowed(scale: nat, e: int) {
    scale == 0 || (scale == 2 * P && e <= -240)
  }

  // The number, the decimal and half a unit in the last place, brought to one scale.
  method Exponents(e: int, bbe: int, bbbits: nat, scale: nat) returns (bb2: nat, bd2: nat, bs2: nat, bb5: nat, bd5: nat)
    requires ScaleAllowed(scale, e) && bbe >= -1074 && bbbits <= P
    ensures bb2 - bd2 == bbe - scale - e && bs2 - bd2 == HalfExp(bbe - scale, bbbits) - e
    ensures bb5 == Pos(-e) && bd5 == Pos(e)
  {
    var b2: int, d2: int, s2: int;
    if e >= 0 {
      b2, bb5, d2, bd5 := 0, 0, e, e;
    } else {
      b2, bb5, d2, bd5 := -e, -e, 0, 0;
    }
    if bbe >= 0 {
      b2 := b2 + bbe;
    } else {
      d2 := d2 - bbe;
    }
    s2 := b2;
    var j: int := bbe - scale;
    if j + bbbits - 1 < EMIN {
      j := j + P - EMIN;
    } else {
      j := P + 1 - bbbits;
    }
    b2, d2 := b2 + j, d2 + j + scale;
    var i := if b2 < d2 then b2 else d2;
    if i > s2 {
      i := s2;
    }
    if i > 0 {
      b2, d2, s2 := b2 - i, d2 - i, s2 - i;
    }
    bb2, bd2, bs2 := b2, d2, s2;
  }

  // ---- numbers at one scale ----

  // Three pairs differ by one power of two.
  ghost predicate SameScale(x: nat, x': nat, y: nat, y': nat, z: nat, z': nat, m: nat, n: nat) {
    Shl(x, m) == Shl(x', n) && Shl(y, m) == Shl(y', n) && Shl(z, m) == Shl(z', n)
  }

  function Gap(x: nat, y: nat): nat {
    if x < y then y - x else x - y
  }

  lemma ScaledGap(x: nat, y: nat, m: nat)
    ensures Shl(Gap(x, y), m) == Gap(Shl(x, m), Shl(y, m))
  {
    ShlOrder(x, y, m);
    if x < y { ShlSum(x, y - x, m); } else { ShlSum(y, x - y, m); }
  }

  lemma SameDecision(x: nat, x': nat, y: nat, y': nat, z: nat, z': nat, m: nat, n: nat)
    requires SameScale(x, x', y, y', z, z', m, n)
    ensures x < y <==> x' < y'
    ensures Gap(x, y) < z <==> Gap(x', y') < z'
    ensures Gap(x, y) == z <==> Gap(x', y') == z'
  {
    ShlOrder(x, y, m);
    ShlOrder(x', y', n);
    ScaledGap(x, y, m);
    ScaledGap(x', y', n);
    ShlOrder(Gap(x, y), z, m);
    ShlOrder(Gap(x', y'), z', n);
  }

  lemma BinaryForm(v: nat, t: nat, u: int, e: int)
    ensures BinarySide(Shl(v, t), u, e) == Sc(v, Pos(-e), t + Pos(-e) + Pos(u))
  {
    TensSplit(Shl(v, t), Pos(-e));
    ShlFives(v, Pos(-e), t);
    ShlAdd(Fives(v, Pos(-e)), t, Pos(-e));
    ShlAdd(Fives(v, Pos(-e)), t + Pos(-e), Pos(u));
  }

  lemma DecimalForm(m: nat, e: int, u: int)
    ensures DecimalSide(m, e, u) == Sc(m, Pos(e), Pos(e) + Pos(-u))
  {
    TensSplit(m, Pos(e));
    ShlAdd(Fives(m, Pos(e)), Pos(e), Pos(-u));
  }

  lemma ScShift(v: nat, a: nat, c: nat, m: nat, d: nat, n: nat)
    requires c + m == d + n
    ensures Shl(Sc(v, a, c), m) == Shl(Sc(v, a, d), n)
  {
    ShlAdd(Fives(v, a), c, m);
    ShlAdd(Fives(v, a), d, n);
  }

  // The three big numbers are the double v 2^Q, the decimal d 10^e and 2^h at one scale.
  lemma OneScale(v: nat, Q: int, d: nat, e: int, h: int, u: int, bb2: nat, bd2: nat, bs2: nat) returns (m: nat, n: nat)
    requires u <= Q && u <= h && bb2 - bd2 == Q - e && bs2 - bd2 == h - e
    ensures SameScale(Sc(v, Pos(-e), bb2), BinarySide(Shl(v, Q - u), u, e),
                      Sc(d, Pos(e), bd2), DecimalSide(d, e, u),
                      Sc(1, Pos(-e), bs2), BinarySide(Shl(1, h - u), u, e), m, n)
  {
    BinaryForm(v, Q - u, u, e);
    BinaryForm(1, h - u, u, e);
    DecimalForm(d, e, u);
    var D := Pos(e) + Pos(-u);
    m, n := Pos(D - bd2), Pos(bd2 - D);
    ScShift(v, Pos(-e), bb2, m, Q - u + Pos(-e) + Pos(u), n);
    ScShift(1, Pos(-e), bs2, m, h - u + Pos(-e) + Pos(u), n);
    ScShift(d, Pos(e), bd2, m, D, n);
  }

  // ---- the test ----

  // The double c 2^q, the decimal d 10^e and half a unit 2^h as naturals at one scale.
  ghost function DoubleAt(c: nat, q: int, h: int, e: int): nat {
    var u := if q < h then q else h;
    BinarySide(Shl(c, q - u), u, e)
  }

  ghost function DecimalAt(d: nat, q: int, h: int, e: int): nat {
    DecimalSide(d, e, if q < h then q else h)
  }

  ghost function HalfAt(q: int, h: int, e: int): nat {
    var u := if q < h then q else h;
    BinarySide(Shl(1, h - u), u, e)
  }

  // How the double compares with the decimal, and their distance with half a unit in the last place.
  ghost predicate Decides(c: nat, q: int, h: int, d: nat, e: int, dsign: bool, i: int) {
    var rv, input, half := DoubleAt(c, q, h, e), DecimalAt(d, q, h, e), HalfAt(q, h, e);
    && (dsign <==> rv < input)
    && (i < 0 <==> Gap(rv, input) < half)
    && (i == 0 <==> Gap(rv, input) == half)
  }

  lemma {:induction false} BitsFit(c: nat, n: nat)
    requires HasBits(c, n) && c < Shl(1, P)
    ensures n <= P
  {
    if n > P { ShlGrows(1, P, n - 1); }
  }

  lemma SignificandBits(v: nat, t: nat, bits: nat, w0: ULong, w1: ULong)
    requires PositiveFinite(w0, w1) && Shl(v, t) == Significand(w0, w1) && HasBits(v, bits)
    ensures bits + t <= P && HasBits(Significand(w0, w1), bits + t)
  {
    Pow52();
    assert Shl(1, P) == 2 * Shl(1, 52);
    ShlHasBits(v, bits, t);
    BitsFit(Significand(w0, w1), bits + t);
  }

  // The odd part of the significand with its own exponent is the same double.
  lemma OddPart(v: nat, t: nat, c: nat, q: int, h: int, d: nat, e: int, bb2: nat, bd2: nat, bs2: nat)
    returns (m: nat, n: nat)
    requires Shl(v, t) == c && bb2 - bd2 == t + q - e && bs2 - bd2 == h - e
    ensures SameScale(Sc(v, Pos(-e), bb2), DoubleAt(c, q, h, e), Sc(d, Pos(e), bd2), DecimalAt(d, q, h, e),
                      Sc(1, Pos(-e), bs2), HalfAt(q, h, e), m, n)
  {
    var u := if q < h then q else h;
    ShlAdd(v, t, q - u);
    m, n := OneScale(v, t + q, d, e, h, u, bb2, bd2, bs2);
  }

  // The test on the three numbers is the test on the double, the decimal and half a unit.
  lemma OddPartDecides(v: nat, t: nat, c: nat, q: int, h: int, d: nat, e: int, bb2: nat, bd2: nat, bs2: nat, dsign: bool, i: int)
    requires Shl(v, t) == c && bb2 - bd2 == t + q - e && bs2 - bd2 == h - e
    requires var bb, bd, bs := Sc(v, Pos(-e), bb2), Sc(d, Pos(e), bd2), Sc(1, Pos(-e), bs2);
      (dsign <==> bb < bd) && (i < 0 <==> Gap(bb, bd) < bs) && (i == 0 <==> Gap(bb, bd) == bs)
    ensures Decides(c, q, h, d, e, dsign, i)
  {
    var m, n := OddPart(v, t, c, q, h, d, e, bb2, bd2, bs2);
    SameDecision(Sc(v, Pos(-e), bb2), DoubleAt(c, q, h, e), Sc(d, Pos(e), bd2), DecimalAt(d, q, h, e),
                 Sc(1, Pos(-e), bs2), HalfAt(q, h, e), m, n);
  }

  method CopyOf(b: Bigint) returns (r: Bigint)
    requires Num(b) && b.Value() > 0
    ensures fresh(r) && fresh(r.x) && Num(r) && r.Value() == b.Value()
  {
    HasWords(b);
    r := new Bigint(b.k);
    Bcopy(r, b);
  }

  // The sign and size of the difference, against half a unit.
  method CompareDifference(bb: Bigint, bd: Bigint, bs: Bigint) returns (dsign: bool, i: int)
    requires Num(bb) && Num(bd) && Num(bs) && bb.Value() > 0 && bd.Value() > 0 && bs.Value() > 0
    ensures dsign <==> bb.Value() < bd.Value()
    ensures i < 0 <==> Gap(bb.Value(), bd.Value()) < bs.Value()
    ensures i == 0 <==> Gap(bb.Value(), bd.Value()) == bs.Value()
  {
    HasWords(bb);
    HasWords(bd);
    HasWords(bs);
    var delta := Diff(bb, bd);
    dsign := delta.sign == 1;
    i := Cmp(delta, bs);
  }

  method Shifted(b: Bigint, n: nat) returns (r: Bigint)
    requires Num(b) && b.Value() > 0
    ensures r == b || (fresh(r) && fresh(r.x))
    ensures Num(r) && r.Value() == Shl(b.Value(), n) && r.Value() > 0
  {
    ShlPositive(b.Value(), n);
    r := ShiftUp(b, n);
  }

  method RaiseDecimal(mem: MemInfo, bd0: Bigint, bd5: nat, bd2: nat) returns (bd: Bigint)
    requires mem.Valid() && Num(bd0) && bd0.Value() > 0
    modifies mem
    ensures fresh(bd) && fresh(bd.x)
    ensures Num(bd) && bd.Value() == Sc(bd0.Value(), bd5, bd2) && bd.Value() > 0
  {
    bd := CopyOf(bd0);
    bd := RaiseFives(mem, bd, bd5);
    bd := Shifted(bd, bd2);
  }

  method RaiseDouble(mem: MemInfo, bb0: Bigint, bb5: nat, bb2: nat, bs2: nat) returns (bb: Bigint, bs: Bigint)
    requires mem.Valid() && mem.Outside(bb0) && Num(bb0) && bb0.Value() > 0
    modifies mem
    ensures mem.Valid() && mem.Outside(bb) && mem.Outside(bs) && fresh(mem.owned - old(mem.owned))
    ensures bb == bb0 || (fresh(bb) && fresh(bb.x))
    ensures Num(bb) && bb.Value() == Sc(bb0.Value(), bb5, bb2) && bb.Value() > 0
    ensures Num(bs) && bs.Value() == Sc(1, bb5, bs2) && bs.Value() > 0
  {
    bb, bs := RaiseBoth(mem, bb0, bb5);
    bb := Shifted(bb, bb2);
    bs := Shifted(bs, bs2);
  }

  // The three numbers, each raised to its powers of five and two.
  method Raise(bd0: Bigint, bb0: Bigint, bb2: nat, bd2: nat, bs2: nat, bb5: nat, bd5: nat)
    returns (bb: Bigint, bd: Bigint, bs: Bigint)
    requires Num(bd0) && bd0.Value() > 0 && Num(bb0) && bb0.Value() > 0
    ensures Num(bb) && bb.Value() == Sc(bb0.Value(), bb5, bb2) && bb.Value() > 0
    ensures Num(bd) && bd.Value() == Sc(bd0.Value(), bd5, bd2) && bd.Value() > 0
    ensures Num(bs) && bs.Value() == Sc(1, bb5, bs2) && bs.Value() > 0
  {
    var mem := new MemInfo();
    bb, bs := RaiseDouble(mem, bb0, bb5, bb2, bs2);
    bd := RaiseDecimal(mem, bd0, bd5, bd2);
  }

  // The error of the approximation w0, w1, standing for itself over 2^scale, to the decimal bd0 times 10^e.
  method ErrorTest(bd0: Bigint, e: int, w0: ULong, w1: ULong, scale: nat) returns (dsign: bool, i: int)
    requires PositiveFinite(w0, w1) && ScaleAllowed(scale, e)
    requires Num(bd0) && bd0.Value() > 0
    ensures exists n :: && HasBits(Significand(w0, w1), n)
                        && Decides(Significand(w0, w1), Exponent(w0) - scale, HalfExp(Exponent(w0) - scale, n),
                                   bd0.Value(), e, dsign, i)
  {
    var bb, bbe, bbbits := D2b(w0, w1);
    ghost var v, t, q := bb.Value(), bbe - Exponent(w0), Exponent(w0) - scale;
    SignificandBits(v, t, bbbits, w0, w1);
    ghost var n, h := bbbits + t, HalfExp(q, bbbits + t);
    var bb2, bd2, bs2, bb5, bd5 := Exponents(e, bbe, bbbits, scale);
    var bd, bs;
    bb, bd, bs := Raise(bd0, bb, bb2, bd2, bs2, bb5, bd5);
    dsign, i := CompareDifference(bb, bd, bs);
    OddPartDecides(v, t, Significand(w0, w1), q, h, bd0.Value(), e, bb2, bd2, bs2, dsign, i);
    assert HasBits(Significand(w0, w1), n);
  }

  // ---- the test agrees with the rounding interval of the digit generator ----

  // Halving the unit doubles the count, and may double the decimal's.
  lemma FinerUnit(x: nat, m: nat, p: int, q: int)
    ensures q > 0 ==> BinarySide(2 * x, q - 1, p) == BinarySide(x, q, p) && DecimalSide(m, p, q - 1) == DecimalSide(m, p, q)
    ensures q <= 0 ==> BinarySide(2 * x, q - 1, p) == 2 * BinarySide(x, q, p)
                       && DecimalSide(m, p, q - 1) == 2 * DecimalSide(m, p, q)
  {
    TensOfTwo(x, Pos(-p));
    var y := Tens(x, Pos(-p));
    if q > 0 {
      ShlAdd(y, 1, q - 1);
      assert Shl(y, 1) == 2 * Shl(y, 0);
    }
  }

  lemma HalfIsBelow(w0: ULong, w1: ULong, n: nat)
    requires PositiveFinite(w0, w1) && HasBits(Significand(w0, w1), n)
    ensures HalfExp(Exponent(w0), n) == Exponent(w0) - 1
  {
    var c := Significand(w0, w1);
    Pow52();
    assert Shl(1, P) == 2 * Shl(1, 52);
    BitsFit(c, n);
    if BiasedExp(w0) != 0 && n < P {
      ShlGrows(1, n, 52);
    }
  }

  // The distance against half a unit is the comparison with the two midpoints; the lower one may be nearer.
  lemma Midpoints(rv: nat, half: nat, input: nat, below: int, low: nat, above: int, dsign: bool, i: int)
    requires low <= half && below == rv - low && above == rv + half
    requires dsign <==> rv < input
    requires (i < 0 <==> Gap(rv, input) < half) && (i == 0 <==> Gap(rv, input) == half)
    ensures below <= input <= above ==> i <= 0
    ensures below < input < above ==> i < 0
    ensures i <= 0 && (dsign || low == half) ==> below <= input <= above
    ensures i < 0 && (dsign || low == half) ==> below < input < above
  {}

  // The interval in quarters of a unit, and the three numbers of the test, at the scale of the interval.
  lemma TestScale(m: nat, p: int, w0: ULong, w1: ULong) returns (rv: nat, half: nat, input: nat, low: nat)
    requires PositiveFinite(w0, w1)
    ensures var c, q, h := Significand(w0, w1), Exponent(w0), Exponent(w0) - 1;
      && SameScale(DoubleAt(c, q, h, p), rv, DecimalAt(m, q, h, p), input, HalfAt(q, h, p), half, if q > 1 then 0 else 1, 0)
      && input == DecimalSide(m, p, QuarterExp(w0)) && low <= half && (LowGap(w0, w1) == 2 ==> low == half)
      && BinarySide(Quarters(w0, w1) - LowGap(w0, w1), QuarterExp(w0), p) == rv - low
      && BinarySide(Quarters(w0, w1) + HIGH_GAP, QuarterExp(w0), p) == rv + half
  {
    var c, q, g := Significand(w0, w1), Exponent(w0), LowGap(w0, w1);
    FinerUnit(2 * c, m, p, q - 1);
    FinerUnit(1, m, p, q - 1);
    assert Shl(c, 1) == 2 * Shl(c, 0) && Shl(1, 0) == 1;
    rv, half, input, low := BinarySide(4 * c, q - 2, p), BinarySide(2, q - 2, p), DecimalSide(m, p, q - 2), BinarySide(g, q - 2, p);
    SidesSum(4 * c - g, g, q - 2, p);
    SidesSum(4 * c, 2, q - 2, p);
    SidesOrder(g, 2, q - 2, p);
    DoubleOnce(DoubleAt(c, q, q - 1, p));
    DoubleOnce(DecimalAt(m, q, q - 1, p));
    DoubleOnce(HalfAt(q, q - 1, p));
  }

  lemma DoubleOnce(v: nat)
    ensures Shl(v, 1) == 2 * v && Shl(v, 0) == v
  {
    assert Shl(v, 1) == 2 * Shl(v, 0);
  }

  lemma AgreesUnscaled(m: nat, p: int, w0: ULong, w1: ULong, n: nat, dsign: bool, i: int)
    requires PositiveFinite(w0, w1) && HasBits(Significand(w0, w1), n)
    requires Decides(Significand(w0, w1), Exponent(w0), HalfExp(Exponent(w0), n), m, p, dsign, i)
    ensures ReadsBackTo(m, p, w0, w1, true) ==> i <= 0
    ensures ReadsBackTo(m, p, w0, w1, false) ==> i < 0
    ensures i <= 0 && (dsign || LowGap(w0, w1) == 2) ==> ReadsBackTo(m, p, w0, w1, true)
    ensures i < 0 && (dsign || LowGap(w0, w1) == 2) ==> ReadsBackTo(m, p, w0, w1, false)
  {
    var c, q, h := Significand(w0, w1), Exponent(w0), Exponent(w0) - 1;
    HalfIsBelow(w0, w1, n);
    var rv, half, input, low := TestScale(m, p, w0, w1);
    SameDecision(DoubleAt(c, q, h, p), rv, DecimalAt(m, q, h, p), input, HalfAt(q, h, p), half, if q > 1 then 0 else 1, 0);
    Midpoints(rv, half, input, rv - low, low, rv + half, dsign, i);
  }

  // c 2^q and c' 2^q' are the same number.
  ghost predicate SameNumber(c: nat, q: int, c': nat, q': int) {
    if q >= q' then Shl(c, q - q') == c' else c == Shl(c', q' - q)
  }

  // The test does not depend on how the double is written.
  lemma SameNumberDecides(c: nat, q: int, c': nat, q': int, h: int, d: nat, e: int, dsign: bool, i: int)
    requires SameNumber(c, q, c', q') && Decides(c, q, h, d, e, dsign, i)
    ensures Decides(c', q', h, d, e, dsign, i)
  {
    var top := if q >= q' then q else q';
    var odd := if q >= q' then c else c';
    var bd2: nat := Pos(e - top) + Pos(e - h);
    var bb2, bs2 := bd2 + top - e, bd2 + h - e;
    assert Shl(c, 0) == c && Shl(c', 0) == c';
    var m, n := OddPart(odd, top - q, c, q, h, d, e, bb2, bd2, bs2);
    SameDecision(Sc(odd, Pos(-e), bb2), DoubleAt(c, q, h, e), Sc(d, Pos(e), bd2), DecimalAt(d, q, h, e),
                 Sc(1, Pos(-e), bs2), HalfAt(q, h, e), m, n);
    OddPartDecides(odd, top - q', c', q', h, d, e, bb2, bd2, bs2, dsign, i);
  }

  // The leading bit stands at the same place, which decides what half a unit is.
  lemma SameNumberBits(c: nat, q: int, c': nat, q': int, n: nat) returns (n': nat)
    requires SameNumber(c, q, c', q') && HasBits(c, n) && c' > 0
    ensures HasBits(c', n') && q' + n' == q + n
  {
    if q >= q' {
      n' := n + (q - q');
      ShlHasBits(c, n, q - q');
    } else {
      n' := BitCount(c');
      ShlHasBits(c', n', q' - q);
      BitsUnique(c, n, n' + (q' - q));
    }
  }

  lemma {:induction false} BitCount(v: nat) returns (n: nat)
    requires v > 0
    ensures HasBits(v, n)
  {
    if v == 1 {
      n := 1;
      assert Shl(1, 1) == 2 * Shl(1, 0);
    } else {
      n := BitCount(v / 2);
      assert Shl(1, n) == 2 * Shl(1, n - 1) && Shl(1, n + 1) == 2 * Shl(1, n);
      n := n + 1;
    }
  }

  lemma BitsUnique(v: nat, m: nat, n: nat)
    requires HasBits(v, m) && HasBits(v, n)
    ensures m == n
  {
    if m < n {
      ShlGrows(1, m, n - 1);
    } else if n < m {
      ShlGrows(1, n, m - 1);
    }
  }

  // A decimal that reads back as the double the approximation stands for passes the test, and one that passes it reads
  // back, except below a power of two, where the half gap is only half of half a unit. The approximation may be scaled;
  // unscaled, it stands for itself.
  lemma TestAgrees(m: nat, p: int, w0: ULong, w1: ULong, scale: nat, v0: ULong, v1: ULong, n: nat, dsign: bool, i: int)
    requires PositiveFinite(w0, w1) && PositiveFinite(v0, v1) && HasBits(Significand(w0, w1), n)
    requires SameNumber(Significand(w0, w1), Exponent(w0) - scale, Significand(v0, v1), Exponent(v0))
    requires Decides(Significand(w0, w1), Exponent(w0) - scale, HalfExp(Exponent(w0) - scale, n), m, p, dsign, i)
    ensures ReadsBackTo(m, p, v0, v1, true) ==> i <= 0
    ensures ReadsBackTo(m, p, v0, v1, false) ==> i < 0
    ensures i <= 0 && (dsign || LowGap(v0, v1) == 2) ==> ReadsBackTo(m, p, v0, v1, true)
    ensures i < 0 && (dsign || LowGap(v0, v1) == 2) ==> ReadsBackTo(m, p, v0, v1, false)
  {
    var c, q, d, r := Significand(w0, w1), Exponent(w0) - scale, Significand(v0, v1), Exponent(v0);
    var k := SameNumberBits(c, q, d, r, n);
    SameNumberDecides(c, q, d, r, HalfExp(q, n), m, p, dsign, i);
    AgreesUnscaled(m, p, v0, v1, k, dsign, i);
  }

  // When the search for the nearest double may stop, it has found it.
  lemma TestRounds(m: nat, p: int, w0: ULong, w1: ULong, scale: nat, v0: ULong, v1: ULong, n: nat, dsign: bool, i: int)
    requires PositiveFinite(w0, w1) && PositiveFinite(v0, v1) && HasBits(Significand(w0, w1), n)
    requires SameNumber(Significand(w0, w1), Exponent(w0) - scale, Significand(v0, v1), Exponent(v0))
    requires Decides(Significand(w0, w1), Exponent(w0) - scale, HalfExp(Exponent(w0) - scale, n), m, p, dsign, i)
    ensures RoundsToDouble(m, p, v0, v1) ==> i < 0 || (i == 0 && v1 % 2 == 0)
    ensures (i < 0 || (i == 0 && v1 % 2 == 0)) && (dsign || LowGap(v0, v1) == 2) ==> RoundsToDouble(m, p, v0, v1)
  {
    TestAgrees(m, p, w0, w1, scale, v0, v1, n, dsign, i);
    ReadsBackIsRounding(m, p, v0, v1);
    if i < 0 && (dsign || LowGap(v0, v1) == 2) {
      assert ReadsBackTo(m, p, v0, v1, true);
    }
  }
}

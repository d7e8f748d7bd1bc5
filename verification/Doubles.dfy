/** Positive finite doubles given by their two words, and their exact conversion to a big number. */
module Doubles {
  import opened Powers
  import opened Words
  import opened BigInts

  // ---- leading and trailing zero bits of a word ----

  // One halving step of the search: if the top s bits are clear, shift them out.
  method HiStep(x0: ULong, x: ULong, k: nat, s: nat, limit: nat, factor: nat) returns (x': ULong, k': nat)
    requires x == Shl(x0, k) && Shl(x, s) == factor * x && limit * factor == BASE
    ensures x' == Shl(x0, k') && k <= k' <= k + s
    ensures if x < limit then x' == x * factor && k' == k + s else x' == x && k' == k
  {
    x', k' := x, k;
    if x < limit {
      ShlAdd(x0, k, s);
      MulStrict(x, limit, factor);
      MulMono(0, x, factor);
      x', k' := x * factor, k + s;
    }
  }

  // The number of leading zero bits: shifting left by it sets the top bit.
  method Hi0bits(x0: ULong) returns (k: nat)
    ensures x0 == 0 ==> k == 32
    ensures x0 > 0 ==> k <= 31 && 0x8000_0000 <= Shl(x0, k) < BASE
  {
    var x;
    SixteenBits(x0);
    x, k := HiStep(x0, x0, 0, 16, 0x1_0000, 0x1_0000);
    EightBits(x);
    x, k := HiStep(x0, x, k, 8, 0x100_0000, 0x100);
    EightBits(x);
    x, k := HiStep(x0, x, k, 4, 0x1000_0000, 0x10);
    EightBits(x);
    x, k := HiStep(x0, x, k, 2, 0x4000_0000, 4);
    if x < 0x8000_0000 {
      if x < 0x4000_0000 {
        return 32;
      }
      assert Shl(x0, k + 1) == 2 * x;
      k := k + 1;
    }
  }

  lemma DivideOut(x: nat, f: nat, square: nat)
    requires f > 1 && x % f == 0 && square == f * f
    ensures x == f * (x / f) && x / f <= x && (x > 0 ==> x / f > 0)
    ensures x % square != 0 ==> x / f % f != 0
  {
    var y := x / f;
    assert x == y * f;
    MulMono(1, f, y);
    if y % f == 0 {
      var m := y / f;
      assert y == m * f;
      MulAssoc(m, f, f);
      DivUnique(x, square, m, 0);
    }
  }

  // One halving step: if the low s bits are clear, shift them out. At most 2 s low bits were clear before.
  method LoStep(y0: ULong, x: nat, k: nat, s: nat, factor: nat, ghost square: nat) returns (x': nat, k': nat)
    requires y0 == Shl(x, k) && factor > 1 && square == factor * factor
    requires forall v: nat :: Shl(v, s) == factor * v
    requires x > 0 ==> x % square != 0
    ensures y0 == Shl(x', k') && k <= k' <= k + s && x' <= x
    ensures x > 0 ==> x' > 0 && x' % factor != 0
    ensures x == 0 ==> x' == 0
  {
    x', k' := x, k;
    if x % factor == 0 {
      DivideOut(x, factor, square);
      ShlAdd(x / factor, s, k);
      x', k' := x / factor, k + s;
    } else {
      NoFactor(x, factor);
    }
  }

  lemma NoFactor(x: nat, f: nat)
    requires f > 0 && x % f != 0
    ensures x > 0
  {}

  lemma HalveTwice(y: nat, y2: nat, y4: nat, z: nat)
    requires y % 8 != 0 && y == 2 * y2 && y2 == 2 * y4
    ensures y4 != 2 * z
  {
    if y4 == 2 * z {
      DivUnique(y, 8, z, 0);
      assert false;
    }
  }

  // One of the three low bits is set.
  method FewZeros(y0: ULong) returns (y: ULong, k: nat)
    requires y0 % 8 != 0
    ensures k <= 2 && y % 2 == 1 && y0 == Shl(y, k)
  {
    if y0 % 2 == 1 {
      return y0, 0;
    }
    y := y0 / 2;
    EightBits(y);
    if y % 2 == 1 {
      return y, 1;
    }
    HalveTwice(y0, y, y / 2, y / 2 / 2);
    EightBits(y / 2);
    return y / 2, 2;
  }

  // Strips trailing zero bits.
  method Lo0bits(y0: ULong) returns (y: ULong, k: nat)
    ensures y0 == 0 ==> k == 32
    ensures y0 > 0 ==> k <= 31 && y % 2 == 1 && y0 == Shl(y, k)
  {
    if y0 % 8 != 0 {
      y, k := FewZeros(y0);
      return;
    }
    forall v: nat ensures Shl(v, 16) == 0x1_0000 * v { SixteenBits(v); }
    forall v: nat
      ensures Shl(v, 8) == 0x100 * v && Shl(v, 4) == 0x10 * v && Shl(v, 2) == 4 * v && Shl(v, 1) == 2 * v
    { EightBits(v); }
    var x: nat;
    x, k := LoStep(y0, y0, 0, 16, 0x1_0000, BASE);
    x, k := LoStep(y0, x, k, 8, 0x100, 0x1_0000);
    x, k := LoStep(y0, x, k, 4, 0x10, 0x100);
    x, k := LoStep(y0, x, k, 2, 4, 0x10);
    x, k := LoStep(y0, x, k, 1, 2, 4);
    if x == 0 {
      return y0, 32;
    }
    y := x;
  }

  // ---- the words of a double (IEEE 754-2008, section 3.4), with the sign bit cleared ----

  const FRAC_BITS: nat := 0x10_0000

  function BiasedExp(w0: ULong): nat {
    w0 / FRAC_BITS
  }

  // The high part of the significand, with the implicit bit of a normal number.
  function HighPart(w0: ULong): nat {
    w0 % FRAC_BITS + (if BiasedExp(w0) != 0 then FRAC_BITS else 0)
  }

  function Significand(w0: ULong, w1: ULong): nat {
    HighPart(w0) * BASE + w1
  }

  // The number is Significand times two to the Exponent.
  function Exponent(w0: ULong): int {
    if BiasedExp(w0) != 0 then BiasedExp(w0) - 1075 else -1074
  }

  predicate PositiveFinite(w0: ULong, w1: ULong) {
    w0 < 0x7FF0_0000 && Significand(w0, w1) > 0
  }

  // A number of bits, counted from the top bit of a value.
  ghost predicate HasBits(v: nat, bits: nat) {
    bits > 0 && Shl(1, bits - 1) <= v < Shl(1, bits)
  }

  lemma {:induction false} ShlHasBits(v: nat, bits: nat, k: nat)
    requires bits > 0
    ensures HasBits(v, bits) <==> HasBits(Shl(v, k), bits + k)
  {
    ShlAdd(1, bits - 1, k);
    ShlAdd(1, bits, k);
    ShlOrder(v, Shl(1, bits - 1), k);
    ShlOrder(v, Shl(1, bits), k);
  }

  lemma Pow52()
    ensures Shl(1, 52) == FRAC_BITS * BASE && Shl(1, 31) == 0x8000_0000 && Shl(1, 32) == BASE
  {
    ShlAdd(1, 16, 4);
    ShlAdd(1, 20, 32);
    SixteenBits(1);
    EightBits(0x1_0000);
    ShlWord(FRAC_BITS);
    ShlWord(1);
    assert Shl(1, 32) == 2 * Shl(1, 31);
  }

  // A normal number has 53 significand bits, so stripping k zero bits leaves 53 - k.
  lemma NormalBits(w0: ULong, w1: ULong, v: nat, k: nat)
    requires PositiveFinite(w0, w1) && BiasedExp(w0) != 0 && Shl(v, k) == Significand(w0, w1)
    ensures k <= 52 && HasBits(v, 53 - k)
  {
    Pow52();
    assert Shl(1, 53) == 2 * Shl(1, 52);
    assert HasBits(Significand(w0, w1), 53);
    if k >= 53 {
      ShlGrows(1, 53, k);
      ShlOrder(0, v, k);
      ShlOrder(v, 1, k);
      ShlZero(k);
    } else {
      ShlHasBits(v, 53 - k, k);
    }
  }

  lemma {:induction false} ShlZero(k: nat)
    ensures Shl(0, k) == 0
  {
    if k > 0 { ShlZero(k - 1); }
  }

  // The leading zero bits of the top word give the number of bits.
  lemma TopBits(b: Bigint, h: nat)
    requires b.Ok() && b.wds >= 1 && h <= 31
    requires 0x8000_0000 <= Shl(b.x[b.wds - 1], h) < BASE
    ensures HasBits(b.Value(), 32 * b.wds - h)
  {
    var n, top: nat := b.wds - 1, b.x[b.wds - 1];
    Pow52();
    ShlHasBits(top, 32 - h, h);
    ValTopShl(b.x[..b.wds], top);
    ShlHasBits(top, 32 - h, 32 * n);
    ShlAdd(1, 32 - h, 32 * n);
    ShlOrder(Shl(1, 32 - h), top + 1, 32 * n);
  }

  // z r, for t r = BASE, splits at the word boundary into z / t and the rest, and the rest leaves room for y.
  lemma SplitProduct(z: nat, w: ULong, y: ULong, t: nat, r: nat)
    requires t * r == BASE && t > 0 && r > 0 && w == y * t
    ensures z / t <= z && y + z * r % BASE < BASE && z * r % BASE + BASE * (z / t) == z * r
  {
    var hi, lo := z / t, z % t;
    assert z == hi * t + lo;
    MulMono(1, t, hi);
    assert y < r by { if y >= r { MulMono(r, y, t); } }
    assert lo * r + r <= BASE by { MulMono(lo + 1, t, r); MulDist(lo, 1, r); }
    assert 0 <= lo * r;
    assert z * r == hi * BASE + lo * r by { MulDist(hi * t, lo, r); MulAssoc(hi, t, r); }
    DivUnique(z * r, BASE, hi, lo * r);
  }

  lemma EvenMod(v: nat, half: nat)
    requires v == 2 * half
    ensures v % BASE % 2 == 0
  {
    assert v == v / BASE * BASE + v % BASE;
  }

  lemma SplitShifted(z: nat, w: ULong, y: ULong, k: nat)
    requires 0 < k < 32 && w == Shl(y, k)
    ensures z / Pow(2, k) <= z && y + z * Pow(2, 32 - k) % BASE < BASE
    ensures z * Pow(2, 32 - k) % BASE + BASE * (z / Pow(2, k)) == Shl(z, 32 - k)
    ensures z * Pow(2, 32 - k) % BASE % 2 == 0
  {
    WordIsPower(k);
    ShlIsPow(y, k);
    ShlIsPow(z, 32 - k);
    SplitProduct(z, w, y, Pow(2, k), Pow(2, 32 - k));
    EvenMod(Shl(z, 32 - k), Shl(z, 31 - k));
  }

  // The low k bits of the high word, moved to the top of the low word, and the bits that stay in the high word.
  method SplitHigh(z: nat, k: nat, ghost w: ULong, ghost y: ULong) returns (low: ULong, hi: nat)
    requires 0 < k < 32 && w == Shl(y, k)
    ensures hi <= z && y + low < BASE && low % 2 == 0 && low + BASE * hi == Shl(z, 32 - k)
  {
    SplitShifted(z, w, y, k);
    low, hi := z * Pow(2, 32 - k) % BASE, z / Pow(2, k);
  }

  lemma ShiftedBack(z: nat, w: ULong, y: ULong, k: nat)
    requires 0 < k < 32 && w == Shl(y, k)
    ensures Shl(y + Shl(z, 32 - k), k) == z * BASE + w
  {
    ShlSum(y, Shl(z, 32 - k), k);
    ShlAdd(z, 32 - k, k);
    ShlWord(z);
  }

  // The or of the source joins disjoint bits.
  method JoinLow(z: nat, w: ULong, y: ULong, k: nat) returns (x0: ULong, x1: ULong)
    requires z < 0x20_0000 && 0 < k < 32 && w == Shl(y, k) && y % 2 == 1
    ensures x0 % 2 == 1 && Shl(x0 + BASE * x1, k) == z * BASE + w
  {
    var low, hi := SplitHigh(z, k, w, y);
    assert Shl(y + (low + BASE * hi), k) == z * BASE + w by { ShiftedBack(z, w, y, k); }
    x0, x1 := y + low, hi;
    assert x0 + BASE * x1 == y + (low + BASE * hi);
  }

  // Both words together, with their common trailing zero bits stripped.
  method StripWords(z0: nat, w1: ULong) returns (x0: ULong, x1: ULong, k: nat)
    requires z0 < 0x20_0000 && z0 * BASE + w1 > 0
    ensures x0 % 2 == 1 && Shl(x0 + BASE * x1, k) == z0 * BASE + w1
  {
    if w1 != 0 {
      var y;
      y, k := Lo0bits(w1);
      if k != 0 {
        x0, x1 := JoinLow(z0, w1, y, k);
      } else {
        x0, x1 := y, z0;
      }
    } else {
      x0, k := Lo0bits(z0);
      ShlWord(Shl(x0, k));
      ShlAdd(x0, k, 32);
      x1, k := 0, k + 32;
    }
  }

  lemma OddLow(x0: nat, x1: nat)
    requires x0 % 2 == 1
    ensures x0 > 0 && (x0 + BASE * x1) % 2 == 1
  {
    assert x0 + BASE * x1 == x0 + 2 * (0x8000_0000 * x1);
  }

  method FromWords(x0: ULong, x1: ULong) returns (b: Bigint)
    requires x0 > 0
    ensures fresh(b) && fresh(b.x)
    ensures b.Ok() && b.Trimmed() && b.sign == 0 && b.wds >= 1 && b.x[b.wds - 1] > 0
    ensures b.Value() == x0 + BASE * x1
  {
    b := new Bigint(1);
    assert b.maxwds == 2;
    b.x[0], b.x[1] := x0, x1;
    b.wds := if x1 != 0 then 2 else 1;
    TwoWords(b, x0, x1);
  }

  lemma TwoWords(b: Bigint, x0: ULong, x1: ULong)
    requires b.Ok() && b.maxwds == 2 && b.x[0] == x0 && b.x[1] == x1
    requires b.wds == if x1 != 0 then 2 else 1
    ensures b.Value() == x0 + BASE * x1
  {
    ValOne(x0);
    ValOne(x1);
    ValCons(x0, [x1]);
    assert b.x[..1] == [x0] && b.x[..2] == [x0] + [x1];
  }

  // The bits of a number, counted from its top word.
  method CountBits(b: Bigint) returns (bits: nat)
    requires b.Ok() && b.wds >= 1 && b.x[b.wds - 1] > 0
    ensures HasBits(b.Value(), bits)
  {
    var h := Hi0bits(b.x[b.wds - 1]);
    TopBits(b, h);
    bits := 32 * b.wds - h;
  }

  // The exponent the source computes is the stripped bits above that of the significand.
  lemma StrippedExponent(w0: ULong, k: nat)
    ensures BiasedExp(w0) != 0 ==> BiasedExp(w0) - 1023 - 52 + k == Exponent(w0) + k
    ensures BiasedExp(w0) == 0 ==> BiasedExp(w0) - 1023 - 52 + 1 + k == Exponent(w0) + k
  {}

  lemma HighPartFits(w0: ULong, w1: ULong)
    requires PositiveFinite(w0, w1)
    ensures HighPart(w0) < 0x20_0000 && HighPart(w0) * BASE + w1 == Significand(w0, w1) > 0
  {}

  // Both words as an odd big number, with the number of bits stripped.
  method OddNumber(w0: ULong, w1: ULong) returns (b: Bigint, k: nat)
    requires PositiveFinite(w0, w1)
    ensures fresh(b) && fresh(b.x)
    ensures b.Ok() && b.Trimmed() && b.sign == 0 && b.Value() % 2 == 1 && b.wds >= 1 && b.x[b.wds - 1] > 0
    ensures Shl(b.Value(), k) == Significand(w0, w1)
  {
    var x0, x1;
    HighPartFits(w0, w1);
    x0, x1, k := StripWords(HighPart(w0), w1);
    OddLow(x0, x1);
    b := FromWords(x0, x1);
  }

  // The number as an odd big number times a power of two, with its bit count.
  method D2b(w0: ULong, w1: ULong) returns (b: Bigint, e: int, bits: nat)
    requires PositiveFinite(w0, w1)
    ensures fresh(b) && fresh(b.x)
    ensures b.Ok() && b.Trimmed() && b.sign == 0 && b.Value() % 2 == 1
    ensures e >= Exponent(w0) && Shl(b.Value(), e - Exponent(w0)) == Significand(w0, w1)
    ensures HasBits(b.Value(), bits)
    ensures BiasedExp(w0) != 0 ==> bits == 53 - (e - Exponent(w0))
  {
    var de: int := BiasedExp(w0);
    var k;
    b, k := OddNumber(w0, w1);
    StrippedExponent(w0, k);
    if de != 0 {
      NormalBits(w0, w1, b.Value(), k);
      e, bits := de - 1023 - 52 + k, 53 - k;
    } else {
      e := de - 1023 - 52 + 1 + k;
      bits := CountBits(b);
    }
  }

  // ---- arranging the divisor ----

  // The shift that leaves exactly four leading zero bits in the divisor, after it is shifted by p2.
  method Dshift(b: Bigint, p2: int) returns (i: nat, ghost bits: nat, ghost n: nat)
    requires b.Ok() && b.wds >= 1 && b.x[b.wds - 1] > 0
    ensures i < 32
    ensures HasBits(b.Value(), bits) && (p2 >= 0 ==> bits + p2 + i == 32 * n + 28)
  {
    var h := Hi0bits(b.x[b.wds - 1]);
    var rv := (h as int) - 4;
    if p2 > 0 {
      rv := rv - p2;
    }
    i := rv % 32;  // the source masks with 31, in two's complement
    TopBits(b, h);
    bits := 32 * b.wds - h;
    n := if p2 >= 0 then (bits + p2 + i - 28) / 32 else 0;
  }
}

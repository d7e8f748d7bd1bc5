/** The colour a BC6H block gives to a pixel: always a finite half-float between the ends, and close to what was quantized. */
module Bc6hColors {
  import opened Powers
  import opened Bitwise
  import opened BlockBits
  import opened Endpoints
  import opened Bc6hBlock
  import opened Bc6hDecode
  import opened Bc6hEncode

  lemma Divided(n: int, d: int)
    requires d > 0
    ensures n / d * d <= n < n / d * d + d
  {}

  lemma DivMono(m: int, n: int, d: int)
    requires d > 0 && m <= n
    ensures m / d <= n / d
  {
    Divided(m, d);
    Divided(n, d);
    if m / d > n / d { MulMono(n / d + 1, m / d, d); }
  }

  // Between two multiples of d.
  lemma DivBetween(n: int, d: int, lo: int, hi: int)
    requires d > 0 && lo * d <= n < hi * d
    ensures lo <= n / d < hi
  {
    Divided(n, d);
    if n / d < lo { MulMono(n / d + 1, lo, d); }
    if n / d >= hi { MulMono(hi, n / d, d); }
  }

  // ---- stretching an endpoint to sixteen bits ----

  // One step of a scale of t steps, stretched to k and moved to its middle.
  lemma Stretched(comp: int, t: int, k: int)
    requires 0 <= comp < t && k > 0 && k % 2 == 0
    ensures 0 <= (comp * k + k / 2) / t < k
  {
    MulMono(comp, t - 1, k);
    MulMono(0, comp, k);
    MulDist(t, 1, k);
    assert k * t == t * k;
    DivBetween(comp * k + k / 2, t, 0, k);
  }

  lemma StretchedMono(a: int, b: int, t: int, k: int)
    requires a <= b && t > 0 && k > 0
    ensures (a * k + k / 2) / t <= (b * k + k / 2) / t
  {
    MulMono(a, b, k);
    DivMono(a * k + k / 2, b * k + k / 2, t);
  }

  lemma MagnitudeRange(comp: int, p: nat)
    requires comp >= 0
    ensures 0 <= UnquantizeMagnitude(comp, p) <= 0x7FFF
  {
    if comp != 0 && p > 0 && comp < Two(p - 1) - 1 { Stretched(comp, Two(p - 1), 0x8000); }
  }

  lemma MagnitudeMono(a: int, b: int, p: nat)
    requires 0 <= a <= b
    ensures UnquantizeMagnitude(a, p) <= UnquantizeMagnitude(b, p)
  {
    MagnitudeRange(a, p);
    MagnitudeRange(b, p);
    if p > 0 && a != 0 && b < Two(p - 1) - 1 { StretchedMono(a, b, Two(p - 1), 0x8000); }
  }

  lemma SixteenBits()
    ensures Two(15) == 0x8000 && Two(16) == 0x1_0000
  {
    FifteenBits();
  }

  lemma TwoMono(p: nat, q: nat)
    requires p <= q
    ensures Two(p) <= Two(q)
  {
    PowMono(2, p, q);
  }

  // An endpoint in range is stretched to sixteen bits; the least signed number is the only one below the symmetric range.
  lemma UnquantizeRange(comp: int, p: nat, bSigned: bool)
    requires Fits(comp, bSigned, p) && 0 < p <= 16
    ensures !bSigned ==> 0 <= Unquantize(comp, p, bSigned) <= 0xFFFF
    ensures bSigned ==> -0x8000 <= Unquantize(comp, p, bSigned) <= 0x7FFF
    ensures bSigned && Unquantize(comp, p, bSigned) == -0x8000 ==> p == 16 && comp == -0x8000
  {
    SixteenBits();
    if bSigned {
      TwoMono(p - 1, 15);
      if p < 16 {
        MagnitudeRange(if comp < 0 then -comp else comp, p);
      }
    } else {
      TwoMono(p, 16);
      if 0 < comp && p < 15 { Stretched(comp, Two(p), 0x1_0000); }
    }
  }

  // Larger endpoints stand for larger colours.
  lemma UnquantizeMono(a: int, b: int, p: nat, bSigned: bool)
    requires a <= b && Fits(a, bSigned, p) && Fits(b, bSigned, p) && 0 < p <= 16
    ensures Unquantize(a, p, bSigned) <= Unquantize(b, p, bSigned)
  {
    UnquantizeRange(a, p, bSigned);
    UnquantizeRange(b, p, bSigned);
    if bSigned {
      if p < 16 {
        if a >= 0 {
          MagnitudeMono(a, b, p);
        } else if b <= 0 {
          MagnitudeMono(-b, -a, p);
        } else {
          MagnitudeRange(-a, p);
          MagnitudeRange(b, p);
        }
      }
    } else if p < 15 && a > 0 && b < Two(p) - 1 {
      StretchedMono(a, b, Two(p), 0x1_0000);
    }
  }

  // ---- mixing and finishing ----

  // The mix is the weighted mean of the ends, rounded to the nearest integer, halves up.
  lemma InterpolateNearest(a: int, b: int, w: int)
    ensures 64 * Interpolate(a, b, w) - 32 <= a * (64 - w) + b * w < 64 * Interpolate(a, b, w) + 32
  {}

  lemma WeightedMean(a: int, b: int, w: int)
    ensures a * (64 - w) + b * w == 64 * a + (b - a) * w
  {
    MulDist(b, a, w);
    assert a * (64 - w) == 64 * a - a * w by { MulDist(64, w, a); }
  }

  lemma MeanMoves(a: int, b: int, x: int, y: int)
    requires 0 <= x <= y <= 64 * (b - a) || 64 * (b - a) <= y <= x <= 0
    ensures a <= b ==> a <= (64 * a + x + 32) / 64 <= (64 * a + y + 32) / 64 <= b
    ensures a >= b ==> a >= (64 * a + x + 32) / 64 >= (64 * a + y + 32) / 64 >= b
  {}

  // It starts at the first end, moves one way, and ends at the second.
  lemma InterpolateMoves(a: int, b: int, v: int, w: int)
    requires 0 <= v <= w <= 64
    ensures Interpolate(a, b, 0) == a && Interpolate(a, b, 64) == b
    ensures a <= b ==> a <= Interpolate(a, b, v) <= Interpolate(a, b, w) <= b
    ensures a >= b ==> a >= Interpolate(a, b, v) >= Interpolate(a, b, w) >= b
  {
    var x, y := (b - a) * v, (b - a) * w;
    WeightedMean(a, b, v);
    WeightedMean(a, b, w);
    assert 0 <= x <= y <= 64 * (b - a) || 64 * (b - a) <= y <= x <= 0 by {
      ScaledOrder(b - a, v, w);
    }
    MeanMoves(a, b, x, y);
  }

  lemma ScaledOrder(d: int, v: int, w: int)
    requires 0 <= v <= w <= 64
    ensures d >= 0 ==> 0 <= d * v <= d * w <= 64 * d
    ensures d <= 0 ==> 64 * d <= d * w <= d * v <= 0
  {
    var m := if d < 0 then -d else d;
    MulMono(0, v, m);
    MulMono(v, w, m);
    MulMono(w, 64, m);
    if d < 0 { assert d * v == -(m * v) && d * w == -(m * w); }
  }

  lemma FinishMono(x: int, y: int, bSigned: bool)
    requires x <= y
    ensures FinishUnquantize(x, bSigned) <= FinishUnquantize(y, bSigned)
  {}

  lemma FinishRange(x: int, bSigned: bool)
    requires if bSigned then -0x8000 <= x <= 0x7FFF else 0 <= x <= 0xFFFF
    ensures FinishUnquantize(x, bSigned) <= F16MAX
    ensures !bSigned ==> 0 <= FinishUnquantize(x, bSigned)
    ensures bSigned ==> -F16MAX - 1 <= FinishUnquantize(x, bSigned) && (x > -0x8000 ==> -F16MAX <= FinishUnquantize(x, bSigned))
  {}

  // ---- one component of a pixel ----

  // The colour of an end.
  function Shown(comp: int, prec: nat, bSigned: bool): int {
    FinishUnquantize(Unquantize(comp, prec, bSigned), bSigned)
  }

  // The colour of an end is a finite half-float code, and larger ends show larger colours. The exception is the least
  // signed number of sixteen bits, which shows the code of minus infinity.
  lemma ShownRange(comp: int, prec: nat, bSigned: bool)
    requires Fits(comp, bSigned, prec) && 0 < prec <= 16
    ensures (if bSigned then -F16MAX - 1 else 0) <= Shown(comp, prec, bSigned) <= F16MAX
    ensures bSigned ==> (Shown(comp, prec, bSigned) == -F16MAX - 1 <==> prec == 16 && comp == -0x8000)
  {
    UnquantizeRange(comp, prec, bSigned);
    FinishRange(Unquantize(comp, prec, bSigned), bSigned);
  }

  lemma ShownMono(a: int, b: int, prec: nat, bSigned: bool)
    requires a <= b && Fits(a, bSigned, prec) && Fits(b, bSigned, prec) && 0 < prec <= 16
    ensures Shown(a, prec, bSigned) <= Shown(b, prec, bSigned)
  {
    UnquantizeMono(a, b, prec, bSigned);
    FinishMono(Unquantize(a, prec, bSigned), Unquantize(b, prec, bSigned), bSigned);
  }

  // A pixel's colour is that of the first end at weight 0 and of the second at weight 64, and moves from one to the
  // other as the weight grows.
  lemma ComponentMoves(a: int, b: int, prec: nat, bSigned: bool, v: int, w: int)
    requires 0 <= v <= w <= 64
    ensures Component(a, b, prec, bSigned, 0) == Shown(a, prec, bSigned)
    ensures Component(a, b, prec, bSigned, 64) == Shown(b, prec, bSigned)
    ensures Unquantize(a, prec, bSigned) <= Unquantize(b, prec, bSigned) ==>
      Shown(a, prec, bSigned) <= Component(a, b, prec, bSigned, v) <= Component(a, b, prec, bSigned, w) <= Shown(b, prec, bSigned)
    ensures Unquantize(a, prec, bSigned) >= Unquantize(b, prec, bSigned) ==>
      Shown(a, prec, bSigned) >= Component(a, b, prec, bSigned, v) >= Component(a, b, prec, bSigned, w) >= Shown(b, prec, bSigned)
  {
    var x, y := Unquantize(a, prec, bSigned), Unquantize(b, prec, bSigned);
    InterpolateMoves(x, y, v, w);
    if x <= y {
      FinishMono(x, Interpolate(x, y, v), bSigned);
      FinishMono(Interpolate(x, y, v), Interpolate(x, y, w), bSigned);
      FinishMono(Interpolate(x, y, w), y, bSigned);
    }
    if y <= x {
      FinishMono(Interpolate(x, y, v), x, bSigned);
      FinishMono(Interpolate(x, y, w), Interpolate(x, y, v), bSigned);
      FinishMono(y, Interpolate(x, y, w), bSigned);
    }
  }

  lemma ComponentRange(a: int, b: int, prec: nat, bSigned: bool, w: int)
    requires Fits(a, bSigned, prec) && Fits(b, bSigned, prec) && 0 < prec <= 16 && 0 <= w <= 64
    ensures (if bSigned then -F16MAX - 1 else 0) <= Component(a, b, prec, bSigned, w) <= F16MAX
    ensures bSigned && (prec < 16 || (a != -0x8000 && b != -0x8000)) ==> -F16MAX <= Component(a, b, prec, bSigned, w)
  {
    ShownRange(a, prec, bSigned);
    ShownRange(b, prec, bSigned);
    ComponentMoves(a, b, prec, bSigned, w, w);
  }

  // ---- every pixel of every block ----

  ghost predicate FiniteHalf(v: int, bSigned: bool, prec: nat) {
    (if bSigned then -F16MAX - (if prec == 16 then 1 else 0) else 0) <= v <= F16MAX
  }

  // Modes that store endpoints in full store them all with the first precision.
  ghost predicate OnePrecision(info: ModeInfo)
    requires WellFormed(info)
  {
    && info.prec[0].r <= 16 && info.prec[0].g <= 16 && info.prec[0].b <= 16
    && (!info.bTransformed ==> info.prec[1] == info.prec[0]
                               && (info.uPartitions > 0 ==> info.prec[2] == info.prec[0] && info.prec[3] == info.prec[0]))
  }

  lemma ExtendedFits(x: int, p: nat)
    requires p > 0 && Low(x, p) == x
    ensures Fits(SignExtend(x, p), true, p)
  {
    WrapFits(x, p, true);
  }

  // Whatever is wrapped is in range.
  lemma WrapFits(x: int, p: nat, signed: bool)
    requires p > 0
    ensures Fits(WrapTo(x, p, signed), signed, p)
  {
    LowTop(x, p);
    LowBound(x, p);
    LowBound(x, p - 1);
    var l := Low(x, p);
    LowOfSmall(l, p);
    LowTop(l, p);
    LowBound(l, p - 1);
  }

  lemma WrapColorFits(c: INTColor, prec: Prec, signed: bool)
    requires Positive(prec)
    ensures ColorFits(WrapColor(c, prec, signed), prec, signed)
  {
    WrapFits(c.r, prec.r, signed);
    WrapFits(c.g, prec.g, signed);
    WrapFits(c.b, prec.b, signed);
  }

  lemma RawBound(bytes: seq<Byte>, info: ModeInfo, s: nat)
    requires |bytes| == 16 && WellFormed(info) && s < 12
    ensures var x, w := RawEnds(bytes, info)[s], Width(info, Slot(s)); Low(x, w) == x < Two(w)
  {
    var x := RawEnds(bytes, info)[s];
    forall b: nat
      ensures Bit(x, b) ==> b < Width(info, Slot(s))
    {
      ReadFieldBit(bytes, info.desc, Slot(s), Width(info, M), HeaderBits(info), b);
    }
    FieldBound(x, Width(info, Slot(s)));
  }

  lemma RawColorFits(bytes: seq<Byte>, info: ModeInfo, k: nat)
    requires |bytes| == 16 && WellFormed(info) && k < 4
    ensures ColorFits(ColorOf(RawEnds(bytes, info), k), info.prec[k], false)
    ensures Positive(info.prec[k]) ==> ColorFits(Extended(ColorOf(RawEnds(bytes, info), k), info.prec[k]), info.prec[k], true)
  {
    RawBound(bytes, info, k);
    RawBound(bytes, info, 4 + k);
    RawBound(bytes, info, 8 + k);
    if Positive(info.prec[k]) {
      var c := ColorOf(RawEnds(bytes, info), k);
      ExtendedFits(c.r, info.prec[k].r);
      ExtendedFits(c.g, info.prec[k].g);
      ExtendedFits(c.b, info.prec[k].b);
    }
  }

  // Whatever bits a block holds, its endpoints are in the precision range.
  lemma DecodedEndsInRange(bytes: seq<Byte>, info: ModeInfo, signed: bool)
    requires |bytes| == 16 && WellFormed(info) && OnePrecision(info)
    ensures UsedInRange(EndsOf(RawEnds(bytes, info), info, signed), info, signed)
  {
    var raw := RawEnds(bytes, info);
    RawColorFits(bytes, info, 0);
    RawColorFits(bytes, info, 1);
    RawColorFits(bytes, info, 2);
    RawColorFits(bytes, info, 3);
    forall c: INTColor ensures ColorFits(WrapColor(c, info.prec[0], signed), info.prec[0], signed) {
      WrapColorFits(c, info.prec[0], signed);
    }
  }

  // A pixel of a decoded block has a finite half-float code in every channel.
  ghost predicate PixelIsHalf(e: seq<EndPntPair>, idx: seq<nat>, info: ModeInfo, sh: Shape, bSigned: bool, i: nat) {
    && |e| == 2 && |idx| == 16 && i < 16 && |info.prec| == 4 && |sh.region| == 16 && sh.region[i] <= 1
    && idx[i] < |Weights(info.uIndexPrec)|
    && var c := Pixel(e, idx, info, sh, bSigned, i);
       && FiniteHalf(c.r, bSigned, info.prec[0].r) && FiniteHalf(c.g, bSigned, info.prec[0].g)
       && FiniteHalf(c.b, bSigned, info.prec[0].b)
  }

  lemma InRangeIsHalf(e: seq<EndPntPair>, idx: seq<nat>, info: ModeInfo, sh: Shape, bSigned: bool, i: nat)
    requires WellFormed(info) && OnePrecision(info) && ShapeOk(sh, info.uPartitions) && |e| == 2 && |idx| == 16 && i < 16
    requires UsedInRange(e, info, bSigned) && idx[i] < |Weights(info.uIndexPrec)| && Weights(info.uIndexPrec)[idx[i]] <= 64
    ensures PixelIsHalf(e, idx, info, sh, bSigned, i)
  {
    var p, w := e[sh.region[i]], Weights(info.uIndexPrec)[idx[i]];
    assert ColorFits(p.A, info.prec[0], bSigned) && ColorFits(p.B, info.prec[0], bSigned);
    ComponentRange(p.A.r, p.B.r, info.prec[0].r, bSigned, w);
    ComponentRange(p.A.g, p.B.g, info.prec[0].g, bSigned, w);
    ComponentRange(p.A.b, p.B.b, info.prec[0].b, bSigned, w);
  }

  ghost predicate ShowsHalves(d: Decoded, t: Tables, bSigned: bool, i: nat)
    requires Valid(t)
  {
    d.Block? ==>
      && d.row < |t.infos| && d.shape < 32
      && PixelIsHalf(d.ends, d.indices, t.infos[d.row], t.shapes[t.infos[d.row].uPartitions][d.shape], bSigned, i)
  }

  // Every pixel of every block is a finite half-float code; only a signed component of sixteen bits can also be the code
  // of minus infinity.
  lemma PixelsAreHalves(bytes: seq<Byte>, t: Tables, bSigned: bool, i: nat)
    requires |bytes| == 16 && Valid(t) && i < 16 && forall row :: 0 <= row < |t.infos| ==> OnePrecision(t.infos[row])
    ensures ShowsHalves(Decoding(bytes, t, bSigned), t, bSigned, i)
  {
    ModeBitsBound(bytes);
    var d := Decoding(bytes, t, bSigned);
    if d.Block? {
      var info := t.infos[d.row];
      ShapeBound(bytes, info);
      var sh := t.shapes[info.uPartitions][d.shape];
      DecodedEndsInRange(bytes, info, bSigned);
      IndexBound(bytes, info, sh, i);
      InRangeIsHalf(d.ends, d.indices, info, sh, bSigned, i);
    }
  }

  lemma IndexBound(bytes: seq<Byte>, info: ModeInfo, sh: Shape, i: nat)
    requires |bytes| == 16 && WellFormed(info) && ShapeOk(sh, info.uPartitions) && i < 16
    ensures ReadIndex(bytes, info, sh, i) < |Weights(info.uIndexPrec)| && Weights(info.uIndexPrec)[ReadIndex(bytes, info, sh, i)] <= 64
  {
    BlockIsFull(info, sh, i);
    FieldAtBound(bytes, IndexStart(info, sh, i), IndexBits(info, sh, i));
    assert Pow(2, 2) == 4 && Pow(2, 3) == 8 && Pow(2, 4) == 16;
  }

  // ---- half-float codes ----

  // A half-float code as a number; codes beyond the largest finite one are cut in the signed format only.
  function F16ToINT(f: nat, bSigned: bool): int {
    if bSigned then
      var m := if f % 0x8000 > F16MAX then F16MAX else f % 0x8000;
      if f >= 0x8000 then -m else m
    else if f >= 0x8000 then 0 else f
  }

  // The sign bit is joined to the magnitude.
  function INT2F16(v: int, bSigned: bool): (f: nat)
    requires if bSigned then -0x8000 < v < 0x8000 else 0 <= v <= F16MAX
  {
    if bSigned && v < 0 then 0x8000 - v else v
  }

  // Finite codes survive the way to a number and back.
  lemma HalfRoundTrip(v: int, bSigned: bool)
    requires (if bSigned then -F16MAX else 0) <= v <= F16MAX
    ensures INT2F16(v, bSigned) < 0x1_0000 && F16ToINT(INT2F16(v, bSigned), bSigned) == v
  {}

  // A code is turned into a number that can be quantized, except a positive infinity or NaN in the unsigned format.
  lemma HalfQuantizable(f: nat, bSigned: bool)
    requires f < 0x1_0000
    ensures (if bSigned then -F16MAX else 0) <= F16ToINT(f, bSigned) <= F16MAX <==> bSigned || f <= F16MAX || f >= 0x8000
  {}

  // ---- quantizing and showing ----

  lemma StepSizes(n: int, m: int, k: int, l: int, un: int, dn: int, vn: int)
    requires 0 < n <= 0x4000 && ((k == 0x1_0000 && l == 64) || (k == 0x8000 && l == 32))
    requires m * (F16MAX + 1) <= vn < (m + 1) * (F16MAX + 1) && un <= m * k + k / 2 < un + n
    requires dn * l <= un * 31 <= dn * l + (l - 1) * n
    ensures dn - vn < F16MAX + 1 && vn - dn < F16MAX + 1 + (if n <= 0x2000 then 0 else n)
  {
    if l == 64 {
      assert dn * 64 <= un * 31 <= dn * 64 + 63 * n;
    } else {
      assert dn * 32 <= un * 31 <= dn * 32 + 31 * n;
    }
  }

  // One magnitude: v is cut to the step m of n steps, stretched to the middle of the step, and scaled back.
  lemma MiddleOfStep(v: int, n: int, m: int, k: int, l: int)
    requires 0 < n <= 0x4000 && ((k == 0x1_0000 && l == 64) || (k == 0x8000 && l == 32))
    requires m * (F16MAX + 1) <= v * n < (m + 1) * (F16MAX + 1)
    ensures Near(v, (m * k + k / 2) / n * 31 / l, n)
  {
    var u := (m * k + k / 2) / n;
    var d := u * 31 / l;
    Divided(m * k + k / 2, n);
    Divided(u * 31, l);
    ScaledUp(d, u, l, n);
    StepSizes(n, m, k, l, u * n, d * n, v * n);
    MulDist(d, v, n);
    MulDist(v, d, n);
  }

  // Two codes are less than a step apart, of F16MAX + 1 in n steps; a little more when there are more than 2^13.
  ghost predicate Near(v: int, d: int, n: int) {
    (d - v) * n < F16MAX + 1 && (v - d) * n < F16MAX + 1 + (if n <= 0x2000 then 0 else n)
  }

  lemma ScaledUp(d: int, u: int, l: int, n: int)
    requires n > 0 && d * l <= u * 31 < d * l + l
    ensures d * n * l <= u * n * 31 <= d * n * l + (l - 1) * n
  {
    var x, y := d * l, u * 31;
    MulMono(x, y, n);
    MulMono(y, x + (l - 1), n);
    MulDist(x, l - 1, n);
    assert x * n == d * n * l by { MulAssoc(d, l, n); MulAssoc(d, n, l); }
    assert y * n == u * n * 31 by { MulAssoc(u, 31, n); MulAssoc(u, n, 31); }
  }

  lemma CutToStep(v: int, n: int)
    requires 0 <= v <= F16MAX && n > 0
    ensures var m := v * n / (F16MAX + 1); 0 <= m < n && m * (F16MAX + 1) <= v * n < (m + 1) * (F16MAX + 1)
  {
    ScaledDown(v, n);
    Divided(v * n, F16MAX + 1);
  }

  // The first and the last step are shown by the ends of the range.
  lemma EndSteps(v: int, n: int, m: int)
    requires 0 <= v <= F16MAX && n > 0 && m * (F16MAX + 1) <= v * n < (m + 1) * (F16MAX + 1)
    ensures m == 0 ==> Near(v, 0, n)
    ensures m >= n - 1 ==> Near(v, F16MAX, n)
  {
    MulMono(0, v, n);
    MulMono(v, F16MAX, n);
    MulDist(F16MAX, v, n);
    MulDist(v, F16MAX, n);
    MulDist(0, v, n);
    if m >= n - 1 { MulMono(n - 1, m, F16MAX + 1); }
  }

  // What is shown for step m.
  function StepShown(m: int, n: int, k: int, l: int): int
    requires n > 0 && l > 0
  {
    if m == 0 then 0 else if m >= n - 1 then F16MAX else (m * k + k / 2) / n * 31 / l
  }

  lemma StepIsNear(v: int, n: int, k: int, l: int)
    requires 0 <= v <= F16MAX && 0 < n <= 0x4000 && ((k == 0x1_0000 && l == 64) || (k == 0x8000 && l == 32))
    ensures Near(v, StepShown(v * n / (F16MAX + 1), n, k, l), n)
  {
    var m := v * n / (F16MAX + 1);
    CutToStep(v, n);
    EndSteps(v, n, m);
    MiddleOfStep(v, n, m, k, l);
  }

  // Quantizing a half-float code and showing the result gives a code within one step of the quantization, up to 14 bits,
  // or 15 with a sign.
  lemma QuantizeShows(v: int, prec: nat, bSigned: bool)
    requires prec > 1 && prec < (if bSigned then 16 else 15) && (if bSigned then -F16MAX else 0) <= v <= F16MAX
    ensures var d, n := Shown(Quantize(v, prec, bSigned), prec, bSigned), Two(if bSigned then prec - 1 else prec);
      if v < 0 then Near(-v, -d, n) else Near(v, d, n)
  {
    var a, p := if v < 0 then -v else v, if bSigned then prec - 1 else prec;
    FourteenBits(p);
    if bSigned {
      StepIsNear(a, Two(p), 0x8000, 32);
      SignedShows(a, prec);
    } else {
      StepIsNear(v, Two(p), 0x1_0000, 64);
      UnsignedShows(v, prec);
    }
  }

  lemma FourteenBits(p: nat)
    requires p <= 14
    ensures Two(p) <= 0x4000
  {
    SixteenBits();
    TwoMono(p, 14);
    assert Two(15) == 2 * Two(14);
  }

  lemma UnsignedShows(v: int, prec: nat)
    requires 1 < prec < 15 && 0 <= v <= F16MAX
    ensures Shown(Quantize(v, prec, false), prec, false) == StepShown(v * Two(prec) / (F16MAX + 1), Two(prec), 0x1_0000, 64)
  {
    CutToStep(v, Two(prec));
  }

  lemma SignedShows(v: int, prec: nat)
    requires 1 < prec < 16 && 0 <= v <= F16MAX
    ensures var d := StepShown(v * Two(prec - 1) / (F16MAX + 1), Two(prec - 1), 0x8000, 32);
      Shown(Quantize(v, prec, true), prec, true) == d && Shown(Quantize(-v, prec, true), prec, true) == -d
  {
    CutToStep(v, Two(prec - 1));
    var m := QuantizeMagnitude(v, prec);
    MagnitudeRange(m, prec);
  }

  // With full precision nothing is cut, and nothing is scaled up to make good for the scaling down: the code shown is
  // 31/64 of the one quantized, or 31/32 in the signed format. It is the same code only for zero.
  lemma FullPrecisionShrinks(v: int, prec: nat, bSigned: bool)
    requires prec >= (if bSigned then 16 else 15) && (if bSigned then -F16MAX else 0) <= v <= F16MAX
    ensures Quantize(v, prec, bSigned) == v
    ensures Shown(v, prec, bSigned) == v <==> v == 0
    ensures !bSigned ==> Shown(v, prec, bSigned) == v * 31 / 64
    ensures bSigned && v >= 0 ==> Shown(v, prec, bSigned) == v * 31 / 32 && Shown(-v, prec, bSigned) == -(v * 31 / 32)
  {}

  // ---- decoding to half-float codes ----

  datatype Halves = Halves(r: nat, g: nat, b: nat)

  function ToF16(e: seq<EndPntPair>, idx: seq<nat>, info: ModeInfo, sh: Shape, bSigned: bool, i: nat): Halves
    requires PixelIsHalf(e, idx, info, sh, bSigned, i)
  {
    var c := Pixel(e, idx, info, sh, bSigned, i);
    Halves(INT2F16(c.r, bSigned), INT2F16(c.g, bSigned), INT2F16(c.b, bSigned))
  }

  // What the decoder gives for a pixel: its colour, or black in a reserved mode.
  ghost predicate Gives(h: Halves, d: Decoded, t: Tables, bSigned: bool, i: nat)
    requires Valid(t)
  {
    && ShowsHalves(d, t, bSigned, i)
    && h == if d.Block? then ToF16(d.ends, d.indices, t.infos[d.row], t.shapes[t.infos[d.row].uPartitions][d.shape], bSigned, i)
            else Halves(0, 0, 0)
  }

  lemma DecodedPixel(bytes: seq<Byte>, d: Decoded, t: Tables, bSigned: bool, i: nat)
    requires |bytes| == 16 && Valid(t) && d == Decoding(bytes, t, bSigned) && i < 16
    requires forall row :: 0 <= row < |t.infos| ==> OnePrecision(t.infos[row])
    ensures ShowsHalves(d, t, bSigned, i)
  {
    PixelsAreHalves(bytes, t, bSigned, i);
  }

  method DecodePixel(d: Decoded, t: Tables, bSigned: bool, i: nat) returns (h: Halves)
    requires Valid(t) && ShowsHalves(d, t, bSigned, i)
    ensures Gives(h, d, t, bSigned, i)
  {
    h := Halves(0, 0, 0);
    if d.Block? {
      var info := t.infos[d.row];
      h := ToF16(d.ends, d.indices, info, t.shapes[info.uPartitions][d.shape], bSigned, i);
    }
  }

  method DecodePixels(block: CBits, t: Tables, bSigned: bool) returns (pOut: seq<Halves>)
    requires block.Valid() && Valid(t) && forall row :: 0 <= row < |t.infos| ==> OnePrecision(t.infos[row])
    ensures |pOut| == 16 && forall i :: 0 <= i < 16 ==> Gives(pOut[i], Decoding(block.m_uBits[..], t, bSigned), t, bSigned, i)
  {
    var d := Decode(block, t, bSigned);
    pOut := [];
    while |pOut| < 16
      invariant |pOut| <= 16 && forall i :: 0 <= i < |pOut| ==> Gives(pOut[i], d, t, bSigned, i)
    {
      DecodedPixel(block.m_uBits[..], d, t, bSigned, |pOut|);
      var h := DecodePixel(d, t, bSigned, |pOut|);
      pOut := pOut + [h];
    }
  }
}

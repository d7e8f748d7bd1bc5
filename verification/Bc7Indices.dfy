/** BC7 components, the separate alpha palette of a block, its early-exit search, and the index swap of both planes. */
module Bc7Indices {
  import opened Powers
  import opened Bitwise
  import opened Bc6hBlock
  import Bc6hEncode

  const WEIGHTS2: seq<nat> := [0, 21, 43, 64]

  function Weights(prec: nat): seq<nat>
    requires 2 <= prec <= 4
  {
    if prec == 2 then WEIGHTS2 else Bc6hEncode.Weights(prec)
  }

  type Byte = n: int | 0 <= n < 0x100

  // ---- components of fewer than eight bits ----

  // The high bits repeated below; the or of the source joins disjoint bits.
  function Unquantize(comp: nat, p: nat): int
    requires 1 <= p <= 8
  {
    comp * Pow(2, 8 - p) + comp * Pow(2, 8 - p) / Pow(2, p)
  }

  function AtMost255(x: int): int {
    if x < 255 then x else 255
  }

  // Rounds to the nearest of the p-bit steps.
  function Quantize(comp: int, p: nat): int
    requires 1 <= p <= 7
  {
    AtMost255(comp + Pow(2, 7 - p)) / Pow(2, 8 - p)
  }

  lemma DivAtLeast(n: nat, h: nat, m: nat)
    requires h > 0
    ensures n / h >= m <==> n >= m * h
  {
    var q := n / h;
    assert n == q * h + n % h;
    if q >= m { MulMono(m, q, h); } else { MulMono(q + 1, m, h); MulDist(q, 1, h); }
  }

  // The repeated bits: less than a step, and at least half a step in the upper half of the range.
  lemma RepeatedBits(q: nat, k: nat, h: nat, half: nat)
    requires q < h && k == 2 * half && half > 0
    ensures var r := q * k / h; 0 <= r < k && (r >= half <==> 2 * q >= h)
  {
    DivAtLeast(q * k, h, k);
    MulStrict(q, h, k);
    DivAtLeast(q * k, h, half);
    MulAssoc(q, 2, half);
    MulCancel(2 * q, h, half);
  }

  lemma EightBits(p: nat)
    requires 1 <= p <= 7
    ensures Pow(2, p) * Pow(2, 8 - p) == 256 && Pow(2, 8 - p) == 2 * Pow(2, 7 - p) && Pow(2, p) == 2 * Pow(2, p - 1)
  {
    PowAdd(2, p, 8 - p);
    assert Pow(2, 4) == 16;
    PowAdd(2, 4, 4);
  }

  lemma RoundStep(q: nat, k: nat, h: nat, half: nat, r: nat)
    requires q < h && k == 2 * half && half > 0 && h * k == 256 && r < k
    ensures r < half ==> AtMost255(q * k + r + half) / k == q
    ensures r >= half && q < h - 1 ==> AtMost255(q * k + r + half) / k == q + 1
    ensures r >= half && q == h - 1 ==> AtMost255(q * k + r + half) / k == q
  {
    MulDist(q, 1, k);
    MulDist(h, q, k);
    if r < half {
      MulMono(1, h - q, k);
      DivUnique(q * k + r + half, k, q, r + half);
    } else if q < h - 1 {
      MulMono(2, h - q, k);
      DivUnique(q * k + r + half, k, q + 1, r - half);
    } else {
      DivUnique(255, k, q, k - 1);
    }
  }

  // Quantizing an unquantized value returns it only in the lower half of the range and at the top: the repeated
  // bits of the others round up to the next step.
  lemma QuantizeUnquantize(q: nat, p: nat)
    requires 1 <= p <= 7 && q < Pow(2, p)
    ensures Quantize(Unquantize(q, p), p) == q <==> q < Pow(2, p - 1) || q == Pow(2, p) - 1
  {
    EightBits(p);
    var k, h, half := Pow(2, 8 - p), Pow(2, p), Pow(2, 7 - p);
    RepeatedBits(q, k, h, half);
    RoundStep(q, k, h, half, q * k / h);
  }

  lemma StepNear(c: int, q: int, k: int, half: int, r: int, top: int)
    requires 0 <= c <= 255 && k == 2 * half && half > 0 && top == AtMost255(c + half)
    requires q * k <= top < q * k + k && 0 <= r < k && (top == 255 ==> q * k == 256 - k && r >= half)
    ensures -half < q * k + r - c < 3 * half
  {}

  lemma NearParts(c: int, k: nat, h: nat, half: nat)
    requires 0 <= c <= 255 && k == 2 * half && half > 0 && h * k == 256 && h > 1
    ensures var q := AtMost255(c + half) / k; 0 <= q < h && -(half as int) < q * k + q * k / h - c < 3 * half
  {
    var top := AtMost255(c + half);
    var q := top / k;
    assert q * k <= top < q * k + k by { assert top == q * k + top % k; }
    assert q < h by { DivAtLeast(top, k, h); }
    RepeatedBits(q, k, h, half);
    if top == 255 {
      assert q == h - 1 && q * k == 256 - k by {
        MulDist(h, 1, k);
        DivUnique(255, k, h - 1, k - 1);
      }
    }
    StepNear(c, q, k, half, q * k / h, top);
  }

  // Quantizing a component and unquantizing it again moves it down by less than half a step and up by less than one and
  // a half.
  lemma QuantizeNear(c: Byte, p: nat)
    requires 1 <= p <= 7
    ensures 0 <= Quantize(c, p)
    ensures var d, half: int := Unquantize(Quantize(c, p), p), Pow(2, 7 - p); -half < d - c < 3 * half
  {
    EightBits(p);
    NearParts(c, Pow(2, 8 - p), Pow(2, p), Pow(2, 7 - p));
  }

  // ---- interpolation ----

  function InterpolateA(a0: Byte, a1: Byte, w: nat): (a: int)
    requires w <= 64
  {
    (a0 * (64 - w) + a1 * w + 32) / 64
  }

  // The interpolated value moves from the first end to the second as the weight grows.
  lemma InterpolateMonotone(a0: Byte, a1: Byte, v: nat, w: nat)
    requires v <= w <= 64
    ensures a0 <= a1 ==> InterpolateA(a0, a1, v) <= InterpolateA(a0, a1, w)
    ensures a0 >= a1 ==> InterpolateA(a0, a1, v) >= InterpolateA(a0, a1, w)
  {
    var d := w - v;
    Spread(a0, a1, v, d);
    if a0 <= a1 { MulMono(a0, a1, d); } else { MulMono(a1, a0, d); }
  }

  // It is the weighted mean rounded to the nearest integer, from one end at weight 0 to the other at 64.
  lemma InterpolateNearest(a0: Byte, a1: Byte, w: nat)
    requires w <= 64
    ensures 64 * InterpolateA(a0, a1, w) - 32 <= a0 * (64 - w) + a1 * w < 64 * InterpolateA(a0, a1, w) + 32
    ensures InterpolateA(a0, a1, 0) == a0 && InterpolateA(a0, a1, 64) == a1
  {}

  lemma Spread(a0: int, a1: int, v: int, d: int)
    ensures a0 * (64 - (v + d)) + a1 * (v + d) == a0 * (64 - v) + a1 * v + a1 * d - a0 * d
  {}

  lemma WeightsMirror(prec: nat)
    requires 2 <= prec <= 4
    ensures forall k :: 0 <= k < |Weights(prec)| ==> Weights(prec)[|Weights(prec)| - 1 - k] == 64 - Weights(prec)[k]
  {}

  // The weights are the multiples of 64 / (n - 1), each rounded to the nearest integer.
  lemma WeightsEvenlySpaced(prec: nat)
    requires 2 <= prec <= 4
    ensures var n := |Weights(prec)| - 1; forall i :: 0 <= i <= n ==> -n < 2 * (n * Weights(prec)[i] - 64 * i) < n
  {}

  lemma WeightSteps(prec: nat)
    requires 2 <= prec <= 4
    ensures forall k :: 0 <= k < |Weights(prec)| - 1 ==> Weights(prec)[k] <= Weights(prec)[k + 1]
  {}

  lemma WeightTable(prec: nat, i: nat, j: nat)
    requires 2 <= prec <= 4 && i <= j < |Weights(prec)|
    ensures Weights(prec)[i] <= Weights(prec)[j] <= 64
  {
    WeightSteps(prec);
    Ascends(Weights(prec), i, j);
    Ascends(Weights(prec), j, |Weights(prec)| - 1);
  }

  lemma {:induction false} Ascends(w: seq<nat>, i: nat, j: nat)
    requires i <= j < |w| && forall k :: 0 <= k < |w| - 1 ==> w[k] <= w[k + 1]
    ensures w[i] <= w[j]
  {
    if i < j { Ascends(w, i, j - 1); }
  }

  // ---- the early-exit search of the alpha plane ----

  function Square(x: int): nat {
    if x < 0 then -x * -x else x * x
  }

  lemma SquareOrder(x: int, y: int)
    requires 0 <= x <= y || y <= x <= 0
    ensures Square(x) <= Square(y)
  {
    var a, b := if x < 0 then -x else x, if y < 0 then -y else y;
    MulMono(a, b, a);
    MulMono(a, b, b);
  }

  // The palette moves one way only.
  ghost predicate OneWay(palette: seq<int>) {
    || (forall i, j :: 0 <= i <= j < |palette| ==> palette[i] <= palette[j])
    || (forall i, j :: 0 <= i <= j < |palette| ==> palette[i] >= palette[j])
  }

  function Err(pixel: int, palette: seq<int>, i: nat): nat
    requires i < |palette|
  {
    Square(pixel - palette[i])
  }

  // Once the error has grown between two entries it does not shrink again.
  lemma ErrorKeepsGrowing(pixel: int, palette: seq<int>, i: nat, j: nat, k: nat)
    requires OneWay(palette) && i <= j <= k < |palette| && Err(pixel, palette, i) < Err(pixel, palette, j)
    ensures Err(pixel, palette, j) <= Err(pixel, palette, k)
  {
    var x, y, z := pixel - palette[i], pixel - palette[j], pixel - palette[k];
    if forall a, b :: 0 <= a <= b < |palette| ==> palette[a] <= palette[b] {
      assert x >= y >= z;
      if y >= 0 { SquareOrder(y, x); }
      SquareOrder(y, z);
    } else {
      assert x <= y <= z;
      if y <= 0 { SquareOrder(y, x); }
      SquareOrder(y, z);
    }
  }

  // The scan stops at an exact match or as soon as the error grows, and still finds the first of the least errors.
  method SearchAlpha(pixel: int, palette: seq<int>) returns (fBestErr: nat, best: nat)
    requires palette != [] && OneWay(palette)
    ensures best < |palette| && fBestErr == Err(pixel, palette, best)
    ensures forall i :: 0 <= i < |palette| ==> fBestErr <= Err(pixel, palette, i)
    ensures forall i :: 0 <= i < best ==> fBestErr < Err(pixel, palette, i)
  {
    best := 0;
    var known := false;  // the source starts from the largest float
    fBestErr := 0;
    var i := 0;
    while i < |palette| && (!known || fBestErr > 0)
      invariant 0 <= i <= |palette| && (known <==> i > 0)
      invariant known ==> best < i && fBestErr == Err(pixel, palette, best)
      invariant forall j :: 0 <= j < i ==> fBestErr <= Err(pixel, palette, j)
      invariant known ==> forall j :: 0 <= j < best ==> fBestErr < Err(pixel, palette, j)
    {
      var fErr := Err(pixel, palette, i);
      if known && fErr > fBestErr {
        forall k | i <= k < |palette| ensures fBestErr <= Err(pixel, palette, k) {
          ErrorKeepsGrowing(pixel, palette, best, i, k);
        }
        return;
      }
      if !known || fErr < fBestErr {
        fBestErr, best, known := fErr, i, true;
      }
      i := i + 1;
    }
  }

  function AlphaPalette(a0: Byte, a1: Byte, prec: nat): (p: seq<int>)
    requires 2 <= prec <= 4
    ensures |p| == |Weights(prec)|
  {
    var w := Weights(prec);
    seq(|w|, i requires 0 <= i < |w| => WeightTable(prec, i, i); InterpolateA(a0, a1, w[i]))
  }

  lemma AlphaPaletteOneWay(a0: Byte, a1: Byte, prec: nat)
    requires 2 <= prec <= 4
    ensures OneWay(AlphaPalette(a0, a1, prec))
  {
    var p, w := AlphaPalette(a0, a1, prec), Weights(prec);
    forall i: nat, j: nat | i <= j < |p|
      ensures a0 <= a1 ==> p[i] <= p[j]
      ensures a0 >= a1 ==> p[i] >= p[j]
    {
      WeightTable(prec, i, j);
      InterpolateMonotone(a0, a1, w[i], w[j]);
    }
  }

  // So the scan finds the least error of the whole alpha palette, at its first index.
  method BestAlpha(pixel: Byte, a0: Byte, a1: Byte, prec: nat) returns (fBestErr: nat, best: nat)
    requires 2 <= prec <= 4
    ensures best < |Weights(prec)|
    ensures fBestErr == Square(pixel - AlphaPalette(a0, a1, prec)[best])
    ensures forall i :: 0 <= i < |Weights(prec)| ==> fBestErr <= Square(pixel - AlphaPalette(a0, a1, prec)[i])
    ensures forall i :: 0 <= i < best ==> fBestErr < Square(pixel - AlphaPalette(a0, a1, prec)[i])
  {
    AlphaPaletteOneWay(a0, a1, prec);
    var palette := AlphaPalette(a0, a1, prec);
    fBestErr, best := SearchAlpha(pixel, palette);
    assert forall i :: 0 <= i < |palette| ==> Err(pixel, palette, i) == Square(pixel - palette[i]);
  }

  // ---- the index swap ----

  datatype LDRColorA = LDRColorA(r: nat, g: nat, b: nat, a: nat)
  datatype LDREndPntPair = LDREndPntPair(A: LDRColorA, B: LDRColorA)

  function Exchange(e: LDREndPntPair): LDREndPntPair {
    LDREndPntPair(e.B, e.A)
  }

  function ExchangeRGB(e: LDREndPntPair): LDREndPntPair {
    LDREndPntPair(LDRColorA(e.B.r, e.B.g, e.B.b, e.A.a), LDRColorA(e.A.r, e.A.g, e.A.b, e.B.a))
  }

  function ExchangeAlpha(e: LDREndPntPair): LDREndPntPair {
    LDREndPntPair(e.A.(a := e.B.a), e.B.(a := e.A.a))
  }

  // Bits per channel; no alpha bits stand for an opaque block.
  function Level(c: nat, p: nat): int {
    if 1 <= p <= 8 then Unquantize(c, p) else 255
  }

  function Mix(a: nat, b: nat, p: nat, w: int): int {
    (Level(a, p) * (64 - w) + Level(b, p) * w + 32) / 64
  }

  lemma MixMirror(a: nat, b: nat, p: nat, w: int)
    ensures Mix(b, a, p, 64 - w) == Mix(a, b, p, w)
  {}

  // The colour of a pixel, from its weights for the colour plane and the alpha plane.
  function PixelColor(e: LDREndPntPair, p: LDRColorA, w: int, wa: int): (int, int, int, int) {
    (Mix(e.A.r, e.B.r, p.r, w), Mix(e.A.g, e.B.g, p.g, w), Mix(e.A.b, e.B.b, p.b, w), Mix(e.A.a, e.B.a, p.a, wa))
  }

  ghost predicate OnPlane(idx: seq<nat>, prec: nat)
    requires 2 <= prec <= 4
  {
    |idx| == 16 && forall j :: 0 <= j < 16 ==> idx[j] < |Weights(prec)|
  }

  predicate HighSet(x: nat, prec: nat)
    requires prec > 0
  {
    Bit(x, prec - 1)
  }

  // With one plane of indices, the regions below n exchange all channels where their fix-up index asks for it.
  ghost predicate OnePlaneSwapped(e: seq<LDREndPntPair>, idx: seq<nat>, e': seq<LDREndPntPair>, idx': seq<nat>,
                                  sh: Shape, uPartitions: nat, prec: nat, n: nat)
    requires ShapeOk(sh, uPartitions) && 2 <= prec <= 4 && n <= uPartitions + 1
  {
    && |e| == |e'| == uPartitions + 1 && |idx| == |idx'| == 16
    && (forall p :: 0 <= p <= uPartitions ==>
          e'[p] == if p < n && HighSet(idx[sh.fixUp[p]], prec) then Exchange(e[p]) else e[p])
    && forall j :: 0 <= j < 16 ==>
         idx'[j] == if sh.region[j] < n && HighSet(idx[sh.fixUp[sh.region[j]]], prec) then |Weights(prec)| - 1 - idx[j]
                    else idx[j]
  }

  method SwapOnePlane(endPts: array<LDREndPntPair>, aIndices: array<nat>, sh: Shape, uPartitions: nat, prec: nat)
    requires ShapeOk(sh, uPartitions) && 2 <= prec <= 4
    requires endPts.Length == uPartitions + 1 && aIndices.Length == 16 && OnPlane(aIndices[..], prec)
    modifies endPts, aIndices
    ensures OnePlaneSwapped(old(endPts[..]), old(aIndices[..]), endPts[..], aIndices[..], sh, uPartitions, prec, uPartitions + 1)
  {
    ghost var e, idx := endPts[..], aIndices[..];
    var p := 0;
    while p <= uPartitions
      invariant 0 <= p <= uPartitions + 1
      invariant OnePlaneSwapped(e, idx, endPts[..], aIndices[..], sh, uPartitions, prec, p)
    {
      if HighSet(aIndices[sh.fixUp[p]], prec) {
        endPts[p] := Exchange(endPts[p]);
        Bc6hEncode.MirrorRegion(aIndices, sh, |Weights(prec)|, p);
      }
      p := p + 1;
    }
  }

  function MirrorAll(idx: seq<nat>, prec: nat, flip: bool): (r: seq<int>)
    requires 2 <= prec <= 4
    ensures |r| == |idx|
  {
    seq(|idx|, j requires 0 <= j < |idx| => if flip then |Weights(prec)| - 1 - idx[j] else idx[j])
  }

  method MirrorPlane(aIndices: array<nat>, uNumIndices: nat)
    requires aIndices.Length == 16 && forall j :: 0 <= j < 16 ==> aIndices[j] < uNumIndices
    modifies aIndices
    ensures forall j :: 0 <= j < 16 ==> aIndices[j] == uNumIndices - 1 - old(aIndices[j])
  {
    var i := 0;
    while i < 16
      invariant 0 <= i <= 16
      invariant forall k :: 0 <= k < 16 ==>
        aIndices[k] == if k < i then uNumIndices - 1 - old(aIndices[k]) else old(aIndices[k])
    {
      aIndices[i] := uNumIndices - 1 - aIndices[i];
      i := i + 1;
    }
  }

  // With separate planes, which only one-region modes have, colour and alpha are exchanged independently, each on
  // its own fix-up index.
  method SwapTwoPlanes(endPts: array<LDREndPntPair>, aIndices: array<nat>, aIndices2: array<nat>, sh: Shape,
                       prec: nat, prec2: nat)
    requires ShapeOk(sh, 0) && 2 <= prec <= 4 && 2 <= prec2 <= 4 && aIndices != aIndices2
    requires endPts.Length == 1 && aIndices.Length == 16 && OnPlane(aIndices[..], prec)
    requires aIndices2.Length == 16 && OnPlane(aIndices2[..], prec2)
    modifies endPts, aIndices, aIndices2
    ensures var flip, flip2 := HighSet(old(aIndices[sh.fixUp[0]]), prec), HighSet(old(aIndices2[0]), prec2);
      var e := if flip then ExchangeRGB(old(endPts[0])) else old(endPts[0]);
      && endPts[0] == (if flip2 then ExchangeAlpha(e) else e)
      && aIndices[..] == MirrorAll(old(aIndices[..]), prec, flip) && aIndices2[..] == MirrorAll(old(aIndices2[..]), prec2, flip2)
  {
    if HighSet(aIndices[sh.fixUp[0]], prec) {
      endPts[0] := ExchangeRGB(endPts[0]);
      Bc6hEncode.MirrorRegion(aIndices, sh, |Weights(prec)|, 0);
    }
    if HighSet(aIndices2[0], prec2) {
      endPts[0] := ExchangeAlpha(endPts[0]);
      MirrorPlane(aIndices2, |Weights(prec2)|);
    }
  }

  lemma HighIsUpperHalf(x: nat, prec: nat)
    requires 2 <= prec <= 4 && x < |Weights(prec)|
    ensures HighSet(x, prec) <==> x >= |Weights(prec)| - |Weights(prec)| / 2
    ensures HighSet(|Weights(prec)| - 1 - x, prec) <==> !HighSet(x, prec)
  {
    HalfTop(x, prec);
    HalfTop(|Weights(prec)| - 1 - x, prec);
  }

  lemma HalfTop(x: nat, prec: nat)
    requires 2 <= prec <= 4 && x < |Weights(prec)|
    ensures HighSet(x, prec) <==> x >= |Weights(prec)| / 2
  {
    if prec == 2 {
      assert Bit(x, 1) <==> Bit(x / 2, 0);
    } else if prec == 3 {
      assert Bit(x, 2) <==> Bit(x / 2, 1);
      assert Bit(x / 2, 1) <==> Bit(x / 4, 0);
    } else {
      assert Bit(x, 3) <==> Bit(x / 2, 2);
      assert Bit(x / 2, 2) <==> Bit(x / 4, 1);
      assert Bit(x / 4, 1) <==> Bit(x / 8, 0);
    }
  }

  lemma ExchangeKeeps(e: LDREndPntPair, p: LDRColorA, w: int, wa: int)
    ensures PixelColor(Exchange(e), p, 64 - w, 64 - w) == PixelColor(e, p, w, w)
    ensures PixelColor(ExchangeRGB(e), p, 64 - w, wa) == PixelColor(e, p, w, wa)
    ensures PixelColor(ExchangeAlpha(e), p, wa, 64 - w) == PixelColor(e, p, wa, w)
  {
    MixMirror(e.A.r, e.B.r, p.r, w);
    MixMirror(e.A.g, e.B.g, p.g, w);
    MixMirror(e.A.b, e.B.b, p.b, w);
    MixMirror(e.A.a, e.B.a, p.a, w);
  }

  lemma MirroredWeight(x: nat, prec: nat)
    requires 2 <= prec <= 4 && x < |Weights(prec)|
    ensures Weights(prec)[|Weights(prec)| - 1 - x] == 64 - Weights(prec)[x]
  {
    WeightsMirror(prec);
  }

  // One plane: no pixel changes.
  lemma OnePlaneKeepsColors(e: seq<LDREndPntPair>, idx: seq<nat>, e': seq<LDREndPntPair>, idx': seq<nat>, sh: Shape,
                            uPartitions: nat, prec: nat, p: LDRColorA, i: nat)
    requires ShapeOk(sh, uPartitions) && 2 <= prec <= 4 && OnPlane(idx, prec) && i < 16
    requires OnePlaneSwapped(e, idx, e', idx', sh, uPartitions, prec, uPartitions + 1)
    ensures idx'[i] < |Weights(prec)|
    ensures var k, w := sh.region[i], Weights(prec);
      PixelColor(e'[k], p, w[idx'[i]], w[idx'[i]]) == PixelColor(e[k], p, w[idx[i]], w[idx[i]])
  {
    var k := sh.region[i];
    if HighSet(idx[sh.fixUp[k]], prec) {
      MirroredWeight(idx[i], prec);
      ExchangeKeeps(e[k], p, Weights(prec)[idx[i]], 0);
    }
  }

  // One plane: every fix-up index ends with a clear high bit.
  lemma OnePlaneClears(e: seq<LDREndPntPair>, idx: seq<nat>, e': seq<LDREndPntPair>, idx': seq<nat>, sh: Shape,
                       uPartitions: nat, prec: nat, q: nat)
    requires ShapeOk(sh, uPartitions) && 2 <= prec <= 4 && OnPlane(idx, prec) && q <= uPartitions
    requires OnePlaneSwapped(e, idx, e', idx', sh, uPartitions, prec, uPartitions + 1)
    ensures !HighSet(idx'[sh.fixUp[q]], prec)
  {
    HighIsUpperHalf(idx[sh.fixUp[q]], prec);
  }

  lemma MirrorAllMeans(idx: seq<nat>, prec: nat, fixUp: nat, i: nat)
    requires 2 <= prec <= 4 && OnPlane(idx, prec) && fixUp < 16 && i < 16
    ensures var idx', w := MirrorAll(idx, prec, HighSet(idx[fixUp], prec)), Weights(prec);
      && 0 <= idx'[i] < |w| && w[idx'[i]] == (if HighSet(idx[fixUp], prec) then 64 - w[idx[i]] else w[idx[i]])
      && 0 <= idx'[fixUp] && !HighSet(idx'[fixUp], prec)
  {
    MirroredWeight(idx[i], prec);
    HighIsUpperHalf(idx[fixUp], prec);
  }

  lemma PlanesKeep(e: LDREndPntPair, p: LDRColorA, w: int, wa: int, flip: bool, flip2: bool)
    ensures var f := if flip then ExchangeRGB(e) else e;
      PixelColor(if flip2 then ExchangeAlpha(f) else f, p, if flip then 64 - w else w, if flip2 then 64 - wa else wa)
      == PixelColor(e, p, w, wa)
  {
    var f := if flip then ExchangeRGB(e) else e;
    ExchangeKeeps(e, p, w, wa);
    ExchangeKeeps(f, p, wa, if flip then 64 - w else w);
    ExchangeKeeps(f, p, wa, wa);
    MixMirror(e.A.a, e.B.a, p.a, wa);
  }

  // Two planes: both fix-up indices end with a clear high bit and no pixel changes.
  lemma TwoPlanesKeepColors(e: LDREndPntPair, idx: seq<nat>, idx2: seq<nat>, fixUp: nat, prec: nat, prec2: nat, p: LDRColorA,
                            i: nat)
    requires 2 <= prec <= 4 && 2 <= prec2 <= 4 && OnPlane(idx, prec) && OnPlane(idx2, prec2) && fixUp < 16 && i < 16
    ensures var flip, flip2 := HighSet(idx[fixUp], prec), HighSet(idx2[0], prec2);
      var f := if flip then ExchangeRGB(e) else e;
      var e', idx', idx2' := if flip2 then ExchangeAlpha(f) else f, MirrorAll(idx, prec, flip), MirrorAll(idx2, prec2, flip2);
      && 0 <= idx'[i] < |Weights(prec)| && 0 <= idx2'[i] < |Weights(prec2)|
      && 0 <= idx'[fixUp] && !HighSet(idx'[fixUp], prec) && 0 <= idx2'[0] && !HighSet(idx2'[0], prec2)
      && PixelColor(e', p, Weights(prec)[idx'[i]], Weights(prec2)[idx2'[i]])
         == PixelColor(e, p, Weights(prec)[idx[i]], Weights(prec2)[idx2[i]])
  {
    MirrorAllMeans(idx, prec, fixUp, i);
    MirrorAllMeans(idx2, prec2, 0, i);
    PlanesKeep(e, p, Weights(prec)[idx[i]], Weights(prec2)[idx2[i]], HighSet(idx[fixUp], prec), HighSet(idx2[0], prec2));
  }
}

/** The encoder's side of a BC6H block: quantized colours, the index swap, the fit test, and the emitted block. */
module Bc6hEncode {
  import opened Powers
  import opened Bitwise
  import opened BlockBits
  import opened Endpoints
  import opened Bc6hBlock
  import opened Bc6hDecode

  // ---- the colour a block gives to a pixel ----

  const WEIGHTS3: seq<nat> := [0, 9, 18, 27, 37, 46, 55, 64]
  const WEIGHTS4: seq<nat> := [0, 4, 9, 13, 17, 21, 26, 30, 34, 38, 43, 47, 51, 55, 60, 64]

  function Weights(uIndexPrec: nat): seq<nat> {
    if uIndexPrec == 3 then WEIGHTS3 else WEIGHTS4
  }

  // Signed components are scaled by magnitude; a shift of a negative number would round down.
  function Unquantize(comp: int, uBitsPerComp: nat, bSigned: bool): int {
    if bSigned then
      if uBitsPerComp >= 16 then comp
      else if comp < 0 then -UnquantizeMagnitude(-comp, uBitsPerComp) else UnquantizeMagnitude(comp, uBitsPerComp)
    else if uBitsPerComp >= 15 then comp
    else if comp == 0 then 0
    else if comp == Two(uBitsPerComp) - 1 then 0xFFFF
    else (comp * 0x1_0000 + 0x8000) / Two(uBitsPerComp)
  }

  function UnquantizeMagnitude(comp: int, uBitsPerComp: nat): int {
    if comp == 0 || uBitsPerComp == 0 then 0
    else if comp >= Two(uBitsPerComp - 1) - 1 then 0x7FFF
    else (comp * 0x8000 + 0x4000) / Two(uBitsPerComp - 1)
  }

  function FinishUnquantize(comp: int, bSigned: bool): int {
    if bSigned then (if comp < 0 then -(-comp * 31 / 32) else comp * 31 / 32) else comp * 31 / 64
  }

  function Interpolate(a: int, b: int, w: int): int {
    (a * (64 - w) + b * w + 32) / 64
  }

  function Component(a: int, b: int, prec: nat, bSigned: bool, w: int): int {
    FinishUnquantize(Interpolate(Unquantize(a, prec, bSigned), Unquantize(b, prec, bSigned), w), bSigned)
  }

  // The half-float codes of one pixel.
  function PixelColor(e: EndPntPair, prec: Prec, bSigned: bool, w: int): INTColor {
    INTColor(Component(e.A.r, e.B.r, prec.r, bSigned, w), Component(e.A.g, e.B.g, prec.g, bSigned, w),
             Component(e.A.b, e.B.b, prec.b, bSigned, w))
  }

  ghost predicate OnPalette(idx: seq<nat>, uIndexPrec: nat) {
    |idx| == 16 && forall i :: 0 <= i < 16 ==> idx[i] < (if uIndexPrec == 3 then 8 else 16)
  }

  function Pixel(e: seq<EndPntPair>, idx: seq<nat>, info: ModeInfo, sh: Shape, bSigned: bool, i: nat): INTColor
    requires |e| == 2 && |info.prec| == 4 && |sh.region| == 16 && i < 16 && sh.region[i] <= 1
    requires |idx| == 16 && idx[i] < |Weights(info.uIndexPrec)|
  {
    PixelColor(e[sh.region[i]], info.prec[0], bSigned, Weights(info.uIndexPrec)[idx[i]])
  }

  // ---- the index swap ----

  lemma WeightsMirror(uIndexPrec: nat, i: nat)
    requires i < |Weights(uIndexPrec)|
    ensures var w := Weights(uIndexPrec); w[|w| - 1 - i] == 64 - w[i]
  {
    if uIndexPrec == 3 {
      assert forall k :: 0 <= k < 8 ==> WEIGHTS3[7 - k] == 64 - WEIGHTS3[k];
    } else {
      assert forall k :: 0 <= k < 16 ==> WEIGHTS4[15 - k] == 64 - WEIGHTS4[k];
    }
  }

  // Exchanging the ends and mirroring the weight gives the same colour.
  lemma MirrorColor(e: EndPntPair, prec: Prec, bSigned: bool, w: int)
    ensures PixelColor(EndPntPair(e.B, e.A), prec, bSigned, 64 - w) == PixelColor(e, prec, bSigned, w)
  {}

  // Whether the index at the region's fix-up pixel has its high bit set.
  predicate Flips(idx: seq<nat>, sh: Shape, uIndexPrec: nat, p: nat)
    requires |idx| == 16 && p < |sh.fixUp| && sh.fixUp[p] < 16 && uIndexPrec > 0
  {
    Bit(idx[sh.fixUp[p]], uIndexPrec - 1)
  }

  function SwapPair(e: EndPntPair, flip: bool): EndPntPair {
    if flip then EndPntPair(e.B, e.A) else e
  }

  // Endpoints and indices after the regions below n have been swapped as needed.
  ghost predicate SwappedBelow(e: seq<EndPntPair>, idx: seq<nat>, e': seq<EndPntPair>, idx': seq<nat>,
                               info: ModeInfo, sh: Shape, n: nat)
    requires WellFormed(info) && ShapeOk(sh, info.uPartitions) && n <= info.uPartitions + 1
  {
    && |e| == |e'| == 2 && |idx| == |idx'| == 16
    && (forall p :: 0 <= p <= info.uPartitions ==>
          e'[p] == if p < n then SwapPair(e[p], Flips(idx, sh, info.uIndexPrec, p)) else e[p])
    && forall j :: 0 <= j < 16 ==>
         idx'[j] == if sh.region[j] < n && Flips(idx, sh, info.uIndexPrec, sh.region[j]) then |Weights(info.uIndexPrec)| - 1 - idx[j]
                    else idx[j]
  }

  method MirrorRegion(aIndices: array<nat>, sh: Shape, uNumIndices: nat, p: nat)
    requires aIndices.Length == 16 && |sh.region| == 16
    requires forall j :: 0 <= j < 16 && sh.region[j] == p ==> aIndices[j] < uNumIndices
    modifies aIndices
    ensures forall j :: 0 <= j < 16 ==>
      aIndices[j] == if sh.region[j] == p then uNumIndices - 1 - old(aIndices[j]) else old(aIndices[j])
  {
    var j := 0;
    while j < 16
      invariant 0 <= j <= 16
      invariant forall k :: 0 <= k < 16 ==>
        aIndices[k] == if k < j && sh.region[k] == p then uNumIndices - 1 - old(aIndices[k]) else old(aIndices[k])
    {
      if sh.region[j] == p {
        aIndices[j] := uNumIndices - 1 - aIndices[j];
      }
      j := j + 1;
    }
  }

  // Swaps endpoints so that the index at every fix-up pixel has a clear high bit.
  method SwapIndices(aEndPts: array<EndPntPair>, aIndices: array<nat>, info: ModeInfo, sh: Shape)
    requires WellFormed(info) && ShapeOk(sh, info.uPartitions)
    requires aEndPts.Length == 2 && aIndices.Length == 16 && OnPalette(aIndices[..], info.uIndexPrec)
    modifies aEndPts, aIndices
    ensures SwappedBelow(old(aEndPts[..]), old(aIndices[..]), aEndPts[..], aIndices[..], info, sh, info.uPartitions + 1)
    ensures info.uPartitions == 0 ==> aEndPts[1] == old(aEndPts[1])
  {
    ghost var e, idx := aEndPts[..], aIndices[..];
    var uNumIndices := |Weights(info.uIndexPrec)|;
    var p := 0;
    while p <= info.uPartitions
      invariant 0 <= p <= info.uPartitions + 1
      invariant SwappedBelow(e, idx, aEndPts[..], aIndices[..], info, sh, p)
      invariant info.uPartitions == 0 ==> aEndPts[1] == e[1]
    {
      var i := sh.fixUp[p];
      if Bit(aIndices[i], info.uIndexPrec - 1) {
        aEndPts[p] := EndPntPair(aEndPts[p].B, aEndPts[p].A);
        MirrorRegion(aIndices, sh, uNumIndices, p);
      }
      p := p + 1;
    }
  }

  lemma HighBit(x: nat, uIndexPrec: nat)
    requires (uIndexPrec == 3 && x < 8) || (uIndexPrec == 4 && x < 16)
    ensures Bit(x, uIndexPrec - 1) <==> x >= Pow(2, uIndexPrec - 1)
    ensures Pow(2, uIndexPrec) == |Weights(uIndexPrec)| == 2 * Pow(2, uIndexPrec - 1)
  {
    assert Pow(2, 2) == 4 && Pow(2, 3) == 8;
    LowTop(x, uIndexPrec);
    LowOfSmall(x, uIndexPrec);
    LowBound(x, uIndexPrec - 1);
  }

  // After the swap every index fits its field, as the block writer demands.
  lemma SwapFits(e: seq<EndPntPair>, idx: seq<nat>, e': seq<EndPntPair>, idx': seq<nat>, info: ModeInfo, sh: Shape)
    requires WellFormed(info) && ShapeOk(sh, info.uPartitions) && OnPalette(idx, info.uIndexPrec)
    requires SwappedBelow(e, idx, e', idx', info, sh, info.uPartitions + 1)
    ensures IndicesFit(info, sh, idx') && OnPalette(idx', info.uIndexPrec)
  {
    forall i | 0 <= i < 16
      ensures idx'[i] < Pow(2, IndexBits(info, sh, i)) && idx'[i] < |Weights(info.uIndexPrec)|
    {
      HighBit(idx[i], info.uIndexPrec);
    }
  }

  // The swap changes no pixel.
  lemma SwapKeepsColors(e: seq<EndPntPair>, idx: seq<nat>, e': seq<EndPntPair>, idx': seq<nat>, info: ModeInfo, sh: Shape,
                        bSigned: bool, i: nat)
    requires WellFormed(info) && ShapeOk(sh, info.uPartitions) && OnPalette(idx, info.uIndexPrec) && i < 16
    requires SwappedBelow(e, idx, e', idx', info, sh, info.uPartitions + 1)
    ensures idx'[i] < |Weights(info.uIndexPrec)|
    ensures Pixel(e', idx', info, sh, bSigned, i) == Pixel(e, idx, info, sh, bSigned, i)
  {
    var p := sh.region[i];
    if Flips(idx, sh, info.uIndexPrec, p) {
      WeightsMirror(info.uIndexPrec, idx[i]);
      MirrorColor(e[p], info.prec[0], bSigned, Weights(info.uIndexPrec)[idx[i]]);
    }
  }

  // ---- quantized endpoints and the fit test ----

  const F16MAX: int := 0x7bff

  function Quantize(iValue: int, prec: nat, bSigned: bool): int
    requires prec > 1 && -F16MAX <= iValue <= F16MAX && (!bSigned ==> iValue >= 0)
  {
    if bSigned then (if iValue < 0 then -QuantizeMagnitude(-iValue, prec) else QuantizeMagnitude(iValue, prec))
    else if prec >= 15 then iValue else iValue * Two(prec) / (F16MAX + 1)
  }

  function QuantizeMagnitude(iValue: nat, prec: nat): int
    requires prec > 1
  {
    if prec >= 16 then iValue else iValue * Two(prec - 1) / (F16MAX + 1)
  }

  lemma ScaledDown(v: nat, t: nat)
    requires v <= F16MAX && t > 0
    ensures 0 <= v * t / (F16MAX + 1) < t
  {
    var d := F16MAX + 1;
    MulMono(v, F16MAX, t);
    MulMono(0, v, t);
    var q := v * t / d;
    if q >= t { MulMono(t, q, d); }
  }

  // Quantized values lie in the precision range of the mode.
  lemma QuantizeFits(iValue: int, prec: nat, bSigned: bool)
    requires prec > 1 && -F16MAX <= iValue <= F16MAX && (!bSigned ==> iValue >= 0)
    ensures Fits(Quantize(iValue, prec, bSigned), bSigned, prec)
  {
    var m := if iValue < 0 then -iValue else iValue;
    ScaledDown(m, Two(prec));
    ScaledDown(m, Two(prec - 1));
    FifteenBits();
    if prec >= 15 { PowMono(2, 15, prec); }
    if prec >= 16 { PowMono(2, 15, prec - 1); }
  }

  lemma FifteenBits()
    ensures Pow(2, 15) == 0x8000
  {
    assert Pow(2, 5) == 32;
    PowAdd(2, 5, 5);
    PowAdd(2, 5, 10);
  }

  ghost predicate NonNegative(c: INTColor) {
    c.r >= 0 && c.g >= 0 && c.b >= 0
  }

  // Unsigned formats have no negative endpoints in the regions they use.
  ghost predicate UsedNonNegative(e: seq<EndPntPair>, info: ModeInfo)
    requires |e| == 2
  {
    && NonNegative(e[0].A) && NonNegative(e[0].B)
    && (info.uPartitions > 0 ==> NonNegative(e[1].A) && NonNegative(e[1].B))
  }

  method ColorBitsFit(c: INTColor, bIsSigned: bool, prec: Prec) returns (fit: bool)
    requires bIsSigned || NonNegative(c)
    ensures fit <==> ColorFits(c, prec, bIsSigned)
  {
    var r := NBits(c.r, bIsSigned);
    var g := NBits(c.g, bIsSigned);
    var b := NBits(c.b, bIsSigned);
    fit := r <= prec.r && g <= prec.g && b <= prec.b;
  }

  // Whether the deltas fit the fields of the mode.
  method EndPointsFit(info: ModeInfo, aEndPts: seq<EndPntPair>, bSigned: bool) returns (fit: bool)
    requires WellFormed(info) && |aEndPts| == 2
    requires bSigned || NonNegative(aEndPts[0].A)
    requires bSigned || info.bTransformed || UsedNonNegative(aEndPts, info)
    ensures fit <==> EndPointsFitIn(aEndPts, info, bSigned)
  {
    var more := info.bTransformed || bSigned;
    var a := ColorBitsFit(aEndPts[0].A, bSigned, info.prec[0]);
    var b := ColorBitsFit(aEndPts[0].B, more, info.prec[1]);
    fit := a && b;
    if fit && info.uPartitions > 0 {
      a := ColorBitsFit(aEndPts[1].A, more, info.prec[2]);
      b := ColorBitsFit(aEndPts[1].B, more, info.prec[3]);
      fit := a && b;
    }
  }

  // ---- from the encoder's choice to the decoder's pixels ----

  // The endpoints of the regions in use lie in the precision range of the mode.
  ghost predicate UsedInRange(e: seq<EndPntPair>, info: ModeInfo, bSigned: bool)
    requires WellFormed(info) && |e| == 2
  {
    && ColorFits(e[0].A, info.prec[0], bSigned) && ColorFits(e[0].B, info.prec[0], bSigned)
    && (info.uPartitions > 0 ==> ColorFits(e[1].A, info.prec[0], bSigned) && ColorFits(e[1].B, info.prec[0], bSigned))
  }

  function Stored(e: seq<EndPntPair>, info: ModeInfo): seq<EndPntPair>
    requires |e| == 2
  {
    if info.bTransformed then Forward(e) else e
  }

  // Through the delta transform, exactly the endpoints in range come back.
  lemma TransformedComesBack(e: seq<EndPntPair>, info: ModeInfo, bSigned: bool)
    requires WellFormed(info) && |e| == 2 && ColorFits(e[0].A, info.prec[0], bSigned)
    ensures SameEnds(Inverse(Forward(e), info.prec[0], bSigned), e, info.uPartitions) <==> UsedInRange(e, info, bSigned)
  {
    PlusMinus(e[0].B, e[0].A);
    PlusMinus(e[1].A, e[0].A);
    PlusMinus(e[1].B, e[0].A);
    WrapColorKeeps(e[0].B, info.prec[0], bSigned);
    WrapColorKeeps(e[1].A, info.prec[0], bSigned);
    WrapColorKeeps(e[1].B, info.prec[0], bSigned);
  }

  lemma ZeroFits(p: nat)
    ensures Fits(0, true, p)
  {}

  lemma RedFits(v: int, prec: Prec)
    requires Fits(v, true, prec.r)
    ensures ColorFits(INTColor(v, 0, 0), prec, true)
  {
    ZeroFits(prec.g);
    ZeroFits(prec.b);
  }

  // The largest number that fits, the one above it, and one itself.
  lemma Edge(p: nat, q: nat)
    requires p > 0 && q >= 2
    ensures Fits(Two(p - 1) - 1, true, p) && !Fits(Two(p - 1), true, p) && Fits(1, true, q)
  {
    assert Two(q - 1) == 2 * Two(q - 2);
  }

  // Endpoints of one region up to the edge and one beyond it, and the other region at the edge.
  function AtEdge(top: int): seq<EndPntPair> {
    var edge := INTColor(top - 1, 0, 0);
    [EndPntPair(edge, INTColor(top, 0, 0)), EndPntPair(edge, edge)]
  }

  lemma EdgeDeltas(top: int)
    ensures var zero := INTColor(0, 0, 0);
      Forward(AtEdge(top)) == [EndPntPair(INTColor(top - 1, 0, 0), INTColor(1, 0, 0)), EndPntPair(zero, zero)]
  {}

  lemma EdgeFits(info: ModeInfo, top: int)
    requires |info.prec| == 4 && Fits(1, true, info.prec[1].r) && Fits(top - 1, true, info.prec[0].r)
    ensures EndPointsFitIn(Forward(AtEdge(top)), info, true) && ColorFits(AtEdge(top)[0].A, info.prec[0], true)
  {
    ZeroFits(info.prec[2].r);
    ZeroFits(info.prec[3].r);
    RedFits(top - 1, info.prec[0]);
    RedFits(1, info.prec[1]);
    RedFits(0, info.prec[2]);
    RedFits(0, info.prec[3]);
    EdgeDeltas(top);
  }

  lemma EdgeOutside(info: ModeInfo, top: int)
    requires WellFormed(info) && !Fits(top, true, info.prec[0].r)
    ensures !UsedInRange(AtEdge(top), info, true)
  {}

  // Deltas can fit although an endpoint does not: the fit test looks at the first endpoint and at differences
  // only. One above the largest signed number fits as a delta of one and comes back as something else, whatever the
  // mode, as long as its deltas have two bits.
  lemma FitsYetWraps(info: ModeInfo)
    requires WellFormed(info) && info.prec[1].r >= 2
    ensures var e := AtEdge(Two(info.prec[0].r - 1));
      && EndPointsFitIn(Forward(e), info, true)
      && !SameEnds(Inverse(Forward(e), info.prec[0], true), e, info.uPartitions)
  {
    var top := Two(info.prec[0].r - 1);
    Edge(info.prec[0].r, info.prec[1].r);
    EdgeFits(info, top);
    EdgeOutside(info, top);
    TransformedComesBack(AtEdge(top), info, true);
  }

  // A decoded block gives pixel i the colour of endpoints e and indices idx.
  ghost predicate Shows(d: Decoded, t: Tables, row: nat, shape: nat, e: seq<EndPntPair>, idx: seq<nat>, bSigned: bool, i: nat)
    requires Valid(t) && row < |t.infos| && shape < 32 && |e| == 2 && OnPalette(idx, t.infos[row].uIndexPrec) && i < 16
  {
    var info := t.infos[row];
    var sh := t.shapes[info.uPartitions][shape];
    && d.Block? && d.row == row && d.shape == shape && |d.ends| == 2 && OnPalette(d.indices, info.uIndexPrec)
    && Pixel(d.ends, d.indices, info, sh, bSigned, i) == Pixel(e, idx, info, sh, bSigned, i)
  }

  lemma SameEndsShow(d: Decoded, t: Tables, row: nat, shape: nat, e: seq<EndPntPair>, idx: seq<nat>, e': seq<EndPntPair>,
                     idx': seq<nat>, bSigned: bool, i: nat)
    requires Valid(t) && row < |t.infos| && shape < 32 && |e| == 2 && OnPalette(idx, t.infos[row].uIndexPrec) && i < 16
    requires var info := t.infos[row];
      SwappedBelow(e, idx, e', idx', info, t.shapes[info.uPartitions][shape], info.uPartitions + 1)
    requires d.Block? && d.row == row && d.shape == shape && |d.ends| == 2 && d.indices == idx'
    requires SameEnds(d.ends, e', t.infos[row].uPartitions)
    ensures Shows(d, t, row, shape, e, idx, bSigned, i)
  {
    var info := t.infos[row];
    var sh := t.shapes[info.uPartitions][shape];
    SwapFits(e, idx, e', idx', info, sh);
    SwapKeepsColors(e, idx, e', idx', info, sh, bSigned, i);
  }

  // Whatever endpoints and indices the encoder settles on, the emitted block decodes to exactly the colours
  // they stand for, through the index swap, the delta transform, the scattered header and the shortened indices.
  lemma BlockShowsColors(t: Tables, row: nat, shape: nat, e: seq<EndPntPair>, idx: seq<nat>, e': seq<EndPntPair>,
                         idx': seq<nat>, bytes: seq<Byte>, bSigned: bool, i: nat)
    requires Valid(t) && row < |t.infos| && |e| == 2 && shape < 32 && i < 16
    requires var info := t.infos[row]; var sh := t.shapes[info.uPartitions][shape];
      && Complete(info) && (info.uPartitions == 0 ==> shape == 0)
      && OnPalette(idx, info.uIndexPrec) && SwappedBelow(e, idx, e', idx', info, sh, info.uPartitions + 1)
      && (info.bTransformed ==> UsedInRange(e', info, bSigned)) && EndPointsFitIn(Stored(e', info), info, bSigned)
      && HeaderHolds(bytes, info, Header(info.uMode, shape, Stored(e', info)), HeaderBits(info))
      && IndicesHold(bytes, info, sh, idx', 16)
    ensures Shows(Decoding(bytes, t, bSigned), t, row, shape, e, idx, bSigned, i)
  {
    var info := t.infos[row];
    SwapFits(e, idx, e', idx', info, t.shapes[info.uPartitions][shape]);
    RoundTrip(bytes, t, row, shape, Stored(e', info), idx', bSigned);
    if info.bTransformed {
      TransformedComesBack(e', info, bSigned);
    }
    SameEndsShow(Decoding(bytes, t, bSigned), t, row, shape, e, idx, e', idx', bSigned, i);
  }
}

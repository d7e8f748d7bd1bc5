/** The encoder's refinement of one shape: quantized endpoints, a search for better ones, and the block for the better. */
module Bc6hRefine {
  import opened BlockBits
  import opened Endpoints
  import opened EndpointSearch
  import opened Bc6hBlock
  import opened Bc6hDecode
  import opened Bc6hEncode

  // ---- what is written ----

  // A block written for endpoints and indices, through their swapped form: stored and fitting.
  ghost predicate EmittedAs(bytes: seq<Byte>, info: ModeInfo, sh: Shape, shape: nat, e: seq<EndPntPair>, idx: seq<nat>,
                            e': seq<EndPntPair>, idx': seq<nat>, bSigned: bool)
    requires WellFormed(info) && ShapeOk(sh, info.uPartitions)
  {
    && SwappedBelow(e, idx, e', idx', info, sh, info.uPartitions + 1)
    && EndPointsFitIn(Stored(e', info), info, bSigned)
    && HeaderHolds(bytes, info, Header(info.uMode, shape, Stored(e', info)), HeaderBits(info))
    && IndicesHold(bytes, info, sh, idx', 16)
  }

  ghost predicate Emitted(bytes: seq<Byte>, info: ModeInfo, sh: Shape, shape: nat, e: seq<EndPntPair>, idx: seq<nat>,
                          bSigned: bool)
    requires WellFormed(info) && ShapeOk(sh, info.uPartitions)
  {
    exists e', idx' :: EmittedAs(bytes, info, sh, shape, e, idx, e', idx', bSigned)
  }

  // A mode and shape of the tables; modes of one region have no shapes.
  ghost predicate InTables(t: Tables, row: nat, shape: nat) {
    Valid(t) && row < |t.infos| && shape < 32 && Complete(t.infos[row]) && (t.infos[row].uPartitions == 0 ==> shape == 0)
  }

  function ShapeOf(t: Tables, row: nat, shape: nat): Shape
    requires Valid(t) && row < |t.infos| && shape < 32
  {
    t.shapes[t.infos[row].uPartitions][shape]
  }

  ghost predicate AllShow(t: Tables, row: nat, shape: nat, bytes: seq<Byte>, e: seq<EndPntPair>, idx: seq<nat>, bSigned: bool)
    requires Valid(t) && row < |t.infos| && shape < 32 && |e| == 2 && OnPalette(idx, t.infos[row].uIndexPrec)
    requires |bytes| == 16
  {
    forall i :: 0 <= i < 16 ==> Shows(Decoding(bytes, t, bSigned), t, row, shape, e, idx, bSigned, i)
  }

  // The block shows the choice, in a delta mode when its endpoints are in range.
  lemma EmittedShows(t: Tables, row: nat, shape: nat, bytes: seq<Byte>, e: seq<EndPntPair>, idx: seq<nat>, bSigned: bool)
    requires InTables(t, row, shape) && |e| == 2 && OnPalette(idx, t.infos[row].uIndexPrec)
    requires Emitted(bytes, t.infos[row], ShapeOf(t, row, shape), shape, e, idx, bSigned)
    requires t.infos[row].bTransformed ==> UsedInRange(e, t.infos[row], bSigned)
    ensures |bytes| == 16 && AllShow(t, row, shape, bytes, e, idx, bSigned)
  {
    var info, sh := t.infos[row], ShapeOf(t, row, shape);
    var e', idx' :| EmittedAs(bytes, info, sh, shape, e, idx, e', idx', bSigned);
    forall i | 0 <= i < 16
      ensures Shows(Decoding(bytes, t, bSigned), t, row, shape, e, idx, bSigned, i)
    {
      WrittenShows(t, row, shape, bytes, e, idx, e', idx', bSigned, i);
    }
  }

  lemma WrittenShows(t: Tables, row: nat, shape: nat, bytes: seq<Byte>, e: seq<EndPntPair>, idx: seq<nat>,
                     e': seq<EndPntPair>, idx': seq<nat>, bSigned: bool, i: nat)
    requires InTables(t, row, shape) && |e| == 2 && OnPalette(idx, t.infos[row].uIndexPrec) && i < 16
    requires EmittedAs(bytes, t.infos[row], ShapeOf(t, row, shape), shape, e, idx, e', idx', bSigned)
    requires t.infos[row].bTransformed ==> UsedInRange(e, t.infos[row], bSigned)
    ensures |bytes| == 16 && Shows(Decoding(bytes, t, bSigned), t, row, shape, e, idx, bSigned, i)
  {
    SwapKeepsSigns(e, idx, e', idx', t.infos[row], ShapeOf(t, row, shape), bSigned);
    BlockShowsColors(t, row, shape, e, idx, e', idx', bytes, bSigned, i);
  }

  // In range is also necessary for the endpoints to come back, swapped as they were written.
  lemma EmittedComesBack(t: Tables, row: nat, shape: nat, bytes: seq<Byte>, e: seq<EndPntPair>, idx: seq<nat>,
                         e': seq<EndPntPair>, idx': seq<nat>, bSigned: bool)
    requires InTables(t, row, shape) && |e| == 2 && OnPalette(idx, t.infos[row].uIndexPrec)
    requires t.infos[row].bTransformed
    requires EmittedAs(bytes, t.infos[row], ShapeOf(t, row, shape), shape, e, idx, e', idx', bSigned)
    ensures |bytes| == 16
    ensures var d := Decoding(bytes, t, bSigned);
      d.Block? && |d.ends| == 2 && d.indices == idx'
      && (SameEnds(d.ends, e', t.infos[row].uPartitions) <==> UsedInRange(e, t.infos[row], bSigned))
  {
    var info, sh := t.infos[row], ShapeOf(t, row, shape);
    SwapFits(e, idx, e', idx', info, sh);
    RoundTrip(bytes, t, row, shape, Stored(e', info), idx', bSigned);
    TransformedComesBack(e', info, bSigned);
    SwapKeepsSigns(e, idx, e', idx', info, sh, bSigned);
  }

  // ---- where the endpoints come from ----

  function Precs(info: ModeInfo): nat -> nat
    requires |info.prec| == 4
  {
    ch => ChannelPrec(info.prec[0], ch)
  }

  // Each component is one of the same channel in the region's original endpoints, or lies in the unsigned range.
  ghost predicate DrawnFrom(org: EndPntPair, e: EndPntPair, uPrec: nat -> nat) {
    forall ch, do_b :: 0 <= ch < 3 && 0 <= do_b < 2 ==>
      || GetEnd(e, ch, do_b) == Channel(org.A, ch) || GetEnd(e, ch, do_b) == Channel(org.B, ch)
      || 0 <= GetEnd(e, ch, do_b) < Two(uPrec(ch))
  }

  ghost predicate Drawn(org: seq<EndPntPair>, e: seq<EndPntPair>, info: ModeInfo)
    requires WellFormed(info)
  {
    |org| == |e| == 2 && forall p :: 0 <= p <= info.uPartitions ==> DrawnFrom(org[p], e[p], Precs(info))
  }

  lemma PairInRange(org: EndPntPair, e: EndPntPair, prec: Prec, uPrec: nat -> nat)
    requires uPrec(0) == prec.r && uPrec(1) == prec.g && uPrec(2) == prec.b
    requires DrawnFrom(org, e, uPrec) && ColorFits(org.A, prec, false) && ColorFits(org.B, prec, false)
    ensures ColorFits(e.A, prec, false) && ColorFits(e.B, prec, false)
  {
    forall ch: nat, do_b: nat | ch < 3 && do_b < 2
      ensures 0 <= GetEnd(e, ch, do_b) < Two(uPrec(ch))
    {}
    assert GetEnd(e, 0, 0) == e.A.r && GetEnd(e, 1, 0) == e.A.g && GetEnd(e, 2, 0) == e.A.b;
    assert GetEnd(e, 0, 1) == e.B.r && GetEnd(e, 1, 1) == e.B.g && GetEnd(e, 2, 1) == e.B.b;
  }

  // In unsigned formats the search cannot leave the range.
  lemma UnsignedInRange(org: seq<EndPntPair>, e: seq<EndPntPair>, info: ModeInfo)
    requires WellFormed(info) && Drawn(org, e, info) && UsedInRange(org, info, false)
    ensures UsedInRange(e, info, false)
  {
    PairInRange(org[0], e[0], info.prec[0], Precs(info));
    if info.uPartitions > 0 {
      PairInRange(org[1], e[1], info.prec[0], Precs(info));
    }
  }

  // In signed formats it can: one step up from the largest number leaves the range, within what the search tries.
  lemma SignedLeavesRange(info: ModeInfo, org: seq<EndPntPair>)
    requires WellFormed(info) && info.prec[1].r >= 2
    requires var edge := INTColor(Two(info.prec[0].r - 1) - 1, 0, 0); org == [EndPntPair(edge, edge), EndPntPair(edge, edge)]
    ensures var e := AtEdge(Two(info.prec[0].r - 1));
      UsedInRange(org, info, true) && Drawn(org, e, info) && !UsedInRange(e, info, true) && EndPointsFitIn(Forward(e), info, true)
  {
    var r := info.prec[0].r;
    var top := Two(r - 1);
    Edge(r, info.prec[1].r);
    RedFits(top - 1, info.prec[0]);
    EdgeFits(info, top);
    EdgeOutside(info, top);
    assert Two(r) == 2 * top && Precs(info)(0) == r;
    EdgeDrawn(top, org[0], Precs(info));
  }

  lemma EdgeDrawn(top: int, org: EndPntPair, uPrec: nat -> nat)
    requires 0 < top < Two(uPrec(0)) && org.A == org.B == INTColor(top - 1, 0, 0)
    ensures DrawnFrom(org, AtEdge(top)[0], uPrec) && DrawnFrom(org, AtEdge(top)[1], uPrec)
  {}

  // What the search makes of swapped endpoints is drawn from the originals.
  lemma SearchDraws(org: EndPntPair, flip: bool, e: EndPntPair, uPrec: nat -> nat)
    requires StaysIn(SwapPair(org, flip), e, uPrec)
    ensures DrawnFrom(org, e, uPrec)
  {
    forall ch: nat, do_b: nat | ch < 3 && do_b < 2
      ensures GetEnd(SwapPair(org, flip), ch, do_b) == Channel(org.A, ch) || GetEnd(SwapPair(org, flip), ch, do_b) == Channel(org.B, ch)
    {}
  }

  // ---- refining a block ----

  // The endpoints as the index swap leaves them.
  function Swapped(e: seq<EndPntPair>, idx: seq<nat>, info: ModeInfo, sh: Shape): (e': seq<EndPntPair>)
    requires |e| == 2 && |idx| == 16 && info.uIndexPrec > 0 && |sh.fixUp| > info.uPartitions
    requires forall p :: 0 <= p <= info.uPartitions ==> sh.fixUp[p] < 16
    ensures |e'| == 2
  {
    [SwapPair(e[0], Flips(idx, sh, info.uIndexPrec, 0)),
     if info.uPartitions > 0 then SwapPair(e[1], Flips(idx, sh, info.uIndexPrec, 1)) else e[1]]
  }

  // Swaps and transforms a choice of endpoints, and tests whether it fits the mode.
  method Prepare(e: seq<EndPntPair>, idx: seq<nat>, info: ModeInfo, sh: Shape, bSigned: bool)
    returns (stored: seq<EndPntPair>, indices: seq<nat>, fits: bool, ghost e': seq<EndPntPair>)
    requires WellFormed(info) && ShapeOk(sh, info.uPartitions) && |e| == 2 && OnPalette(idx, info.uIndexPrec)
    requires bSigned || UsedNonNegative(e, info)
    ensures SwappedBelow(e, idx, e', indices, info, sh, info.uPartitions + 1) && e' == Swapped(e, idx, info, sh)
    ensures stored == Stored(e', info) && (fits <==> EndPointsFitIn(stored, info, bSigned))
  {
    var aEndPts := new EndPntPair[2](i requires 0 <= i < 2 => e[i]);
    var aIndices := new nat[16](i requires 0 <= i < 16 => idx[i]);
    assert aEndPts[..] == e && aIndices[..] == idx;
    SwapIndices(aEndPts, aIndices, info, sh);
    e', indices := aEndPts[..], aIndices[..];
    SwapKeepsSigns(e, idx, e', indices, info, sh, bSigned);
    if info.bTransformed {
      TransformForward(aEndPts);
    }
    stored := aEndPts[..];
    fits := EndPointsFit(info, stored, bSigned);
  }

  // Takes the stored deltas back to endpoints, for the search, and forward again.
  method BackAndForth(stored: seq<EndPntPair>, info: ModeInfo, bSigned: bool)
    returns (back: seq<EndPntPair>, again: seq<EndPntPair>)
    requires WellFormed(info) && |stored| == 2
    ensures back == if info.bTransformed then Inverse(stored, info.prec[0], bSigned) else stored
    ensures again == Stored(back, info)
  {
    var aEndPts := new EndPntPair[2](i requires 0 <= i < 2 => stored[i]);
    assert aEndPts[..] == stored;
    if info.bTransformed {
      TransformInverse(aEndPts, info.prec[0], bSigned);
    }
    back := aEndPts[..];
    if info.bTransformed {
      TransformForward(aEndPts);
    }
    again := aEndPts[..];
  }

  method EmitChoice(block: CBits, info: ModeInfo, sh: Shape, shape: nat, stored: seq<EndPntPair>, aIndices: seq<nat>,
                    bSigned: bool, ghost e: seq<EndPntPair>, ghost idx: seq<nat>, ghost e': seq<EndPntPair>)
    requires block.Valid() && WellFormed(info) && ShapeOk(sh, info.uPartitions) && OnPalette(idx, info.uIndexPrec)
    requires SwappedBelow(e, idx, e', aIndices, info, sh, info.uPartitions + 1)
    requires stored == Stored(e', info) && EndPointsFitIn(stored, info, bSigned)
    modifies block.m_uBits
    ensures Emitted(block.m_uBits[..], info, sh, shape, e, idx, bSigned)
  {
    SwapFits(e, idx, e', aIndices, info, sh);
    var end := EmitBlock(block, info, sh, Header(info.uMode, shape, stored), aIndices);
    assert EmittedAs(block.m_uBits[..], info, sh, shape, e, idx, e', aIndices, bSigned);
  }

  lemma SwapKeepsSigns(e: seq<EndPntPair>, idx: seq<nat>, e': seq<EndPntPair>, idx': seq<nat>, info: ModeInfo, sh: Shape,
                       bSigned: bool)
    requires WellFormed(info) && ShapeOk(sh, info.uPartitions)
    requires SwappedBelow(e, idx, e', idx', info, sh, info.uPartitions + 1)
    ensures UsedNonNegative(e, info) ==> UsedNonNegative(e', info)
    ensures UsedInRange(e, info, bSigned) <==> UsedInRange(e', info, bSigned)
  {
    assert e'[0] == SwapPair(e[0], Flips(idx, sh, info.uIndexPrec, 0));
    assert info.uPartitions > 0 ==> e'[1] == SwapPair(e[1], Flips(idx, sh, info.uIndexPrec, 1));
  }

  // Endpoints that go through the delta transform and back are the same choice, and fit as before.
  lemma BackAgain(e: seq<EndPntPair>, idx: seq<nat>, e': seq<EndPntPair>, idx': seq<nat>, info: ModeInfo, sh: Shape,
                  bSigned: bool)
    requires WellFormed(info) && ShapeOk(sh, info.uPartitions) && info.bTransformed
    requires SwappedBelow(e, idx, e', idx', info, sh, info.uPartitions + 1) && UsedInRange(e', info, bSigned)
    requires EndPointsFitIn(Forward(e'), info, bSigned)
    ensures var back := Inverse(Forward(e'), info.prec[0], bSigned);
      && SameEnds(back, e', info.uPartitions) && SwappedBelow(e, idx, back, idx', info, sh, info.uPartitions + 1)
      && EndPointsFitIn(Forward(back), info, bSigned)
  {
    TransformedComesBack(e', info, bSigned);
  }

  predicate HalfFloat(v: int, bSigned: bool) {
    (if bSigned then -F16MAX else 0) <= v <= F16MAX
  }

  predicate HalfFloats(c: INTColor, bSigned: bool) {
    HalfFloat(c.r, bSigned) && HalfFloat(c.g, bSigned) && HalfFloat(c.b, bSigned)
  }

  predicate MoreThanOne(prec: Prec) {
    prec.r > 1 && prec.g > 1 && prec.b > 1
  }

  function Quantized(c: INTColor, prec: Prec, bSigned: bool): (q: INTColor)
    requires MoreThanOne(prec) && HalfFloats(c, bSigned)
    ensures ColorFits(q, prec, bSigned)
  {
    QuantizeFits(c.r, prec.r, bSigned);
    QuantizeFits(c.g, prec.g, bSigned);
    QuantizeFits(c.b, prec.b, bSigned);
    INTColor(Quantize(c.r, prec.r, bSigned), Quantize(c.g, prec.g, bSigned), Quantize(c.b, prec.b, bSigned))
  }

  // The originals a refinement starts from are in range.
  method QuantizeEndPts(aUnqEndPts: seq<EndPntPair>, info: ModeInfo, bSigned: bool) returns (aQntEndPts: seq<EndPntPair>)
    requires WellFormed(info) && MoreThanOne(info.prec[0]) && |aUnqEndPts| == 2
    requires forall p :: 0 <= p <= info.uPartitions ==>
      HalfFloats(aUnqEndPts[p].A, bSigned) && HalfFloats(aUnqEndPts[p].B, bSigned)
    ensures |aQntEndPts| == 2 && UsedInRange(aQntEndPts, info, bSigned)
    ensures forall p :: 0 <= p <= info.uPartitions ==>
      aQntEndPts[p] == EndPntPair(Quantized(aUnqEndPts[p].A, info.prec[0], bSigned),
                                  Quantized(aUnqEndPts[p].B, info.prec[0], bSigned))
  {
    aQntEndPts := aUnqEndPts;
    var p := 0;
    while p <= info.uPartitions
      invariant 0 <= p <= info.uPartitions + 1 && |aQntEndPts| == 2
      invariant forall q :: 0 <= q < p ==>
        aQntEndPts[q] == EndPntPair(Quantized(aUnqEndPts[q].A, info.prec[0], bSigned),
                                    Quantized(aUnqEndPts[q].B, info.prec[0], bSigned))
    {
      var a := Quantized(aUnqEndPts[p].A, info.prec[0], bSigned);
      var b := Quantized(aUnqEndPts[p].B, info.prec[0], bSigned);
      aQntEndPts := aQntEndPts[p := EndPntPair(a, b)];
      p := p + 1;
    }
  }

  // What the search makes of a region.
  function OptimizedPair(mapped: nat -> EndPntPair -> nat, aOrgErr: seq<nat>, e: seq<EndPntPair>, info: ModeInfo, p: nat): EndPntPair
    requires WellFormed(info) && |e| == |aOrgErr| == 2 && p <= info.uPartitions
  {
    ChannelsOptimized(mapped(p), Precs(info), 3, (e[p], aOrgErr[p])).0
  }

  function OptimizedEnds(mapped: nat -> EndPntPair -> nat, aOrgErr: seq<nat>, e: seq<EndPntPair>, info: ModeInfo): (r: seq<EndPntPair>)
    requires WellFormed(info) && |e| == |aOrgErr| == 2
    ensures |r| == 2
  {
    [OptimizedPair(mapped, aOrgErr, e, info, 0), if info.uPartitions > 0 then OptimizedPair(mapped, aOrgErr, e, info, 1) else e[1]]
  }

  // The search led from one pair to the other, every channel done.
  ghost predicate Searched(error: EndPntPair -> nat, uPrec: nat -> nat, from: (EndPntPair, nat), to: EndPntPair) {
    exists path: seq<(EndPntPair, nat)> :: Optimized(error, uPrec, path) && path[0] == from && path[3].0 == to
  }

  // The search, region by region; the error of a pair in a region is given from outside.
  method OptimizeEndPoints(mapped: nat -> EndPntPair -> nat, aOrgErr: seq<nat>, aOrgEndPts: seq<EndPntPair>, info: ModeInfo)
    returns (aOptEndPts: seq<EndPntPair>)
    requires WellFormed(info) && |aOrgEndPts| == |aOrgErr| == 2
    ensures aOptEndPts == OptimizedEnds(mapped, aOrgErr, aOrgEndPts, info)
    ensures forall p :: 0 <= p <= info.uPartitions ==> StaysIn(aOrgEndPts[p], aOptEndPts[p], Precs(info))
    ensures forall p :: 0 <= p <= info.uPartitions ==>
      Searched(mapped(p), Precs(info), (aOrgEndPts[p], aOrgErr[p]), aOptEndPts[p])
  {
    aOptEndPts := aOrgEndPts;
    var p := 0;
    while p <= info.uPartitions
      invariant 0 <= p <= info.uPartitions + 1 && |aOptEndPts| == 2 && (p <= 1 ==> aOptEndPts[1] == aOrgEndPts[1])
      invariant forall q :: 0 <= q < p ==>
        aOptEndPts[q] == OptimizedPair(mapped, aOrgErr, aOrgEndPts, info, q) && StaysIn(aOrgEndPts[q], aOptEndPts[q], Precs(info))
      invariant forall q :: 0 <= q < p ==> Searched(mapped(q), Precs(info), (aOrgEndPts[q], aOrgErr[q]), aOptEndPts[q])
    {
      ghost var path;
      var opt, optErr;
      opt, optErr, path := OptimizeOne(mapped(p), Precs(info), aOrgErr[p], aOrgEndPts[p]);
      assert Searched(mapped(p), Precs(info), (aOrgEndPts[p], aOrgErr[p]), opt);
      aOptEndPts := aOptEndPts[p := opt];
      p := p + 1;
    }
  }

  // A block was written for a choice drawn from the originals, and it shows that choice: always in an unsigned
  // format, and in a signed one when the choice is in range or the mode stores endpoints rather than deltas.
  ghost predicate Settles(t: Tables, row: nat, shape: nat, bytes: seq<Byte>, bSigned: bool, org: seq<EndPntPair>,
                          e: seq<EndPntPair>, idx: seq<nat>)
    requires InTables(t, row, shape)
  {
    var info := t.infos[row];
    && |bytes| == 16 && OnPalette(idx, info.uIndexPrec) && Drawn(org, e, info)
    && Emitted(bytes, info, ShapeOf(t, row, shape), shape, e, idx, bSigned)
    && (!bSigned || !info.bTransformed || UsedInRange(e, info, bSigned) ==> AllShow(t, row, shape, bytes, e, idx, bSigned))
  }

  lemma EmittedSettles(t: Tables, row: nat, shape: nat, bytes: seq<Byte>, bSigned: bool, org: seq<EndPntPair>,
                       e: seq<EndPntPair>, idx: seq<nat>)
    requires InTables(t, row, shape) && OnPalette(idx, t.infos[row].uIndexPrec) && Drawn(org, e, t.infos[row])
    requires UsedInRange(org, t.infos[row], bSigned)
    requires Emitted(bytes, t.infos[row], ShapeOf(t, row, shape), shape, e, idx, bSigned)
    ensures Settles(t, row, shape, bytes, bSigned, org, e, idx)
  {
    var info := t.infos[row];
    assert |bytes| == 16;
    if !bSigned {
      UnsignedInRange(org, e, info);
    }
    if !bSigned || !info.bTransformed || UsedInRange(e, info, bSigned) {
      EmittedShows(t, row, shape, bytes, e, idx, bSigned);
    }
  }

  lemma OriginalsDrawn(org: seq<EndPntPair>, info: ModeInfo)
    requires WellFormed(info) && |org| == 2
    ensures Drawn(org, org, info)
  {}

  lemma SearchDrawsAll(org: seq<EndPntPair>, idx: seq<nat>, e': seq<EndPntPair>, idx': seq<nat>, back: seq<EndPntPair>,
                       opt: seq<EndPntPair>, info: ModeInfo, sh: Shape)
    requires WellFormed(info) && ShapeOk(sh, info.uPartitions) && |back| == |opt| == 2
    requires SwappedBelow(org, idx, e', idx', info, sh, info.uPartitions + 1) && SameEnds(back, e', info.uPartitions)
    requires forall p :: 0 <= p <= info.uPartitions ==> StaysIn(back[p], opt[p], Precs(info))
    ensures Drawn(org, opt, info)
  {
    forall p | 0 <= p <= info.uPartitions
      ensures DrawnFrom(org[p], opt[p], Precs(info))
    {
      assert back[p] == e'[p];
      SearchDraws(org[p], Flips(idx, sh, info.uIndexPrec, p), opt[p], Precs(info));
    }
  }

  // What is given from outside: the index assignment, its error per region, and the error the search looks at.
  datatype Assignment = Assignment(index: seq<EndPntPair> -> seq<nat>, error: seq<EndPntPair> -> seq<nat>,
                                   mapped: nat -> EndPntPair -> nat)

  ghost predicate Assigns(a: Assignment, info: ModeInfo) {
    forall e: seq<EndPntPair> :: |e| == 2 ==> AssignsTo(a, e, info)
  }

  ghost predicate AssignsTo(a: Assignment, e: seq<EndPntPair>, info: ModeInfo) {
    OnPalette(a.index(e), info.uIndexPrec) && |a.error(e)| == 2
  }

  // The error of a choice over the regions in use.
  function TotalError(a: Assignment, e: seq<EndPntPair>, uPartitions: nat): nat
    requires |a.error(e)| == 2
  {
    a.error(e)[0] + if uPartitions > 0 then a.error(e)[1] else 0
  }

  // A choice, as it would be stored, fits the mode.
  ghost predicate Storable(a: Assignment, e: seq<EndPntPair>, info: ModeInfo, sh: Shape, bSigned: bool)
    requires WellFormed(info) && ShapeOk(sh, info.uPartitions) && |e| == 2 && AssignsTo(a, e, info)
  {
    EndPointsFitIn(Stored(Swapped(e, a.index(e), info, sh), info), info, bSigned)
  }

  // The endpoints the search starts from, and those it returns.
  function Opt(a: Assignment, org: seq<EndPntPair>, info: ModeInfo, sh: Shape, bSigned: bool): (opt: seq<EndPntPair>)
    requires WellFormed(info) && ShapeOk(sh, info.uPartitions) && |org| == 2 && AssignsTo(a, org, info)
    ensures |opt| == 2
  {
    var stored := Stored(Swapped(org, a.index(org), info, sh), info);
    OptimizedEnds(a.mapped, a.error(org), if info.bTransformed then Inverse(stored, info.prec[0], bSigned) else stored, info)
  }

  // The better of the originals and the search result, as far as the latter fits.
  ghost function Choice(a: Assignment, org: seq<EndPntPair>, opt: seq<EndPntPair>, info: ModeInfo, sh: Shape, bSigned: bool)
    : (e: seq<EndPntPair>)
    requires WellFormed(info) && ShapeOk(sh, info.uPartitions) && |org| == |opt| == 2
    requires AssignsTo(a, org, info) && AssignsTo(a, opt, info)
    ensures |e| == 2 && AssignsTo(a, e, info)
  {
    if Storable(a, opt, info, sh, bSigned) && TotalError(a, opt, info.uPartitions) < TotalError(a, org, info.uPartitions)
    then opt else org
  }

  function Min(a: nat, b: nat): nat {
    if a < b then a else b
  }

  // The outcome of a refinement: the error is the least of the best so far and the choice's, if the originals fit at
  // all; and a block is written, which shows the choice, exactly when that lowers the error.
  ghost predicate Refined(a: Assignment, t: Tables, row: nat, shape: nat, bSigned: bool, org: seq<EndPntPair>,
                          fBestErr: nat, fNewErr: nat, was: seq<Byte>, now: seq<Byte>)
    requires InTables(t, row, shape) && |org| == 2 && Assigns(a, t.infos[row])
  {
    var info, sh := t.infos[row], ShapeOf(t, row, shape);
    assert AssignsTo(a, org, info);
    var opt := Opt(a, org, info, sh, bSigned);
    assert AssignsTo(a, opt, info);
    var e := Choice(a, org, opt, info, sh, bSigned);
    && fNewErr == (if Storable(a, org, info, sh, bSigned) then Min(fBestErr, TotalError(a, e, info.uPartitions)) else fBestErr)
    && (if fNewErr < fBestErr then Settles(t, row, shape, now, bSigned, org, e, a.index(e)) else now == was)
  }

  // The encoder's choice for one shape: the quantized endpoints or the ones a search improved, whichever errs
  // less; nothing is written unless the error drops below the best so far.
  method Refine(block: CBits, t: Tables, row: nat, shape: nat, bSigned: bool, org: seq<EndPntPair>, a: Assignment, fBestErr: nat)
    returns (fNewErr: nat)
    requires block.Valid() && InTables(t, row, shape) && |org| == 2 && UsedInRange(org, t.infos[row], bSigned)
    requires Assigns(a, t.infos[row])
    modifies block.m_uBits
    ensures Refined(a, t, row, shape, bSigned, org, fBestErr, fNewErr, old(block.m_uBits[..]), block.m_uBits[..])
  {
    var info, sh := t.infos[row], ShapeOf(t, row, shape);
    assert AssignsTo(a, org, info);
    var stored, aOrgIdx, fits, e' := Prepare(org, a.index(org), info, sh, bSigned);
    if !fits {
      return fBestErr;
    }
    SwapKeepsSigns(org, a.index(org), e', aOrgIdx, info, sh, bSigned);
    if info.bTransformed {
      BackAgain(org, a.index(org), e', aOrgIdx, info, sh, bSigned);
    }
    var back, again := BackAndForth(stored, info, bSigned);
    var opt := OptimizeEndPoints(a.mapped, a.error(org), back, info);
    assert AssignsTo(a, opt, info) && opt == Opt(a, org, info, sh, bSigned);
    SearchDrawsAll(org, a.index(org), e', aOrgIdx, back, opt, info, sh);
    fNewErr := EmitBetter(block, t, row, shape, bSigned, org, opt, a, again, aOrgIdx, fBestErr, back);
  }

  // The second half: both choices are known, and the better one is written if it lowers the error.
  method EmitBetter(block: CBits, t: Tables, row: nat, shape: nat, bSigned: bool, org: seq<EndPntPair>, opt: seq<EndPntPair>,
                    a: Assignment, stored: seq<EndPntPair>, aOrgIdx: seq<nat>, fBestErr: nat, ghost e': seq<EndPntPair>)
    returns (fNewErr: nat)
    requires block.Valid() && InTables(t, row, shape) && |org| == |opt| == 2 && UsedInRange(org, t.infos[row], bSigned)
    requires AssignsTo(a, org, t.infos[row]) && AssignsTo(a, opt, t.infos[row]) && Drawn(org, opt, t.infos[row])
    requires var info, sh := t.infos[row], ShapeOf(t, row, shape);
      && SwappedBelow(org, a.index(org), e', aOrgIdx, info, sh, info.uPartitions + 1)
      && stored == Stored(e', info) && EndPointsFitIn(stored, info, bSigned)
    modifies block.m_uBits
    ensures var info, sh := t.infos[row], ShapeOf(t, row, shape);
      var e := Choice(a, org, opt, info, sh, bSigned);
      && fNewErr == Min(fBestErr, TotalError(a, e, info.uPartitions))
      && (if fNewErr < fBestErr then Settles(t, row, shape, block.m_uBits[..], bSigned, org, e, a.index(e))
          else block.m_uBits[..] == old(block.m_uBits[..]))
  {
    var info, sh := t.infos[row], ShapeOf(t, row, shape);
    OriginalsDrawn(org, info);
    if !bSigned {
      UnsignedInRange(org, opt, info);
    }
    var aOptEndPts, aOptIdx, optFits, f' := Prepare(opt, a.index(opt), info, sh, bSigned);
    assert optFits <==> Storable(a, opt, info, sh, bSigned);
    var fOrgTotErr, fOptTotErr := TotalError(a, org, info.uPartitions), TotalError(a, opt, info.uPartitions);
    if optFits && fOptTotErr < fOrgTotErr && fOptTotErr < fBestErr {
      EmitChoice(block, info, sh, shape, aOptEndPts, aOptIdx, bSigned, opt, a.index(opt), f');
      EmittedSettles(t, row, shape, block.m_uBits[..], bSigned, org, opt, a.index(opt));
      return fOptTotErr;
    }
    if fOrgTotErr < fBestErr {
      EmitChoice(block, info, sh, shape, stored, aOrgIdx, bSigned, org, a.index(org), e');
      EmittedSettles(t, row, shape, block.m_uBits[..], bSigned, org, org, a.index(org));
      return fOrgTotErr;
    }
    return fBestErr;
  }

  // So a block is written whenever the originals fit and err less than the best so far, and the error never rises.
  lemma RefinedWrites(a: Assignment, t: Tables, row: nat, shape: nat, bSigned: bool, org: seq<EndPntPair>,
                      fBestErr: nat, fNewErr: nat, was: seq<Byte>, now: seq<Byte>)
    requires InTables(t, row, shape) && |org| == 2 && Assigns(a, t.infos[row]) && AssignsTo(a, org, t.infos[row])
    requires Refined(a, t, row, shape, bSigned, org, fBestErr, fNewErr, was, now)
    ensures fNewErr <= fBestErr
    ensures Storable(a, org, t.infos[row], ShapeOf(t, row, shape), bSigned) ==>
      fNewErr <= TotalError(a, org, t.infos[row].uPartitions)
    ensures Storable(a, org, t.infos[row], ShapeOf(t, row, shape), bSigned)
            && TotalError(a, org, t.infos[row].uPartitions) < fBestErr ==>
      exists e :: |e| == 2 && Settles(t, row, shape, now, bSigned, org, e, a.index(e))
    ensures !Storable(a, org, t.infos[row], ShapeOf(t, row, shape), bSigned) ==> fNewErr == fBestErr && now == was
  {}

  // Originals in range always fit a mode that stores endpoints in full, so such a mode writes a block whenever the
  // originals err less than the best so far.
  lemma FullEndpointsStorable(a: Assignment, org: seq<EndPntPair>, info: ModeInfo, sh: Shape, bSigned: bool)
    requires WellFormed(info) && ShapeOk(sh, info.uPartitions) && |org| == 2 && AssignsTo(a, org, info)
    requires !info.bTransformed && info.prec[1] == info.prec[0]
    requires info.uPartitions > 0 ==> info.prec[2] == info.prec[0] && info.prec[3] == info.prec[0]
    requires UsedInRange(org, info, bSigned)
    ensures Storable(a, org, info, sh, bSigned)
  {}
}

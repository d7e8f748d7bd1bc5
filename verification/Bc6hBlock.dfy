/** The 128-bit BC6H block: a scattered header driven by a mode table, and sixteen palette indices. */
module Bc6hBlock {
  import opened Powers
  import opened Bitwise
  import opened BlockBits
  import opened Endpoints

  // ---- mode tables ----

  // The header fields: mode, shape and twelve endpoint components. Slot 4 ch + k is channel ch of endpoint k,
  // with the endpoints counted A and B of region 0, then A and B of region 1.
  datatype Field = NA | M | D | Slot(s: nat)

  datatype Desc = Desc(field: Field, bit: nat)

  datatype ModeInfo = ModeInfo(uMode: nat, uPartitions: nat, bTransformed: bool, uIndexPrec: nat,
                               prec: seq<Prec>, desc: seq<Desc>)

  function ChannelPrec(p: Prec, ch: nat): nat {
    if ch == 0 then p.r else if ch == 1 then p.g else p.b
  }

  function EndPoint(e: seq<EndPntPair>, k: nat): INTColor
    requires |e| == 2 && k < 4
  {
    if k % 2 == 0 then e[k / 2].A else e[k / 2].B
  }

  function SlotValue(e: seq<EndPntPair>, s: nat): int
    requires |e| == 2 && s < 12
  {
    Channel(EndPoint(e, s % 4), s / 4)
  }

  function HeaderBits(info: ModeInfo): nat {
    if info.uPartitions > 0 then 82 else 65
  }

  // The number of bits of a header field.
  function Width(info: ModeInfo, f: Field): nat
    requires |info.prec| == 4
  {
    match f
    case NA => 0
    case M => if info.uMode < 2 then 2 else 5
    case D => if info.uPartitions > 0 then 5 else 0
    case Slot(s) => if s < 12 then ChannelPrec(info.prec[s % 4], s / 4) else 0
  }

  ghost predicate Positive(p: Prec) {
    p.r > 0 && p.g > 0 && p.b > 0
  }

  // The header positions carry bits of the fields and nothing else, the mode first; a one-region mode has no
  // fields of the second region.
  ghost predicate WellFormed(info: ModeInfo) {
    && info.uPartitions <= 1 && info.uIndexPrec == (if info.uPartitions > 0 then 3 else 4)
    && (info.uMode < 2 || (info.uMode < 32 && info.uMode % 4 >= 2))
    && |info.prec| == 4 && Positive(info.prec[0]) && Positive(info.prec[1])
    && (info.uPartitions > 0 ==> Positive(info.prec[2]) && Positive(info.prec[3]))
    && (info.uPartitions == 0 ==> info.prec[2] == info.prec[3] == Prec(0, 0, 0))
    && |info.desc| >= HeaderBits(info)
    && (forall i :: 0 <= i < HeaderBits(info) ==>
          && info.desc[i].field != NA && info.desc[i].bit < Width(info, info.desc[i].field)
          && (info.desc[i].field == M <==> i < Width(info, M)))
    && (forall i :: 0 <= i < Width(info, M) ==> info.desc[i].bit == i)
  }

  // Every bit of every field has a place in the header.
  ghost predicate Complete(info: ModeInfo)
    requires WellFormed(info)
  {
    forall f, b :: f != NA && 0 <= b < Width(info, f) ==> Placed(info, f, b)
  }

  ghost predicate Placed(info: ModeInfo, f: Field, b: nat) {
    exists i :: 0 <= i < HeaderBits(info) && i < |info.desc| && info.desc[i] == Desc(f, b)
  }

  // The values of the header fields.
  datatype Header = Header(mode: nat, shape: nat, ends: seq<EndPntPair>)

  function FieldValue(h: Header, f: Field): int
    requires |h.ends| == 2
  {
    match f
    case NA => 0
    case M => h.mode
    case D => h.shape
    case Slot(s) => if s < 12 then SlotValue(h.ends, s) else 0
  }

  // ---- shapes: which region each pixel belongs to, and the pixel whose index is one bit shorter ----

  datatype Shape = Shape(region: seq<nat>, fixUp: seq<nat>)

  ghost predicate ShapeOk(sh: Shape, uPartitions: nat) {
    && |sh.region| == 16 && |sh.fixUp| > uPartitions
    && (forall i :: 0 <= i < 16 ==> sh.region[i] <= uPartitions)
    && forall p :: 0 <= p <= uPartitions ==> sh.fixUp[p] < 16 && sh.region[sh.fixUp[p]] == p
  }

  predicate IsFixUp(sh: Shape, uPartitions: nat, uOffset: nat)
    requires |sh.fixUp| > uPartitions
  {
    exists p :: 0 <= p <= uPartitions && sh.fixUp[p] == uOffset
  }

  method IsFixUpOffset(sh: Shape, uPartitions: nat, uOffset: nat) returns (r: bool)
    requires |sh.fixUp| > uPartitions
    ensures r <==> IsFixUp(sh, uPartitions, uOffset)
  {
    var p := 0;
    while p <= uPartitions
      invariant 0 <= p <= uPartitions + 1 && forall k :: 0 <= k < p ==> sh.fixUp[k] != uOffset
    {
      if uOffset == sh.fixUp[p] {
        return true;
      }
      p := p + 1;
    }
    return false;
  }

  ghost function IndexBits(info: ModeInfo, sh: Shape, i: nat): nat
    requires WellFormed(info) && ShapeOk(sh, info.uPartitions)
  {
    if IsFixUp(sh, info.uPartitions, i) then info.uIndexPrec - 1 else info.uIndexPrec
  }

  ghost function IndexStart(info: ModeInfo, sh: Shape, i: nat): nat
    requires WellFormed(info) && ShapeOk(sh, info.uPartitions)
  {
    if i == 0 then HeaderBits(info) else IndexStart(info, sh, i - 1) + IndexBits(info, sh, i - 1)
  }

  lemma {:induction false} StartFormula(info: ModeInfo, sh: Shape, i: nat)
    requires WellFormed(info) && ShapeOk(sh, info.uPartitions)
    ensures IndexStart(info, sh, i) == HeaderBits(info) + (if info.uPartitions > 0 then 3 * i else 4 * i)
      - (if sh.fixUp[0] < i then 1 else 0) - (if info.uPartitions == 1 && sh.fixUp[1] < i then 1 else 0)
  {
    if i > 0 {
      StartFormula(info, sh, i - 1);
      assert info.uPartitions == 1 ==> sh.region[sh.fixUp[1]] == 1 && sh.region[sh.fixUp[0]] == 0;
      assert IsFixUp(sh, info.uPartitions, i - 1) <==>
             sh.fixUp[0] == i - 1 || (info.uPartitions == 1 && sh.fixUp[1] == i - 1);
    }
  }

  lemma BlockIsFull(info: ModeInfo, sh: Shape, i: nat)
    requires WellFormed(info) && ShapeOk(sh, info.uPartitions) && i <= 16
    ensures HeaderBits(info) <= IndexStart(info, sh, i) <= 128
    ensures i == 16 ==> IndexStart(info, sh, i) == 128
    ensures i < 16 ==> IndexStart(info, sh, i) + IndexBits(info, sh, i) <= 128
  {
    StartFormula(info, sh, i);
    if i < 16 { StartFormula(info, sh, i + 1); }
  }

  // ---- emitting ----

  // The first n header bits carry their field bits.
  ghost predicate HeaderHolds(bytes: seq<Byte>, info: ModeInfo, h: Header, n: nat) {
    && |h.ends| == 2 && |bytes| == 16 && n <= 128 && n <= |info.desc|
    && forall i :: 0 <= i < n ==> (BitAt(bytes, i) <==> Bit(FieldValue(h, info.desc[i].field), info.desc[i].bit))
  }

  ghost predicate IndexHolds(bytes: seq<Byte>, info: ModeInfo, sh: Shape, i: nat, x: nat)
    requires WellFormed(info) && ShapeOk(sh, info.uPartitions) && |bytes| == 16
  {
    var start, bits := IndexStart(info, sh, i), IndexBits(info, sh, i);
    start + bits <= 128 && Holds(bytes, start, bits, x)
  }

  // The first n indices lie in their fields.
  ghost predicate IndicesHold(bytes: seq<Byte>, info: ModeInfo, sh: Shape, idx: seq<nat>, n: nat)
    requires WellFormed(info) && ShapeOk(sh, info.uPartitions)
  {
    && |idx| == 16 && |bytes| == 16 && n <= 16
    && forall i :: 0 <= i < n ==> IndexHolds(bytes, info, sh, i, idx[i])
  }

  // Each index fits its field: the high bit of a fix-up index is clear.
  ghost predicate IndicesFit(info: ModeInfo, sh: Shape, idx: seq<nat>)
    requires WellFormed(info) && ShapeOk(sh, info.uPartitions)
  {
    |idx| == 16 && forall i :: 0 <= i < 16 ==> idx[i] < Pow(2, IndexBits(info, sh, i))
  }

  method EmitHeader(block: CBits, info: ModeInfo, h: Header) returns (uStartBit: nat)
    requires block.Valid() && WellFormed(info) && |h.ends| == 2
    modifies block.m_uBits
    ensures uStartBit == HeaderBits(info) && HeaderHolds(block.m_uBits[..], info, h, uStartBit)
  {
    uStartBit := 0;
    while uStartBit < HeaderBits(info)
      invariant uStartBit <= HeaderBits(info) && HeaderHolds(block.m_uBits[..], info, h, uStartBit)
    {
      var d := info.desc[uStartBit];
      ghost var was := block.m_uBits[..];
      var v := if Bit(FieldValue(h, d.field), d.bit) then 1 else 0;
      uStartBit := block.SetBit(uStartBit, v);
      HeaderGrows(was, block.m_uBits[..], info, h, uStartBit - 1, v);
    }
  }

  lemma HeaderGrows(was: seq<Byte>, now: seq<Byte>, info: ModeInfo, h: Header, n: nat, v: nat)
    requires HeaderHolds(was, info, h, n) && n < |info.desc| && n < 128
    requires Written(was, now, n, 1, v)
    requires v == if Bit(FieldValue(h, info.desc[n].field), info.desc[n].bit) then 1 else 0
    ensures HeaderHolds(now, info, h, n + 1)
  {
    OneBit(was, now, n, v);
    forall i | 0 <= i < n + 1
      ensures BitAt(now, i) <==> Bit(FieldValue(h, info.desc[i].field), info.desc[i].bit)
    {
      if i < n {
        var k: nat := i;
        assert BitAt(now, k) <==> BitAt(was, k);
      }
    }
  }

  lemma HeaderKept(was: seq<Byte>, now: seq<Byte>, info: ModeInfo, h: Header, start: nat, n: nat, v: nat)
    requires HeaderHolds(was, info, h, HeaderBits(info)) && HeaderBits(info) <= start && Written(was, now, start, n, v)
    ensures HeaderHolds(now, info, h, HeaderBits(info))
  {
    forall i | 0 <= i < HeaderBits(info)
      ensures BitAt(now, i) <==> Bit(FieldValue(h, info.desc[i].field), info.desc[i].bit)
    {
      var k: nat := i;
      assert BitAt(now, k) <==> BitAt(was, k);
    }
  }

  lemma IndexKept(was: seq<Byte>, now: seq<Byte>, info: ModeInfo, sh: Shape, i: nat, x: nat, n: nat, v: nat)
    requires WellFormed(info) && ShapeOk(sh, info.uPartitions) && i < n && |was| == 16
    requires IndexHolds(was, info, sh, i, x)
    requires Written(was, now, IndexStart(info, sh, n), IndexBits(info, sh, n), v)
    ensures IndexHolds(now, info, sh, i, x)
  {
    StartsBelow(info, sh, i, n);
    FieldKept(was, now, IndexStart(info, sh, n), IndexBits(info, sh, n), v,
              IndexStart(info, sh, i), IndexBits(info, sh, i), x);
  }

  lemma IndicesKept(was: seq<Byte>, now: seq<Byte>, info: ModeInfo, sh: Shape, idx: seq<nat>, n: nat)
    requires WellFormed(info) && ShapeOk(sh, info.uPartitions) && n < 16 && IndicesHold(was, info, sh, idx, n)
    requires Written(was, now, IndexStart(info, sh, n), IndexBits(info, sh, n), idx[n])
    ensures IndicesHold(now, info, sh, idx, n + 1)
  {
    forall i | 0 <= i < n
      ensures IndexHolds(now, info, sh, i, idx[i])
    {
      IndexKept(was, now, info, sh, i, idx[i], n, idx[n]);
    }
  }

  lemma {:induction false} StartsBelow(info: ModeInfo, sh: Shape, i: nat, n: nat)
    requires WellFormed(info) && ShapeOk(sh, info.uPartitions) && i < n
    ensures IndexStart(info, sh, i) + IndexBits(info, sh, i) <= IndexStart(info, sh, n)
    decreases n
  {
    if i + 1 < n { StartsBelow(info, sh, i, n - 1); }
  }

  method EmitIndex(block: CBits, info: ModeInfo, sh: Shape, ghost h: Header, aIndices: seq<nat>, i: nat, uStartBit: nat)
    returns (uNext: nat)
    requires block.Valid() && WellFormed(info) && ShapeOk(sh, info.uPartitions) && i < 16
    requires IndicesFit(info, sh, aIndices) && uStartBit == IndexStart(info, sh, i)
    requires HeaderHolds(block.m_uBits[..], info, h, HeaderBits(info))
    requires IndicesHold(block.m_uBits[..], info, sh, aIndices, i)
    modifies block.m_uBits
    ensures uNext == IndexStart(info, sh, i + 1)
    ensures HeaderHolds(block.m_uBits[..], info, h, HeaderBits(info))
    ensures IndicesHold(block.m_uBits[..], info, sh, aIndices, i + 1)
  {
    BlockIsFull(info, sh, i);
    ghost var was := block.m_uBits[..];
    var fixUp := IsFixUpOffset(sh, info.uPartitions, i);
    uNext := block.SetBits(uStartBit, if fixUp then info.uIndexPrec - 1 else info.uIndexPrec, aIndices[i]);
    HeaderKept(was, block.m_uBits[..], info, h, uStartBit, IndexBits(info, sh, i), aIndices[i]);
    IndicesKept(was, block.m_uBits[..], info, sh, aIndices, i);
  }

  // Writes header and indices, filling the block exactly.
  method EmitBlock(block: CBits, info: ModeInfo, sh: Shape, h: Header, aIndices: seq<nat>) returns (uStartBit: nat)
    requires block.Valid() && WellFormed(info) && ShapeOk(sh, info.uPartitions) && |h.ends| == 2
    requires IndicesFit(info, sh, aIndices)
    modifies block.m_uBits
    ensures uStartBit == 128
    ensures HeaderHolds(block.m_uBits[..], info, h, HeaderBits(info))
    ensures IndicesHold(block.m_uBits[..], info, sh, aIndices, 16)
  {
    uStartBit := EmitHeader(block, info, h);
    var i := 0;
    while i < 16
      invariant 0 <= i <= 16 && uStartBit == IndexStart(info, sh, i)
      invariant HeaderHolds(block.m_uBits[..], info, h, HeaderBits(info))
      invariant IndicesHold(block.m_uBits[..], info, sh, aIndices, i)
    {
      uStartBit := EmitIndex(block, info, sh, h, aIndices, i, uStartBit);
      i := i + 1;
    }
    BlockIsFull(info, sh, 16);
  }
}

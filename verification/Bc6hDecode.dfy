/** Reading a BC6H block back: mode, header fields, endpoints and indices. */
module Bc6hDecode {
  import opened Powers
  import opened Bitwise
  import opened BlockBits
  import opened Endpoints
  import opened Bc6hBlock

  // ---- fields of consecutive bits ----

  ghost function FieldAt(bytes: seq<Byte>, start: nat, n: nat): nat
    requires start + n <= 8 * |bytes|
    decreases n
  {
    if n == 0 then 0 else (if BitAt(bytes, start) then 1 else 0) + 2 * FieldAt(bytes, start + 1, n - 1)
  }

  lemma {:induction false} HoldsIsField(bytes: seq<Byte>, start: nat, n: nat, v: nat)
    requires start + n <= 8 * |bytes| && v < Pow(2, n) && Holds(bytes, start, n, v)
    ensures v == FieldAt(bytes, start, n)
    decreases n
  {
    if n > 0 {
      assert BitAt(bytes, start + 0) <==> Bit(v, 0);
      forall j | 0 <= j < n - 1
        ensures BitAt(bytes, start + 1 + j) <==> Bit(v / 2, j)
      {
        assert BitAt(bytes, start + (j + 1)) <==> Bit(v, j + 1);
      }
      HoldsIsField(bytes, start + 1, n - 1, v / 2);
    }
  }

  // ---- fields scattered over the header ----

  // The bits of one field found at positions lo to hi, or-ed together.
  ghost function ReadField(bytes: seq<Byte>, desc: seq<Desc>, f: Field, lo: nat, hi: nat): nat
    requires lo <= hi <= |desc| && hi <= 8 * |bytes|
  {
    if lo == hi then 0
    else
      var r := ReadField(bytes, desc, f, lo, hi - 1);
      if BitAt(bytes, hi - 1) && desc[hi - 1].field == f then Or(r, Shl(1, desc[hi - 1].bit)) else r
  }

  lemma BitOfOne(k: nat, b: nat)
    ensures Bit(Shl(1, k), b) <==> b == k
  {
    BitShl(1, k, b);
    if b > k {
      BitZero(b - k - 1);
    }
  }

  ghost predicate Found(bytes: seq<Byte>, desc: seq<Desc>, f: Field, b: nat, lo: nat, hi: nat)
    requires lo <= hi <= |desc| && hi <= 8 * |bytes|
  {
    exists i: nat :: lo <= i < hi && desc[i] == Desc(f, b) && BitAt(bytes, i)
  }

  lemma {:induction false} ReadFieldBit(bytes: seq<Byte>, desc: seq<Desc>, f: Field, lo: nat, hi: nat, b: nat)
    requires lo <= hi <= |desc| && hi <= 8 * |bytes|
    ensures Bit(ReadField(bytes, desc, f, lo, hi), b) <==> Found(bytes, desc, f, b, lo, hi)
  {
    if lo == hi {
      BitZero(b);
    } else {
      var r, d := ReadField(bytes, desc, f, lo, hi - 1), desc[hi - 1];
      ReadFieldBit(bytes, desc, f, lo, hi - 1, b);
      if BitAt(bytes, hi - 1) && d.field == f {
        BitOr(r, Shl(1, d.bit), b);
        BitOfOne(d.bit, b);
      }
      if Found(bytes, desc, f, b, lo, hi) {
        var i: nat :| lo <= i < hi && desc[i] == Desc(f, b) && BitAt(bytes, i);
        if i < hi - 1 { assert Found(bytes, desc, f, b, lo, hi - 1); }
      }
    }
  }

  // Every field written into the header is read back, cut to its width.
  lemma HeaderFieldReads(bytes: seq<Byte>, info: ModeInfo, h: Header, f: Field)
    requires WellFormed(info) && Complete(info) && HeaderHolds(bytes, info, h, HeaderBits(info))
    requires f != NA && f != M
    ensures ReadField(bytes, info.desc, f, Width(info, M), HeaderBits(info)) == Low(FieldValue(h, f), Width(info, f))
  {
    var lo, hi := Width(info, M), HeaderBits(info);
    var v := ReadField(bytes, info.desc, f, lo, hi);
    forall b: nat
      ensures Bit(v, b) <==> b < Width(info, f) && Bit(FieldValue(h, f), b)
    {
      ReadFieldBit(bytes, info.desc, f, lo, hi, b);
      if b < Width(info, f) && Bit(FieldValue(h, f), b) {
        assert Placed(info, f, b);
        var i: nat :| i < hi && info.desc[i] == Desc(f, b);
        assert BitAt(bytes, i) <==> Bit(FieldValue(h, info.desc[i].field), info.desc[i].bit);
        assert Found(bytes, info.desc, f, b, lo, hi);
      }
    }
    BitsAreLow(v, FieldValue(h, f), Width(info, f));
  }

  // ---- what a block says ----

  datatype Tables = Tables(infos: seq<ModeInfo>, modeToInfo: seq<int>, shapes: seq<seq<Shape>>)

  // Modes and table rows correspond, and there is a shape for every five-bit number.
  ghost predicate Valid(t: Tables) {
    && |t.modeToInfo| == 32
    && (forall k :: 0 <= k < |t.infos| ==> WellFormed(t.infos[k]) && t.modeToInfo[t.infos[k].uMode] == k)
    && (forall m :: 0 <= m < 32 && t.modeToInfo[m] >= 0 ==>
          t.modeToInfo[m] < |t.infos| && t.infos[t.modeToInfo[m]].uMode == m)
    && |t.shapes| == 2 && |t.shapes[0]| >= 32 && |t.shapes[1]| >= 32
    && (forall i :: 0 <= i < |t.shapes[0]| ==> ShapeOk(t.shapes[0][i], 0))
    && (forall i :: 0 <= i < |t.shapes[1]| ==> ShapeOk(t.shapes[1][i], 1))
  }

  // A mode without a row decodes to opaque black.
  datatype Decoded = Reserved | Block(row: nat, shape: nat, ends: seq<EndPntPair>, indices: seq<nat>)

  ghost function ModeBits(bytes: seq<Byte>): nat
    requires |bytes| == 16
  {
    var m := FieldAt(bytes, 0, 2);
    if m < 2 then m else m + 4 * FieldAt(bytes, 2, 3)
  }

  predicate Readable(f: Field) {
    f == D || (f.Slot? && f.s < 12)
  }

  function ColorOf(raw: seq<nat>, k: nat): INTColor
    requires |raw| == 12 && k < 4
  {
    INTColor(raw[k], raw[4 + k], raw[8 + k])
  }

  // Sign-extends the fields that are signed, and undoes the delta transform.
  function EndsOf(raw: seq<nat>, info: ModeInfo, signed: bool): (e: seq<EndPntPair>)
    requires |raw| == 12 && |info.prec| == 4 && Positive(info.prec[0]) && Positive(info.prec[1])
    requires info.uPartitions > 0 ==> Positive(info.prec[2]) && Positive(info.prec[3])
    ensures |e| == 2
  {
    var a0 := if signed then Extended(ColorOf(raw, 0), info.prec[0]) else ColorOf(raw, 0);
    var more := signed || info.bTransformed;
    var b0 := if more then Extended(ColorOf(raw, 1), info.prec[1]) else ColorOf(raw, 1);
    var a1 := if more && info.uPartitions > 0 then Extended(ColorOf(raw, 2), info.prec[2]) else ColorOf(raw, 2);
    var b1 := if more && info.uPartitions > 0 then Extended(ColorOf(raw, 3), info.prec[3]) else ColorOf(raw, 3);
    var e := [EndPntPair(a0, b0), EndPntPair(a1, b1)];
    if info.bTransformed then Inverse(e, info.prec[0], signed) else e
  }

  ghost function RawEnds(bytes: seq<Byte>, info: ModeInfo): (raw: seq<nat>)
    requires |bytes| == 16 && WellFormed(info)
    ensures |raw| == 12
  {
    seq(12, s requires 0 <= s < 12 => ReadField(bytes, info.desc, Slot(s), Width(info, M), HeaderBits(info)))
  }

  ghost function ReadIndex(bytes: seq<Byte>, info: ModeInfo, sh: Shape, i: nat): nat
    requires |bytes| == 16 && WellFormed(info) && ShapeOk(sh, info.uPartitions) && i < 16
  {
    BlockIsFull(info, sh, i);
    FieldAt(bytes, IndexStart(info, sh, i), IndexBits(info, sh, i))
  }

  lemma ModeBitsBound(bytes: seq<Byte>)
    requires |bytes| == 16
    ensures ModeBits(bytes) < 32
  {
    FieldAtBound(bytes, 0, 2);
    FieldAtBound(bytes, 2, 3);
    assert Pow(2, 2) == 4 && Pow(2, 3) == 2 * Pow(2, 2);
  }

  lemma {:induction false} FieldAtBound(bytes: seq<Byte>, start: nat, n: nat)
    requires start + n <= 8 * |bytes|
    ensures FieldAt(bytes, start, n) < Pow(2, n)
    decreases n
  {
    if n > 0 { FieldAtBound(bytes, start + 1, n - 1); }
  }

  lemma ShapeBound(bytes: seq<Byte>, info: ModeInfo)
    requires |bytes| == 16 && WellFormed(info)
    ensures ReadField(bytes, info.desc, D, Width(info, M), HeaderBits(info)) < 32
  {
    var v := ReadField(bytes, info.desc, D, Width(info, M), HeaderBits(info));
    forall b: nat
      ensures Bit(v, b) ==> b < 5
    {
      ReadFieldBit(bytes, info.desc, D, Width(info, M), HeaderBits(info), b);
    }
    FieldBound(v, 5);
    assert Pow(2, 3) == 8 && Pow(2, 5) == 4 * Pow(2, 3);
  }

  ghost function Decoding(bytes: seq<Byte>, t: Tables, signed: bool): Decoded
    requires |bytes| == 16 && Valid(t)
  {
    ModeBitsBound(bytes);
    var row := t.modeToInfo[ModeBits(bytes)];
    if row < 0 then Reserved
    else
      var info := t.infos[row];
      ShapeBound(bytes, info);
      var shape := ReadField(bytes, info.desc, D, Width(info, M), HeaderBits(info));
      var sh := t.shapes[info.uPartitions][shape];
      Block(row, shape, EndsOf(RawEnds(bytes, info), info, signed),
            seq(16, i requires 0 <= i < 16 => ReadIndex(bytes, info, sh, i)))
  }

  // ---- the decoder ----

  // Sets one bit of a field when its header position holds a one.
  function Collect(raw: seq<nat>, shape: nat, d: Desc): (r: (seq<nat>, nat))
    requires |raw| == 12 && Readable(d.field)
    ensures |r.0| == 12
  {
    match d.field
    case D => (raw, Or(shape, Shl(1, d.bit)))
    case Slot(s) => (raw[s := Or(raw[s], Shl(1, d.bit))], shape)
  }

  // The fields as read from positions lo to hi.
  ghost predicate Collected(bytes: seq<Byte>, desc: seq<Desc>, lo: nat, hi: nat, raw: seq<nat>, shape: nat)
    requires lo <= hi <= |desc| && hi <= 8 * |bytes|
  {
    && |raw| == 12 && shape == ReadField(bytes, desc, D, lo, hi)
    && forall s: nat :: s < 12 ==> raw[s] == ReadField(bytes, desc, Slot(s), lo, hi)
  }

  // After the mode, a well-formed row has a field at every position, so the default case of the source, for
  // positions without one, is never met.
  method ReadHeader(block: CBits, info: ModeInfo, start: nat) returns (shape: nat, raw: seq<nat>)
    requires block.Valid() && WellFormed(info) && start == Width(info, M)
    ensures Collected(block.m_uBits[..], info.desc, start, HeaderBits(info), raw, shape)
  {
    var uStartBit := start;
    shape, raw := 0, [0, 0, 0, 0, 0, 0, 0, 0, 0, 0, 0, 0];
    while uStartBit < HeaderBits(info)
      invariant start <= uStartBit <= HeaderBits(info)
      invariant Collected(block.m_uBits[..], info.desc, start, uStartBit, raw, shape)
    {
      var uCurBit := uStartBit;
      var bit;
      bit, uStartBit := block.GetBit(uStartBit);
      if bit != 0 {
        var c := Collect(raw, shape, info.desc[uCurBit]);
        raw, shape := c.0, c.1;
      }
    }
  }

  method ReadIndices(block: CBits, info: ModeInfo, sh: Shape) returns (indices: seq<nat>)
    requires block.Valid() && WellFormed(info) && ShapeOk(sh, info.uPartitions)
    ensures |indices| == 16 && forall i :: 0 <= i < 16 ==> indices[i] == ReadIndex(block.m_uBits[..], info, sh, i)
  {
    var uStartBit, i := HeaderBits(info), 0;
    indices := [];
    while i < 16
      invariant 0 <= i <= 16 && |indices| == i && uStartBit == IndexStart(info, sh, i)
      invariant forall j :: 0 <= j < i ==> indices[j] == ReadIndex(block.m_uBits[..], info, sh, j)
    {
      // The source gives up here when the block is too short or an index is off the palette; neither can happen.
      BlockIsFull(info, sh, i);
      var fixUp := IsFixUpOffset(sh, info.uPartitions, i);
      ghost var start := uStartBit;
      var uIndex;
      uIndex, uStartBit := block.GetBits(uStartBit, if fixUp then info.uIndexPrec - 1 else info.uIndexPrec);
      HoldsIsField(block.m_uBits[..], start, IndexBits(info, sh, i), uIndex);
      indices := indices + [uIndex];
      i := i + 1;
    }
  }

  method ReadMode(block: CBits) returns (uMode: nat, uStartBit: nat)
    requires block.Valid()
    ensures uMode == ModeBits(block.m_uBits[..]) && uMode < 32
    ensures uStartBit == if FieldAt(block.m_uBits[..], 0, 2) < 2 then 2 else 5
  {
    ModeBitsBound(block.m_uBits[..]);
    uMode, uStartBit := block.GetBits(0, 2);
    HoldsIsField(block.m_uBits[..], 0, 2, uMode);
    if uMode != 0 && uMode != 1 {
      var high;
      high, uStartBit := block.GetBits(uStartBit, 3);
      HoldsIsField(block.m_uBits[..], 2, 3, high);
      uMode := 4 * high + uMode;
    }
  }

  method Decode(block: CBits, t: Tables, bSigned: bool) returns (d: Decoded)
    requires block.Valid() && Valid(t)
    ensures d == Decoding(block.m_uBits[..], t, bSigned)
  {
    var uMode, uStartBit := ReadMode(block);
    var row := t.modeToInfo[uMode];
    if row < 0 {
      return Reserved;
    }
    var info := t.infos[row];
    ModeLength(block.m_uBits[..], info);
    var shape, raw := ReadHeader(block, info, uStartBit);
    ShapeBound(block.m_uBits[..], info);
    assert raw == RawEnds(block.m_uBits[..], info);
    var indices := ReadIndices(block, info, t.shapes[info.uPartitions][shape]);
    d := Block(row, shape, EndsOf(raw, info, bSigned), indices);
  }

  lemma ModeLength(bytes: seq<Byte>, info: ModeInfo)
    requires |bytes| == 16 && WellFormed(info) && info.uMode == ModeBits(bytes)
    ensures Width(info, M) == if FieldAt(bytes, 0, 2) < 2 then 2 else 5
  {
    FieldAtBound(bytes, 0, 2);
    assert Pow(2, 2) == 4;
  }

  // ---- round trip ----

  // The deltas fit the fields of the mode, as the encoder tests before it emits a block.
  ghost predicate EndPointsFitIn(e: seq<EndPntPair>, info: ModeInfo, signed: bool)
    requires |e| == 2 && |info.prec| == 4
  {
    var more := signed || info.bTransformed;
    && ColorFits(e[0].A, info.prec[0], signed) && ColorFits(e[0].B, info.prec[1], more)
    && (info.uPartitions > 0 ==> ColorFits(e[1].A, info.prec[2], more) && ColorFits(e[1].B, info.prec[3], more))
  }

  lemma ColorReads(c: INTColor, prec: Prec, signed: bool)
    requires Positive(prec) && ColorFits(c, prec, signed)
    ensures (if signed then Extended(Masked(c, prec), prec) else Masked(c, prec)) == c
  {
    FieldIsLossless(c.r, prec.r);
    FieldIsLossless(c.g, prec.g);
    FieldIsLossless(c.b, prec.b);
  }

  lemma RawColor(bytes: seq<Byte>, info: ModeInfo, h: Header, k: nat)
    requires WellFormed(info) && Complete(info) && HeaderHolds(bytes, info, h, HeaderBits(info)) && k < 4
    ensures ColorOf(RawEnds(bytes, info), k) == Masked(EndPoint(h.ends, k), info.prec[k])
  {
    HeaderFieldReads(bytes, info, h, Slot(k));
    HeaderFieldReads(bytes, info, h, Slot(4 + k));
    HeaderFieldReads(bytes, info, h, Slot(8 + k));
  }

  // The regions a mode uses have the given endpoints.
  ghost predicate SameEnds(e: seq<EndPntPair>, e': seq<EndPntPair>, uPartitions: nat)
    requires |e| == |e'| == 2
  {
    e[0] == e'[0] && (uPartitions > 0 ==> e[1] == e'[1])
  }

  // What the decoder makes of deltas that fit: the deltas themselves, or the endpoints they stand for.
  lemma EndsRead(bytes: seq<Byte>, info: ModeInfo, h: Header, signed: bool)
    requires WellFormed(info) && Complete(info) && HeaderHolds(bytes, info, h, HeaderBits(info))
    requires EndPointsFitIn(h.ends, info, signed)
    ensures SameEnds(EndsOf(RawEnds(bytes, info), info, signed),
                     if info.bTransformed then Inverse(h.ends, info.prec[0], signed) else h.ends, info.uPartitions)
  {
    var more := signed || info.bTransformed;
    RawColor(bytes, info, h, 0);
    RawColor(bytes, info, h, 1);
    ColorReads(h.ends[0].A, info.prec[0], signed);
    ColorReads(h.ends[0].B, info.prec[1], more);
    if info.uPartitions > 0 {
      RawColor(bytes, info, h, 2);
      RawColor(bytes, info, h, 3);
      ColorReads(h.ends[1].A, info.prec[2], more);
      ColorReads(h.ends[1].B, info.prec[3], more);
    }
  }

  lemma IndicesRead(bytes: seq<Byte>, info: ModeInfo, sh: Shape, idx: seq<nat>, i: nat)
    requires WellFormed(info) && ShapeOk(sh, info.uPartitions) && i < 16
    requires IndicesHold(bytes, info, sh, idx, 16) && IndicesFit(info, sh, idx)
    ensures ReadIndex(bytes, info, sh, i) == idx[i]
  {
    assert IndexHolds(bytes, info, sh, i, idx[i]);
    HoldsIsField(bytes, IndexStart(info, sh, i), IndexBits(info, sh, i), idx[i]);
  }

  // The mode is written where it is read, in two bits or five.
  lemma ModeReads(bytes: seq<Byte>, info: ModeInfo, h: Header)
    requires WellFormed(info) && HeaderHolds(bytes, info, h, HeaderBits(info)) && h.mode == info.uMode
    ensures ModeBits(bytes) == info.uMode
  {
    var m := info.uMode;
    assert Pow(2, 2) == 4 && Pow(2, 3) == 8;
    forall i | 0 <= i < Width(info, M) ensures BitAt(bytes, i) <==> Bit(m, i) {
      assert info.desc[i] == Desc(M, i);
    }
    if m < 2 {
      HoldsIsField(bytes, 0, 2, m);
    } else {
      LowPart(m);
      assert Holds(bytes, 0, 2, m % 4);
      HoldsIsField(bytes, 0, 2, m % 4);
      forall j | 0 <= j < 3 ensures BitAt(bytes, 2 + j) <==> Bit(m / 4, j) {
        BitShr(m, 2, j);
        assert Shr(m, 2) == Shr(m / 2, 1) == Shr(m / 2 / 2, 0);
      }
      HoldsIsField(bytes, 2, 3, m / 4);
    }
  }

  lemma LowPart(m: nat)
    ensures Bit(m % 4, 0) <==> Bit(m, 0)
    ensures Bit(m % 4, 1) <==> Bit(m, 1)
  {
    LowIsMod(m, 2);
    assert Pow(2, 2) == 4;
    BitLow(m, 2, 0);
    BitLow(m, 2, 1);
  }

  // Decoding an emitted block gives back the mode, the shape, the endpoints and all sixteen indices.
  lemma RoundTrip(bytes: seq<Byte>, t: Tables, row: nat, shape: nat, e: seq<EndPntPair>, idx: seq<nat>, signed: bool)
    requires Valid(t) && row < |t.infos| && |e| == 2 && shape < 32
    requires var info := t.infos[row];
      && Complete(info) && (info.uPartitions == 0 ==> shape == 0)
      && HeaderHolds(bytes, info, Header(info.uMode, shape, e), HeaderBits(info))
      && IndicesHold(bytes, info, t.shapes[info.uPartitions][shape], idx, 16)
      && IndicesFit(info, t.shapes[info.uPartitions][shape], idx)
      && EndPointsFitIn(e, info, signed)
    ensures var info, d := t.infos[row], Decoding(bytes, t, signed);
      && d.Block? && d.row == row && d.shape == shape && |d.ends| == 2 && d.indices == idx
      && SameEnds(d.ends, if info.bTransformed then Inverse(e, info.prec[0], signed) else e, info.uPartitions)
  {
    var info := t.infos[row];
    var h, sh := Header(info.uMode, shape, e), t.shapes[info.uPartitions][shape];
    ModeReads(bytes, info, h);
    HeaderFieldReads(bytes, info, h, D);
    ShapeCut(shape, info.uPartitions);
    EndsRead(bytes, info, h, signed);
    forall i | 0 <= i < 16 ensures ReadIndex(bytes, info, sh, i) == idx[i] {
      IndicesRead(bytes, info, sh, idx, i);
    }
  }

  lemma ShapeCut(shape: nat, uPartitions: nat)
    requires shape < 32 && (uPartitions == 0 ==> shape == 0)
    ensures Low(shape, if uPartitions > 0 then 5 else 0) == shape
  {
    assert Pow(2, 3) == 8 && Pow(2, 5) == 4 * Pow(2, 3);
    LowOfSmall(shape, 5);
  }
}

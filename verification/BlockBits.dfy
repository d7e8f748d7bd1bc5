/** A 128-bit block addressed bit by bit through a moving cursor. */
module BlockBits {
  import opened Powers
  import opened Bitwise

  type Byte = n: int | 0 <= n < 0x100

  // Bit i of the block: bytes in order, low bits first.
  ghost predicate BitAt(bytes: seq<Byte>, i: nat)
    requires i < 8 * |bytes|
  {
    Bit(bytes[i / 8], i % 8)
  }

  // The field of n bits from bit start on holds the low n bits of v.
  ghost predicate Holds(bytes: seq<Byte>, start: nat, n: nat, v: int)
    requires start + n <= 8 * |bytes|
  {
    forall j :: 0 <= j < n ==> (BitAt(bytes, start + j) <==> Bit(v, j))
  }

  lemma ByteBits(x: Byte, j: nat)
    requires j >= 8
    ensures !Bit(x, j)
  {
    assert Pow(2, 4) == 16;
    PowAdd(2, 4, 4);
    HighBitsClear(x, 8, j);
  }

  lemma InByte(bytes: seq<Byte>, i: nat, k: nat)
    requires i < |bytes| && k < 8
    ensures BitAt(bytes, 8 * i + k) <==> Bit(bytes[i], k)
  {}

  // ---- reading a field ----

  // The part of a field in one byte, and the rest in the next.
  function Straddle(low: Byte, high: Byte, base: nat, n: nat): nat
    requires base < 8 < base + n
  {
    Or(Shr(low, base), Shl(And(high, Mask(n - (8 - base))), 8 - base))
  }

  lemma StraddleBit(low: Byte, high: Byte, base: nat, n: nat, j: nat)
    requires base < 8 < base + n && n <= 8
    ensures Bit(Straddle(low, high, base, n), j) <==>
            j < n && if base + j < 8 then Bit(low, base + j) else Bit(high, base + j - 8)
  {
    var first := 8 - base;
    BitOr(Shr(low, base), Shl(And(high, Mask(n - first)), first), j);
    BitShr(low, base, j);
    BitShl(And(high, Mask(n - first)), first, j);
    if j >= first {
      BitAnd(high, Mask(n - first), j - first);
      BitMask(n - first, j - first);
      ByteBits(low, base + j);
    }
  }

  lemma WithinBit(b: Byte, base: nat, n: nat, j: nat)
    ensures Bit(And(Shr(b, base), Mask(n)), j) <==> j < n && Bit(b, base + j)
  {
    BitAnd(Shr(b, base), Mask(n), j);
    BitShr(b, base, j);
    BitMask(n, j);
  }

  lemma FieldBound(v: nat, n: nat)
    requires forall j: nat :: Bit(v, j) ==> j < n
    ensures v == Low(v, n) < Pow(2, n)
  {
    BitsAreLow(v, v, n);
    LowBound(v, n);
  }

  // A field that straddles two bytes, and one within a byte, read as a number.
  lemma ReadStraddle(bytes: seq<Byte>, i: nat, base: nat, n: nat)
    requires i + 1 < |bytes| && base < 8 < base + n && n <= 8
    ensures var v := Straddle(bytes[i], bytes[i + 1], base, n); v < Pow(2, n) && Holds(bytes, 8 * i + base, n, v)
  {
    var v := Straddle(bytes[i], bytes[i + 1], base, n);
    forall j: nat
      ensures Bit(v, j) ==> j < n
      ensures j < n ==> (BitAt(bytes, 8 * i + base + j) <==> Bit(v, j))
    {
      StraddleBit(bytes[i], bytes[i + 1], base, n, j);
      if j < n {
        if base + j < 8 { InByte(bytes, i, base + j); } else { InByte(bytes, i + 1, base + j - 8); }
      }
    }
    FieldBound(v, n);
  }

  lemma ReadWithin(bytes: seq<Byte>, i: nat, base: nat, n: nat)
    requires i < |bytes| && base + n <= 8
    ensures var v := And(Shr(bytes[i], base), Mask(n)); v < Pow(2, n) && Holds(bytes, 8 * i + base, n, v)
  {
    var v := And(Shr(bytes[i], base), Mask(n));
    forall j: nat
      ensures Bit(v, j) ==> j < n
      ensures j < n ==> (BitAt(bytes, 8 * i + base + j) <==> Bit(v, j))
    {
      WithinBit(bytes[i], base, n, j);
      if j < n { InByte(bytes, i, base + j); }
    }
    FieldBound(v, n);
  }

  // ---- writing a field ----

  // The bits of the mask replaced by those of v, in one byte.
  function Patch(b: Byte, mask: nat, v: nat): Byte {
    Or(AndNot(b, mask), v) % 0x100
  }

  lemma PatchBit(b: Byte, mask: nat, v: nat, j: nat)
    requires j < 8
    ensures Bit(Patch(b, mask, v), j) <==> (Bit(b, j) && !Bit(mask, j)) || Bit(v, j)
  {
    var x := Or(AndNot(b, mask), v);
    BitOr(AndNot(b, mask), v, j);
    BitAndNot(b, mask, j);
    LowIsMod(x, 8);
    assert Pow(2, 4) == 16;
    PowAdd(2, 4, 4);
    BitLow(x, 8, j);
  }

  // A field of n bits at base, replaced.
  lemma PatchField(b: Byte, base: nat, n: nat, v: nat, j: nat)
    requires j < 8 && (forall i: nat :: Bit(v, i) && base + i < 8 ==> i < n)
    ensures Bit(Patch(b, Shl(Mask(n), base), Shl(v, base)), j) <==>
            if base <= j < base + n then Bit(v, j - base) else Bit(b, j)
  {
    PatchBit(b, Shl(Mask(n), base), Shl(v, base), j);
    BitShl(Mask(n), base, j);
    BitShl(v, base, j);
    if j >= base {
      BitMask(n, j - base);
    }
  }

  // The rest of the field at the bottom of the next byte.
  lemma PatchRest(b: Byte, n: nat, v: nat, first: nat, j: nat)
    requires j < 8 && v < Pow(2, first + n)
    ensures Bit(Patch(b, Mask(n), Shr(v, first)), j) <==> if j < n then Bit(v, first + j) else Bit(b, j)
  {
    PatchBit(b, Mask(n), Shr(v, first), j);
    BitMask(n, j);
    BitShr(v, first, j);
    if j >= n {
      HighBitsClear(v, first + n, first + j);
    }
  }

  // The field of n bits from bit start on holds v, and every other bit is what it was.
  ghost predicate Written(was: seq<Byte>, now: seq<Byte>, start: nat, n: nat, v: nat) {
    && |now| == |was| && start + n <= 8 * |now| && Holds(now, start, n, v)
    && forall i: nat :: i < 8 * |now| && !(start <= i < start + n) ==> (BitAt(now, i) <==> BitAt(was, i))
  }

  lemma OneBit(was: seq<Byte>, now: seq<Byte>, start: nat, v: nat)
    requires Written(was, now, start, 1, v) && v < 2
    ensures BitAt(now, start) <==> v == 1
    ensures forall i: nat :: i < start ==> (BitAt(now, i) <==> BitAt(was, i))
  {
    assert BitAt(now, start + 0) <==> Bit(v, 0);
  }

  // A field below the one written is kept.
  lemma FieldKept(was: seq<Byte>, now: seq<Byte>, start: nat, n: nat, v: nat, a: nat, m: nat, x: nat)
    requires Written(was, now, start, n, v) && a + m <= start && Holds(was, a, m, x)
    ensures Holds(now, a, m, x)
  {
    forall j | 0 <= j < m
      ensures BitAt(now, a + j) <==> Bit(x, j)
    {
      var k: nat := a + j;
      assert BitAt(now, k) <==> BitAt(was, k);
    }
  }

  // Bit k after the write, with q its byte and r its place there.
  ghost predicate BitWritten(was: seq<Byte>, now: seq<Byte>, start: nat, n: nat, v: nat, q: nat, r: nat)
    requires q < |was| == |now|
  {
    Bit(now[q], r) <==> if start <= 8 * q + r < start + n then Bit(v, 8 * q + r - start) else Bit(was[q], r)
  }

  lemma WithinWritten(was: seq<Byte>, now: seq<Byte>, i: nat, base: nat, n: nat, v: nat, q: nat, r: nat)
    requires q < |was| == |now| && r < 8 && i < |was| && base + n <= 8 && v < Pow(2, n)
    requires now[i] == Patch(was[i], Shl(Mask(n), base), Shl(v, base)) && (q != i ==> now[q] == was[q])
    ensures BitWritten(was, now, 8 * i + base, n, v, q, r)
  {
    if q == i {
      forall k: nat | Bit(v, k) ensures k < n {
        if k >= n { HighBitsClear(v, n, k); }
      }
      PatchField(was[i], base, n, v, r);
    }
  }

  lemma FirstByte(was: seq<Byte>, now: seq<Byte>, i: nat, base: nat, n: nat, v: nat, r: nat)
    requires i < |was| == |now| && r < 8 && base < 8 < base + n
    requires now[i] == Patch(was[i], Shl(Mask(8 - base), base), Shl(v, base))
    ensures BitWritten(was, now, 8 * i + base, n, v, i, r)
  {
    PatchField(was[i], base, 8 - base, v, r);
  }

  lemma NextByte(was: seq<Byte>, now: seq<Byte>, i: nat, base: nat, n: nat, v: nat, r: nat)
    requires i + 1 < |was| == |now| && r < 8 && base < 8 < base + n && v < Pow(2, n)
    requires now[i + 1] == Patch(was[i + 1], Mask(base + n - 8), Shr(v, 8 - base))
    ensures BitWritten(was, now, 8 * i + base, n, v, i + 1, r)
  {
    PatchRest(was[i + 1], base + n - 8, v, 8 - base, r);
    assert 8 * (i + 1) + r - (8 * i + base) == 8 - base + r;
  }

  lemma StraddleWritten(was: seq<Byte>, now: seq<Byte>, i: nat, base: nat, n: nat, v: nat, q: nat, r: nat)
    requires q < |was| == |now| && r < 8 && i + 1 < |was| && base < 8 < base + n && n <= 8 && v < Pow(2, n)
    requires now[i] == Patch(was[i], Shl(Mask(8 - base), base), Shl(v, base))
    requires now[i + 1] == Patch(was[i + 1], Mask(base + n - 8), Shr(v, 8 - base))
    requires q != i && q != i + 1 ==> now[q] == was[q]
    ensures BitWritten(was, now, 8 * i + base, n, v, q, r)
  {
    if q == i {
      FirstByte(was, now, i, base, n, v, r);
    } else if q == i + 1 {
      NextByte(was, now, i, base, n, v, r);
    }
  }

  lemma WriteWithin(was: seq<Byte>, now: seq<Byte>, i: nat, base: nat, n: nat, v: nat)
    requires i < |was| == |now| && base + n <= 8 && v < Pow(2, n)
    requires now[i] == Patch(was[i], Shl(Mask(n), base), Shl(v, base))
    requires forall q :: 0 <= q < |was| && q != i ==> now[q] == was[q]
    ensures Written(was, now, 8 * i + base, n, v)
  {
    var start := 8 * i + base;
    forall q: nat, r: nat | q < |now| && r < 8
      ensures BitWritten(was, now, start, n, v, q, r)
    {
      WithinWritten(was, now, i, base, n, v, q, r);
    }
    FromBits(was, now, start, n, v);
  }

  lemma WriteStraddle(was: seq<Byte>, now: seq<Byte>, i: nat, base: nat, n: nat, v: nat)
    requires i + 1 < |was| == |now| && base < 8 < base + n && n <= 8 && v < Pow(2, n)
    requires now[i] == Patch(was[i], Shl(Mask(8 - base), base), Shl(v, base))
    requires now[i + 1] == Patch(was[i + 1], Mask(base + n - 8), Shr(v, 8 - base))
    requires forall q :: 0 <= q < |was| && q != i && q != i + 1 ==> now[q] == was[q]
    ensures Written(was, now, 8 * i + base, n, v)
  {
    var start := 8 * i + base;
    forall q: nat, r: nat | q < |now| && r < 8
      ensures BitWritten(was, now, start, n, v, q, r)
    {
      StraddleWritten(was, now, i, base, n, v, q, r);
    }
    FromBits(was, now, start, n, v);
  }

  lemma FromBits(was: seq<Byte>, now: seq<Byte>, start: nat, n: nat, v: nat)
    requires |now| == |was| && start + n <= 8 * |now|
    requires forall q: nat, r: nat :: q < |now| && r < 8 ==> BitWritten(was, now, start, n, v, q, r)
    ensures Written(was, now, start, n, v)
  {
    forall k: nat | k < 8 * |now|
      ensures BitAt(now, k) <==> if start <= k < start + n then Bit(v, k - start) else BitAt(was, k)
    {
      assert BitWritten(was, now, start, n, v, k / 8, k % 8);
    }
    forall j | 0 <= j < n
      ensures BitAt(now, start + j) <==> Bit(v, j)
    {
      var k: nat := start + j;
      assert BitAt(now, k) <==> Bit(v, k - start);
    }
  }

  class CBits {
    const m_uBits: array<Byte>

    constructor ()
      ensures Valid() && fresh(m_uBits)
    {
      m_uBits := new Byte[16];
    }

    ghost predicate Valid() {
      m_uBits.Length == 16
    }

    method GetBit(uStartBit: nat) returns (ret: Byte, uNext: nat)
      requires Valid() && uStartBit < 128
      ensures ret < 2 && (ret == 1 <==> BitAt(m_uBits[..], uStartBit)) && uNext == uStartBit + 1
    {
      var uIndex := uStartBit / 8;
      var shifted := Shr(m_uBits[uIndex], uStartBit - 8 * uIndex);
      ret := And(shifted, 1);
      BitShr(m_uBits[uIndex], uStartBit - 8 * uIndex, 0);
      uNext := uStartBit + 1;
    }

    method GetBits(uStartBit: nat, uNumBits: nat) returns (ret: nat, uNext: nat)
      requires Valid() && (uNumBits > 0 ==> uStartBit + uNumBits <= 128 && uNumBits <= 8)
      ensures ret < Pow(2, uNumBits) && uNext == uStartBit + uNumBits
      ensures uNumBits > 0 ==> Holds(m_uBits[..], uStartBit, uNumBits, ret)
    {
      if uNumBits == 0 {
        return 0, uStartBit;
      }
      var uIndex := uStartBit / 8;
      var uBase := uStartBit - 8 * uIndex;
      if uBase + uNumBits > 8 {
        ret := Straddle(m_uBits[uIndex], m_uBits[uIndex + 1], uBase, uNumBits);
        ReadStraddle(m_uBits[..], uIndex, uBase, uNumBits);
      } else {
        ret := And(Shr(m_uBits[uIndex], uBase), Mask(uNumBits));
        ReadWithin(m_uBits[..], uIndex, uBase, uNumBits);
      }
      uNext := uStartBit + uNumBits;
    }

    // The field holds the value, and every other bit is what it was.
    method SetBit(uStartBit: nat, uValue: nat) returns (uNext: nat)
      requires Valid() && uStartBit < 128 && uValue < 2
      modifies m_uBits
      ensures uNext == uStartBit + 1
      ensures Written(old(m_uBits[..]), m_uBits[..], uStartBit, 1, uValue)
    {
      var uIndex := uStartBit / 8;
      var uBase := uStartBit - 8 * uIndex;
      ghost var was := m_uBits[..];
      m_uBits[uIndex] := Patch(m_uBits[uIndex], Shl(1, uBase), Shl(uValue, uBase));
      assert Mask(1) == 1 && Pow(2, 1) == 2;
      WriteWithin(was, m_uBits[..], uIndex, uBase, 1, uValue);
      uNext := uStartBit + 1;
    }

    method SetBits(uStartBit: nat, uNumBits: nat, uValue: nat) returns (uNext: nat)
      requires Valid() && (uNumBits > 0 ==> uStartBit + uNumBits <= 128 && uNumBits <= 8 && uValue < Pow(2, uNumBits))
      modifies m_uBits
      ensures uNext == uStartBit + uNumBits
      ensures if uNumBits == 0 then m_uBits[..] == old(m_uBits[..])
              else Written(old(m_uBits[..]), m_uBits[..], uStartBit, uNumBits, uValue)
    {
      if uNumBits == 0 {
        return uStartBit;
      }
      var uIndex := uStartBit / 8;
      var uBase := uStartBit - 8 * uIndex;
      ghost var was := m_uBits[..];
      if uBase + uNumBits > 8 {
        var uFirstIndexBits := 8 - uBase;
        var uNextIndexBits := uBase + uNumBits - 8;
        m_uBits[uIndex] := Patch(m_uBits[uIndex], Shl(Mask(uFirstIndexBits), uBase), Shl(uValue, uBase));
        m_uBits[uIndex + 1] := Patch(m_uBits[uIndex + 1], Mask(uNextIndexBits), Shr(uValue, uFirstIndexBits));
        WriteStraddle(was, m_uBits[..], uIndex, uBase, uNumBits, uValue);
      } else {
        m_uBits[uIndex] := Patch(m_uBits[uIndex], Shl(Mask(uNumBits), uBase), Shl(uValue, uBase));
        WriteWithin(was, m_uBits[..], uIndex, uBase, uNumBits, uValue);
      }
      uNext := uStartBit + uNumBits;
    }
  }
}

/** The mode and partition tables of BC6H, and the proof that they are what the codec relies on. */
module Bc6hTables {
  import opened Endpoints
  import opened BlockBits
  import opened Bc6hBlock
  import opened Bc6hDecode
  import opened Bc6hEncode
  import opened Bc6hColors
  import opened Bc6hRefine

  // Header positions, as runs of consecutive bits of one field: n bits from bit low on, lowest or highest first.
  datatype Bits = Start | Run(before: Bits, field: Field, low: nat, n: nat, down: bool) {
    function Up(f: Field, from: nat, count: nat): Bits {
      Run(this, f, from, count, false)
    }

    function Down(f: Field, from: nat, count: nat): Bits {
      Run(this, f, from, count, true)
    }
  }

  function Spread(b: Bits): seq<Desc> {
    match b
    case Start => []
    case Run(before, f, low, n, down) =>
      Spread(before) + seq(n, i requires 0 <= i < n => Desc(f, low + if down then n - 1 - i else i))
  }

  function Size(b: Bits): nat {
    match b
    case Start => 0
    case Run(before, _, _, n, _) => Size(before) + n
  }

  // Some run holds bit k of the field.
  predicate Covered(b: Bits, f: Field, k: nat) {
    match b
    case Start => false
    case Run(before, g, low, n, _) => (g == f && low <= k < low + n) || Covered(before, f, k)
  }

  lemma {:induction false} SpreadSize(b: Bits)
    ensures |Spread(b)| == Size(b)
  {
    if b != Start { SpreadSize(b.before); }
  }

  lemma {:induction false} SpreadCovers(b: Bits, f: Field, k: nat) returns (i: nat)
    requires Covered(b, f, k)
    ensures i < |Spread(b)| && Spread(b)[i] == Desc(f, k)
  {
    if b.field == f && b.low <= k < b.low + b.n {
      i := |Spread(b.before)| + if b.down then b.low + b.n - 1 - k else k - b.low;
    } else {
      i := SpreadCovers(b.before, f, k);
    }
  }

  const RW := Slot(0)
  const RX := Slot(1)
  const RY := Slot(2)
  const RZ := Slot(3)
  const GW := Slot(4)
  const GX := Slot(5)
  const GY := Slot(6)
  const GZ := Slot(7)
  const BW := Slot(8)
  const BX := Slot(9)
  const BY := Slot(10)
  const BZ := Slot(11)

  // A row of the mode table: mode, regions, delta transform, the precisions of the first endpoint and of the others,
  // and the header behind the mode bits, in three parts.
  datatype Mode = Mode(uMode: nat, uPartitions: nat, bTransformed: bool, base: Prec, rest: Prec, a: Bits, b: Bits, c: Bits)

  function Mode1(): Mode {
    Mode(0x00, 1, true, Prec(10, 10, 10), Prec(5, 5, 5),
         Start.Up(GY, 4, 1).Up(BY, 4, 1).Up(BZ, 4, 1).Up(RW, 0, 10).Up(GW, 0, 10).Up(BW, 0, 10).Up(RX, 0, 5),
         Start.Up(GZ, 4, 1).Up(GY, 0, 4).Up(GX, 0, 5).Up(BZ, 0, 1).Up(GZ, 0, 4).Up(BX, 0, 5).Up(BZ, 1, 1),
         Start.Up(BY, 0, 4).Up(RY, 0, 5).Up(BZ, 2, 1).Up(RZ, 0, 5).Up(BZ, 3, 1).Up(D, 0, 5))
  }

  function Mode2(): Mode {
    Mode(0x01, 1, true, Prec(7, 7, 7), Prec(6, 6, 6),
         Start.Up(GY, 5, 1).Up(GZ, 4, 2).Up(RW, 0, 7).Up(BZ, 0, 2).Up(BY, 4, 1).Up(GW, 0, 7).Up(BY, 5, 1),
         Start.Up(BZ, 2, 1).Up(GY, 4, 1).Up(BW, 0, 7).Up(BZ, 3, 1).Down(BZ, 4, 2).Up(RX, 0, 6).Up(GY, 0, 4),
         Start.Up(GX, 0, 6).Up(GZ, 0, 4).Up(BX, 0, 6).Up(BY, 0, 4).Up(RY, 0, 6).Up(RZ, 0, 6).Up(D, 0, 5))
  }

  function Mode3(): Mode {
    Mode(0x02, 1, true, Prec(11, 11, 11), Prec(5, 4, 4),
         Start.Up(RW, 0, 10).Up(GW, 0, 10).Up(BW, 0, 10).Up(RX, 0, 5).Up(RW, 10, 1).Up(GY, 0, 4).Up(GX, 0, 4),
         Start.Up(GW, 10, 1).Up(BZ, 0, 1).Up(GZ, 0, 4).Up(BX, 0, 4).Up(BW, 10, 1).Up(BZ, 1, 1).Up(BY, 0, 4),
         Start.Up(RY, 0, 5).Up(BZ, 2, 1).Up(RZ, 0, 5).Up(BZ, 3, 1).Up(D, 0, 5))
  }

  function Mode4(): Mode {
    Mode(0x06, 1, true, Prec(11, 11, 11), Prec(4, 5, 4),
         Start.Up(RW, 0, 10).Up(GW, 0, 10).Up(BW, 0, 10).Up(RX, 0, 4).Up(RW, 10, 1).Up(GZ, 4, 1).Up(GY, 0, 4),
         Start.Up(GX, 0, 5).Up(GW, 10, 1).Up(GZ, 0, 4).Up(BX, 0, 4).Up(BW, 10, 1).Up(BZ, 1, 1).Up(BY, 0, 4),
         Start.Up(RY, 0, 4).Up(BZ, 0, 1).Up(BZ, 2, 1).Up(RZ, 0, 4).Up(GY, 4, 1).Up(BZ, 3, 1).Up(D, 0, 5))
  }

  function Mode5(): Mode {
    Mode(0x0a, 1, true, Prec(11, 11, 11), Prec(4, 4, 5),
         Start.Up(RW, 0, 10).Up(GW, 0, 10).Up(BW, 0, 10).Up(RX, 0, 4).Up(RW, 10, 1).Up(BY, 4, 1).Up(GY, 0, 4),
         Start.Up(GX, 0, 4).Up(GW, 10, 1).Up(BZ, 0, 1).Up(GZ, 0, 4).Up(BX, 0, 5).Up(BW, 10, 1).Up(BY, 0, 4),
         Start.Up(RY, 0, 4).Up(BZ, 1, 2).Up(RZ, 0, 4).Down(BZ, 3, 2).Up(D, 0, 5))
  }

  function Mode6(): Mode {
    Mode(0x0e, 1, true, Prec(9, 9, 9), Prec(5, 5, 5),
         Start.Up(RW, 0, 9).Up(BY, 4, 1).Up(GW, 0, 9).Up(GY, 4, 1).Up(BW, 0, 9).Up(BZ, 4, 1).Up(RX, 0, 5),
         Start.Up(GZ, 4, 1).Up(GY, 0, 4).Up(GX, 0, 5).Up(BZ, 0, 1).Up(GZ, 0, 4).Up(BX, 0, 5).Up(BZ, 1, 1),
         Start.Up(BY, 0, 4).Up(RY, 0, 5).Up(BZ, 2, 1).Up(RZ, 0, 5).Up(BZ, 3, 1).Up(D, 0, 5))
  }

  function Mode7(): Mode {
    Mode(0x12, 1, true, Prec(8, 8, 8), Prec(6, 5, 5),
         Start.Up(RW, 0, 8).Up(GZ, 4, 1).Up(BY, 4, 1).Up(GW, 0, 8).Up(BZ, 2, 1).Up(GY, 4, 1).Up(BW, 0, 8),
         Start.Up(BZ, 3, 2).Up(RX, 0, 6).Up(GY, 0, 4).Up(GX, 0, 5).Up(BZ, 0, 1).Up(GZ, 0, 4).Up(BX, 0, 5),
         Start.Up(BZ, 1, 1).Up(BY, 0, 4).Up(RY, 0, 6).Up(RZ, 0, 6).Up(D, 0, 5))
  }

  function Mode8(): Mode {
    Mode(0x16, 1, true, Prec(8, 8, 8), Prec(5, 6, 5),
         Start.Up(RW, 0, 8).Up(BZ, 0, 1).Up(BY, 4, 1).Up(GW, 0, 8).Down(GY, 4, 2).Up(BW, 0, 8).Up(GZ, 5, 1),
         Start.Up(BZ, 4, 1).Up(RX, 0, 5).Up(GZ, 4, 1).Up(GY, 0, 4).Up(GX, 0, 6).Up(GZ, 0, 4).Up(BX, 0, 5),
         Start.Up(BZ, 1, 1).Up(BY, 0, 4).Up(RY, 0, 5).Up(BZ, 2, 1).Up(RZ, 0, 5).Up(BZ, 3, 1).Up(D, 0, 5))
  }

  function Mode9(): Mode {
    Mode(0x1a, 1, true, Prec(8, 8, 8), Prec(5, 5, 6),
         Start.Up(RW, 0, 8).Up(BZ, 1, 1).Up(BY, 4, 1).Up(GW, 0, 8).Up(BY, 5, 1).Up(GY, 4, 1).Up(BW, 0, 8),
         Start.Down(BZ, 4, 2).Up(RX, 0, 5).Up(GZ, 4, 1).Up(GY, 0, 4).Up(GX, 0, 5).Up(BZ, 0, 1).Up(GZ, 0, 4),
         Start.Up(BX, 0, 6).Up(BY, 0, 4).Up(RY, 0, 5).Up(BZ, 2, 1).Up(RZ, 0, 5).Up(BZ, 3, 1).Up(D, 0, 5))
  }

  function Mode10(): Mode {
    Mode(0x1e, 1, false, Prec(6, 6, 6), Prec(6, 6, 6),
         Start.Up(RW, 0, 6).Up(GZ, 4, 1).Up(BZ, 0, 2).Up(BY, 4, 1).Up(GW, 0, 6).Up(GY, 5, 1).Up(BY, 5, 1).Up(BZ, 2, 1),
         Start.Up(GY, 4, 1).Up(BW, 0, 6).Up(GZ, 5, 1).Up(BZ, 3, 1).Down(BZ, 4, 2).Up(RX, 0, 6).Up(GY, 0, 4)
           .Up(GX, 0, 6),
         Start.Up(GZ, 0, 4).Up(BX, 0, 6).Up(BY, 0, 4).Up(RY, 0, 6).Up(RZ, 0, 6).Up(D, 0, 5))
  }

  function Mode11(): Mode {
    Mode(0x03, 0, false, Prec(10, 10, 10), Prec(10, 10, 10),
         Start.Up(RW, 0, 10).Up(GW, 0, 10),
         Start.Up(BW, 0, 10).Up(RX, 0, 10),
         Start.Up(GX, 0, 10).Up(BX, 0, 10))
  }

  function Mode12(): Mode {
    Mode(0x07, 0, true, Prec(11, 11, 11), Prec(9, 9, 9),
         Start.Up(RW, 0, 10).Up(GW, 0, 10).Up(BW, 0, 10),
         Start.Up(RX, 0, 9).Up(RW, 10, 1).Up(GX, 0, 9),
         Start.Up(GW, 10, 1).Up(BX, 0, 9).Up(BW, 10, 1))
  }

  function Mode13(): Mode {
    Mode(0x0b, 0, true, Prec(12, 12, 12), Prec(8, 8, 8),
         Start.Up(RW, 0, 10).Up(GW, 0, 10).Up(BW, 0, 10),
         Start.Up(RX, 0, 8).Down(RW, 10, 2).Up(GX, 0, 8),
         Start.Down(GW, 10, 2).Up(BX, 0, 8).Down(BW, 10, 2))
  }

  function Mode14(): Mode {
    Mode(0x0f, 0, true, Prec(16, 16, 16), Prec(4, 4, 4),
         Start.Up(RW, 0, 10).Up(GW, 0, 10).Up(BW, 0, 10),
         Start.Up(RX, 0, 4).Down(RW, 10, 6).Up(GX, 0, 4),
         Start.Down(GW, 10, 6).Up(BX, 0, 4).Down(BW, 10, 6))
  }

  const RESERVED: int := -1

  function ModeToInfo(uMode: nat): int {
    match uMode
    case 0x00 => 0
    case 0x01 => 1
    case 0x02 => 2
    case 0x03 => 10
    case 0x06 => 3
    case 0x07 => 11
    case 0x0a => 4
    case 0x0b => 12
    case 0x0e => 5
    case 0x0f => 13
    case 0x12 => 6
    case 0x16 => 7
    case 0x1a => 8
    case 0x1e => 9
    case _ => RESERVED
  }

  // ---- what the rows have to satisfy, run by run ----

  function FieldWidth(m: Mode, f: Field): nat {
    match f
    case NA => 0
    case M => 0
    case D => if m.uPartitions > 0 then 5 else 0
    case Slot(s) =>
      var prec := if s == 0 || s == 4 || s == 8 then m.base else if s == 1 || s == 5 || s == 9 || m.uPartitions > 0 then m.rest
                  else Prec(0, 0, 0);
      if s < 4 then prec.r else if s < 8 then prec.g else if s < 12 then prec.b else 0
  }

  function ModeBits(m: Mode): nat {
    if m.uMode < 2 then 2 else 5
  }

  // Every run stays within its field.
  predicate Within(b: Bits, m: Mode) {
    match b
    case Start => true
    case Run(before, f, low, n, _) => low + n <= FieldWidth(m, f) && Within(before, m)
  }

  lemma {:induction false} SpreadWithin(b: Bits, m: Mode, i: nat)
    requires Within(b, m) && i < |Spread(b)|
    ensures var d := Spread(b)[i]; d.bit < FieldWidth(m, d.field)
  {
    if i < |Spread(b.before)| { SpreadWithin(b.before, m, i); }
  }

  // The parts fill the header with runs that stay within their fields.
  predicate Fits(m: Mode) {
    && Within(m.a, m) && Within(m.b, m) && Within(m.c, m)
    && ModeBits(m) + Size(m.a) + Size(m.b) + Size(m.c) == (if m.uPartitions > 0 then 82 else 65)
  }

  predicate Held(m: Mode, f: Field, k: nat) {
    Covered(m.a, f, k) || Covered(m.b, f, k) || Covered(m.c, f, k)
  }

  predicate Scalars(m: Mode, row: nat) {
    && m.uPartitions <= 1 && (m.uMode < 2 || (m.uMode < 32 && m.uMode % 4 >= 2)) && ModeToInfo(m.uMode) == row
    && 0 < m.base.r <= 16 && 0 < m.base.g <= 16 && 0 < m.base.b <= 16 && (!m.bTransformed ==> m.rest == m.base)
    && m.rest.r >= 2 && m.rest.g > 0 && m.rest.b > 0
  }

  // Every bit of every field has a place.
  ghost predicate Covers(m: Mode) {
    forall f: Field, k: nat :: k < FieldWidth(m, f) ==> Held(m, f, k)
  }

  ghost predicate Good(m: Mode, row: nat) {
    Scalars(m, row) && Fits(m) && Covers(m)
  }

  lemma Mode1Fits()
    ensures Scalars(Mode1(), 0) && Fits(Mode1())
  {}

  lemma Mode1Covers()
    ensures Covers(Mode1())
  {}

  lemma Mode2Fits()
    ensures Scalars(Mode2(), 1) && Fits(Mode2())
  {}

  lemma Mode2Covers()
    ensures Covers(Mode2())
  {}

  lemma Mode3Fits()
    ensures Scalars(Mode3(), 2) && Fits(Mode3())
  {}

  lemma Mode3Covers()
    ensures Covers(Mode3())
  {}

  lemma Mode4Fits()
    ensures Scalars(Mode4(), 3) && Fits(Mode4())
  {}

  lemma Mode4Covers()
    ensures Covers(Mode4())
  {}

  lemma Mode5Fits()
    ensures Scalars(Mode5(), 4) && Fits(Mode5())
  {}

  lemma Mode5Covers()
    ensures Covers(Mode5())
  {}

  lemma Mode6Fits()
    ensures Scalars(Mode6(), 5) && Fits(Mode6())
  {}

  lemma Mode6Covers()
    ensures Covers(Mode6())
  {}

  lemma Mode7Fits()
    ensures Scalars(Mode7(), 6) && Fits(Mode7())
  {}

  lemma Mode7Covers()
    ensures Covers(Mode7())
  {}

  lemma Mode8Fits()
    ensures Scalars(Mode8(), 7) && Fits(Mode8())
  {}

  lemma Mode8Covers()
    ensures Covers(Mode8())
  {}

  lemma Mode9Fits()
    ensures Scalars(Mode9(), 8) && Fits(Mode9())
  {}

  lemma Mode9Covers()
    ensures Covers(Mode9())
  {}

  lemma Mode10Fits()
    ensures Scalars(Mode10(), 9) && Fits(Mode10())
  {}

  lemma Mode10Covers()
    ensures Covers(Mode10())
  {}

  lemma Mode11Scalars()
    ensures Scalars(Mode11(), 10)
  {}

  lemma Mode11Fits()
    ensures Scalars(Mode11(), 10) && Fits(Mode11())
  {
    var m := Mode11();
    Mode11Scalars();
    assert Within(m.a, m) && Within(m.b, m) && Within(m.c, m);
    assert Size(m.a) == Size(m.b) == Size(m.c) == 20;
  }

  lemma Mode11Covers()
    ensures Covers(Mode11())
  {
    var m := Mode11();
    forall f: Field, k: nat | k < FieldWidth(m, f)
      ensures Held(m, f, k)
    {
      assert Covered(m.a, f, k) || Covered(m.b, f, k) || Covered(m.c, f, k);
    }
  }

  lemma Mode12Fits()
    ensures Scalars(Mode12(), 11) && Fits(Mode12())
  {}

  lemma Mode12Covers()
    ensures Covers(Mode12())
  {
    var m := Mode12();
    forall f: Field, k: nat | k < FieldWidth(m, f)
      ensures Held(m, f, k)
    {
      if f == RX || f == GX || (f == RW && k >= 10) {
        assert Covered(m.b, f, k);
      } else if f == BX || k >= 10 {
        assert Covered(m.c, f, k);
      } else {
        assert Covered(m.a, f, k);
      }
    }
  }

  lemma Mode13Fits()
    ensures Scalars(Mode13(), 12) && Fits(Mode13())
  {}

  lemma Mode13Covers()
    ensures Covers(Mode13())
  {
    var m := Mode13();
    forall f: Field, k: nat | k < FieldWidth(m, f)
      ensures Held(m, f, k)
    {
      if f == RX || f == GX || (f == RW && k >= 10) {
        assert Covered(m.b, f, k);
      } else if f == BX || k >= 10 {
        assert Covered(m.c, f, k);
      } else {
        assert Covered(m.a, f, k);
      }
    }
  }

  lemma Mode14Fits()
    ensures Scalars(Mode14(), 13) && Fits(Mode14())
  {}

  lemma Mode14Covers()
    ensures Covers(Mode14())
  {
    var m := Mode14();
    forall f: Field, k: nat | k < FieldWidth(m, f)
      ensures Held(m, f, k)
    {
      if f == RX || f == GX || (f == RW && k >= 10) {
        assert Covered(m.b, f, k);
      } else if f == BX || k >= 10 {
        assert Covered(m.c, f, k);
      } else {
        assert Covered(m.a, f, k);
      }
    }
  }

  // ---- rows of the mode table ----

  function ModeRow(row: nat): Mode {
    match row
    case 0 => Mode1()
    case 1 => Mode2()
    case 2 => Mode3()
    case 3 => Mode4()
    case 4 => Mode5()
    case 5 => Mode6()
    case 6 => Mode7()
    case 7 => Mode8()
    case 8 => Mode9()
    case 9 => Mode10()
    case 10 => Mode11()
    case 11 => Mode12()
    case 12 => Mode13()
    case _ => Mode14()
  }

  // The table row, with its header spread out bit by bit.
  function Info(m: Mode): ModeInfo {
    var others := if m.uPartitions > 0 then m.rest else Prec(0, 0, 0);
    ModeInfo(m.uMode, m.uPartitions, m.bTransformed, if m.uPartitions > 0 then 3 else 4, [m.base, m.rest, others, others],
             Spread(Start.Up(M, 0, ModeBits(m))) + (Spread(m.a) + (Spread(m.b) + Spread(m.c))))
  }

  lemma WidthIs(m: Mode, f: Field)
    requires f != M
    ensures Width(Info(m), f) == FieldWidth(m, f)
  {
    match f
    case Slot(s) =>
      if s < 12 { assert s % 4 == s - 4 * (s / 4); }
    case _ =>
  }

  // A position behind the mode bits.
  lemma PartWithin(m: Mode, j: nat)
    requires Fits(m) && j < Size(m.a) + Size(m.b) + Size(m.c)
    ensures var parts := Spread(m.a) + (Spread(m.b) + Spread(m.c));
      |parts| == Size(m.a) + Size(m.b) + Size(m.c) && parts[j].bit < FieldWidth(m, parts[j].field)
  {
    var na, nb := Size(m.a), Size(m.b);
    SpreadSize(m.a);
    SpreadSize(m.b);
    SpreadSize(m.c);
    if j < na {
      SpreadWithin(m.a, m, j);
    } else if j < na + nb {
      SpreadWithin(m.b, m, j - na);
    } else {
      SpreadWithin(m.c, m, j - na - nb);
    }
  }

  lemma PositionOk(m: Mode, i: nat)
    requires Fits(m) && i < HeaderBits(Info(m))
    ensures i < |Info(m).desc|
    ensures i < ModeBits(m) ==> Info(m).desc[i] == Desc(M, i)
    ensures i >= ModeBits(m) ==>
      var d := Info(m).desc[i]; d.field != M && d.field != NA && d.bit < Width(Info(m), d.field)
  {
    var w := ModeBits(m);
    PartWithin(m, if i >= w then i - w else 0);
    if i >= w {
      assert Info(m).desc[i] == (Spread(m.a) + (Spread(m.b) + Spread(m.c)))[i - w];
      WidthIs(m, Info(m).desc[i].field);
    }
  }

  lemma InfoWellFormed(m: Mode, row: nat)
    requires Good(m, row)
    ensures WellFormed(Info(m))
  {
    var info := Info(m);
    forall i | 0 <= i < HeaderBits(info)
      ensures i < |info.desc| && info.desc[i].field != NA && info.desc[i].bit < Width(info, info.desc[i].field)
      ensures info.desc[i].field == M <==> i < Width(info, M)
      ensures i < Width(info, M) ==> info.desc[i].bit == i
    {
      PositionOk(m, i);
    }
    PositionOk(m, HeaderBits(info) - 1);
  }

  lemma InfoComplete(m: Mode, row: nat)
    requires Good(m, row) && WellFormed(Info(m))
    ensures Complete(Info(m))
  {
    var info, w := Info(m), ModeBits(m);
    forall f, k | f != NA && 0 <= k < Width(info, f)
      ensures Placed(info, f, k)
    {
      if f == M {
        assert info.desc[k] == Desc(f, k);
      } else {
        WidthIs(m, f);
        assert Held(m, f, k);
        var i := HeldAt(m, f, k);
        assert info.desc[w + i] == Desc(f, k);
      }
    }
  }

  lemma HeldAt(m: Mode, f: Field, k: nat) returns (i: nat)
    requires Held(m, f, k)
    ensures var d := Spread(m.a) + (Spread(m.b) + Spread(m.c)); i < |d| && d[i] == Desc(f, k)
    ensures i < Size(m.a) + Size(m.b) + Size(m.c)
  {
    SpreadSize(m.a);
    SpreadSize(m.b);
    SpreadSize(m.c);
    if Covered(m.a, f, k) {
      i := SpreadCovers(m.a, f, k);
    } else if Covered(m.b, f, k) {
      i := SpreadCovers(m.b, f, k);
      i := i + Size(m.a);
    } else {
      i := SpreadCovers(m.c, f, k);
      i := i + Size(m.a) + Size(m.b);
    }
  }

  // ---- shapes ----

  // Which pixels belong to the second region, and the pixel of the second region whose index is shorter.
  function Partition(n: nat): (p: (string, nat))
    ensures |p.0| == 16
  {
    match n
    case 0 => ("0011001100110011", 15)
    case 1 => ("0001000100010001", 15)
    case 2 => ("0111011101110111", 15)
    case 3 => ("0001001100110111", 15)
    case 4 => ("0000000100010011", 15)
    case 5 => ("0011011101111111", 15)
    case 6 => ("0001001101111111", 15)
    case 7 => ("0000000100110111", 15)
    case 8 => ("0000000000010011", 15)
    case 9 => ("0011011111111111", 15)
    case 10 => ("0000000101111111", 15)
    case 11 => ("0000000000010111", 15)
    case 12 => ("0001011111111111", 15)
    case 13 => ("0000000011111111", 15)
    case 14 => ("0000111111111111", 15)
    case 15 => ("0000000000001111", 15)
    case 16 => ("0000100011101111", 15)
    case 17 => ("0111000100000000", 2)
    case 18 => ("0000000010001110", 8)
    case 19 => ("0111001100010000", 2)
    case 20 => ("0011000100000000", 2)
    case 21 => ("0000100011001110", 8)
    case 22 => ("0000000010001100", 8)
    case 23 => ("0111001100110001", 15)
    case 24 => ("0011000100010000", 2)
    case 25 => ("0000100010001100", 8)
    case 26 => ("0110011001100110", 2)
    case 27 => ("0011011001101100", 2)
    case 28 => ("0001011111101000", 8)
    case 29 => ("0000111111110000", 8)
    case 30 => ("0111000110001110", 2)
    case _ => ("0011100110011100", 2)
  }

  function TwoRegions(n: nat): Shape {
    var (pixels, fixUp) := Partition(n);
    Shape(seq(16, i requires 0 <= i < 16 => if pixels[i] == '1' then 1 else 0), [0, fixUp])
  }

  function OneRegion(): Shape {
    Shape(seq(16, i => 0), [0])
  }

  lemma TwoRegionsOk(n: nat)
    ensures ShapeOk(TwoRegions(n), 1)
  {
    var (pixels, fixUp) := Partition(n);
    assert pixels[0] == '0' && fixUp < 16 && pixels[fixUp] == '1';
  }

  // ---- the tables together ----

  function BC6H(): Tables {
    Tables(seq(14, row requires 0 <= row < 14 => Info(ModeRow(row))), seq(32, m requires 0 <= m < 32 => ModeToInfo(m)),
           [seq(32, i => OneRegion()), seq(32, i requires 0 <= i < 32 => TwoRegions(i))])
  }

  lemma OneRowPerMode(m: nat, n: nat)
    requires ModeToInfo(m) == ModeToInfo(n) >= 0
    ensures m == n
  {}

  // What holds of each row holds of row r.
  lemma EachRow(P: (Mode, nat) -> bool, row: nat)
    requires row < 14
    requires P(Mode1(), 0) && P(Mode2(), 1) && P(Mode3(), 2) && P(Mode4(), 3) && P(Mode5(), 4) && P(Mode6(), 5)
    requires P(Mode7(), 6) && P(Mode8(), 7) && P(Mode9(), 8) && P(Mode10(), 9) && P(Mode11(), 10) && P(Mode12(), 11)
    requires P(Mode13(), 12) && P(Mode14(), 13)
    ensures P(ModeRow(row), row)
  {}

  lemma GoodRow(m: Mode, row: nat)
    requires Scalars(m, row) && Fits(m) && Covers(m)
    ensures Good(m, row)
  {}

  lemma RowGood(row: nat)
    requires row < 14
    ensures Good(ModeRow(row), row)
  {
    var P := (m: Mode, r: nat) => Good(m, r);
    assert P(Mode1(), 0) by {
      Mode1Fits();
      Mode1Covers();
      GoodRow(Mode1(), 0);
    }
    assert P(Mode2(), 1) by {
      Mode2Fits();
      Mode2Covers();
      GoodRow(Mode2(), 1);
    }
    assert P(Mode3(), 2) by {
      Mode3Fits();
      Mode3Covers();
      GoodRow(Mode3(), 2);
    }
    assert P(Mode4(), 3) by {
      Mode4Fits();
      Mode4Covers();
      GoodRow(Mode4(), 3);
    }
    assert P(Mode5(), 4) by {
      Mode5Fits();
      Mode5Covers();
      GoodRow(Mode5(), 4);
    }
    assert P(Mode6(), 5) by {
      Mode6Fits();
      Mode6Covers();
      GoodRow(Mode6(), 5);
    }
    assert P(Mode7(), 6) by {
      Mode7Fits();
      Mode7Covers();
      GoodRow(Mode7(), 6);
    }
    assert P(Mode8(), 7) by {
      Mode8Fits();
      Mode8Covers();
      GoodRow(Mode8(), 7);
    }
    assert P(Mode9(), 8) by {
      Mode9Fits();
      Mode9Covers();
      GoodRow(Mode9(), 8);
    }
    assert P(Mode10(), 9) by {
      Mode10Fits();
      Mode10Covers();
      GoodRow(Mode10(), 9);
    }
    assert P(Mode11(), 10) by {
      Mode11Fits();
      Mode11Covers();
      GoodRow(Mode11(), 10);
    }
    assert P(Mode12(), 11) by {
      Mode12Fits();
      Mode12Covers();
      GoodRow(Mode12(), 11);
    }
    assert P(Mode13(), 12) by {
      Mode13Fits();
      Mode13Covers();
      GoodRow(Mode13(), 12);
    }
    assert P(Mode14(), 13) by {
      Mode14Fits();
      Mode14Covers();
      GoodRow(Mode14(), 13);
    }
    EachRow(P, row);
    assert P(ModeRow(row), row);
  }

  lemma RowOk(row: nat)
    requires row < 14
    ensures WellFormed(BC6H().infos[row]) && Complete(BC6H().infos[row])
    ensures BC6H().infos[row].uMode < 32 && BC6H().modeToInfo[BC6H().infos[row].uMode] == row
  {
    RowGood(row);
    InfoWellFormed(ModeRow(row), row);
    InfoComplete(ModeRow(row), row);
  }

  // The tables of the format are as the codec needs them: every header position carries a bit of some field, every
  // field bit has a position, modes and rows correspond, and the fix-up pixels lie in their regions.
  lemma TablesValid()
    ensures Valid(BC6H()) && forall row :: 0 <= row < 14 ==> Complete(BC6H().infos[row])
  {
    forall row | 0 <= row < 14
      ensures WellFormed(BC6H().infos[row]) && Complete(BC6H().infos[row])
      ensures BC6H().infos[row].uMode < 32 && BC6H().modeToInfo[BC6H().infos[row].uMode] == row
    {
      RowOk(row);
    }
    forall m | 0 <= m < 32 && BC6H().modeToInfo[m] >= 0
      ensures BC6H().modeToInfo[m] < 14 && BC6H().infos[BC6H().modeToInfo[m]].uMode == m
    {
      RowOk(ModeToInfo(m));
      OneRowPerMode(m, BC6H().infos[ModeToInfo(m)].uMode);
    }
    forall i | 0 <= i < 32
      ensures ShapeOk(BC6H().shapes[1][i], 1)
    {
      TwoRegionsOk(i);
    }
  }

  // So what is proved of the codec, Refine and EmittedSettles above all, holds for every mode and shape of the format.
  lemma FormatInTables(row: nat, shape: nat)
    requires row < 14 && shape < 32 && (ModeRow(row).uPartitions == 0 ==> shape == 0)
    ensures InTables(BC6H(), row, shape)
  {
    TablesValid();
    RowOk(row);
  }

  // For every mode and shape of the format, what is emitted for a choice drawn from originals in range decodes to
  // exactly the colours of the choice: always in the unsigned format, and in the signed one when a choice stored as
  // deltas is itself in range.
  lemma FormatShowsColors(t: Tables, row: nat, shape: nat, bytes: seq<Byte>, bSigned: bool, org: seq<EndPntPair>,
                          e: seq<EndPntPair>, idx: seq<nat>)
    requires t == BC6H() && InTables(t, row, shape) && |org| == |e| == 2 && OnPalette(idx, t.infos[row].uIndexPrec)
    requires UsedInRange(org, t.infos[row], bSigned) && Drawn(org, e, t.infos[row])
    requires Emitted(bytes, t.infos[row], ShapeOf(t, row, shape), shape, e, idx, bSigned)
    ensures |bytes| == 16
    ensures !bSigned || !t.infos[row].bTransformed || UsedInRange(e, t.infos[row], bSigned) ==>
      AllShow(t, row, shape, bytes, e, idx, bSigned)
  {
    EmittedSettles(t, row, shape, bytes, bSigned, org, e, idx);
  }

  lemma FormatOnePrecision(row: nat)
    requires row < 14 && WellFormed(Info(ModeRow(row)))
    ensures OnePrecision(Info(ModeRow(row)))
  {
    RowGood(row);
  }

  lemma AllOnePrecision(t: Tables)
    requires t == BC6H() && Valid(t)
    ensures forall row :: 0 <= row < |t.infos| ==> OnePrecision(t.infos[row])
  {
    forall row | 0 <= row < |t.infos|
      ensures OnePrecision(t.infos[row])
    {
      assert t.infos[row] == Info(ModeRow(row));
      FormatOnePrecision(row);
    }
  }

  // The precisions are such that every pixel of every block of the format, whatever its bits, is a finite half-float code
  // (or that of minus infinity, in the signed format with sixteen bits).
  lemma FormatPixelsAreHalves(bytes: seq<Byte>, t: Tables, bSigned: bool, i: nat)
    requires |bytes| == 16 && t == BC6H() && Valid(t) && i < 16
    ensures ShowsHalves(Decoding(bytes, t, bSigned), t, bSigned, i)
  {
    AllOnePrecision(t);
    PixelsAreHalves(bytes, t, bSigned, i);
  }

  // The two modes that store endpoints in full take any originals in range, so they always have a block to write.
  lemma FullModesStore(t: Tables, row: nat, shape: nat, a: Assignment, org: seq<EndPntPair>, bSigned: bool)
    requires t == BC6H() && (row == 9 || row == 10) && InTables(t, row, shape) && |org| == 2
    requires AssignsTo(a, org, t.infos[row]) && UsedInRange(org, t.infos[row], bSigned)
    ensures Storable(a, org, t.infos[row], ShapeOf(t, row, shape), bSigned)
  {
    assert !ModeRow(9).bTransformed && !ModeRow(10).bTransformed;
    RowGood(row);
    FullEndpointsStorable(a, org, t.infos[row], ShapeOf(t, row, shape), bSigned);
  }

  // In the signed format every mode has endpoints that pass the fit test as deltas and do not come back.
  lemma EveryModeWraps(row: nat)
    requires row < 14 && WellFormed(BC6H().infos[row])
    ensures var info := BC6H().infos[row]; var e := AtEdge(Two(info.prec[0].r - 1));
      && EndPointsFitIn(Forward(e), info, true)
      && !SameEnds(Inverse(Forward(e), info.prec[0], true), e, info.uPartitions)
  {
    RowGood(row);
    FitsYetWraps(BC6H().infos[row]);
  }
}

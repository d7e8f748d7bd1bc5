/** Conversion of a double to decimal digits by exact integer arithmetic. */
module Dtoa {
  import opened Powers
  import opened Words
  import opened BigInts
  import opened BigArith
  import opened FivePowers
  import opened Doubles
  import opened Quotient
  import opened Digits
  import opened Readback
  import opened Scaling
  import opened Nearest
  import opened DigitLoops

  // ---- exponent bookkeeping ----

  // v times 5^a times 2^c.
  ghost function Sc(v: nat, a: nat, c: nat): nat {
    Shl(Fives(v, a), c)
  }

  lemma ScAdd(v: nat, a: nat, c: nat, a': nat, c': nat)
    ensures Sc(Sc(v, a, c), a', c') == Sc(v, a + a', c + c')
  {
    ShlFives(Fives(v, a), a', c);
    FivesAdd(v, a, a');
    ShlAdd(Fives(v, a + a'), c, c');
  }

  lemma ScTimes(v: nat, a: nat, c: nat)
    ensures v * Sc(1, a, c) == Sc(v, a, c)
  {
    TimesFives(v, a);
    ShlIsPow(Fives(1, a), c);
    ShlIsPow(Fives(v, a), c);
    MulAssoc(v, Fives(1, a), Pow(2, c));
  }

  // 5^b5 2^b2 over 5^s5 2^s2 in units of 10^k is 2^(b2 - s2 + k) when the fives balance.
  lemma ScMeasures(v: nat, t: nat, b5: nat, b2: nat, s5: nat, s2: nat, k: int, q: int)
    requires b5 - s5 == -k && b2 - s2 + k == t + q
    ensures Measures(Sc(v, b5, b2), Sc(1, s5, s2), k, Shl(v, t), q)
  {
    var x := Sc(v, b5, b2);
    TensSplit(x, Pos(k));
    ShlAdd(Fives(x, Pos(k)), Pos(k), Pos(-q));
    ScAdd(v, b5, b2, Pos(k), Pos(k) + Pos(-q));
    assert DecimalSide(x, k, q) == Sc(v, b5 + Pos(k), b2 + Pos(k) + Pos(-q));
    var y := Shl(v, t);
    TensSplit(y, Pos(-k));
    ShlAdd(Fives(y, Pos(-k)), Pos(-k), Pos(q));
    assert Sc(v, 0, t) == y;
    ScAdd(v, 0, t, Pos(-k), Pos(-k) + Pos(q));
    ScTimes(BinarySide(y, q, k), s5, s2);
    ScAdd(v, Pos(-k), t + Pos(-k) + Pos(q), s5, s2);
  }

  // The exponents of two and five that make the fraction equal the number in units of 10^k.
  method Balance(bits: nat, i: int, k: int) returns (b2: nat, s2: nat, b5: nat, s5: nat)
    ensures b2 - s2 == i + 1 - bits - k && b5 - s5 == -k
  {
    var j := bits - i - 1;
    if j >= 0 {
      b2, s2 := 0, j;
    } else {
      b2, s2 := -j, 0;
    }
    if k >= 0 {
      b5, s5, s2 := 0, k, s2 + k;
    } else {
      b2, b5, s5 := b2 - k, -k, 0;
    }
  }

  // The position of the leading bit: the number lies between 2^i and 2^(i + 1).
  function LogBinary(w0: ULong, be: int, bits: nat): int {
    if BiasedExp(w0) != 0 then BiasedExp(w0) - 1023 else bits + be - 1
  }

  // The factors of two shared by the number, its half gap and the divisor.
  method CommonTwos(b2: nat, m2: nat, s2: nat) returns (b2': nat, m2': nat, s2': nat)
    requires m2 <= b2
    ensures b2' - s2' == b2 - s2 && m2' - s2' == m2 - s2
  {
    b2', m2', s2' := b2, m2, s2;
    if m2 > 0 && s2 > 0 {
      var i := if m2 < s2 then m2 else s2;
      b2', m2', s2' := b2 - i, m2 - i, s2 - i;
    }
  }

  // ---- the divisor ----

  lemma ArrangedDivisor(S: Bigint, n: nat)
    requires S.Ok() && S.Trimmed() && HasBits(S.Value(), 32 * n + 28)
    ensures FourLeadingZeros(S)
  {
    TrimmedValue(S);
    PowOfBits(n);
    var w := S.wds;
    assert Pow(BASE, n) <= S.Value() < Pow(BASE, n + 1);
    if w <= n { PowMono(BASE, w, n); }
    if w > n + 1 { PowMono(BASE, n + 1, w - 1); }
    ValTopShl(S.x[..w], S.x[n]);
    TopBetween(S.x[n], S.Value(), n);
  }

  lemma PowOfBits(n: nat)
    ensures Pow(BASE, n) <= Shl(1, 32 * n + 27) && Shl(1, 32 * n + 28) <= Pow(BASE, n + 1)
  {
    ShlWords(1, n);
    ShlWords(1, n + 1);
    ShlGrows(1, 32 * n, 32 * n + 27);
    ShlGrows(1, 32 * n + 28, 32 * (n + 1));
  }

  lemma TopBetween(top: nat, v: nat, n: nat)
    requires HasBits(v, 32 * n + 28) && Shl(top, 32 * n) <= v < Shl(top + 1, 32 * n)
    ensures 0x800_0000 <= top < 0x1000_0000
  {
    ShlAdd(1, 27, 32 * n);
    ShlAdd(1, 28, 32 * n);
    ShlOrder(Shl(1, 27), top + 1, 32 * n);
    ShlOrder(top, Shl(1, 28), 32 * n);
    Bits27();
  }

  lemma Bits27()
    ensures Shl(1, 27) == 0x800_0000 && Shl(1, 28) == 0x1000_0000
  {
    ShlAdd(1, 16, 8);
    ShlAdd(1, 24, 3);
    ShlAdd(1, 24, 4);
    SixteenBits(1);
    EightBits(0x1_0000);
    EightBits(0x100_0000);
  }

  method ShiftUp(b: Bigint, n: nat) returns (r: Bigint)
    requires Num(b) && b.Value() > 0
    ensures r == b || (fresh(r) && fresh(r.x))
    ensures Num(r) && r.Value() == Shl(b.Value(), n)
  {
    r := b;
    TrimmedValue(b);
    if n > 0 {
      r := Lshift(b, n);
    }
  }

  // The number 5^n.
  method NewFives(mem: MemInfo, n: nat) returns (r: Bigint)
    requires mem.Valid()
    modifies mem
    ensures mem.Valid() && fresh(mem.owned - old(mem.owned)) && mem.Outside(r) && fresh(r) && fresh(r.x)
    ensures Num(r) && r.Value() == Fives(1, n) && r.Value() > 0
  {
    r := I2b(1);
    FivesPositive(1, n);
    if n > 0 {
      r := Pow5Mult(mem, r, n);
    }
  }

  lemma PowerTimes(p: nat, v: nat, n: nat)
    requires p == Fives(1, n) && v > 0
    ensures p * v == Fives(v, n) && p > 0 && Fives(v, n) > 0
  {
    FivesPositive(1, n);
    FivesPositive(v, n);
    TimesFives(v, n);
  }

  lemma HasWords(b: Bigint)
    requires Num(b) && b.Value() > 0
    ensures b.wds >= 1
  {
    TrimmedValue(b);
  }

  method TimesPower(p: Bigint, b: Bigint, n: nat) returns (r: Bigint)
    requires Num(p) && Num(b) && b.Value() > 0 && p.Value() == Fives(1, n)
    ensures fresh(r) && fresh(r.x)
    ensures Num(r) && r.Value() == Fives(b.Value(), n) && r.Value() > 0
  {
    PowerTimes(p.Value(), b.Value(), n);
    HasWords(p);
    HasWords(b);
    r := Mult(p, b);
  }

  // The shift that arranges the divisor, and the divisor shifted.
  method Arrange(S0: Bigint, s2: nat) returns (S: Bigint, i: nat)
    requires Num(S0) && S0.Value() > 0
    ensures S == S0 || (fresh(S) && fresh(S.x))
    ensures Divisor(S) && S.Value() == Shl(S0.Value(), s2 + i)
  {
    ghost var bits, n;
    TrimmedValue(S0);
    i, bits, n := Dshift(S0, s2);
    ShlHasBits(S0.Value(), bits, s2 + i);
    S := ShiftUp(S0, s2 + i);
    ArrangedDivisor(S, n);
  }

  // 5^s5 2^s2, shifted further until a quotient digit can be estimated from its top word.
  method MakeDivisor(mem: MemInfo, s5: nat, s2: nat) returns (S: Bigint, i: nat)
    requires mem.Valid()
    modifies mem
    ensures mem.Valid() && fresh(mem.owned - old(mem.owned)) && mem.Outside(S) && fresh(S) && fresh(S.x)
    ensures Divisor(S) && S.Value() == Sc(1, s5, s2 + i)
  {
    S := NewFives(mem, s5);
    S, i := Arrange(S, s2);
  }

  // The divisor 5^s5 2^s2, arranged, and a number shifted up with it.
  method DivideInto(mem: MemInfo, b0: Bigint, b2: nat, s5: nat, s2: nat) returns (b: Bigint, S: Bigint, i: nat)
    requires mem.Valid() && Num(b0) && b0.Value() > 0
    modifies mem
    ensures b == b0 || (fresh(b) && fresh(b.x))
    ensures fresh(S) && fresh(S.x) && Apart(b, S)
    ensures Divisor(S) && S.Value() == Sc(1, s5, s2 + i)
    ensures Num(b) && b.Value() == Shl(b0.Value(), b2 + i)
  {
    S, i := MakeDivisor(mem, s5, s2);
    b := ShiftUp(b0, b2 + i);
  }

  // The number times 5^b5.
  method RaiseFives(mem: MemInfo, b: Bigint, b5: nat) returns (r: Bigint)
    requires mem.Valid() && mem.Outside(b) && Num(b) && b.Value() > 0
    modifies mem, b, b.x
    ensures mem.Valid() && fresh(mem.owned - old(mem.owned)) && mem.Outside(r)
    ensures r == b || (fresh(r) && fresh(r.x))
    ensures Num(r) && r.Value() == Fives(old(b.Value()), b5) && r.Value() > 0
  {
    r := b;
    FivesPositive(b.Value(), b5);
    if b5 > 0 {
      r := Pow5Mult(mem, b, b5);
    }
  }

  // The number and its half gap, both times 5^b5: the power is computed once and multiplied in.
  method RaiseBoth(mem: MemInfo, b: Bigint, b5: nat) returns (r: Bigint, mhi: Bigint)
    requires mem.Valid() && mem.Outside(b) && Num(b) && b.Value() > 0
    modifies mem
    ensures mem.Valid() && fresh(mem.owned - old(mem.owned)) && mem.Outside(r) && mem.Outside(mhi)
    ensures r == b || (fresh(r) && fresh(r.x))
    ensures fresh(mhi) && fresh(mhi.x) && Apart(r, mhi)
    ensures Num(r) && r.Value() == Fives(old(b.Value()), b5) && r.Value() > 0
    ensures Num(mhi) && mhi.Value() == Fives(1, b5) && mhi.Value() > 0
  {
    mhi := NewFives(mem, b5);
    r := b;
    if b5 > 0 {
      r := TimesPower(mhi, b, b5);
    }
  }

  // ---- the estimate of the decimal exponent ----

  // The estimate is the exponent of the leading digit, or one more.
  ghost predicate GoodEstimate(k: int, w0: ULong, w1: ULong) {
    InDecade(Quarters(w0, w1), QuarterExp(w0), k) || InDecade(Quarters(w0, w1), QuarterExp(w0), k - 1)
  }

  // Up to 10^22 the power of ten is itself a double, and one comparison settles the exponent.
  method FirstEstimate(w0: ULong, w1: ULong, kEst: int) returns (k: int, check: bool)
    requires GoodEstimate(kEst, w0, w1)
    ensures if check then GoodEstimate(k, w0, w1) else InDecade(Quarters(w0, w1), QuarterExp(w0), k)
  {
    k, check := kEst, true;
    if 0 <= k <= 22 {
      if BinarySide(Quarters(w0, w1), QuarterExp(w0), k) < DecimalSide(1, k, QuarterExp(w0)) {
        k := k - 1;
      } else {
        InDecadeAbove(w0, w1, k);
      }
      check := false;
    }
  }

  lemma InDecadeAbove(w0: ULong, w1: ULong, k: int)
    requires GoodEstimate(k, w0, w1)
    requires BinarySide(Quarters(w0, w1), QuarterExp(w0), k) >= DecimalSide(1, k, QuarterExp(w0))
    ensures InDecade(Quarters(w0, w1), QuarterExp(w0), k)
  {
    var c, q := Quarters(w0, w1), QuarterExp(w0);
    if InDecade(c, q, k - 1) {
      NextDecade(c, q, k);
    }
  }

  // Below ten units of 10^(k - 1) is below 10^k.
  lemma NextDecade(c: nat, q: int, k: int)
    ensures BinarySide(c, q, k - 1) < DecimalSide(10, k - 1, q) <==> BinarySide(c, q, k) < DecimalSide(1, k, q)
  {
    if k > 0 {
      TensAdd(1, 1, k - 1);
      TenIsTens(1);
    } else {
      SidesTenfold(1, c, q, k);
    }
  }

  lemma WrongEstimate(b: nat, S: nat, k: int, w0: ULong, w1: ULong)
    requires S > 0 && Measures(b, S, k, Quarters(w0, w1), QuarterExp(w0)) && GoodEstimate(k, w0, w1)
    ensures b < S ==> InDecade(Quarters(w0, w1), QuarterExp(w0), k - 1)
    ensures b >= S ==> InDecade(Quarters(w0, w1), QuarterExp(w0), k)
  {
    var c, q := Quarters(w0, w1), QuarterExp(w0);
    FirstDigit(b, S, k, c, q);
    MeasuresTenth(b, S, k, c, q);
    FirstDigit(10 * b, S, k - 1, c, q);
  }

  // ---- modes 2 and 3: fixed counts of digits ----

  // The fraction b / S is the number in units of 10^k.
  ghost predicate Ready(b: Bigint, S: Bigint, k: int, w0: ULong, w1: ULong)
    reads b, b.x, S, S.x
  {
    && Apart(b, S) && Num(b) && Divisor(S)
    && Measures(b.Value(), S.Value(), k, Quarters(w0, w1), QuarterExp(w0))
  }

  // The number is v 2^be, with t bits between its last place and a quarter of the last place of the double.
  ghost predicate IsNumber(v: nat, be: int, t: nat, w0: ULong, w1: ULong) {
    v > 0 && Shl(v, t) == Quarters(w0, w1) && be == t + QuarterExp(w0)
  }

  method FixedFraction(mem: MemInfo, b0: Bigint, b2: nat, s2: nat, b5: nat, s5: nat, k: int,
                       ghost be: int, ghost t: nat, w0: ULong, w1: ULong)
    returns (b: Bigint, S: Bigint)
    requires mem.Valid() && mem.Outside(b0) && Num(b0) && IsNumber(b0.Value(), be, t, w0, w1)
    requires b2 - s2 == be - k && b5 - s5 == -k
    modifies mem, b0, b0.x
    ensures b == b0 || (fresh(b) && fresh(b.x))
    ensures fresh(S) && fresh(S.x)
    ensures Ready(b, S, k, w0, w1)
  {
    ghost var v := b0.Value();
    var b2', m2, s2' := CommonTwos(b2, b2, s2);
    b := RaiseFives(mem, b0, b5);
    var i;
    b, S, i := DivideInto(mem, b, b2', s5, s2');
    ScMeasures(v, t, b5, b2' + i, s5, s2' + i, k, QuarterExp(w0));
  }

  // Puts right an estimate that was one too large.
  method CorrectEstimate(b0: Bigint, S: Bigint, k0: int, check: bool, w0: ULong, w1: ULong)
    returns (b: Bigint, k: int)
    requires Ready(b0, S, k0, w0, w1)
    requires if check then GoodEstimate(k0, w0, w1) else InDecade(Quarters(w0, w1), QuarterExp(w0), k0)
    modifies b0, b0.x
    ensures b == b0 || (fresh(b) && fresh(b.x))
    ensures S.Value() == old(S.Value()) && Ready(b, S, k, w0, w1) && InDecade(Quarters(w0, w1), QuarterExp(w0), k)
    ensures S.Value() <= b.Value() < 10 * S.Value()
    ensures k == k0 || k == k0 - 1
  {
    b, k := b0, k0;
    ghost var c, q, v := Quarters(w0, w1), QuarterExp(w0), b0.Value();
    DivisorPositive(S);
    FirstDigit(v, S.Value(), k, c, q);
    if check {
      WrongEstimate(v, S.Value(), k, w0, w1);
      HasWords(S);
      var less := Cmp(b, S);
      if less < 0 {
        MeasuresTenth(v, S.Value(), k, c, q);
        FirstDigit(10 * v, S.Value(), k - 1, c, q);
        k := k - 1;
        b := NextPlace(b, S);
      }
    }
  }

  // No digit position is left at or above the place asked for: the result is nothing, or a single one.
  method FewDigits(b: Bigint, S: Bigint, ilim: int, ndigits: int, k: int) returns (out: Decimal)
    requires Apart(b, S) && Num(b) && Num(S) && b.Value() > 0 && ilim <= 0
    modifies S, S.x
    ensures out == if ilim < 0 || b.Value() <= 5 * old(S.Value()) then Decimal([], -1 - ndigits) else Decimal([1], k + 1)
  {
    if ilim < 0 {
      return Decimal([], -1 - ndigits);
    }
    HasWords(b);
    TrimmedValue(S);
    var S' := MultAdd(S, 5, 0);
    var c := Cmp(b, S');
    if c <= 0 {
      return Decimal([], -1 - ndigits);
    }
    out := Decimal([1], k + 1);
  }

  lemma FewDigitsRound(b: nat, S: nat, ilim: int, ndigits: int, k: int, w0: ULong, w1: ULong)
    requires S > 0 && Measures(b, S, k, Quarters(w0, w1), QuarterExp(w0)) && S <= b < 10 * S
    requires ilim == ndigits + k + 1 <= 0
    ensures Rounded(if ilim < 0 || b <= 5 * S then Decimal([], -1 - ndigits) else Decimal([1], k + 1), -ndigits, w0, w1)
  {
    var c, q, p := Quarters(w0, w1), QuarterExp(w0), -ndigits;
    MeasuresSum(b, b, S, k, c, c, q);
    PlaceCompare(b + b, S, k, c + c, q, 1, p);
    if ilim < 0 || b <= 5 * S {
      TenAtLeast(p - k - 1);
      assert Tens(1, p - k) == 10 * Tens(1, p - k - 1);
      MulMono(10, Tens(1, p - k), S);
      if ilim < 0 {
        TenAtLeast(p - k - 2);
        MulMono(100, Tens(1, p - k), S);
      }
      assert RoundsTo(0, p, w0, w1);
      assert Denotes(Decimal([], -1 - ndigits), 0, p);
    } else {
      TenIsTens(1);
      TenIsTens(3);
      PlaceCompare(b + b, S, k, c + c, q, 3, p);
      DigitsAppend([], 1);
      assert [1] == [] + [1];
      assert Denotes(Decimal([1], k + 1), 1, p) by { assert Tens(1, 0) == 1; }
      assert RoundsTo(1, p, w0, w1);
    }
  }

  lemma TenAtLeast(n: nat)
    ensures Tens(1, n) >= 1
    ensures n > 0 ==> Tens(1, n) >= 10
  {
    TensIsPow(1, n);
    if n > 0 { TensIsPow(1, n - 1); }
  }

  // ---- what each mode asks for ----

  // Modes 0 to 9 reduced to 0 to 5, with the digit counts before and after the estimate is put right.
  datatype Plan = Plan(mode: nat, ndigits: int, ilim: int, ilim1: int)

  function MakePlan(mode: int, ndigits: int, k: int): Plan {
    var m := if mode < 0 || mode > 9 then 0 else if mode > 5 then mode - 4 else mode;
    if m < 2 then Plan(m, 0, -1, -1)
    else if m == 2 || m == 4 then
      var n := if ndigits <= 0 then 1 else ndigits;
      Plan(m, n, n, n)
    else Plan(m, ndigits, ndigits + k + 1, ndigits + k)
  }

  // Halfway cases belong to a double with an even mantissa, except in mode 1.
  predicate Closed(mode: nat, w1: ULong) {
    mode != 1 && w1 % 2 == 0
  }

  // The promise of each mode, for a number whose first digit counts units of 10^k.
  ghost predicate Meets(out: Decimal, plan: Plan, k: int, w0: ULong, w1: ULong)
    requires PositiveFinite(w0, w1)
  {
    var closed := Closed(plan.mode, w1);
    if plan.mode < 2 then IsShortest(out, w0, w1, closed)
    else if plan.mode == 2 then Rounded(out, k - plan.ndigits + 1, w0, w1) && 0 < |out.digits| <= plan.ndigits
    else if plan.mode == 3 then Rounded(out, -plan.ndigits, w0, w1)
    else if plan.mode == 4 then ShortestOrCut(out, plan.ndigits, k, w0, w1, closed)
    else if plan.ndigits + k + 1 > 0 then ShortestOrCut(out, plan.ndigits + k + 1, k, w0, w1, closed)
    else Rounded(out, -plan.ndigits, w0, w1)
  }

  // Mode 1 asks for a decimal nearer to the double than to any other; the other modes let ties go to the even double.
  ghost predicate RoundsFor(mode: nat, m: nat, p: int, w0: ULong, w1: ULong) {
    if mode == 1 then RoundsAlone(m, p, w0, w1) else RoundsToDouble(m, p, w0, w1)
  }

  // Which halfway cases belong to a double is what rounding to the nearest double says.
  lemma ClosedRounds(mode: nat, m: nat, p: int, w0: ULong, w1: ULong)
    requires PositiveFinite(w0, w1)
    ensures ReadsBackTo(m, p, w0, w1, Closed(mode, w1)) <==> RoundsFor(mode, m, p, w0, w1)
  {
    ReadsBackIsRounding(m, p, w0, w1);
    if mode == 1 {
      assert !Closed(mode, w1);
    } else {
      assert Closed(mode, w1) <==> w1 % 2 == 0;
    }
  }

  ghost predicate NoneRounds(limit: nat, mode: nat, w0: ULong, w1: ULong) {
    forall m: nat, p: int :: m < limit ==> !RoundsFor(mode, m, p, w0, w1)
  }

  // The decimal rounds to the double, and none with fewer digits does.
  ghost predicate RoundsBack(out: Decimal, mode: nat, w0: ULong, w1: ULong) {
    && out.digits != [] && RoundsFor(mode, DigitsVal(out.digits), out.k - |out.digits| + 1, w0, w1)
    && NoneRounds(Pow(10, |out.digits| - 1), mode, w0, w1)
  }

  // The promise of the modes that look for a short result, in terms of rounding to the nearest double alone.
  ghost predicate Promise(out: Decimal, plan: Plan, k: int, w0: ULong, w1: ULong) {
    if plan.mode < 2 then RoundsBack(out, plan.mode, w0, w1)
    else if plan.mode == 4 || (plan.mode == 5 && plan.ndigits + k + 1 > 0) then
      var ilim := if plan.mode == 4 then plan.ndigits else plan.ndigits + k + 1;
      RoundsBack(out, plan.mode, w0, w1) || (ilim > 0 && NoneRounds(Pow(10, ilim), plan.mode, w0, w1))
    else true
  }

  lemma NoneRoundsMeans(limit: nat, mode: nat, w0: ULong, w1: ULong)
    requires PositiveFinite(w0, w1) && NoneBelowTo(limit, w0, w1, Closed(mode, w1))
    ensures NoneRounds(limit, mode, w0, w1)
  {
    forall m: nat, p: int | m < limit
      ensures !RoundsFor(mode, m, p, w0, w1)
    {
      ClosedRounds(mode, m, p, w0, w1);
    }
  }

  lemma ShortestRounds(out: Decimal, mode: nat, w0: ULong, w1: ULong)
    requires PositiveFinite(w0, w1) && IsShortest(out, w0, w1, Closed(mode, w1))
    ensures RoundsBack(out, mode, w0, w1)
  {
    ClosedRounds(mode, DigitsVal(out.digits), out.k - |out.digits| + 1, w0, w1);
    NoneRoundsMeans(Pow(10, |out.digits| - 1), mode, w0, w1);
  }

  lemma MeetsRounds(out: Decimal, plan: Plan, k: int, w0: ULong, w1: ULong)
    requires PositiveFinite(w0, w1) && Meets(out, plan, k, w0, w1) && plan.mode <= 5
    ensures Promise(out, plan, k, w0, w1)
  {
    var closed := Closed(plan.mode, w1);
    if plan.mode != 2 && plan.mode != 3 {
      var ilim := if plan.mode == 4 then plan.ndigits else plan.ndigits + k + 1;
      if IsShortest(out, w0, w1, closed) {
        ShortestRounds(out, plan.mode, w0, w1);
      } else if plan.mode >= 2 && ilim > 0 && NoneBelowTo(Pow(10, ilim), w0, w1, closed) {
        NoneRoundsMeans(Pow(10, ilim), plan.mode, w0, w1);
      }
    }
  }

  // The digit count in force once the exponent is settled.
  ghost predicate Settled(plan: Plan, ilim: int, k: int) {
    if plan.mode == 3 || plan.mode == 5 then ilim == plan.ndigits + k + 1
    else ilim == plan.ilim && ilim == (if plan.mode < 2 then -1 else plan.ndigits) && (plan.mode >= 2 ==> ilim > 0)
  }

  method FixedDigitsOf(b: Bigint, S: Bigint, plan: Plan, ilim: int, k: int, w0: ULong, w1: ULong) returns (out: Decimal)
    requires PositiveFinite(w0, w1) && Ready(b, S, k, w0, w1) && S.Value() <= b.Value() < 10 * S.Value()
    requires Settled(plan, ilim, k) && (plan.mode == 2 || plan.mode == 3)
    modifies b, b.x, S, S.x
    ensures Meets(out, plan, k, w0, w1)
  {
    DivisorPositive(S);
    if ilim <= 0 {
      FewDigitsRound(b.Value(), S.Value(), ilim, plan.ndigits, k, w0, w1);
      out := FewDigits(b, S, ilim, plan.ndigits, k);
    } else {
      FixedMeans(b.Value(), S.Value(), ilim, k, w0, w1);
      out := FixedDigits(b, S, ilim, k);
    }
  }

  method FixedCount(mem: MemInfo, b0: Bigint, b2: nat, s2: nat, b5: nat, s5: nat, k0: int, check: bool, plan: Plan,
                    ghost be: int, ghost t: nat, w0: ULong, w1: ULong)
    returns (out: Decimal, k: int)
    requires PositiveFinite(w0, w1)
    requires mem.Valid() && mem.Outside(b0) && Num(b0) && IsNumber(b0.Value(), be, t, w0, w1)
    requires b2 - s2 == be - k0 && b5 - s5 == -k0
    requires if check then GoodEstimate(k0, w0, w1) else InDecade(Quarters(w0, w1), QuarterExp(w0), k0)
    requires Settled(plan, plan.ilim, k0) && Settled(plan, plan.ilim1, k0 - 1) && (plan.mode == 2 || plan.mode == 3)
    modifies mem, b0, b0.x
    ensures InDecade(Quarters(w0, w1), QuarterExp(w0), k) && Meets(out, plan, k, w0, w1)
  {
    var b, S := FixedFraction(mem, b0, b2, s2, b5, s5, k0, be, t, w0, w1);
    b, k := CorrectEstimate(b, S, k0, check, w0, w1);
    out := FixedDigitsOf(b, S, plan, if k < k0 then plan.ilim1 else plan.ilim, k, w0, w1);
  }

  // ---- modes 0, 1, 4 and 5: the interval of decimals that read back ----

  // A normal power of two above the smallest.
  predicate Special(w0: ULong, w1: ULong) {
    w1 == 0 && w0 % FRAC_BITS == 0 && BiasedExp(w0) > 1
  }

  // How far the number's last place lies above its half gap.
  function MarginShift(w0: ULong, be: int, bits: nat): int {
    if BiasedExp(w0) == 0 then be + 1075 else 54 - bits
  }

  lemma MarginShiftFits(v: nat, be: int, bits: nat, t: nat, w0: ULong, w1: ULong)
    requires PositiveFinite(w0, w1) && IsNumber(v, be, t, w0, w1) && t >= 2
    requires BiasedExp(w0) != 0 ==> bits == 53 - (t - 2)
    ensures MarginShift(w0, be, bits) == t - 1 > 0
  {}

  // The fraction, and a half gap that still lacks its factors of two.
  ghost predicate MarginsReady(b: Bigint, S: Bigint, mhi: Bigint, m2: nat, k: int, w0: ULong, w1: ULong)
    reads b, b.x, S, S.x, mhi, mhi.x
  {
    && Ready(b, S, k, w0, w1) && Apart(mhi, b) && Apart(mhi, S) && Num(mhi) && mhi.Value() > 0
    && Measures(Shl(mhi.Value(), m2), S.Value(), k, LowGap(w0, w1), QuarterExp(w0))
  }

  lemma ExponentsMeasure(v: nat, be: int, t: nat, b5: nat, b2: nat, s5: nat, s2: nat, m2: nat, k: int, w0: ULong, w1: ULong)
    requires IsNumber(v, be, t, w0, w1) && b5 - s5 == -k && b2 - s2 == be - k
    requires m2 - s2 == QuarterExp(w0) - k + (if Special(w0, w1) then 0 else 1)
    ensures Measures(Sc(v, b5, b2), Sc(1, s5, s2), k, Quarters(w0, w1), QuarterExp(w0))
    ensures Measures(Sc(1, b5, m2), Sc(1, s5, s2), k, LowGap(w0, w1), QuarterExp(w0))
  {
    ScMeasures(v, t, b5, b2, s5, s2, k, QuarterExp(w0));
    var g := if Special(w0, w1) then 0 else 1;
    assert Shl(1, g) == LowGap(w0, w1) by { assert Shl(1, 1) == 2 * Shl(1, 0); }
    ScMeasures(1, g, b5, m2, s5, s2, k, QuarterExp(w0));
  }

  // The exponents of two of the number, its half gap and the divisor.
  method MarginTwos(b2: nat, s2: nat, be: int, bits: nat, w0: ULong, w1: ULong) returns (b2': nat, m2: nat, s2': nat)
    requires MarginShift(w0, be, bits) > 0
    ensures b2' - s2' == b2 - s2
    ensures m2 - s2' == b2 - s2 - MarginShift(w0, be, bits) - (if Special(w0, w1) then 1 else 0)
  {
    var i := MarginShift(w0, be, bits);
    b2', m2, s2' := CommonTwos(b2 + i, b2, s2 + i);
    if Special(w0, w1) {
      b2', s2' := b2' + 1, s2' + 1;
    }
  }

  method MarginFraction(mem: MemInfo, b0: Bigint, b2: nat, s2: nat, b5: nat, s5: nat, k: int, be: int, bits: nat,
                        ghost t: nat, w0: ULong, w1: ULong)
    returns (b: Bigint, S: Bigint, mhi: Bigint, m2: nat)
    requires PositiveFinite(w0, w1)
    requires mem.Valid() && mem.Outside(b0) && Num(b0) && IsNumber(b0.Value(), be, t, w0, w1)
    requires t >= 2 && (BiasedExp(w0) != 0 ==> bits == 53 - (t - 2))
    requires b2 - s2 == be - k && b5 - s5 == -k
    modifies mem
    ensures b == b0 || (fresh(b) && fresh(b.x))
    ensures fresh(S) && fresh(S.x) && fresh(mhi) && fresh(mhi.x)
    ensures MarginsReady(b, S, mhi, m2, k, w0, w1)
  {
    ghost var v := b0.Value();
    MarginShiftFits(v, be, bits, t, w0, w1);
    var b2', s2', i;
    b2', m2, s2' := MarginTwos(b2, s2, be, bits, w0, w1);
    b, mhi := RaiseBoth(mem, b0, b5);
    b, S, i := DivideInto(mem, b, b2', s5, s2');
    m2 := m2 + i;
    ExponentsMeasure(v, be, t, b5, b2' + i, s5, s2' + i, m2, k, w0, w1);
  }

  lemma {:induction false} ShlOfTen(v: nat, k: nat)
    ensures Shl(10 * v, k) == 10 * Shl(v, k)
  {
    if k > 0 { ShlOfTen(v, k - 1); }
  }

  lemma {:induction false} ShlPositive(v: nat, k: nat)
    requires v > 0
    ensures Shl(v, k) > 0
  {
    if k > 0 { ShlPositive(v, k - 1); }
  }

  // Puts the estimate right, in the number and in its half gap.
  method CorrectBoth(b0: Bigint, S: Bigint, mhi0: Bigint, m2: nat, k0: int, check: bool, w0: ULong, w1: ULong)
    returns (b: Bigint, mhi: Bigint, k: int)
    requires MarginsReady(b0, S, mhi0, m2, k0, w0, w1)
    requires if check then GoodEstimate(k0, w0, w1) else InDecade(Quarters(w0, w1), QuarterExp(w0), k0)
    modifies b0, b0.x, mhi0, mhi0.x
    ensures b == b0 || (fresh(b) && fresh(b.x))
    ensures mhi == mhi0 || (fresh(mhi) && fresh(mhi.x))
    ensures MarginsReady(b, S, mhi, m2, k, w0, w1) && InDecade(Quarters(w0, w1), QuarterExp(w0), k)
    ensures S.Value() <= b.Value() < 10 * S.Value()
    ensures k == k0 || k == k0 - 1
  {
    ghost var v := mhi0.Value();
    b, k := CorrectEstimate(b0, S, k0, check, w0, w1);
    mhi := mhi0;
    if k < k0 {
      MeasuresTenth(Shl(v, m2), S.Value(), k0, LowGap(w0, w1), QuarterExp(w0));
      ShlOfTen(v, m2);
      mhi := NextPlace(mhi, S);
    }
  }

  // The two half gaps: one number, unless the lower one is smaller.
  method Margins(mhi0: Bigint, S: Bigint, m2: nat, k: int, w0: ULong, w1: ULong) returns (mlo: Bigint, mhi: Bigint)
    requires Num(mhi0) && mhi0.Value() > 0 && Divisor(S)
    requires Measures(Shl(mhi0.Value(), m2), S.Value(), k, LowGap(w0, w1), QuarterExp(w0))
    ensures mlo == mhi0 || (fresh(mlo) && fresh(mlo.x))
    ensures mhi == mlo || (fresh(mhi) && fresh(mhi.x) && Apart(mlo, mhi))
    ensures Num(mlo) && Num(mhi) && mlo.Value() > 0 && mhi.Value() > 0
    ensures Measures(mlo.Value(), S.Value(), k, LowGap(w0, w1), QuarterExp(w0))
    ensures Measures(mhi.Value(), S.Value(), k, HIGH_GAP, QuarterExp(w0))
  {
    ShlPositive(mhi0.Value(), m2);
    mlo := ShiftUp(mhi0, m2);
    mhi := mlo;
    if Special(w0, w1) {
      ghost var v := mlo.Value();
      HasWords(mlo);
      mhi := Lshift(mlo, 1);
      assert Shl(v, 1) == 2 * Shl(v, 0);
      MeasuresSum(v, v, S.Value(), k, 1, 1, QuarterExp(w0));
    }
  }

  // Nine half gaps are never the number: quarters of its last place are a multiple of four.
  lemma NoZeroTie(b: nat, S: nat, mhi: nat, k: int, w0: ULong, w1: ULong)
    requires S > 0 && Measures(b, S, k, Quarters(w0, w1), QuarterExp(w0))
    requires Measures(mhi, S, k, HIGH_GAP, QuarterExp(w0))
    ensures b != 9 * mhi
  {
    var q := QuarterExp(w0);
    MeasuresSum(mhi, mhi, S, k, 2, 2, q);
    MeasuresSum(2 * mhi, 2 * mhi, S, k, 4, 4, q);
    MeasuresSum(4 * mhi, 4 * mhi, S, k, 8, 8, q);
    MeasuresSum(8 * mhi, mhi, S, k, 16, 2, q);
    MeasuresOrder(b, 9 * mhi, S, k, Quarters(w0, w1), 18, q);
  }

  method IntervalDigits(b: Bigint, S: Bigint, mhi0: Bigint, m2: nat, plan: Plan, ilim: int, k: int, w0: ULong, w1: ULong)
    returns (out: Decimal)
    requires PositiveFinite(w0, w1) && MarginsReady(b, S, mhi0, m2, k, w0, w1) && S.Value() <= b.Value() < 10 * S.Value()
    requires ilim > 0 || plan.mode < 2
    modifies b, b.x, mhi0, mhi0.x
    ensures ShortestOrCut(out, ilim, k, w0, w1, Closed(plan.mode, w1))
  {
    DivisorPositive(S);
    var mlo, mhi := Margins(mhi0, S, m2, k, w0, w1);
    NoZeroTie(b.Value(), S.Value(), mhi.Value(), k, w0, w1);
    ShortestMeans(b.Value(), S.Value(), mlo.Value(), mhi.Value(), Closed(plan.mode, w1), ilim, k, w0, w1);
    out := ShortestDigits(b, S, mlo, mhi, Closed(plan.mode, w1), ilim, k);
  }

  method IntervalOrFew(b: Bigint, S: Bigint, mhi: Bigint, m2: nat, plan: Plan, ilim: int, k: int, w0: ULong, w1: ULong)
    returns (out: Decimal)
    requires PositiveFinite(w0, w1) && MarginsReady(b, S, mhi, m2, k, w0, w1) && S.Value() <= b.Value() < 10 * S.Value()
    requires Settled(plan, ilim, k) && (plan.mode < 2 || plan.mode == 4 || plan.mode == 5)
    modifies b, b.x, S, S.x, mhi, mhi.x
    ensures Meets(out, plan, k, w0, w1)
  {
    if ilim <= 0 && plan.mode == 5 {
      DivisorPositive(S);
      FewDigitsRound(b.Value(), S.Value(), ilim, plan.ndigits, k, w0, w1);
      out := FewDigits(b, S, ilim, plan.ndigits, k);
    } else {
      out := IntervalDigits(b, S, mhi, m2, plan, ilim, k, w0, w1);
    }
  }

  method LeftRight(mem: MemInfo, b0: Bigint, b2: nat, s2: nat, b5: nat, s5: nat, k0: int, check: bool, plan: Plan,
                   be: int, bits: nat, ghost t: nat, w0: ULong, w1: ULong)
    returns (out: Decimal, k: int)
    requires PositiveFinite(w0, w1)
    requires mem.Valid() && mem.Outside(b0) && Num(b0) && IsNumber(b0.Value(), be, t, w0, w1)
    requires t >= 2 && (BiasedExp(w0) != 0 ==> bits == 53 - (t - 2))
    requires b2 - s2 == be - k0 && b5 - s5 == -k0
    requires if check then GoodEstimate(k0, w0, w1) else InDecade(Quarters(w0, w1), QuarterExp(w0), k0)
    requires Settled(plan, plan.ilim, k0) && Settled(plan, plan.ilim1, k0 - 1)
    requires plan.mode < 2 || plan.mode == 4 || plan.mode == 5
    modifies mem, b0, b0.x
    ensures InDecade(Quarters(w0, w1), QuarterExp(w0), k) && Meets(out, plan, k, w0, w1)
  {
    var b, S, mhi, m2 := MarginFraction(mem, b0, b2, s2, b5, s5, k0, be, bits, t, w0, w1);
    b, mhi, k := CorrectBoth(b, S, mhi, m2, k0, check, w0, w1);
    out := IntervalOrFew(b, S, mhi, m2, plan, if k < k0 then plan.ilim1 else plan.ilim, k, w0, w1);
  }

  // ---- the whole conversion ----

  datatype Text = Infinity | NotANumber | Finite(decimal: Decimal)

  // A positive finite number; k is the exponent of its first digit.
  method Digitize(w0: ULong, w1: ULong, mode: int, ndigits: int, kEst: int) returns (out: Decimal, k: int, plan: Plan)
    requires PositiveFinite(w0, w1) && GoodEstimate(kEst, w0, w1)
    ensures InDecade(Quarters(w0, w1), QuarterExp(w0), k)
    ensures plan.mode <= 5 && (0 <= mode <= 5 ==> plan.mode == mode) && (6 <= mode <= 9 ==> plan.mode == mode - 4)
    ensures mode < 0 || mode > 9 ==> plan.mode == 0
    ensures plan.ndigits == if plan.mode < 2 then 0 else if plan.mode % 2 == 0 && ndigits <= 0 then 1 else ndigits
    ensures Meets(out, plan, k, w0, w1) && Promise(out, plan, k, w0, w1)
  {
    var mem := new MemInfo();
    var b, be, bits := D2b(w0, w1);
    ghost var t := be - Exponent(w0) + 2;
    NumberIs(b.Value(), be, bits, w0, w1);
    var check;
    k, check := FirstEstimate(w0, w1, kEst);
    var b2, s2, b5, s5 := Balance(bits, LogBinary(w0, be, bits), k);
    plan := MakePlan(mode, ndigits, k);
    if plan.mode == 2 || plan.mode == 3 {
      out, k := FixedCount(mem, b, b2, s2, b5, s5, k, check, plan, be, t, w0, w1);
    } else {
      out, k := LeftRight(mem, b, b2, s2, b5, s5, k, check, plan, be, bits, t, w0, w1);
    }
    MeetsRounds(out, plan, k, w0, w1);
  }

  lemma NumberIs(v: nat, be: int, bits: nat, w0: ULong, w1: ULong)
    requires PositiveFinite(w0, w1) && v % 2 == 1 && be >= Exponent(w0)
    requires Shl(v, be - Exponent(w0)) == Significand(w0, w1)
    requires BiasedExp(w0) != 0 ==> bits == 53 - (be - Exponent(w0))
    ensures IsNumber(v, be, be - Exponent(w0) + 2, w0, w1)
    ensures LogBinary(w0, be, bits) + 1 - bits == be
  {
    ShlAdd(v, be - Exponent(w0), 2);
    EightBits(Significand(w0, w1));
  }

  // The sign, the digits and the position of the decimal point of any double, given by its two words.
  method Dtoa(word0: ULong, word1: ULong, mode: int, ndigits: int, kEst: int)
    returns (sign: bool, text: Text, decpt: int, k: int, plan: Plan)
    requires var w0 := word0 % 0x8000_0000; PositiveFinite(w0, word1) ==> GoodEstimate(kEst, w0, word1)
    ensures sign <==> word0 >= 0x8000_0000
    ensures var w0 := word0 % 0x8000_0000;
      if w0 >= 0x7FF0_0000 then decpt == 9999 && text == (if w0 == 0x7FF0_0000 && word1 == 0 then Infinity else NotANumber)
      else if Significand(w0, word1) == 0 then decpt == 1 && text == Finite(Decimal([0], 0))
      else
        && text.Finite? && decpt == text.decimal.k + 1
        && InDecade(Quarters(w0, word1), QuarterExp(w0), k)
        && plan.mode <= 5 && (0 <= mode <= 5 ==> plan.mode == mode) && (6 <= mode <= 9 ==> plan.mode == mode - 4)
        && (mode < 0 || mode > 9 ==> plan.mode == 0)
        && plan.ndigits == (if plan.mode < 2 then 0 else if plan.mode % 2 == 0 && ndigits <= 0 then 1 else ndigits)
        && Meets(text.decimal, plan, k, w0, word1) && Promise(text.decimal, plan, k, w0, word1)
  {
    var w0: ULong := word0 % 0x8000_0000;
    sign := word0 >= 0x8000_0000;
    k, plan := 0, MakePlan(mode, ndigits, 0);
    if w0 / FRAC_BITS == 0x7FF {
      text := if word1 == 0 && w0 % FRAC_BITS == 0 then Infinity else NotANumber;
      decpt := 9999;
    } else if w0 == 0 && word1 == 0 {
      text, decpt := Finite(Decimal([0], 0)), 1;
    } else {
      var out;
      out, k, plan := Digitize(w0, word1, mode, ndigits, kEst);
      text, decpt := Finite(out), out.k + 1;
    }
  }
}

/**
 * What shortest output promises about decimals of every length: the result reads back, and no decimal with
 * fewer digits does, whatever its exponent.
 */
module Readback {
  import opened Powers
  import opened Digits
  import opened DigitGen

  function Pos(n: int): nat {
    if n > 0 then n else 0
  }

  // m times 10^p lies in the rounding interval of the fraction s.x / S times 10^k.
  ghost predicate ReadsBack(m: nat, p: int, s: Scale, S: nat, closed: bool, k: int) {
    Inside(Tens(m, Pos(p - k)), ScaleUp(s, Pos(k - p)), S, closed)
  }

  lemma TenfoldInside(m: nat, s: Scale, S: nat, closed: bool)
    ensures Inside(10 * m, Tenfold(s), S, closed) <==> Inside(m, s, S, closed)
  {
    MulAssoc(10, m, S);
  }

  // Counting in smaller units does not change what lies in the interval.
  lemma {:induction false} FinerUnits(m: nat, e: nat, s: Scale, n: nat, j: nat, S: nat, closed: bool)
    ensures Inside(Tens(m, e + j), ScaleUp(s, n + j), S, closed) <==> Inside(Tens(m, e), ScaleUp(s, n), S, closed)
  {
    if j > 0 {
      FinerUnits(m, e, s, n, j - 1, S, closed);
      TenfoldInside(Tens(m, e + j - 1), ScaleUp(s, n + j - 1), S, closed);
    }
  }

  // The generator's result, as a decimal, lies in the interval.
  lemma StopReadsBack(o: Outcome, out: Decimal, s0: Scale, S: nat, closed: bool, k: int)
    requires o.n > 0 && Stops(o, out, ScaleUp(s0, o.n - 1), S, closed, k)
    ensures ReadsBack(DigitsVal(out.digits), out.k - |out.digits| + 1, s0, S, closed, k)
  {
    if out.k == k {
      assert Tens(DigitsVal(out.digits), 0) == DigitsVal(out.digits);
    } else {
      DigitsAppend([], 1);
      assert out.digits == [] + [1];
      assert Tens(1, 1) == 10 * Tens(1, 0);
    }
  }

  // A multiple of ten units lies outside a blocked interval.
  lemma BlockedTens(F: nat, D: nat, s: Scale, S: nat, closed: bool)
    requires Blocked(D, s, S, closed) && S > 0 && s.hi > 0 && s.lo > 0
    ensures !Inside(10 * F, s, S, closed)
  {
    MulAssoc(F, 10, S);
    MulAssoc(10, F, S);
    if F <= D {
      MulMono(F, D, 10 * S);
    } else {
      MulMono(D + 1, F, 10 * S);
    }
  }

  lemma {:induction false} TensMono(a: nat, b: nat, e: nat)
    requires a <= b
    ensures Tens(a, e) <= Tens(b, e)
  {
    if e > 0 { TensMono(a, b, e - 1); }
  }

  lemma {:induction false} ScaleUpTens(s: Scale, n: nat)
    ensures ScaleUp(s, n) == Scale(Tens(s.x, n), Tens(s.lo, n), Tens(s.hi, n))
  {
    if n > 0 { ScaleUpTens(s, n - 1); }
  }

  lemma {:induction false} ScaleUpAdd(s: Scale, n: nat, j: nat)
    ensures ScaleUp(s, n + j) == ScaleUp(ScaleUp(s, n), j)
  {
    if j > 0 { ScaleUpAdd(s, n, j - 1); }
  }

  // A blocked interval lies above 10^n units of its own scale, in units of any finer scale.
  lemma BlockedAbove(D: nat, s: Scale, S: nat, closed: bool, n: nat)
    requires Blocked(D, s, S, closed) && S > 0 && s.hi > 0 && Tens(S, n + 1) <= s.x
    ensures Tens(S, n + 1) <= s.x - s.lo
  {
    TensTimes(1, n, S);
    var t := Tens(1, n);
    assert Tens(S, n) == t * S by { assert 1 * S == S; }
    assert t <= D by {
      if D + 1 <= t {
        MulMono(D + 1, t, 10 * S);
        MulAssoc(t, 10, S); MulAssoc(10, t, S);
      }
    }
    MulMono(t, D, 10 * S);
    MulAssoc(t, 10, S); MulAssoc(10, t, S);
  }

  // No number below 10^n units reaches an interval that starts at or above them.
  lemma {:induction false} TooSmall(m: nat, n: nat, s: Scale, S: nat, closed: bool, j: nat)
    requires m < Pow(10, n) && S > 0 && Tens(S, n) <= s.x - s.lo
    ensures !Inside(m, ScaleUp(s, j), S, closed)
  {
    TensTimes(1, n, S);
    TensIsPow(1, n);
    assert 1 * S == S;
    MulStrict(m, Pow(10, n), S);
    ScaledGap(s, j);
  }

  lemma {:induction false} ScaledGap(s: Scale, j: nat)
    ensures s.x >= s.lo ==> ScaleUp(s, j).x - ScaleUp(s, j).lo >= s.x - s.lo
  {
    if j > 0 { ScaledGap(s, j - 1); }
  }

  lemma CoarserDecimal(m: nat, e: nat, l: nat, n: nat, D: nat, s0: Scale, S: nat, closed: bool)
    requires l < n && S > 0 && s0.lo > 0 && s0.hi > 0
    requires Blocked(D, ScaleUp(s0, n), S, closed)
    ensures !Inside(Tens(m, e), ScaleUp(s0, l), S, closed)
  {
    ScaleUpPositive(s0, n);
    FinerUnits(m, e, s0, l, n - l, S, closed);
    BlockedTens(Tens(m, e + (n - l) - 1), D, ScaleUp(s0, n), S, closed);
  }

  lemma FinerDecimal(m: nat, l: nat, n: nat, D: nat, s0: Scale, S: nat, closed: bool)
    requires 1 <= n <= l && m < Pow(10, n) && S > 0 && S <= s0.x && s0.lo > 0 && s0.hi > 0
    requires Blocked(D, ScaleUp(s0, n), S, closed)
    ensures !Inside(m, ScaleUp(s0, l), S, closed)
  {
    ScaleUpPositive(s0, n);
    ScaleUpTens(s0, n);
    TensMono(S, s0.x, n);
    BlockedAbove(D, ScaleUp(s0, n), S, closed, n - 1);
    TooSmall(m, n, ScaleUp(s0, n), S, closed, l - n);
    ScaleUpAdd(s0, n, l - n);
  }

  // Whatever its exponent, a decimal with fewer digits lies outside the interval.
  lemma NoShorterDecimal(m: nat, p: int, n: nat, D: nat, s0: Scale, S: nat, closed: bool, k: int)
    requires n >= 1 && m < Pow(10, n) && S > 0 && S <= s0.x && s0.lo > 0 && s0.hi > 0
    requires Blocked(D, ScaleUp(s0, n), S, closed)
    ensures !ReadsBack(m, p, s0, S, closed, k)
  {
    if Pos(k - p) < n {
      CoarserDecimal(m, Pos(p - k), Pos(k - p), n, D, s0, S, closed);
    } else {
      FinerDecimal(m, Pos(k - p), n, D, s0, S, closed);
    }
  }

  lemma {:induction false} ScaleUpPositive(s: Scale, n: nat)
    requires s.lo > 0 && s.hi > 0
    ensures ScaleUp(s, n).lo > 0 && ScaleUp(s, n).hi > 0
  {
    if n > 0 { ScaleUpPositive(s, n - 1); }
  }

  // No decimal below the limit lies in the interval, whatever its exponent.
  ghost predicate NoneBelow(limit: nat, s: Scale, S: nat, closed: bool, k: int) {
    forall m: nat, p: int :: m < limit ==> !ReadsBack(m, p, s, S, closed, k)
  }

  lemma BlockedMeans(n: nat, D: nat, s0: Scale, S: nat, closed: bool, k: int)
    requires n >= 1 && S > 0 && S <= s0.x && s0.lo > 0 && s0.hi > 0
    requires Blocked(D, ScaleUp(s0, n), S, closed)
    ensures NoneBelow(Pow(10, n), s0, S, closed, k)
  {
    forall m: nat, p: int | m < Pow(10, n)
      ensures !ReadsBack(m, p, s0, S, closed, k)
    {
      NoShorterDecimal(m, p, n, D, s0, S, closed, k);
    }
  }

  lemma ZeroOutside(s: Scale, S: nat, closed: bool, k: int)
    requires s.lo < s.x
    ensures NoneBelow(1, s, S, closed, k)
  {
    forall p: int
      ensures !ReadsBack(0, p, s, S, closed, k)
    {
      ScaledGap(s, Pos(k - p));
      TensIsPow(0, Pos(p - k));
    }
  }

  // The promise of shortest output for a fraction from one to ten whose lower half gap is below it: the result
  // reads back and no shorter decimal does; or, cut at ilim digits, it is rounded and none so short reads back.
  lemma ShortestIsShortest(b: nat, S: nat, mlo: nat, mhi: nat, even: bool, ilim: int, k: int)
    returns (o: Outcome, s: Scale)
    requires S > 0 && S <= b < 10 * S && 0 < mlo <= mhi && mlo < b
    ensures o.n > 0 && s == ScaleUp(Scale(b, mlo, mhi), o.n - 1) && (ilim > 0 ==> o.n <= ilim)
    ensures var out, s0 := Shortest(b, S, mlo, mhi, even, ilim, [], k), Scale(b, mlo, mhi);
      || (IsCut(o, out, s, S, even, ilim, k) && NoneBelow(Pow(10, o.n), s0, S, even, k))
      || (&& Finishes(o, out, s, S, even, k) && NoneBelow(Pow(10, |out.digits| - 1), s0, S, even, k)
          && ReadsBack(DigitsVal(out.digits), out.k - |out.digits| + 1, s0, S, even, k))
  {
    var out, s0 := Shortest(b, S, mlo, mhi, even, ilim, [], k), Scale(b, mlo, mhi);
    o, s := ShortestOutcome(b, S, mlo, mhi, even, ilim, [], k, s0);
    if Finishes(o, out, s, S, even, k) {
      StopReadsBack(o, out, s0, S, even, k);
      if o.n > 1 {
        var D :| Blocked(D, s, S, even);
        BlockedMeans(o.n - 1, D, s0, S, even, k);
      } else {
        ZeroOutside(s0, S, even, k);
      }
    } else {
      var D :| Blocked(D, Tenfold(s), S, even);
      BlockedMeans(o.n, D, s0, S, even, k);
    }
  }
}

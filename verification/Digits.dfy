/** Decimal digit strings: their value, rounding up in the last place, trimming, and nearest-even rounding. */
module Digits {
  import opened Powers

  // Digits d1 d2 ... dn and the power of ten of the first one: d1.d2...dn times 10^k.
  datatype Decimal = Decimal(digits: seq<nat>, k: int)

  ghost predicate AreDigits(ds: seq<nat>) {
    forall i :: 0 <= i < |ds| ==> ds[i] <= 9
  }

  // The number written by the first n digits.
  ghost function Prefix(ds: seq<nat>, n: nat): nat
    requires n <= |ds|
  {
    if n == 0 then 0 else Prefix(ds, n - 1) * 10 + ds[n - 1]
  }

  ghost function DigitsVal(ds: seq<nat>): nat {
    Prefix(ds, |ds|)
  }

  lemma {:induction false} PrefixSame(ds: seq<nat>, es: seq<nat>, n: nat)
    requires n <= |ds| && n <= |es| && forall i :: 0 <= i < n ==> ds[i] == es[i]
    ensures Prefix(ds, n) == Prefix(es, n)
  {
    if n > 0 { PrefixSame(ds, es, n - 1); }
  }

  lemma DigitsAppend(ds: seq<nat>, d: nat)
    ensures DigitsVal(ds + [d]) == DigitsVal(ds) * 10 + d
  {
    PrefixSame(ds, ds + [d], |ds|);
  }

  lemma {:induction false} PrefixBound(ds: seq<nat>, n: nat)
    requires AreDigits(ds) && n <= |ds|
    ensures Prefix(ds, n) < Pow(10, n)
  {
    if n > 0 { PrefixBound(ds, n - 1); }
  }

  // The value of a decimal in units of the last place of an n-digit decimal with exponent k.
  ghost predicate Represents(d: Decimal, units: nat, k: int, n: nat) {
    var e := (d.k - |d.digits|) - (k - n);
    e >= 0 && Tens(DigitsVal(d.digits), e) == units
  }

  // No trailing zeros, and only decimal digits.
  ghost predicate Proper(d: Decimal) {
    d.digits != [] && AreDigits(d.digits) && d.digits[|d.digits| - 1] != 0
  }

  // Adds one in the last place: trailing nines disappear, and all nines become a one with the next exponent.
  function RoundOff(ds: seq<nat>, k: int): Decimal
    requires ds != []
  {
    var n := |ds| - 1;
    if ds[n] != 9 then Decimal(ds[..n] + [ds[n] + 1], k)
    else if n == 0 then Decimal([1], k + 1)
    else RoundOff(ds[..n], k)
  }

  // The same decimal counts ten times as many units of the next place.
  lemma FinerPlace(d: Decimal, units: nat, k: int, n: nat)
    requires Represents(d, units, k, n)
    ensures Represents(d, 10 * units, k, n + 1)
  {
    var e := (d.k - |d.digits|) - (k - n);
    assert Tens(DigitsVal(d.digits), e + 1) == 10 * Tens(DigitsVal(d.digits), e);
  }

  lemma Exactly(ds: seq<nat>, k: int)
    ensures Represents(Decimal(ds, k), DigitsVal(ds), k, |ds|)
  {}

  // The decimal stands for the digits plus one in the last place, in canonical form.
  ghost predicate OneMore(d: Decimal, ds: seq<nat>, k: int) {
    Represents(d, DigitsVal(ds) + 1, k, |ds|) && Proper(d) && |d.digits| <= |ds|
  }

  lemma LastDigitUp(low: seq<nat>, d: nat, k: int)
    requires AreDigits(low) && d < 9
    ensures OneMore(Decimal(low + [d + 1], k), low + [d], k)
  {
    DigitsAppend(low, d);
    DigitsAppend(low, d + 1);
    Exactly(low + [d + 1], k);
  }

  lemma NineUp(k: int)
    ensures OneMore(Decimal([1], k + 1), [9], k)
  {
    DigitsAppend([], 1);
    DigitsAppend([], 9);
    assert [1] == [] + [1] && [9] == [] + [9];
    Exactly([1], k + 1);
    FinerPlace(Decimal([1], k + 1), 1, k, 0);
  }

  lemma CarryUp(d: Decimal, low: seq<nat>, k: int)
    requires OneMore(d, low, k)
    ensures OneMore(d, low + [9], k)
  {
    DigitsAppend(low, 9);
    FinerPlace(d, DigitsVal(low) + 1, k, |low|);
  }

  lemma {:induction false} RoundOffAddsOne(ds: seq<nat>, k: int)
    requires ds != [] && AreDigits(ds)
    ensures OneMore(RoundOff(ds, k), ds, k)
  {
    var n := |ds| - 1;
    var low := ds[..n];
    assert ds == low + [ds[n]];
    if ds[n] != 9 {
      LastDigitUp(low, ds[n], k);
    } else if n == 0 {
      assert ds == [9];
      NineUp(k);
    } else {
      RoundOffAddsOne(low, k);
      CarryUp(RoundOff(low, k), low, k);
    }
  }

  function TrimZeros(ds: seq<nat>): seq<nat> {
    if ds != [] && ds[|ds| - 1] == 0 then TrimZeros(ds[..|ds| - 1]) else ds
  }

  lemma {:induction false} TrimKeepsValue(ds: seq<nat>, k: int)
    requires AreDigits(ds) && DigitsVal(ds) > 0
    ensures Represents(Decimal(TrimZeros(ds), k), DigitsVal(ds), k, |ds|) && Proper(Decimal(TrimZeros(ds), k))
    ensures |TrimZeros(ds)| <= |ds|
  {
    var n := |ds| - 1;
    if ds[n] == 0 {
      assert ds == ds[..n] + [0];
      DigitsAppend(ds[..n], 0);
      TrimKeepsValue(ds[..n], k);
      FinerPlace(Decimal(TrimZeros(ds[..n]), k), DigitsVal(ds[..n]), k, n);
    } else {
      Exactly(ds, k);
    }
  }

  // r is the quotient num / den rounded to the nearest integer, ties to even.
  ghost predicate NearestEven(r: nat, num: nat, den: nat) {
    && -(den as int) <= 2 * (r * den - num) <= den
    && (2 * (r * den - num) == den || 2 * (r * den - num) == -(den as int) ==> r % 2 == 0)
  }

  lemma NearestEvenUnique(r: nat, s: nat, num: nat, den: nat)
    requires den > 0 && NearestEven(r, num, den) && NearestEven(s, num, den)
    ensures r == s
  {
    if r < s {
      MulDist(s, r, den);
      MulMono(1, s - r, den);
      if s - r >= 2 { MulMono(2, s - r, den); }
    } else if s < r {
      MulDist(r, s, den);
      MulMono(1, r - s, den);
      if r - s >= 2 { MulMono(2, r - s, den); }
    }
  }
}

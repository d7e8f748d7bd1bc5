/** Division by one estimated quotient digit with at most one correction. */
module Quotient {
  import opened Powers
  import opened Words
  import opened BigInts
  import opened WordLoops
  import opened BigArith

  // The divisor has exactly four leading zero bits.
  ghost predicate FourLeadingZeros(S: Bigint)
    requires S.Ok()
    reads S, S.x
  {
    S.wds >= 1 && 0x800_0000 <= S.x[S.wds - 1] < 0x1000_0000
  }

  // Dividing top words gives the digit or one less: t p <= b < (t + 1) p and T p <= s < (T + 1) p.
  lemma EstimateIsClose(b: nat, s: nat, p: nat, t: nat, T: nat, q: nat)
    requires t * p <= b < (t + 1) * p && T * p <= s < (T + 1) * p
    requires T >= 0x800_0000 && b < 10 * s && q == t / (T + 1)
    ensures q <= 9 && q * s <= b < (q + 2) * s
  {
    var r := t % (T + 1);
    assert t == q * (T + 1) + r;
    assert q * s <= b by {
      MulMono(s, (T + 1) * p, q);
      MulAssoc(q, T + 1, p);
      MulMono(q * (T + 1), t, p);
    }
    if q >= 10 {
      MulMono(10, q, s);
    }
    assert b < (q + 1) * ((T + 1) * p) by {
      assert (q + 1) * (T + 1) == q * (T + 1) + (T + 1) by { MulDist(q, 1, T + 1); }
      MulMono(t + 1, (q + 1) * (T + 1), p);
      MulAssoc(q + 1, T + 1, p);
    }
    assert (q + 1) * ((T + 1) * p) <= (q + 1) * s + s by {
      MulDist(T, 1, p);
      MulMono((T + 1) * p, s + p, q + 1);
      MulDist(s, p, q + 1);
      MulMono(q + 1, T, p);
    }
    MulDist(q + 1, 1, s);
  }

  function Estimate(t: ULong, T: ULong): nat {
    t / (T + 1)
  }

  // Below ten times the divisor means no more words than the divisor.
  lemma NotLonger(b: Bigint, S: Bigint)
    requires b.Ok() && b.Trimmed() && S.Ok() && FourLeadingZeros(S) && b.Value() < 10 * S.Value()
    ensures b.wds <= S.wds
  {
    TrimmedValue(b);
    var p := Pow(BASE, S.wds - 1);
    ValTop(S.x[..S.wds]);
    MulMono(S.x[S.wds - 1] + 1, 0x1000_0000, p);
    if b.wds > S.wds {
      PowMono(BASE, S.wds, b.wds - 1);
    }
  }

  lemma EstimateDigit(b: Bigint, S: Bigint, q: nat)
    requires b.Ok() && b.Trimmed() && S.Ok() && FourLeadingZeros(S) && b.Value() < 10 * S.Value()
    requires b.wds == S.wds >= 1 && q == Estimate(b.x[b.wds - 1], S.x[S.wds - 1])
    ensures q <= 9 && Times(S.Value(), q) <= b.Value() < Times(S.Value(), q) + 2 * S.Value()
  {
    ValTop(b.x[..b.wds]);
    ValTop(S.x[..S.wds]);
    EstimateIsClose(b.Value(), S.Value(), Pow(BASE, S.wds - 1), b.x[b.wds - 1], S.x[S.wds - 1], q);
    TimesIsProduct(S.Value(), q);
    MulDist(q, 2, S.Value());
  }

  // b := b - q S in place; leading zero words are dropped, down to no words at all for a one-word b.
  method TakeAway(b: Bigint, S: Bigint, q: ULong)
    requires b != S && b.x != S.x && b.Ok() && S.Ok() && b.wds == S.wds >= 1
    requires Times(S.Value(), q) <= b.Value()
    modifies b, b.x
    ensures b.Ok() && b.Trimmed() && b.wds <= S.wds && b.sign == old(b.sign)
    ensures b.Value() == old(b.Value()) - Times(S.Value(), q)
  {
    ghost var value := b.Value();
    TakeMultiple(b.x, S.x[..S.wds], q);
    assert Val(b.x[..S.wds]) == value - Times(S.Value(), q);
    var n := S.wds - 1;
    if b.x[n] == 0 {
      ghost var m := n;
      while n > 1 && b.x[n - 1] == 0
        invariant n <= m && (m >= 1 ==> n >= 1)
        invariant forall i :: n <= i < S.wds ==> b.x[i] == 0
      {
        n := n - 1;
      }
      ValTrim(b.x[..S.wds], n);
      assert b.x[..S.wds][..n] == b.x[..n];
      b.wds := n;
    }
  }

  // The estimated digit, taken away; less than two divisors are left.
  method TakeEstimate(b: Bigint, S: Bigint) returns (q: nat)
    requires b != S && b.x != S.x
    requires b.Ok() && b.Trimmed() && S.Ok() && FourLeadingZeros(S)
    requires b.wds == S.wds && b.Value() < 10 * S.Value()
    modifies b, b.x
    ensures b.Ok() && b.Trimmed() && b.sign == old(b.sign) && b.wds <= S.wds
    ensures q <= 9 && b.Value() < 2 * S.Value() && old(b.Value()) == Times(S.Value(), q) + b.Value()
  {
    q := Estimate(b.x[b.wds - 1], S.x[S.wds - 1]);
    EstimateDigit(b, S, q);
    if q != 0 {
      TakeAway(b, S, q);
    }
  }

  method QuoremTimes(b: Bigint, S: Bigint) returns (q: nat)
    requires b != S && b.x != S.x
    requires b.Ok() && b.Trimmed() && S.Ok() && S.Trimmed() && FourLeadingZeros(S)
    requires b.Value() < 10 * S.Value()
    modifies b, b.x
    ensures b.Ok() && b.Trimmed() && b.sign == old(b.sign)
    ensures q <= 10 && b.Value() < S.Value() && old(b.Value()) == Times(S.Value(), q) + b.Value()
  {
    NotLonger(b, S);
    if b.wds < S.wds {
      TrimmedValue(S);
      LongerIsLarger(b, S);
      return 0;
    }
    q := TakeEstimate(b, S);
    TrimmedValue(S);
    var c := Cmp(b, S);
    if c >= 0 {
      if b.wds < S.wds { LongerIsLarger(b, S); }
      q := q + 1;
      assert Times(S.Value(), 1) == S.Value();
      TakeAway(b, S, 1);
    }
  }

  // The quotient digit, with the remainder left in b.
  method Quorem(b: Bigint, S: Bigint) returns (q: nat)
    requires b != S && b.x != S.x
    requires b.Ok() && b.Trimmed() && S.Ok() && FourLeadingZeros(S)
    requires b.Value() < 10 * S.Value()
    modifies b, b.x
    ensures b.Ok() && b.Trimmed() && b.sign == old(b.sign)
    ensures q <= 9 && b.Value() < S.Value() && old(b.Value()) == q * S.Value() + b.Value()
  {
    q := QuoremTimes(b, S);
    TimesIsProduct(S.Value(), q);
  }
}

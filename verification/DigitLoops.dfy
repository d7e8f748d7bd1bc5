/** The digit loops on big numbers, proved equal to the generators on naturals. */
module DigitLoops {
  import opened Powers
  import opened Words
  import opened BigInts
  import opened BigArith
  import opened Quotient
  import opened Digits
  import opened DigitGen

  // A trimmed number and its words, apart from another one.
  ghost predicate Apart(a: Bigint, b: Bigint) {
    a != b && a.x != b.x
  }

  ghost predicate Num(b: Bigint)
    reads b, b.x
  {
    b.Ok() && b.Trimmed()
  }

  // A divisor arranged for quotient digits.
  ghost predicate Divisor(S: Bigint)
    reads S, S.x
  {
    S.Ok() && S.Trimmed() && FourLeadingZeros(S)
  }

  lemma DivisorPositive(S: Bigint)
    requires Divisor(S)
    ensures S.Value() > 0
  {
    TrimmedValue(S);
  }

  lemma TimesQuo(b: nat, S: nat, q: nat, r: nat)
    requires b == Times(S, q) + r && r < S
    ensures q == Quo(b, S) && r == Rem(b, S)
    ensures b < 10 * S ==> q <= 9
  {
    TimesIsProduct(S, q);
    QuoRemUnique(b, S, q, r);
    DigitRange(b, S, q, r);
  }

  // The next digit, with the remainder left in b.
  method NextDigit(b: Bigint, S: Bigint) returns (dig: nat)
    requires Apart(b, S) && Num(b) && Divisor(S)
    requires b.Value() < 10 * S.Value()
    modifies b, b.x
    ensures Divisor(S) && S.Value() == old(S.Value())
    ensures Num(b) && b.Value() == Rem(old(b.Value()), S.Value())
    ensures dig == Quo(old(b.Value()), S.Value()) && dig <= 9
  {
    ghost var value := b.Value();
    dig := QuoremTimes(b, S);
    TimesQuo(value, S.Value(), dig, b.Value());
  }

  // Ten times the remainder, for the next digit.
  method NextPlace(b: Bigint, S: Bigint) returns (r: Bigint)
    requires Apart(b, S) && Num(b) && Divisor(S)
    modifies b, b.x
    ensures Divisor(S) && S.Value() == old(S.Value())
    ensures r == b || (fresh(r) && fresh(r.x))
    ensures Apart(r, S) && Num(r) && r.Value() == 10 * old(b.Value())
  {
    TrimmedValue(b);
    r := MultAdd(b, 10, 0);
  }

  method IsZero(b: Bigint) returns (zero: bool)
    requires Num(b)
    ensures zero <==> b.Value() == 0
  {
    TrimmedValue(b);
    zero := b.x[0] == 0 && b.wds <= 1;
  }

  // Compares twice b with S.
  method CmpTwice(b: Bigint, S: Bigint) returns (c: int)
    requires Num(b) && Num(S) && b.Value() > 0 && S.Value() > 0
    ensures c < 0 <==> 2 * b.Value() < S.Value()
    ensures c == 0 <==> 2 * b.Value() == S.Value()
  {
    TrimmedValue(b);
    var twice := Lshift(b, 1);
    assert Shl(b.Value(), 1) == 2 * Shl(b.Value(), 0);
    c := Cmp(twice, S);
  }

  // ---- rounding the last digit ----

  // Adds one in the last place by walking back over nines.
  method RoundOffDigits(s: seq<nat>, k0: int) returns (out: Decimal)
    requires s != []
    ensures out == RoundOff(s, k0)
  {
    var n := |s| - 1;
    assert s[..n + 1] == s;
    while s[n] == 9
      invariant 0 <= n < |s| && RoundOff(s[..n + 1], k0) == RoundOff(s, k0)
      decreases n
    {
      assert s[..n + 1][..n] == s[..n];
      if n == 0 {
        return Decimal([1], k0 + 1);
      }
      n := n - 1;
    }
    assert s[..n + 1][..n] == s[..n];
    out := Decimal(s[..n] + [s[n] + 1], k0);
  }

  method TrimDigits(s: seq<nat>) returns (t: seq<nat>)
    ensures t == TrimZeros(s)
  {
    var n := |s|;
    assert s[..n] == s;
    while n > 0 && s[n - 1] == 0
      invariant 0 <= n <= |s| && TrimZeros(s[..n]) == TrimZeros(s)
    {
      assert s[..n][..n - 1] == s[..n - 1];
      n := n - 1;
    }
    t := s[..n];
  }

  // Rounds the last digit on the remainder.
  method LastDigit(ds: seq<nat>, b: Bigint, S: Bigint, k: int) returns (out: Decimal)
    requires ds != [] && Num(b) && Num(S) && b.Value() > 0 && S.Value() > 0
    ensures out == Last(ds, b.Value(), S.Value(), k)
  {
    var j := CmpTwice(b, S);
    if j > 0 || (j == 0 && ds[|ds| - 1] % 2 == 1) {
      out := RoundOffDigits(ds, k);
    } else {
      var t := TrimDigits(ds);
      out := Decimal(t, k);
    }
  }

  // ---- modes 2 and 3 ----

  method FixedDigits(b0: Bigint, S: Bigint, ilim: nat, k: int) returns (out: Decimal)
    requires Apart(b0, S) && Num(b0) && Divisor(S)
    requires b0.Value() < 10 * S.Value()
    modifies b0, b0.x
    ensures out == Fixed(old(b0.Value()), S.Value(), ilim, [], k)
  {
    ghost var divisor := S.Value();
    var b, ds := b0, [];
    while true
      invariant Apart(b, S) && Num(b) && Divisor(S) && S.Value() == divisor
      invariant b.Value() < 10 * divisor
      invariant b == b0 || (fresh(b) && fresh(b.x))
      invariant Fixed(b.Value(), divisor, ilim, ds, k) == Fixed(old(b0.Value()), divisor, ilim, [], k)
      decreases ilim - |ds|
    {
      var dig := NextDigit(b, S);
      ds := ds + [dig];
      var zero := IsZero(b);
      if zero {
        return Decimal(ds, k);
      }
      if |ds| >= ilim {
        break;
      }
      b := NextPlace(b, S);
    }
    out := LastDigit(ds, b, S, k);
  }

  // ---- modes 0, 1, 4 and 5 ----

  // The digit that stops the run, after the comparisons j of b with mlo and j1 of b with S - mhi.
  method StopDigit(b: Bigint, S: Bigint, dig: nat, j: int, j1: int, even: bool) returns (up: bool)
    requires Num(b) && Num(S) && S.Value() > 0
    ensures up == if j1 == 0 && even then dig == 9 || j > 0
      else if j < 0 || (j == 0 && even) then
        b.Value() != 0 && j1 > 0 && (2 * b.Value() > S.Value() || (2 * b.Value() == S.Value() && dig % 2 == 1))
      else true
  {
    if j1 == 0 && even {
      return dig == 9 || j > 0;
    }
    if j < 0 || (j == 0 && even) {
      var zero := IsZero(b);
      if zero || j1 <= 0 {
        return false;
      }
      var c := CmpTwice(b, S);
      return c > 0 || (c == 0 && dig % 2 == 1);
    }
    return true;
  }

  // Four numbers sharing nothing, except that the two half gaps may be one number.
  ghost predicate Separate(b: Bigint, S: Bigint, mlo: Bigint, mhi: Bigint) {
    && Apart(b, S) && Apart(b, mlo) && Apart(b, mhi) && Apart(S, mlo) && Apart(S, mhi)
    && (mlo == mhi || Apart(mlo, mhi))
  }

  // Compares b with mlo and with S - mhi. A zero left without words compares below a zero difference.
  method Compare(b: Bigint, S: Bigint, mlo: Bigint, mhi: Bigint) returns (j: int, j1: int)
    requires Num(b) && Num(S) && Num(mlo) && Num(mhi)
    requires S.Value() > 0 && mlo.Value() > 0 && mhi.Value() > 0
    ensures (j < 0 <==> b.Value() < mlo.Value()) && (j == 0 <==> b.Value() == mlo.Value())
    ensures j1 > 0 <==> b.Value() + mhi.Value() > S.Value()
    ensures b.Value() > 0 || S.Value() != mhi.Value() ==> (j1 == 0 <==> b.Value() + mhi.Value() == S.Value())
  {
    TrimmedValue(b);
    TrimmedValue(S);
    TrimmedValue(mlo);
    TrimmedValue(mhi);
    j := Cmp(b, mlo);
    var delta := Diff(S, mhi);
    if delta.sign != 0 {
      j1 := 1;
    } else {
      TrimmedValue(delta);
      j1 := Cmp(b, delta);
    }
  }

  // Whether the digit ends the result, and whether it is then rounded up.
  method Decide(b: Bigint, S: Bigint, mlo: Bigint, mhi: Bigint, dig: nat, even: bool) returns (stop: bool, up: bool)
    requires Num(b) && Num(S) && Num(mlo) && Num(mhi)
    requires S.Value() > 0 && mlo.Value() > 0 && mhi.Value() > 0
    requires even && S.Value() == mhi.Value() && dig == 9 ==> b.Value() > 0
    ensures stop == MustStop(b.Value(), S.Value(), mlo.Value(), mhi.Value(), even)
    ensures stop ==> up == RoundsUp(dig, b.Value(), S.Value(), mlo.Value(), mhi.Value(), even)
  {
    var j, j1 := Compare(b, S, mlo, mhi);
    stop := (j1 == 0 && even) || j < 0 || (j == 0 && even) || j1 > 0;
    up := false;
    if stop {
      up := StopDigit(b, S, dig, j, j1, even);
    }
  }

  method NextMargins(S: Bigint, mlo: Bigint, mhi: Bigint) returns (lo: Bigint, hi: Bigint)
    requires Num(mlo) && Num(mhi) && Divisor(S) && Apart(S, mlo) && Apart(S, mhi)
    requires mlo == mhi || Apart(mlo, mhi)
    modifies mlo, mlo.x, mhi, mhi.x
    ensures Divisor(S) && S.Value() == old(S.Value())
    ensures lo == mlo || (fresh(lo) && fresh(lo.x))
    ensures hi == mhi || (fresh(hi) && fresh(hi.x))
    ensures Apart(S, lo) && Apart(S, hi) && (lo == hi || Apart(lo, hi))
    ensures Num(lo) && Num(hi)
    ensures lo.Value() == 10 * old(mlo.Value()) && hi.Value() == 10 * old(mhi.Value())
  {
    if mlo == mhi {
      hi := MultAdd(mhi, 10, 0);
      lo := hi;
    } else {
      lo := MultAdd(mlo, 10, 0);
      hi := MultAdd(mhi, 10, 0);
    }
  }

  // Ten times the remainder and the half gaps, for the next digit.
  method NextRound(b: Bigint, S: Bigint, mlo: Bigint, mhi: Bigint) returns (r: Bigint, lo: Bigint, hi: Bigint)
    requires Separate(b, S, mlo, mhi) && Num(b) && Divisor(S) && Num(mlo) && Num(mhi)
    modifies b, b.x, mlo, mlo.x, mhi, mhi.x
    ensures Divisor(S) && S.Value() == old(S.Value())
    ensures r == b || (fresh(r) && fresh(r.x))
    ensures lo == mlo || (fresh(lo) && fresh(lo.x))
    ensures hi == mhi || (fresh(hi) && fresh(hi.x))
    ensures Separate(r, S, lo, hi) && Num(r) && Num(lo) && Num(hi)
    ensures r.Value() == 10 * old(b.Value())
    ensures lo.Value() == 10 * old(mlo.Value()) && hi.Value() == 10 * old(mhi.Value())
  {
    r := NextPlace(b, S);
    lo, hi := NextMargins(S, mlo, mhi);
  }

  // One digit and the decision to stop, leaving the remainder in b.
  method ShortestStep(b: Bigint, S: Bigint, mlo: Bigint, mhi: Bigint, even: bool)
    returns (dig: nat, stop: bool, up: bool)
    requires Separate(b, S, mlo, mhi) && Num(b) && Divisor(S) && Num(mlo) && Num(mhi)
    requires b.Value() < 10 * S.Value() && mlo.Value() > 0 && mhi.Value() > 0
    requires even && S.Value() == mhi.Value() ==> b.Value() != 9 * S.Value()
    modifies b, b.x
    ensures Divisor(S) && S.Value() == old(S.Value())
    ensures Num(mlo) && Num(mhi) && mlo.Value() == old(mlo.Value()) && mhi.Value() == old(mhi.Value())
    ensures Num(b) && b.Value() == Rem(old(b.Value()), S.Value())
    ensures dig == Quo(old(b.Value()), S.Value())
    ensures stop == MustStop(b.Value(), S.Value(), mlo.Value(), mhi.Value(), even)
    ensures stop ==> up == RoundsUp(dig, b.Value(), S.Value(), mlo.Value(), mhi.Value(), even)
  {
    QuoRem(b.Value(), S.Value());
    dig := NextDigit(b, S);
    stop, up := Decide(b, S, mlo, mhi, dig, even);
  }

  method ShortestDigits(b0: Bigint, S: Bigint, mlo0: Bigint, mhi0: Bigint, even: bool, ilim: int, k: int)
    returns (out: Decimal)
    requires Separate(b0, S, mlo0, mhi0) && Num(b0) && Divisor(S) && Num(mlo0) && Num(mhi0)
    requires b0.Value() < 10 * S.Value() && mlo0.Value() > 0 && mhi0.Value() > 0
    requires even && S.Value() == mhi0.Value() ==> b0.Value() != 9 * S.Value()
    modifies b0, b0.x, mlo0, mlo0.x, mhi0, mhi0.x
    ensures out == old(Shortest(b0.Value(), S.Value(), mlo0.Value(), mhi0.Value(), even, ilim, [], k))
  {
    ghost var result := Shortest(b0.Value(), S.Value(), mlo0.Value(), mhi0.Value(), even, ilim, [], k);
    ghost var divisor := S.Value();
    var b, mlo, mhi, ds := b0, mlo0, mhi0, [];
    while true
      invariant Separate(b, S, mlo, mhi) && Num(b) && Divisor(S) && Num(mlo) && Num(mhi) && S.Value() == divisor
      invariant b == b0 || (fresh(b) && fresh(b.x))
      invariant mlo == mlo0 || (fresh(mlo) && fresh(mlo.x))
      invariant mhi == mhi0 || (fresh(mhi) && fresh(mhi.x))
      invariant b.Value() < 10 * divisor && mlo.Value() > 0 && mhi.Value() > 0
      invariant even && divisor == mhi.Value() ==> b.Value() != 9 * divisor
      invariant Shortest(b.Value(), divisor, mlo.Value(), mhi.Value(), even, ilim, ds, k) == result
      decreases if mlo.Value() < divisor then divisor - mlo.Value() else 0
    {
      var dig, stop, up := ShortestStep(b, S, mlo, mhi, even);
      ds := ds + [dig];
      if stop {
        if up {
          out := RoundOffDigits(ds, k);
        } else {
          out := Decimal(ds, k);
        }
        return;
      }
      if |ds| == ilim {
        break;
      }
      b, mlo, mhi := NextRound(b, S, mlo, mhi);
    }
    out := LastDigit(ds, b, S, k);
  }
}

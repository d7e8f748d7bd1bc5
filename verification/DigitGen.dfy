/**
 * The two digit generators, on naturals. The fraction b / S, between 1 and 10, counts units of 10^k;
 * mlo / S and mhi / S are the distances to the ends of the rounding interval.
 */
module DigitGen {
  import opened Powers
  import opened Digits

  // Quotient and remainder by repeated subtraction: the digits are small.
  function Quo(b: nat, S: nat): nat
    requires S > 0
  {
    if b < S then 0 else Quo(b - S, S) + 1
  }

  function Rem(b: nat, S: nat): (r: nat)
    requires S > 0
    ensures r < S
  {
    if b < S then b else Rem(b - S, S)
  }

  lemma {:induction false} QuoRem(b: nat, S: nat)
    requires S > 0
    ensures b == Quo(b, S) * S + Rem(b, S)
  {
    if b >= S {
      QuoRem(b - S, S);
      MulDist(Quo(b - S, S), 1, S);
    }
  }

  lemma QuoRemUnique(b: nat, S: nat, q: nat, r: nat)
    requires b == q * S + r && r < S
    ensures Quo(b, S) == q && Rem(b, S) == r
  {
    if b < S {
      if q >= 1 { MulMono(1, q, S); }
    } else {
      MulDist(q, 1, S);
      QuoRemUnique(b - S, S, q - 1, r);
    }
  }

  lemma DigitRange(b: nat, S: nat, dig: nat, r: nat)
    requires b == dig * S + r && r < S
    ensures b < 10 * S ==> dig <= 9
    ensures S <= b ==> dig >= 1
  {
    if dig >= 10 { MulMono(10, dig, S); }
  }

  // The last digit of a fixed-length result is rounded on the remainder, ties to even.
  function Last(ds: seq<nat>, r: nat, S: nat, k: int): Decimal
    requires ds != []
  {
    if 2 * r > S || (2 * r == S && ds[|ds| - 1] % 2 == 1) then RoundOff(ds, k)
    else Decimal(TrimZeros(ds), k)
  }

  // The remainder is close enough to an end of the rounding interval to stop at this digit. The ends count
  // as inside when even holds.
  predicate MustStop(r: nat, S: nat, mlo: nat, mhi: nat, even: bool) {
    r < mlo || r + mhi > S || (even && (r == mlo || r + mhi == S))
  }

  // The tie rules of the source: whether the digit that stops the run is rounded up.
  predicate RoundsUp(dig: nat, r: nat, S: nat, mlo: nat, mhi: nat, even: bool) {
    if r + mhi == S && even then dig == 9 || r > mlo
    else if r < mlo || (r == mlo && even) then
      r != 0 && r + mhi > S && (2 * r > S || (2 * r == S && dig % 2 == 1))
    else true
  }

  // Steele and White's generator of modes 0, 1, 4 and 5. The digits so far are ds; ilim cuts the result short.
  function Shortest(b: nat, S: nat, mlo: nat, mhi: nat, even: bool, ilim: int, ds: seq<nat>, k: int): Decimal
    requires S > 0 && mlo > 0
    decreases if mlo < S then S - mlo else 0
  {
    var r, here := Rem(b, S), ds + [Quo(b, S)];
    if MustStop(r, S, mlo, mhi, even) then
      if RoundsUp(Quo(b, S), r, S, mlo, mhi, even) then RoundOff(here, k) else Decimal(here, k)
    else if |here| == ilim then Last(here, r, S, k)
    else Shortest(10 * r, S, 10 * mlo, 10 * mhi, even, ilim, here, k)
  }

  // The generator of modes 2 and 3: digits until the fraction is used up or ilim of them are out.
  function Fixed(b: nat, S: nat, ilim: nat, ds: seq<nat>, k: int): Decimal
    requires S > 0
    decreases ilim - |ds|
  {
    var dig, r := Quo(b, S), Rem(b, S);
    var here := ds + [dig];
    if r == 0 then Decimal(here, k)
    else if |here| >= ilim then Last(here, r, S, k)
    else Fixed(10 * r, S, ilim, here, k)
  }

  // ---- where a run stands ----

  // x, lo and hi are the fraction and the half widths of the interval in units of the next digit, times S.
  datatype Scale = Scale(x: nat, lo: nat, hi: nat)

  ghost function Tenfold(s: Scale): Scale {
    Scale(10 * s.x, 10 * s.lo, 10 * s.hi)
  }

  ghost function ScaleUp(s: Scale, n: nat): Scale {
    if n == 0 then s else Tenfold(ScaleUp(s, n - 1))
  }

  // What is left at the next digit when the generator did not stop at the previous one.
  ghost predicate NotStopped(b: nat, S: nat, mlo: nat, mhi: nat, closed: bool) {
    if closed then mlo < b && b + mhi < 10 * S else mlo <= b && b + mhi <= 10 * S
  }

  // The digits so far stand for D tens of units, and b is left.
  ghost predicate Reached(s: Scale, D: nat, S: nat, b: nat) {
    s.x == D * (10 * S) + b && b < 10 * S
  }

  // One digit: the units grow to E, and ten times the remainder is left for the next digit.
  lemma NextDigit(s: Scale, D: nat, S: nat, b: nat, dig: nat, r: nat)
    requires Reached(s, D, S, b) && b == dig * S + r && r < S
    ensures s.x == (D * 10 + dig) * S + r
    ensures Reached(Tenfold(s), D * 10 + dig, S, 10 * r)
  {
    var E := D * 10 + dig;
    MulDist(D * 10, dig, S);
    MulAssoc(D, 10, S);
    assert 10 * (E * S) == E * (10 * S) by { MulAssoc(E, 10, S); MulAssoc(10, E, S); }
  }

  // ---- what a result means ----

  // E units lie in the rounding interval.
  ghost predicate Inside(E: nat, s: Scale, S: nat, closed: bool) {
    if closed then s.x - s.lo <= E * S <= s.x + s.hi else s.x - s.lo < E * S < s.x + s.hi
  }

  // The neighbouring multiples of ten units lie outside the interval on either side.
  ghost predicate Blocked(D: nat, s: Scale, S: nat, closed: bool) {
    if closed then D * (10 * S) < s.x - s.lo && s.x + s.hi < (D + 1) * (10 * S)
    else D * (10 * S) <= s.x - s.lo && s.x + s.hi <= (D + 1) * (10 * S)
  }

  lemma BlockedWhenNotStopped(s: Scale, D: nat, S: nat, b: nat, closed: bool)
    requires Reached(s, D, S, b) && NotStopped(b, S, s.lo, s.hi, closed)
    ensures Blocked(D, s, S, closed)
  {
    MulDist(D, 1, 10 * S);
  }

  lemma UpInside(E: nat, s: Scale, S: nat, r: nat, closed: bool)
    requires s.x == E * S + r && r < S && s.lo > 0
    requires if closed then r + s.hi >= S else r + s.hi > S
    ensures Inside(E + 1, s, S, closed)
  {
    MulDist(E, 1, S);
  }

  lemma HereInside(E: nat, s: Scale, S: nat, r: nat, closed: bool)
    requires s.x == E * S + r && s.hi > 0
    requires r < s.lo || (r == s.lo && closed)
    ensures Inside(E, s, S, closed)
  {}

  // Rounding up past the first digit never meets a nine.
  lemma NoNine(b: nat, S: nat, mlo: nat, mhi: nat, closed: bool, dig: nat, r: nat)
    requires NotStopped(b, S, mlo, mhi, closed) && b == dig * S + r
    requires if closed then r + mhi >= S else r + mhi > S
    ensures dig < 9
  {
    if dig >= 9 {
      MulMono(9, dig, S);
    }
  }

  // A digit zero cannot end the result: the shorter neighbour below would have been accepted.
  lemma NoTrailingZero(b: nat, S: nat, mlo: nat, mhi: nat, closed: bool, dig: nat, r: nat)
    requires b == dig * S + r && NotStopped(b, S, mlo, mhi, closed)
    requires r < mlo || (r == mlo && closed)
    ensures dig > 0
  {}

  // A remainder decides how the quotient rounds.
  lemma NearestByRemainder(x: nat, S: nat, E: nat, r: nat)
    requires x == E * S + r && r < S
    ensures 2 * r > S || (2 * r == S && E % 2 == 1) ==> NearestEven(E + 1, x, S)
    ensures 2 * r < S || (2 * r == S && E % 2 == 0) ==> NearestEven(E, x, S)
  {
    MulDist(E, 1, S);
  }

  lemma QuotientPositive(x: nat, S: nat, E: nat, r: nat)
    requires x == E * S + r && r < S <= x
    ensures E > 0
  {}

  // A result of n digits standing for a number of units.
  datatype Outcome = Outcome(n: nat, units: nat)

  // The result has all n digits, or is a one in the place above its only digit.
  ghost predicate Stops(o: Outcome, out: Decimal, s: Scale, S: nat, closed: bool, k: int) {
    && o.n > 0 && Represents(out, o.units, k, o.n) && Proper(out)
    && |out.digits| == o.n && (out.k == k || (o.n == 1 && out == Decimal([1], k + 1)))
    && Inside(o.units, s, S, closed)
  }

  ghost predicate Rounds(o: Outcome, out: Decimal, x: nat, S: nat, k: int) {
    && o.n > 0 && Represents(out, o.units, k, o.n) && Proper(out) && |out.digits| <= o.n
    && NearestEven(o.units, x, S)
  }

  lemma LastRounds(here: seq<nat>, x: nat, S: nat, r: nat, k: int) returns (o: Outcome)
    requires here != [] && AreDigits(here)
    requires x == DigitsVal(here) * S + r && r < S <= x
    ensures o.n == |here| && Rounds(o, Last(here, r, S, k), x, S, k)
  {
    var E := DigitsVal(here);
    QuotientPositive(x, S, E, r);
    NearestByRemainder(x, S, E, r);
    assert E % 2 == here[|here| - 1] % 2;
    if 2 * r > S || (2 * r == S && here[|here| - 1] % 2 == 1) {
      RoundOffAddsOne(here, k);
      o := Outcome(|here|, E + 1);
    } else {
      TrimKeepsValue(here, k);
      o := Outcome(|here|, E);
    }
  }

  lemma UpStops(ds: seq<nat>, s: Scale, S: nat, b: nat, dig: nat, r: nat, closed: bool, k: int)
    requires AreDigits(ds) && dig <= 9 && s.lo > 0 && b == dig * S + r && r < S
    requires s.x == DigitsVal(ds + [dig]) * S + r
    requires ds != [] ==> NotStopped(b, S, s.lo, s.hi, closed)
    requires if closed then r + s.hi >= S else r + s.hi > S
    ensures Stops(Outcome(|ds| + 1, DigitsVal(ds + [dig]) + 1), RoundOff(ds + [dig], k), s, S, closed, k)
  {
    RoundOffAddsOne(ds + [dig], k);
    UpInside(DigitsVal(ds + [dig]), s, S, r, closed);
    if ds != [] {
      NoNine(b, S, s.lo, s.hi, closed, dig, r);
    }
  }

  lemma HereStops(ds: seq<nat>, s: Scale, S: nat, b: nat, dig: nat, r: nat, closed: bool, k: int)
    requires AreDigits(ds) && dig <= 9 && s.hi > 0 && b == dig * S + r && r < S
    requires s.x == DigitsVal(ds + [dig]) * S + r
    requires if ds == [] then dig > 0 else NotStopped(b, S, s.lo, s.hi, closed)
    requires r < s.lo || (r == s.lo && closed)
    ensures Stops(Outcome(|ds| + 1, DigitsVal(ds + [dig])), Decimal(ds + [dig], k), s, S, closed, k)
  {
    HereInside(DigitsVal(ds + [dig]), s, S, r, closed);
    if ds != [] {
      NoTrailingZero(b, S, s.lo, s.hi, closed, dig, r);
    }
  }

  ghost function Distance(E: nat, s: Scale, S: nat): nat {
    if E * S < s.x then s.x - E * S else E * S - s.x
  }

  // No number of units inside the interval is nearer to the fraction.
  ghost predicate Closest(E: nat, s: Scale, S: nat, closed: bool) {
    forall F: nat :: Inside(F, s, S, closed) ==> Distance(E, s, S) <= Distance(F, s, S)
  }

  // The fraction lies between E and E + 1 units, so every other number of units is at least as far as one of them.
  lemma Neighbours(E: nat, F: nat, s: Scale, S: nat, r: nat, closed: bool)
    requires s.x == E * S + r && r < S && s.lo > 0 && s.hi > 0 && Inside(F, s, S, closed)
    ensures F <= E ==> Inside(E, s, S, closed) && r <= Distance(F, s, S)
    ensures F > E ==> Inside(E + 1, s, S, closed) && S - r <= Distance(F, s, S)
  {
    MulDist(E, 1, S);
    if F <= E { MulMono(F, E, S); } else { MulMono(E + 1, F, S); }
  }

  lemma NearerIsClosest(E: nat, s: Scale, S: nat, r: nat, closed: bool)
    requires s.x == E * S + r && r < S && s.lo > 0 && s.hi > 0
    ensures 2 * r <= S || !Inside(E + 1, s, S, closed) ==> Closest(E, s, S, closed)
    ensures 2 * r >= S || !Inside(E, s, S, closed) ==> Closest(E + 1, s, S, closed)
  {
    MulDist(E, 1, S);
    forall F: nat | Inside(F, s, S, closed)
      ensures F <= E ==> Inside(E, s, S, closed) && r <= Distance(F, s, S)
      ensures F > E ==> Inside(E + 1, s, S, closed) && S - r <= Distance(F, s, S)
    {
      Neighbours(E, F, s, S, r, closed);
    }
  }

  // A first digit nine is rounded up when the upper end of the closed interval is the next power of ten, even if
  // the nine itself would do: the one exit that need not give the closest result.
  ghost predicate NineAtTheTop(dig: nat, r: nat, S: nat, mlo: nat, mhi: nat, even: bool) {
    dig == 9 && even && r + mhi == S && r <= mlo
  }

  lemma StopClosest(E: nat, dig: nat, s: Scale, S: nat, r: nat, even: bool)
    requires 0 < s.lo <= s.hi && s.x == E * S + r && r < S
    requires MustStop(r, S, s.lo, s.hi, even) && !NineAtTheTop(dig, r, S, s.lo, s.hi, even)
    ensures Closest(if RoundsUp(dig, r, S, s.lo, s.hi, even) then E + 1 else E, s, S, even)
  {
    NearerIsClosest(E, s, S, r, even);
    MulDist(E, 1, S);
  }

  lemma StopStops(ds: seq<nat>, s: Scale, S: nat, b: nat, dig: nat, r: nat, even: bool, k: int) returns (o: Outcome)
    requires AreDigits(ds) && dig <= 9 && 0 < s.lo <= s.hi && b == dig * S + r && r < S
    requires s.x == DigitsVal(ds + [dig]) * S + r
    requires if ds == [] then dig > 0 else NotStopped(b, S, s.lo, s.hi, even)
    requires MustStop(r, S, s.lo, s.hi, even)
    ensures var out := if RoundsUp(dig, r, S, s.lo, s.hi, even) then RoundOff(ds + [dig], k) else Decimal(ds + [dig], k);
      o.n == |ds| + 1 && Stops(o, out, s, S, even, k)
    ensures Closest(o.units, s, S, even) || (ds == [] && NineAtTheTop(dig, r, S, s.lo, s.hi, even))
  {
    var here := ds + [dig];
    if ds != [] && r + s.hi >= S && (even || r + s.hi > S) {
      NoNine(b, S, s.lo, s.hi, even, dig, r);
    }
    if !NineAtTheTop(dig, r, S, s.lo, s.hi, even) {
      StopClosest(DigitsVal(here), dig, s, S, r, even);
    }
    if RoundsUp(dig, r, S, s.lo, s.hi, even) {
      UpStops(ds, s, S, b, dig, r, even, k);
      o := Outcome(|here|, DigitsVal(here) + 1);
    } else {
      HereStops(ds, s, S, b, dig, r, even, k);
      o := Outcome(|here|, DigitsVal(here));
    }
  }

  lemma {:induction false} ScaleUpGrows(s: Scale, n: nat)
    ensures s.x <= ScaleUp(s, n).x
  {
    if n > 0 {
      ScaleUpGrows(s, n - 1);
    }
  }

  // ---- the generators meet their specification ----

  // A run is cut at ilim digits: the result is rounded, and no decimal of ilim digits or fewer lies in the interval.
  ghost predicate IsCut(o: Outcome, out: Decimal, s: Scale, S: nat, even: bool, ilim: int, k: int) {
    o.n == ilim && Rounds(o, out, s.x, S, k) && exists D :: Blocked(D, Tenfold(s), S, even)
  }

  // A run ends inside the interval, past what any shorter decimal could reach and as near as its length allows
  // (unless the interval is as wide as a unit).
  ghost predicate Finishes(o: Outcome, out: Decimal, s: Scale, S: nat, even: bool, k: int) {
    && Stops(o, out, s, S, even, k)
    && (o.n > 1 ==> exists D :: Blocked(D, s, S, even))
    && (Closest(o.units, s, S, even) || (o.n == 1 && s.x + s.hi == 10 * S && even && S <= s.lo + s.hi))
  }

  lemma CutCorrect(here: seq<nat>, s: Scale, S: nat, r: nat, even: bool, k: int) returns (o: Outcome)
    requires here != [] && AreDigits(here) && S <= s.x
    requires s.x == DigitsVal(here) * S + r && r < S && Reached(Tenfold(s), DigitsVal(here), S, 10 * r)
    requires !MustStop(r, S, s.lo, s.hi, even)
    ensures o.n == |here| && IsCut(o, Last(here, r, S, k), s, S, even, |here|, k)
  {
    o := LastRounds(here, s.x, S, r, k);
    BlockedWhenNotStopped(Tenfold(s), DigitsVal(here), S, 10 * r, even);
  }

  lemma StopCorrect(ds: seq<nat>, s: Scale, S: nat, b: nat, dig: nat, r: nat, even: bool, k: int)
    returns (o: Outcome)
    requires AreDigits(ds) && dig <= 9 && 0 < s.lo <= s.hi && b == dig * S + r && r < S
    requires Reached(s, DigitsVal(ds), S, b) && s.x == DigitsVal(ds + [dig]) * S + r
    requires if ds == [] then dig > 0 else NotStopped(b, S, s.lo, s.hi, even)
    requires MustStop(r, S, s.lo, s.hi, even)
    ensures var out := if RoundsUp(dig, r, S, s.lo, s.hi, even) then RoundOff(ds + [dig], k) else Decimal(ds + [dig], k);
      o.n == |ds| + 1 && Finishes(o, out, s, S, even, k)
  {
    if ds != [] {
      BlockedWhenNotStopped(s, DigitsVal(ds), S, b, even);
    }
    o := StopStops(ds, s, S, b, dig, r, even, k);
  }

  lemma {:induction false} ShortestOutcome(b: nat, S: nat, mlo: nat, mhi: nat, even: bool, ilim: int, ds: seq<nat>, k: int,
                                           s0: Scale) returns (o: Outcome, s: Scale)
    requires S > 0 && 0 < mlo <= mhi && S <= s0.x && AreDigits(ds)
    requires var s := ScaleUp(s0, |ds|); s.lo == mlo && s.hi == mhi && Reached(s, DigitsVal(ds), S, b)
    requires if ds == [] then S <= b else NotStopped(b, S, mlo, mhi, even)
    requires ilim > 0 ==> |ds| < ilim
    ensures o.n > 0 && s == ScaleUp(s0, o.n - 1) && (ilim > 0 ==> o.n <= ilim)
    ensures var out := Shortest(b, S, mlo, mhi, even, ilim, ds, k);
      IsCut(o, out, s, S, even, ilim, k) || Finishes(o, out, s, S, even, k)
    decreases if mlo < S then S - mlo else 0
  {
    var dig, r := Quo(b, S), Rem(b, S);
    var here := ds + [dig];
    s := ScaleUp(s0, |ds|);
    QuoRem(b, S);
    DigitRange(b, S, dig, r);
    NextDigit(s, DigitsVal(ds), S, b, dig, r);
    DigitsAppend(ds, dig);
    if MustStop(r, S, mlo, mhi, even) {
      o := StopCorrect(ds, s, S, b, dig, r, even, k);
    } else if |here| == ilim {
      ScaleUpGrows(s0, |ds|);
      o := CutCorrect(here, s, S, r, even, k);
    } else {
      o, s := ShortestOutcome(10 * r, S, 10 * mlo, 10 * mhi, even, ilim, here, k, s0);
    }
  }

  // Fixed-count output is the fraction rounded to ilim digits, ties to even; an exact result may be shorter.
  lemma {:induction false} FixedOutcome(b: nat, S: nat, ilim: nat, ds: seq<nat>, k: int, s0: Scale) returns (o: Outcome)
    requires S > 0 && S <= s0.x && AreDigits(ds) && |ds| < ilim
    requires Reached(ScaleUp(s0, |ds|), DigitsVal(ds), S, b)
    requires if ds == [] then S <= b else b > 0
    ensures 0 < o.n <= ilim && Rounds(o, Fixed(b, S, ilim, ds, k), ScaleUp(s0, o.n - 1).x, S, k)
    ensures o.n < ilim ==> o.units * S == ScaleUp(s0, o.n - 1).x
    decreases ilim - |ds|
  {
    var dig, r := Quo(b, S), Rem(b, S);
    var here := ds + [dig];
    var s := ScaleUp(s0, |ds|);
    QuoRem(b, S);
    DigitRange(b, S, dig, r);
    NextDigit(s, DigitsVal(ds), S, b, dig, r);
    DigitsAppend(ds, dig);
    if r == 0 {
      o := Outcome(|here|, DigitsVal(here));
      assert dig > 0;
    } else if |here| >= ilim {
      ScaleUpGrows(s0, |ds|);
      o := LastRounds(here, s.x, S, r, k);
    } else {
      o := FixedOutcome(10 * r, S, ilim, here, k, s0);
    }
  }
}

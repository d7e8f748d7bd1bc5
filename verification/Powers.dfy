/** Powers of a natural base, and the few laws of multiplication the number modules lean on. */
module Powers {

  function Pow(b: nat, e: nat): (p: nat)
    ensures b > 0 ==> p > 0
  {
    if e == 0 then 1 else b * Pow(b, e - 1)
  }

  lemma {:induction false} PowAdd(b: nat, m: nat, n: nat)
    ensures Pow(b, m + n) == Pow(b, m) * Pow(b, n)
  {
    if m != 0 {
      PowAdd(b, m - 1, n);
      MulAssoc(b, Pow(b, m - 1), Pow(b, n));
    }
  }

  lemma {:induction false} PowMul(b: nat, m: nat, n: nat)
    ensures Pow(Pow(b, m), n) == Pow(b, m * n)
  {
    if n == 0 {
      assert m * n == 0;
    } else {
      PowMul(b, m, n - 1);
      PowAdd(b, m, m * (n - 1));
      assert m + m * (n - 1) == m * n;
    }
  }

  lemma {:induction false} PowOfProduct(a: nat, b: nat, n: nat)
    ensures Pow(a * b, n) == Pow(a, n) * Pow(b, n)
  {
    if n != 0 {
      PowOfProduct(a, b, n - 1);
      var p, q := Pow(a, n - 1), Pow(b, n - 1);
      MulSwap(a, b, p, q);
    }
  }

  lemma {:induction false} PowMono(b: nat, m: nat, n: nat)
    requires b > 0 && m <= n
    ensures Pow(b, m) <= Pow(b, n)
  {
    if m < n {
      PowMono(b, m, n - 1);
      MulMono(1, b, Pow(b, n - 1));
    }
  }

  // ---- multiplication, one law at a time ----

  lemma MulAssoc(a: int, b: int, c: int)
    ensures a * b * c == a * (b * c)
  {}

  lemma MulSwap(a: int, b: int, c: int, d: int)
    ensures (a * b) * (c * d) == (a * c) * (b * d)
  {
    MulAssoc(a, b, c * d);
    MulAssoc(b, c, d);
    MulAssoc(c, b, d);
    MulAssoc(a, c, b * d);
  }

  lemma MulDist(a: int, b: int, c: int)
    ensures (a + b) * c == a * c + b * c
    ensures (a - b) * c == a * c - b * c
  {}

  lemma MulMono(a: int, b: int, c: int)
    requires a <= b && 0 <= c
    ensures a * c <= b * c
  {}

  lemma MulStrict(a: int, b: int, c: int)
    requires a < b && 0 < c
    ensures a * c < b * c
  {}

  lemma MulCancel(a: int, b: int, c: int)
    requires 0 < c
    ensures a * c < b * c <==> a < b
    ensures a * c == b * c <==> a == b
  {
    if a < b { MulStrict(a, b, c); }
    if b < a { MulStrict(b, a, c); }
  }

  // Quotient and remainder are determined.
  lemma DivUnique(n: int, d: int, q: int, r: int)
    requires n == q * d + r && 0 <= r < d
    ensures n / d == q && n % d == r
  {
    var q', r' := n / d, n % d;
    assert n == q' * d + r';
    MulDist(q, q', d);
    if q < q' { MulMono(1, q' - q, d); MulDist(q', q, d); }
    if q > q' { MulMono(1, q - q', d); }
  }

  // ---- scaling by two, five and ten, one factor at a time ----

  // v times 2^k.
  function Shl(v: nat, k: nat): nat {
    if k == 0 then v else 2 * Shl(v, k - 1)
  }

  // v times 5^k.
  ghost function Fives(v: nat, k: nat): nat {
    if k == 0 then v else 5 * Fives(v, k - 1)
  }

  // v followed by k decimal zeros.
  function Tens(v: nat, k: nat): nat {
    if k == 0 then v else 10 * Tens(v, k - 1)
  }

  lemma {:induction false} ShlIsPow(v: nat, k: nat)
    ensures Shl(v, k) == v * Pow(2, k)
  {
    if k > 0 {
      ShlIsPow(v, k - 1);
      MulAssoc(v, 2, Pow(2, k - 1));
      MulAssoc(2, v, Pow(2, k - 1));
    }
  }

  lemma {:induction false} FivesIsPow(v: nat, k: nat)
    ensures Fives(v, k) == v * Pow(5, k)
  {
    if k > 0 {
      FivesIsPow(v, k - 1);
      MulAssoc(v, 5, Pow(5, k - 1));
      MulAssoc(5, v, Pow(5, k - 1));
    }
  }

  lemma {:induction false} TensIsPow(v: nat, k: nat)
    ensures Tens(v, k) == v * Pow(10, k)
  {
    if k > 0 {
      TensIsPow(v, k - 1);
      MulAssoc(v, 10, Pow(10, k - 1));
      MulAssoc(10, v, Pow(10, k - 1));
    }
  }

  lemma {:induction false} ShlAdd(v: nat, m: nat, n: nat)
    ensures Shl(v, m + n) == Shl(Shl(v, m), n)
  {
    if n > 0 { ShlAdd(v, m, n - 1); }
  }

  lemma {:induction false} FivesAdd(v: nat, m: nat, n: nat)
    ensures Fives(v, m + n) == Fives(Fives(v, m), n)
  {
    if n > 0 { FivesAdd(v, m, n - 1); }
  }

  lemma {:induction false} ShlOrder(v: nat, w: nat, k: nat)
    ensures v < w <==> Shl(v, k) < Shl(w, k)
    ensures v == w <==> Shl(v, k) == Shl(w, k)
  {
    if k > 0 { ShlOrder(v, w, k - 1); }
  }

  lemma {:induction false} FivesOrder(v: nat, w: nat, k: nat)
    ensures v < w <==> Fives(v, k) < Fives(w, k)
    ensures v == w <==> Fives(v, k) == Fives(w, k)
  {
    if k > 0 { FivesOrder(v, w, k - 1); }
  }

  lemma {:induction false} ShlSum(v: nat, w: nat, k: nat)
    ensures Shl(v + w, k) == Shl(v, k) + Shl(w, k)
  {
    if k > 0 { ShlSum(v, w, k - 1); }
  }

  lemma {:induction false} ShlGrows(v: nat, m: nat, n: nat)
    requires m <= n
    ensures Shl(v, m) <= Shl(v, n)
  {
    if m < n { ShlGrows(v, m, n - 1); }
  }

  lemma {:induction false} ShlOfFive(v: nat, k: nat)
    ensures Shl(5 * v, k) == 5 * Shl(v, k)
  {
    if k > 0 { ShlOfFive(v, k - 1); }
  }

  lemma {:induction false} ShlFives(v: nat, m: nat, n: nat)
    ensures Shl(Fives(v, m), n) == Fives(Shl(v, n), m)
  {
    if m > 0 {
      ShlOfFive(Fives(v, m - 1), n);
      ShlFives(v, m - 1, n);
    }
  }

  lemma {:induction false} TensSplit(v: nat, k: nat)
    ensures Tens(v, k) == Shl(Fives(v, k), k)
  {
    if k > 0 {
      TensSplit(v, k - 1);
      ShlOfFive(Fives(v, k - 1), k - 1);
    }
  }

  lemma {:induction false} TensAdd(v: nat, m: nat, n: nat)
    ensures Tens(v, m + n) == Tens(Tens(v, m), n)
  {
    if n > 0 { TensAdd(v, m, n - 1); }
  }

  lemma {:induction false} TensOrder(v: nat, w: nat, k: nat)
    ensures v < w <==> Tens(v, k) < Tens(w, k)
    ensures v == w <==> Tens(v, k) == Tens(w, k)
  {
    if k > 0 { TensOrder(v, w, k - 1); }
  }

  lemma {:induction false} TensSum(v: nat, w: nat, k: nat)
    ensures Tens(v + w, k) == Tens(v, k) + Tens(w, k)
  {
    if k > 0 { TensSum(v, w, k - 1); }
  }

  lemma {:induction false} TensOfTwo(v: nat, k: nat)
    ensures Tens(2 * v, k) == 2 * Tens(v, k)
  {
    if k > 0 { TensOfTwo(v, k - 1); }
  }

  lemma {:induction false} TensShl(v: nat, m: nat, n: nat)
    ensures Tens(Shl(v, m), n) == Shl(Tens(v, n), m)
  {
    if m > 0 {
      TensOfTwo(Shl(v, m - 1), n);
      TensShl(v, m - 1, n);
    }
  }

  lemma {:induction false} TensTimes(m: nat, e: nat, S: nat)
    ensures Tens(m, e) * S == Tens(m * S, e)
  {
    if e > 0 {
      TensTimes(m, e - 1, S);
      MulAssoc(10, Tens(m, e - 1), S);
    }
  }

  lemma {:induction false} ShlTimes(m: nat, e: nat, S: nat)
    ensures Shl(m, e) * S == Shl(m * S, e)
  {
    if e > 0 {
      ShlTimes(m, e - 1, S);
      MulAssoc(2, Shl(m, e - 1), S);
    }
  }
}

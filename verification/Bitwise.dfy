/** Bits of integers in two's complement, and the bitwise operators on naturals. */
module Bitwise {
  import opened Powers

  // Bit j of x; halving rounds down, so a negative number has its sign in all high bits.
  predicate Bit(x: int, j: nat)
    decreases j
  {
    if j == 0 then x % 2 == 1 else Bit(x / 2, j - 1)
  }

  function Shr(x: int, k: nat): (r: int)
    ensures 0 <= x ==> 0 <= r <= x
    decreases k
  {
    if k == 0 then x else Shr(x / 2, k - 1)
  }

  // x & y
  function And(x: nat, y: nat): (r: nat)
    ensures r <= x && r <= y
  {
    if x == 0 then 0 else (if x % 2 == 1 && y % 2 == 1 then 1 else 0) + 2 * And(x / 2, y / 2)
  }

  // x & ~y
  function AndNot(x: nat, y: nat): (r: nat)
    ensures r <= x
  {
    if x == 0 then 0 else (if x % 2 == 1 && y % 2 == 0 then 1 else 0) + 2 * AndNot(x / 2, y / 2)
  }

  // x | y
  function Or(x: nat, y: nat): nat
    decreases x + y
  {
    if x == 0 then y
    else if y == 0 then x
    else (if x % 2 == 1 || y % 2 == 1 then 1 else 0) + 2 * Or(x / 2, y / 2)
  }

  // The n low bits set.
  function Mask(n: nat): nat {
    if n == 0 then 0 else 1 + 2 * Mask(n - 1)
  }

  // The low n bits of x.
  function Low(x: int, n: nat): (r: nat)
    decreases n
  {
    if n == 0 then 0 else x % 2 + 2 * Low(x / 2, n - 1)
  }

  // ---- each operator, bit by bit ----

  lemma {:induction false} BitZero(j: nat)
    ensures !Bit(0, j)
  {
    if j > 0 { BitZero(j - 1); }
  }

  lemma {:induction false} BitAnd(x: nat, y: nat, j: nat)
    ensures Bit(And(x, y), j) <==> Bit(x, j) && Bit(y, j)
    decreases j
  {
    if x == 0 {
      BitZero(j);
    } else if j > 0 {
      BitAnd(x / 2, y / 2, j - 1);
    }
  }

  lemma {:induction false} BitAndNot(x: nat, y: nat, j: nat)
    ensures Bit(AndNot(x, y), j) <==> Bit(x, j) && !Bit(y, j)
    decreases j
  {
    if x == 0 {
      BitZero(j);
    } else if j > 0 {
      BitAndNot(x / 2, y / 2, j - 1);
    }
  }

  lemma {:induction false} BitOr(x: nat, y: nat, j: nat)
    ensures Bit(Or(x, y), j) <==> Bit(x, j) || Bit(y, j)
    decreases j
  {
    if x == 0 || y == 0 {
      BitZero(j);
    } else if j > 0 {
      BitOr(x / 2, y / 2, j - 1);
    }
  }

  lemma {:induction false} BitShr(x: int, k: nat, j: nat)
    ensures Bit(Shr(x, k), j) <==> Bit(x, k + j)
    decreases k
  {
    if k > 0 { BitShr(x / 2, k - 1, j); }
  }

  lemma {:induction false} BitShl(x: nat, k: nat, j: nat)
    ensures Bit(Shl(x, k), j) <==> j >= k && Bit(x, j - k)
    decreases k
  {
    if k > 0 && j > 0 {
      BitShl(x, k - 1, j - 1);
    }
  }

  lemma {:induction false} BitMask(n: nat, j: nat)
    ensures Bit(Mask(n), j) <==> j < n
  {
    if n == 0 {
      BitZero(j);
    } else if j > 0 {
      BitMask(n - 1, j - 1);
    }
  }

  lemma {:induction false} BitLow(x: int, n: nat, j: nat)
    ensures Bit(Low(x, n), j) <==> j < n && Bit(x, j)
    decreases n
  {
    if n == 0 {
      BitZero(j);
    } else if j > 0 {
      BitLow(x / 2, n - 1, j - 1);
    }
  }

  lemma {:induction false} LowIsMod(x: int, n: nat)
    ensures Low(x, n) == x % Pow(2, n)
    decreases n
  {
    if n > 0 {
      LowIsMod(x / 2, n - 1);
      HalfMod(x, Pow(2, n - 1));
    }
  }

  lemma HalfMod(x: int, m: nat)
    requires m > 0
    ensures x % (2 * m) == x % 2 + 2 * (x / 2 % m)
  {
    var h := x / 2;
    var q, r := h / m, h % m;
    assert h == q * m + r;
    assert x == q * (2 * m) + (x % 2 + 2 * r) by { MulAssoc(q, 2, m); MulAssoc(2, q, m); }
    DivUnique(x, 2 * m, q, x % 2 + 2 * r);
  }

  // ---- numbers from their bits ----

  lemma {:induction false} NoBits(v: nat)
    requires forall j :: 0 <= j ==> !Bit(v, j)
    ensures v == 0
  {
    assert !Bit(v, 0);
    if v > 0 {
      forall j: nat ensures !Bit(v / 2, j) { assert !Bit(v, j + 1); }
      NoBits(v / 2);
    }
  }

  // A natural with the low n bits of x and no others is x cut to n bits.
  lemma {:induction false} BitsAreLow(v: nat, x: int, n: nat)
    requires forall j: nat :: Bit(v, j) <==> j < n && Bit(x, j)
    ensures v == Low(x, n)
    decreases n
  {
    if n == 0 {
      NoBits(v);
    } else {
      assert Bit(v, 0) <==> Bit(x, 0);
      forall j: nat ensures Bit(v / 2, j) <==> j < n - 1 && Bit(x / 2, j) {
        assert Bit(v, j + 1) <==> j + 1 < n && Bit(x, j + 1);
      }
      BitsAreLow(v / 2, x / 2, n - 1);
    }
  }

  lemma {:induction false} LowBound(x: int, n: nat)
    ensures Low(x, n) < Pow(2, n)
    decreases n
  {
    if n > 0 { LowBound(x / 2, n - 1); }
  }

  lemma {:induction false} LowOfSmall(x: nat, n: nat)
    requires x < Pow(2, n)
    ensures Low(x, n) == x
  {
    if n > 0 { LowOfSmall(x / 2, n - 1); }
  }

  lemma {:induction false} HighBitsClear(x: nat, n: nat, j: nat)
    requires x < Pow(2, n) && n <= j
    ensures !Bit(x, j)
  {
    LowOfSmall(x, n);
    BitLow(x, n, j);
  }
}

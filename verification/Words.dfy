/**
 * Little-endian sequences of 32-bit words and the naturals they denote, with the word-by-word
 * algorithms of the big-number package as functions on such sequences.
 */
module Words {
  import opened Powers

  const BASE: nat := 0x1_0000_0000

  type ULong = n: int | 0 <= n < 0x1_0000_0000
  type ULLong = n: int | 0 <= n < 0x1_0000_0000_0000_0000

  // Unsigned 64-bit arithmetic wraps.
  function Wrap64(n: int): ULLong {
    n % 0x1_0000_0000_0000_0000
  }

  ghost function Val(s: seq<ULong>): nat {
    if s == [] then 0 else s[0] + BASE * Val(s[1..])
  }

  lemma ValOne(x: ULong)
    ensures Val([x]) == x
  {
    assert [x][1..] == [];
  }

  lemma ValCons(x: ULong, s: seq<ULong>)
    ensures Val([x] + s) == x + BASE * Val(s)
  {
    assert ([x] + s)[1..] == s;
  }

  // ---- magnitude ----

  lemma {:induction false} ValBound(s: seq<ULong>)
    ensures Val(s) < Pow(BASE, |s|)
  {
    if s != [] {
      ValBound(s[1..]);
    }
  }

  lemma {:induction false} ValConcat(s: seq<ULong>, t: seq<ULong>)
    ensures Val(s + t) == Val(s) + Pow(BASE, |s|) * Val(t)
  {
    if s == [] {
      assert s + t == t;
    } else {
      ValConcat(s[1..], t);
      assert (s + t)[1..] == s[1..] + t;
      MulAssoc(BASE, Pow(BASE, |s| - 1), Val(t));
    }
  }

  // The top word brackets the value.
  lemma ValTop(s: seq<ULong>)
    requires s != []
    ensures s[|s| - 1] * Pow(BASE, |s| - 1) <= Val(s) < (s[|s| - 1] + 1) * Pow(BASE, |s| - 1)
  {
    var n, top := |s| - 1, s[|s| - 1];
    var low, p := s[..n], Pow(BASE, n);
    assert Val(s) == Val(low) + p * top by {
      assert s == low + [top];
      ValConcat(low, [top]);
      assert Val([top][1..]) == 0;
    }
    ValBound(low);
    MulDist(top, 1, p);
  }

  lemma {:induction false} ValZeros(s: seq<ULong>)
    requires forall i :: 0 <= i < |s| ==> s[i] == 0
    ensures Val(s) == 0
  {
    if s != [] {
      ValZeros(s[1..]);
    }
  }

  // Dropping high zero words does not change the value.
  lemma ValTrim(s: seq<ULong>, i: nat)
    requires i <= |s|
    requires forall j :: i <= j < |s| ==> s[j] == 0
    ensures Val(s[..i]) == Val(s)
  {
    assert s == s[..i] + s[i..];
    ValConcat(s[..i], s[i..]);
    ValZeros(s[i..]);
  }

  // A nonzero top word bounds the value from below.
  lemma ValAtLeast(s: seq<ULong>)
    requires s != [] && s[|s| - 1] != 0
    ensures Pow(BASE, |s| - 1) <= Val(s)
  {
    ValTop(s);
    MulMono(1, s[|s| - 1], Pow(BASE, |s| - 1));
  }

  // Equal length: the highest differing word decides.
  lemma ValDiffer(s: seq<ULong>, t: seq<ULong>, i: nat)
    requires i < |s| == |t| && s[i + 1..] == t[i + 1..]
    requires s[i] < t[i]
    ensures Val(s) < Val(t)
  {
    var a, b := s[..i + 1], t[..i + 1];
    assert s == a + s[i + 1..] && t == b + t[i + 1..];
    ValConcat(a, s[i + 1..]);
    ValConcat(b, t[i + 1..]);
    ValTop(a);
    ValTop(b);
    MulMono(s[i] + 1, t[i], Pow(BASE, i));
  }

  // ---- one 64-bit step: a word product plus two words, split into low and high words ----

  // The word product, defined by repeated addition so that proofs about loops see no multiplication.
  function Times(x: nat, m: nat): nat {
    if m == 0 then 0 else Times(x, m - 1) + x
  }

  lemma {:induction false} TimesIsProduct(x: nat, m: nat)
    ensures Times(x, m) == x * m
  {
    if m > 0 {
      TimesIsProduct(x, m - 1);
    }
  }

  lemma {:induction false} TimesSplit(x: nat, v: nat, m: nat)
    ensures Times(x + BASE * v, m) == Times(x, m) + BASE * Times(v, m)
  {
    if m > 0 {
      TimesSplit(x, v, m - 1);
    }
  }

  function Lo(x: ULong, m: ULong, c: ULong, d: ULong): ULong {
    (Times(x, m) + c + d) % BASE
  }

  function Hi(x: ULong, m: ULong, c: ULong, d: ULong): (hi: ULong)
    ensures hi * BASE + Lo(x, m, c, d) == Times(x, m) + c + d < 0x1_0000_0000_0000_0000
  {
    ProductFits(x, m);
    (Times(x, m) + c + d) / BASE
  }

  lemma ProductFits(x: ULong, m: ULong)
    ensures Times(x, m) <= 0xFFFF_FFFF * 0xFFFF_FFFF
  {
    TimesIsProduct(x, m);
    MulMono(x, 0xFFFF_FFFF, m);
  }

  // x - s - borrow: the digit kept and the borrow passed on.
  function Digit(x: ULong, s: ULong, borrow: nat): ULong
    requires borrow <= 1
  {
    if x - s - borrow >= 0 then x - s - borrow else x - s - borrow + BASE
  }

  function Borrow(x: ULong, s: ULong, borrow: nat): nat
    requires borrow <= 1
  {
    if x - s - borrow >= 0 then 0 else 1
  }

  // The source computes both from one wrapping 64-bit subtraction.
  lemma WrappedBorrow(x: ULong, s: ULong, borrow: nat)
    requires borrow <= 1
    ensures var y := Wrap64(x - s - borrow);
      y % BASE == Digit(x, s, borrow) && y / BASE % 2 == Borrow(x, s, borrow)
  {
    if x - s - borrow < 0 {
      var y := x - s - borrow + 0x1_0000_0000_0000_0000;
      assert Wrap64(x - s - borrow) == y;
      assert y == 0xFFFF_FFFF * BASE + Digit(x, s, borrow);
    }
  }

  // ---- s * m + carry ----

  function MultAddSeq(s: seq<ULong>, m: ULong, carry: ULong): (r: seq<ULong>)
    ensures |r| == |s| + 1
  {
    if s == [] then [carry]
    else [Lo(s[0], m, carry, 0)] + MultAddSeq(s[1..], m, Hi(s[0], m, carry, 0))
  }

  lemma {:induction false} MultAddExact(s: seq<ULong>, m: ULong, carry: ULong)
    ensures Val(MultAddSeq(s, m, carry)) == Val(s) * m + carry
  {
    if s != [] {
      var hi, v := Hi(s[0], m, carry, 0), Val(s[1..]);
      TimesIsProduct(s[0], m);
      MultAddExact(s[1..], m, hi);
      MulDist(s[0], BASE * v, m);
      MulAssoc(BASE, v, m);
    }
  }

  // ---- c + a * y + carry, where c has a zero word above a ----

  function RowSeq(a: seq<ULong>, y: ULong, c: seq<ULong>, carry: ULong): (r: seq<ULong>)
    requires |a| < |c|
    ensures |r| == |c|
  {
    if a == [] then [carry] + c[1..]
    else [Lo(a[0], y, c[0], carry)] + RowSeq(a[1..], y, c[1..], Hi(a[0], y, c[0], carry))
  }

  lemma {:induction false} RowExact(a: seq<ULong>, y: ULong, c: seq<ULong>, carry: ULong)
    requires |a| < |c| && c[|a|] == 0
    ensures Val(RowSeq(a, y, c, carry)) == Val(c) + Val(a) * y + carry
  {
    if a != [] {
      var hi, v := Hi(a[0], y, c[0], carry), Val(a[1..]);
      TimesIsProduct(a[0], y);
      RowExact(a[1..], y, c[1..], hi);
      MulDist(a[0], BASE * v, y);
      MulAssoc(BASE, v, y);
    }
  }

  // ---- x - q * s - carry - borrow, with the amount that could not be taken returned ----

  function SubSeq(x: seq<ULong>, s: seq<ULong>, q: ULong, carry: ULong, borrow: nat): (r: (seq<ULong>, nat))
    requires |s| == |x| && borrow <= 1
    ensures |r.0| == |x|
  {
    if s == [] then ([], carry + borrow)
    else
      var lo, hi := Lo(s[0], q, carry, 0), Hi(s[0], q, carry, 0);
      var rest := SubSeq(x[1..], s[1..], q, hi, Borrow(x[0], lo, borrow));
      ([Digit(x[0], lo, borrow)] + rest.0, rest.1)
  }

  lemma {:induction false} SubSeqValue(x: seq<ULong>, s: seq<ULong>, q: ULong, carry: ULong, borrow: nat)
    requires |s| == |x| && borrow <= 1
    ensures var (r, over) := SubSeq(x, s, q, carry, borrow);
      Val(r) + Times(Val(s), q) + carry + borrow == Val(x) + Times(Pow(BASE, |x|), over)
  {
    if s == [] {
      assert Times(0, q) == 0 by { TimesIsProduct(0, q); }
      assert Times(1, carry + borrow) == carry + borrow by { TimesIsProduct(1, carry + borrow); }
    } else {
      var lo, hi := Lo(s[0], q, carry, 0), Hi(s[0], q, carry, 0);
      var d, br := Digit(x[0], lo, borrow), Borrow(x[0], lo, borrow);
      var rest := SubSeq(x[1..], s[1..], q, hi, br);
      assert SubSeq(x, s, q, carry, borrow) == ([d] + rest.0, rest.1);
      SubSeqValue(x[1..], s[1..], q, hi, br);
      ValCons(d, rest.0);
      TimesVal(s, q);
      TimesPow(|x| - 1, rest.1);
      SubStep(x[0], Val(x[1..]), Times(s[0], q), Times(Val(s[1..]), q), carry, borrow, lo, hi, d, br, Val(rest.0),
              Times(Pow(BASE, |x| - 1), rest.1));
    }
  }

  // The linear heart of one step: what holds one word up, and the digit's equations.
  lemma SubStep(x0: int, x: int, t0: int, t: int, carry: int, borrow: int, lo: int, hi: int, d: int, br: int, r: int, over: int)
    requires r + t + hi + br == x + over
    requires hi * BASE + lo == t0 + carry && d - br * BASE == x0 - lo - borrow
    ensures (d + BASE * r) + (t0 + BASE * t) + carry + borrow == (x0 + BASE * x) + BASE * over
  {}

  lemma TimesVal(s: seq<ULong>, m: nat)
    requires s != []
    ensures Times(Val(s), m) == Times(s[0], m) + BASE * Times(Val(s[1..]), m)
  {
    TimesSplit(s[0], Val(s[1..]), m);
  }

  lemma TimesPow(n: nat, m: nat)
    ensures Times(Pow(BASE, n + 1), m) == BASE * Times(Pow(BASE, n), m)
  {
    TimesSplit(0, Pow(BASE, n), m);
    TimesIsProduct(0, m);
  }

  lemma NothingOver(r: seq<ULong>, over: nat, u: nat, v: nat)
    requires Val(r) + u == v + Times(Pow(BASE, |r|), over) && u <= v
    ensures Val(r) == v - u
  {
    ValBound(r);
    TimesAtLeast(Pow(BASE, |r|), over);
  }

  lemma TimesAtLeast(p: nat, m: nat)
    ensures m == 0 || Times(p, m) >= p
  {}

  lemma SubExact(x: seq<ULong>, s: seq<ULong>, q: ULong)
    requires |s| == |x| && Times(Val(s), q) <= Val(x)
    ensures Val(SubSeq(x, s, q, 0, 0).0) == Val(x) - Times(Val(s), q)
  {
    SubSeqValue(x, s, q, 0, 0);
    var (r, over) := SubSeq(x, s, q, 0, 0);
    NothingOver(r, over, Times(Val(s), q), Val(x));
  }

  // ---- x - y, where y may have fewer words ----

  function DiffSeq(x: seq<ULong>, y: seq<ULong>, borrow: nat): (r: (seq<ULong>, nat))
    requires |y| <= |x| && borrow <= 1
    ensures |r.0| == |x|
  {
    if x == [] then ([], borrow)
    else
      var y0, ys := if y == [] then 0 else y[0], if y == [] then [] else y[1..];
      var rest := DiffSeq(x[1..], ys, Borrow(x[0], y0, borrow));
      ([Digit(x[0], y0, borrow)] + rest.0, rest.1)
  }

  lemma {:induction false} DiffSeqValue(x: seq<ULong>, y: seq<ULong>, borrow: nat)
    requires |y| <= |x| && borrow <= 1
    ensures var (r, over) := DiffSeq(x, y, borrow);
      Val(r) + Val(y) + borrow == Val(x) + Times(Pow(BASE, |x|), over)
  {
    if x == [] {
      assert Times(1, borrow) == borrow by { TimesIsProduct(1, borrow); }
    } else {
      var y0, ys := if y == [] then 0 else y[0], if y == [] then [] else y[1..];
      DiffSeqValue(x[1..], ys, Borrow(x[0], y0, borrow));
      ValCons(Digit(x[0], y0, borrow), DiffSeq(x[1..], ys, Borrow(x[0], y0, borrow)).0);
      TimesPow(|x| - 1, DiffSeq(x, y, borrow).1);
    }
  }

  lemma DiffExact(x: seq<ULong>, y: seq<ULong>)
    requires |y| <= |x| && Val(y) <= Val(x)
    ensures Val(DiffSeq(x, y, 0).0) == Val(x) - Val(y)
  {
    var (r, over) := DiffSeq(x, y, 0);
    DiffSeqValue(x, y, 0);
    NothingOver(r, over, Val(y), Val(x));
  }

  // ---- s * 2^k + z, for shifts below the word size ----

  lemma WordIsPower(k: nat)
    requires k <= 32
    ensures Pow(2, k) * Pow(2, 32 - k) == BASE
  {
    PowAdd(2, k, 32 - k);
    assert Pow(2, 8) == 0x100;
    PowAdd(2, 8, 8);
    PowAdd(2, 16, 16);
  }

  lemma EightBits(v: nat)
    ensures Shl(v, 1) == 2 * v && Shl(v, 2) == 4 * v && Shl(v, 3) == 8 * v && Shl(v, 4) == 0x10 * v
    ensures Shl(v, 8) == 0x100 * v
  {
    assert Shl(v, 1) == 2 * v && Shl(v, 2) == 2 * Shl(v, 1) && Shl(v, 3) == 2 * Shl(v, 2);
    assert Shl(v, 4) == 2 * Shl(v, 3) && Shl(v, 5) == 2 * Shl(v, 4) && Shl(v, 6) == 2 * Shl(v, 5);
    assert Shl(v, 7) == 2 * Shl(v, 6) && Shl(v, 8) == 2 * Shl(v, 7);
  }

  lemma SixteenBits(v: nat)
    ensures Shl(v, 16) == 0x1_0000 * v
  {
    ShlAdd(v, 8, 8);
    EightBits(v);
    EightBits(Shl(v, 8));
  }

  lemma ShlWord(v: nat)
    ensures Shl(v, 32) == BASE * v
  {
    ShlAdd(v, 16, 16);
    SixteenBits(v);
    SixteenBits(Shl(v, 16));
  }

  lemma {:induction false} ShlWords(v: nat, n: nat)
    ensures Shl(v, 32 * n) == Pow(BASE, n) * v
  {
    if n > 0 {
      ShlWords(v, n - 1);
      ShlAdd(v, 32 * (n - 1), 32);
      ShlWord(Shl(v, 32 * (n - 1)));
      MulAssoc(BASE, Pow(BASE, n - 1), v);
    }
  }

  lemma ValTopShl(s: seq<ULong>, top: nat)
    requires s != [] && top == s[|s| - 1]
    ensures Shl(top, 32 * (|s| - 1)) <= Val(s) < Shl(top + 1, 32 * (|s| - 1))
  {
    ValTop(s);
    ShlWords(top, |s| - 1);
    ShlWords(top + 1, |s| - 1);
  }

  // t times x is a high word below t and a low word that is a multiple of t.
  lemma ShiftFits(x: ULong, t: nat, r: nat)
    requires t * r == BASE && t > 0 && r > 0
    ensures x * t % BASE + t <= BASE
    ensures x / r == x * t / BASE < t
  {
    var hi, lo := x / r, x % r;
    assert x * t == hi * BASE + lo * t by {
      assert x == hi * r + lo;
      MulDist(hi * r, lo, t);
      MulAssoc(hi, r, t);
    }
    assert 0 <= lo * t && lo * t + t <= BASE by {
      MulDist(lo, 1, t);
      MulMono(lo + 1, r, t);
    }
    DivUnique(x * t, BASE, hi, lo * t);
    if hi >= t {
      MulMono(t, hi, r);
    }
  }

  // The source joins the shifted word and the bits carried in with an or; they do not overlap.
  function ShiftLo(x: ULong, k: nat, z: ULong): ULong
    requires 0 < k < 32 && z < Pow(2, k)
  {
    WordIsPower(k);
    ShiftFits(x, Pow(2, k), Pow(2, 32 - k));
    x * Pow(2, k) % BASE + z
  }

  function ShiftHi(x: ULong, k: nat): (z: ULong)
    requires 0 < k < 32
    ensures z < Pow(2, k) && z * BASE + x * Pow(2, k) % BASE == x * Pow(2, k)
  {
    WordIsPower(k);
    ShiftFits(x, Pow(2, k), Pow(2, 32 - k));
    x / Pow(2, 32 - k)
  }

  function ShiftSeq(s: seq<ULong>, k: nat, z: ULong): (r: seq<ULong>)
    requires 0 < k < 32 && z < Pow(2, k)
    ensures |r| == |s| + 1
  {
    if s == [] then [z] else [ShiftLo(s[0], k, z)] + ShiftSeq(s[1..], k, ShiftHi(s[0], k))
  }

  lemma {:induction false} ShiftExact(s: seq<ULong>, k: nat, z: ULong)
    requires 0 < k < 32 && z < Pow(2, k)
    ensures Val(ShiftSeq(s, k, z)) == Val(s) * Pow(2, k) + z
  {
    if s != [] {
      var v := Val(s[1..]);
      ShiftExact(s[1..], k, ShiftHi(s[0], k));
      MulDist(s[0], BASE * v, Pow(2, k));
      MulAssoc(BASE, v, Pow(2, k));
    }
  }
}

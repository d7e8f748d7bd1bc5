/** The inner loops of the big-number operations, in place on arrays of words. */
module WordLoops {
  import opened Powers
  import opened Words

  // The step every loop below takes: one more word written, the rest still to come.
  lemma OneMore<T>(done: seq<T>, w: T, rest: seq<T>)
    ensures done + ([w] + rest) == done + [w] + rest
  {}

  // x[..n] := x[..n] * m + a; the word that does not fit is returned.
  method MultAddWords(x: array<ULong>, n: nat, m: ULong, a: ULong) returns (carry: ULong)
    requires n <= x.Length
    modifies x
    ensures x[..n] + [carry] == MultAddSeq(old(x[..n]), m, a)
    ensures forall l :: n <= l < x.Length ==> x[l] == old(x[l])
  {
    ghost var was := x[..n];
    carry := a;
    var i := 0;
    while i < n
      invariant 0 <= i <= n
      invariant forall l :: i <= l < x.Length ==> x[l] == old(x[l])
      invariant x[..i] + MultAddSeq(was[i..], m, carry) == MultAddSeq(was, m, a)
    {
      ghost var done := x[..i];
      assert was[i] == x[i] && was[i..][1..] == was[i + 1..];
      x[i], carry := Lo(x[i], m, carry, 0), Hi(x[i], m, carry, 0);
      OneMore(done, x[i], MultAddSeq(was[i + 1..], m, carry));
      assert x[..i + 1] == done + [x[i]];
      i := i + 1;
    }
  }

  // One row of the schoolbook product, added into c from word j on.
  method MultRow(a: seq<ULong>, y: ULong, c: array<ULong>, j: nat, wc: nat)
    requires j + |a| < wc <= c.Length
    modifies c
    ensures forall l :: 0 <= l < j || j + |a| < l < c.Length ==> c[l] == old(c[l])
    ensures c[j..wc] == RowSeq(a, y, old(c[j..wc]), 0)
  {
    ghost var was := c[j..wc];
    var carry := MultRowWords(a, y, c, j, was);
    ghost var done := c[j..j + |a|];
    var n := |a|;
    c[j + n] := carry;
    assert was[n..][1..] == was[n + 1..] == c[j + n + 1..wc];
    assert c[j..wc] == done + ([carry] + was[n + 1..]);
  }

  lemma RowUnfold(a: seq<ULong>, y: ULong, c: seq<ULong>, i: nat, carry: ULong)
    requires i < |a| < |c|
    ensures RowSeq(a[i..], y, c[i..], carry) ==
      [Lo(a[i], y, c[i], carry)] + RowSeq(a[i + 1..], y, c[i + 1..], Hi(a[i], y, c[i], carry))
  {
    assert a[i..][1..] == a[i + 1..] && c[i..][1..] == c[i + 1..];
  }

  method MultRowWords(a: seq<ULong>, y: ULong, c: array<ULong>, j: nat, ghost was: seq<ULong>) returns (carry: ULong)
    requires |a| < |was| && j + |was| <= c.Length && c[j..j + |was|] == was
    modifies c
    ensures forall l :: 0 <= l < j || j + |a| <= l < c.Length ==> c[l] == old(c[l])
    ensures c[j..j + |a|] + RowSeq([], y, was[|a|..], carry) == RowSeq(a, y, was, 0)
  {
    var i := 0;
    carry := 0;
    while i < |a|
      invariant 0 <= i <= |a|
      invariant forall l :: 0 <= l < j || j + i <= l < c.Length ==> c[l] == old(c[l])
      invariant c[j..j + i] + RowSeq(a[i..], y, was[i..], carry) == RowSeq(a, y, was, 0)
    {
      ghost var done := c[j..j + i];
      RowUnfold(a, y, was, i, carry);
      assert was[i] == c[j + i];
      c[j + i], carry := Lo(a[i], y, c[j + i], carry), Hi(a[i], y, c[j + i], carry);
      OneMore(done, c[j + i], RowSeq(a[i + 1..], y, was[i + 1..], carry));
      assert c[j..j + i + 1] == done + [c[j + i]];
      i := i + 1;
    }
    assert a[i..] == [];
  }

  // x[..n] := x[..n] - q * s, where s has n words
  method SubtractMultiple(x: array<ULong>, s: seq<ULong>, q: ULong)
    requires |s| <= x.Length
    modifies x
    ensures x[..|s|] == SubSeq(old(x[..|s|]), s, q, 0, 0).0
    ensures forall l :: |s| <= l < x.Length ==> x[l] == old(x[l])
  {
    ghost var was := x[..|s|];
    var i, borrow: nat, carry: ULong := 0, 0, 0;
    while i < |s|
      invariant 0 <= i <= |s| && borrow <= 1
      invariant forall l :: i <= l < x.Length ==> x[l] == old(x[l])
      invariant x[..i] + SubSeq(was[i..], s[i..], q, carry, borrow).0 == SubSeq(was, s, q, 0, 0).0
    {
      ghost var done := x[..i];
      assert was[i] == x[i] && was[i..][1..] == was[i + 1..] && s[i..][1..] == s[i + 1..];
      var lo := Lo(s[i], q, carry, 0);
      carry := Hi(s[i], q, carry, 0);
      WrappedBorrow(x[i], lo, borrow);
      var y := Wrap64(x[i] - lo - borrow);
      x[i], borrow := y % BASE, y / BASE % 2;
      OneMore(done, x[i], SubSeq(was[i + 1..], s[i + 1..], q, carry, borrow).0);
      assert x[..i + 1] == done + [x[i]];
      i := i + 1;
    }
  }

  // c[..|a|] := a - b, the words of b first, then the borrow alone
  method DiffWords(a: seq<ULong>, b: seq<ULong>, c: array<ULong>)
    requires |b| <= |a| <= c.Length
    modifies c
    ensures c[..|a|] == DiffSeq(a, b, 0).0
  {
    var borrow := DiffLow(a, b, c);
    DiffHigh(a, |b|, borrow, c, DiffSeq(a, b, 0).0);
  }

  lemma DiffUnfold(a: seq<ULong>, b: seq<ULong>, i: nat, borrow: nat)
    requires i < |b| <= |a| && borrow <= 1
    ensures DiffSeq(a[i..], b[i..], borrow).0 ==
      [Digit(a[i], b[i], borrow)] + DiffSeq(a[i + 1..], b[i + 1..], Borrow(a[i], b[i], borrow)).0
  {
    assert a[i..][1..] == a[i + 1..] && b[i..][1..] == b[i + 1..];
  }

  method DiffLow(a: seq<ULong>, b: seq<ULong>, c: array<ULong>) returns (borrow: nat)
    requires |b| <= |a| <= c.Length
    modifies c
    ensures borrow <= 1
    ensures c[..|b|] + DiffSeq(a[|b|..], [], borrow).0 == DiffSeq(a, b, 0).0
  {
    borrow := 0;
    var i := 0;
    while i < |b|
      invariant 0 <= i <= |b| && borrow <= 1
      invariant c[..i] + DiffSeq(a[i..], b[i..], borrow).0 == DiffSeq(a, b, 0).0
    {
      ghost var done := c[..i];
      DiffUnfold(a, b, i, borrow);
      WrappedBorrow(a[i], b[i], borrow);
      var y := Wrap64(a[i] - b[i] - borrow);
      c[i], borrow := y % BASE, y / BASE % 2;
      OneMore(done, c[i], DiffSeq(a[i + 1..], b[i + 1..], borrow).0);
      assert c[..i + 1] == done + [c[i]];
      i := i + 1;
    }
    assert b[i..] == [];
  }

  method DiffHigh(a: seq<ULong>, from: nat, borrow0: nat, c: array<ULong>, ghost all: seq<ULong>)
    requires from <= |a| <= c.Length && borrow0 <= 1
    requires c[..from] + DiffSeq(a[from..], [], borrow0).0 == all
    modifies c
    ensures c[..|a|] == all
  {
    var i, borrow: nat := from, borrow0;
    while i < |a|
      invariant from <= i <= |a| && borrow <= 1
      invariant c[..i] + DiffSeq(a[i..], [], borrow).0 == all
    {
      ghost var done := c[..i];
      assert a[i..][1..] == a[i + 1..];
      WrappedBorrow(a[i], 0, borrow);
      var y := Wrap64(a[i] - borrow);
      c[i], borrow := y % BASE, y / BASE % 2;
      OneMore(done, c[i], DiffSeq(a[i + 1..], [], borrow).0);
      assert c[..i + 1] == done + [c[i]];
      i := i + 1;
    }
  }

  // c[n..n + |x|] := x shifted left by k bits; the bits shifted out at the top are returned.
  method ShiftWords(x: seq<ULong>, c: array<ULong>, n: nat, k: nat) returns (z: ULong)
    requires n + |x| <= c.Length && 0 < k < 32
    modifies c
    ensures forall l :: 0 <= l < n ==> c[l] == old(c[l])
    ensures c[n..n + |x|] + [z] == ShiftSeq(x, k, 0)
  {
    z := 0;
    var i := 0;
    while i < |x|
      invariant 0 <= i <= |x| && z < Pow(2, k)
      invariant forall l :: 0 <= l < n ==> c[l] == old(c[l])
      invariant c[n..n + i] + ShiftSeq(x[i..], k, z) == ShiftSeq(x, k, 0)
    {
      ghost var done := c[n..n + i];
      assert x[i..][1..] == x[i + 1..];
      c[n + i], z := ShiftLo(x[i], k, z), ShiftHi(x[i], k);
      OneMore(done, c[n + i], ShiftSeq(x[i + 1..], k, z));
      assert c[n..n + i + 1] == done + [c[n + i]];
      i := i + 1;
    }
  }

  // ---- the same loops by value ----

  method TakeMultiple(x: array<ULong>, s: seq<ULong>, q: ULong)
    requires |s| <= x.Length && Times(Val(s), q) <= Val(x[..|s|])
    modifies x
    ensures Val(x[..|s|]) == Val(old(x[..|s|])) - Times(Val(s), q)
    ensures forall l :: |s| <= l < x.Length ==> x[l] == old(x[l])
  {
    SubExact(x[..|s|], s, q);
    SubtractMultiple(x, s, q);
  }

  method TimesPlus(x: array<ULong>, n: nat, m: ULong, a: ULong) returns (carry: ULong)
    requires n <= x.Length
    modifies x
    ensures Val(x[..n]) + Pow(BASE, n) * carry == Val(old(x[..n])) * m + a
    ensures forall l :: n <= l < x.Length ==> x[l] == old(x[l])
  {
    MultAddExact(x[..n], m, a);
    carry := MultAddWords(x, n, m, a);
    ValConcat(x[..n], [carry]);
    ValOne(carry);
  }

  method Difference(a: seq<ULong>, b: seq<ULong>, c: array<ULong>)
    requires |b| <= |a| <= c.Length && Val(b) <= Val(a)
    modifies c
    ensures Val(c[..|a|]) == Val(a) - Val(b)
  {
    DiffExact(a, b);
    DiffWords(a, b, c);
  }

  method ShiftedUp(x: seq<ULong>, c: array<ULong>, n: nat, k: nat) returns (z: ULong)
    requires n + |x| <= c.Length && 0 < k < 32
    modifies c
    ensures forall l :: 0 <= l < n ==> c[l] == old(c[l])
    ensures Val(c[n..n + |x|] + [z]) == Val(x) * Pow(2, k)
  {
    ShiftExact(x, k, 0);
    z := ShiftWords(x, c, n, k);
  }

  method AddProduct(a: seq<ULong>, y: ULong, c: array<ULong>, j: nat, wc: nat)
    requires j + |a| < wc <= c.Length && c[j + |a|] == 0
    modifies c
    ensures forall l :: 0 <= l < j || j + |a| < l < c.Length ==> c[l] == old(c[l])
    ensures Val(c[j..wc]) == Val(old(c[j..wc])) + Val(a) * y
  {
    RowExact(a, y, c[j..wc], 0);
    MultRow(a, y, c, j, wc);
  }
}

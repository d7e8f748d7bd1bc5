/** Exact arithmetic on multiple-precision naturals: each operation is proved on values. */
module BigArith {
  import opened Powers
  import opened Words
  import opened BigInts
  import opened WordLoops

  // ---- trimmed numbers ----

  lemma TrimmedByValue(b: Bigint)
    requires b.Ok()
    requires b.wds > 1 ==> Pow(BASE, b.wds - 1) <= b.Value()
    ensures b.Trimmed()
  {
    if b.wds > 1 && b.x[b.wds - 1] == 0 {
      ValTop(b.x[..b.wds]);
    }
  }

  lemma TrimmedValue(b: Bigint)
    requires b.Ok() && b.Trimmed()
    ensures b.wds > 1 ==> Pow(BASE, b.wds - 1) <= b.Value()
    ensures b.Value() < Pow(BASE, b.wds)
    ensures b.Value() == 0 <==> b.wds <= 1 && b.x[0] == 0
  {
    var s := b.x[..b.wds];
    ValBound(s);
    if b.wds > 1 {
      ValAtLeast(s);
    } else if b.wds == 1 {
      assert s[1..] == [];
    }
  }

  // ---- multiply by a small number and add ----

  // Copies sign, word count and words.
  method Bcopy(c: Bigint, b: Bigint)
    requires c != b && c.x != b.x && b.Ok() && c.Shape() && b.wds <= c.maxwds
    modifies c, c.x
    ensures c.sign == b.sign && c.wds == b.wds && c.x[..c.wds] == b.x[..b.wds]
    ensures b.wds == 0 || c.x[0] == b.x[0]
  {
    c.sign, c.wds := b.sign, b.wds;
    forall i | 0 <= i < b.wds {
      c.x[i] := b.x[i];
    }
  }

  // Appends a top word, moving to the next size class when the block is full.
  method AppendWord(b: Bigint, top: ULong) returns (r: Bigint)
    requires b.Ok()
    modifies b, b.x
    ensures r == b || (fresh(r) && fresh(r.x))
    ensures r.Ok() && r.wds == old(b.wds) + 1 && r.sign == old(b.sign)
    ensures r.x[..r.wds] == old(b.x[..b.wds]) + [top]
  {
    r := b;
    if b.wds >= b.maxwds {
      r := new Bigint(b.k + 1);
      assert r.maxwds == 2 * b.maxwds > b.wds;
      Bcopy(r, b);
    }
    r.x[r.wds] := top;
    r.wds := r.wds + 1;
  }

  lemma GrownStaysTrimmed(r: Bigint, wds: nat, value: nat, m: nat, a: nat)
    requires r.Ok() && r.Value() == value * m + a && m > 0
    requires wds <= r.wds <= wds + 1 && (r.wds == wds + 1 ==> r.x[wds] != 0)
    requires wds > 1 ==> Pow(BASE, wds - 1) <= value
    ensures r.Trimmed()
  {
    if r.wds == wds && wds > 1 {
      MulMono(1, m, value);
      TrimmedByValue(r);
    }
  }

  method MultAdd(b: Bigint, m: int, a: int) returns (r: Bigint)
    requires b.Ok()
    requires 0 <= m < 0x8000_0000 && 0 <= a < 0x8000_0000
    requires b.wds == 0 ==> a == 0
    modifies b, b.x
    ensures r == b || (fresh(r) && fresh(r.x))
    ensures r.Ok() && r.Value() == old(b.Value()) * m + a
    ensures old(b.wds) <= r.wds && r.sign == old(b.sign)
    ensures m > 0 && old(b.Trimmed()) ==> r.Trimmed()
  {
    ghost var value, wds, trimmed := b.Value(), b.wds, b.Trimmed();
    if trimmed {
      TrimmedValue(b);
    }
    // The loop of the source runs at least once, so a number without words still has its first slot visited.
    var n := if b.wds == 0 then 1 else b.wds;
    if b.wds == 0 {
      ValZeros(b.x[..1]);
    }
    var carry := TimesPlus(b.x, n, m, a);
    r := b;
    if b.wds == 0 {
      NoWords(b.x, carry);
    }
    if carry != 0 {
      ValConcat(b.x[..b.wds], [carry]);
      ValOne(carry);
      r := AppendWord(b, carry);
    }
    if m > 0 && trimmed {
      GrownStaysTrimmed(r, wds, value, m, a);
    }
  }

  // A number without words, multiplied, keeps a zero in its first slot and produces no carry.
  lemma NoWords(x: array<ULong>, carry: ULong)
    requires x.Length > 0 && Val(x[..1]) + Pow(BASE, 1) * carry == 0
    ensures x[0] == 0 && carry == 0
  {
    assert x[..1] == [x[0]];
    ValOne(x[0]);
  }

  method I2b(i: ULong) returns (b: Bigint)
    ensures fresh(b) && fresh(b.x)
    ensures b.Ok() && b.Trimmed() && b.wds == 1 && b.sign == 0 && b.Value() == i
  {
    b := new Bigint(1);
    assert b.maxwds == 2;
    b.x[0] := i;
    b.wds := 1;
    assert b.x[..1] == [i];
    ValOne(i);
  }

  // ---- add one ----

  // One word raised by one, or run over to zero.
  lemma {:induction false} WordUp(s: seq<ULong>, i: nat)
    requires i < |s|
    ensures s[i] < 0xFFFF_FFFF ==> Val(s[i := s[i] + 1]) == Val(s) + Pow(BASE, i)
    ensures s[i] == 0xFFFF_FFFF ==> Val(s[i := 0]) + Pow(BASE, i + 1) == Val(s) + Pow(BASE, i)
  {
    if i == 0 {
      if s[0] < 0xFFFF_FFFF { assert s[0 := s[0] + 1][1..] == s[1..]; }
      assert s[0 := 0][1..] == s[1..];
    } else {
      WordUp(s[1..], i - 1);
      if s[i] < 0xFFFF_FFFF { assert s[i := s[i] + 1][1..] == s[1..][i - 1 := s[i] + 1]; }
      assert s[i := 0][1..] == s[1..][i - 1 := 0];
    }
  }

  // Raises the lowest word that is not all ones; the words below it become zero. True when every word ran over.
  method RippleUp(x: array<ULong>, n: nat) returns (over: bool)
    requires n <= x.Length
    modifies x
    ensures over ==> forall j :: 0 <= j < n ==> x[j] == 0
    ensures Val(x[..n]) + (if over then Pow(BASE, n) else 0) == Val(old(x[..n])) + 1
  {
    ghost var value := Val(x[..n]);
    var i := 0;
    while i < n
      invariant i <= n && forall j :: 0 <= j < i ==> x[j] == 0
      invariant Val(x[..n]) + Pow(BASE, i) == value + 1
    {
      WordUp(x[..n], i);
      ghost var s := x[..n];
      if x[i] < 0xFFFF_FFFF {
        x[i] := x[i] + 1;
        assert x[..n] == s[i := s[i] + 1];
        return false;
      }
      x[i] := 0;
      assert x[..n] == s[i := 0];
      i := i + 1;
    }
    over := true;
  }

  // A one above words that all ran over.
  method AppendOne(b: Bigint) returns (r: Bigint)
    requires b.Ok() && b.wds >= 1 && forall i :: 0 <= i < b.wds ==> b.x[i] == 0
    modifies b, b.x
    ensures r == b || (fresh(r) && fresh(r.x))
    ensures r.Ok() && r.Trimmed() && r.Value() == Pow(BASE, old(b.wds)) && r.sign == old(b.sign)
  {
    ghost var zeros := b.x[..b.wds];
    ValZeros(zeros);
    ValConcat(zeros, [1]);
    ValOne(1);
    r := AppendWord(b, 1);
    assert r.x[..r.wds][r.wds - 1] == 1;
  }

  method Increment(b: Bigint) returns (r: Bigint)
    requires b.Ok() && b.wds >= 1
    modifies b, b.x
    ensures r == b || (fresh(r) && fresh(r.x))
    ensures r.Ok() && r.Value() == old(b.Value()) + 1 && r.sign == old(b.sign)
    ensures old(b.Trimmed()) ==> r.Trimmed()
  {
    ghost var wds, value, trimmed := b.wds, b.Value(), b.Trimmed();
    if trimmed {
      TrimmedValue(b);
    }
    r := b;
    var over := RippleUp(b.x, b.wds);
    if over {
      ValZeros(b.x[..b.wds]);
      r := AppendOne(b);
    } else if trimmed {
      TrimmedByValue(b);
    }
  }

  // ---- product ----

  lemma NextRow(a: nat, b: seq<ULong>, j: nat)
    requires j < |b|
    ensures a * Val(b[..j + 1]) == a * Val(b[..j]) + Pow(BASE, j) * (a * b[j])
  {
    var low, p, y := b[..j], Pow(BASE, j), b[j];
    assert Val(b[..j + 1]) == Val(low) + p * y by {
      assert b[..j + 1] == low + [y];
      ValConcat(low, [y]);
      ValOne(y);
    }
    TimesSum(a, Val(low), p, y);
  }

  lemma TimesSum(a: nat, low: nat, p: nat, y: nat)
    ensures a * (low + p * y) == a * low + p * (a * y)
  {
    MulDist(low, p * y, a);
    MulAssoc(p, y, a);
  }

  lemma AddAbove(low: nat, p: nat, u: nat, t: nat, v: nat)
    requires v == u + t
    ensures low + p * v == low + p * u + p * t
  {
    MulDist(u, t, p);
  }

  // An amount added from word j on counts j words higher.
  lemma AddedAbove(c: seq<ULong>, c': seq<ULong>, j: nat, t: nat)
    requires j <= |c| == |c'| && c'[..j] == c[..j]
    requires Val(c'[j..]) == Val(c[j..]) + t
    ensures Val(c') == Val(c) + Pow(BASE, j) * t
  {
    var low, high, high' := c[..j], c[j..], c'[j..];
    assert c == low + high && c' == low + high';
    ValConcat(low, high);
    ValConcat(low, high');
    AddAbove(Val(low), Pow(BASE, j), Val(high), t, Val(high'));
  }

  method ProductWords(a: seq<ULong>, b: seq<ULong>, c: array<ULong>, wc: nat)
    requires wc == |a| + |b| <= c.Length
    requires forall i :: 0 <= i < wc ==> c[i] == 0
    modifies c
    ensures Val(c[..wc]) == Val(a) * Val(b)
  {
    ValZeros(c[..wc]);
    var j := 0;
    while j < |b|
      invariant 0 <= j <= |b|
      invariant forall i :: j + |a| <= i < wc ==> c[i] == 0
      invariant Val(c[..wc]) == Val(a) * Val(b[..j])
    {
      NextRow(Val(a), b, j);
      if b[j] != 0 {
        AddRow(a, b[j], c, j, wc);
      }
      j := j + 1;
    }
    assert b[..j] == b;
  }

  method AddRow(a: seq<ULong>, y: ULong, c: array<ULong>, j: nat, wc: nat)
    requires j + |a| < wc <= c.Length && c[j + |a|] == 0
    modifies c
    ensures forall i :: j + |a| < i < c.Length ==> c[i] == old(c[i])
    ensures Val(c[..wc]) == Val(old(c[..wc])) + Pow(BASE, j) * (Val(a) * y)
  {
    ghost var was := c[..wc];
    AddProduct(a, y, c, j, wc);
    assert was[j..] == old(c[j..wc]) && c[..wc][j..] == c[j..wc];
    assert c[..wc][..j] == was[..j];
    AddedAbove(was, c[..wc], j, Val(a) * y);
  }

  // Drops leading zero words.
  method TopWord(c: array<ULong>, n: nat) returns (w: nat)
    requires n <= c.Length
    ensures w <= n && (w > 0 ==> c[w - 1] != 0)
    ensures Val(c[..w]) == Val(c[..n])
  {
    w := n;
    while w > 0 && c[w - 1] == 0
      invariant w <= n && forall i :: w <= i < n ==> c[i] == 0
    {
      w := w - 1;
    }
    ValTrim(c[..n], w);
    assert c[..n][..w] == c[..w];
  }

  // A new block whose first n words are zero.
  method Zeroed(k: nat, n: nat) returns (c: Bigint)
    requires n <= Pow(2, k)
    ensures fresh(c) && fresh(c.x) && c.k == k && c.Shape() && c.sign == 0
    ensures forall i :: 0 <= i < n ==> c.x[i] == 0
  {
    c := new Bigint(k);
    forall i | 0 <= i < n {
      c.x[i] := 0;
    }
  }

  lemma Capacity(k: nat, wa: nat, wb: nat)
    requires wb <= wa <= Pow(2, k)
    ensures wa + wb <= Pow(2, if wa + wb > Pow(2, k) then k + 1 else k)
  {}

  method MultLonger(a: Bigint, b: Bigint) returns (c: Bigint)
    requires a.Ok() && b.Ok() && a.wds >= b.wds && a.wds >= 1
    ensures fresh(c) && fresh(c.x)
    ensures c.Ok() && c.Trimmed() && c.Value() == a.Value() * b.Value() && c.sign == 0
  {
    var k, wc := a.k, a.wds + b.wds;
    Capacity(k, a.wds, b.wds);
    if wc > a.maxwds {
      k := k + 1;
    }
    ghost var av, bv := a.x[..a.wds], b.x[..b.wds];
    c := Zeroed(k, wc);
    ProductWords(a.x[..a.wds], b.x[..b.wds], c.x, wc);
    ghost var product := Val(av) * Val(bv);
    assert Val(c.x[..wc]) == product;
    var w := TopWord(c.x, wc);
    c.wds := w;
    if w == 0 {
      ValZeroFirst(c.x[..wc]);
    }
  }

  // With no words at all in either factor the source would leave the first word of the product unset.
  method Mult(a: Bigint, b: Bigint) returns (c: Bigint)
    requires a.Ok() && b.Ok() && (a.wds >= 1 || b.wds >= 1)
    ensures fresh(c) && fresh(c.x)
    ensures c.Ok() && c.Trimmed() && c.Value() == a.Value() * b.Value() && c.sign == 0
  {
    if a.wds < b.wds {
      c := MultLonger(b, a);
    } else {
      c := MultLonger(a, b);
    }
  }

  lemma ValZeroFirst(s: seq<ULong>)
    requires s != [] && Val(s) == 0
    ensures s[0] == 0
  {}

  // ---- shift left ----

  // n zero words below a number: its value shifted left by 32 n.
  lemma ZerosBelow(s: seq<ULong>, n: nat, v: nat, k: nat, r: seq<ULong>)
    requires n <= |r| && r[n..] == s && Val(s) == Shl(v, k)
    requires forall i :: 0 <= i < n ==> r[i] == 0
    ensures Val(r) == Shl(v, k + 32 * n)
  {
    assert r == r[..n] + s;
    ValConcat(r[..n], s);
    ValZeros(r[..n]);
    ShlAdd(v, k, 32 * n);
    ShlWords(Shl(v, k), n);
  }

  // The block size is doubled until the shifted number fits.
  method ClassFor(b: Bigint, n1: nat) returns (k1: nat)
    requires b.Shape()
    ensures n1 <= Pow(2, k1)
  {
    k1 := b.k;
    var i := b.maxwds;
    while n1 > i
      invariant i == Pow(2, k1)
      decreases n1 - i
    {
      i, k1 := 2 * i, k1 + 1;
    }
  }

  // Copies the words n places up, shifted by the rest of the count; z is the word shifted out at the top.
  method PlaceShifted(s: seq<ULong>, c: array<ULong>, n: nat, low: nat) returns (z: ULong)
    requires n + |s| < c.Length && low < 32
    modifies c
    ensures forall i :: 0 <= i < n ==> c[i] == old(c[i])
    ensures Val(c[n..n + |s|] + [z]) == Shl(Val(s), low)
    ensures z != 0 ==> c[n + |s|] == z
  {
    z := 0;
    if low != 0 {
      ShlIsPow(Val(s), low);
      z := ShiftedUp(s, c, n, low);
      ghost var body := c[n..n + |s|];
      c[n + |s|] := z;
      assert c[n..n + |s|] == body;
    } else {
      forall i | 0 <= i < |s| {
        c[n + i] := s[i];
      }
      assert c[n..n + |s|] == s;
      ValConcat(s, [0]);
      ValOne(0);
    }
  }

  method Lshift(b: Bigint, k: nat) returns (r: Bigint)
    requires b.Ok() && b.wds >= 1
    ensures fresh(r) && fresh(r.x)
    ensures r.Ok() && r.Value() == Shl(b.Value(), k) && r.sign == 0 && r.wds >= 1
    ensures b.Trimmed() && b.Value() > 0 ==> r.Trimmed()
  {
    var n, low := k / 32, k % 32;
    var n1 := n + b.wds + 1;
    var k1 := ClassFor(b, n1);
    r := Zeroed(k1, n);
    var z := PlaceShifted(b.x[..b.wds], r.x, n, low);
    if z != 0 {
      n1 := n1 + 1;
    }
    r.wds := n1 - 1;
    ShiftedValue(b, r, n, low, z, k);
  }

  lemma ShiftedValue(b: Bigint, r: Bigint, n: nat, low: nat, z: ULong, k: nat)
    requires b.Ok() && b.wds >= 1 && r.Ok() && low < 32 && k == low + 32 * n
    requires r.wds == n + b.wds + (if z != 0 then 1 else 0)
    requires forall i :: 0 <= i < n ==> r.x[i] == 0
    requires Val(r.x[n..n + b.wds] + [z]) == Shl(b.Value(), low)
    requires z != 0 ==> r.x[n + b.wds] == z
    ensures r.Value() == Shl(b.Value(), k)
    ensures b.Trimmed() && b.Value() > 0 ==> r.Trimmed()
  {
    var body, top := r.x[n..n + b.wds], r.x[..r.wds];
    if z == 0 {
      ValTrim(body + [z], |body|);
      assert (body + [z])[..|body|] == body;
      assert top[n..] == body;
    } else {
      assert top[n..] == body + [z];
    }
    forall i | 0 <= i < n ensures top[i] == 0 { assert r.x[i] == 0; }
    ZerosBelow(top[n..], n, b.Value(), low, top);
    if b.Trimmed() && b.Value() > 0 && z == 0 && r.wds > 1 {
      ShiftKeepsTop(b, r, low, n);
    }
  }

  lemma ShiftKeepsTop(b: Bigint, r: Bigint, low: nat, n: nat)
    requires b.Ok() && r.Ok() && b.Trimmed() && b.wds >= 1 && b.Value() > 0
    requires r.wds == n + b.wds && r.Value() == Shl(b.Value(), low + 32 * n)
    ensures r.Trimmed()
  {
    TrimmedValue(b);
    var least := if b.wds > 1 then Pow(BASE, b.wds - 1) else 1;
    ShlOrder(b.Value(), least, 32 * n);
    ShlGrows(b.Value(), 32 * n, low + 32 * n);
    ShlWords(least, n);
    PowAdd(BASE, n, b.wds - 1);
    TrimmedByValue(r);
  }

  // ---- compare ----

  // Numbers of different length compare by length, unless both are zero.
  lemma LongerIsLarger(a: Bigint, b: Bigint)
    requires a.Ok() && b.Ok() && a.Trimmed() && b.Trimmed() && a.wds < b.wds
    ensures a.Value() < b.Value() || (a.Value() == b.Value() == 0 && a.wds == 0 && b.wds == 1)
  {
    TrimmedValue(a);
    TrimmedValue(b);
    if b.wds > 1 {
      PowMono(BASE, a.wds, b.wds - 1);
    }
  }

  // The sign of the result is the sign of a - b, except that a zero without words counts as less than
  // a zero of one word. The source would read before the words if both numbers had none.
  method Cmp(a: Bigint, b: Bigint) returns (r: int)
    requires a.Ok() && b.Ok() && a.Trimmed() && b.Trimmed()
    requires a.wds > 0 || b.wds > 0
    ensures a.Value() < b.Value() ==> r < 0
    ensures a.Value() > b.Value() ==> r > 0
    ensures a.Value() == b.Value() ==> (a.Value() > 0 ==> r == 0) && r == a.wds - b.wds
  {
    if a.wds != b.wds {
      if a.wds < b.wds { LongerIsLarger(a, b); } else { LongerIsLarger(b, a); }
      return a.wds - b.wds;
    }
    var i := a.wds;
    while true
      invariant 0 < i <= a.wds
      invariant a.x[i..a.wds] == b.x[i..a.wds]
      decreases i
    {
      i := i - 1;
      if a.x[i] != b.x[i] {
        var s, t := a.x[..a.wds], b.x[..b.wds];
        assert s[i + 1..] == a.x[i + 1..a.wds] && t[i + 1..] == b.x[i + 1..a.wds];
        if a.x[i] < b.x[i] { ValDiffer(s, t, i); return -1; }
        ValDiffer(t, s, i);
        return 1;
      }
      assert a.x[i..a.wds] == [a.x[i]] + a.x[i + 1..a.wds];
      assert b.x[i..a.wds] == [b.x[i]] + b.x[i + 1..a.wds];
      if i <= 0 {
        break;
      }
    }
    return 0;
  }

  // ---- difference ----

  method Subtract(a: Bigint, b: Bigint, sign: int) returns (c: Bigint)
    requires a.Ok() && b.Ok() && b.wds <= a.wds && b.Value() < a.Value()
    ensures fresh(c) && fresh(c.x)
    ensures c.Ok() && c.Trimmed() && c.wds >= 1
    ensures c.sign == sign && c.Value() == a.Value() - b.Value()
  {
    c := new Bigint(a.k);
    c.sign := sign;
    Difference(a.x[..a.wds], b.x[..b.wds], c.x);
    var wa := TopWord(c.x, a.wds);
    c.wds := wa;
  }

  // The absolute difference, with the sign of a - b.
  method Diff(a: Bigint, b: Bigint) returns (c: Bigint)
    requires a.Ok() && b.Ok() && a.Trimmed() && b.Trimmed() && a.wds >= 1 && b.wds >= 1
    ensures fresh(c) && fresh(c.x)
    ensures c.Ok() && c.Trimmed() && c.wds >= 1
    ensures c.sign == if a.Value() < b.Value() then 1 else 0
    ensures c.Value() == if a.Value() < b.Value() then b.Value() - a.Value() else a.Value() - b.Value()
  {
    TrimmedValue(a);
    TrimmedValue(b);
    var i := Cmp(a, b);
    if i == 0 {
      c := I2b0();
      return;
    }
    if i < 0 {
      if b.wds < a.wds { LongerIsLarger(b, a); }
      c := Subtract(b, a, 1);
    } else {
      if a.wds < b.wds { LongerIsLarger(a, b); }
      c := Subtract(a, b, 0);
    }
  }

  method I2b0() returns (c: Bigint)
    ensures fresh(c) && fresh(c.x)
    ensures c.Ok() && c.Trimmed() && c.wds == 1 && c.sign == 0 && c.Value() == 0
  {
    c := new Bigint(0);
    c.wds := 1;
    c.x[0] := 0;
    assert c.x[..1] == [0];
    ValOne(0);
  }
}

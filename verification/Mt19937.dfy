/**
 * The 64-bit Mersenne Twister: a table refilled in place, 312 words at a time, yields the one-line recurrence of
 * section 26.5.3.2 of ISO/IEC 14882:2011, tempered.
 */
module Mt19937 {

  const NN: nat := 312
  const MM: nat := 156

  // ---- the word operations ----

  const MATRIX_A: bv64 := 0xB5026F5AA96619E9
  const UM: bv64 := 0xFFFF_FFFF_8000_0000
  const LM: bv64 := 0x7FFF_FFFF

  function Twist(u: bv64, l: bv64): bv64 {
    var x := (u & UM) | (l & LM);
    (x >> 1) ^ (if x & 1 == 1 then MATRIX_A else 0)
  }

  function NextSeed(previous: bv64, i: nat): bv64 {
    Scale(Fold(previous), if i < NN then i as bv64 else 0)
  }

  function Fold(x: bv64): bv64 {
    x ^ (x >> 62)
  }

  function Scale(x: bv64, i: bv64): bv64 {
    6364136223846793005 * x + i
  }

  function Temper(x: bv64): bv64 {
    Temper43(Temper37(Temper17(Temper29(x))))
  }

  function Temper29(x: bv64): bv64 {
    x ^ ((x >> 29) & 0x5555_5555_5555_5555)
  }

  function Temper17(x: bv64): bv64 {
    x ^ ((x << 17) & 0x71D6_7FFF_EDA6_0000)
  }

  function Temper37(x: bv64): bv64 {
    x ^ ((x << 37) & 0xFFF7_EEE0_0000_0000)
  }

  function Temper43(x: bv64): bv64 {
    x ^ (x >> 43)
  }

  // ---- what the word operations lose: nothing but the bits the twist leaves out ----

  function Untemper(y: bv64): bv64 {
    Undo29(Undo17(Temper37(Temper43(y))))
  }

  function Undo17(y: bv64): bv64 {
    var a := y ^ ((y << 17) & 0x71D6_7FFF_EDA6_0000);
    var b := y ^ ((a << 17) & 0x71D6_7FFF_EDA6_0000);
    y ^ ((b << 17) & 0x71D6_7FFF_EDA6_0000)
  }

  function Undo29(y: bv64): bv64 {
    var a := y ^ ((y >> 29) & 0x5555_5555_5555_5555);
    y ^ ((a >> 29) & 0x5555_5555_5555_5555)
  }

  lemma Undone43(x: bv64)
    ensures Temper43(Temper43(x)) == x
  {
    Bits43(x);
    assert Temper43(x) == x ^ (x >> 43);
  }

  lemma Bits43(x: bv64)
    ensures Temper43(x ^ (x >> 43)) == x
  {}

  lemma Undone37(x: bv64)
    ensures Temper37(Temper37(x)) == x
  {}

  lemma Undone17(x: bv64)
    ensures Undo17(Temper17(x)) == x
  {
    Bits17(x);
    assert Temper17(x) == x ^ ((x << 17) & 0x71D6_7FFF_EDA6_0000);
  }

  lemma Bits17(x: bv64)
    ensures Undo17(x ^ ((x << 17) & 0x71D6_7FFF_EDA6_0000)) == x
  {}

  lemma Undone29(x: bv64)
    ensures Undo29(Temper29(x)) == x
  {
    Bits29(x);
    assert Temper29(x) == x ^ ((x >> 29) & 0x5555_5555_5555_5555);
  }

  lemma Bits29(x: bv64)
    ensures Undo29(x ^ ((x >> 29) & 0x5555_5555_5555_5555)) == x
  {}

  // Tempering can be undone, so different terms give different words.
  lemma TemperInverse(x: bv64)
    ensures Untemper(Temper(x)) == x
  {
    Undone43(Temper37(Temper17(Temper29(x))));
    Undone37(Temper17(Temper29(x)));
    Undone17(Temper29(x));
    Undone29(x);
  }

  // A seed step can be undone: the multiplier has an inverse modulo 2^64, and the shift does not touch the bits it is
  // taken from.
  function Unseed(y: bv64, i: bv64): bv64 {
    Fold(Unscale(y, i))
  }

  function Unscale(y: bv64, i: bv64): bv64 {
    (y - i) * 13877824140714322085
  }

  lemma Folded(x: bv64)
    ensures Fold(Fold(x)) == x
  {
    FoldedBits(x);
    assert Fold(x) == x ^ (x >> 62);
  }

  lemma FoldedBits(x: bv64)
    ensures Fold(x ^ (x >> 62)) == x
  {}

  lemma Unscaled(x: bv64, i: bv64)
    ensures Unscale(Scale(x, i), i) == x
  {
    UnscaledBits(x, i);
    assert Scale(x, i) == 6364136223846793005 * x + i;
  }

  lemma UnscaledBits(x: bv64, i: bv64)
    ensures Unscale(6364136223846793005 * x + i, i) == x
  {}

  lemma SeedInverse(previous: bv64, i: nat)
    requires i < NN
    ensures Unseed(NextSeed(previous, i), i as bv64) == previous
  {
    Folded(previous);
    Unscaled(Fold(previous), i as bv64);
  }

  function Untwist(y: bv64): bv64 {
    if y >> 63 == 1 then ((y ^ MATRIX_A) << 1) | 1 else y << 1
  }

  // The twist can be undone: its top bit tells whether the matrix was added.
  lemma TwistInverse(u: bv64, l: bv64)
    ensures Untwist(Twist(u, l)) == (u & UM) | (l & LM)
  {}

  // The table work is the same for any words: how a seed continues, how a new word is made from one 156 places on
  // and two neighbours, and how a word is tempered.
  datatype Ops<!W> = Ops(next: (W, nat) -> W, mix: (W, W, W) -> W, temper: W -> W)

  function Mix(far: bv64, u: bv64, l: bv64): bv64 {
    far ^ Twist(u, l)
  }

  const WORDS64: Ops<bv64> := Ops(NextSeed, Mix, Temper)

  // ---- the recurrence ----

  // Term k of the sequence that a seed starts.
  ghost function X<W>(ops: Ops<W>, seed: W, k: nat): W {
    if k == 0 then seed
    else if k < NN then ops.next(X(ops, seed, k - 1), k)
    else ops.mix(X(ops, seed, k - MM), X(ops, seed, k - NN), X(ops, seed, k - NN + 1))
  }

  // For 64-bit words this is the recurrence of the standard.
  lemma Recurrence64(seed: bv64, k: nat)
    ensures X(WORDS64, seed, 0) == seed
    ensures 0 < k < NN ==> X(WORDS64, seed, k) == NextSeed(X(WORDS64, seed, k - 1), k)
    ensures X(WORDS64, seed, k + NN) == Mix(X(WORDS64, seed, k + MM), X(WORDS64, seed, k), X(WORDS64, seed, k + 1))
  {
    assert k + NN - MM == k + MM && k + NN - NN == k && k + NN - NN + 1 == k + 1;
  }

  // ---- refilling in place ----

  // One word replaced; the neighbours it is made from may be old or new.
  function Replaced<W>(ops: Ops<W>, t: seq<W>, i: nat): (r: seq<W>)
    requires |t| == NN && i < NN
    ensures |r| == NN
  {
    var far, next := if i + MM < NN then i + MM else i + MM - NN, if i + 1 < NN then i + 1 else 0;
    t[i := ops.mix(t[far], t[i], t[next])]
  }

  ghost function RefilledTo<W>(ops: Ops<W>, t: seq<W>, n: nat): (r: seq<W>)
    requires |t| == NN && n <= NN
    ensures |r| == NN
  {
    if n == 0 then t else Replaced(ops, RefilledTo(ops, t, n - 1), n - 1)
  }

  // The table holds 312 consecutive terms, from term k on.
  ghost predicate HoldsFrom<W>(ops: Ops<W>, t: seq<W>, seed: W, k: nat) {
    |t| == NN && forall i :: 0 <= i < NN ==> t[i] == X(ops, seed, k + i)
  }

  // Halfway through, the words below n are 312 terms further on.
  ghost predicate HalfRefilled<W>(ops: Ops<W>, t: seq<W>, seed: W, k: nat, n: nat) {
    |t| == NN && forall i :: 0 <= i < NN ==> t[i] == X(ops, seed, if i < n then k + NN + i else k + i)
  }

  lemma WordAdvances<W>(ops: Ops<W>, t: seq<W>, seed: W, k: nat, i: nat)
    requires HalfRefilled(ops, t, seed, k, i) && i < NN
    ensures HalfRefilled(ops, Replaced(ops, t, i), seed, k, i + 1)
  {
    var far, next := if i + MM < NN then i + MM else i + MM - NN, if i + 1 < NN then i + 1 else 0;
    var n := k + NN + i;
    assert t[far] == X(ops, seed, n - MM) && t[i] == X(ops, seed, n - NN) && t[next] == X(ops, seed, n - NN + 1);
    assert X(ops, seed, n) == ops.mix(t[far], t[i], t[next]);
  }

  lemma {:induction false} RefillAdvances<W>(ops: Ops<W>, t: seq<W>, seed: W, k: nat, n: nat)
    requires HoldsFrom(ops, t, seed, k) && n <= NN
    ensures HalfRefilled(ops, RefilledTo(ops, t, n), seed, k, n)
  {
    if n > 0 {
      RefillAdvances(ops, t, seed, k, n - 1);
      WordAdvances(ops, RefilledTo(ops, t, n - 1), seed, k, n - 1);
    }
  }

  // A full refill moves the table 312 terms on.
  lemma RefillIsRecurrence<W>(ops: Ops<W>, t: seq<W>, seed: W, k: nat)
    requires HoldsFrom(ops, t, seed, k)
    ensures HoldsFrom(ops, RefilledTo(ops, t, NN), seed, k + NN)
  {
    RefillAdvances(ops, t, seed, k, NN);
  }

  // ---- the generator ----

  // Fills the table with the first terms.
  method Start<W>(ops: Ops<W>, mt: array<W>, seed: W)
    requires mt.Length == NN
    modifies mt
    ensures HoldsFrom(ops, mt[..], seed, 0)
  {
    mt[0] := seed;
    var i := 1;
    while i < NN
      invariant 1 <= i <= NN && forall j :: 0 <= j < i ==> mt[j] == X(ops, seed, j)
    {
      var x := ops.next(mt[i - 1], i);
      assert x == X(ops, seed, i);
      mt[i] := x;
      i := i + 1;
    }
  }

  class Generator<W(0)> {
    const ops: Ops<W>
    const mt: array<W>
    var mti: nat
    ghost const seed: W
    ghost var calls: nat  // how often the generator has been called

    // The word at the cursor is the one the next call tempers, unless the table is used up.
    ghost predicate Valid()
      reads this, mt
    {
      mt.Length == NN && mti <= NN && mti <= calls + NN && HoldsFrom(ops, mt[..], seed, calls + NN - mti)
    }

    constructor (ops: Ops<W>, seed: W)
      ensures Valid() && this.ops == ops && this.seed == seed && calls == 0 && fresh(mt)
    {
      this.ops, this.seed := ops, seed;
      mti, calls := NN, 0;
      mt := new W[NN];
      new;
      Start(ops, mt, seed);
    }

    // Three loops: words made from old ones only, words whose far neighbour is new, and the last, whose next
    // neighbour is new as well.
    method Refill()
      requires mt.Length == NN
      modifies mt
      ensures mt[..] == RefilledTo(ops, old(mt[..]), NN)
    {
      var i := 0;
      while i < NN - MM
        invariant i <= NN - MM && mt[..] == RefilledTo(ops, old(mt[..]), i)
      {
        mt[i] := ops.mix(mt[i + MM], mt[i], mt[i + 1]);
        i := i + 1;
      }
      while i < NN - 1
        invariant NN - MM <= i <= NN - 1 && mt[..] == RefilledTo(ops, old(mt[..]), i)
      {
        mt[i] := ops.mix(mt[i + MM - NN], mt[i], mt[i + 1]);
        i := i + 1;
      }
      mt[NN - 1] := ops.mix(mt[MM - 1], mt[NN - 1], mt[0]);
    }

    // Call n, counted from zero, returns the tempering of term n + 312.
    method Next() returns (x: W)
      requires Valid()
      modifies `mti, `calls, mt
      ensures Valid() && calls == old(calls) + 1
      ensures x == ops.temper(X(ops, seed, old(calls) + NN))
    {
      if mti >= NN {
        RefillIsRecurrence(ops, mt[..], seed, calls);
        Refill();
        mti := 0;
      }
      x := ops.temper(mt[mti]);
      mti, calls := mti + 1, calls + 1;
    }
  }

  lemma TemperIs(x: bv64)
    ensures WORDS64.temper(x) == Temper(x)
  {}

  // The generator of the source: n calls on a fresh generator give the tempered terms 312 to 311 + n of the recurrence.
  method Calls64(seed: bv64, n: nat) returns (words: seq<bv64>)
    ensures |words| == n && forall i :: 0 <= i < n ==> words[i] == Temper(X(WORDS64, seed, i + NN))
  {
    var ops := WORDS64;
    var g := new Generator<bv64>(ops, seed);
    words := Calls(g, n);
    forall i | 0 <= i < n
      ensures words[i] == Temper(X(WORDS64, seed, i + NN))
    {
      TemperIs(X(WORDS64, seed, i + NN));
    }
  }

  method Calls<W(0)>(g: Generator<W>, n: nat) returns (words: seq<W>)
    requires g.Valid() && g.calls == 0
    modifies g, g.mt
    ensures |words| == n && forall i :: 0 <= i < n ==> words[i] == g.ops.temper(X(g.ops, g.seed, i + NN))
  {
    words := [];
    while |words| < n
      invariant g.Valid() && g.calls == |words| <= n
      invariant forall i :: 0 <= i < |words| ==> words[i] == g.ops.temper(X(g.ops, g.seed, i + NN))
    {
      var x := g.Next();
      words := words + [x];
    }
  }
}

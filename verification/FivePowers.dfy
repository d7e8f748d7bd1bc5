/** Multiplication by a power of five through the lazily built chain 5^4, 5^8, 5^16, ... */
module FivePowers {
  import opened Powers
  import opened BigInts
  import opened BigArith

  // Node i of the chain is worth this many factors of five.
  ghost function Factors(i: nat): nat {
    if i == 0 then 4 else 2 * Factors(i - 1)
  }

  ghost function FiveTo(i: nat): nat {
    Fives(1, Factors(i))
  }

  class MemInfo {
    var p5s: seq<Bigint>
    ghost var owned: set<object>  // the nodes and their words

    constructor ()
      ensures Valid() && p5s == [] && owned == {}
    {
      p5s, owned := [], {};
    }

    ghost predicate Valid()
      reads this, owned
    {
      forall i :: 0 <= i < |p5s| ==>
        p5s[i] in owned && p5s[i].x in owned && p5s[i].Ok() && p5s[i].Trimmed() && p5s[i].Value() == FiveTo(i)
    }

    // The number is not a node of the chain and shares no words with one.
    ghost predicate Outside(b: Bigint)
      reads this
    {
      b !in owned && b.x !in owned
    }

    // Node i, added to the chain when it is reached for the first time.
    method Node(i: nat) returns (p5: Bigint)
      requires Valid() && i <= |p5s|
      modifies this
      ensures Valid() && i < |p5s| && p5 == p5s[i]
      ensures |p5s| >= |old(p5s)|
      ensures fresh(owned - old(owned))
    {
      if i == |p5s| {
        if i == 0 {
          p5 := I2b(625);
          SmallFives(1, 3);
          assert FiveTo(0) == 5 * Fives(1, 3);
        } else {
          p5 := p5s[i - 1];
          FivesPositive(1, Factors(i - 1));
          p5 := Mult(p5, p5);
          NextNode(i - 1);
        }
        p5s, owned := p5s + [p5], owned + {p5, p5.x};
      } else {
        p5 := p5s[i];
      }
    }
  }

  // The chain is the sequence 5^4, 5^8, 5^16, ...
  lemma {:induction false} FactorsIsPow(i: nat)
    ensures Factors(i) == 4 * Pow(2, i) && FiveTo(i) == Pow(5, 4 * Pow(2, i))
  {
    if i > 0 { FactorsIsPow(i - 1); }
    FivesIsPow(1, Factors(i));
  }

  // Multiplying by five to the k adds k factors of five.
  lemma TimesFives(v: nat, k: nat)
    ensures v * Fives(1, k) == Fives(v, k)
  {
    FivesIsPow(1, k);
    FivesIsPow(v, k);
  }

  lemma NextNode(i: nat)
    ensures FiveTo(i + 1) == FiveTo(i) * FiveTo(i)
  {
    TimesFives(FiveTo(i), Factors(i));
    FivesAdd(1, Factors(i), Factors(i));
  }

  // What the walk along the chain multiplies v by, from node i on, for the binary digits of k.
  ghost function Walk(v: nat, i: nat, k: nat): nat
    requires k > 0
    decreases k
  {
    var v' := if k % 2 == 1 then Fives(v, Factors(i)) else v;
    if k / 2 == 0 then v' else Walk(v', i + 1, k / 2)
  }

  // The number of factors of five the walk adds.
  ghost function WalkFactors(i: nat, k: nat): nat
    requires k > 0
    decreases k
  {
    (if k % 2 == 1 then Factors(i) else 0) + (if k / 2 == 0 then 0 else WalkFactors(i + 1, k / 2))
  }

  lemma {:induction false} WalkDoubles(i: nat, k: nat)
    requires k > 0
    ensures WalkFactors(i + 1, k) == 2 * WalkFactors(i, k)
    decreases k
  {
    if k / 2 > 0 { WalkDoubles(i + 1, k / 2); }
  }

  lemma {:induction false} WalkCounts(k: nat)
    requires k > 0
    ensures WalkFactors(0, k) == 4 * k
  {
    if k / 2 > 0 {
      WalkDoubles(0, k / 2);
      WalkCounts(k / 2);
    }
  }

  lemma {:induction false} WalkIsFives(v: nat, i: nat, k: nat)
    requires k > 0
    ensures Walk(v, i, k) == Fives(v, WalkFactors(i, k))
    decreases k
  {
    var v' := if k % 2 == 1 then Fives(v, Factors(i)) else v;
    if k / 2 > 0 {
      WalkIsFives(v', i + 1, k / 2);
      FivesAdd(v, Factors(i), WalkFactors(i + 1, k / 2));
    }
  }

  function P05(i: nat): nat {
    if i == 0 then 1 else if i == 1 then 5 else if i == 2 then 25 else 125
  }

  lemma SmallFives(v: nat, i: nat)
    requires i < 4
    ensures v * P05(i) == Fives(v, i)
  {
    assert Fives(v, 1) == 5 * v && Fives(v, 2) == 5 * Fives(v, 1) && Fives(v, 3) == 5 * Fives(v, 2);
  }

  method Pow5Mult(mem: MemInfo, b: Bigint, k: nat) returns (r: Bigint)
    requires mem.Valid() && mem.Outside(b)
    requires b.Ok() && b.Trimmed() && b.Value() > 0
    modifies mem, b, b.x
    ensures mem.Valid()
    ensures fresh(mem.owned - old(mem.owned))
    ensures mem.Outside(r) && (r == b || (fresh(r) && fresh(r.x)))
    ensures r.Ok() && r.Trimmed() && r.Value() == Fives(old(b.Value()), k)
  {
    r := SmallMult(mem, b, k % 4);
    ghost var small := r.Value();
    if k / 4 != 0 {
      r := PowChain(mem, r, k / 4);
      WalkIsFives(small, 0, k / 4);
      WalkCounts(k / 4);
    }
    FivesAdd(old(b.Value()), k % 4, 4 * (k / 4));
  }

  method SmallMult(mem: MemInfo, b: Bigint, i: nat) returns (r: Bigint)
    requires mem.Valid() && mem.Outside(b) && i < 4
    requires b.Ok() && b.Trimmed() && b.Value() > 0
    modifies b, b.x
    ensures mem.Valid() && mem.Outside(r) && (r == b || (fresh(r) && fresh(r.x)))
    ensures r.Ok() && r.Trimmed() && r.Value() == Fives(old(b.Value()), i) && r.Value() > 0
  {
    r := b;
    SmallFives(b.Value(), i);
    FivesPositive(b.Value(), i);
    if i != 0 {
      r := MultAdd(b, P05(i), 0);
    }
  }

  lemma {:induction false} FivesPositive(v: nat, k: nat)
    requires v > 0
    ensures Fives(v, k) > 0
  {
    if k > 0 { FivesPositive(v, k - 1); }
  }

  // Multiplies by node i when the last binary digit of k is one.
  method MultNode(b: Bigint, p5: Bigint, i: nat, k: nat) returns (r: Bigint)
    requires b.Ok() && b.Trimmed() && b.Value() > 0
    requires p5.Ok() && p5.Value() == FiveTo(i) && k > 0
    ensures r == b || (fresh(r) && fresh(r.x))
    ensures r.Ok() && r.Trimmed() && r.Value() > 0
    ensures Walk(b.Value(), i, k) == if k / 2 == 0 then r.Value() else Walk(r.Value(), i + 1, k / 2)
  {
    r := b;
    if k % 2 == 1 {
      TimesFives(b.Value(), Factors(i));
      FivesPositive(b.Value(), Factors(i));
      FivesPositive(1, Factors(i));
      r := Mult(b, p5);
    }
  }

  // One step of the walk: reach node i, building it if needed, and multiply by it if the last digit of k is one.
  method ChainStep(mem: MemInfo, b: Bigint, i: nat, k: nat) returns (r: Bigint)
    requires mem.Valid() && mem.Outside(b) && i <= |mem.p5s|
    requires b.Ok() && b.Trimmed() && b.Value() > 0 && k > 0
    modifies mem
    ensures mem.Valid() && i < |mem.p5s| && fresh(mem.owned - old(mem.owned))
    ensures mem.Outside(r) && (r == b || (fresh(r) && fresh(r.x)))
    ensures r.Ok() && r.Trimmed() && r.Value() > 0
    ensures Walk(old(b.Value()), i, k) == if k / 2 == 0 then r.Value() else Walk(r.Value(), i + 1, k / 2)
  {
    var p5 := mem.Node(i);
    r := MultNode(b, p5, i, k);
  }

  method PowChain(mem: MemInfo, b: Bigint, k0: nat) returns (r: Bigint)
    requires mem.Valid() && mem.Outside(b)
    requires b.Ok() && b.Trimmed() && b.Value() > 0 && k0 > 0
    modifies mem
    ensures mem.Valid()
    ensures fresh(mem.owned - old(mem.owned))
    ensures mem.Outside(r) && (r == b || (fresh(r) && fresh(r.x)))
    ensures r.Ok() && r.Trimmed() && r.Value() == Walk(old(b.Value()), 0, k0)
  {
    ghost var total := Walk(b.Value(), 0, k0);
    var k, j := k0, 0;
    r := ChainStep(mem, b, 0, k);
    k := k / 2;
    while k != 0
      invariant mem.Valid() && mem.Outside(r)
      invariant fresh(mem.owned - old(mem.owned))
      invariant r == b || (fresh(r) && fresh(r.x))
      invariant r.Ok() && r.Trimmed() && r.Value() > 0
      invariant j < |mem.p5s|
      invariant total == if k == 0 then r.Value() else Walk(r.Value(), j + 1, k)
    {
      j := j + 1;
      r := ChainStep(mem, r, j, k);
      k := k / 2;
    }
  }
}

/** Endpoint pairs of a BC6H block: bit counts, the delta transform and the test that deltas fit their fields. */
module Endpoints {
  import opened Powers
  import opened Bitwise

  datatype INTColor = INTColor(r: int, g: int, b: int)
  datatype EndPntPair = EndPntPair(A: INTColor, B: INTColor)

  // Bits per channel.
  datatype Prec = Prec(r: nat, g: nat, b: nat)

  function Channel(c: INTColor, ch: nat): int {
    if ch == 0 then c.r else if ch == 1 then c.g else c.b
  }

  function Plus(x: INTColor, y: INTColor): INTColor {
    INTColor(x.r + y.r, x.g + y.g, x.b + y.b)
  }

  function Minus(x: INTColor, y: INTColor): INTColor {
    INTColor(x.r - y.r, x.g - y.g, x.b - y.b)
  }

  // ---- numbers in fields of p bits ----

  function Two(p: nat): (t: int)
    ensures t > 0
  {
    Pow(2, p)
  }

  ghost predicate Fits(n: int, signed: bool, p: nat) {
    if signed then n == 0 || (p > 0 && -Two(p - 1) <= n < Two(p - 1)) else 0 <= n < Two(p)
  }

  // How often a number can be halved before it reaches zero, or minus one from below.
  ghost function Halvings(n: int): nat
    decreases if n < 0 then -n else n
  {
    if n == 0 || n == -1 then 0 else 1 + Halvings(n / 2)
  }

  lemma {:induction false} HalvingsFit(n: int, p: nat)
    ensures Halvings(n) <= p <==> -Two(p) <= n < Two(p)
    decreases if n < 0 then -n else n
  {
    if n != 0 && n != -1 && p > 0 {
      HalvingsFit(n / 2, p - 1);
    }
  }

  lemma BitsNeeded(n: int, signed: bool, nb: nat, p: nat)
    requires n < 0 ==> signed
    requires nb == if n == 0 then 0 else Halvings(n) + (if signed then 1 else 0)
    ensures nb <= p <==> Fits(n, signed, p)
  {
    HalvingsFit(n, p);
    if p > 0 { HalvingsFit(n, p - 1); }
  }

  // The number of bits needed to store n: exactly the fields of at least so many bits hold it.
  method NBits(n0: int, bIsSigned: bool) returns (nb: nat)
    requires n0 < 0 ==> bIsSigned
    ensures forall p: nat :: nb <= p <==> Fits(n0, bIsSigned, p)
  {
    var n := n0;
    nb := 0;
    if n > 0 {
      while n != 0
        invariant n >= 0 && nb + Halvings(n) == Halvings(n0)
      {
        n, nb := n / 2, nb + 1;
      }
      nb := nb + if bIsSigned then 1 else 0;
    } else if n < 0 {
      while n < -1
        invariant n < 0 && nb + Halvings(n) == Halvings(n0)
      {
        n, nb := n / 2, nb + 1;
      }
      nb := nb + 1;
    }
    forall p: nat ensures nb <= p <==> Fits(n0, bIsSigned, p) {
      BitsNeeded(n0, bIsSigned, nb, p);
    }
  }

  // The sign bit of an nb-bit field, copied upwards.
  function SignExtend(x: int, nb: nat): int
    requires nb > 0
  {
    if Bit(x, nb - 1) then x - Two(nb) else x
  }

  lemma {:induction false} LowTop(x: int, p: nat)
    requires p > 0
    ensures Low(x, p) == Low(x, p - 1) + (if Bit(x, p - 1) then Two(p - 1) else 0)
    decreases p
  {
    if p > 1 { LowTop(x / 2, p - 1); }
  }

  lemma {:induction false} LowOfFit(x: int, p: nat)
    requires -Two(p) <= x < Two(p)
    ensures Low(x, p) == if x < 0 then x + Two(p) else x
    ensures Bit(x, p) <==> x < 0
    decreases p
  {
    if p > 0 { LowOfFit(x / 2, p - 1); }
  }

  // A number survives a field of p bits exactly when it fits.
  lemma FieldIsLossless(x: int, p: nat)
    requires p > 0
    ensures Fits(x, true, p) <==> SignExtend(Low(x, p), p) == x
    ensures Fits(x, false, p) <==> Low(x, p) == x
  {
    var low := Low(x, p);
    LowBound(x, p);
    BitLow(x, p, p - 1);
    LowTop(x, p);
    LowBound(x, p - 1);
    if Fits(x, true, p) {
      LowOfFit(x, p - 1);
    }
    if Fits(x, false, p) {
      LowOfSmall(x, p);
    }
  }

  // Adding an offset, masking, and sign-extending when the format is signed.
  function WrapTo(x: int, p: nat, signed: bool): int
    requires p > 0
  {
    if signed then SignExtend(Low(x, p), p) else Low(x, p)
  }

  lemma WrapKeeps(x: int, p: nat, signed: bool)
    requires p > 0
    ensures WrapTo(x, p, signed) == x <==> Fits(x, signed, p)
  {
    FieldIsLossless(x, p);
  }

  // ---- the delta transform ----

  ghost predicate ColorFits(c: INTColor, prec: Prec, signed: bool) {
    Fits(c.r, signed, prec.r) && Fits(c.g, signed, prec.g) && Fits(c.b, signed, prec.b)
  }

  function WrapColor(c: INTColor, prec: Prec, signed: bool): INTColor
    requires prec.r > 0 && prec.g > 0 && prec.b > 0
  {
    INTColor(WrapTo(c.r, prec.r, signed), WrapTo(c.g, prec.g, signed), WrapTo(c.b, prec.b, signed))
  }

  function Forward(e: seq<EndPntPair>): seq<EndPntPair>
    requires |e| == 2
  {
    [EndPntPair(e[0].A, Minus(e[0].B, e[0].A)), EndPntPair(Minus(e[1].A, e[0].A), Minus(e[1].B, e[0].A))]
  }

  function Inverse(e: seq<EndPntPair>, prec: Prec, signed: bool): seq<EndPntPair>
    requires |e| == 2 && prec.r > 0 && prec.g > 0 && prec.b > 0
  {
    [EndPntPair(e[0].A, WrapColor(Plus(e[0].B, e[0].A), prec, signed)),
     EndPntPair(WrapColor(Plus(e[1].A, e[0].A), prec, signed), WrapColor(Plus(e[1].B, e[0].A), prec, signed))]
  }

  method TransformForward(aEndPts: array<EndPntPair>)
    requires aEndPts.Length == 2
    modifies aEndPts
    ensures aEndPts[..] == Forward(old(aEndPts[..]))
  {
    aEndPts[0] := aEndPts[0].(B := Minus(aEndPts[0].B, aEndPts[0].A));
    aEndPts[1] := aEndPts[1].(A := Minus(aEndPts[1].A, aEndPts[0].A));
    aEndPts[1] := aEndPts[1].(B := Minus(aEndPts[1].B, aEndPts[0].A));
  }

  method TransformInverse(aEndPts: array<EndPntPair>, prec: Prec, bSigned: bool)
    requires aEndPts.Length == 2 && prec.r > 0 && prec.g > 0 && prec.b > 0
    modifies aEndPts
    ensures aEndPts[..] == Inverse(old(aEndPts[..]), prec, bSigned)
  {
    aEndPts[0] := aEndPts[0].(B := Masked(Plus(aEndPts[0].B, aEndPts[0].A), prec));
    aEndPts[1] := aEndPts[1].(A := Masked(Plus(aEndPts[1].A, aEndPts[0].A), prec));
    aEndPts[1] := aEndPts[1].(B := Masked(Plus(aEndPts[1].B, aEndPts[0].A), prec));
    if bSigned {
      aEndPts[0] := aEndPts[0].(B := Extended(aEndPts[0].B, prec));
      aEndPts[1] := aEndPts[1].(A := Extended(aEndPts[1].A, prec));
      aEndPts[1] := aEndPts[1].(B := Extended(aEndPts[1].B, prec));
    }
  }

  function Masked(c: INTColor, prec: Prec): INTColor {
    INTColor(Low(c.r, prec.r), Low(c.g, prec.g), Low(c.b, prec.b))
  }

  function Extended(c: INTColor, prec: Prec): INTColor
    requires prec.r > 0 && prec.g > 0 && prec.b > 0
  {
    INTColor(SignExtend(c.r, prec.r), SignExtend(c.g, prec.g), SignExtend(c.b, prec.b))
  }

  // The three transformed endpoints lie in the precision range of the mode.
  ghost predicate InRange(e: seq<EndPntPair>, prec: Prec, signed: bool)
    requires |e| == 2
  {
    ColorFits(e[0].B, prec, signed) && ColorFits(e[1].A, prec, signed) && ColorFits(e[1].B, prec, signed)
  }

  lemma WrapColorKeeps(c: INTColor, prec: Prec, signed: bool)
    requires prec.r > 0 && prec.g > 0 && prec.b > 0
    ensures WrapColor(c, prec, signed) == c <==> ColorFits(c, prec, signed)
  {
    WrapKeeps(c.r, prec.r, signed);
    WrapKeeps(c.g, prec.g, signed);
    WrapKeeps(c.b, prec.b, signed);
  }

  // The inverse undoes the transform on exactly the endpoints in range.
  lemma InverseUndoes(e: seq<EndPntPair>, prec: Prec, signed: bool)
    requires |e| == 2 && prec.r > 0 && prec.g > 0 && prec.b > 0
    ensures Inverse(Forward(e), prec, signed) == e <==> InRange(e, prec, signed)
  {
    PlusMinus(e[0].B, e[0].A);
    PlusMinus(e[1].A, e[0].A);
    PlusMinus(e[1].B, e[0].A);
    WrapColorKeeps(e[0].B, prec, signed);
    WrapColorKeeps(e[1].A, prec, signed);
    WrapColorKeeps(e[1].B, prec, signed);
    var back := Inverse(Forward(e), prec, signed);
    if InRange(e, prec, signed) {
      assert back[0] == e[0] && back[1] == e[1];
    }
  }

  lemma PlusMinus(x: INTColor, y: INTColor)
    ensures Plus(Minus(x, y), y) == x
  {}

  // Transforming, going back and transforming again gives the same deltas.
  lemma DeltasStable(e: seq<EndPntPair>, prec: Prec, signed: bool)
    requires |e| == 2 && prec.r > 0 && prec.g > 0 && prec.b > 0 && InRange(e, prec, signed)
    ensures Forward(Inverse(Forward(e), prec, signed)) == Forward(e)
  {
    InverseUndoes(e, prec, signed);
  }
}

/** A multiple-precision natural: a block of 32-bit words with a size class, a sign and a word count. */
module BigInts {
  import opened Powers
  import opened Words

  class Bigint {
    const k: nat
    const maxwds: nat
    var sign: int
    var wds: nat
    const x: array<ULong>

    constructor (k: nat)
      ensures this.k == k && Shape()
      ensures sign == 0 && wds == 0
      ensures fresh(x)
    {
      this.k := k;
      maxwds := Pow(2, k);
      sign, wds := 0, 0;
      x := new ULong[Pow(2, k)];
    }

    // Fixed for the life of the block: its size class and capacity.
    ghost predicate Shape() {
      maxwds == Pow(2, k) && x.Length == maxwds
    }

    // The block holds a number. A number without words keeps a zero in its first slot.
    ghost predicate Ok()
      reads this, x
    {
      Shape() && wds <= maxwds && (wds == 0 ==> x[0] == 0)
    }

    ghost function Words(): seq<ULong>
      requires Ok()
      reads this, x
    {
      x[..wds]
    }

    ghost function Value(): nat
      requires Ok()
      reads this, x
    {
      Val(x[..wds])
    }

    // No leading zero word, except that zero may occupy one word.
    ghost predicate Trimmed()
      requires Ok()
      reads this, x
    {
      wds > 1 ==> x[wds - 1] != 0
    }
  }
}

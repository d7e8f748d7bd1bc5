/**
 * Recycling of number blocks: a stack of free blocks for each size class. The arithmetic takes every
 * block it is given to be new; this module shows that recycling keeps that view, since the blocks in
 * use at any time are different blocks with different words, and a recycled block comes back empty.
 */
module BlockPool {
  import opened Words
  import opened BigInts

  const KMAX: nat := 7

  // Slot gives the height at which a free block sits on its stack.
  ghost predicate FreeListsOk(freelist: seq<seq<Bigint>>, free: set<Bigint>, slot: map<Bigint, nat>) {
    && |freelist| == KMAX + 1
    && forall j, i :: 0 <= j < |freelist| && 0 <= i < |freelist[j]| ==>
         var v := freelist[j][i];
         v in free && v.k == j && v in slot && slot[v] == i
  }

  // Live and free blocks are different blocks, each the only owner of its words.
  ghost predicate Apart(live: set<Bigint>, free: set<Bigint>, owner: map<array<ULong>, Bigint>) {
    && live !! free
    && forall v :: v in live + free ==> v.Shape() && v.x in owner && owner[v.x] == v
  }

  class Pool {
    var freelist: seq<seq<Bigint>>
    ghost var live: set<Bigint>
    ghost var free: set<Bigint>
    ghost var slot: map<Bigint, nat>
    ghost var owner: map<array<ULong>, Bigint>

    constructor ()
      ensures Valid() && live == {} && free == {}
    {
      freelist := seq(KMAX + 1, _ => []);
      live, free, slot, owner := {}, {}, map[], map[];
    }

    ghost predicate Valid()
      reads this
    {
      FreeListsOk(freelist, free, slot) && Apart(live, free, owner)
    }

    // A block for 2^k words, from the free list of its class when there is one.
    method Balloc(k: nat) returns (rv: Bigint)
      requires Valid()
      modifies this, free
      ensures Valid()
      ensures rv.k == k && rv.Shape() && rv.sign == 0 && rv.wds == 0
      ensures live == old(live) + {rv} && rv !in old(live)
      ensures forall v :: v in old(live) ==> v.x != rv.x
      ensures rv in old(free) || fresh(rv)
    {
      if k <= KMAX && freelist[k] != [] {
        var top := |freelist[k]| - 1;
        rv := freelist[k][top];
        freelist := freelist[k := freelist[k][..top]];
        free := free - {rv};
      } else {
        rv := new Bigint(k);
        owner := owner[rv.x := rv];
      }
      live := live + {rv};
      rv.sign, rv.wds := 0, 0;
    }

    // Blocks above the largest class go back to the system; the others are kept for reuse.
    method Bfree(v: Bigint?)
      requires Valid()
      requires v != null ==> v in live
      modifies this
      ensures Valid()
      ensures live == if v == null then old(live) else old(live) - {v}
      ensures free == if v == null || v.k > KMAX then old(free) else old(free) + {v}
    {
      if v != null {
        live := live - {v};
        if v.k <= KMAX {
          slot := slot[v := |freelist[v.k]|];
          freelist := freelist[v.k := freelist[v.k] + [v]];
          free := free + {v};
        }
      }
    }
  }
}

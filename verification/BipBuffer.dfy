/** A ring buffer of two regions: space is reserved, filled and committed at one end and dropped at the other. */
module BipBuffer {

  type Byte = n: int | 0 <= n < 0x100

  // The memory, region A, region B behind it in order and before it in place, and the pending reservation.
  datatype State = State(mem: seq<Byte>, ixa: int, sza: int, ixb: int, szb: int, ixResrv: int, szResrv: int)

  function Min(x: int, y: int): int {
    if x < y then x else y
  }

  ghost predicate Inv(s: State) {
    && s.ixb == 0
    && 0 <= s.ixa && 0 <= s.sza && 0 <= s.szb && s.ixa + s.sza <= |s.mem|
    && (s.sza == 0 ==> s.szb == 0)
    && (s.szb > 0 ==> s.szb <= s.ixa)
    && ReservationOk(s)
  }

  // A pending reservation is in bounds, apart from both regions, and where the next bytes belong: after B if there
  // is one, else after A or at the start of memory before A, or anywhere when nothing is stored.
  ghost predicate ReservationOk(s: State) {
    && 0 <= s.ixResrv && 0 <= s.szResrv && s.ixResrv + s.szResrv <= |s.mem|
    && (s.szResrv > 0 ==>
          if s.szb > 0 then s.ixResrv == s.szb && s.ixResrv + s.szResrv <= s.ixa
          else s.sza > 0 ==> s.ixResrv == s.ixa + s.sza || (s.ixResrv == 0 && s.szResrv <= s.ixa))
  }

  ghost function Region(s: State, ix: int, sz: int): seq<Byte>
    requires 0 <= ix && 0 <= sz && ix + sz <= |s.mem|
  {
    s.mem[ix..ix + sz]
  }

  // The bytes stored, oldest first.
  ghost function Queue(s: State): seq<Byte>
    requires Inv(s)
  {
    Region(s, s.ixa, s.sza) + Region(s, s.ixb, s.szb)
  }

  ghost function Pending(s: State): seq<Byte>
    requires Inv(s)
  {
    Region(s, s.ixResrv, s.szResrv)
  }

  // ---- the operations on states ----

  // The reserved state, and whether anything could be reserved.
  ghost function DoReserve(s: State, size: nat): (State, bool) {
    if s.szb != 0 then
      var free := Min(size, s.ixa - s.ixb - s.szb);
      if free == 0 then (s, false) else (s.(ixResrv := s.ixb + s.szb, szResrv := free), true)
    else
      var free := |s.mem| - s.ixa - s.sza;
      if free >= s.ixa then
        if free == 0 then (s, false) else (s.(ixResrv := s.ixa + s.sza, szResrv := Min(size, free)), true)
      else if s.ixa == 0 then (s, false)
      else (s.(ixResrv := 0, szResrv := Min(s.ixa, size)), true)
  }

  ghost function DoWrite(s: State, data: seq<Byte>): State
    requires Inv(s) && |data| <= s.szResrv
  {
    s.(mem := s.mem[..s.ixResrv] + data + s.mem[s.ixResrv + |data|..])
  }

  ghost function DoCommit(s: State, size: nat): State {
    var n := Min(size, s.szResrv);
    var t := s.(ixResrv := 0, szResrv := 0);
    if size == 0 then t
    else if s.sza == 0 && s.szb == 0 then t.(ixa := s.ixResrv, sza := n)
    else if s.ixResrv == s.sza + s.ixa then t.(sza := s.sza + n)
    else t.(szb := s.szb + n)
  }

  ghost function DoDecommit(s: State, size: nat): State {
    if size >= s.sza then s.(ixa := s.ixb, sza := s.szb, ixb := 0, szb := 0)
    else s.(sza := s.sza - size, ixa := s.ixa + size)
  }

  ghost function DoClear(s: State): State {
    State(s.mem, 0, 0, 0, 0, 0, 0)
  }

  // ---- each operation, on the queue ----

  // The state is sound, and its reservation does not touch what is stored.
  lemma ReservationApart(s: State, i: int)
    requires Inv(s) && s.ixResrv <= i < s.ixResrv + s.szResrv
    ensures s.sza > 0 ==> !(s.ixa <= i < s.ixa + s.sza) && !(s.ixb <= i < s.ixb + s.szb)
  {}

  // A buffer with anything in it has something in its first region, so a reader is never stuck.
  lemma NonEmptyHasBlock(s: State)
    requires Inv(s)
    ensures Queue(s) != [] <==> s.sza > 0
  {}

  // The block is all that one drop can take: dropping more takes no more, and dropping just its size takes all of it.
  ghost predicate HoldsAll(s: State, block: Block)
    requires Inv(s) && block != NoBlock
  {
    && 0 <= block.size && Inv(DoDecommit(s, block.size))
    && |Queue(s)| == block.size + |Queue(DoDecommit(s, block.size))|
    && forall n: nat :: n >= block.size ==> DoDecommit(s, n) == DoDecommit(s, block.size)
  }

  // The larger of the free stretches a reservation can take.
  ghost function Room(s: State): int {
    if s.szb > 0 then s.ixa - s.szb
    else if |s.mem| - s.ixa - s.sza >= s.ixa then |s.mem| - s.ixa - s.sza else s.ixa
  }

  // Reserving stores nothing. It is refused only when the memory is full or the gap behind region B is closed.
  lemma ReserveKeeps(s: State, size: nat)
    requires Inv(s)
    ensures var (t, ok) := DoReserve(s, size);
      && Inv(t) && Queue(t) == Queue(s)
      && (if ok then t.szResrv == Min(size, Room(s)) && (size > 0 ==> t.szResrv > 0) else t == s)
      && (size > 0 ==> (ok <==> if s.szb > 0 then s.szb < s.ixa else s.sza < |s.mem|))
  {}

  // Bytes written at one place leave a region that does not meet it alone.
  lemma Untouched(mem: seq<Byte>, at: nat, data: seq<Byte>, ix: nat, sz: nat)
    requires at + |data| <= |mem| && ix + sz <= |mem|
    requires ix + sz <= at || at + |data| <= ix
    ensures (mem[..at] + data + mem[at + |data|..])[ix..ix + sz] == mem[ix..ix + sz]
  {
    var now := mem[..at] + data + mem[at + |data|..];
    forall k | ix <= k < ix + sz ensures now[k] == mem[k] {}
  }

  // The header's comment promises a refusal while a reservation is pending. The code replaces it instead: only
  // room decides, as ReserveKeeps says.
  lemma PendingIsReplaced()
    ensures var s := State([0, 0, 0, 0], 0, 0, 0, 0, 0, 2);
      Inv(s) && s.szResrv > 0 && DoReserve(s, 1) == (s.(szResrv := 1), true)
  {}

  lemma InPlace(mem: seq<Byte>, at: nat, data: seq<Byte>, m: nat)
    requires |data| <= m && at + m <= |mem|
    ensures (mem[..at] + data + mem[at + |data|..])[at..at + m][..|data|] == data
  {
    var now := mem[..at] + data + mem[at + |data|..];
    forall k | at <= k < at + |data| ensures now[k] == data[k - at] {}
  }

  lemma WriteSound(s: State, data: seq<Byte>)
    requires Inv(s) && |data| <= s.szResrv
    ensures Inv(DoWrite(s, data)) && |DoWrite(s, data).mem| == |s.mem|
  {}

  lemma WriteApart(s: State, data: seq<Byte>, ix: nat, sz: nat)
    requires Inv(s) && |data| <= s.szResrv && ix + sz <= |s.mem|
    requires data == [] || sz == 0 || ix + sz <= s.ixResrv || s.ixResrv + |data| <= ix
    ensures ix + sz <= |DoWrite(s, data).mem| && Region(DoWrite(s, data), ix, sz) == Region(s, ix, sz)
  {
    if data == [] {
      assert DoWrite(s, data).mem == s.mem;
    } else if sz > 0 {
      Untouched(s.mem, s.ixResrv, data, ix, sz);
    }
  }

  // Filling the reservation stores nothing; the bytes wait in front of the reserved block.
  lemma WriteKeeps(s: State, data: seq<Byte>)
    requires Inv(s) && |data| <= s.szResrv
    ensures var t := DoWrite(s, data);
      && Inv(t) && |t.mem| == |s.mem| && Queue(t) == Queue(s)
      && |Pending(t)| == s.szResrv && Pending(t)[..|data|] == data
  {
    WriteSound(s, data);
    InPlace(s.mem, s.ixResrv, data, s.szResrv);
    WriteApart(s, data, s.ixa, s.sza);
    WriteApart(s, data, s.ixb, s.szb);
  }

  lemma Adjoining(mem: seq<Byte>, ix: nat, sz: nat, m: nat, n: nat)
    requires n <= m && ix + sz + m <= |mem|
    ensures mem[ix..ix + sz + n] == mem[ix..ix + sz] + mem[ix + sz..ix + sz + m][..n]
  {}

  lemma CommitSound(s: State, size: nat)
    requires Inv(s)
    ensures Inv(DoCommit(s, size)) && DoCommit(s, size).szResrv == 0
  {}

  lemma CommitToA(s: State, n: nat)
    requires Inv(s) && 0 < n <= s.szResrv && s.sza > 0 && s.ixResrv == s.sza + s.ixa
    ensures Region(s, s.ixa, s.sza + n) + Region(s, s.ixb, s.szb) == Queue(s) + Pending(s)[..n]
  {
    assert s.szb == 0;
    Adjoining(s.mem, s.ixa, s.sza, s.szResrv, n);
  }

  lemma CommitToB(s: State, n: nat)
    requires Inv(s) && 0 < n <= s.szResrv && s.sza > 0 && s.ixResrv != s.sza + s.ixa
    ensures s.szb + n <= |s.mem|
    ensures Region(s, s.ixa, s.sza) + Region(s, s.ixb, s.szb + n) == Queue(s) + Pending(s)[..n]
  {
    var a, b, p := Region(s, s.ixa, s.sza), Region(s, s.ixb, s.szb), Pending(s)[..n];
    Adjoining(s.mem, s.ixb, s.szb, s.szResrv, n);
    assert a + (b + p) == (a + b) + p;
  }

  // Committing appends the first bytes of the reservation, and releases the rest.
  lemma CommitAppends(s: State, size: nat)
    requires Inv(s)
    ensures var t := DoCommit(s, size);
      Inv(t) && Queue(t) == Queue(s) + Pending(s)[..Min(size, s.szResrv)] && t.szResrv == 0
  {
    var n := Min(size, s.szResrv);
    CommitSound(s, size);
    if n == 0 {
      assert Pending(s)[..n] == [];
    } else if s.sza > 0 {
      if s.ixResrv == s.sza + s.ixa { CommitToA(s, n); } else { CommitToB(s, n); }
    } else {
      Adjoining(s.mem, s.ixResrv, 0, s.szResrv, n);
    }
  }

  // Dropping removes the oldest bytes, at most the first block, and leaves the reservation as it was.
  lemma DecommitDrops(s: State, size: nat)
    requires Inv(s)
    ensures var t := DoDecommit(s, size);
      && Inv(t) && Queue(t) == Queue(s)[Min(size, s.sza)..]
      && Pending(t) == Pending(s) && t.ixResrv == s.ixResrv && t.szResrv == s.szResrv
  {}

  // ---- every interleaving ----

  datatype Op = Reserve(size: nat) | Write(data: seq<Byte>) | Commit(size: nat) | Decommit(size: nat) | Clear

  // Writers fill no more than they have reserved.
  ghost predicate Allowed(s: State, op: Op) {
    op.Write? ==> |op.data| <= s.szResrv
  }

  ghost function Step(s: State, op: Op): State
    requires Inv(s) && Allowed(s, op)
  {
    match op
    case Reserve(size) => DoReserve(s, size).0
    case Write(data) => DoWrite(s, data)
    case Commit(size) => DoCommit(s, size)
    case Decommit(size) => DoDecommit(s, size)
    case Clear => DoClear(s)
  }

  // What a step puts into the queue, and how many bytes it takes out.
  ghost function In(s: State, op: Op): seq<Byte>
    requires Inv(s)
  {
    if op.Commit? then Pending(s)[..Min(op.size, s.szResrv)] else []
  }

  ghost function Out(s: State, op: Op): nat
    requires Inv(s)
  {
    match op
    case Decommit(size) => Min(size, s.sza)
    case Clear => |Queue(s)|
    case _ => 0
  }

  // One state leads to another: bytes come in behind the queue, and then some of the oldest go out.
  ghost predicate Moves(s: State, t: State, i: seq<Byte>, o: nat)
    requires Inv(s)
  {
    Inv(t) && |t.mem| == |s.mem| && o <= |Queue(s) + i| && Queue(t) == (Queue(s) + i)[o..]
  }

  lemma Still(s: State, t: State)
    requires Inv(s) && Inv(t) && |t.mem| == |s.mem| && Queue(t) == Queue(s)
    ensures Moves(s, t, [], 0)
  {
    assert Queue(s) + [] == Queue(s);
  }

  lemma ComesIn(s: State, t: State, i: seq<Byte>)
    requires Inv(s) && Inv(t) && |t.mem| == |s.mem| && Queue(t) == Queue(s) + i
    ensures Moves(s, t, i, 0)
  {}

  lemma GoesOut(s: State, t: State, o: nat)
    requires Inv(s) && Inv(t) && |t.mem| == |s.mem| && o <= |Queue(s)| && Queue(t) == Queue(s)[o..]
    ensures Moves(s, t, [], o)
  {
    assert Queue(s) + [] == Queue(s);
  }

  lemma ReserveMoves(s: State, size: nat)
    requires Inv(s)
    ensures Moves(s, DoReserve(s, size).0, [], 0)
  {
    ReserveKeeps(s, size);
    Still(s, DoReserve(s, size).0);
  }

  lemma WriteMoves(s: State, data: seq<Byte>)
    requires Inv(s) && |data| <= s.szResrv
    ensures Moves(s, DoWrite(s, data), [], 0)
  {
    WriteKeeps(s, data);
    Still(s, DoWrite(s, data));
  }

  lemma DecommitMoves(s: State, size: nat)
    requires Inv(s)
    ensures Moves(s, DoDecommit(s, size), [], Min(size, s.sza))
  {
    DecommitDrops(s, size);
    GoesOut(s, DoDecommit(s, size), Min(size, s.sza));
  }

  lemma StepKeeps(s: State, op: Op)
    requires Inv(s) && Allowed(s, op)
    ensures Moves(s, Step(s, op), In(s, op), Out(s, op))
  {
    match op
    case Reserve(size) => ReserveMoves(s, size);
    case Write(data) => WriteMoves(s, data);
    case Commit(size) =>
      CommitAppends(s, size);
      ComesIn(s, Step(s, op), In(s, op));
    case Decommit(size) => DecommitMoves(s, size);
    case Clear => GoesOut(s, Step(s, op), Out(s, op));
  }

  ghost predicate Runs(s: State, ops: seq<Op>)
    requires Inv(s)
    decreases |ops|
  {
    ops == [] || (Allowed(s, ops[0]) && (StepKeeps(s, ops[0]); Runs(Step(s, ops[0]), ops[1..])))
  }

  ghost function End(s: State, ops: seq<Op>): State
    requires Inv(s) && Runs(s, ops)
    decreases |ops|
  {
    if ops == [] then s else StepKeeps(s, ops[0]); End(Step(s, ops[0]), ops[1..])
  }

  // All bytes committed during a run, in order, and the number dropped.
  ghost function AllIn(s: State, ops: seq<Op>): seq<Byte>
    requires Inv(s) && Runs(s, ops)
    decreases |ops|
  {
    if ops == [] then [] else StepKeeps(s, ops[0]); In(s, ops[0]) + AllIn(Step(s, ops[0]), ops[1..])
  }

  ghost function AllOut(s: State, ops: seq<Op>): nat
    requires Inv(s) && Runs(s, ops)
    decreases |ops|
  {
    if ops == [] then 0 else StepKeeps(s, ops[0]); Out(s, ops[0]) + AllOut(Step(s, ops[0]), ops[1..])
  }

  lemma MovesTwice(s: State, t: State, u: State, i: seq<Byte>, o: nat, a: seq<Byte>, n: nat)
    requires Inv(s) && Moves(s, t, i, o) && Moves(t, u, a, n)
    ensures Moves(s, u, i + a, o + n)
  {
    var q := Queue(s);
    assert q + (i + a) == (q + i) + a;
    assert (q + i)[o..] + a == ((q + i) + a)[o..];
  }

  // First in, first out: after any run, the queue is what it held and what was committed since, less the oldest
  // bytes dropped.
  lemma {:induction false} FirstInFirstOut(s: State, ops: seq<Op>)
    requires Inv(s) && Runs(s, ops)
    ensures Moves(s, End(s, ops), AllIn(s, ops), AllOut(s, ops))
    decreases |ops|
  {
    if ops == [] {
      Still(s, s);
    } else {
      StepKeeps(s, ops[0]);
      var t := Step(s, ops[0]);
      FirstInFirstOut(t, ops[1..]);
      MovesTwice(s, t, End(t, ops[1..]), In(s, ops[0]), Out(s, ops[0]), AllIn(t, ops[1..]), AllOut(t, ops[1..]));
    }
  }

  // ---- the class ----

  datatype Block = NoBlock | Block(start: nat, size: nat)

  class BipBuffer {
    const pBuffer: array<Byte>
    var ixa: int
    var sza: int
    var ixb: int
    var szb: int
    var ixResrv: int
    var szResrv: int

    constructor (buflen: nat)
      requires buflen > 0
      ensures Inv(Current()) && Queue(Current()) == [] && szResrv == 0
      ensures pBuffer.Length == buflen && fresh(pBuffer)
    {
      pBuffer := new Byte[buflen];
      ixa, sza, ixb, szb, ixResrv, szResrv := 0, 0, 0, 0, 0, 0;
    }

    ghost function Current(): State
      reads this, pBuffer
    {
      State(pBuffer[..], ixa, sza, ixb, szb, ixResrv, szResrv)
    }

    method Clear()
      modifies this
      ensures Current() == DoClear(old(Current()))
    {
      ixa, sza, ixb, szb, ixResrv, szResrv := 0, 0, 0, 0, 0, 0;
    }

    function GetSpaceAfterA(): int
      reads this
    {
      pBuffer.Length - ixa - sza
    }

    function GetBFreeSpace(): int
      reads this
    {
      ixa - ixb - szb
    }

    // The reserved block, or none when there is no room; a reservation still pending is then kept, and otherwise
    // replaced.
    method Reserve(size: nat) returns (block: Block)
      requires Inv(Current())
      modifies this
      ensures var (t, ok) := DoReserve(old(Current()), size);
        Current() == t && block == if ok then Block(ixResrv, szResrv) else NoBlock
    {
      if szb != 0 {
        var freespace := GetBFreeSpace();
        if size < freespace { freespace := size; }
        if freespace == 0 { return NoBlock; }
        szResrv := freespace;
        ixResrv := ixb + szb;
        return Block(ixResrv, szResrv);
      }
      var freespace := GetSpaceAfterA();
      if freespace >= ixa {
        if freespace == 0 { return NoBlock; }
        if size < freespace { freespace := size; }
        szResrv := freespace;
        ixResrv := ixa + sza;
        return Block(ixResrv, szResrv);
      }
      if ixa == 0 { return NoBlock; }
      szResrv := if ixa < size then ixa else size;
      ixResrv := 0;
      return Block(0, szResrv);
    }

    // The writer's own stores into the block it was given.
    method Fill(data: seq<Byte>)
      requires Inv(Current()) && |data| <= szResrv
      modifies pBuffer
      ensures Current() == DoWrite(old(Current()), data)
    {
      forall i | 0 <= i < |data| {
        pBuffer[ixResrv + i] := data[i];
      }
    }

    method Commit(size: nat)
      requires Inv(Current())
      modifies this
      ensures Current() == DoCommit(old(Current()), size)
    {
      if size == 0 {
        szResrv, ixResrv := 0, 0;
        return;
      }
      var n: int := size;
      if n > szResrv {
        n := szResrv;
      }
      if sza == 0 && szb == 0 {
        ixa, sza := ixResrv, n;
        ixResrv, szResrv := 0, 0;
        return;
      }
      if ixResrv == sza + ixa {
        sza := sza + n;
      } else {
        szb := szb + n;
      }
      ixResrv, szResrv := 0, 0;
    }

    // The oldest stored bytes, as many as lie in one piece.
    method GetContiguousBlock() returns (block: Block)
      requires Inv(Current())
      ensures block == NoBlock <==> Queue(Current()) == []
      ensures block != NoBlock ==> block.size > 0 && block.start + block.size <= pBuffer.Length
                                   && pBuffer[block.start..block.start + block.size] <= Queue(Current())
                                   && HoldsAll(Current(), block)
    {
      if sza == 0 {
        return NoBlock;
      }
      return Block(ixa, sza);
    }

    method DecommitBlock(size: nat)
      modifies this
      ensures Current() == DoDecommit(old(Current()), size)
    {
      if size >= sza {
        ixa, sza, ixb, szb := ixb, szb, 0, 0;
      } else {
        sza, ixa := sza - size, ixa + size;
      }
    }

    function GetCommittedSize(): (n: int)
      requires Inv(Current())
      reads this, pBuffer
      ensures n == |Queue(Current())|
    {
      sza + szb
    }

    function GetReservationSize(): (n: int)
      requires Inv(Current())
      reads this, pBuffer
      ensures n == |Pending(Current())|
    {
      szResrv
    }
  }
}

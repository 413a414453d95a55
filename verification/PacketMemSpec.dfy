/** The allocator of packet memory: a free list searched for the first fit. */
module PacketMemSpec {
  import opened Word

  datatype Block = Block(base: int, len: nat)

  function End(b: Block): int { b.base + b.len }

  // ------------------------------------------------------------ operations

  /** The first block that is long enough; the length of the list if there is none. */
  function FirstFit(free: seq<Block>, length: nat): (i: nat)
    ensures i <= |free| && (i < |free| ==> free[i].len >= length)
    ensures forall j :: 0 <= j < i ==> free[j].len < length
  {
    if free == [] || free[0].len >= length then 0 else 1 + FirstFit(free[1..], length)
  }

  function Remove(free: seq<Block>, i: nat): seq<Block>
    requires i < |free|
  {
    free[..i] + free[i + 1..]
  }

  function InsertAt(free: seq<Block>, i: nat, b: Block): seq<Block>
    requires i <= |free|
  {
    free[..i] + [b] + free[i..]
  }

  /** The new list and the block handed out, if any. */
  function Alloc(free: seq<Block>, length: nat): Option<(seq<Block>, Block)> {
    var i := FirstFit(free, length);
    if i == |free| then None
    else if free[i].len == length then Some((Remove(free, i), free[i]))
    else
      Some((free[i := Block(free[i].base + length, free[i].len - length)], Block(free[i].base, length)))
  }

  /** Where a freed block goes: before the first block whose successor is not below it. */
  function FreeAt(free: seq<Block>, b: Block): (i: nat)
    ensures i <= |free|
  {
    if |free| >= 2 && free[1].base < b.base then 1 + FreeAt(free[1..], b) else 0
  }

  /** Merge block `i` with its successor in the list if they are adjacent. */
  function MergeNext(free: seq<Block>, i: nat): (r: seq<Block>)
    requires i < |free|
  {
    if i + 1 < |free| && End(free[i]) == free[i + 1].base then
      Remove(free, i + 1)[i := Block(free[i].base, free[i].len + free[i + 1].len)]
    else free
  }

  /** Merge around block `i`, with its predecessor in the list first. */
  function MergeAround(free: seq<Block>, i: nat): (r: seq<Block>)
    requires i < |free|
  {
    if i > 0 then
      var r := MergeNext(free, i - 1);
      if |r| < |free| then MergeNext(r, i - 1) else MergeNext(r, i)
    else MergeNext(free, i)
  }

  function Free(free: seq<Block>, b: Block): seq<Block> {
    var i := FreeAt(free, b);
    MergeAround(InsertAt(free, i, b), i)
  }

  // ------------------------------------------------------------ ownership of bytes

  predicate Has(b: Block, x: int) { b.base <= x < End(b) }

  /** How many of the blocks contain byte `x`. */
  function Owners(bs: seq<Block>, x: int): nat {
    if bs == [] then 0 else Owners(bs[..|bs| - 1], x) + if Has(bs[|bs| - 1], x) then 1 else 0
  }

  function Own(b: Block, x: int): nat { if Has(b, x) then 1 else 0 }

  lemma {:induction false} OwnersConcat(a: seq<Block>, b: seq<Block>, x: int)
    ensures Owners(a + b, x) == Owners(a, x) + Owners(b, x)
    decreases |b|
  {
    if b == [] {
      assert a + b == a;
    } else {
      var m := b[..|b| - 1];
      OwnersConcat(a, m, x);
      assert (a + b)[..|a + b| - 1] == a + m;
    }
  }

  lemma OwnersOne(b: Block, x: int)
    ensures Owners([b], x) == Own(b, x)
  {
    assert [b][..0] == [];
  }

  lemma OwnersInsert(bs: seq<Block>, i: nat, b: Block, x: int)
    requires i <= |bs|
    ensures Owners(InsertAt(bs, i, b), x) == Owners(bs, x) + Own(b, x)
  {
    hide Owners;
    OwnersConcat(bs[..i] + [b], bs[i..], x);
    OwnersConcat(bs[..i], [b], x);
    OwnersConcat(bs[..i], bs[i..], x);
    OwnersOne(b, x);
    assert bs == bs[..i] + bs[i..];
  }

  lemma OwnersRemove(bs: seq<Block>, i: nat, x: int)
    requires i < |bs|
    ensures Owners(Remove(bs, i), x) == Owners(bs, x) - Own(bs[i], x)
  {
    hide Owners;
    OwnersInsert(Remove(bs, i), i, bs[i], x);
    assert InsertAt(Remove(bs, i), i, bs[i]) == bs;
  }

  lemma OwnersReplace(bs: seq<Block>, i: nat, b: Block, x: int)
    requires i < |bs|
    ensures Owners(bs[i := b], x) == Owners(bs, x) - Own(bs[i], x) + Own(b, x)
  {
    hide Owners;
    OwnersRemove(bs, i, x);
    OwnersInsert(Remove(bs, i), i, b, x);
    assert InsertAt(Remove(bs, i), i, b) == bs[i := b];
  }

  lemma MergeNextOwners(free: seq<Block>, i: nat, x: int)
    requires i < |free|
    ensures Owners(MergeNext(free, i), x) == Owners(free, x)
  {
    hide Owners;
    if i + 1 < |free| && End(free[i]) == free[i + 1].base {
      OwnersRemove(free, i + 1, x);
      OwnersReplace(Remove(free, i + 1), i, Block(free[i].base, free[i].len + free[i + 1].len), x);
    }
  }

  lemma FreeOwners(free: seq<Block>, b: Block, x: int)
    ensures Owners(Free(free, b), x) == Owners(free, x) + Own(b, x)
  {
    hide Owners, Own, FreeAt;
    var i := FreeAt(free, b);
    var r := InsertAt(free, i, b);
    OwnersInsert(free, i, b, x);
    if i > 0 {
      MergeNextOwners(r, i - 1, x);
      var s := MergeNext(r, i - 1);
      if |s| < |r| {
        MergeNextOwners(s, i - 1, x);
      } else {
        MergeNextOwners(s, i, x);
      }
    } else {
      MergeNextOwners(r, i, x);
    }
  }

  lemma AllocOwners(free: seq<Block>, length: nat, x: int)
    requires Alloc(free, length).Some?
    ensures var (rest, b) := Alloc(free, length).value;
            b.len == length && Owners(rest, x) + Own(b, x) == Owners(free, x)
  {
    hide Owners, FirstFit;
    var i := FirstFit(free, length);
    if free[i].len == length {
      OwnersRemove(free, i, x);
    } else {
      OwnersReplace(free, i, Block(free[i].base + length, free[i].len - length), x);
    }
  }

  // ------------------------------------------------------------ runs

  /** Allocate, or give back one of the live blocks. */
  datatype Op = Allocate(length: nat) | Release(k: nat)

  datatype State = State(free: seq<Block>, live: seq<Block>)

  function Init(size: nat): State { State([Block(0, size)], []) }

  predicate Enabled(s: State, op: Op) { op.Release? ==> op.k < |s.live| }

  function Do(s: State, op: Op): State
    requires Enabled(s, op)
  {
    match op
    case Allocate(length) =>
      (match Alloc(s.free, length)
       case None => s
       case Some(r) => State(r.0, s.live + [r.1]))
    case Release(k) => State(Free(s.free, s.live[k]), Remove(s.live, k))
  }

  ghost predicate Legal(s: State, ops: seq<Op>)
    decreases |ops|
  {
    ops == [] || (Enabled(s, ops[0]) && Legal(Do(s, ops[0]), ops[1..]))
  }

  ghost function Exec(s: State, ops: seq<Op>): State
    requires Legal(s, ops)
    decreases |ops|
  {
    if ops == [] then s else Exec(Do(s, ops[0]), ops[1..])
  }

  /** Every byte of the memory is in exactly one block, free or live, and no other byte is in any. */
  ghost predicate Partition(s: State, size: nat) {
    forall x {:trigger Owners(s.free, x)} :: Owners(s.free, x) + Owners(s.live, x) == if 0 <= x < size then 1 else 0
  }

  lemma StepPartition(s: State, op: Op, size: nat)
    requires Partition(s, size) && Enabled(s, op)
    ensures Partition(Do(s, op), size)
  {
    hide Alloc, Free, Owners, Own;
    var t := Do(s, op);
    forall x {:trigger Owners(t.free, x)}
      ensures Owners(t.free, x) + Owners(t.live, x) == if 0 <= x < size then 1 else 0
    {
      assert Owners(s.free, x) + Owners(s.live, x) == if 0 <= x < size then 1 else 0;
      match op
      case Allocate(length) =>
        if Alloc(s.free, length).Some? {
          AllocOwners(s.free, length, x);
          OwnersConcat(s.live, [Alloc(s.free, length).value.1], x);
          OwnersOne(Alloc(s.free, length).value.1, x);
        }
      case Release(k) =>
        FreeOwners(s.free, s.live[k], x);
        OwnersRemove(s.live, k, x);
    }
  }

  lemma {:induction false} RunPartition(s: State, ops: seq<Op>, size: nat)
    requires Partition(s, size) && Legal(s, ops)
    ensures Partition(Exec(s, ops), size)
    decreases |ops|
  {
    hide Partition, Do, Enabled;
    if ops != [] {
      StepPartition(s, ops[0], size);
      RunPartition(Do(s, ops[0]), ops[1..], size);
    }
  }

  /** After any sequence of operations the blocks partition the memory. */
  lemma BlocksPartitionMemory(size: nat, ops: seq<Op>)
    requires Legal(Init(size), ops)
    ensures Partition(Exec(Init(size), ops), size)
  {
    forall x {:trigger Owners(Init(size).free, x)}
      ensures Owners(Init(size).free, x) + Owners(Init(size).live, x) == if 0 <= x < size then 1 else 0
    {
      OwnersOne(Block(0, size), x);
    }
    RunPartition(Init(size), ops, size);
  }

  /** No two live blocks share a byte, and none reaches outside the memory. */
  lemma LiveDisjoint(size: nat, ops: seq<Op>, i: nat, j: nat, x: int)
    requires Legal(Init(size), ops)
    requires i < j < |Exec(Init(size), ops).live|
    ensures var live := Exec(Init(size), ops).live;
            !(Has(live[i], x) && Has(live[j], x)) && (Has(live[i], x) ==> 0 <= x < size)
  {
    BlocksPartitionMemory(size, ops);
    var s := Exec(Init(size), ops);
    assert Owners(s.free, x) + Owners(s.live, x) <= 1;
    OwnersRemove(s.live, j, x);
    OwnersRemove(Remove(s.live, j), i, x);
    assert Remove(s.live, j)[i] == s.live[i];
  }

  /** Block `i` is the first that is long enough. */
  ghost predicate Fits(free: seq<Block>, length: nat, i: int) {
    0 <= i < |free| && free[i].len >= length && forall j :: 0 <= j < i ==> free[j].len < length
  }

  /** An allocation of any length succeeds if and only if some free block is long enough, and the block handed
      out is the beginning of the first such block and has exactly that length. */
  lemma AllocFailsExactly(free: seq<Block>, length: nat)
    ensures Alloc(free, length).None? <==> forall i :: 0 <= i < |free| ==> free[i].len < length
    ensures Alloc(free, length).Some? ==>
              var b := Alloc(free, length).value.1;
              b.len == length && exists i :: Fits(free, length, i) && free[i].base == b.base
  {
    var i := FirstFit(free, length);
    if i < |free| {
      assert Fits(free, length, i);
    }
  }

  /** No block ends where the next one in the list begins, but for pairs `lo` to `hi`. */
  ghost predicate MergedBut(free: seq<Block>, lo: int, hi: int) {
    forall i :: 0 < i < |free| && !(lo <= i <= hi) ==> End(free[i - 1]) != free[i].base
  }

  ghost predicate Merged(free: seq<Block>) { MergedBut(free, 1, 0) }

  lemma MergeNextApart(r: seq<Block>, m: nat, hi: int)
    requires m < |r| && m + 1 <= hi && MergedBut(r, m + 1, hi)
    ensures var s := MergeNext(r, m);
            && |s| >= |r| - 1
            && if |s| < |r| then MergedBut(s, m + 1, hi - 1) else s == r && MergedBut(s, m + 2, hi)
  {
    var s := MergeNext(r, m);
    if |s| < |r| {
      forall i | 0 < i < |s| && !(m + 1 <= i <= hi - 1)
        ensures End(s[i - 1]) != s[i].base
      {
        if i <= m {
          assert s[i].base == r[i].base && s[i - 1] == r[i - 1];
        } else {
          assert s[i] == r[i + 1] && End(s[i - 1]) == End(r[i]);
        }
      }
    }
  }

  /** Freeing merges all there is to merge with the neighbours in the list, in either direction. */
  lemma FreeMerges(free: seq<Block>, b: Block)
    requires Merged(free)
    ensures Merged(Free(free, b))
  {
    hide FreeAt, MergeNext;
    var i := FreeAt(free, b);
    var r := InsertAt(free, i, b);
    InsertApart(free, i, b);
    if i > 0 {
      MergeNextApart(r, i - 1, i + 1);
      var s := MergeNext(r, i - 1);
      MergeNextApart(s, if |s| < |r| then i - 1 else i, if |s| < |r| then i else i + 1);
    } else {
      MergeNextApart(r, 0, 1);
    }
  }

  lemma InsertApart(free: seq<Block>, i: nat, b: Block)
    requires Merged(free) && i <= |free|
    ensures MergedBut(InsertAt(free, i, b), Max(i, 1), i + 1)
  {
    var r := InsertAt(free, i, b);
    forall j | 0 < j < |r| && !(i <= j <= i + 1)
      ensures End(r[j - 1]) != r[j].base
    {
      if j < i {
        assert r[j - 1] == free[j - 1] && r[j] == free[j];
      } else {
        assert r[j - 1] == free[j - 2] && r[j] == free[j - 1];
      }
    }
  }

  /** In the order of addresses, without overlap. */
  ghost predicate Ascending(bs: seq<Block>) {
    forall i, j {:trigger bs[i], bs[j]} :: 0 <= i < j < |bs| ==> End(bs[i]) <= bs[j].base
  }

  lemma {:induction false} FreeAtIs(free: seq<Block>, b: Block)
    requires free != [] && free[0].base < b.base
    ensures var i := FreeAt(free, b);
            i < |free| && free[i].base < b.base
  {
    if |free| >= 2 && free[1].base < b.base {
      FreeAtIs(free[1..], b);
    }
  }

  /** The search for a place stops before the predecessor of the freed block, not behind it: a list in the order
      of addresses stays so if and only if the freed block lies below all others. */
  lemma FreeAscendingExactly(free: seq<Block>, b: Block)
    requires Ascending(free) && b.len > 0 && forall i :: 0 <= i < |free| ==> free[i].len > 0
    requires forall i :: 0 <= i < |free| ==> End(b) <= free[i].base || End(free[i]) <= b.base
    ensures Ascending(Free(free, b)) <==> free == [] || b.base < free[0].base
  {
    var i := FreeAt(free, b);
    var r := InsertAt(free, i, b);
    if free != [] && b.base >= free[0].base {
      FreeAtIs(free, b);
      assert r[i] == b && r[i + 1] == free[i];
      assert i > 0 ==> r[i - 1] == free[i - 1] && End(free[i - 1]) <= free[i].base;
      assert Free(free, b) == r;
    } else {
      assert i == 0 && r == [b] + free;
      assert Ascending(r);
      MergeAscending(r);
    }
  }

  lemma MergeAscending(r: seq<Block>)
    requires r != [] && Ascending(r)
    ensures Ascending(MergeNext(r, 0))
  {
    var m := MergeNext(r, 0);
    if |m| < |r| {
      assert forall j :: 1 <= j < |m| ==> m[j] == r[j + 1];
    }
  }

  /** The list is not in the order of addresses, so adjacent free blocks may stay apart: three adjacent blocks
      that are all of the memory are given back in order of address; they end up in two blocks, and an
      allocation of all of the memory fails. */
  lemma FreeDoesNotCoalesce()
    ensures var free := Free(Free(Free([], Block(0, 1)), Block(1, 1)), Block(2, 1));
            free == [Block(1, 2), Block(0, 1)] && Alloc(free, 3) == None
  {
    hide Alloc;
    var a, b, c := Block(0, 1), Block(1, 1), Block(2, 1);
    assert InsertAt([], 0, a) == [a];
    assert Free([], a) == [a];
    assert InsertAt([a], 0, b) == [b, a];
    assert Free([a], b) == [b, a];
    assert [b, a][1..] == [a] && FreeAt([a], c) == 0;
    assert InsertAt([b, a], 1, c) == [b, c, a];
    assert Remove([b, c, a], 1) == [b, a];
    assert [b, a][0 := Block(1, 2)] == [Block(1, 2), a];
    assert Free([b, a], c) == [Block(1, 2), a];
    AllocFailsExactly([Block(1, 2), a], 3);
  }
}

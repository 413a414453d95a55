/** The free list of packet memory as linked handles. */
module PacketMem {
  import opened PacketMemSpec

  class Handle {
    var base: int
    var len: nat
    var next: Handle?

    constructor (base: int, len: nat)
      ensures this.base == base && this.len == len && next == null
    {
      this.base := base;
      this.len := len;
      next := null;
    }
  }

  /** The handles `ns` are different and linked one to the next. */
  ghost predicate Chain(ns: seq<Handle>)
    reads ns`next
  {
    && (forall i {:trigger ns[i].next} :: 0 <= i < |ns| ==> ns[i].next == if i + 1 < |ns| then ns[i + 1] else null)
    && (forall i, j {:trigger ns[i], ns[j]} :: 0 <= i < j < |ns| ==> ns[i] != ns[j])
  }

  /** Handle by handle, the blocks of a list. */
  ghost predicate Holds(ns: seq<Handle>, bs: seq<Block>)
    reads ns`base, ns`len
  {
    |ns| == |bs| && forall i {:trigger ns[i]} {:trigger bs[i]} :: 0 <= i < |ns| ==>
      ns[i].base == bs[i].base && ns[i].len == bs[i].len
  }

  ghost function Take(ns: seq<Handle>, i: nat): seq<Handle>
    requires i < |ns|
  {
    ns[..i] + ns[i + 1..]
  }

  ghost function Put(ns: seq<Handle>, i: nat, h: Handle): seq<Handle>
    requires i <= |ns|
  {
    ns[..i] + [h] + ns[i..]
  }

  /** Link `h` in behind `prev`, the node before position `i`; the result is the new first node. */
  method LinkBehind(first: Handle?, prev: Handle?, h: Handle, ghost ns: seq<Handle>, ghost i: nat) returns (r: Handle?)
    requires Chain(ns) && i <= |ns| && h !in ns && first == (if ns == [] then null else ns[0])
    requires prev == if i == 0 then null else ns[i - 1]
    modifies h`next, ns`next
    ensures Chain(Put(ns, i, h)) && r == Put(ns, i, h)[0]
  {
    assert i > 0 ==> ns[i - 1].next == if i < |ns| then ns[i] else null;
    forall j {:trigger ns[j]} | 0 <= j < |ns|
      ensures ns[j] != h
    {
      assert ns[j] in ns;
    }
    r := first;
    if prev == null {
      h.next := first;
      r := h;
    } else {
      h.next := prev.next;
      prev.next := h;
    }
    ghost var p := Put(ns, i, h);
    forall j {:trigger p[j].next} | 0 <= j < |p|
      ensures p[j].next == if j + 1 < |p| then p[j + 1] else null
    {
      if j != i {
        var k := if j < i then j else j - 1;
        assert p[j] == ns[k] && (j != i - 1 ==> ns[k].next == old(ns[k].next));
      }
    }
  }

  lemma PutHolds(ns: seq<Handle>, bs: seq<Block>, i: nat, h: Handle)
    requires Holds(ns, bs) && i <= |ns|
    ensures i <= |bs| && Holds(Put(ns, i, h), InsertAt(bs, i, Block(h.base, h.len)))
  {
  }

  class FreeList {
    var freelist: Handle?
    ghost var nodes: seq<Handle>
    ghost var free: seq<Block>

    ghost predicate Valid()
      reads this, nodes
    {
      && freelist == (if nodes == [] then null else nodes[0])
      && Chain(nodes) && Holds(nodes, free)
    }

    constructor (size: nat)
      ensures Valid() && free == Init(size).free && fresh(nodes)
    {
      var ph := new Handle(0, size);
      freelist := ph;
      nodes := [ph];
      free := [Block(0, size)];
    }

    /** Unlink handle `i`, the one after `prev`. */
    method Unlink(prev: Handle?, ph: Handle, ghost i: nat)
      requires Valid() && i < |nodes| && ph == nodes[i] && prev == if i == 0 then null else nodes[i - 1]
      modifies this, nodes`next
      ensures Valid() && nodes == Take(old(nodes), i) && ph !in nodes && free == Remove(old(free), i)
    {
      ghost var ns := nodes;
      assert ns[i].next == if i + 1 < |ns| then ns[i + 1] else null;
      if prev == null {
        freelist := ph.next;
      } else {
        prev.next := ph.next;
      }
      nodes := Take(ns, i);
      free := Remove(free, i);
      forall j {:trigger nodes[j].next} | 0 <= j < |nodes|
        ensures nodes[j].next == if j + 1 < |nodes| then nodes[j + 1] else null
      {
        var k := if j < i then j else j + 1;
        assert nodes[j] == ns[k] && (j != i - 1 ==> ns[k].next == old(ns[k].next));
      }
    }

    /** Link `h` in behind `prev`, the handle before position `i`. */
    method LinkIn(prev: Handle?, h: Handle, ghost i: nat)
      requires Valid() && i <= |nodes| && h !in nodes && prev == if i == 0 then null else nodes[i - 1]
      modifies this, h`next, nodes`next
      ensures Valid() && nodes == Put(old(nodes), i, h)
      ensures free == InsertAt(old(free), i, Block(h.base, h.len))
    {
      hide Chain;
      ghost var ns := nodes;
      freelist := LinkBehind(freelist, prev, h, ns, i);
      PutHolds(ns, free, i, h);
      nodes := Put(ns, i, h);
      free := InsertAt(free, i, Block(h.base, h.len));
    }

    /** Give handle `i` a new range. */
    method SetRange(ph: Handle, base: int, len: nat, ghost i: nat)
      requires Valid() && i < |nodes| && ph == nodes[i]
      modifies ph`base, ph`len, `free
      ensures Valid() && |old(free)| == |nodes| && free == old(free)[i := Block(base, len)]
    {
      ph.base := base;
      ph.len := len;
      free := free[i := Block(base, len)];
    }

    /** Allocate `length` bytes: the first fit, whole or its lower part. */
    method Alloc(length: nat) returns (handle: Handle?)
      requires Valid()
      modifies this, nodes
      ensures Valid()
      ensures match PacketMemSpec.Alloc(old(free), length)
              case None => handle == null && free == old(free)
              case Some(r) =>
                && handle != null && handle !in nodes && free == r.0
                && handle.base == r.1.base && handle.len == r.1.len
      ensures handle != null ==> handle in old(nodes) || fresh(handle)
      ensures forall n :: n in nodes ==> n in old(nodes)
    {
      hide Chain, FirstFit, Remove;
      var prev, ph;
      ghost var i;
      prev, ph, i := FindFit(length);
      if ph == null {
        return null;
      }
      SameRange(ph, i);
      if ph.len == length {
        ghost var ns := nodes;
        Unlink(prev, ph, i);
        handle := ph;
        TakeMembers(ns, i);
      } else {
        handle := new Handle(ph.base, length);
        SetRange(ph, ph.base + length, ph.len - length, i);
      }
    }

    /** Look for the first block that is long enough. */
    method FindFit(length: nat) returns (prev: Handle?, ph: Handle?, ghost i: nat)
      requires Valid()
      ensures |nodes| == |free| && i == FirstFit(free, length)
      ensures ph == (if i < |nodes| then nodes[i] else null) && prev == if i == 0 then null else nodes[i - 1]
    {
      prev, ph, i := null, freelist, 0;
      while ph != null && ph.len < length
        invariant i <= |nodes| && ph == (if i < |nodes| then nodes[i] else null)
        invariant prev == if i == 0 then null else nodes[i - 1]
        invariant i + FirstFit(free[i..], length) == FirstFit(free, length)
        decreases |nodes| - i
      {
        assert nodes[i].len == free[i].len;
        assert free[i..][1..] == free[i + 1..];
        prev := ph;
        ph := ph.next;
        i := i + 1;
      }
      if i < |nodes| {
        assert nodes[i].len == free[i].len;
      }
    }

    /** Give a block back. */
    method Release(handle: Handle)
      requires Valid() && handle !in nodes
      modifies this, handle, nodes
      ensures Valid() && free == Free(old(free), Block(old(handle.base), old(handle.len)))
      ensures forall n :: n in nodes ==> n in old(nodes) || n == handle
    {
      hide Chain, Holds, MergeAround;
      ghost var ns := nodes;
      var prev, i := FindPlace(handle.base, handle.len);
      LinkIn(prev, handle, i);
      PutMembers(ns, i, handle);
      Merge(prev, i);
    }

    /** Look for the place of a freed block; the search looks one block ahead. */
    method FindPlace(base: int, len: nat) returns (prev: Handle?, ghost i: nat)
      requires Valid()
      ensures i == FreeAt(free, Block(base, len)) && i <= |nodes| && |nodes| == |free|
      ensures prev == if i == 0 then null else nodes[i - 1]
    {
      ghost var b := Block(base, len);
      prev, i := null, 0;
      var ph := freelist;
      assert free[0..] == free;
      while ph != null && ph.next != null && ph.next.base < base
        invariant i <= |nodes| && ph == (if i < |nodes| then nodes[i] else null)
        invariant prev == if i == 0 then null else nodes[i - 1]
        invariant i + FreeAt(free[i..], b) == FreeAt(free, b)
        decreases |nodes| - i
      {
        assert nodes[i].next == nodes[i + 1] && nodes[i + 1].base == free[i + 1].base;
        assert free[i..][1..] == free[i + 1..];
        prev := ph;
        ph := ph.next;
        i := i + 1;
      }
      if i + 1 < |nodes| {
        assert nodes[i].next == nodes[i + 1] && nodes[i + 1].base == free[i + 1].base;
      }
    }

    lemma SameRange(ph: Handle, i: nat)
      requires Valid() && i < |nodes| && ph == nodes[i]
      ensures |nodes| == |free| && ph.base == free[i].base && ph.len == free[i].len
      ensures ph.next == if i + 1 < |nodes| then nodes[i + 1] else null
    {
    }

    /** Merge handle `i` with the next one if they are adjacent. */
    method MergeWithNext(ph: Handle, ghost i: nat) returns (merged: bool)
      requires Valid() && i < |nodes| && ph == nodes[i]
      modifies this, nodes
      ensures Valid() && |old(free)| == |old(nodes)|
      ensures free == MergeNext(old(free), i) && merged == (|free| < |old(free)|)
      ensures merged ==> i + 1 < |old(nodes)| && nodes == Take(old(nodes), i + 1)
      ensures !merged ==> nodes == old(nodes)
    {
      hide Chain, Holds;
      SameRange(ph, i);
      var next := ph.next;
      merged := false;
      if next != null {
        SameRange(next, i + 1);
        if ph.base + ph.len == next.base {
          ghost var ns, bs := nodes, free;
          var len := ph.len + next.len;
          Unlink(ph, next, i + 1);
          assert nodes[i] == ns[i];
          SetRange(ph, ph.base, len, i);
          merged := true;
        }
      }
    }

    /** Merge around the handle just put at position `i`, behind `prev`. */
    method Merge(prev: Handle?, ghost i: nat)
      requires Valid() && i < |nodes| && prev == if i == 0 then null else nodes[i - 1]
      modifies this, nodes
      ensures Valid() && |old(free)| == |old(nodes)| && free == MergeAround(old(free), i)
      ensures forall n :: n in nodes ==> n in old(nodes)
    {
      hide Chain, Holds, MergeNext;
      ghost var ns := nodes;
      if prev != null {
        SameRange(prev, i - 1);
        var ph := prev.next;
        var merged := MergeWithNext(prev, i - 1);
        if merged {
          TakeMembers(ns, i);
          ph := prev;
        }
        ghost var ms := nodes;
        var again := MergeWithNext(ph, if merged then i - 1 else i);
        if again {
          TakeMembers(ms, if merged then i else i + 1);
        }
      } else {
        var again := MergeWithNext(freelist, 0);
        if again {
          TakeMembers(ns, 1);
        }
      }
    }
  }

  lemma TakeMembers(ns: seq<Handle>, i: nat)
    requires i < |ns|
    ensures forall n :: n in Take(ns, i) ==> n in ns
  {
  }

  lemma PutMembers(ns: seq<Handle>, i: nat, h: Handle)
    requires i <= |ns|
    ensures forall n :: n in Put(ns, i, h) ==> n in ns || n == h
    ensures Put(ns, i, h)[i] == h && (i > 0 ==> Put(ns, i, h)[i - 1] == ns[i - 1])
  {
  }
}

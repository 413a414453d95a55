/** Eight registrations after which one flow is no longer found. */
module FlowTableExamples {
  import opened Word
  import opened FlowTable

  /** Register flows with these hashes, numbered from `fid` on; stops at the first failure. */
  function AddAll(t: Table, hashes: seq<u32>, fid: int): (bool, Table)
    decreases |hashes|
  {
    if hashes == [] then (true, t)
    else
      var (ok, u) := AddFlow(t, hashes[0], fid);
      if ok then AddAll(u, hashes[1..], fid + 1) else (false, u)
  }

  /** A flow whose home slot is free goes there. */
  lemma AddHome(t: Table, hash: u32, fid: int)
    requires t[Home(hash)].id.Free?
    ensures AddFlow(t, hash, fid) == (true, t[Home(hash) := Slot(Held(0, fid), hash)])
  {
    hide Mover, Displace;
    assert Forward(Home(hash), 0) == Home(hash);
    assert SlotAlloc(t, hash) == (Allocated(Home(hash), 0), t);
    assert AddWrites(t, Home(hash), 0, fid, hash).1 == t[Home(hash) := Slot(Held(0, fid), hash)];
  }

  /** The slots within reach of home slot `j` are taken, the one behind them is free, the first of them must
      stay, and the second is as free to move as an entry can be. */
  ghost predicate Crowded(t: Table, j: int) {
    && 0 <= j <= 16
    && t[j].id.Held? && t[j].id.disp == 0 && t[j + 1].id.Held? && t[j + 1].id.disp == 0
    && t[j + 2].id.Held? && t[j + 3].id.Held? && t[j + 4].id.Free?
  }

  /** Then the entry behind home is moved by three slots, and the new flow takes its place. */
  lemma AddCrowded(t: Table, hash: u32, fid: int)
    requires Home(hash) <= 16 && Crowded(t, Home(hash))
    ensures var j := Home(hash);
            AddFlow(t, hash, fid) == (true, t[j + 4 := t[j + 1]][j + 1 := Slot(Held(1, fid), hash)])
  {
    hide Displace, FirstFree, Mover;
    var j := Home(hash);
    Slots(t, j);
    var u := MoveWrites(t, j + 1, j + 4).2;
    DisplaceNext(t, j, 4);
    DisplaceEnd(u, j, 1);
    assert u == t[j + 4 := t[j + 1]][j + 1 := Slot(Free, t[j + 1].hash)];
    assert SlotAlloc(t, hash) == (Allocated(j + 1, 1), u);
    assert AddWrites(u, j + 1, 1, fid, hash).1 == t[j + 4 := t[j + 1]][j + 1 := Slot(Held(1, fid), hash)];
  }

  lemma Slots(t: Table, j: int)
    requires Crowded(t, j)
    ensures FirstFree(t, j, 0, NBSZ) == 4 && FirstFree(t, j, NBSZ, 5 * NBSZ) == 4
    ensures forall d {:trigger Forward(j, d)} :: 0 <= d <= 4 ==> Forward(j, d) == j + d
    ensures Mover(t, j + 4, NBSZ) == 3 && Back(j + 4, 3) == j + 1
  {
    assert forall d {:trigger Forward(j, d)} :: 0 <= d < 4 ==> t[Forward(j, d)].id.Held?;
    assert FirstFree(t, j, NBSZ, 5 * NBSZ) == 4 by {
      assert Forward(j, 4) == j + 4;
    }
    assert Back(j + 4, 4) == j && Back(j + 4, 3) == j + 1;
    assert Mover(t, j + 4, 4) == Mover(t, j + 4, 3) == 3;
  }

  function Empty(): Table { seq(ENTRIES, _ => Slot(Free, 0)) }

  /** Home slots 0 to 3, 5 and 6, then once more 0 and 3. */
  const HASHES: seq<u32> := [0, 1, 2, 3, 5, 6, ENTRIES, ENTRIES + 3]

  /** The table after the first six flows. */
  function Six(): Table {
    Empty()[0 := Slot(Held(0, 0), 0)][1 := Slot(Held(0, 1), 1)][2 := Slot(Held(0, 2), 2)]
         [3 := Slot(Held(0, 3), 3)][5 := Slot(Held(0, 4), 5)][6 := Slot(Held(0, 5), 6)]
  }

  lemma AddFirst(t: Table, hashes: seq<u32>, fid: int)
    requires hashes != [] && t[Home(hashes[0])].id.Free?
    ensures AddAll(t, hashes, fid)
         == AddAll(t[Home(hashes[0]) := Slot(Held(0, fid), hashes[0])], hashes[1..], fid + 1)
  {
    hide AddFlow;
    AddHome(t, hashes[0], fid);
  }

  lemma SixAdded()
    ensures AddAll(Empty(), HASHES, 0) == AddAll(Six(), [ENTRIES, ENTRIES + 3], 6)
  {
    hide AddAll;
    var h: seq<u32> := HASHES;
    var t0: Table := Empty();
    var t1: Table := t0[0 := Slot(Held(0, 0), 0)];
    var t2: Table := t1[1 := Slot(Held(0, 1), 1)];
    var t3: Table := t2[2 := Slot(Held(0, 2), 2)];
    var t4: Table := t3[3 := Slot(Held(0, 3), 3)];
    var t5: Table := t4[5 := Slot(Held(0, 4), 5)];
    AddFirst(t0, h, 0);
    AddFirst(t1, h[1..], 1);
    assert h[1..][1..] == h[2..];
    AddFirst(t2, h[2..], 2);
    assert h[2..][1..] == h[3..];
    AddFirst(t3, h[3..], 3);
    assert h[3..][1..] == h[4..];
    AddFirst(t4, h[4..], 4);
    assert h[4..][1..] == h[5..];
    AddFirst(t5, h[5..], 5);
    assert h[5..][1..] == [ENTRIES, ENTRIES + 3];
  }

  lemma AddTwo(t: Table, g: u32, h: u32, fid: int)
    ensures AddFlow(t, g, fid).0 && AddFlow(AddFlow(t, g, fid).1, h, fid + 1).0 ==>
              AddAll(t, [g, h], fid) == AddFlow(AddFlow(t, g, fid).1, h, fid + 1)
  {
    hide AddFlow;
    assert [g, h][1..] == [h];
    var (ok, u) := AddFlow(t, g, fid);
    if ok && AddFlow(u, h, fid + 1).0 {
      assert AddAll(u, [h], fid + 1) == AddAll(AddFlow(u, h, fid + 1).1, [], fid + 2);
    }
  }

  /** Starting from an empty table, eight flows are registered, each with success. The seventh moves the second
      flow three slots on, the eighth moves it another three, and no reader finds it any more. */
  lemma SecondFlowLost()
    ensures AddAll(Empty(), HASHES, 0).0
    ensures !NeverMissed([AddAll(Empty(), HASHES, 0).1], 1, HASHES[1])
  {
    hide AddFlow, NeverMissed;
    SixAdded();
    var six := Six();
    AddCrowded(six, ENTRIES, 6);
    var seven: Table := six[4 := six[1]][1 := Slot(Held(1, 6), ENTRIES)];
    AddCrowded(seven, ENTRIES + 3, 7);
    var eight: Table := seven[7 := seven[4]][4 := Slot(Held(1, 7), ENTRIES + 3)];
    AddTwo(six, ENTRIES, ENTRIES + 3, 6);
    FoundExactly(eight, 1, 1);
    forall p | 0 <= p < NBSZ
      ensures !Shows(eight, Forward(Home(1), p), 1, 1)
    {
      assert Forward(Home(1), p) == 1 + p;
    }
  }
}

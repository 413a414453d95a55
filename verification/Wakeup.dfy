/** Transmit credit: the queue managers of all cores together never lose track of a flow that can send. */
module Wakeup {
  import opened Word
  import opened FlowOps

  /** A core's queue for the flow: credit, bytes per fire, and fires not yet carried out. */
  datatype Queue = Queue(avail: u32, maxChunk: u16, fires: seq<u16>, forwards: nat)

  /** A flow, its queue on every core, and the core its packets are steered to. `forwards` counts the
      flow's entries in a core's forwarding ring. */
  datatype World = World(flow: Flow, cores: seq<Queue>, steer: int)

  datatype Event =
    | OnPacket(p: Segment, ce: bool)
    | OnBump(bumpSeq: u32, rxTail: u32, txHead: u32)
    | OnTimeout
    | Poll       // the queue manager fires
    | Fire       // a fire is carried out
    | Forward    // an entry of the forwarding ring is taken
    | Steer      // the flow's packets are steered to this core from now on

  ghost predicate WorldWf(w: World) {
    && FlowWf(w.flow) && 0 <= w.steer < |w.cores|
    && forall c {:trigger w.cores[c]} :: 0 <= c < |w.cores| ==>
         && (w.cores[c].avail > 0 ==> w.cores[c].maxChunk == TCP_MSS)
         && (forall b :: b in w.cores[c].fires ==> b <= TCP_MSS)
  }

  /** Credit gained by the flow in an event. */
  function Credit(f: Flow, e: Event): u32
    requires FlowWf(f) && FlowEvent(f, e)
  {
    match e
    case OnPacket(p, ce) => Packet(f, p, ce).credit
    case OnBump(b, t, h) => Bump(f, b, t, h).credit
    case OnTimeout => Retransmit(f).1
  }

  function Changed(f: Flow, e: Event): (r: Flow)
    requires FlowWf(f) && FlowEvent(f, e)
    ensures FlowWf(r)
  {
    match e
    case OnPacket(p, ce) => Packet(f, p, ce).flow
    case OnBump(b, t, h) => Bump(f, b, t, h).flow
    case OnTimeout => Retransmit(f).0
  }

  predicate FlowEvent(f: Flow, e: Event)
    requires FlowWf(f)
  {
    match e
    case OnPacket(p, ce) => Trimmable(f.rx, p.sn, |p.payload|)
    case OnBump(b, t, h) => BumpIsNew(b, f.bumpSeq) ==> HeadOk(f.tx, h) && TailOk(f.rx, t)
    case OnTimeout => true
    case _ => false
  }

  function AddCredit(q: Queue, credit: u32): Queue {
    if credit == 0 then q else q.(avail := Add32(q.avail, credit), maxChunk := TCP_MSS)
  }

  ghost predicate CanHappen(w: World, c: int, e: Event)
    requires WorldWf(w)
  {
    && 0 <= c < |w.cores|
    && match e
       case Poll => w.cores[c].avail > 0
       case Fire => w.cores[c].fires != []
       case Forward => w.cores[c].forwards > 0
       case Steer => true
       case _ => FlowEvent(w.flow, e)
  }

  function Happen(w: World, c: int, e: Event): World
    requires WorldWf(w) && CanHappen(w, c, e)
  {
    var q := w.cores[c];
    match e
    case Poll =>
      var bytes := Min(q.avail, q.maxChunk);
      w.(cores := w.cores[c := q.(avail := q.avail - bytes, fires := q.fires + [bytes])])
    case Fire =>
      var rest := q.(fires := q.fires[1..]);
      if c != w.steer then
        // The flow has moved: put it into the other core's ring and clear this queue.
        var there := w.cores[w.steer];
        w.(cores := w.cores[c := rest.(avail := 0, maxChunk := 0)]
                           [w.steer := there.(forwards := there.forwards + 1)])
      else
        var t := Transmit(w.flow);
        w.(flow := if t.Some? then t.value.0 else w.flow, cores := w.cores[c := rest])
    case Forward =>
      w.(cores := w.cores[c := q.(avail := Available(w.flow.tx), maxChunk := TCP_MSS,
                                  forwards := q.forwards - 1)])
    case Steer =>
      w.(steer := c)
    case _ =>
      w.(flow := Changed(w.flow, e), cores := w.cores[c := AddCredit(q, Credit(w.flow, e))])
  }

  /** The addition to the 32-bit credit does not wrap around. */
  ghost predicate NoOverflow(w: World, c: int, e: Event)
    requires WorldWf(w) && CanHappen(w, c, e)
  {
    FlowEvent(w.flow, e) ==> w.cores[c].avail + Credit(w.flow, e) < TWO32
  }

  // ------------------------------------------------------------ total credit

  function Sum(fires: seq<u16>): (r: int)
    ensures 0 <= r
  {
    if fires == [] then 0 else fires[0] + Sum(fires[1..])
  }

  /** Credit and fires on one core. */
  function Held(q: Queue): (r: int)
    ensures 0 <= r
  {
    q.avail + Sum(q.fires)
  }

  function Total(cores: seq<Queue>): (r: int)
    ensures 0 <= r
  {
    if cores == [] then 0 else Held(cores[0]) + Total(cores[1..])
  }

  lemma {:induction false} SumAppend(fires: seq<u16>, b: u16)
    ensures Sum(fires + [b]) == Sum(fires) + b
  {
    if fires == [] {
      assert fires + [b] == [b];
    } else {
      SumAppend(fires[1..], b);
      assert (fires + [b])[1..] == fires[1..] + [b];
    }
  }

  lemma {:induction false} TotalUpdate(cores: seq<Queue>, c: int, q: Queue)
    requires 0 <= c < |cores|
    ensures Total(cores[c := q]) == Total(cores) - Held(cores[c]) + Held(q)
  {
    if c == 0 {
      assert cores[c := q][1..] == cores[1..];
    } else {
      TotalUpdate(cores[1..], c - 1, q);
      assert cores[c := q][1..] == cores[1..][c - 1 := q];
    }
  }

  /** Some core holds credit if the total is positive. */
  lemma {:induction false} SomeHeld(cores: seq<Queue>) returns (c: int)
    requires Total(cores) > 0
    ensures 0 <= c < |cores| && Held(cores[c]) > 0
  {
    if Held(cores[0]) > 0 {
      c := 0;
    } else {
      c := SomeHeld(cores[1..]);
      c := c + 1;
    }
  }

  lemma {:induction false} NothingHeld(cores: seq<Queue>)
    requires forall i :: 0 <= i < |cores| ==> Held(cores[i]) == 0
    ensures Total(cores) == 0
  {
    if cores != [] {
      NothingHeld(cores[1..]);
    }
  }

  // ------------------------------------------------------------ the invariant

  ghost predicate Forwarding(w: World) {
    exists c :: 0 <= c < |w.cores| && w.cores[c].forwards > 0
  }

  /** All credit together covers what the flow may send, unless the flow is being forwarded. */
  ghost predicate Covered(w: World) {
    && WorldWf(w)
    && (Total(w.cores) >= Available(w.flow.tx) || Forwarding(w))
  }

  /** An event hands out exactly as much credit as it raises what can be sent, or none. */
  lemma CreditExact(f: Flow, e: Event)
    requires FlowWf(f) && FlowEvent(f, e)
    ensures Credit(f, e) == Max(0, Available(Changed(f, e).tx) - Available(f.tx))
  {
  }

  /** Sending lowers what can be sent by exactly the bytes sent. */
  lemma TransmitSpends(f: Flow)
    requires FlowWf(f)
    ensures match Transmit(f)
            case None => Available(f.tx) == 0
            case Some(r) => Available(r.0.tx) == Available(f.tx) - Min(Available(f.tx), TCP_MSS)
  {
  }

  /** Without overflow an addition raises the total by exactly the credit; with overflow 2^32 bytes are lost. */
  lemma AddCreditTotal(cores: seq<Queue>, c: int, credit: u32)
    requires 0 <= c < |cores|
    ensures Total(cores[c := AddCredit(cores[c], credit)])
         == Total(cores) + credit - (if cores[c].avail + credit < TWO32 then 0 else TWO32)
  {
    TotalUpdate(cores, c, AddCredit(cores[c], credit));
  }

  lemma HappenCovered(w: World, c: int, e: Event)
    requires Covered(w) && CanHappen(w, c, e) && NoOverflow(w, c, e)
    ensures Covered(Happen(w, c, e))
  {
    hide Transmit, Packet, Bump, Retransmit, Available, W32, RxWf, TxWf, FlowEvent, Credit, Changed, Sum, Total;
    var n := Happen(w, c, e);
    var q := w.cores[c];
    match e
    case Poll =>
      SumAppend(q.fires, Min(q.avail, q.maxChunk));
      TotalUpdate(w.cores, c, n.cores[c]);
      StillForwarding(w, n);
    case Fire =>
      FireCovered(w, c);
    case Forward =>
      ForwardCovered(w, c);
    case Steer =>
      StillForwarding(w, n);
    case _ =>
      CreditExact(w.flow, e);
      AddCreditTotal(w.cores, c, Credit(w.flow, e));
      StillForwarding(w, n);
  }

  /** With or without overflow: an addition of credit leaves the flow covered if and only if what is left of the
      total covers it, or it is being forwarded. */
  lemma AdditionCoveredExactly(w: World, c: int, e: Event)
    requires WorldWf(w) && CanHappen(w, c, e) && FlowEvent(w.flow, e)
    ensures var n := Happen(w, c, e);
            var lost := if NoOverflow(w, c, e) then 0 else TWO32;
            Covered(n) <==> Total(w.cores) + Credit(w.flow, e) - lost >= Available(n.flow.tx) || Forwarding(w)
  {
    hide Transmit, Packet, Bump, Retransmit, Available, W32, RxWf, TxWf, Credit, Changed, Sum, Total;
    var n := Happen(w, c, e);
    AddCreditTotal(w.cores, c, Credit(w.flow, e));
    StillForwarding(w, n);
    StillForwarding(n, w);
  }

  lemma StillForwarding(w: World, n: World)
    requires |n.cores| == |w.cores|
    requires forall c {:trigger n.cores[c]} :: 0 <= c < |w.cores| ==> n.cores[c].forwards >= w.cores[c].forwards
    ensures Forwarding(w) ==> Forwarding(n)
  {
    if Forwarding(w) {
      var c :| 0 <= c < |w.cores| && w.cores[c].forwards > 0;
      assert n.cores[c].forwards > 0;
    }
  }

  lemma FireCovered(w: World, c: int)
    requires Covered(w) && CanHappen(w, c, Fire)
    ensures Covered(Happen(w, c, Fire))
  {
    hide Transmit, Available, W32, RxWf, TxWf;
    var n := Happen(w, c, Fire);
    assert forall b :: b in w.cores[c].fires[1..] ==> b in w.cores[c].fires;
    if c != w.steer {
      assert n.cores[w.steer].forwards > 0;
    } else {
      assert w.cores[c].fires[0] in w.cores[c].fires;
      TransmitWf(w.flow);
      TransmitSpends(w.flow);
      TotalUpdate(w.cores, c, n.cores[c]);
      StillForwarding(w, n);
    }
  }

  lemma TransmitWf(f: Flow)
    requires FlowWf(f)
    ensures Transmit(f).Some? ==> FlowWf(Transmit(f).value.0)
  {
  }

  lemma ForwardCovered(w: World, c: int)
    requires Covered(w) && CanHappen(w, c, Forward)
    ensures Covered(Happen(w, c, Forward))
  {
    hide Available, W32, RxWf, TxWf;
    var n := Happen(w, c, Forward);
    TotalUpdate(w.cores, c, n.cores[c]);
    TotalUpdate(w.cores, c, n.cores[c].(avail := 0, fires := []));
  }

  // ------------------------------------------------------------ runs

  /** A fresh flow has nothing to send, and no core knows of it. */
  ghost predicate InitWorld(w: World) {
    && WorldWf(w) && Available(w.flow.tx) == 0
    && forall c :: 0 <= c < |w.cores| ==> Held(w.cores[c]) == 0 && w.cores[c].forwards == 0
  }

  ghost predicate IsWorldRun(run: seq<World>, evs: seq<(int, Event)>) {
    && |run| == |evs| + 1
    && InitWorld(run[0])
    && forall i :: 0 <= i < |evs| ==> Next(run[i], evs[i], run[i + 1])
  }

  ghost predicate Next(w: World, ev: (int, Event), n: World) {
    && WorldWf(w) && CanHappen(w, ev.0, ev.1)
    && n == Happen(w, ev.0, ev.1)
  }

  ghost predicate NeverOverflows(run: seq<World>, evs: seq<(int, Event)>)
    requires IsWorldRun(run, evs)
  {
    forall i {:trigger evs[i]} :: 0 <= i < |evs| ==>
      Next(run[i], evs[i], run[i + 1]) && NoOverflow(run[i], evs[i].0, evs[i].1)
  }

  lemma {:induction false} RunCovered(run: seq<World>, evs: seq<(int, Event)>, k: nat)
    requires IsWorldRun(run, evs) && NeverOverflows(run, evs) && k < |run|
    ensures Covered(run[k])
  {
    if k > 0 {
      RunCovered(run, evs, k - 1);
      assert evs[k - 1] == evs[k - 1];
      HappenCovered(run[k - 1], evs[k - 1].0, evs[k - 1].1);
    }
  }

  /** Whatever segments arrive and however the flow is moved between cores: if it can send, then the core it
      is steered to holds credit or fires for all of that, or another core holds some, or it sits in a
      forwarding ring. */
  lemma NoLostWakeup(run: seq<World>, evs: seq<(int, Event)>, k: nat)
    requires IsWorldRun(run, evs) && NeverOverflows(run, evs) && k < |run|
    ensures var w := run[k];
            && WorldWf(w)
            && (Available(w.flow.tx) > 0 ==>
                  || Held(w.cores[w.steer]) >= Available(w.flow.tx)
                  || (exists c :: 0 <= c < |w.cores| && c != w.steer && Held(w.cores[c]) > 0)
                  || Forwarding(w))
  {
    RunCovered(run, evs, k);
    var w := run[k];
    if !Forwarding(w) && Available(w.flow.tx) > Held(w.cores[w.steer]) {
      var others := w.cores[w.steer := w.cores[w.steer].(avail := 0, fires := [])];
      TotalUpdate(w.cores, w.steer, others[w.steer]);
      var c := SomeHeld(others);
      assert Held(w.cores[c]) > 0;
    }
  }

  /** An addition that wraps the only credit around to zero loses the flow: it can send, and nobody knows. */
  lemma OverflowLosesWakeup(w: World, c: int, e: Event)
    requires WorldWf(w) && CanHappen(w, c, e) && FlowEvent(w.flow, e)
    requires w.cores[c].avail > 0 && w.cores[c].avail + Credit(w.flow, e) == TWO32
    requires w.cores[c].fires == []
    requires forall i :: 0 <= i < |w.cores| ==>
               w.cores[i].forwards == 0 && (i != c ==> Held(w.cores[i]) == 0)
    ensures var n := Happen(w, c, e);
            Available(n.flow.tx) > 0 && Total(n.cores) == 0 && !Forwarding(n)
  {
    var n := Happen(w, c, e);
    forall i | 0 <= i < |n.cores|
      ensures Held(n.cores[i]) == 0 && n.cores[i].forwards == 0
    {
      assert w.cores[i].forwards == 0;
    }
    NothingHeld(n.cores);
  }
}

/** A run in which the 32-bit credit of a queue wraps around to zero and the flow is forgotten. */
module WakeupExamples {
  import opened TcpCommon
  import opened FlowOps
  import opened Wakeup

  /** Bytes handed over and acknowledged in each round, and the lengths of the two rings. */
  const CHUNK: int := 0x4000_0000
  const RX_LEN: int := 0x4000_0000
  const TX_LEN: int := 0x6000_0000

  /** Some run ends in world `w`. */
  ghost predicate Reachable(w: World) {
    exists run: seq<World>, evs: seq<(int, Event)> {:trigger IsWorldRun(run, evs)} ::
      IsWorldRun(run, evs) && run[|evs|] == w
  }

  lemma ReachInit(w: World)
    requires InitWorld(w)
    ensures Reachable(w)
  {
    hide InitWorld;
    var run: seq<World>, evs: seq<(int, Event)> := [w], [];
    assert IsWorldRun(run, evs);
  }

  lemma ReachNext(w: World, c: int, e: Event)
    requires Reachable(w) && WorldWf(w) && CanHappen(w, c, e)
    ensures Reachable(Happen(w, c, e))
  {
    hide InitWorld, WorldWf, CanHappen, Happen;
    var run: seq<World>, evs: seq<(int, Event)> :| IsWorldRun(run, evs) && run[|evs|] == w;
    var longer, more := run + [Happen(w, c, e)], evs + [(c, e)];
    forall i | 0 <= i < |more|
      ensures Next(longer[i], more[i], longer[i + 1])
    {
      if i < |evs| {
        assert Next(run[i], evs[i], run[i + 1]);
      }
    }
    assert IsWorldRun(longer, more);
  }

  /** Ring position after `n` rounds. */
  function Pos(n: nat): (r: int)
    requires n <= 4
    ensures 0 <= r < TX_LEN
  {
    n * CHUNK % TX_LEN
  }

  /** One core, on which nothing has been polled yet. In `n` rounds the application hands over a chunk, and a
      future acknowledgement of all of it arrives before any of it was sent. */
  function Rounds(n: nat): (w: World)
    requires n <= 3
    ensures WorldWf(w) && Available(w.flow.tx) == 0
  {
    var rx := Rx(seq(RX_LEN, _ => 0), RX_LEN, 0, 1, 0, 0);
    var tx := Tx(seq(TX_LEN, _ => 0), Pos(n), Pos(n), n * CHUNK, 0, RX_LEN);
    World(Flow(rx, tx, 0, n, 0, 0, n, n * CHUNK, 0),
          [Queue(n * CHUNK, if n == 0 then 0 else TCP_MSS, [], 0)], 0)
  }

  /** The application tells the fast path of another chunk. */
  function More(n: nat): Event
    requires n <= 3
  {
    OnBump(n + 1, 0, Pos(n + 1))
  }

  /** An acknowledgement of the whole chunk, in a segment numbered one before the next expected byte. */
  function Ahead(n: nat): Event
    requires n <= 2
  {
    OnPacket(Seg(0, (n + 1) * CHUNK, true, false, 0, []), false)
  }

  lemma Told(n: nat)
    requires n <= 3
    ensures CanHappen(Rounds(n), 0, More(n))
    ensures Credit(Rounds(n).flow, More(n)) == CHUNK
    ensures var f := Rounds(n).flow;
            Changed(f, More(n)) == f.(bumpSeq := n + 1, tx := f.tx.(head := Pos(n + 1)))
  {
  }

  /** The flow with a chunk handed over that was not sent. */
  function Offered(n: nat): (f: Flow)
    requires n <= 2
    ensures FlowWf(f) && f.tx.sent == 0 && TxBuffered(f.tx) == CHUNK
  {
    var f := Rounds(n).flow;
    f.(bumpSeq := n + 1, tx := f.tx.(head := Pos(n + 1)))
  }

  lemma Acknowledged(n: nat)
    requires n <= 2
    ensures AckStep(Offered(n), Ahead(n).p) == AckResult(Rounds(n + 1).flow, CHUNK, false)
  {
    var f := Offered(n);
    RxAckExact(f.tx.nextSeq, f.tx.sent, f.tx.nextPos, f.tx.head, |f.tx.ring|, (n + 1) * CHUNK);
    assert Advance(f.tx.nextPos, CHUNK, TX_LEN) == Pos(n + 1);
  }

  lemma AheadHappens(n: nat)
    requires n <= 2
    ensures FlowEvent(Offered(n), Ahead(n)) && Credit(Offered(n), Ahead(n)) == 0
    ensures Changed(Offered(n), Ahead(n)) == Rounds(n + 1).flow
  {
    hide AckStep, Pos, Available;
    Acknowledged(n);
    assert RxStep(Offered(n).rx, 0, []) == RxResult(Offered(n).rx, 0, false);
  }

  /** One round adds a chunk of credit and leaves nothing to send. */
  lemma Round(n: nat)
    requires n <= 2 && Reachable(Rounds(n))
    ensures Reachable(Rounds(n + 1))
  {
    hide Reachable, Credit, Changed, FlowEvent, Pos, Available, FlowWf;
    Told(n);
    var w := Rounds(n);
    ReachNext(w, 0, More(n));
    var h := Happen(w, 0, More(n));
    AheadHappens(n);
    assert h.flow == Offered(n);
    ReachNext(h, 0, Ahead(n));
    assert Happen(h, 0, Ahead(n)) == Rounds(n + 1);
  }

  lemma Start()
    ensures Reachable(Rounds(0))
  {
    hide Reachable;
    ReachInit(Rounds(0));
  }

  /** Four chunks of 2^30 bytes of credit wrap around to none: the flow can send, and nobody knows. */
  lemma OverflowReached()
    ensures exists w: World ::
              Reachable(w) && WorldWf(w) && Available(w.flow.tx) > 0 && Total(w.cores) == 0 && !Forwarding(w)
  {
    hide Reachable, Credit, Changed, FlowEvent, Pos, Available, FlowWf, Total;
    Start();
    Round(0);
    Round(1);
    Round(2);
    Told(3);
    ReachNext(Rounds(3), 0, More(3));
    OverflowLosesWakeup(Rounds(3), 0, More(3));
    var w := Happen(Rounds(3), 0, More(3));
    assert Reachable(w) && WorldWf(w);
  }
}

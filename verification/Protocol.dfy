/** Two endpoints and a network that loses, duplicates, delays and reorders segments. */
module Protocol {
  import opened Word
  import opened Ring
  import opened FlowOps
  import opened ConnOps
  import opened StreamHalves

  /** A notification on its way from the fast path to the application. */
  datatype Notif = Notif(rx: u32, tx: u32)

  /** A bump the application has issued, with the stream offsets its ring positions stand for. */
  datatype BumpRec = BumpRec(wire: BumpMsg, head: int, read: int)

  /** A segment in the network, with the stream offsets its sequence numbers stand for. */
  datatype Flight = Flight(seg: Segment, off: int, ackOff: int)

  /** One endpoint: flow record, application connection, the messages between the two, and running
      totals of both streams. */
  datatype Endpoint = Endpoint(
    iss: u32,               // sequence number of the first byte sent
    flow: Flow,
    conn: Conn,
    notifs: seq<Notif>,     // not yet taken by the application
    bumps: seq<BumpRec>,    // all bumps issued so far
    pending: set<int>,      // indices of the bumps not yet processed
    last: int,              // index of the last bump applied, or -1
    una: int,               // bytes acknowledged
    rcv: int,               // bytes received in order
    written: seq<byte>,     // bytes the application has put into the send ring
    sentOff: int,           // bytes the application has handed over for sending
    tail: int,              // acknowledged bytes the application knows of
    delivered: int,         // received bytes the application knows of
    handed: seq<byte>)      // bytes the application has read and freed

  datatype Action =
    | Receive(fl: Flight, ce: bool, lost: bool)  // `lost`: no room for the notification
    | Send
    | Timeout
    | Apply(i: int)                              // process bump `i`
    | Notify(i: int)                             // the application takes notification `i`
    | Confirm                                    // the kernel confirms the connection
    | Write(data: seq<byte>, contiguous: bool)
    | Push(n: nat)
    | Read(n: nat)
    | Tell                                       // the application issues a bump

  // ------------------------------------------------------------ derived offsets

  /** Stream offset of the next byte to send. */
  function NextOff(e: Endpoint): int { e.una + e.flow.tx.sent }

  /** Stream offset of the end of the bytes the fast path may send. */
  function HeadOff(e: Endpoint): int
    requires TxWf(e.flow.tx)
  {
    HeadOf(e.flow.tx, e.una)
  }

  /** Stream offset up to which the fast path knows the receive ring to be free. */
  function FreedOff(e: Endpoint): int { e.rcv + e.flow.rx.avail - |e.flow.rx.ring| }

  function SumRx(q: seq<Notif>): (r: int)
    ensures 0 <= r
  {
    if q == [] then 0 else q[0].rx + SumRx(q[1..])
  }

  function SumTx(q: seq<Notif>): (r: int)
    ensures 0 <= r
  {
    if q == [] then 0 else q[0].tx + SumTx(q[1..])
  }

  // ------------------------------------------------------------ steps

  function Remove<T>(q: seq<T>, i: int): seq<T>
    requires 0 <= i < |q|
  {
    q[..i] + q[i + 1..]
  }

  /** Bumps reach the fast path through one queue per core, so they may overtake each other. */
  predicate InReach(i: int, last: int) {
    Max(last, 0) - TWO31 + 2 < i <= Max(last, 0) + 0x4000_0000
  }

  predicate EndpointWf(e: Endpoint) {
    && FlowWf(e.flow) && ConnWf(e.conn)
    && e.conn.rxLen == |e.flow.rx.ring| && e.conn.txLen == |e.flow.tx.ring|
  }

  /** When an action may happen. Segments are less than half the sequence space old and do not meet
      the untrimmed wrap case; everything else is a check the code itself makes. */
  predicate Enabled(e: Endpoint, inbox: set<Flight>, a: Action)
    requires EndpointWf(e)
  {
    match a
    case Receive(fl, _, _) =>
      && fl in inbox
      && e.rcv - fl.off < TWO31 && e.una - fl.ackOff < TWO31
      && Trimmable(e.flow.rx, fl.seg.sn, |fl.seg.payload|)
    case Send => Transmit(e.flow).Some?
    case Timeout => true
    case Apply(i) => i in e.pending && 0 <= i < |e.bumps| && InReach(i, e.last)
    case Notify(i) => 0 <= i < |e.notifs|
    case Confirm => !e.conn.open
    case Write(data, contiguous) => e.conn.open
    case Push(n) => e.conn.open
    case Read(n) => e.conn.open
    case Tell => e.conn.open
  }

  function Fly(e: Endpoint, p: Segment, off: int): Flight { Flight(p, off, e.rcv) }

  function FlyOption(e: Endpoint, p: Option<Segment>, off: int): set<Flight> {
    if p.Some? then {Fly(e, p.value, off)} else {}
  }

  function AfterReceive(e: Endpoint, fl: Flight, ce: bool, lost: bool): (Endpoint, set<Flight>)
    requires EndpointWf(e) && Trimmable(e.flow.rx, fl.seg.sn, |fl.seg.payload|)
  {
    var r := Packet(e.flow, fl.seg, ce);
    var n := e.(
      flow := r.flow,
      una := e.una + r.txBump,
      rcv := e.rcv + r.rxBump,
      notifs := if (r.rxBump != 0 || r.txBump != 0) && !lost
                then e.notifs + [Notif(r.rxBump, r.txBump)] else e.notifs);
    (n, FlyOption(n, r.reply, NextOff(n)))
  }

  function AfterSend(e: Endpoint): (Endpoint, set<Flight>)
    requires EndpointWf(e) && Transmit(e.flow).Some?
  {
    var t := Transmit(e.flow).value;
    (e.(flow := t.0), {Fly(e, t.1, NextOff(e))})
  }

  function AfterTimeout(e: Endpoint): Endpoint
    requires EndpointWf(e)
  {
    e.(flow := Retransmit(e.flow).0)
  }

  predicate ApplyOk(e: Endpoint, i: int)
    requires EndpointWf(e) && 0 <= i < |e.bumps|
  {
    var m := e.bumps[i].wire;
    BumpIsNew(m.bumpSeq, e.flow.bumpSeq) ==> HeadOk(e.flow.tx, m.txHead) && TailOk(e.flow.rx, m.rxTail)
  }

  function AfterApply(e: Endpoint, i: int): (Endpoint, set<Flight>)
    requires EndpointWf(e) && 0 <= i < |e.bumps| && ApplyOk(e, i)
  {
    var m := e.bumps[i].wire;
    var r := Bump(e.flow, m.bumpSeq, m.rxTail, m.txHead);
    var n := e.(flow := r.flow, pending := e.pending - {i}, last := if r.applied then i else e.last);
    (n, FlyOption(n, r.update, NextOff(n)))
  }

  predicate NotifyOk(e: Endpoint, i: int)
    requires 0 <= i < |e.notifs|
  {
    var m := e.notifs[i];
    if e.conn.open then m.rx <= e.conn.rxLen && m.tx <= e.conn.txLen else m.tx == 0
  }

  function AfterNotify(e: Endpoint, i: int): Endpoint
    requires EndpointWf(e) && 0 <= i < |e.notifs| && NotifyOk(e, i)
  {
    var m := e.notifs[i];
    e.(conn := ConnUpdate(e.conn, m.rx, m.tx),
       notifs := Remove(e.notifs, i),
       delivered := e.delivered + m.rx,
       tail := e.tail + m.tx)
  }

  function AfterConfirm(e: Endpoint): Endpoint
    requires EndpointWf(e) && e.conn.rxHead < e.conn.rxLen
  {
    e.(conn := Open(e.conn))
  }

  function AfterWrite(e: Endpoint, data: seq<byte>, contiguous: bool): Endpoint
    requires EndpointWf(e)
  {
    var n := AllocLen(e.conn, |data|, contiguous);
    e.(flow := e.flow.(tx := e.flow.tx.(ring := RingWrite(e.flow.tx.ring, e.conn.txAlloc, data[..n]))),
       conn := TxAlloc(e.conn, |data|, contiguous),
       written := e.written + data[..n])
  }

  function AfterPush(e: Endpoint, n: nat): Endpoint
    requires EndpointWf(e)
  {
    match TxSend(e.conn, n)
    case None => e
    case Some(c) => e.(conn := c, sentOff := e.sentOff + n)
  }

  /** The application reads `n` bytes at the tail of the receive ring, then frees them. */
  function AfterRead(e: Endpoint, n: nat): Endpoint
    requires EndpointWf(e) && e.conn.open
  {
    match RxDone(e.conn, n)
    case None => e
    case Some(c) => e.(conn := c, handed := e.handed + RingRead(e.flow.rx.ring, e.conn.rxTail, n))
  }

  function AfterTell(e: Endpoint): Endpoint
    requires EndpointWf(e)
  {
    var (m, c) := MakeBump(e.conn);
    e.(conn := c,
       pending := e.pending + {|e.bumps|},
       bumps := e.bumps + [BumpRec(m, e.sentOff, |e.handed|)])
  }

  /** What the code takes for granted, about its own messages and on confirmation. */
  predicate Ready(e: Endpoint, a: Action)
    requires EndpointWf(e)
  {
    match a
    case Apply(i) => 0 <= i < |e.bumps| && ApplyOk(e, i)
    case Notify(i) => 0 <= i < |e.notifs| && NotifyOk(e, i)
    case Confirm => e.conn.rxHead < e.conn.rxLen
    case _ => true
  }

  /** The library asserts on confirmation that what arrived before does not fill the receive ring. This is the
      only thing the code takes for granted that can fail; the application then ends. */
  predicate Aborts(e: Endpoint, a: Action)
    requires EndpointWf(e)
  {
    a.Confirm? && e.conn.rxHead >= e.conn.rxLen
  }

  function Do(e: Endpoint, inbox: set<Flight>, a: Action): (Endpoint, set<Flight>)
    requires EndpointWf(e) && Enabled(e, inbox, a) && Ready(e, a)
  {
    match a
    case Receive(fl, ce, lost) => AfterReceive(e, fl, ce, lost)
    case Send => AfterSend(e)
    case Timeout => (AfterTimeout(e), {})
    case Apply(i) => AfterApply(e, i)
    case Notify(i) => (AfterNotify(e, i), {})
    case Confirm => (AfterConfirm(e), {})
    case Write(data, contiguous) => (AfterWrite(e, data, contiguous), {})
    case Push(n) => (AfterPush(e, n), {})
    case Read(n) => (AfterRead(e, n), {})
    case Tell => (AfterTell(e), {})
  }

  // ------------------------------------------------------------ the system

  datatype System = System(a: Endpoint, b: Endpoint, toA: set<Flight>, toB: set<Flight>)

  function Swap(s: System): System { System(s.b, s.a, s.toB, s.toA) }

  /** `a` acts if `left`, else `b`. Segments stay in the network: they may arrive any number of times,
      in any order, or never. */
  predicate CanStep(s: System, left: bool, act: Action) {
    if left then EndpointWf(s.a) && Enabled(s.a, s.toA, act) && Ready(s.a, act)
    else EndpointWf(s.b) && Enabled(s.b, s.toB, act) && Ready(s.b, act)
  }

  predicate CanStart(s: System, left: bool, act: Action) {
    if left then EndpointWf(s.a) && Enabled(s.a, s.toA, act) && !Aborts(s.a, act)
    else EndpointWf(s.b) && Enabled(s.b, s.toB, act) && !Aborts(s.b, act)
  }

  function Step(s: System, left: bool, act: Action): System
    requires CanStep(s, left, act)
  {
    if left then
      var (n, out) := Do(s.a, s.toA, act);
      System(n, s.b, s.toA, s.toB + out)
    else
      var (n, out) := Do(s.b, s.toB, act);
      System(s.a, n, s.toA + out, s.toB)
  }

  /** A fresh connection: what the kernel writes into the flow record, and the library's initial state. */
  ghost predicate InitEndpoint(e: Endpoint, irs: u32) {
    var rx, tx := e.flow.rx, e.flow.tx;
    && 0 < |rx.ring| < TWO31 && 0 < |tx.ring| < TWO31
    && rx.avail == |rx.ring| && rx.nextPos == 0 && rx.nextSeq == irs && rx.oooLen == 0
    && tx.sent == 0 && tx.nextPos == 0 && tx.nextSeq == e.iss && tx.head == 0
    && tx.remoteAvail == |rx.ring|
    && e.flow.bumpSeq == 0
    && e.conn == Conn(|rx.ring|, |tx.ring|, false, 0, 0, 0, 0, 0, 0)
    && e.notifs == [] && e.bumps == [] && e.pending == {} && e.last == -1
    && e.una == 0 && e.rcv == 0 && e.written == [] && e.sentOff == 0
    && e.tail == 0 && e.delivered == 0 && e.handed == []
  }

  ghost predicate Init(s: System) {
    InitEndpoint(s.a, s.b.iss) && InitEndpoint(s.b, s.a.iss) && s.toA == {} && s.toB == {}
  }

  /** `run` is a run of the system: it starts fresh, and each state follows from the one before. */
  ghost predicate IsRun(run: seq<System>, acts: seq<(bool, Action)>) {
    && |run| == |acts| + 1
    && Init(run[0])
    && forall i :: 0 <= i < |acts| ==> Follows(run[i], acts[i], run[i + 1])
  }

  /** An action whose guard holds happens, unless it ends the application; that everything else the code takes
      for granted then holds is proved, not assumed. */
  predicate Follows(s: System, act: (bool, Action), n: System) {
    && CanStart(s, act.0, act.1)
    && (CanStep(s, act.0, act.1) ==> n == Step(s, act.0, act.1))
  }
}

/** The application library's view of a connection: ring positions, and the calls that move them. */
module ConnOps {
  import opened Word
  import opened FlowOps

  /** `rxLen` and `txLen` are the ring lengths. Before the connection is confirmed (`open`), received
      bytes are only counted in `rxHead`. */
  datatype Conn = Conn(
    rxLen: u32, txLen: u32, open: bool,
    rxHead: u32, rxTail: u32,
    txHead: u32, txAlloc: u32, txTail: u32,
    bumpSeq: u32)

  predicate ConnWf(c: Conn) {
    && 0 < c.rxLen < TWO31 && 0 < c.txLen < TWO31
    && (c.open ==> c.rxHead < c.rxLen) && c.rxTail < c.rxLen
    && c.txHead < c.txLen && c.txAlloc < c.txLen && c.txTail < c.txLen
  }

  /** Received bytes not yet freed. A completely full ring counts as empty. */
  function RecvdBytes(c: Conn): (r: int)
    requires ConnWf(c) && c.open
    ensures 0 <= r < c.rxLen
  {
    if c.rxTail <= c.rxHead then c.rxHead - c.rxTail else c.rxLen - c.rxTail + c.rxHead
  }

  /** Bytes of the send ring that can be allocated; one byte always stays free. */
  function AllocBytes(c: Conn): (r: int)
    requires ConnWf(c)
    ensures 0 <= r < c.txLen
  {
    if c.txTail <= c.txAlloc then c.txLen - c.txAlloc + c.txTail - 1 else c.txTail - c.txAlloc - 1
  }

  /** Bytes allocated but not sent. */
  function SendBytes(c: Conn): (r: int)
    requires ConnWf(c)
    ensures 0 <= r < c.txLen
  {
    if c.txHead <= c.txAlloc then c.txAlloc - c.txHead else c.txLen - c.txHead + c.txAlloc
  }

  /** Free `n` received bytes, or fail. */
  function RxDone(c: Conn, n: nat): (r: Option<Conn>)
    requires ConnWf(c) && c.open
    ensures r.Some? ==> ConnWf(r.value)
  {
    if RecvdBytes(c) < n then None
    else Some(c.(rxTail := Advance(c.rxTail, n, c.rxLen)))
  }

  /** How many of `n` bytes are allocated: as many as fit, and with `contiguous` only up to the end of the ring. */
  function AllocLen(c: Conn, n: nat, contiguous: bool): (r: int)
    requires ConnWf(c)
    ensures 0 <= r <= n && r <= AllocBytes(c)
  {
    var m := Min(AllocBytes(c), n);
    if contiguous && c.txAlloc + m > c.txLen then c.txLen - c.txAlloc else m
  }

  function TxAlloc(c: Conn, n: nat, contiguous: bool): (r: Conn)
    requires ConnWf(c)
    ensures ConnWf(r)
  {
    c.(txAlloc := Advance(c.txAlloc, AllocLen(c, n, contiguous), c.txLen))
  }

  /** Hand `n` allocated bytes to the network, or fail. */
  function TxSend(c: Conn, n: nat): (r: Option<Conn>)
    requires ConnWf(c)
    ensures r.Some? ==> ConnWf(r.value)
  {
    if SendBytes(c) < n then None
    else Some(c.(txHead := Advance(c.txHead, n, c.txLen)))
  }

  /** A notification: `rx` bytes arrived, `tx` bytes were acknowledged. */
  function ConnUpdate(c: Conn, rx: u32, tx: u32): (r: Conn)
    requires ConnWf(c)
    requires if c.open then rx <= c.rxLen && tx <= c.txLen else tx == 0
    ensures ConnWf(r)
  {
    if !c.open then
      c.(rxHead := Add32(c.rxHead, rx))
    else
      c.(rxHead := Advance(c.rxHead, rx, c.rxLen), txTail := Advance(c.txTail, tx, c.txLen))
  }

  /** The kernel confirms the connection; what arrived before must fit the ring. */
  function Open(c: Conn): (r: Conn)
    requires ConnWf(c) && c.rxHead < c.rxLen
    ensures ConnWf(r)
  {
    c.(open := true)
  }

  /** Where the bytes of a notification lie: one piece, or two if they wrap around the ring. */
  function Pieces(c: Conn, rx: u32): (r: seq<(int, int)>)
    requires ConnWf(c) && c.open && rx <= c.rxLen
    ensures forall p :: p in r ==> 0 <= p.0 && 0 < p.1 && p.0 + p.1 <= c.rxLen
  {
    if rx == 0 then []
    else if c.rxHead + rx > c.rxLen then
      [(c.rxHead, c.rxLen - c.rxHead), (0, rx - (c.rxLen - c.rxHead))]
    else [(c.rxHead, rx)]
  }

  /** Events a notification amounts to: one for each piece, and one if the send buffer was full. */
  function EventsNeeded(c: Conn, rx: u32, tx: u32): int
    requires ConnWf(c) && c.open && rx <= c.rxLen
  {
    |Pieces(c, rx)| + if tx > 0 && AllocBytes(c) == 0 then 1 else 0
  }

  datatype BumpMsg = BumpMsg(bumpSeq: u32, rxTail: u32, txHead: u32)

  function MakeBump(c: Conn): (BumpMsg, Conn) {
    (BumpMsg(c.bumpSeq, c.rxTail, c.txHead), c.(bumpSeq := Add32(c.bumpSeq, 1)))
  }
}

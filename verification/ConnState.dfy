/** The application library's connection object, updated in place. */
module ConnState {
  import opened Word
  import opened ConnOps

  class Connection {
    var rxbLen: u32
    var rxbHead: u32
    var rxbTail: u32
    var txbLen: u32
    var txbHead: u32
    var txbHeadAlloc: u32
    var txbTail: u32
    var bumpSeq: u32
    var isOpen: bool

    ghost function View(): Conn
      reads this
    {
      Conn(rxbLen, txbLen, isOpen, rxbHead, rxbTail, txbHead, txbHeadAlloc, txbTail, bumpSeq)
    }

    ghost predicate Valid()
      reads this
    {
      ConnWf(View())
    }

    /** Free `len` received bytes; fails if fewer appear to be there. */
    method RxDone(len: nat) returns (ok: bool)
      requires Valid() && isOpen
      modifies `rxbTail
      ensures Valid()
      ensures match ConnOps.RxDone(old(View()), len)
              case None => !ok && View() == old(View())
              case Some(c) => ok && View() == c
    {
      var recvd := if rxbTail <= rxbHead then rxbHead - rxbTail else rxbLen - rxbTail + rxbHead;
      if recvd < len {
        return false;
      }
      if rxbTail + len >= rxbLen {
        rxbTail := rxbTail + len - rxbLen;
      } else {
        rxbTail := rxbTail + len;
      }
      ok := true;
    }

    method AllocAvail() returns (n: u32)
      requires Valid()
      ensures n == AllocBytes(View())
    {
      if txbTail <= txbHeadAlloc {
        n := txbLen - txbHeadAlloc + txbTail - 1;
      } else {
        n := txbTail - txbHeadAlloc - 1;
      }
    }

    /** Allocate up to `len` contiguous bytes at `pos`. */
    method TxAlloc(len: nat) returns (pos: u32, n: u32)
      requires Valid()
      modifies `txbHeadAlloc
      ensures Valid() && View() == ConnOps.TxAlloc(old(View()), len, true)
      ensures pos == old(txbHeadAlloc) && n == AllocLen(old(View()), len, true)
      ensures pos + n <= txbLen
    {
      var avail := AllocAvail();
      n := Min(avail, len);
      if txbHeadAlloc + n > txbLen {
        n := txbLen - txbHeadAlloc;
      }
      pos := txbHeadAlloc;
      if txbHeadAlloc + n >= txbLen {
        txbHeadAlloc := txbHeadAlloc + n - txbLen;
      } else {
        txbHeadAlloc := txbHeadAlloc + n;
      }
    }

    /** Allocate up to `len` bytes in two pieces: `n1` at `pos`, the rest at the start of the ring. */
    method TxAlloc2(len: nat) returns (pos: u32, n1: u32, n: u32)
      requires Valid()
      modifies `txbHeadAlloc
      ensures Valid() && View() == ConnOps.TxAlloc(old(View()), len, false)
      ensures pos == old(txbHeadAlloc) && n == AllocLen(old(View()), len, false)
      ensures n1 <= n && pos + n1 <= txbLen && (n1 < n ==> pos + n1 == txbLen && n - n1 < pos)
    {
      var avail := AllocAvail();
      n := Min(avail, len);
      pos := txbHeadAlloc;
      if txbHeadAlloc + n > txbLen {
        n1 := txbLen - txbHeadAlloc;
      } else {
        n1 := n;
      }
      if txbHeadAlloc + n >= txbLen {
        txbHeadAlloc := txbHeadAlloc + n - txbLen;
      } else {
        txbHeadAlloc := txbHeadAlloc + n;
      }
    }

    /** Hand `len` allocated bytes to the network; fails if fewer are allocated. */
    method TxSend(len: nat) returns (ok: bool)
      requires Valid()
      modifies `txbHead
      ensures Valid()
      ensures match ConnOps.TxSend(old(View()), len)
              case None => !ok && View() == old(View())
              case Some(c) => ok && View() == c
    {
      var pending := if txbHead <= txbHeadAlloc then txbHeadAlloc - txbHead
                     else txbLen - txbHead + txbHeadAlloc;
      if pending < len {
        return false;
      }
      var nextHead := txbHead + len;
      if nextHead >= txbLen {
        nextHead := nextHead - txbLen;
      }
      txbHead := nextHead;
      ok := true;
    }

    /** A notification from the fast path; returns where the received bytes lie, and whether the application is told
        that the send buffer, full before, has room. With too little room for these events (`room`) nothing happens
        and the notification stays queued. */
    method ConnUpdate(rxBump: u32, txBump: u32, room: nat)
      returns (done: bool, pieces: seq<(int, int)>, sendbuf: bool)
      requires Valid()
      requires if isOpen then rxBump <= rxbLen && txBump <= txbLen else txBump == 0
      modifies `rxbHead, `txbTail
      ensures Valid()
      ensures done <==> !isOpen || EventsNeeded(old(View()), rxBump, txBump) <= room
      ensures View() == if done then ConnOps.ConnUpdate(old(View()), rxBump, txBump) else old(View())
      ensures pieces == if done && isOpen then Pieces(old(View()), rxBump) else []
      ensures sendbuf <==> done && isOpen && txBump > 0 && AllocBytes(old(View())) == 0
    {
      done, pieces, sendbuf := false, [], false;
      if !isOpen {
        rxbHead := Add32(rxbHead, rxBump);
        return true, [], false;
      }
      var needed := if rxBump == 0 then 0 else if rxbHead + rxBump > rxbLen then 2 else 1;
      var avail := AllocAvail();
      if txBump > 0 && avail == 0 {
        needed, sendbuf := needed + 1, true;
      }
      if needed > room {
        return false, [], false;
      }
      if rxBump > 0 {
        if rxbHead + rxBump > rxbLen {
          var first := rxbLen - rxbHead;
          pieces := [(rxbHead, first), (0, rxBump - first)];
        } else {
          pieces := [(rxbHead, rxBump)];
        }
        if rxbHead + rxBump >= rxbLen {
          rxbHead := rxbHead + rxBump - rxbLen;
        } else {
          rxbHead := rxbHead + rxBump;
        }
      }
      if txBump > 0 {
        if txbTail + txBump >= txbLen {
          txbTail := txbTail + txBump - txbLen;
        } else {
          txbTail := txbTail + txBump;
        }
      }
      done := true;
    }

    /** Tell the fast path how far the application has come. */
    method MakeBump() returns (m: BumpMsg)
      modifies `bumpSeq
      ensures (m, View()) == ConnOps.MakeBump(old(View()))
    {
      m := BumpMsg(bumpSeq, rxbTail, txbHead);
      bumpSeq := Add32(bumpSeq, 1);
    }
  }
}

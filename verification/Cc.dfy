/** Window-based DCTCP in the kernel's control loop, and the rate it hands to the queue manager. */
module Cc {
  import opened Word
  import QS = QmanSpec
  import QR = QmanRuns
  import QP = QmanPacing

  const MSS: int := 1400
  const UMAX: int := 0xFFFF_FFFF

  type u64 = x: int | 0 <= x < 0x1_0000_0000_0000_0000

  datatype Stats = Stats(drops: u32, acks: u32, ackb: u32, ecn: u32, rtt: u32)

  /** Initial round trip (microseconds), link bandwidth (Gbps) and averaging weight. */
  datatype Config = Config(rttInit: u32, linkBw: u32, weight: u32)

  // ------------------------------------------------------------ the window, as a function

  /** Congestion state of a connection. */
  datatype State = State(window: u32, ecnRate: u32, slowstart: bool, rexmits: u32)

  lemma DivBounds(n: int, d: int)
    requires 0 <= n && 0 < d
    ensures 0 <= n / d && n / d * d <= n < (n / d + 1) * d
  {
    assert n == d * (n / d) + n % d;
  }

  /** Marked acknowledgements as a fraction of all, in units of 1/UMAX. */
  function Marked(ecn: u32, acks: u32): (r: u32)
    requires 0 < acks
    ensures r * acks <= Min(ecn, acks) * UMAX < (r + 1) * acks
  {
    var n := Min(ecn, acks) * UMAX;
    assert n == acks * (n / acks) + n % acks;
    FractionBound(Min(ecn, acks), acks);
    n / acks
  }

  lemma SameMarks(ecn: u32, acks: u32)
    requires 0 < acks
    ensures Marked(Min(ecn, acks), acks) == Marked(ecn, acks)
  {
  }

  lemma FractionBound(e: int, a: int)
    requires 0 <= e <= a && 0 < a
    ensures 0 <= (e * UMAX) / a <= UMAX
  {
    var q := (e * UMAX) / a;
    assert e * UMAX == a * q + (e * UMAX) % a;
    if q > UMAX {
      MulLe(UMAX + 1, q, a);
      MulLe(e, a, UMAX);
    }
    if q < 0 {
      MulLe(q, -1, a);
    }
  }

  lemma MulLe(x: int, y: int, z: int)
    requires x <= y && 0 <= z
    ensures x * z <= y * z && z * x <= z * y
  {
  }

  /** Moving average of the marked fraction. */
  function Average(prev: u32, fraction: u32, weight: u32): (r: u32)
    ensures Min(prev, fraction) <= r <= Max(prev, fraction)
  {
    AverageBetween(prev, fraction, weight);
    (fraction * weight + prev * (UMAX - weight)) / UMAX
  }

  lemma AverageBetween(a: u32, b: u32, w: u32)
    ensures Min(a, b) * UMAX <= b * w + a * (UMAX - w) <= Max(a, b) * UMAX
    ensures Min(a, b) <= (b * w + a * (UMAX - w)) / UMAX <= Max(a, b)
  {
    var lo, hi := Min(a, b), Max(a, b);
    MulLe(lo, b, w);
    MulLe(b, hi, w);
    MulLe(lo, a, UMAX - w);
    MulLe(a, hi, UMAX - w);
    assert lo * w + lo * (UMAX - w) == lo * UMAX;
    assert hi * w + hi * (UMAX - w) == hi * UMAX;
  }

  function Cut(win: u32, ecnRate: u32): (r: u32)
    ensures win / 2 <= r <= win
  {
    CutBounds(win, ecnRate);
    (win * (UMAX - ecnRate / 2)) / UMAX
  }

  lemma CutBounds(win: u32, ecnRate: u32)
    ensures win / 2 <= (win * (UMAX - ecnRate / 2)) / UMAX <= win
  {
    var f := UMAX - ecnRate / 2;
    assert 2 * f >= UMAX && f <= UMAX;
    MulLe(f, UMAX, win);
    MulLe(UMAX, 2 * f, win);
    assert 2 * (win * f) == win * (2 * f);
  }

  function Grow(win: u32, more: int): (r: u32)
    requires 0 <= more
    ensures more < TWO32 ==> win <= r <= win + more
  {
    if W32(win + more) > win then W32(win + more) else win
  }

  function Increment(win: u32, ackb: u32): (r: u32)
    requires MSS <= win
    ensures r <= ackb && r * win <= ackb * MSS
  {
    IncrementBound(win, ackb);
    (ackb * MSS) / win
  }

  lemma IncrementBound(win: u32, ackb: u32)
    requires MSS <= win
    ensures 0 <= (ackb * MSS) / win <= ackb && (ackb * MSS) / win * win <= ackb * MSS
  {
    DivBounds(ackb * MSS, win);
    var q := (ackb * MSS) / win;
    if q > ackb {
      MulLe(ackb + 1, q, win);
      MulLe(MSS, win, ackb + 1);
    }
  }

  function Calm(s: State, st: Stats): bool { st.drops == 0 && st.ecn == 0 && s.rexmits == 0 }

  /** The window the feedback asks for, before it is clipped. */
  function Wanted(s: State, st: Stats, weight: u32): (r: (u32, u32, bool))
    requires MSS <= s.window
  {
    if s.slowstart && Calm(s, st) then (Grow(s.window, st.ackb), s.ecnRate, true)
    else if st.drops > 0 || s.rexmits > 0 then (s.window / 2, s.ecnRate, false)
    else
      var ecn := if st.acks > 0 then Min(st.ecn, st.acks) else st.ecn;
      var rate := if st.acks > 0 then Average(s.ecnRate, Marked(st.ecn, st.acks), weight) else s.ecnRate;
      (if ecn > 0 then Cut(s.window, rate) else Grow(s.window, Increment(s.window, st.ackb)), rate, false)
  }

  function Clip(win: u32, txLen: u32): (r: u32)
    ensures r >= MSS <==> txLen >= MSS
    ensures r <= txLen
  {
    var w := Max(win, MSS);
    if w > txLen then txLen else w
  }

  function Update(s: State, st: Stats, weight: u32, txLen: u32): State
    requires MSS <= s.window
  {
    var (win, ecnRate, slowstart) := Wanted(s, st, weight);
    State(Clip(win, txLen), ecnRate, slowstart, 0)
  }

  function Init(): State { State(2 * MSS, 0, true, 0) }

  // ------------------------------------------------------------ runs of the control loop

  datatype Round = Round(stats: Stats, rexmits: u32)

  /** The state after a sequence of control intervals; `rexmits` are the timeouts reported in between. */
  function Run(s: State, rounds: seq<Round>, weight: u32, txLen: u32): (r: State)
    requires MSS <= s.window && MSS <= txLen
    ensures MSS <= r.window
    decreases |rounds|
  {
    if rounds == [] then s
    else
      Run(Update(s.(rexmits := rounds[0].rexmits), rounds[0].stats, weight, txLen), rounds[1..], weight, txLen)
  }

  /** After any number of control intervals the window is a segment at least and the send buffer at most. */
  lemma {:induction false} WindowInRange(s: State, rounds: seq<Round>, weight: u32, txLen: u32)
    requires MSS <= s.window && MSS <= txLen && rounds != []
    ensures MSS <= Run(s, rounds, weight, txLen).window <= txLen
    decreases |rounds|
  {
    var u := Update(s.(rexmits := rounds[0].rexmits), rounds[0].stats, weight, txLen);
    if |rounds| > 1 {
      WindowInRange(u, rounds[1..], weight, txLen);
    } else {
      assert Run(u, rounds[1..], weight, txLen) == u;
    }
  }

  /** The check at the end of an update fails exactly when the send buffer cannot hold one segment. */
  lemma FloorKeptExactly(s: State, st: Stats, weight: u32, txLen: u32)
    requires MSS <= s.window
    ensures Update(s, st, weight, txLen).window >= MSS <==> txLen >= MSS
  {
    var (win, ecnRate, slowstart) := Wanted(s, st, weight);
  }

  /** Any sign of congestion ends slow start, never lets the window grow beyond the floor, and costs at most
      half of it. */
  lemma CongestionNeverGrows(s: State, st: Stats, weight: u32, txLen: u32)
    requires MSS <= s.window <= txLen
    requires st.drops > 0 || s.rexmits > 0 || (st.ecn > 0 && st.acks > 0)
    ensures var u := Update(s, st, weight, txLen);
            !u.slowstart && s.window / 2 <= u.window <= s.window
  {
    var (win, ecnRate, slowstart) := Wanted(s, st, weight);
    assert s.window / 2 <= win <= s.window;
  }

  /** A loss or a timeout halves the window, raised to a segment and capped by the send buffer; it ends slow start,
      leaves the marked fraction alone, and is dealt with once. */
  lemma LossHalves(s: State, st: Stats, weight: u32, txLen: u32)
    requires MSS <= s.window && (st.drops > 0 || s.rexmits > 0)
    ensures var u := Update(s, st, weight, txLen);
            && 2 * u.window <= Max(s.window, 2 * MSS)
            && (u.window < txLen ==> s.window <= 2 * u.window + 1)
            && (u.window < txLen && u.window > MSS ==> 2 * u.window <= s.window)
            && u == State(Capped(s.window / 2, txLen), s.ecnRate, false, 0)
  {
  }

  /** The moving average goes from the old fraction towards the sample by the weight's share of the gap. */
  ghost predicate MovesBy(prev: int, next: int, sample: int, weight: int) {
    (next - prev) * UMAX <= weight * (sample - prev) < (next - prev + 1) * UMAX
  }

  /** `f` is the share of marked acknowledgements, in units of 1/UMAX, rounded down. */
  ghost predicate IsShare(f: int, marked: int, all: int) {
    f * all <= Min(marked, all) * UMAX < (f + 1) * all
  }

  lemma AverageMoves(prev: u32, sample: u32, weight: u32)
    ensures MovesBy(prev, Average(prev, sample, weight), sample, weight)
  {
    AverageBetween(prev, sample, weight);
    var n := sample * weight + prev * (UMAX - weight);
    MulLe(0, Min(prev, sample), UMAX);
    DivBounds(n, UMAX);
    assert n == weight * (sample - prev) + prev * UMAX;
  }

  /** Without a loss, outside slow start or with marks that end it, the marked fraction moves by the weight towards
      the share of marked acknowledgements in the interval; with nothing acknowledged it stays. */
  lemma FractionFollowsMarks(s: State, st: Stats, weight: u32, txLen: u32)
    requires MSS <= s.window && st.drops == 0 && s.rexmits == 0 && (!s.slowstart || st.ecn > 0)
    ensures var u := Update(s, st, weight, txLen);
            && !u.slowstart
            && (st.acks == 0 ==> u.ecnRate == s.ecnRate)
            && (st.acks > 0 ==>
                  exists f: int :: IsShare(f, st.ecn, st.acks) && MovesBy(s.ecnRate, u.ecnRate, f, weight))
  {
    hide Average, Marked, Cut, Increment, Grow, Clip, MovesBy;
    if st.acks > 0 {
      var f := Marked(st.ecn, st.acks);
      AverageMoves(s.ecnRate, f, weight);
      assert IsShare(f, st.ecn, st.acks);
    }
  }

  /** `x` is `win` reduced by half the fraction `a`, rounded down, to within one unit of the fraction. */
  ghost predicate IsReduced(x: int, win: int, a: int) {
    2 * UMAX * x <= win * (2 * UMAX - a + 1) && win * (2 * UMAX - a) < 2 * UMAX * (x + 1)
  }

  /** Marks without a loss reduce the window by half the new marked fraction. */
  lemma MarksReduce(s: State, st: Stats, weight: u32, txLen: u32)
    requires MSS <= s.window && st.drops == 0 && s.rexmits == 0 && st.ecn > 0
    ensures var u := Update(s, st, weight, txLen);
            exists x: int :: IsReduced(x, s.window, u.ecnRate) && u.window == Capped(x, txLen)
  {
    hide Average, Marked, Cut, Increment, Grow;
    var u := Update(s, st, weight, txLen);
    var x := Cut(s.window, u.ecnRate);
    CutIsRfc8257(s.window, u.ecnRate);
    assert IsReduced(x, s.window, u.ecnRate);
  }

  /** A calm interval adds what was acknowledged in slow start, and after it the largest number of bytes that
      stand to a segment at most as those acknowledged to the window; a sum that leaves 32 bits adds nothing. */
  lemma CalmAdds(s: State, st: Stats, weight: u32, txLen: u32)
    requires MSS <= s.window && Calm(s, st)
    ensures var u := Update(s, st, weight, txLen);
            && u.slowstart == s.slowstart && (s.slowstart ==> u.ecnRate == s.ecnRate) && u.rexmits == 0
            && exists more: int :: IsGain(more, s, st) && u.window == Capped(Added(s.window, more), txLen)
  {
    hide Average, Marked, Cut, Increment, W32, Capped, Added;
    var more: int := if s.slowstart then st.ackb else Increment(s.window, st.ackb);
    IncrementIs(s.window, st.ackb);
    GrowIs(s.window, more, txLen);
    assert IsGain(more, s, st);
  }

  /** What a calm interval is to add. */
  ghost predicate IsGain(more: int, s: State, st: Stats) {
    if s.slowstart then more == st.ackb else IsIncrement(more, st.ackb, s.window)
  }

  function Added(win: int, more: int): int { if win + more < TWO32 then win + more else win }

  /** At least a segment, at most the send buffer. */
  function Capped(win: int, txLen: int): int { Min(Max(win, MSS), txLen) }

  lemma GrowIs(win: u32, more: u32, txLen: u32)
    ensures Clip(Grow(win, more), txLen) == Capped(Added(win, more), txLen)
  {
    hide W32;
    W32Range(win + more);
  }

  ghost predicate IsIncrement(more: int, ackb: int, win: int) {
    0 <= more <= ackb && more * win <= ackb * MSS < (more + 1) * win
  }

  lemma IncrementIs(win: u32, ackb: u32)
    requires MSS <= win
    ensures IsIncrement(Increment(win, ackb), ackb, win)
  {
    DivBounds(ackb * MSS, win);
  }

  /** With no sign of congestion the window does not shrink. */
  lemma CalmNeverShrinks(s: State, st: Stats, weight: u32, txLen: u32)
    requires MSS <= s.window <= txLen && Calm(s, st)
    ensures Update(s, st, weight, txLen).window >= s.window
  {
    var (win, ecnRate, slowstart) := Wanted(s, st, weight);
    assert win >= s.window;
  }

  /** Without congestion a window of acknowledged bytes doubles the window in slow start, and adds one segment
      to it after that, up to the send buffer. */
  lemma GrowthPerWindow(s: State, st: Stats, weight: u32, txLen: u32)
    requires MSS <= s.window <= txLen && Calm(s, st) && st.ackb == s.window && 2 * s.window < TWO32
    ensures Update(s, st, weight, txLen).window
         == Min(txLen, if s.slowstart then 2 * s.window else s.window + MSS)
    ensures Update(s, st, weight, txLen).slowstart == s.slowstart
  {
    hide Average, Marked, Cut, Increment, W32;
    IncrementWhole(s.window);
    W32Range(2 * s.window);
    W32Range(s.window + MSS);
  }

  lemma IncrementWhole(win: u32)
    requires MSS <= win
    ensures Increment(win, win) == MSS
  {
    DivExact(win, MSS);
  }

  lemma DivExact(d: int, q: int)
    requires 0 < d && 0 <= q
    ensures (d * q) / d == q
  {
    DivBounds(d * q, d);
    var p := (d * q) / d;
    if p > q {
      MulLe(q + 1, p, d);
    }
    if p < q {
      MulLe(p + 1, q, d);
    }
  }

  /** The reduction of section 3.3 of RFC 8257, a factor of one minus half the marked fraction, to within
      the rounding of one byte and one unit of the fraction. */
  lemma CutIsRfc8257(win: u32, ecnRate: u32)
    ensures 2 * UMAX * Cut(win, ecnRate) <= win * (2 * UMAX - ecnRate + 1)
    ensures win * (2 * UMAX - ecnRate) < 2 * UMAX * (Cut(win, ecnRate) + 1)
  {
    var f := UMAX - ecnRate / 2;
    var n := win * f;
    assert n == UMAX * (n / UMAX) + n % UMAX;
    MulLe(2 * UMAX - ecnRate, 2 * f, win);
    MulLe(2 * f, 2 * UMAX - ecnRate + 1, win);
    assert win * (2 * f) == 2 * n;
  }

  /** More marks never leave a larger window. */
  lemma MarksAreMonotone(s: State, st: Stats, ecn: u32, weight: u32, txLen: u32)
    requires MSS <= s.window && !s.slowstart && 0 < st.ecn <= ecn && 0 < st.acks
    ensures Update(s, st.(ecn := ecn), weight, txLen).window <= Update(s, st, weight, txLen).window
  {
    var e1, e2 := Min(st.ecn, st.acks), Min(ecn, st.acks);
    MulLe(e1, e2, UMAX);
    DivMono(e1 * UMAX, e2 * UMAX, st.acks);
    var m1, m2 := Marked(st.ecn, st.acks), Marked(ecn, st.acks);
    MulLe(m1, m2, weight);
    DivMono(m1 * weight + s.ecnRate * (UMAX - weight), m2 * weight + s.ecnRate * (UMAX - weight), UMAX);
    var a1, a2 := Average(s.ecnRate, m1, weight), Average(s.ecnRate, m2, weight);
    MulLe(UMAX - a2 / 2, UMAX - a1 / 2, s.window);
    DivMono(s.window * (UMAX - a2 / 2), s.window * (UMAX - a1 / 2), UMAX);
    assert Cut(s.window, a2) <= Cut(s.window, a1);
  }

  lemma DivMono(x: int, y: int, d: int)
    requires x <= y && 0 < d
    ensures x / d <= y / d
  {
    assert x == d * (x / d) + x % d && y == d * (y / d) + y % d;
    if x / d > y / d {
      MulLe(y / d + 1, x / d, d);
    }
  }

  // ------------------------------------------------------------ window and rate

  /** Nanoseconds in which a window may be sent: what the link needs, or a round trip if that is longer. The
      multiplication of the round trip is one of 32-bit words. */
  function SendTime(window: u32, rtt: u32, linkBw: u32): (r: int)
    requires 0 < linkBw
    ensures 0 <= r && r >= W32(rtt * 1000)
  {
    Max(window * 8000 / linkBw / 1000, W32(rtt * 1000))
  }

  function WindowToRate(window: u32, rtt: u32, linkBw: u32): (r: u32)
    requires 0 < linkBw && SendTime(window, rtt, linkBw) != 0
    ensures r * SendTime(window, rtt, linkBw) <= window * 8000000
    ensures r < UMAX ==> window * 8000000 < (r + 1) * SendTime(window, rtt, linkBw)
  {
    RateBounds(window * 8000000, SendTime(window, rtt, linkBw));
    var rate := window * 8000000 / SendTime(window, rtt, linkBw);
    if rate > UMAX then UMAX else rate
  }

  lemma RateBounds(n: int, time: int)
    requires 0 <= n && 0 < time
    ensures var rate := if n / time > UMAX then UMAX else n / time;
            0 <= rate && rate * time <= n && (rate < UMAX ==> n < (rate + 1) * time)
  {
    DivBounds(n, time);
    if n / time > UMAX {
      MulLe(UMAX, n / time, time);
    }
  }

  /** A round trip at the rate carries no more than the window, for every window and link, exactly when the
      round trip in nanoseconds fits into 32 bits. */
  lemma RatePacesWindowExactly(rtt: u32)
    ensures (forall window: u32, linkBw: u32 :: 0 < linkBw && SendTime(window, rtt, linkBw) != 0 ==>
               WindowToRate(window, rtt, linkBw) * (rtt * 1000) <= window * 8000000)
       <==> rtt * 1000 < TWO32
  {
    if rtt * 1000 < TWO32 {
      forall window: u32, linkBw: u32 | 0 < linkBw && SendTime(window, rtt, linkBw) != 0
        ensures WindowToRate(window, rtt, linkBw) * (rtt * 1000) <= window * 8000000
      {
        RatePacesWindow(window, rtt, linkBw);
      }
    } else {
      LongRoundTripOverruns(rtt);
    }
  }

  lemma RatePacesWindow(window: u32, rtt: u32, linkBw: u32)
    requires 0 < linkBw && SendTime(window, rtt, linkBw) != 0 && rtt * 1000 < TWO32
    ensures WindowToRate(window, rtt, linkBw) * (rtt * 1000) <= window * 8000000
  {
    hide SendTime, WindowToRate;
    MulLe(rtt * 1000, SendTime(window, rtt, linkBw), WindowToRate(window, rtt, linkBw));
  }

  /** A rate of zero would mean no limit to the queue manager; a window of at least one segment never gets
      it. */
  lemma RateNeverUnlimited(window: u32, rtt: u32, linkBw: u32)
    requires MSS <= window && 0 < linkBw && SendTime(window, rtt, linkBw) != 0
    ensures WindowToRate(window, rtt, linkBw) > 0
  {
    DivBounds(window * 8000, linkBw);
    MulLe(1, linkBw, window * 8000 / linkBw);
    assert SendTime(window, rtt, linkBw) <= window * 8000000;
  }

  /** On a 10 Gbps link one segment per round trip is overrun as soon as the round trip wraps around. */
  lemma LongRoundTripOverruns(rtt: u32)
    requires rtt * 1000 >= TWO32
    ensures SendTime(1400, rtt, 10) != 0
    ensures WindowToRate(1400, rtt, 10) * (rtt * 1000) > 1400 * 8000000
  {
    var time, rate := SendTime(1400, rtt, 10), WindowToRate(1400, rtt, 10);
    var wrapped := W32(rtt * 1000);
    assert rtt * 1000 >= wrapped + TWO32 && time == Max(1120, wrapped);
    assert rate > 0;
    if rate < UMAX {
      MulLe(rate + 1, 2 * rate, time);
      MulLe(2 * time, rtt * 1000, rate);
      assert (2 * rate) * time == rate * (2 * time);
    } else {
      MulLe(TWO32, rtt * 1000, rate);
    }
  }

  /** A flow paced at the rate of its window fires, within any stretch of real time no longer than its round
      trip, at most the window plus one chunk, up to a nanosecond at the rate per fire. */
  lemma PacedByWindow(s: QS.State, ops: seq<QR.Op>, i: int, window: u32, rtt: u32, linkBw: u32)
    requires QS.Inv(s) && QR.Legal(s, ops) && 0 <= i < |s.qs| && QP.SteadyRate(s, ops, i)
    requires 0 < linkBw && SendTime(window, rtt, linkBw) != 0 && rtt * 1000 < TWO32
    requires s.qs[i].rate == WindowToRate(window, rtt, linkBw) > 0
    requires QR.Exec(s, ops).0.rt - s.rt <= rtt * 1000
    requires QP.Only(QR.Exec(s, ops).1, i) != []
    ensures var log := QP.Only(QR.Exec(s, ops).1, i);
            var last := log[|log| - 1];
            && last.bytes <= s.qs[i].maxChunk
            && (QP.SumBytes(log) - last.bytes) * 8000000 <= window * 8000000 + (|log| - 1) * s.qs[i].rate
  {
    RatePacesWindow(window, rtt, linkBw);
    QP.WindowPerRoundTrip(s, ops, i, window, rtt);
  }

  // ------------------------------------------------------------ the code

  class Connection {
    var window: u32
    var ecnRate: u32
    var slowstart: bool
    var rexmits: u32
    var rtt: u32
    var rate: u32
    const txLen: u32

    function Dctcp(): State
      reads this
    {
      State(window, ecnRate, slowstart, rexmits)
    }

    constructor (config: Config, txLen: u32)
      requires 0 < config.linkBw && SendTime(2 * MSS, config.rttInit, config.linkBw) != 0
      ensures Dctcp() == Init() && rtt == config.rttInit && this.txLen == txLen
      ensures rate == WindowToRate(window, config.rttInit, config.linkBw)
    {
      window := 2 * MSS;
      ecnRate := 0;
      slowstart := true;
      rexmits := 0;
      rtt := config.rttInit;
      rate := WindowToRate(2 * MSS, config.rttInit, config.linkBw);
      this.txLen := txLen;
    }

    /** The intermediate products are 64-bit words. */
    method Sample(ecn: u32, acks: u32, weight: u32)
      requires 0 < acks && ecn <= acks
      modifies this`ecnRate
      ensures ecnRate == Average(old(ecnRate), Marked(ecn, acks), weight)
    {
      FractionBound(ecn, acks);
      MulLe(ecn, UMAX, UMAX);
      var marks: u64 := ecn * UMAX;
      var fraction: u64 := marks / acks;
      assert fraction == Marked(ecn, acks);
      AverageBetween(ecnRate, fraction, weight);
      MulLe(Max(ecnRate, fraction), UMAX, UMAX);
      var sum: u64 := fraction * weight + ecnRate * (UMAX - weight);
      ecnRate := sum / UMAX;
    }

    static method Reduce(was: u32, ecnRate: u32) returns (win: u32)
      ensures win == Cut(was, ecnRate)
    {
      CutBounds(was, ecnRate);
      MulLe(was, UMAX, UMAX - ecnRate / 2);
      MulLe(UMAX - ecnRate / 2, UMAX, UMAX);
      var scaled: u64 := was * (UMAX - ecnRate / 2);
      win := scaled / UMAX;
    }

    static method Increase(was: u32, ackb: u32) returns (win: u32)
      requires MSS <= was
      ensures win == Grow(was, Increment(was, ackb))
    {
      win := was;
      var acked: u64 := ackb * MSS;
      IncrementBound(was, ackb);
      var incr: u64 := acked / was;
      if W32(win + incr) > win {
        win := W32(win + incr);
      }
    }

    /** The window after one control interval of congestion avoidance without losses. */
    method Avoid(st: Stats, weight: u32, was: u32) returns (win: u32)
      requires MSS <= was
      modifies this`ecnRate
      ensures ecnRate == if st.acks > 0 then Average(old(ecnRate), Marked(st.ecn, st.acks), weight) else old(ecnRate)
      ensures var ecn := if st.acks > 0 then Min(st.ecn, st.acks) else st.ecn;
              win == if ecn > 0 then Cut(was, ecnRate) else Grow(was, Increment(was, st.ackb))
    {
      hide Average, Cut, Grow, Increment;
      var ecn := st.ecn;
      if st.acks > 0 {
        ecn := if ecn <= st.acks then ecn else st.acks;
        SameMarks(st.ecn, st.acks);
        Sample(ecn, st.acks, weight);
      }
      if ecn > 0 {
        win := Reduce(was, ecnRate);
      } else {
        win := Increase(was, st.ackb);
      }
    }

    method WinUpdate(config: Config, st: Stats)
      requires 0 < config.linkBw && MSS <= window && MSS <= txLen
      requires var rtt := if st.rtt == 0 then config.rttInit else st.rtt;
               SendTime(Update(Dctcp(), st, config.weight, txLen).window, rtt, config.linkBw) != 0
      modifies this
      ensures Dctcp() == Update(old(Dctcp()), st, config.weight, txLen)
      ensures MSS <= window <= txLen
      ensures rtt == if st.rtt == 0 then config.rttInit else st.rtt
      ensures rate == WindowToRate(window, rtt, config.linkBw)
    {
      hide Average, Marked, Cut, Grow, Increment, WindowToRate, SendTime;
      var r := if st.rtt == 0 then config.rttInit else st.rtt;
      var win := window;
      if slowstart {
        if st.drops == 0 && st.ecn == 0 && rexmits == 0 {
          win := SlowStart(win, st.ackb);
        } else {
          slowstart := false;
        }
      }
      if !slowstart {
        if st.drops > 0 || rexmits > 0 {
          win := win / 2;
        } else {
          win := Avoid(st, config.weight, win);
        }
      }
      if win < MSS {
        win := MSS;
      }
      if win > txLen {
        win := txLen;
      }
      rtt := r;
      rate := WindowToRate(win, r, config.linkBw);
      window := win;
      rexmits := 0;
    }

    static method SlowStart(was: u32, ackb: u32) returns (win: u32)
      ensures win == Grow(was, ackb)
    {
      win := was;
      if W32(win + ackb) > win {
        win := W32(win + ackb);
      }
    }
  }
}

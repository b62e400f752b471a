/** Two ends of one connection.  The segments are those the code builds (send_ctrl, tcp_connect, tcp_send and the
    passive open of src/net/tcp/tcp.c), and arrive unharmed; the theorems follow both control blocks. */
module TcpPeers {
  import opened Bytes
  import opened TcpSeq
  import opened TcpConn
  import opened TcpDelivery
  import opened TcpSend

  // ----- Segments sent

  function SynOf(c: Conn): Segment
  {
    Segment(c.localPort, c.remotePort, c.una, 0, RX_SIZE, false, true, false, false, [])
  }

  function SynAckOf(c: Conn): Segment
  {
    Segment(c.localPort, c.remotePort, c.una, c.rcv, RX_SIZE, false, true, false, true, [])
  }

  function AckOf(c: Conn): Segment
  {
    Segment(c.localPort, c.remotePort, c.nxt, c.rcv, RX_SIZE, false, false, false, true, [])
  }

  function FinOf(c: Conn): Segment
  {
    Segment(c.localPort, c.remotePort, c.nxt, c.rcv, RX_SIZE, true, false, false, true, [])
  }

  function DataOf(c: Conn, data: seq<Byte>): Segment
  {
    Segment(c.localPort, c.remotePort, c.nxt, c.rcv, RX_SIZE, false, false, false, true, data)
  }

  /** Each end expects the number the other one sends next. */
  predicate InSync(a: Conn, b: Conn)
  {
    a.rcv == b.nxt && b.rcv == a.nxt
  }

  /** Each end's slot names the other one's port. */
  predicate Peers(a: Conn, b: Conn)
  {
    a.localPort == b.remotePort && a.remotePort == b.localPort
  }

  // ----- Opening

  /** A slot that has just come up: established, nothing outstanding or unread, no buffer. */
  predicate Fresh(c: Conn)
    requires RingOk(c)
  {
    c.state == Established && Outstanding(c) == 0 && !c.buffered && Ring(c) == []
  }

  /** tcp_connect, the passive open its SYN brings about, the SYN-ACK and its acknowledgement: both ends are up and agree
      on the sequence numbers in both directions, for every pair of initial numbers. */
  lemma ThreeWayHandshake(a0: Conn, b0: Conn, ipA: nat, ipB: nat, portA: nat, portB: nat, isnA: Seq, isnB: Seq,
                          t: seq<Seq>, gotA: bool, gotB: bool)
    requires RingOk(a0) && RingOk(b0) && |t| == 4
    ensures var a1 := OpenConnect(a0, ipB, portB, portA, isnA, t[0], gotA);
      var b1 := PassiveOpen(b0, SynOf(a1), ipA, isnB, t[1], gotB);
      var a2 := Receive(a1, SynAckOf(b1), t[2]);
      var b2 := Receive(b1, AckOf(a2), t[3]);
      && Fresh(a2) && Fresh(b2) && InSync(a2, b2) && Peers(a2, b2) && a2.remoteIp == ipB && b2.remoteIp == ipA
      && a2.localPort == portA && b2.localPort == portB
      && a2.nxt == Wrap(isnA as int + 1) && b2.nxt == Wrap(isnB as int + 1) && a2.wnd == b2.wnd == 4096
  {
    hide Wrap, Ring, SeqLeq, SeqLt, AckPhase, DataPhase, FinPhase;
    var a1 := OpenConnect(a0, ipB, portB, portA, isnA, t[0], gotA);
    var b1 := PassiveOpen(b0, SynOf(a1), ipA, isnB, t[1], gotB);
    var a2 := Receive(a1, SynAckOf(b1), t[2]);
    MinusSelf(a2.nxt);
    Arrives(b1, AckOf(a2), t[3]);
    EmptyRing(a2);
    EmptyRing(b1);
  }

  lemma EmptyRing(c: Conn)
    requires RingOk(c) && c.head == c.tail
    ensures Ring(c) == []
  {
  }

  lemma RingFits(c: Conn)
    requires RingOk(c)
    ensures |Ring(c)| <= 4095
  {
  }

  /** What an acknowledgement of everything sent does to a slot waiting for it. */
  lemma Arrives(c: Conn, seg: Segment, now: Seq)
    requires RingOk(c) && c.state == SynRcvd && !seg.rst && seg.ack && seg.ackNo == c.nxt && !seg.fin && seg.data == []
    ensures var c' := Receive(c, seg, now);
      && c' == c.(state := Established, una := seg.ackNo, wnd := seg.wnd, buffered := false, retxLen := 0, retxCount := 0)
      && Outstanding(c') == 0
  {
    hide Ring, SeqLt;
    SelfLeq(c.nxt);
    MinusSelf(c.nxt);
    WrapSmall(c.rcv);
  }

  // ----- Sending

  /** One segment and its acknowledgement.  The receiver gets as many of the bytes as fit, after those it has; the sender
      is told exactly that, and keeps the segment for retransmission unless all of it was taken. */
  lemma Transfer(a: Conn, b: Conn, data: seq<Byte>, t: seq<Seq>, gotBuffer: bool)
    requires RingOk(a) && RingOk(b) && InSync(a, b) && |t| == 3
    requires a.state in {Established, CloseWait} && b.state in {Established, FinWait1, FinWait2}
    requires Outstanding(a) + |data| < HALF && Outstanding(b) < HALF && data != []
    ensures var a1 := SendData(a, |data|, t[0], gotBuffer);
      var b1 := Receive(b, DataOf(a, data), t[1]);
      var a2 := Receive(a1, AckOf(b1), t[2]);
      var k := Min(|data|, 4095 - |Ring(b)|);
      && Ring(b1) == Ring(b) + data[..k] && Ring(a2) == Ring(a)
      && a2.una == b1.rcv == Wrap(a.nxt as int + k) && a2.nxt == Wrap(a.nxt as int + |data|)
      && (a2.buffered <==> gotBuffer && k < |data|)
      && (k == |data| ==> InSync(a2, b1) && Outstanding(a2) == 0)
      && (b.state != FinWait2 ==> Outstanding(b1) == 0 && !b1.buffered)
  {
    hide Wrap, Minus, Ring, Avail, Receive, Opposite;
    RingFits(b);
    var k := Min(|data|, 4095 - |Ring(b)|);
    var a1 := SendData(a, |data|, t[0], gotBuffer);
    var b1 := Receive(b, DataOf(a, data), t[1]);
    ReceiveTakes(b, DataOf(a, data), t[1]);
    ReceiveUna(b, DataOf(a, data), t[1]);
    if b.state != FinWait2 { AllAcknowledged(b, DataOf(a, data), t[1]); }
    Told(a, b1, |data|, k, t[0], t[2], gotBuffer);
  }

  /** A segment that acknowledges everything empties the outstanding numbers and the buffer. */
  lemma AllAcknowledged(c: Conn, seg: Segment, now: Seq)
    requires RingOk(c) && Outstanding(c) < HALF && seg.ack && !seg.rst && seg.ackNo == c.nxt
    requires c.state in {Established, FinWait1, CloseWait, Closing}
    ensures var c' := Receive(c, seg, now);
      c'.una == c'.nxt == c.nxt && Outstanding(c') == 0 && !c'.buffered && c'.wnd == seg.wnd
  {
    hide Wrap, Minus, Receive, Opposite;
    ReceiveAcks(c, seg, now);
    ReceiveUna(c, seg, now);
    MinusSelf(c.nxt);
  }

  /** The sender's side of it: the acknowledgement of k of the n bytes just sent. */
  lemma Told(a: Conn, b1: Conn, n: nat, k: nat, now: Seq, later: Seq, gotBuffer: bool)
    requires RingOk(a) && a.state in {Established, CloseWait} && k <= n && 0 < n && Outstanding(a) + n < HALF
    requires b1.rcv == Wrap(a.nxt as int + k) && b1.nxt == a.rcv
    ensures var a1 := SendData(a, n, now, gotBuffer); var a2 := Receive(a1, AckOf(b1), later);
      && a2.una == Wrap(a.nxt as int + k) && a2.nxt == Wrap(a.nxt as int + n) && Ring(a2) == Ring(a) && a2.rcv == a.rcv
      && (a2.buffered <==> gotBuffer && k < n) && (k == n ==> Outstanding(a2) == 0)
  {
    hide Wrap, Minus, Ring, Avail, Receive;
    var a1 := SendData(a, n, now, gotBuffer);
    var seg := AckOf(b1);
    OutstandingGrows(a, n);
    OutstandingGrows(a, k);
    SameRingSame(a, a1);
    ReceiveTakes(a1, seg, later);
    assert Ring(a1) + seg.data[..0] == Ring(a1);
    WrapSmall(a.rcv);
    Behind(a, k, n);
    ReceiveAcks(a1, seg, later);
    ReceiveUna(a1, seg, later);
    StillOpen(a1, seg, later);
  }

  lemma Behind(a: Conn, k: nat, n: nat)
    requires k <= n && Outstanding(a) + n < HALF
    ensures Minus(Wrap(a.nxt as int + n), Wrap(a.nxt as int + k)) == n - k
    ensures Wrap(a.nxt as int + n) == Wrap(a.nxt as int + k) <==> n == k
  {
    MinusWrap(a.nxt as int + n, a.nxt as int + k);
    WrapSmall(n - k);
    SamePosition(a.nxt as int + n, a.nxt as int + k);
  }

  lemma StillOpen(c: Conn, seg: Segment, now: Seq)
    requires RingOk(c) && c.state in {Established, CloseWait} && !seg.rst && !seg.fin
    ensures Receive(c, seg, now).state == c.state
  {
    hide Receive, Minus;
    ReceiveMoves(c, seg, now);
    MovedTwo(c.state, AllAcked, GotFin);
  }

  // ----- Closing

  /** An orderly close, begun by one end: FIN, acknowledgement, FIN, acknowledgement.  The first to close waits for 4000
      ticks, the other is closed at once, and what was unread at either end still is. */
  lemma OrderlyClose(a: Conn, b: Conn, t: seq<Seq>)
    requires RingOk(a) && RingOk(b) && InSync(a, b) && a.state == b.state == Established && |t| == 4
    requires Outstanding(a) + 1 < HALF && Outstanding(b) + 1 < HALF
    ensures var a1 := Close(a); var b1 := Receive(b, FinOf(a), t[0]);
      var a2 := Receive(a1, AckOf(b1), t[1]);
      var b2 := Close(b1); var a3 := Receive(a2, FinOf(b1), t[2]);
      var b3 := Receive(b2, AckOf(a3), t[3]);
      && (a1.state, b1.state, a2.state, b2.state, a3.state, b3.state) == (FinWait1, CloseWait, FinWait2, LastAck, TimeWait, Closed)
      && !a2.buffered && !b1.buffered && !b3.buffered && Ring(a3) == Ring(a) && Ring(b3) == Ring(b)
      && (forall n | 0 <= n < 4000 :: Ticks(a3, t[2], n).state == TimeWait) && Ticks(a3, t[2], 4000).state == Closed
  {
    hide Wrap, Minus, Ring, Avail, Receive, Ticks;
    var a1 := Close(a);
    var b1 := Receive(b, FinOf(a), t[0]);
    GetsFin(b, FinOf(a), t[0]);
    AllAcknowledged(b, FinOf(a), t[0]);
    OutstandingGrows(a, 1);
    SameRingSame(a, a1);
    var a2 := Receive(a1, AckOf(b1), t[1]);
    GetsAck(a1, AckOf(b1), t[1]);
    AllAcknowledged(a1, AckOf(b1), t[1]);
    var b2 := Close(b1);
    SameRingSame(b1, b2);
    var a3 := Receive(a2, FinOf(b1), t[2]);
    GetsFin(a2, FinOf(b1), t[2]);
    EntersTimeWait(a2, FinOf(b1), t[2]);
    MovedTwo(a2.state, AllAcked, GotFin);
    OutstandingGrows(b1, 1);
    LastAcked(b2, AckOf(a3), t[3]);
    forall n | 0 <= n <= 4000
      ensures Ticks(a3, t[2], n) == if n < 4000 then a3 else a3.(state := Closed)
    {
      TimeWaitEnds(a3, t[2], n);
    }
  }

  /** Both ends close at the same time: the FINs cross, each acknowledges the other's, and both wait. */
  lemma SimultaneousClose(a: Conn, b: Conn, t: seq<Seq>)
    requires RingOk(a) && RingOk(b) && InSync(a, b) && a.state == b.state == Established && |t| == 4
    requires Outstanding(a) + 1 < HALF && Outstanding(b) + 1 < HALF
    ensures var a1 := Close(a); var b1 := Close(b);
      var a2 := Receive(a1, FinOf(b), t[0]); var b2 := Receive(b1, FinOf(a), t[1]);
      var a3 := Receive(a2, AckOf(b2), t[2]); var b3 := Receive(b2, AckOf(a2), t[3]);
      && a2.state == b2.state == Closing && Lingers(a3, t[2]) && Lingers(b3, t[3]) && !a3.buffered && !b3.buffered
      && Ring(a3) == Ring(a) && Ring(b3) == Ring(b)
  {
    hide Ring, Receive, Minus, Wrap;
    FinsCross(a, b, t[0]);
    FinsCross(b, a, t[1]);
    var a2, b2 := Receive(Close(a), FinOf(b), t[0]), Receive(Close(b), FinOf(a), t[1]);
    FinAcked(a2, AckOf(b2), t[2]);
    FinAcked(b2, AckOf(a2), t[3]);
  }

  /** The other end's FIN, sent before it saw ours. */
  lemma FinsCross(a: Conn, b: Conn, now: Seq)
    requires RingOk(a) && InSync(a, b) && a.state == Established && Outstanding(a) + 1 < HALF
    ensures var a2 := Receive(Close(a), FinOf(b), now);
      && a2.state == Closing && a2.nxt == Wrap(a.nxt as int + 1) && a2.rcv == Wrap(b.nxt as int + 1)
      && Outstanding(a2) < HALF && Ring(a2) == Ring(a)
  {
    hide Wrap, Minus, Ring, Avail, Receive;
    var a1 := Close(a);
    var seg := FinOf(b);
    OutstandingGrows(a, 1);
    SameRingSame(a, a1);
    ReceiveTakes(a1, seg, now);
    assert Ring(a1) + seg.data[..0] == Ring(a1);
    WrapNext(a.nxt);
    ReceiveUna(a1, seg, now);
    NotOpposite(a1, seg);
    ReceiveMoves(a1, seg, now);
    MovedTwo(a1.state, AllAcked, GotFin);
    Fins();
  }

  lemma WrapNext(x: Seq)
    ensures Wrap(x as int + 1) != x
  {
  }

  lemma NotOpposite(c: Conn, seg: Segment)
    requires 0 < Outstanding(c) < HALF
    ensures !Opposite(c, seg)
  {
    MinusSelf(c.una);
  }

  lemma Fins()
    ensures Target(FinWait1, GotFin) == Closing && Target(Established, GotFin) == CloseWait
    ensures Target(FinWait2, GotFin) == TimeWait && Target(FinWait1, AllAcked) == FinWait2
    ensures Target(Closing, AllAcked) == TimeWait && Target(Established, AllAcked) == Established
    ensures Target(FinWait2, AllAcked) == FinWait2 && Target(LastAck, AllAcked) == Closed
  {
  }

  lemma FinAcked(c: Conn, seg: Segment, now: Seq)
    requires RingOk(c) && c.state == Closing && Outstanding(c) < HALF
    requires !seg.rst && !seg.fin && seg.ack && seg.ackNo == c.nxt && seg.data == []
    ensures Lingers(Receive(c, seg, now), now) && !Receive(c, seg, now).buffered && Ring(Receive(c, seg, now)) == Ring(c)
  {
    hide Wrap, Minus, Ring, Avail, Receive;
    AllAcknowledged(c, seg, now);
    ReceiveMoves(c, seg, now);
    MovedTwo(c.state, AllAcked, GotFin);
    Fins();
    EntersTimeWait(c, seg, now);
    ReceiveTakes(c, seg, now);
    assert Ring(c) + seg.data[..0] == Ring(c);
  }

  /** A FIN at the number expected, acknowledging everything. */
  lemma GetsFin(c: Conn, seg: Segment, now: Seq)
    requires RingOk(c) && c.state in {Established, FinWait2} && seg.fin && seg.ack && !seg.rst && seg.ackNo == c.nxt
    requires seg.data == [] && Outstanding(c) < HALF
    ensures var c' := Receive(c, seg, now);
      && c'.state == (if c.state == Established then CloseWait else TimeWait) && c'.nxt == c.nxt
      && c'.rcv == Wrap(c.rcv as int + 1) && Ring(c') == Ring(c)
  {
    hide Wrap, Minus, Ring, Avail, Receive;
    ReceiveTakes(c, seg, now);
    assert Ring(c) + seg.data[..0] == Ring(c);
    ReceiveUna(c, seg, now);
    ReceiveMoves(c, seg, now);
    MovedTwo(c.state, AllAcked, GotFin);
    Fins();
  }

  /** The acknowledgement of our FIN. */
  lemma GetsAck(c: Conn, seg: Segment, now: Seq)
    requires RingOk(c) && c.state == FinWait1 && !seg.fin && seg.ack && !seg.rst && seg.ackNo == c.nxt && seg.data == []
    ensures var c' := Receive(c, seg, now); c'.state == FinWait2 && c'.rcv == c.rcv && Ring(c') == Ring(c)
  {
    hide Wrap, Minus, Ring, Avail, Receive;
    ReceiveTakes(c, seg, now);
    assert Ring(c) + seg.data[..0] == Ring(c);
    WrapSmall(c.rcv);
    ReceiveMoves(c, seg, now);
    MovedTwo(c.state, AllAcked, GotFin);
    Fins();
  }

  lemma LastAcked(c: Conn, seg: Segment, now: Seq)
    requires RingOk(c) && c.state == LastAck && !seg.fin && seg.ack && !seg.rst && seg.ackNo == c.nxt && seg.data == []
    requires Outstanding(c) <= HALF
    ensures var c' := Receive(c, seg, now); c'.state == Closed && !c'.buffered && Ring(c') == Ring(c)
  {
    hide Wrap, Minus, Ring, Avail, Receive;
    ReceiveTakes(c, seg, now);
    assert Ring(c) + seg.data[..0] == Ring(c);
    ReceiveMoves(c, seg, now);
    MovedTwo(c.state, AllAcked, GotFin);
    Fins();
    ReceiveAcks(c, seg, now);
  }
}

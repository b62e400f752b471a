/** The send side of a connection: the sequence space, the retransmit buffer, its timer, and the
    connection states. */
module TcpSend {
  import opened Bytes
  import opened TcpSeq
  import opened TcpConn
  import opened TcpDelivery

  // ----- The send sequence space

  /** Numbers sent and not acknowledged. */
  function Outstanding(c: Conn): Seq
  {
    Minus(c.nxt, c.una)
  }

  /** The segment's acknowledgement number is compared with the send window. */
  predicate AckCompared(c: Conn, seg: Segment)
  {
    !seg.rst && seg.ack && (c.state == Established || c.state == FinWait1 || c.state == CloseWait || c.state == Closing)
  }

  /** With nothing outstanding, an acknowledgement 2^31 away passes both comparisons. */
  predicate Opposite(c: Conn, seg: Segment)
  {
    AckCompared(c, seg) && c.una == c.nxt && seg.ackNo == Wrap(c.una as int + HALF)
  }

  lemma AckPhaseUna(c: Conn, seg: Segment, now: Seq)
    requires Outstanding(c) <= HALF && !seg.rst
    ensures var c' := AckPhase(c, seg, now);
      && c'.nxt == c.nxt
      && (Minus(c'.una, c.una) <= Outstanding(c) <==> !Opposite(c, seg))
      && (Opposite(c, seg) ==> Outstanding(c') == HALF)
      && (!Opposite(c, seg) ==> Outstanding(c') == Outstanding(c) - Minus(c'.una, c.una))
  {
    hide SeqLeq, Wrap;
    AckTest(c.una, seg.ackNo, c.nxt);
    OppositeOutstanding(c.una);
    MinusSelf(c.una);
  }

  lemma MinusSelf(x: Seq)
    ensures Minus(x, x) == 0
  {
  }

  lemma OppositeOutstanding(x: Seq)
    ensures Minus(x, Wrap(x as int + HALF)) == HALF && Minus(Wrap(x as int + HALF), x) == HALF && Wrap(x as int + HALF) != x
  {
    WrapSmall(x as int + HALF);
  }

  /** Everything after the acknowledgement leaves the send space alone. */
  lemma LaterPhases(c: Conn, seg: Segment, now: Seq)
    requires RingOk(c)
    ensures var c' := FinPhase(DataPhase(c, seg), seg, now);
      c'.una == c.una && c'.nxt == c.nxt && c'.buffered == c.buffered && c'.retxLen == c.retxLen && c'.retxCount == c.retxCount
    ensures DataPhase(c, seg).state == c.state
  {
    hide Wrap, Avail;
  }

  /** A segment moves snd_una forward and not past snd_nxt, except exactly in the opposite case. */
  lemma ReceiveUna(c: Conn, seg: Segment, now: Seq)
    requires RingOk(c) && Outstanding(c) <= HALF
    ensures var c' := Receive(c, seg, now);
      && c'.nxt == c.nxt
      && (Minus(c'.una, c.una) <= Outstanding(c) <==> !Opposite(c, seg))
      && (Opposite(c, seg) ==> Outstanding(c') == HALF)
      && (!Opposite(c, seg) ==> Outstanding(c') == Outstanding(c) - Minus(c'.una, c.una))
  {
    hide Wrap, SeqLt, SeqLeq, Minus, AckPhase, FinPhase, DataPhase;
    MinusSelf(c.una);
    MinusSelf(c.nxt);
    if !seg.rst && c.state != SynSent {
      var c0 := if c.state == SynRcvd then RetxClear(c.(una := seg.ackNo, wnd := seg.wnd)).(state := Established) else c;
      if c.state != SynRcvd || (seg.ack && seg.ackNo == c.nxt) {
        AckPhaseUna(c0, seg, now);
        AckPhaseKeepsReceiver(c0, seg, now);
        OppositeOutstanding(c0.una);
        LaterPhases(AckPhase(c0, seg, now), seg, now);
        MinusZero(AckPhase(c0, seg, now).una, c.nxt);
      }
    }
  }

  lemma MinusZero(x: Seq, y: Seq)
    ensures Minus(x, y) == 0 ==> x == y
  {
  }

  // ----- What a segment acknowledges

  /** The acknowledgement that completes the handshake. */
  predicate Handshake(c: Conn, seg: Segment)
  {
    !seg.rst && seg.ack && seg.ackNo == c.nxt && ((c.state == SynSent && seg.syn) || c.state == SynRcvd)
  }

  /** The segment's acknowledgement number becomes snd_una: it completes the handshake, or lies within the outstanding
      numbers, or is the opposite one. */
  predicate Acknowledges(c: Conn, seg: Segment)
  {
    || Handshake(c, seg)
    || (AckCompared(c, seg) && (Minus(seg.ackNo, c.una) <= Outstanding(c) || Opposite(c, seg)))
  }

  /** The acknowledgement part of tcp_rx on the number alone. */
  lemma AckNumberAcks(c: Conn, seg: Segment)
    requires Outstanding(c) <= HALF && !seg.rst && seg.ack
    ensures var c' := AckNumber(c, seg);
      var acks := AckCompared(c, seg) && (Minus(seg.ackNo, c.una) <= Outstanding(c) || Opposite(c, seg));
      && c'.una == (if acks then seg.ackNo else c.una) && c'.wnd == (if acks then seg.wnd else c.wnd)
      && (c'.buffered <==> c.buffered && !(acks && (seg.ackNo == c.nxt || Minus(c.nxt, seg.ackNo) == HALF)))
  {
    hide Wrap, Minus;
    AckTest(c.una, seg.ackNo, c.nxt);
    OppositeOutstanding(c.una);
    MinusSelf(c.nxt);
    MinusZero(c.nxt, seg.ackNo);
  }

  /** An acknowledgement number within the outstanding ones, of which there are fewer than 2^31. */
  predicate AckWithin(c: Conn, seg: Segment)
  {
    && seg.ack && !seg.rst && c.state in {Established, FinWait1, CloseWait, Closing}
    && Minus(seg.ackNo, c.una) <= Outstanding(c) < HALF
  }

  lemma AckNumberWithin(c: Conn, seg: Segment)
    requires AckWithin(c, seg)
    ensures var c' := AckNumber(c, seg);
      c'.una == seg.ackNo && c'.wnd == seg.wnd && (c'.buffered <==> c.buffered && seg.ackNo != c.nxt)
  {
    hide Wrap, Minus, AckNumber;
    AckNumberAcks(c, seg);
    AckTest(c.una, seg.ackNo, c.nxt);
  }

  lemma AckPhaseAcks(c: Conn, seg: Segment, now: Seq)
    requires Outstanding(c) <= HALF && !seg.rst && c.state !in {SynSent, SynRcvd, Closed}
    ensures var c' := AckPhase(c, seg, now); var acks := Acknowledges(c, seg);
      && c'.una == (if acks then seg.ackNo else c.una) && c'.wnd == (if acks then seg.wnd else c.wnd)
      && (c'.buffered <==> c.buffered && c'.state != Closed && !(acks && (seg.ackNo == c.nxt || Minus(c.nxt, seg.ackNo) == HALF)))
  {
    hide Wrap, Minus, AckNumber;
    AckNumberKeeps(c, seg);
    if seg.ack { AckNumberAcks(c, seg); }
  }

  /** Exactly what a segment does to snd_una, the send window and the retransmit buffer: an acknowledgement number within
      the outstanding ones becomes snd_una, and the buffer goes when it is snd_nxt (or 2^31 before it, where the
      comparison fails), or when the slot closes. */
  lemma ReceiveAcks(c: Conn, seg: Segment, now: Seq)
    requires RingOk(c) && Outstanding(c) <= HALF && c.state != Closed && c.state != Listen
    ensures var c' := Receive(c, seg, now); var acks := Acknowledges(c, seg);
      && c'.una == (if acks then seg.ackNo else c.una) && c'.wnd == (if acks then seg.wnd else c.wnd)
      && (c'.buffered <==> c.buffered && c'.state != Closed && !(acks && (seg.ackNo == c.nxt || Minus(c.nxt, seg.ackNo) == HALF)))
  {
    hide Wrap, SeqLt, SeqLeq, Minus, AckPhase, FinPhase, DataPhase;
    MinusSelf(c.nxt);
    if Processed(c, seg) {
      var c0 := if c.state == SynRcvd then RetxClear(c.(una := seg.ackNo, wnd := seg.wnd)).(state := Established) else c;
      AckPhaseAcks(c0, seg, now);
      AckPhaseKeepsReceiver(c0, seg, now);
      LaterWindow(AckPhase(c0, seg, now), seg, now);
    }
  }

  lemma LaterWindow(c: Conn, seg: Segment, now: Seq)
    requires RingOk(c)
    ensures var c' := FinPhase(DataPhase(c, seg), seg, now);
      && c'.una == c.una && c'.nxt == c.nxt && c'.wnd == c.wnd && c'.buffered == c.buffered
      && (c'.state == Closed <==> c.state == Closed)
  {
    hide Wrap, Avail;
  }

  /** A concrete case: nothing outstanding, and the peer acknowledges 2^31: snd_una passes snd_nxt. */
  lemma OppositeExample(c: Conn, seg: Segment, now: Seq)
    requires RingOk(c) && c.state == Established && c.una == c.nxt == 0
    requires seg.ack && !seg.rst && seg.ackNo == HALF
    ensures Receive(c, seg, now).una == HALF && Receive(c, seg, now).nxt == 0
  {
    hide AckPhase, FinPhase, DataPhase;
    AckPhaseExample(c, seg, now);
    AckPhaseKeepsReceiver(c, seg, now);
    LaterPhases(AckPhase(c, seg, now), seg, now);
  }

  lemma AckPhaseExample(c: Conn, seg: Segment, now: Seq)
    requires c.state == Established && c.una == c.nxt == 0 && seg.ack && seg.ackNo == HALF
    ensures AckPhase(c, seg, now).una == HALF && AckPhase(c, seg, now).nxt == 0 && AckPhase(c, seg, now).state == Established
  {
    assert SeqLeq(0, HALF) && SeqLeq(HALF, 0);
  }

  /** c's send variables stand for positions u <= n, less than 2^31 apart. */
  predicate At(c: Conn, u: int, n: int)
  {
    u <= n < u + HALF && c.una == Wrap(u) && c.nxt == Wrap(n)
  }

  /** Events of a well-behaved peer and application: no opposite acknowledgement, and after a send or a
      close fewer than 2^31 numbers are outstanding. */
  predicate Sensible(c: Conn, ev: Event)
    requires RingOk(c)
  {
    match ev
    case Rx(seg, _) => !Opposite(c, seg)
    case Send(len, _, _) => Outstanding(c) + len < HALF
    case DoClose => Outstanding(c) + 1 < HALF
    case _ => true
  }

  lemma OutstandingAt(c: Conn, u: int, n: int)
    requires At(c, u, n)
    ensures Outstanding(c) == n - u
  {
    MinusWrap(n, u);
    WrapSmall(n - u);
  }

  lemma AdvanceTo(una: Seq, una': Seq, u: int)
    requires una == Wrap(u)
    ensures una' == Wrap(u + Minus(una', una))
  {
    WrapPlus(u, Minus(una', una));
    WrapPlus(una' as int - una as int, una);
    WrapSmall(una');
  }

  /** Sequence numbers an event uses up: the bytes of an accepted send, one for a FIN. */
  function Sent(c: Conn, ev: Event): nat
  {
    match ev
    case Send(len, _, _) => if c.state == Established || c.state == CloseWait then len else 0
    case DoClose => if c.state == Established || c.state == SynRcvd || c.state == CloseWait then 1 else 0
    case _ => 0
  }

  /** Sequence numbers an event acknowledges: all of them in the handshake, otherwise those up to an acknowledgement
      number within the outstanding ones. */
  function Acked(c: Conn, ev: Event): nat
  {
    if !ev.Rx? then 0
    else if Handshake(c, ev.seg) then Outstanding(c)
    else if AckCompared(c, ev.seg) && Minus(ev.seg.ackNo, c.una) <= Outstanding(c) then Minus(ev.seg.ackNo, c.una)
    else 0
  }

  /** Every event moves snd_nxt forward by what it sends, and snd_una forward by what it acknowledges, which is
      no more than is outstanding. */
  lemma StepPositions(c: Conn, ev: Event, u: int, n: int)
    requires RingOk(c) && At(c, u, n) && Sensible(c, ev)
    ensures Acked(c, ev) <= Outstanding(c)
    ensures At(Step(c, ev), u + Acked(c, ev), n + Sent(c, ev))
  {
    hide Wrap, Minus, Receive, SeqLt, Avail, Ring, Opposite, Doubled;
    OutstandingAt(c, u, n);
    MinusSelf(c.una);
    match ev
    case Rx(seg, now) =>
      if c.state != Closed && c.state != Listen {
        ReceiveUna(c, seg, now);
        ReceiveAcks(c, seg, now);
        AdvanceTo(c.una, Receive(c, seg, now).una, u);
      }
    case Send(len, now, got) => WrapPlus(n, len);
    case DoClose => WrapPlus(n, 1);
    case _ =>
  }

  predicate RunSensible(c: Conn, evs: seq<Event>)
    requires RingOk(c)
    decreases |evs|
  {
    evs == [] || (Sensible(c, evs[0]) && RunSensible(Step(c, evs[0]), evs[1..]))
  }

  function RunSent(c: Conn, evs: seq<Event>): nat
    requires RingOk(c)
    decreases |evs|
  {
    if evs == [] then 0 else Sent(c, evs[0]) + RunSent(Step(c, evs[0]), evs[1..])
  }

  function RunAcked(c: Conn, evs: seq<Event>): nat
    requires RingOk(c)
    decreases |evs|
  {
    if evs == [] then 0 else Acked(c, evs[0]) + RunAcked(Step(c, evs[0]), evs[1..])
  }

  /** All runs: snd_nxt stands at the position after everything sent and snd_una at the one after everything
      acknowledged; neither moves back, and no more is acknowledged than was outstanding or sent. */
  lemma {:induction false} RunPositions(c: Conn, evs: seq<Event>, u: int, n: int)
    requires RingOk(c) && At(c, u, n) && RunSensible(c, evs)
    ensures At(RunState(c, evs), u + RunAcked(c, evs), n + RunSent(c, evs))
    ensures RunAcked(c, evs) <= Outstanding(c) + RunSent(c, evs)
    decreases |evs|
  {
    hide Sensible, Step, Acked, Sent, Wrap, Minus;
    OutstandingAt(c, u, n);
    if evs != [] {
      StepPositions(c, evs[0], u, n);
      RunPositions(Step(c, evs[0]), evs[1..], u + Acked(c, evs[0]), n + Sent(c, evs[0]));
      OutstandingAt(Step(c, evs[0]), u + Acked(c, evs[0]), n + Sent(c, evs[0]));
    }
  }

  // ----- The retransmit buffer is not lost

  /** States in which a slot holds no retransmit buffer, so that its reuse loses none. */
  predicate Unbuffered(s: State)
  {
    s == Closed || s == Listen || s == FinWait2 || s == TimeWait
  }

  predicate BufferOk(c: Conn)
  {
    Unbuffered(c.state) ==> !c.buffered
  }

  lemma AckPhaseBuffer(c: Conn, seg: Segment, now: Seq)
    requires BufferOk(c) && Outstanding(c) <= HALF
    ensures BufferOk(AckPhase(c, seg, now))
  {
    hide Wrap, SeqLeq;
    AckTest(c.una, c.nxt, c.nxt);
    SelfLeq(c.nxt);
  }

  lemma SelfLeq(x: Seq)
    ensures SeqLeq(x, x)
  {
  }

  lemma FinPhaseBuffer(c: Conn, seg: Segment, now: Seq)
    requires BufferOk(c)
    ensures BufferOk(FinPhase(c, seg, now))
  {
    hide Wrap;
  }

  lemma ReceiveBuffer(c: Conn, seg: Segment, now: Seq)
    requires RingOk(c) && BufferOk(c) && Outstanding(c) <= HALF
    ensures BufferOk(Receive(c, seg, now))
  {
    hide Wrap, SeqLt, SeqLeq, Minus, AckPhase, FinPhase, DataPhase;
    MinusSelf(c.nxt);
    if !seg.rst && c.state != SynSent {
      var c0 := if c.state == SynRcvd then RetxClear(c.(una := seg.ackNo, wnd := seg.wnd)).(state := Established) else c;
      if c.state != SynRcvd || (seg.ack && seg.ackNo == c.nxt) {
        AckPhaseBuffer(c0, seg, now);
        AckPhaseKeepsReceiver(c0, seg, now);
        var c1 := AckPhase(c0, seg, now);
        if c1.state != Closed {
          DataPhaseBuffer(c1, seg);
          FinPhaseBuffer(DataPhase(c1, seg), seg, now);
        }
      }
    }
  }

  lemma DataPhaseBuffer(c: Conn, seg: Segment)
    requires RingOk(c)
    ensures DataPhase(c, seg).state == c.state && DataPhase(c, seg).buffered == c.buffered
  {
    hide Wrap, Avail;
  }

  /** The application keeps at most 2^31 numbers outstanding. */
  predicate Bounded(c: Conn, ev: Event)
  {
    match ev
    case Send(len, _, _) => Outstanding(c) + len <= HALF
    case DoClose => Outstanding(c) + 1 <= HALF
    case _ => true
  }

  lemma OutstandingGrows(c: Conn, k: nat)
    requires Outstanding(c) + k <= HALF
    ensures Minus(Wrap(c.nxt as int + k), c.una) == Outstanding(c) + k
  {
    var o := Outstanding(c) as int;
    WrapPlus(c.nxt as int - c.una as int, k);
    MinusWrap(c.nxt as int + k, c.una);
    WrapSmall(c.una);
    WrapSmall(o + k);
  }

  lemma StepBuffer(c: Conn, ev: Event)
    requires RingOk(c) && BufferOk(c) && Outstanding(c) <= HALF && Bounded(c, ev)
    ensures BufferOk(Step(c, ev)) && Outstanding(Step(c, ev)) <= HALF
  {
    hide Wrap, Minus, Receive, SeqLt, Avail, Ring, Opposite, Doubled;
    match ev
    case Rx(seg, now) =>
      if c.state != Closed && c.state != Listen {
        ReceiveUna(c, seg, now);
        ReceiveBuffer(c, seg, now);
      }
    case Send(len, now, got) => OutstandingGrows(c, len);
    case DoClose => OutstandingGrows(c, 1);
    case _ =>
  }

  predicate RunBounded(c: Conn, evs: seq<Event>)
    requires RingOk(c)
    decreases |evs|
  {
    evs == [] || (Bounded(c, evs[0]) && RunBounded(Step(c, evs[0]), evs[1..]))
  }

  /** All runs, opposite acknowledgements included: no buffer is held where a slot may be reused. */
  lemma {:induction false} RunBuffer(c: Conn, evs: seq<Event>)
    requires RingOk(c) && BufferOk(c) && Outstanding(c) <= HALF && RunBounded(c, evs)
    ensures BufferOk(RunState(c, evs)) && Outstanding(RunState(c, evs)) <= HALF
    decreases |evs|
  {
    hide BufferOk, Bounded, Step, Outstanding;
    if evs != [] {
      StepBuffer(c, evs[0]);
      RunBuffer(Step(c, evs[0]), evs[1..]);
    }
  }

  // ----- Connection states

  /** The edges of the connection diagram of section 3.2 of RFC 793 (a passive open enters SYN-RECEIVED on
      a slot of its own), and the aborts to CLOSED. */
  predicate Edge(s: State, t: State)
  {
    || t == Closed
    || (s == Closed && (t == Listen || t == SynSent || t == SynRcvd))
    || (s == SynSent && t == Established)
    || (s == SynRcvd && (t == Established || t == FinWait1))
    || (s == Established && (t == FinWait1 || t == CloseWait))
    || (s == FinWait1 && (t == FinWait2 || t == Closing))
    || (s == FinWait2 && t == TimeWait)
    || (s == Closing && t == TimeWait)
    || (s == CloseWait && t == LastAck)
  }

  /** At most n edges from s to t, none of them out of CLOSED but a first one: a slot that closes stays closed. */
  predicate Within(s: State, t: State, n: nat)
    decreases n
  {
    s == t || (n > 0 && (Edge(s, t) || exists m: State :: m != Closed && Edge(s, m) && Within(m, t, n - 1)))
  }

  lemma OneEdge(s: State, t: State, n: nat)
    requires (s == t || Edge(s, t)) && n > 0
    ensures Within(s, t, n)
  {
  }

  lemma TwoEdges(s: State, m: State, t: State)
    requires (s == m || Edge(s, m)) && (m == t || Edge(m, t)) && (m == Closed ==> s == m || m == t)
    ensures Within(s, t, 2)
  {
    OneEdge(m, t, 1);
    if s == m || m == Closed {
      OneEdge(s, t, 2);
    } else {
      assert m != Closed && Edge(s, m) && Within(m, t, 1);
    }
  }

  /** For instance, no segment takes an established connection back to a handshake state. */
  lemma NoWayBack(c: Conn, seg: Segment, now: Seq)
    requires RingOk(c) && c.state == Established
    ensures var t := Receive(c, seg, now).state; t != Listen && t != SynSent && t != SynRcvd
  {
    hide Receive;
    ReceiveEdges(c, seg, now);
    assert forall m: State | m != Closed && Edge(Established, m) :: m == FinWait1 || m == CloseWait;
  }

  lemma AckPhaseEdge(c: Conn, seg: Segment, now: Seq)
    ensures var t := AckPhase(c, seg, now).state; t == c.state || Edge(c.state, t)
    ensures c.state == Established ==> AckPhase(c, seg, now).state == Established
  {
    hide Wrap, SeqLeq;
  }

  lemma FinPhaseEdge(c: Conn, seg: Segment, now: Seq)
    ensures var t := FinPhase(c, seg, now).state; t == c.state || Edge(c.state, t)
  {
    hide Wrap;
  }

  /** A received segment takes a slot along at most two edges. */
  lemma ReceiveEdges(c: Conn, seg: Segment, now: Seq)
    requires RingOk(c)
    ensures Within(c.state, Receive(c, seg, now).state, 2)
  {
    hide Wrap, SeqLt, SeqLeq, AckPhase, FinPhase, DataPhase, Within;
    var t := Receive(c, seg, now).state;
    if seg.rst || c.state == SynSent || (c.state == SynRcvd && (!seg.ack || seg.ackNo != c.nxt)) {
      TwoEdges(c.state, c.state, t);
    } else {
      var c0 := if c.state == SynRcvd then RetxClear(c.(una := seg.ackNo, wnd := seg.wnd)).(state := Established) else c;
      var c1 := AckPhase(c0, seg, now);
      AckPhaseEdge(c0, seg, now);
      AckPhaseKeepsReceiver(c0, seg, now);
      DataPhaseBuffer(c1, seg);
      FinPhaseEdge(DataPhase(c1, seg), seg, now);
      if c.state == SynRcvd {
        TwoEdges(c.state, Established, t);
      } else {
        TwoEdges(c.state, c1.state, t);
      }
    }
  }

  /** Calls and ticks take a slot along at most one edge; opening takes it from CLOSED. */
  lemma StepEdges(c: Conn, ev: Event)
    requires RingOk(c)
    ensures Within(c.state, Step(c, ev).state, if ev.Rx? then 2 else 1)
  {
    hide Wrap, SeqLt, Receive, Within, Ring, Avail, Doubled;
    if ev.Rx? {
      if c.state != Closed && c.state != Listen {
        ReceiveEdges(c, ev.seg, ev.now);
      } else {
        OneEdge(c.state, c.state, 2);
      }
    } else {
      OneEdge(c.state, Step(c, ev).state, 1);
    }
  }

  // ----- Which edge an event takes

  /** What moves a connection through the diagram: the user closes, everything sent is acknowledged, a SYN-ACK
      answers the SYN, a FIN arrives, a reset is accepted. */
  datatype Input = UserClose | AllAcked | SynAcked | GotFin | Aborted

  /** The diagram of section 3.2 of RFC 793, by input; an input without an edge leaves the state. */
  function Target(s: State, input: Input): State
  {
    match input
    case Aborted => Closed
    case UserClose =>
      if s == Established || s == SynRcvd then FinWait1 else if s == CloseWait then LastAck
      else if s == Listen || s == SynSent then Closed else s
    case SynAcked => if s == SynSent then Established else s
    case AllAcked =>
      if s == SynRcvd then Established else if s == FinWait1 then FinWait2 else if s == Closing then TimeWait
      else if s == LastAck then Closed else s
    case GotFin =>
      if s == Established then CloseWait else if s == FinWait1 then Closing else if s == FinWait2 then TimeWait else s
  }

  function Moved(s: State, inputs: seq<Input>): State
    decreases |inputs|
  {
    if inputs == [] then s else Moved(Target(s, inputs[0]), inputs[1..])
  }

  /** The inputs a segment brings, in order.  A reset counts within 4096 numbers of rcv_nxt; a FIN counts whatever its
      sequence number. */
  function Inputs(c: Conn, seg: Segment): seq<Input>
  {
    if seg.rst then (if c.state == SynSent || Minus(seg.seqNo, c.rcv) < 4096 then [Aborted] else [])
    else if c.state == SynSent then (if seg.syn && seg.ack && seg.ackNo == c.nxt then [SynAcked] else [])
    else if c.state == SynRcvd && !(seg.ack && seg.ackNo == c.nxt) then []
    else (if seg.ack && seg.ackNo == c.nxt then [AllAcked] else []) + (if seg.fin then [GotFin] else [])
  }

  lemma MovedTwo(s: State, i: Input, j: Input)
    ensures Moved(s, []) == s && Moved(s, [i]) == Target(s, i) && Moved(s, [i] + [j]) == Target(Target(s, i), j)
    ensures Moved(s, [] + [j]) == Target(s, j) && Moved(s, [i] + []) == Target(s, i) && Moved(s, [] + []) == s
  {
    hide Target;
    assert [i] + [j] == [i, j] && [i, j][1..] == [j] && [i][1..] == [] && [j][1..] == [];
    assert [] + [j] == [j] && [i] + [] == [i];
    assert Moved(s, [i, j]) == Moved(Target(s, i), [j]);
    assert Moved(Target(s, i), [j]) == Moved(Target(Target(s, i), j), []);
  }

  lemma AckTarget(c: Conn, seg: Segment, now: Seq)
    ensures AckPhase(c, seg, now).state ==
      if seg.ack && seg.ackNo == c.nxt && c.state != SynRcvd then Target(c.state, AllAcked) else c.state
  {
    hide Wrap, AckNumber;
    AckNumberKeeps(c, seg);
  }

  lemma AckNumberKeeps(c: Conn, seg: Segment)
    ensures AckNumber(c, seg).state == c.state && AckNumber(c, seg).nxt == c.nxt
  {
    hide SeqLeq;
  }

  lemma FinTarget(c: Conn, seg: Segment, now: Seq)
    ensures FinPhase(c, seg, now).state == if seg.fin then Target(c.state, GotFin) else c.state
  {
    hide Wrap;
  }

  /** A segment takes the connection exactly along the edges of its inputs. */
  lemma ReceiveMoves(c: Conn, seg: Segment, now: Seq)
    requires RingOk(c) && c.state != Closed && c.state != Listen
    ensures Receive(c, seg, now).state == Moved(c.state, Inputs(c, seg))
  {
    hide Wrap, SeqLt, SeqLeq, Minus, AckPhase, FinPhase, DataPhase, Target, Moved;
    MovedTwo(c.state, AllAcked, GotFin);
    MovedTwo(c.state, Aborted, SynAcked);
    MovedTwo(c.state, SynAcked, SynAcked);
    Targets();
    WindowTest(c.rcv, seg.seqNo, RX_SIZE);
    if Processed(c, seg) {
      var c0 := if c.state == SynRcvd then RetxClear(c.(una := seg.ackNo, wnd := seg.wnd)).(state := Established) else c;
      var c1 := AckPhase(c0, seg, now);
      AckTarget(c0, seg, now);
      AckPhaseKeepsReceiver(c0, seg, now);
      DataPhaseBuffer(c1, seg);
      FinTarget(DataPhase(c1, seg), seg, now);
    }
  }

  lemma Targets()
    ensures forall s: State :: Target(s, Aborted) == Closed
    ensures Target(SynSent, SynAcked) == Target(SynRcvd, AllAcked) == Target(Established, AllAcked) == Established
    ensures Target(Closed, GotFin) == Closed
  {
  }

  /** Calls take it along their edge, and a tick to CLOSED or nowhere. */
  lemma CallMoves(c: Conn, ev: Event)
    requires RingOk(c) && !ev.Rx?
    ensures ev.DoClose? ==> Step(c, ev).state == Target(c.state, UserClose)
    ensures ev.Read? || ev.Send? ==> Step(c, ev).state == c.state
    ensures ev.DoTick? ==> Step(c, ev).state == c.state || Step(c, ev).state == Closed
  {
    hide Wrap, SeqLt, Avail, Doubled;
  }

  // ----- The retransmission timer

  /** The slot after n ticks, the first at time now + 1. */
  function Ticks(c: Conn, now: Seq, n: nat): Conn
  {
    if n == 0 then c else Tick(Ticks(c, now, n - 1), Wrap(now as int + n))
  }

  /** Ticks from arming to the (k+1)-st expiry: 1000 (2^(k+1) - 1). */
  function Expiry(k: nat): int
  {
    RTO * (Doubled(k + 1) - 1)
  }

  /** Expiries up to tick n, at most six. */
  function Expired(n: nat): nat
  {
    if n < 1000 then 0 else if n < 3000 then 1 else if n < 7000 then 2 else if n < 15000 then 3
    else if n < 31000 then 4 else if n < 63000 then 5 else 6
  }

  lemma ExpiryTable()
    ensures Expiry(0) == 1000 && Expiry(1) == 3000 && Expiry(2) == 7000 && Expiry(3) == 15000 && Expiry(4) == 31000 && Expiry(5) == 63000
    ensures RTO * Doubled(1) == 2000 && RTO * Doubled(2) == 4000 && RTO * Doubled(3) == 8000
    ensures RTO * Doubled(4) == 16000 && RTO * Doubled(5) == 32000
  {
    assert Doubled(1) == 2;
    assert Doubled(2) == 4;
    assert Doubled(3) == 8;
    assert Doubled(4) == 16;
    assert Doubled(5) == 32;
    assert Doubled(6) == 64;
  }

  predicate ResendTick(n: nat)
  {
    n == 1000 || n == 3000 || n == 7000 || n == 15000 || n == 31000
  }

  /** A segment just armed at time now. */
  predicate Armed(c: Conn, now: Seq)
  {
    c.state != TimeWait && c.state != Closed && c.buffered && c.retxLen > 0 && c.retxCount == 0 && c.deadline == Wrap(now as int + RTO)
  }

  /** n ticks after arming, for n < 63000, the slot differs only in its counter and deadline. */
  ghost predicate Waiting(c0: Conn, now: Seq, n: nat, c: Conn)
  {
    c == c0.(retxCount := Expired(n), deadline := Wrap(now as int + Expiry(Expired(n))))
  }

  lemma TimerTest(now: int, n: int, d: int)
    requires 0 <= n <= 100000 && 0 <= d <= 100000
    ensures SeqLt(Wrap(now + n), Wrap(now + d)) <==> n < d
  {
    OrderOfPositions(now + n, now + d);
  }

  lemma WaitingTick(c0: Conn, now: Seq, n: nat, c: Conn)
    requires Armed(c0, now) && 0 < n <= 63000 && Waiting(c0, now, n - 1, c)
    ensures var t := Wrap(now as int + n);
      && (n < 63000 ==> Waiting(c0, now, n, Tick(c, t)))
      && (n == 63000 ==> Tick(c, t) == RetxClear(c).(state := Closed))
      && (Resends(c, t) <==> ResendTick(n))
  {
    hide Wrap, SeqLt, Doubled;
    ExpiryTable();
    var k := Expired(n - 1);
    TimerTest(now, n, Expiry(k));
    NextDeadline(now, n, RTO * Doubled(k + 1));
  }

  lemma NextDeadline(now: Seq, n: int, d: int)
    ensures Wrap(Wrap(now as int + n) as int + d) == Wrap(now as int + (n + d))
  {
    WrapPlus(now as int + n, d);
  }

  /** With nothing else happening, an armed segment is resent exactly at ticks 1000, 3000, 7000, 15000 and
      31000 after arming, and at tick 63000 the slot is closed, whatever the tick counter's value. */
  lemma {:induction false} Retransmissions(c: Conn, now: Seq, n: nat)
    requires Armed(c, now) && n < 63000
    ensures Waiting(c, now, n, Ticks(c, now, n))
    ensures Resends(Ticks(c, now, n), Wrap(now as int + n + 1)) <==> ResendTick(n + 1)
    ensures n + 1 == 63000 ==> Ticks(c, now, n + 1).state == Closed && !Ticks(c, now, n + 1).buffered
    decreases n
  {
    hide Wrap, Tick, Resends, Expiry, Armed;
    if n == 0 {
      StartWaiting(c, now);
    } else {
      Retransmissions(c, now, n - 1);
      WaitingTick(c, now, n, Ticks(c, now, n - 1));
    }
    WaitingTick(c, now, n + 1, Ticks(c, now, n));
    assert now as int + (n + 1) == now as int + n + 1;
  }

  lemma StartWaiting(c: Conn, now: Seq)
    requires Armed(c, now)
    ensures Waiting(c, now, 0, c)
  {
    hide Wrap;
    ExpiryTable();
  }

  /** Arming starts that clock, for a segment of positive length on an open connection, if there is memory for the copy;
      if there is none, no tick ever resends. */
  lemma Arming(c: Conn, len: nat, now: Seq)
    ensures Armed(RetxArm(c, len, now, true), now) <==> len > 0 && c.state != TimeWait && c.state != Closed
    ensures !RetxArm(c, len, now, false).buffered
  {
  }

  lemma {:induction false} NeverResent(c: Conn, now: Seq, n: nat, t: Seq)
    requires !c.buffered || c.retxLen == 0
    ensures !Resends(Ticks(c, now, n), t) && (!Ticks(c, now, n).buffered || Ticks(c, now, n).retxLen == 0)
  {
    hide Wrap, SeqLt;
    if n > 0 { NeverResent(c, now, n - 1, t); }
  }

  /** What tcp_send has sent is resent on that schedule while nothing else happens, and after tick 63000 the connection is
      gone.  The one exception is 65516 bytes, for which the 16-bit length of the segment wraps around to 0. */
  lemma SentIsResent(c: Conn, len: nat, now: Seq, gotBuffer: bool, n: nat)
    requires c.state in {Established, CloseWait} && 0 < len < 0x1_0000 && n < 63000
    ensures CanSend(c, len)
    ensures var c' := SendData(c, len, now, gotBuffer);
      && (Resends(Ticks(c', now, n), Wrap(now as int + n + 1)) <==> gotBuffer && len != 65516 && ResendTick(n + 1))
      && (gotBuffer && len != 65516 ==> Ticks(c', now, 63000).state == Closed)
  {
    hide Wrap, Resends, Ticks, RetxArm;
    var c0 := c.(nxt := Wrap(c.nxt as int + len));
    Arming(c0, (HDR_LEN + len) % 0x1_0000, now);
    var c' := SendData(c, len, now, gotBuffer);
    if gotBuffer && len != 65516 {
      Retransmissions(c', now, n);
      Retransmissions(c', now, 62999);
    } else {
      EmptyBuffer(c0, (HDR_LEN + len) % 0x1_0000, now, gotBuffer);
      NeverResent(c', now, n, Wrap(now as int + n + 1));
    }
  }

  lemma EmptyBuffer(c: Conn, len: nat, now: Seq, gotBuffer: bool)
    requires len == 0 || !gotBuffer
    ensures !RetxArm(c, len, now, gotBuffer).buffered || RetxArm(c, len, now, gotBuffer).retxLen == 0
  {
  }

  /** The SYN of tcp_connect and the SYN-ACK of a passive open are resent on that schedule too. */
  lemma SynIsResent(c: Conn, seg: Segment, ip: nat, remotePort: nat, localPort: nat, isn: Seq, now: Seq, gotBuffer: bool, n: nat)
    requires n < 63000
    ensures var c' := OpenConnect(c, ip, remotePort, localPort, isn, now, gotBuffer);
      Resends(Ticks(c', now, n), Wrap(now as int + n + 1)) <==> gotBuffer && ResendTick(n + 1)
    ensures var c' := PassiveOpen(c, seg, ip, isn, now, gotBuffer);
      Resends(Ticks(c', now, n), Wrap(now as int + n + 1)) <==> gotBuffer && ResendTick(n + 1)
  {
    hide Resends, Ticks;
    var t := Wrap(now as int + n + 1);
    var a, b := OpenConnect(c, ip, remotePort, localPort, isn, now, gotBuffer), PassiveOpen(c, seg, ip, isn, now, gotBuffer);
    if gotBuffer {
      Retransmissions(a, now, n);
      Retransmissions(b, now, n);
    } else {
      NeverResent(a, now, n, t);
      NeverResent(b, now, n, t);
    }
  }

  // ----- TIME_WAIT

  /** TIME_WAIT entered at time now. */
  predicate Lingers(c: Conn, now: Seq)
  {
    c.state == TimeWait && c.deadline == Wrap(now as int + 4000)
  }

  /** Only a segment leads to TIME_WAIT, and it starts the wait. */
  lemma EntersTimeWait(c: Conn, seg: Segment, now: Seq)
    requires RingOk(c) && c.state != TimeWait && Receive(c, seg, now).state == TimeWait
    ensures Lingers(Receive(c, seg, now), now)
  {
    hide Wrap, SeqLt, SeqLeq, Avail, Push;
  }

  /** The slot stays in TIME_WAIT for 4000 ticks and is free at the 4000th. */
  lemma {:induction false} TimeWaitEnds(c: Conn, now: Seq, n: nat)
    requires Lingers(c, now) && n <= 4000
    ensures Ticks(c, now, n) == if n < 4000 then c else c.(state := Closed)
  {
    hide Wrap, SeqLt;
    if n > 0 {
      TimeWaitEnds(c, now, n - 1);
      TimerTest(now, n, 4000);
    } else {
      assert Ticks(c, now, 0) == c;
    }
  }
}

/** In-order delivery: for every sequence of segments that carry pieces of one peer stream, the bytes read
    so far followed by the bytes in the ring are a prefix of that stream. */
module TcpDelivery {
  import opened Bytes
  import opened TcpSeq
  import opened TcpConn

  // ----- The ring is a queue

  lemma PushByteRing(c: Conn, b: Byte)
    requires RingOk(c) && RxFree(c) > 0
    ensures Avail(PushByte(c, b)) == Avail(c) + 1 && Ring(PushByte(c, b)) == Ring(c) + [b]
  {
    var c' := PushByte(c, b);
    assert Avail(c') == Avail(c) + 1;
    forall i | 0 <= i < Avail(c')
      ensures Ring(c')[i] == (Ring(c) + [b])[i]
    {
      if i < Avail(c) {
        assert (c.head + i) % RX_SIZE != c.tail;
      }
    }
  }

  /** No unread byte is overwritten: pushing what fits appends it. */
  lemma {:induction false} PushRing(c: Conn, data: seq<Byte>)
    requires RingOk(c) && |data| <= RxFree(c)
    ensures Ring(Push(c, data)) == Ring(c) + data
    decreases |data|
  {
    if data == [] {
      assert Ring(c) + data == Ring(c);
    } else {
      PushByteRing(c, data[0]);
      PushRing(PushByte(c, data[0]), data[1..]);
      assert Ring(c) + data == Ring(c) + [data[0]] + data[1..];
    }
  }

  lemma AdvanceRing(c: Conn, n: nat)
    requires RingOk(c) && n <= Avail(c)
    ensures Ring(Advance(c, n)) == Ring(c)[n..]
  {
    var c' := Advance(c, n);
    AdvanceAvail(c, n);
    forall i | 0 <= i < Avail(c')
      ensures Ring(c')[i] == Ring(c)[n..][i]
    {
      CellAfter(c.head, n, i);
    }
  }

  lemma AdvanceAvail(c: Conn, n: nat)
    requires RingOk(c) && n <= Avail(c)
    ensures Avail(Advance(c, n)) == Avail(c) - n
  {
  }

  lemma CellAfter(head: nat, n: nat, i: nat)
    ensures ((head + n) % RX_SIZE + i) % RX_SIZE == (head + (n + i)) % RX_SIZE
  {
  }

  // ----- Which states take data

  /** States from which data can still be taken. */
  predicate Live(s: State)
  {
    s == SynRcvd || DataState(s)
  }

  /** Events in the life of a connection, after the handshake fixed rcv_nxt. */
  datatype Event =
    | Rx(seg: Segment, now: Seq)
    | Read(n: nat)
    | Send(len: nat, now: Seq, gotBuffer: bool)
    | DoClose
    | DoTick(now: Seq)

  /** A slot that is closed (or was never opened by a peer) gets no segments. */
  function Step(c: Conn, ev: Event): (c': Conn)
    requires RingOk(c)
    ensures RingOk(c')
  {
    match ev
    case Rx(seg, now) => if c.state == Closed || c.state == Listen then c else Receive(c, seg, now)
    case Read(n) => Advance(c, if n < Avail(c) then n else Avail(c))
    case Send(len, now, got) => if CanSend(c, len) then SendData(c, len, now, got) else c
    case DoClose => Close(c)
    case DoTick(now) => Tick(c, now)
  }

  /** The bytes tcp_read hands over. */
  function Output(c: Conn, ev: Event): seq<Byte>
    requires RingOk(c)
  {
    if ev.Read? then Ring(c)[..if ev.n < Avail(c) then ev.n else Avail(c)] else []
  }

  /** s is an initial piece of the stream. */
  ghost predicate IsPrefix(s: seq<Byte>, stream: nat -> Byte)
  {
    forall i | 0 <= i < |s| :: s[i] == stream(i)
  }

  /** read ++ ring is a prefix of the stream; while data is taken, rcv_nxt is the next position. */
  ghost predicate Delivered(c: Conn, read: seq<Byte>, base: int, stream: nat -> Byte)
  {
    && RingOk(c)
    && IsPrefix(read + Ring(c), stream)
    && (Live(c.state) ==> c.rcv == Wrap(base + |read| + Avail(c)))
  }

  /** The segment carries the bytes of the stream from position pos on (bytes before position 0 are free). */
  ghost predicate Carries(seg: Segment, pos: int, base: int, stream: nat -> Byte)
  {
    && seg.seqNo == Wrap(base + pos)
    && forall j | 0 <= j < |seg.data| && pos + j >= 0 :: seg.data[j] == stream(pos + j)
  }

  /** A segment the peer may send, or the network repeat, delay or reorder: some piece of the stream, less
      than 2^32 away from the next position. */
  ghost predicate FromPeer(seg: Segment, c: Conn, read: seq<Byte>, base: int, stream: nat -> Byte)
    requires RingOk(c)
  {
    exists pos :: Carries(seg, pos, base, stream) && -U32 < pos - (|read| + Avail(c)) < U32
  }

  // ----- One segment

  predicate SameRing(c: Conn, c': Conn)
  {
    c'.rx == c.rx && c'.head == c.head && c'.tail == c.tail
  }

  lemma SameRingSame(c: Conn, c': Conn)
    requires RingOk(c) && SameRing(c, c')
    ensures RingOk(c') && Avail(c') == Avail(c) && Ring(c') == Ring(c)
  {
    assert Ring(c') == Ring(c);
  }

  lemma AckPhaseKeepsReceiver(c: Conn, seg: Segment, now: Seq)
    ensures SameRing(c, AckPhase(c, seg, now)) && AckPhase(c, seg, now).rcv == c.rcv
    ensures Live(AckPhase(c, seg, now).state) ==> Live(c.state)
    ensures AckPhase(c, seg, now).state == SynSent || AckPhase(c, seg, now).state == SynRcvd ==> AckPhase(c, seg, now).state == c.state
  {
    hide SeqLeq, Wrap;
  }

  /** Bytes of the stream from position |s| on extend a prefix. */
  lemma ExtendPrefix(s: seq<Byte>, more: seq<Byte>, stream: nat -> Byte)
    requires IsPrefix(s, stream) && forall j | 0 <= j < |more| :: more[j] == stream(|s| + j)
    ensures IsPrefix(s + more, stream)
  {
    forall i | 0 <= i < |s + more|
      ensures (s + more)[i] == stream(i)
    {
      if i >= |s| { assert (s + more)[i] == more[i - |s|]; }
    }
  }

  lemma DataPhaseRing(c: Conn, seg: Segment)
    requires RingOk(c)
    ensures Ring(DataPhase(c, seg)) == Ring(c) + seg.data[..Accepted(c, seg)]
    ensures Avail(DataPhase(c, seg)) == Avail(c) + Accepted(c, seg)
    ensures DataPhase(c, seg).state == c.state && DataPhase(c, seg).rcv == Wrap(c.rcv as int + Accepted(c, seg))
  {
    hide Wrap, Ring, Avail, Push;
    var n := Accepted(c, seg);
    PushRing(c, seg.data[..n]);
    SameRingSame(Push(c, seg.data[..n]), DataPhase(c, seg));
  }

  /** Only a segment that starts at the next position is taken. */
  lemma TakenAtNext(c: Conn, seg: Segment, read: seq<Byte>, base: int, stream: nat -> Byte)
    requires RingOk(c) && Live(c.state) && c.rcv == Wrap(base + |read| + Avail(c)) && FromPeer(seg, c, read, base, stream)
    requires seg.seqNo == c.rcv
    ensures forall j | 0 <= j < |seg.data| :: seg.data[j] == stream(|read| + Avail(c) + j)
  {
    hide Avail, Wrap;
    var k := |read| + Avail(c);
    var pos :| Carries(seg, pos, base, stream) && -U32 < pos - k < U32;
    SamePosition(base + pos, base + k);
  }

  lemma DataPhaseDelivers(c: Conn, seg: Segment, read: seq<Byte>, base: int, stream: nat -> Byte)
    requires Delivered(c, read, base, stream) && FromPeer(seg, c, read, base, stream)
    ensures Delivered(DataPhase(c, seg), read, base, stream)
    ensures DataPhase(c, seg).state == c.state
  {
    hide Ring, Avail, Wrap, FromPeer, IsPrefix, DataPhase;
    var n := Accepted(c, seg);
    var k := |read| + Avail(c);
    var c' := DataPhase(c, seg);
    DataPhaseRing(c, seg);
    var more := seg.data[..n];
    assert read + Ring(c') == read + Ring(c) + more;
    if n > 0 {
      TakenAtNext(c, seg, read, base, stream);
      ExtendPrefix(read + Ring(c), more, stream);
    } else {
      assert read + Ring(c) + more == read + Ring(c);
    }
    WrapPlus(base + k, n);
  }

  /** A FIN leaves the unread bytes alone, and after it no state takes data. */
  lemma FinPhaseKeepsRing(c: Conn, seg: Segment, now: Seq)
    requires RingOk(c)
    ensures SameRing(c, FinPhase(c, seg, now))
    ensures !seg.fin ==> FinPhase(c, seg, now) == c
    ensures seg.fin ==> !DataState(FinPhase(c, seg, now).state)
    ensures FinPhase(c, seg, now).state in {SynSent, SynRcvd} ==> FinPhase(c, seg, now).state == c.state
  {
    hide Wrap;
  }

  /** A step that keeps the ring keeps delivery, unless it brings the slot back to life. */
  lemma SameRingDelivers(c: Conn, c': Conn, read: seq<Byte>, base: int, stream: nat -> Byte)
    requires Delivered(c, read, base, stream) && SameRing(c, c')
    requires Live(c'.state) ==> Live(c.state) && c'.rcv == c.rcv
    ensures Delivered(c', read, base, stream)
  {
    hide Ring, Avail, Wrap;
    SameRingSame(c, c');
  }

  lemma SynchronizedDelivers(c: Conn, seg: Segment, now: Seq, read: seq<Byte>, base: int, stream: nat -> Byte)
    requires c.state != SynRcvd && c.state != SynSent && Delivered(c, read, base, stream) && FromPeer(seg, c, read, base, stream)
    ensures Delivered(Synchronized(c, seg, now), read, base, stream)
    ensures Synchronized(c, seg, now).state != SynSent
  {
    hide Delivered, Wrap, Carries, AckPhase, DataPhase, FinPhase;
    var c1 := AckPhase(c, seg, now);
    AckPhaseKeepsReceiver(c, seg, now);
    SameRingDelivers(c, c1, read, base, stream);
    if c1.state != Closed {
      DeliveredRing(c, read, base, stream);
      SameRingSame(c, c1);
      DataPhaseDelivers(c1, seg, read, base, stream);
      var c2 := DataPhase(c1, seg);
      FinPhaseKeepsRing(c2, seg, now);
      SameRingDelivers(c2, FinPhase(c2, seg, now), read, base, stream);
    }
  }

  lemma DeliveredRing(c: Conn, read: seq<Byte>, base: int, stream: nat -> Byte)
    requires Delivered(c, read, base, stream)
    ensures RingOk(c)
  {
  }

  lemma ReceiveDelivers(c: Conn, seg: Segment, now: Seq, read: seq<Byte>, base: int, stream: nat -> Byte)
    requires c.state != SynSent && Delivered(c, read, base, stream) && FromPeer(seg, c, read, base, stream)
    ensures Delivered(Receive(c, seg, now), read, base, stream)
    ensures Receive(c, seg, now).state != SynSent
  {
    hide Delivered, Wrap, Carries, Synchronized, SeqLt, SeqLeq;
    DeliveredRing(c, read, base, stream);
    if seg.rst {
      SameRingDelivers(c, Receive(c, seg, now), read, base, stream);
    } else if c.state == SynRcvd {
      if seg.ack && seg.ackNo == c.nxt {
        var c1 := RetxClear(c.(una := seg.ackNo, wnd := seg.wnd)).(state := Established);
        SameRingDelivers(c, c1, read, base, stream);
        SameRingSame(c, c1);
        SynchronizedDelivers(c1, seg, now, read, base, stream);
      }
    } else {
      SynchronizedDelivers(c, seg, now, read, base, stream);
    }
  }

  // ----- Any event, and whole runs

  lemma ReadDelivers(c: Conn, n: nat, read: seq<Byte>, base: int, stream: nat -> Byte)
    requires Delivered(c, read, base, stream) && n <= Avail(c)
    ensures Delivered(Advance(c, n), read + Ring(c)[..n], base, stream)
  {
    hide Ring, Avail, Wrap;
    AdvanceRing(c, n);
    assert read + Ring(c)[..n] + Ring(Advance(c, n)) == read + Ring(c);
  }

  lemma StepDelivers(c: Conn, ev: Event, read: seq<Byte>, base: int, stream: nat -> Byte)
    requires c.state != SynSent && Delivered(c, read, base, stream)
    requires ev.Rx? ==> FromPeer(ev.seg, c, read, base, stream)
    ensures Delivered(Step(c, ev), read + Output(c, ev), base, stream)
    ensures Step(c, ev).state != SynSent
  {
    hide Delivered, Wrap, FromPeer, Receive, SeqLt, Ring, Avail, Doubled;
    DeliveredRing(c, read, base, stream);
    assert read + [] == read;
    match ev
    case Rx(seg, now) =>
      if c.state != Closed && c.state != Listen { ReceiveDelivers(c, seg, now, read, base, stream); }
    case Read(n) =>
      ReadDelivers(c, if n < Avail(c) then n else Avail(c), read, base, stream);
    case _ =>
      SameRingDelivers(c, Step(c, ev), read, base, stream);
  }

  /** Every segment of the run is a piece of the stream when it arrives. */
  ghost predicate RunFromPeer(c: Conn, evs: seq<Event>, read: seq<Byte>, base: int, stream: nat -> Byte)
    requires RingOk(c)
    decreases |evs|
  {
    if evs == [] then true else
    && (evs[0].Rx? ==> FromPeer(evs[0].seg, c, read, base, stream))
    && RunFromPeer(Step(c, evs[0]), evs[1..], read + Output(c, evs[0]), base, stream)
  }

  function RunState(c: Conn, evs: seq<Event>): (c': Conn)
    requires RingOk(c)
    ensures RingOk(c')
    decreases |evs|
  {
    if evs == [] then c else RunState(Step(c, evs[0]), evs[1..])
  }

  function RunOutput(c: Conn, evs: seq<Event>): seq<Byte>
    requires RingOk(c)
    decreases |evs|
  {
    if evs == [] then [] else Output(c, evs[0]) + RunOutput(Step(c, evs[0]), evs[1..])
  }

  /** All runs: what the application has read, then what it can still read, is a prefix of the stream. */
  lemma {:induction false} RunDelivers(c: Conn, evs: seq<Event>, read: seq<Byte>, base: int, stream: nat -> Byte)
    requires c.state != SynSent && Delivered(c, read, base, stream) && RunFromPeer(c, evs, read, base, stream)
    ensures Delivered(RunState(c, evs), read + RunOutput(c, evs), base, stream)
    decreases |evs|
  {
    hide Delivered, Step, Output, FromPeer;
    DeliveredRing(c, read, base, stream);
    if evs == [] {
      assert read + [] == read;
    } else {
      StepDelivers(c, evs[0], read, base, stream);
      RunDelivers(Step(c, evs[0]), evs[1..], read + Output(c, evs[0]), base, stream);
      assert read + RunOutput(c, evs) == read + Output(c, evs[0]) + RunOutput(Step(c, evs[0]), evs[1..]);
    }
  }

  /** A connection that has just been opened by a SYN numbered irs, or got its SYN-ACK, starts such a run. */
  lemma FreshConnection(c: Conn, stream: nat -> Byte)
    requires RingOk(c) && c.head == c.tail
    ensures Delivered(c, [], c.rcv, stream)
  {
    assert [] + Ring(c) == [];
  }

  // ----- What a segment adds

  function Min(a: nat, b: nat): nat
  {
    if a < b then a else b
  }

  /** The segment is not turned away by the reset or handshake code. */
  predicate Processed(c: Conn, seg: Segment)
  {
    !seg.rst && c.state != SynSent && (c.state == SynRcvd ==> seg.ack && seg.ackNo == c.nxt)
  }

  /** The acknowledgement of the last FIN, which closes the slot at once. */
  predicate LastOne(c: Conn, seg: Segment)
  {
    c.state == LastAck && seg.ack && seg.ackNo == c.nxt
  }

  lemma DataPhaseTakes(c: Conn, seg: Segment)
    requires RingOk(c)
    ensures var n := if c.state in {Established, FinWait1, FinWait2} && seg.seqNo == c.rcv
                     then Min(|seg.data|, 4095 - |Ring(c)|) else 0;
      Ring(DataPhase(c, seg)) == Ring(c) + seg.data[..n] && DataPhase(c, seg).rcv == Wrap(c.rcv as int + n)
  {
    hide Wrap, Ring, Avail, Push;
    DataPhaseRing(c, seg);
  }

  lemma SynchronizedTakes(c: Conn, seg: Segment, now: Seq)
    requires RingOk(c) && c.state != Closed
    ensures var n := if c.state in {Established, FinWait1, FinWait2} && seg.seqNo == c.rcv
                     then Min(|seg.data|, 4095 - |Ring(c)|) else 0;
      var fin := if seg.fin && !LastOne(c, seg) then 1 else 0;
      && Ring(Synchronized(c, seg, now)) == Ring(c) + seg.data[..n]
      && Synchronized(c, seg, now).rcv == Wrap(c.rcv as int + n + fin)
  {
    hide Wrap, Ring, Avail, DataPhase, FinPhase, AckPhase, Push;
    var c1 := AckPhase(c, seg, now);
    AckPhaseKeepsReceiver(c, seg, now);
    AckPhaseTakesOn(c, seg, now);
    SameRingSame(c, c1);
    WrapSmall(c.rcv);
    if c1.state == Closed {
      assert Ring(c) + seg.data[..0] == Ring(c);
    } else {
      DataPhaseTakes(c1, seg);
      var c2 := DataPhase(c1, seg);
      FinNumber(c2, seg, now);
      FinPhaseKeepsRing(c2, seg, now);
      SameRingSame(c2, FinPhase(c2, seg, now));
      var n := if c.state in {Established, FinWait1, FinWait2} && seg.seqNo == c.rcv
               then Min(|seg.data|, 4095 - |Ring(c)|) else 0;
      WrapPlus(c.rcv as int + n, 1);
    }
  }

  lemma AckPhaseTakesOn(c: Conn, seg: Segment, now: Seq)
    requires c.state != Closed
    ensures var s := AckPhase(c, seg, now).state;
      && (s in {Established, FinWait1, FinWait2} <==> c.state in {Established, FinWait1, FinWait2})
      && (s == Closed <==> LastOne(c, seg))
  {
    hide Wrap, SeqLeq;
  }

  lemma FinNumber(c: Conn, seg: Segment, now: Seq)
    ensures FinPhase(c, seg, now).rcv == if seg.fin then Wrap(c.rcv as int + 1) else c.rcv
  {
    hide Wrap;
  }

  /** Exactly what a segment adds to the unread bytes, and how far it moves rcv_nxt: in a state that takes data, and at
      rcv_nxt, as many of its bytes as the 4095 cells have room for, and otherwise none; one more for a FIN. */
  lemma ReceiveTakes(c: Conn, seg: Segment, now: Seq)
    requires RingOk(c) && c.state != Closed
    ensures var n := if Processed(c, seg) && c.state in {SynRcvd, Established, FinWait1, FinWait2} && seg.seqNo == c.rcv
                     then Min(|seg.data|, 4095 - |Ring(c)|) else 0;
      var fin := if Processed(c, seg) && seg.fin && !LastOne(c, seg) then 1 else 0;
      && Ring(Receive(c, seg, now)) == Ring(c) + seg.data[..n]
      && (c.state != SynSent ==> Receive(c, seg, now).rcv == Wrap(c.rcv as int + n + fin))
  {
    hide Wrap, Ring, Avail, Synchronized, SeqLt, SeqLeq;
    WrapSmall(c.rcv);
    if Processed(c, seg) {
      var c0 := if c.state == SynRcvd then RetxClear(c.(una := seg.ackNo, wnd := seg.wnd)).(state := Established) else c;
      SameRingSame(c, c0);
      SynchronizedTakes(c0, seg, now);
    } else {
      SameRingSame(c, Receive(c, seg, now));
      assert Ring(c) + seg.data[..0] == Ring(c);
    }
  }

  // ----- After a FIN

  /** A FIN in a data-taking state, unless answered as a reset, ends the taking of data ... */
  lemma FinEndsData(c: Conn, seg: Segment, now: Seq)
    requires RingOk(c) && DataState(c.state) && seg.fin && !seg.rst
    ensures !Live(Receive(c, seg, now).state)
  {
    hide Wrap, AckPhase, DataPhase, FinPhase;
    AckPhaseKeepsReceiver(c, seg, now);
    var c1 := AckPhase(c, seg, now);
    if c1.state != Closed {
      DataPhaseRing(c1, seg);
      FinPhaseKeepsRing(DataPhase(c1, seg), seg, now);
    }
  }

  /** ... and no further event takes data until the slot is reused. */
  lemma {:induction false} NoDataAfterEnd(c: Conn, evs: seq<Event>)
    requires RingOk(c) && !Live(c.state) && c.state != SynSent
    ensures !Live(RunState(c, evs).state)
    ensures RunOutput(c, evs) + Ring(RunState(c, evs)) == Ring(c)
    decreases |evs|
  {
    hide Step, Output, Ring;
    if evs != [] {
      var c1 := Step(c, evs[0]);
      DeadStep(c, evs[0]);
      NoDataAfterEnd(c1, evs[1..]);
      assert RunOutput(c, evs) + Ring(RunState(c, evs)) == Output(c, evs[0]) + (RunOutput(c1, evs[1..]) + Ring(RunState(c1, evs[1..])));
    } else {
      assert [] + Ring(c) == Ring(c);
    }
  }

  lemma DeadStep(c: Conn, ev: Event)
    requires RingOk(c) && !Live(c.state) && c.state != SynSent
    ensures !Live(Step(c, ev).state) && Step(c, ev).state != SynSent
    ensures Output(c, ev) + Ring(Step(c, ev)) == Ring(c)
  {
    hide Wrap, Receive, SeqLt, Ring, Avail, Doubled;
    match ev
    case Rx(seg, now) =>
      if c.state != Closed && c.state != Listen { DeadReceive(c, seg, now); }
      SameRingSame(c, Step(c, ev));
    case Read(n) =>
      AdvanceRing(c, if n < Avail(c) then n else Avail(c));
    case _ =>
      SameRingSame(c, Step(c, ev));
  }

  lemma DeadReceive(c: Conn, seg: Segment, now: Seq)
    requires RingOk(c) && !Live(c.state) && c.state != SynSent
    ensures SameRing(c, Receive(c, seg, now)) && !Live(Receive(c, seg, now).state) && Receive(c, seg, now).state != SynSent
  {
    hide Wrap, AckPhase, FinPhase, SeqLt, SeqLeq;
    if !seg.rst {
      var c1 := AckPhase(c, seg, now);
      AckPhaseKeepsReceiver(c, seg, now);
      if c1.state != Closed {
        assert seg.data[..0] == [] && SameRing(c1, DataPhase(c1, seg));
        FinPhaseKeepsRing(DataPhase(c1, seg), seg, now);
      }
    }
  }
}

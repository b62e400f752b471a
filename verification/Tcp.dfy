/** The connection table of src/net/tcp/tcp.c and its entry points. */
module Tcp {
  import opened Bytes
  import opened TcpSeq
  import opened TcpConn
  import opened TcpDelivery
  import opened TcpSend
  import opened TcpPeers

  const MAX_CONN: nat := 8

  /** A slot a segment belongs to: not closed, not a listener on its port, same ports and peer. */
  predicate Matches(c: Conn, seg: Segment, srcIp: nat)
  {
    && c.state != Closed && !(c.state == Listen && c.localPort == seg.dstPort)
    && c.localPort == seg.dstPort && c.remotePort == seg.srcPort && c.remoteIp == srcIp
  }

  /** What one end of a connection sends belongs to the slot of the other end, and to no slot of another connection. */
  lemma Addressed(a: Conn, c: Conn, ip: nat, data: seq<Byte>)
    requires c.state != Closed && c.state != Listen
    ensures Matches(c, DataOf(a, data), ip) <==> Peers(a, c) && c.remoteIp == ip
    ensures Matches(c, SynAckOf(a), ip) <==> Peers(a, c) && c.remoteIp == ip
    ensures Matches(c, AckOf(a), ip) <==> Peers(a, c) && c.remoteIp == ip
    ensures Matches(c, FinOf(a), ip) <==> Peers(a, c) && c.remoteIp == ip
  {
  }

  predicate Listens(c: Conn, port: nat)
  {
    c.state == Listen && c.localPort == port
  }

  function BufferCount(conns: seq<Conn>): nat
  {
    if conns == [] then 0 else (if conns[0].buffered then 1 else 0) + BufferCount(conns[1..])
  }

  lemma {:induction false} BufferCountUpdate(conns: seq<Conn>, i: nat, c: Conn)
    requires i < |conns|
    ensures BufferCount(conns[i := c]) + (if conns[i].buffered then 1 else 0) == BufferCount(conns) + (if c.buffered then 1 else 0)
    decreases |conns|
  {
    if i > 0 {
      assert conns[i := c][1..] == conns[1..][i - 1 := c];
      BufferCountUpdate(conns[1..], i - 1, c);
    } else {
      assert conns[i := c][1..] == conns[1..];
    }
  }

  lemma {:induction false} NoBuffers(conns: seq<Conn>)
    requires forall c | c in conns :: !c.buffered
    ensures BufferCount(conns) == 0
    decreases |conns|
  {
    if conns != [] { NoBuffers(conns[1..]); }
  }

  /** What every slot satisfies while fewer than 2^31 numbers are outstanding in each. */
  predicate SlotSafe(c: Conn)
  {
    BufferOk(c) && (c.state != Closed && c.state != Listen ==> Outstanding(c) <= HALF)
  }

  class Stack {
    var conns: seq<Conn>
    var isn: Seq
    var now: Seq
    /** Retransmit buffers on the heap. */
    var buffers: nat

    ghost predicate Table()
      reads this
    {
      |conns| == MAX_CONN && forall i | 0 <= i < MAX_CONN :: RingOk(conns[i])
    }

    /** Every buffer on the heap is held by a slot. */
    ghost predicate Counted()
      reads this
    {
      buffers == BufferCount(conns)
    }

    ghost predicate Safe()
      reads this
    {
      forall c | c in conns :: SlotSafe(c)
    }

    /** tcp_init_impl */
    constructor (start: Seq)
      ensures Table() && Counted() && Safe()
      ensures forall c | c in conns :: c.state == Closed
    {
      var c := Conn(Closed, 0, 0, 0, 0, 0, 0, 0, false, 0, 0, 0, seq(RX_SIZE, _ => 0), 0, 0);
      hide BufferCount;
      conns, isn, now, buffers := seq(MAX_CONN, _ => c), start, 0, 0;
      new;
      NoBuffers(conns);
    }

    method SetConn(i: nat, c: Conn)
      requires Table() && i < MAX_CONN && RingOk(c) && (c.buffered == conns[i].buffered)
      modifies `conns
      ensures Table() && conns == old(conns)[i := c] && (old(Counted()) ==> Counted())
    {
      BufferCountUpdate(conns, i, c);
      conns := conns[i := c];
    }

    /** retx_clear */
    method ClearRetx(i: nat)
      requires Table() && i < MAX_CONN && Counted()
      modifies `conns, `buffers
      ensures Table() && conns == old(conns)[i := RetxClear(old(conns)[i])] && Counted()
    {
      BufferCountUpdate(conns, i, RetxClear(conns[i]));
      if conns[i].buffered { buffers := buffers - 1; }
      conns := conns[i := RetxClear(conns[i])];
    }

    /** retx_arm: the old buffer is freed before the new one is allocated. */
    method ArmRetx(i: nat, len: nat, gotBuffer: bool)
      requires Table() && i < MAX_CONN && Counted()
      modifies `conns, `buffers
      ensures Table() && conns == old(conns)[i := RetxArm(old(conns)[i], len, now, gotBuffer)] && Counted()
      ensures if gotBuffer then len > 0 && conns[i].state != TimeWait && conns[i].state != Closed ==> Armed(conns[i], now)
              else !conns[i].buffered
    {
      Arming(conns[i], len, now);
      BufferCountUpdate(conns, i, RetxClear(conns[i]));
      BufferCountUpdate(conns, i, RetxArm(conns[i], len, now, gotBuffer));
      if conns[i].buffered { buffers := buffers - 1; }
      if gotBuffer { buffers := buffers + 1; }
      conns := conns[i := RetxArm(conns[i], len, now, gotBuffer)];
    }

    /** next_isn */
    method NextIsn() returns (x: Seq)
      modifies `isn
      ensures x == isn == Wrap(old(isn) as int * 1664525 + 1013904223)
    {
      isn := Wrap(isn as int * 1664525 + 1013904223);
      x := isn;
    }

    /** conn_alloc: the first closed slot. */
    method ConnAlloc() returns (id: int)
      requires Table()
      ensures id == -1 ==> forall i | 0 <= i < MAX_CONN :: conns[i].state != Closed
      ensures id != -1 ==> 0 <= id < MAX_CONN && conns[id].state == Closed && forall i | 0 <= i < id :: conns[i].state != Closed
    {
      for i := 0 to MAX_CONN
        invariant forall j | 0 <= j < i :: conns[j].state != Closed
      {
        if conns[i].state == Closed { return i; }
      }
      id := -1;
    }

    /** rx_push */
    method RxPush(i: nat, data: seq<Byte>)
      requires Table() && i < MAX_CONN
      modifies `conns
      ensures Table() && conns == old(conns)[i := Push(old(conns)[i], data)] && (old(Counted()) ==> Counted())
    {
      ghost var c0 := conns[i];
      for k := 0 to |data|
        invariant Table() && conns == old(conns)[i := conns[i]] && conns[i].buffered == c0.buffered
        invariant Push(conns[i], data[k..]) == Push(c0, data)
      {
        assert data[k..][1..] == data[k + 1..];
        conns := conns[i := PushByte(conns[i], data[k])];
      }
      BufferCountUpdate(old(conns), i, conns[i]);
    }

    /** The data part of tcp_rx. */
    method TakeData(i: nat, seg: Segment)
      requires Table() && i < MAX_CONN
      modifies `conns
      ensures Table() && conns == old(conns)[i := DataPhase(old(conns)[i], seg)] && (old(Counted()) ==> Counted())
      ensures var c := old(conns)[i];
        var n := if c.state in {Established, FinWait1, FinWait2} && seg.seqNo == c.rcv then Min(|seg.data|, 4095 - |Ring(c)|) else 0;
        Ring(conns[i]) == Ring(c) + seg.data[..n] && conns[i].rcv == Wrap(c.rcv as int + n)
    {
      hide Push, Wrap, Avail, Ring;
      DataPhaseTakes(conns[i], seg);
      var c := conns[i];
      var accept := 0;
      if |seg.data| > 0 && DataState(c.state) && seg.seqNo == c.rcv {
        accept := |seg.data|;
        if accept > RxFree(c) { accept := RxFree(c); }
      }
      assert accept == Accepted(c, seg);
      RxPush(i, seg.data[..accept]);
      SetConn(i, conns[i].(rcv := Wrap(c.rcv as int + accept)));
    }

    /** The acknowledgement part of tcp_rx: the number ... */
    method TakeAckNumber(i: nat, seg: Segment)
      requires Table() && i < MAX_CONN && Counted()
      modifies `conns, `buffers
      ensures Table() && conns == old(conns)[i := AckNumber(old(conns)[i], seg)] && Counted()
      ensures AckWithin(old(conns)[i], seg) ==>
        && conns[i].una == seg.ackNo && conns[i].wnd == seg.wnd
        && (conns[i].buffered <==> old(conns)[i].buffered && seg.ackNo != conns[i].nxt)
    {
      hide SeqLeq, AckWithin;
      if AckWithin(conns[i], seg) { AckNumberWithin(conns[i], seg); }
      var s := conns[i].state;
      if s == Established || s == FinWait1 || s == CloseWait || s == Closing {
        if SeqLeq(conns[i].una, seg.ackNo) && SeqLeq(seg.ackNo, conns[i].nxt) {
          SetConn(i, conns[i].(una := seg.ackNo, wnd := seg.wnd));
          if conns[i].buffered && SeqLeq(conns[i].nxt, conns[i].una) { ClearRetx(i); }
        }
      }
    }

    /** ... and the states. */
    method TakeAckStates(i: nat, seg: Segment)
      requires Table() && i < MAX_CONN && Counted()
      modifies `conns, `buffers
      ensures Table() && conns == old(conns)[i := AckStates(old(conns)[i], seg, now)] && Counted()
    {
      hide Wrap;
      if conns[i].state == FinWait1 && seg.ackNo == conns[i].nxt {
        SetConn(i, conns[i].(state := FinWait2));
      }
      if conns[i].state == Closing && seg.ackNo == conns[i].nxt {
        SetConn(i, conns[i].(state := TimeWait, deadline := Wrap(now as int + TIME_WAIT_MS)));
      }
      if conns[i].state == LastAck && seg.ackNo == conns[i].nxt {
        ClearRetx(i);
        SetConn(i, conns[i].(state := Closed));
      }
    }

    method TakeAck(i: nat, seg: Segment)
      requires Table() && i < MAX_CONN && Counted()
      modifies `conns, `buffers
      ensures Table() && conns == old(conns)[i := AckPhase(old(conns)[i], seg, now)] && Counted()
    {
      hide AckNumber, AckStates;
      if !seg.ack { return; }
      TakeAckNumber(i, seg);
      TakeAckStates(i, seg);
    }

    /** The FIN part of tcp_rx. */
    method TakeFin(i: nat, seg: Segment)
      requires Table() && i < MAX_CONN
      modifies `conns
      ensures Table() && conns == old(conns)[i := FinPhase(old(conns)[i], seg, now)] && (old(Counted()) ==> Counted())
      ensures Ring(conns[i]) == old(Ring(conns[i])) && (seg.fin ==> !DataState(conns[i].state))
    {
      hide Wrap, Ring;
      FinPhaseKeepsRing(conns[i], seg, now);
      SameRingSame(conns[i], FinPhase(conns[i], seg, now));
      if !seg.fin { return; }
      var s := conns[i].state;
      SetConn(i, conns[i].(rcv := Wrap(conns[i].rcv as int + 1)));
      if s == Established {
        SetConn(i, conns[i].(state := CloseWait));
      } else if s == FinWait1 {
        SetConn(i, conns[i].(state := Closing));
      } else if s == FinWait2 {
        SetConn(i, conns[i].(state := TimeWait, deadline := Wrap(now as int + TIME_WAIT_MS)));
      }
    }

    /** tcp_rx on the slot that was found. */
    method ReceiveOn(i: nat, seg: Segment)
      requires Table() && i < MAX_CONN && Counted()
      modifies `conns, `buffers
      ensures Table() && conns == old(conns)[i := Receive(old(conns)[i], seg, now)] && Counted()
    {
      hide Wrap, SeqLt, SeqLeq, AckPhase, DataPhase, FinPhase, BufferCount;
      var s := conns[i].state;
      if seg.rst {
        if s == SynSent {
        } else if !SeqLt(seg.seqNo, conns[i].rcv) && !SeqLeq(Wrap(conns[i].rcv as int + RX_SIZE), seg.seqNo) {
        } else {
          return;
        }
        ClearRetx(i);
        SetConn(i, conns[i].(state := Closed));
        return;
      }
      if s == SynSent {
        if !seg.ack || seg.ackNo != conns[i].nxt || !seg.syn { return; }
        SetConn(i, conns[i].(una := seg.ackNo, wnd := seg.wnd, rcv := Wrap(seg.seqNo as int + 1)));
        ClearRetx(i);
        SetConn(i, conns[i].(state := Established));
        return;
      }
      if s == SynRcvd {
        if !seg.ack { return; }
        if seg.ackNo == conns[i].nxt {
          SetConn(i, conns[i].(una := seg.ackNo, wnd := seg.wnd));
          ClearRetx(i);
          SetConn(i, conns[i].(state := Established));
        }
        if conns[i].state != Established { return; }
      }
      TakeAck(i, seg);
      if conns[i].state == Closed { return; }
      TakeData(i, seg);
      TakeFin(i, seg);
    }

    /** tcp_rx: to the first slot the segment belongs to, or, for a SYN to a listener, to a new one. */
    method Rx(seg: Segment, srcIp: nat, gotBuffer: bool) returns (slot: int)
      requires Table() && Counted() && Safe()
      modifies `conns, `buffers, `isn
      ensures Table() && Counted() && Safe()
      ensures (exists c :: c in old(conns) && Matches(c, seg, srcIp)) ==>
        slot == -1 && exists m: nat :: FirstMatch(old(conns), m, seg, srcIp) && conns == old(conns)[m := Receive(old(conns)[m], seg, now)]
      ensures slot != -1 ==>
        && 0 <= slot < MAX_CONN && old(conns)[slot].state == Closed
        && seg.syn && !seg.ack && (exists c :: c in old(conns) && Listens(c, seg.dstPort))
        && conns == old(conns)[slot := PassiveOpen(old(conns)[slot], seg, srcIp, isn, now, gotBuffer)]
        && (forall j | 0 <= j < MAX_CONN && j != slot :: conns[j] == old(conns)[j] && !Matches(conns[j], seg, srcIp))
      ensures slot == -1 && (forall c | c in old(conns) :: !Matches(c, seg, srcIp)) ==> conns == old(conns)
      ensures slot == -1 && (forall c | c in old(conns) :: !Matches(c, seg, srcIp)) && seg.syn && !seg.ack ==>
        (forall c | c in old(conns) :: !Listens(c, seg.dstPort)) || (forall c | c in old(conns) :: c.state != Closed)
    {
      hide Receive, PassiveOpen, SlotSafe, BufferCount;
      slot := -1;
      var listener, found, i := -1, -1, 0;
      while i < MAX_CONN && found == -1
        invariant 0 <= i <= MAX_CONN && -1 <= found < MAX_CONN
        invariant found == -1 ==> forall j | 0 <= j < i :: !Matches(conns[j], seg, srcIp)
        invariant found != -1 ==> FirstMatch(conns, found, seg, srcIp)
        invariant listener == -1 ==> forall j | 0 <= j < i :: !Listens(conns[j], seg.dstPort)
        invariant listener != -1 ==> 0 <= listener < i && Listens(conns[listener], seg.dstPort)
      {
        if conns[i].state == Closed {
        } else if conns[i].state == Listen && conns[i].localPort == seg.dstPort {
          listener := i;
        } else if conns[i].localPort == seg.dstPort && conns[i].remotePort == seg.srcPort && conns[i].remoteIp == srcIp {
          found := i;
        }
        i := i + 1;
      }
      if found != -1 {
        assert Matches(conns[found], seg, srcIp);
        ReceiveSafe(conns[found], seg, now);
        ReceiveOn(found, seg);
        return;
      }
      if listener != -1 && seg.syn && !seg.ack {
        var id := ConnAlloc();
        if id == -1 { return; }
        var x := NextIsn();
        PassiveOpenSafe(conns[id], seg, srcIp, x, now, gotBuffer);
        OpenSlot(id, PassiveOpen(conns[id], seg, srcIp, x, now, false), HDR_LEN, gotBuffer);
        slot := id;
      }
    }

    /** Fill a closed slot without freeing the buffer pointer it held, then arm it. */
    method OpenSlot(id: nat, c: Conn, len: nat, gotBuffer: bool)
      requires Table() && Counted() && Safe() && id < MAX_CONN && conns[id].state == Closed
      requires RingOk(c) && !c.buffered
      modifies `conns, `buffers
      ensures Table() && Counted() && conns == old(conns)[id := RetxArm(c, len, now, gotBuffer)]
    {
      hide RetxArm, BufferCount;
      assert SlotSafe(conns[id]);
      SetConn(id, c);
      ArmRetx(id, len, gotBuffer);
    }

    /** tcp_listen */
    method ListenOn(port: nat) returns (id: int)
      requires Table() && Counted() && Safe()
      modifies `conns, `buffers
      ensures Table() && Counted() && Safe()
      ensures id == -1 ==> conns == old(conns) && forall c | c in conns :: c.state != Closed
      ensures id != -1 ==> && 0 <= id < MAX_CONN && old(conns)[id].state == Closed
                           && conns == old(conns)[id := OpenListen(old(conns)[id], port)]
                           && Listens(conns[id], port) && Ring(conns[id]) == [] && !conns[id].buffered
    {
      hide SlotSafe, BufferCount;
      id := ConnAlloc();
      if id == -1 { return; }
      ListenSafe(conns[id], port);
      assert SlotSafe(conns[id]);
      SetConn(id, OpenListen(conns[id], port));
    }

    /** tcp_connect */
    method Connect(remoteIp: nat, remotePort: nat, localPort: nat, gotBuffer: bool) returns (id: int)
      requires Table() && Counted() && Safe()
      modifies `conns, `buffers, `isn
      ensures Table() && Counted() && Safe()
      ensures id == -1 ==> conns == old(conns) && forall c | c in conns :: c.state != Closed
      ensures id != -1 ==> && 0 <= id < MAX_CONN && old(conns)[id].state == Closed
                           && conns == old(conns)[id := OpenConnect(old(conns)[id], remoteIp, remotePort, localPort, isn, now, gotBuffer)]
    {
      hide SlotSafe, BufferCount, OpenConnect;
      id := ConnAlloc();
      if id == -1 { return; }
      var x := NextIsn();
      ConnectSafe(conns[id], remoteIp, remotePort, localPort, x, now, gotBuffer);
      OpenSlot(id, OpenConnect(conns[id], remoteIp, remotePort, localPort, x, now, false), HDR_LEN, gotBuffer);
    }

    /** tcp_send: gotSegment and gotBuffer say whether its two allocations succeed.  No window is checked. */
    method Send(id: int, data: seq<Byte>, gotSegment: bool, gotBuffer: bool) returns (sent: bool)
      requires Table() && Counted() && |data| < 0x1_0000
      modifies `conns, `buffers
      ensures Table() && Counted()
      ensures sent <==>
        0 <= id < MAX_CONN && old(conns)[id].state in {Established, CloseWait} && data != [] && gotSegment
      ensures !sent ==> conns == old(conns)
      ensures sent ==> conns == old(conns)[id := SendData(old(conns)[id], |data|, now, gotBuffer)]
      ensures old(Safe()) && (sent ==> Outstanding(old(conns)[id]) + |data| <= HALF) ==> Safe()
    {
      hide SlotSafe, BufferCount, Wrap;
      if id < 0 || id >= MAX_CONN { return false; }
      if !CanSend(conns[id], |data|) || !gotSegment { return false; }
      ghost var c := conns[id];
      SetConn(id, conns[id].(nxt := Wrap(conns[id].nxt as int + |data|)));
      ArmRetx(id, (HDR_LEN + |data|) % 0x1_0000, gotBuffer);
      if old(Safe()) && Outstanding(c) + |data| <= HALF { SendSafe(c, |data|, now, gotBuffer); }
      sent := true;
    }

    /** tcp_close */
    method CloseConn(id: int)
      requires Table() && Counted()
      modifies `conns, `buffers
      ensures Table() && Counted()
      ensures conns == if 0 <= id < MAX_CONN then old(conns)[id := Close(old(conns)[id])] else old(conns)
      ensures old(Safe()) && (0 <= id < MAX_CONN ==> Outstanding(old(conns)[id]) + 1 <= HALF) ==> Safe()
    {
      hide SlotSafe, BufferCount, Wrap;
      if id < 0 || id >= MAX_CONN { return; }
      ghost var c := conns[id];
      var s := conns[id].state;
      if s == Established || s == SynRcvd {
        SetConn(id, conns[id].(nxt := Wrap(conns[id].nxt as int + 1)));
        SetConn(id, conns[id].(state := FinWait1));
      } else if s == CloseWait {
        SetConn(id, conns[id].(nxt := Wrap(conns[id].nxt as int + 1)));
        SetConn(id, conns[id].(state := LastAck));
      } else if s == Listen || s == SynSent {
        ClearRetx(id);
        SetConn(id, conns[id].(state := Closed));
      }
      if old(Safe()) && Outstanding(c) + 1 <= HALF { CloseSafe(c); }
    }

    /** tcp_tick on one slot. */
    method TickSlot(i: nat) returns (resent: bool)
      requires Table() && Counted() && i < MAX_CONN
      modifies `conns, `buffers
      ensures Table() && Counted() && conns == old(conns)[i := Tick(old(conns)[i], now)]
      ensures resent <==> Resends(old(conns)[i], now)
    {
      hide SeqLt, BufferCount, Wrap, Doubled;
      var c := conns[i];
      if c.state == TimeWait {
        if !SeqLt(now, c.deadline) { SetConn(i, c.(state := Closed)); }
        return false;
      }
      if !c.buffered || c.retxLen == 0 { return false; }
      if SeqLt(now, c.deadline) { return false; }
      if c.retxCount >= MAX_RETRIES {
        ClearRetx(i);
        SetConn(i, conns[i].(state := Closed));
        return false;
      }
      SetConn(i, c.(retxCount := c.retxCount + 1, deadline := Wrap(now as int + RTO * Doubled(c.retxCount + 1))));
      resent := true;
    }

    /** tcp_tick: every slot, with the time of this tick. */
    method TickAll(time: Seq)
      requires Table() && Counted()
      modifies `conns, `buffers, `now
      ensures Table() && Counted() && now == time && (old(Safe()) ==> Safe())
      ensures forall i | 0 <= i < MAX_CONN :: conns[i] == Tick(old(conns)[i], time)
    {
      hide Tick, BufferCount, SlotSafe;
      now := time;
      for i := 0 to MAX_CONN
        invariant Table() && Counted() && now == time
        invariant forall j | 0 <= j < i :: conns[j] == Tick(old(conns)[j], time)
        invariant forall j | i <= j < MAX_CONN :: conns[j] == old(conns)[j]
      {
        var _ := TickSlot(i);
      }
      if old(Safe()) {
        forall i | 0 <= i < MAX_CONN
          ensures SlotSafe(conns[i])
        {
          TickSafe(old(conns)[i], time);
        }
      }
    }

    /** tcp_read: the oldest unread bytes, as many as there are and as asked for. */
    method ReadFrom(id: int, len: nat) returns (out: seq<Byte>)
      requires Table()
      modifies `conns
      ensures Table() && (old(Counted()) ==> Counted()) && (old(Safe()) ==> Safe())
      ensures !(0 <= id < MAX_CONN) ==> out == [] && conns == old(conns)
      ensures 0 <= id < MAX_CONN ==>
        var c := old(conns)[id];
        && out == Ring(c)[..if len < Avail(c) then len else Avail(c)]
        && conns == old(conns)[id := Advance(c, |out|)]
        && Ring(c) == out + Ring(conns[id])
    {
      hide BufferCount, SlotSafe, Ring, Avail;
      if id < 0 || id >= MAX_CONN { return []; }
      ghost var c := conns[id];
      var n := if len < Avail(conns[id]) then len else Avail(conns[id]);
      var head;
      out, head := CopyOut(conns[id], n);
      AdvanceRing(c, n);
      BufferCountUpdate(conns, id, conns[id].(head := head));
      ReadSafe(c, head);
      conns := conns[id := conns[id].(head := head)];
      assert Ring(c) == Ring(c)[..n] + Ring(c)[n..];
    }
  }

  /** The loop of tcp_read. */
  method CopyOut(c: Conn, n: nat) returns (out: seq<Byte>, head: nat)
    requires RingOk(c) && n <= Avail(c)
    ensures out == Ring(c)[..n] && head == Advance(c, n).head
  {
    out, head := [], c.head;
    for i := 0 to n
      invariant head == (c.head + i) % RX_SIZE
      invariant out == Ring(c)[..i]
    {
      assert Ring(c)[i] == c.rx[head];
      out := out + [c.rx[head]];
      head := (head + 1) % RX_SIZE;
    }
  }

  lemma ReadSafe(c: Conn, head: nat)
    ensures SlotSafe(c.(head := head)) == SlotSafe(c)
  {
  }

  lemma ListenSafe(c: Conn, port: nat)
    requires RingOk(c) && SlotSafe(c) && c.state == Closed
    ensures RingOk(OpenListen(c, port)) && SlotSafe(OpenListen(c, port)) && !c.buffered && !OpenListen(c, port).buffered
  {
  }

  lemma ConnectSafe(c: Conn, remoteIp: nat, remotePort: nat, localPort: nat, isn: Seq, now: Seq, gotBuffer: bool)
    requires RingOk(c)
    ensures var c' := OpenConnect(c, remoteIp, remotePort, localPort, isn, now, gotBuffer);
      && RingOk(c') && SlotSafe(c')
      && c' == RetxArm(OpenConnect(c, remoteIp, remotePort, localPort, isn, now, false), HDR_LEN, now, gotBuffer)
      && !OpenConnect(c, remoteIp, remotePort, localPort, isn, now, false).buffered
  {
    WrapSmall(isn as int + 1);
  }

  lemma SendSafe(c: Conn, len: nat, now: Seq, gotBuffer: bool)
    requires SlotSafe(c) && CanSend(c, len) && Outstanding(c) + len <= HALF
    ensures SlotSafe(SendData(c, len, now, gotBuffer))
  {
    hide Wrap, Minus;
    OutstandingGrows(c, len);
  }

  lemma CloseSafe(c: Conn)
    requires SlotSafe(c) && Outstanding(c) + 1 <= HALF
    ensures SlotSafe(Close(c))
  {
    hide Wrap, Minus;
    OutstandingGrows(c, 1);
  }

  lemma TickSafe(c: Conn, now: Seq)
    requires SlotSafe(c)
    ensures SlotSafe(Tick(c, now))
  {
    hide Wrap, Minus, SeqLt, Doubled;
  }

  /** m is the first slot the segment belongs to. */
  ghost predicate FirstMatch(conns: seq<Conn>, m: nat, seg: Segment, srcIp: nat)
  {
    && |conns| == MAX_CONN && m < MAX_CONN && RingOk(conns[m])
    && Matches(conns[m], seg, srcIp) && conns[m].state != Listen
    && forall j | 0 <= j < m :: !Matches(conns[j], seg, srcIp)
  }

  lemma ReceiveSafe(c: Conn, seg: Segment, now: Seq)
    requires RingOk(c) && SlotSafe(c) && c.state != Closed && c.state != Listen
    ensures SlotSafe(Receive(c, seg, now))
  {
    hide Receive, Minus, Opposite;
    ReceiveUna(c, seg, now);
    ReceiveBuffer(c, seg, now);
  }

  lemma PassiveOpenSafe(c: Conn, seg: Segment, srcIp: nat, isn: Seq, now: Seq, gotBuffer: bool)
    requires RingOk(c)
    ensures var c' := PassiveOpen(c, seg, srcIp, isn, now, gotBuffer);
      && RingOk(c') && SlotSafe(c') && c'.state == SynRcvd
      && c' == RetxArm(PassiveOpen(c, seg, srcIp, isn, now, false), HDR_LEN, now, gotBuffer)
      && !PassiveOpen(c, seg, srcIp, isn, now, false).buffered
      && Matches(c', seg, srcIp)
  {
    WrapSmall(isn as int + 1);
  }
}

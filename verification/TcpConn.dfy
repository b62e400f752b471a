/** One connection slot of src/net/tcp/tcp.c: the control block, and what segments, calls and timer ticks
    do to it.  Segments sent are not modelled; whether kmalloc succeeds is an argument. */
module TcpConn {
  import opened Bytes
  import opened TcpSeq

  const RX_SIZE: nat := 4096
  const RTO: int := 1000
  const MAX_RETRIES: nat := 5
  const TIME_WAIT_MS: int := 4000
  const HDR_LEN: nat := 20

  datatype State =
    | Closed | Listen | SynSent | SynRcvd | Established | FinWait1 | FinWait2 | CloseWait | Closing | LastAck | TimeWait

  /** tcp_conn_t.  `buffered` says that retx_buf points to a heap buffer. */
  datatype Conn = Conn(
    state: State,
    localPort: nat, remoteIp: nat, remotePort: nat,
    una: Seq, nxt: Seq, wnd: nat, rcv: Seq,
    buffered: bool, retxLen: nat, deadline: Seq, retxCount: nat,
    rx: seq<Byte>, head: nat, tail: nat)

  datatype Segment = Segment(
    srcPort: nat, dstPort: nat, seqNo: Seq, ackNo: Seq, wnd: nat,
    fin: bool, syn: bool, rst: bool, ack: bool, data: seq<Byte>)

  predicate RingOk(c: Conn)
  {
    |c.rx| == RX_SIZE && c.head < RX_SIZE && c.tail < RX_SIZE
  }

  // ----- The receive ring

  function Avail(c: Conn): nat
    requires RingOk(c)
  {
    (c.tail + RX_SIZE - c.head) % RX_SIZE
  }

  /** rx_free: one cell stays empty. */
  function RxFree(c: Conn): nat
    requires RingOk(c)
  {
    RX_SIZE - 1 - Avail(c)
  }

  /** The unread bytes, oldest first. */
  function Ring(c: Conn): (s: seq<Byte>)
    requires RingOk(c)
    ensures |s| == Avail(c)
  {
    seq(Avail(c), i requires 0 <= i < Avail(c) => c.rx[(c.head + i) % RX_SIZE])
  }

  /** One round of the loop of rx_push. */
  function PushByte(c: Conn, b: Byte): (c': Conn)
    requires RingOk(c)
    ensures RingOk(c')
  {
    c.(rx := c.rx[c.tail := b], tail := (c.tail + 1) % RX_SIZE)
  }

  /** rx_push */
  function Push(c: Conn, data: seq<Byte>): (c': Conn)
    requires RingOk(c)
    ensures RingOk(c') && c' == c.(rx := c'.rx, tail := c'.tail)
    decreases |data|
  {
    if data == [] then c else Push(PushByte(c, data[0]), data[1..])
  }

  /** tcp_read of n bytes: the head moves on. */
  function Advance(c: Conn, n: nat): (c': Conn)
    requires RingOk(c)
    ensures RingOk(c')
  {
    c.(head := (c.head + n) % RX_SIZE)
  }

  // ----- The retransmit buffer

  function RetxClear(c: Conn): Conn
  {
    c.(buffered := false, retxLen := 0, retxCount := 0)
  }

  function RetxArm(c: Conn, len: nat, now: Seq, gotBuffer: bool): Conn
  {
    if gotBuffer then c.(buffered := true, retxLen := len, deadline := Wrap(now as int + RTO), retxCount := 0)
    else c.(buffered := false)
  }

  // ----- Segments

  predicate DataState(s: State)
  {
    s == Established || s == FinWait1 || s == FinWait2
  }

  /** The acknowledgement number moves snd_una, and frees the buffer when all is acknowledged. */
  function AckNumber(c: Conn, seg: Segment): Conn
  {
    if (c.state == Established || c.state == FinWait1 || c.state == CloseWait || c.state == Closing)
       && SeqLeq(c.una, seg.ackNo) && SeqLeq(seg.ackNo, c.nxt)
    then var d := c.(una := seg.ackNo, wnd := seg.wnd);
         if d.buffered && SeqLeq(d.nxt, d.una) then RetxClear(d) else d
    else c
  }

  /** An acknowledgement of everything sent moves the closing states on. */
  function AckStates(c: Conn, seg: Segment, now: Seq): Conn
  {
    if seg.ackNo != c.nxt then c
    else if c.state == FinWait1 then c.(state := FinWait2)
    else if c.state == Closing then c.(state := TimeWait, deadline := Wrap(now as int + TIME_WAIT_MS))
    else if c.state == LastAck then RetxClear(c).(state := Closed)
    else c
  }

  function AckPhase(c: Conn, seg: Segment, now: Seq): Conn
  {
    if seg.ack then AckStates(AckNumber(c, seg), seg, now) else c
  }

  function Accepted(c: Conn, seg: Segment): (n: nat)
    requires RingOk(c)
    ensures n <= |seg.data|
  {
    if DataState(c.state) && seg.seqNo == c.rcv
    then (if |seg.data| > RxFree(c) then RxFree(c) else |seg.data|) else 0
  }

  function DataPhase(c: Conn, seg: Segment): (c': Conn)
    requires RingOk(c)
    ensures RingOk(c')
  {
    var n := Accepted(c, seg);
    Push(c, seg.data[..n]).(rcv := Wrap(c.rcv as int + n))
  }

  function FinPhase(c: Conn, seg: Segment, now: Seq): Conn
  {
    if !seg.fin then c else
    var c1 := c.(rcv := Wrap(c.rcv as int + 1));
    match c.state
    case Established => c1.(state := CloseWait)
    case FinWait1 => c1.(state := Closing)
    case FinWait2 => c1.(state := TimeWait, deadline := Wrap(now as int + TIME_WAIT_MS))
    case _ => c1
  }

  /** The part of tcp_rx after the handshake states: acknowledgement, data, FIN. */
  function Synchronized(c: Conn, seg: Segment, now: Seq): (c': Conn)
    requires RingOk(c)
    ensures RingOk(c')
  {
    var c1 := AckPhase(c, seg, now);
    if c1.state == Closed then c1 else FinPhase(DataPhase(c1, seg), seg, now)
  }

  /** tcp_rx on the slot it found for the segment. */
  function Receive(c: Conn, seg: Segment, now: Seq): (c': Conn)
    requires RingOk(c)
    ensures RingOk(c')
  {
    if seg.rst then
      if c.state == SynSent || (!SeqLt(seg.seqNo, c.rcv) && !SeqLeq(Wrap(c.rcv as int + RX_SIZE), seg.seqNo))
      then RetxClear(c).(state := Closed) else c
    else if c.state == SynSent then
      if !seg.ack || seg.ackNo != c.nxt || !seg.syn then c
      else RetxClear(c.(una := seg.ackNo, wnd := seg.wnd, rcv := Wrap(seg.seqNo as int + 1))).(state := Established)
    else if c.state == SynRcvd then
      if !seg.ack || seg.ackNo != c.nxt then c
      else Synchronized(RetxClear(c.(una := seg.ackNo, wnd := seg.wnd)).(state := Established), seg, now)
    else Synchronized(c, seg, now)
  }

  // ----- Calls and ticks

  /** The slot a SYN to a listener fills. */
  function PassiveOpen(c: Conn, seg: Segment, srcIp: nat, isn: Seq, now: Seq, gotBuffer: bool): Conn
  {
    RetxArm(c.(state := SynRcvd, localPort := seg.dstPort, remoteIp := srcIp, remotePort := seg.srcPort,
               una := isn, nxt := Wrap(isn as int + 1), wnd := seg.wnd, rcv := Wrap(seg.seqNo as int + 1),
               head := 0, tail := 0, buffered := false, retxLen := 0), HDR_LEN, now, gotBuffer)
  }

  function OpenListen(c: Conn, port: nat): Conn
  {
    c.(state := Listen, localPort := port, remoteIp := 0, remotePort := 0, head := 0, tail := 0, buffered := false, retxLen := 0)
  }

  function OpenConnect(c: Conn, remoteIp: nat, remotePort: nat, localPort: nat, isn: Seq, now: Seq, gotBuffer: bool): Conn
  {
    RetxArm(c.(state := SynSent, localPort := localPort, remoteIp := remoteIp, remotePort := remotePort,
               una := isn, nxt := Wrap(isn as int + 1), wnd := 0, rcv := 0,
               head := 0, tail := 0, buffered := false, retxLen := 0), HDR_LEN, now, gotBuffer)
  }

  predicate CanSend(c: Conn, len: nat)
  {
    (c.state == Established || c.state == CloseWait) && len > 0
  }

  /** tcp_send of len bytes once its own segment buffer is allocated. */
  function SendData(c: Conn, len: nat, now: Seq, gotBuffer: bool): Conn
  {
    RetxArm(c.(nxt := Wrap(c.nxt as int + len)), (HDR_LEN + len) % 0x1_0000, now, gotBuffer)
  }

  /** tcp_close */
  function Close(c: Conn): Conn
  {
    match c.state
    case Established => c.(nxt := Wrap(c.nxt as int + 1), state := FinWait1)
    case SynRcvd => c.(nxt := Wrap(c.nxt as int + 1), state := FinWait1)
    case CloseWait => c.(nxt := Wrap(c.nxt as int + 1), state := LastAck)
    case Listen => RetxClear(c).(state := Closed)
    case SynSent => RetxClear(c).(state := Closed)
    case _ => c
  }

  /** tcp_tick on one slot. */
  function Tick(c: Conn, now: Seq): Conn
  {
    if c.state == TimeWait then
      if !SeqLt(now, c.deadline) then c.(state := Closed) else c
    else if !c.buffered || c.retxLen == 0 || SeqLt(now, c.deadline) then c
    else if c.retxCount >= MAX_RETRIES then RetxClear(c).(state := Closed)
    else c.(retxCount := c.retxCount + 1, deadline := Wrap(now as int + RTO * Doubled(c.retxCount + 1)))
  }

  /** Does this tick resend the buffered segment? */
  predicate Resends(c: Conn, now: Seq)
  {
    c.state != TimeWait && c.buffered && c.retxLen > 0 && !SeqLt(now, c.deadline) && c.retxCount < MAX_RETRIES
  }

  /** 1 << k */
  function Doubled(k: nat): nat
  {
    if k == 0 then 1 else 2 * Doubled(k - 1)
  }
}

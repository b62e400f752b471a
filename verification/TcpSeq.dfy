/** 32-bit sequence numbers (seq_lt and seq_leq of src/net/tcp/tcp.c) and the integer positions they
    stand for. */
module TcpSeq {
  const U32: int := 0x1_0000_0000
  const HALF: int := 0x8000_0000

  type Seq = x: nat | x < U32

  /** x modulo 2^32. */
  function Wrap(x: int): Seq
  {
    x % U32
  }

  /** a - b in u32 arithmetic. */
  function Minus(a: Seq, b: Seq): Seq
  {
    Wrap(a as int - b as int)
  }

  /** (i32)(a - b) < 0 */
  predicate SeqLt(a: Seq, b: Seq)
  {
    Minus(a, b) >= HALF
  }

  /** (i32)(a - b) <= 0 */
  predicate SeqLeq(a: Seq, b: Seq)
  {
    Minus(a, b) == 0 || Minus(a, b) >= HALF
  }

  lemma MinusWrap(x: int, y: int)
    ensures Minus(Wrap(x), Wrap(y)) == Wrap(x - y)
  {
    var i, j := x / U32, y / U32;
    assert x - y == (Wrap(x) as int - Wrap(y) as int) + U32 * (i - j);
  }

  lemma WrapSmall(x: int)
    ensures 0 <= x < U32 ==> Wrap(x) == x
    ensures -U32 <= x < 0 ==> Wrap(x) == x + U32
  {
  }

  /** While positions are less than 2^31 apart, the comparisons are those of the positions. */
  lemma OrderOfPositions(x: int, y: int)
    requires -HALF < x - y < HALF
    ensures SeqLt(Wrap(x), Wrap(y)) <==> x < y
    ensures SeqLeq(Wrap(x), Wrap(y)) <==> x <= y
  {
    MinusWrap(x, y);
    WrapSmall(x - y);
  }

  /** At a distance of exactly 2^31 each number counts as before the other. */
  lemma OppositePositions(x: int)
    ensures SeqLt(Wrap(x), Wrap(x + HALF)) && SeqLt(Wrap(x + HALF), Wrap(x))
  {
    MinusWrap(x, x + HALF);
    MinusWrap(x + HALF, x);
  }

  /** Equal numbers at positions less than 2^32 apart are at the same position. */
  lemma SamePosition(x: int, y: int)
    requires -U32 < x - y < U32
    ensures Wrap(x) == Wrap(y) <==> x == y
  {
    if Wrap(x) == Wrap(y) {
      MinusWrap(x, y);
      WrapSmall(x - y);
    }
  }

  lemma WrapPlus(x: int, k: int)
    ensures Wrap(Wrap(x) as int + k) == Wrap(x + k)
  {
    assert x + k == Wrap(x) as int + k + U32 * (x / U32);
  }

  /** The test tcp_rx makes on an acknowledgement, in terms of the distances it compares. */
  lemma AckTest(una: Seq, ack: Seq, nxt: Seq)
    requires Minus(nxt, una) <= HALF
    ensures SeqLeq(una, ack) && SeqLeq(ack, nxt) <==>
      Minus(ack, una) <= Minus(nxt, una) || (una == nxt && ack == Wrap(una as int + HALF))
    ensures Minus(ack, una) <= Minus(nxt, una) ==> Minus(nxt, ack) == Minus(nxt, una) - Minus(ack, una)
  {
    var n: int, a: int := nxt as int - una as int, ack as int - una as int;
    WrapSmall(n);
    WrapSmall(a);
    WrapSmall(-a);
    WrapSmall(a - n);
    WrapSmall(n - a);
    WrapSmall(una as int + HALF);
  }

  /** The window test on a reset: within the 4096 numbers from rcv_nxt on. */
  lemma WindowTest(rcv: Seq, seq_: Seq, wnd: nat)
    requires 0 < wnd < HALF
    ensures !SeqLt(seq_, rcv) && !SeqLeq(Wrap(rcv as int + wnd), seq_) <==> Minus(seq_, rcv) < wnd
  {
    var d: int := seq_ as int - rcv as int;
    WrapSmall(d);
    WrapSmall(rcv as int + wnd);
    WrapSmall(rcv as int + wnd - U32);
    MinusWrap(rcv as int + wnd, seq_);
    WrapSmall(seq_);
    WrapSmall(wnd - d);
    WrapSmall(wnd - d - U32);
  }
}

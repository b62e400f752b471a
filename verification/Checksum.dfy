/** The Internet checksum: ip_checksum (src/net/ipv4/ipv4_internal.h), csum_native and udp_checksum
    (src/net/udp/udp.c), and the sum of src/net/tcp/tcp.c.

    The kernel adds 16-bit words as its processor reads them; a receiver adds them in network order.
    One's-complement addition is arithmetic modulo 65535, where swapping the bytes of a word is
    multiplication by 256, so the two agree on when the sum is all ones. */
module Checksum {
  import opened Bytes

  const U32: nat := 0x1_0000_0000
  const ONES: nat := 0xFFFF

  // ----- The sums

  /** Sum of the words as the processor reads them; a last odd byte counts as the low byte. */
  function SumNative(data: seq<Byte>): nat
  {
    if |data| == 0 then 0
    else if |data| == 1 then data[0] as nat
    else Le16(data[0], data[1]) + SumNative(data[2..])
  }

  /** Sum of the words in network order; a last odd byte is padded with zero on the right. */
  function SumNetwork(data: seq<Byte>): nat
  {
    if |data| == 0 then 0
    else if |data| == 1 then 0x100 * data[0] as nat
    else Be16(data[0], data[1]) + SumNetwork(data[2..])
  }

  /** End-around carry until the sum fits 16 bits. */
  function Fold(sum: nat): nat
    decreases sum
  {
    if sum < 0x1_0000 then sum else Fold(sum % 0x1_0000 + sum / 0x1_0000)
  }

  /** x and y are equal modulo 65535. */
  predicate Same(x: nat, y: nat)
  {
    x % ONES == y % ONES
  }

  // ----- Folding is reduction modulo 65535, to 1..65535 for sums that are not zero

  lemma {:induction false} FoldMeaning(sum: nat)
    ensures Fold(sum) <= ONES && Same(Fold(sum), sum) && (Fold(sum) == 0 <==> sum == 0)
    decreases sum
  {
    if sum >= 0x1_0000 {
      FoldStep(sum);
      FoldMeaning(sum % 0x1_0000 + sum / 0x1_0000);
    }
  }

  /** One end-around carry keeps the value modulo 65535 and does not reach zero. */
  lemma FoldStep(sum: nat)
    requires sum >= 0x1_0000
    ensures 0 < sum % 0x1_0000 + sum / 0x1_0000 < sum && Same(sum % 0x1_0000 + sum / 0x1_0000, sum)
  {
    var next, q := sum % 0x1_0000 + sum / 0x1_0000, sum / 0x1_0000;
    assert sum == next + ONES * q;
  }

  lemma FoldIsOnes(sum: nat)
    ensures Fold(sum) == ONES <==> sum > 0 && sum % ONES == 0
  {
    FoldMeaning(sum);
  }

  // ----- Byte order

  /** The network sum is 256 times the native sum, modulo 65535. */
  lemma {:induction false} ByteOrder(data: seq<Byte>)
    ensures Same(SumNetwork(data), 0x100 * SumNative(data))
    ensures SumNetwork(data) == 0 <==> SumNative(data) == 0
    decreases |data|
  {
    if |data| > 1 {
      ByteOrder(data[2..]);
      var w, n := Le16(data[0], data[1]), Be16(data[0], data[1]);
      assert 0x100 * w == n + ONES * data[1] as nat;
      SwapAdds(n, data[1] as nat, SumNetwork(data[2..]), SumNative(data[2..]));
    }
  }

  lemma SwapAdds(n: nat, k: nat, be: nat, le: nat)
    requires Same(be, 0x100 * le)
    ensures Same(n + be, n + ONES * k + 0x100 * le)
  {
  }

  /** Modulo 65535, multiplying by 256 twice gives the number back; so it keeps and reflects zero. */
  lemma SwapZero(x: nat)
    ensures x % ONES == 0 <==> (0x100 * x) % ONES == 0
  {
    if (0x100 * x) % ONES == 0 {
      var q := 0x100 * x / ONES;
      assert 0x100 * x == q * ONES;
      assert 0x1_0000 * x == 0x100 * q * ONES;
      assert x == (0x100 * q - x) * ONES;
    }
    if x % ONES == 0 {
      var q := x / ONES;
      assert x == q * ONES;
      assert 0x100 * x == 0x100 * q * ONES;
    }
  }

  /** A receiver's network-order sum is all ones exactly when the native sum is. */
  lemma SameVerdict(data: seq<Byte>)
    ensures Fold(SumNetwork(data)) == ONES <==> Fold(SumNative(data)) == ONES
  {
    ByteOrder(data);
    SwapZero(SumNative(data));
    FoldIsOnes(SumNetwork(data));
    FoldIsOnes(SumNative(data));
  }

  // ----- Storing the checksum

  /** u16 c stored by the processor at offset k. */
  function StoreNative(data: seq<Byte>, k: nat, c: nat): (r: seq<Byte>)
    requires k + 1 < |data| && c <= ONES
    ensures |r| == |data|
  {
    data[k := c % 0x100][k + 1 := c / 0x100]
  }

  lemma {:induction false} StoreAdds(data: seq<Byte>, k: nat, c: nat)
    requires k % 2 == 0 && k + 1 < |data| && c <= ONES && data[k] == 0 && data[k + 1] == 0
    ensures SumNative(StoreNative(data, k, c)) == SumNative(data) + c
    decreases |data|
  {
    var r := StoreNative(data, k, c);
    if k == 0 {
      assert r[2..] == data[2..];
    } else {
      assert r[2..] == StoreNative(data[2..], k - 2, c);
      StoreAdds(data[2..], k - 2, c);
    }
  }

  /** A value stored in the zeroed checksum field makes a receiver's sum all ones exactly when it is the
      complement of the folded sum, or the other form of zero. */
  lemma VerifiesIff(data: seq<Byte>, k: nat, c: nat)
    requires k % 2 == 0 && k + 1 < |data| && c <= ONES && data[k] == 0 && data[k + 1] == 0
    ensures var right := ONES - Fold(SumNative(data));
      Fold(SumNetwork(StoreNative(data, k, c))) == ONES <==> c == right || (c == ONES && right == 0)
  {
    hide Fold, SumNative, SumNetwork, StoreNative;
    var s := SumNative(data);
    SameVerdict(StoreNative(data, k, c));
    StoreAdds(data, k, c);
    FoldIsOnes(s + c);
    FoldMeaning(s);
    OnesCore(s, Fold(s), c);
  }

  lemma OnesCore(s: nat, f: nat, c: nat)
    requires f <= ONES && Same(f, s) && (f == 0 <==> s == 0) && c <= ONES
    ensures s + c > 0 && (s + c) % ONES == 0 <==> c == ONES - f || (c == ONES && f == ONES)
  {
    AddSame(f, s, c);
    assert (f + c) % ONES == 0 <==> f + c == 0 || f + c == ONES || f + c == 2 * ONES;
  }

  lemma AddSame(x: nat, y: nat, c: nat)
    requires Same(x, y)
    ensures Same(x + c, y + c)
  {
  }

  // ----- The kernel's routines

  lemma {:induction false} SumBound(data: seq<Byte>)
    ensures SumNative(data) <= 0x8000 * (|data| + 1) && SumNetwork(data) <= 0x8000 * (|data| + 1)
    decreases |data|
  {
    if |data| > 1 { SumBound(data[2..]); }
  }

  lemma {:induction false} SumSplit(a: seq<Byte>, b: seq<Byte>)
    requires |a| % 2 == 0
    ensures SumNative(a + b) == SumNative(a) + SumNative(b)
    ensures SumNetwork(a + b) == SumNetwork(a) + SumNetwork(b)
    decreases |a|
  {
    if |a| == 0 {
      assert a + b == b;
    } else {
      assert (a + b)[2..] == a[2..] + b;
      SumSplit(a[2..], b);
    }
  }

  lemma NativeStep(buf: seq<Byte>, i: nat)
    requires i <= |buf|
    ensures i == |buf| ==> SumNative(buf[i..]) == 0
    ensures i + 1 == |buf| ==> SumNative(buf[i..]) == buf[i]
    ensures i + 2 <= |buf| ==> SumNative(buf[i..]) == Le16(buf[i], buf[i + 1]) + SumNative(buf[i + 2..])
  {
    if i + 2 <= |buf| { assert buf[i..][2..] == buf[i + 2..]; }
  }

  /** csum_native: add the words of buf to a running u32 sum. */
  method CsumNative(start: nat, buf: seq<Byte>) returns (sum: nat)
    requires start + 0x8000 * (|buf| + 1) < U32
    ensures sum == start + SumNative(buf)
  {
    SumBound(buf);
    hide SumNative, Le16;
    assert buf[0..] == buf;
    sum := start;
    var i := 0;
    while |buf| - i >= 2
      invariant 0 <= i <= |buf|
      invariant sum + SumNative(buf[i..]) == start + SumNative(buf)
    {
      NativeStep(buf, i);
      sum := (sum + Le16(buf[i], buf[i + 1])) % U32;
      i := i + 2;
    }
    NativeStep(buf, i);
    if |buf| - i > 0 {
      sum := (sum + buf[i] as nat) % U32;
    }
  }

  /** while (sum >> 16) sum = (sum & 0xFFFF) + (sum >> 16); */
  method FoldSum(start: nat) returns (sum: nat)
    ensures sum == Fold(start)
  {
    sum := start;
    while sum / 0x1_0000 != 0
      invariant Fold(sum) == Fold(start)
      decreases sum
    {
      sum := sum % 0x1_0000 + sum / 0x1_0000;
    }
  }

  /** ip_checksum.  With the result stored in the zeroed field at any even offset, a receiver's sum is all ones. */
  method IpChecksum(data: seq<Byte>) returns (c: nat)
    requires |data| < 0x1_0000
    ensures c == ONES - Fold(SumNative(data)) && c <= ONES
    ensures forall k | 0 <= k < |data| - 1 && k % 2 == 0 && data[k] == 0 && data[k + 1] == 0 ::
              Fold(SumNetwork(StoreNative(data, k, c))) == ONES
  {
    var sum := CsumNative(0, data);
    sum := FoldSum(sum);
    FoldMeaning(SumNative(data));
    c := ONES - sum;
    forall k | 0 <= k < |data| - 1 && k % 2 == 0 && data[k] == 0 && data[k + 1] == 0
      ensures Fold(SumNetwork(StoreNative(data, k, c))) == ONES
    {
      VerifiesIff(data, k, c);
    }
  }

  const IPPROTO_UDP: Byte := 17
  const UDP_HDR_LEN: nat := 8
  const UDP_CSUM_AT: nat := 6

  function Octet(x: nat, shift: nat): Byte
    requires shift > 0
  {
    x / shift % 0x100
  }

  /** The twelve bytes of the pseudo-header, as on the wire. */
  function PseudoHeader(srcIp: nat, dstIp: nat, proto: Byte, len: nat): (ph: seq<Byte>)
    ensures |ph| == 12
  {
    [Octet(srcIp, 0x100_0000), Octet(srcIp, 0x1_0000), Octet(srcIp, 0x100), Octet(srcIp, 1),
     Octet(dstIp, 0x100_0000), Octet(dstIp, 0x1_0000), Octet(dstIp, 0x100), Octet(dstIp, 1),
     0, proto, Octet(len, 0x100), Octet(len, 1)]
  }

  /** What the pseudo-header adds: both addresses, the protocol and the length, each as 16-bit words. */
  lemma PseudoHeaderSum(srcIp: nat, dstIp: nat, proto: Byte, len: nat)
    requires srcIp < 0x1_0000_0000 && dstIp < 0x1_0000_0000 && len < 0x1_0000
    ensures SumNetwork(PseudoHeader(srcIp, dstIp, proto, len)) ==
      srcIp / 0x1_0000 + srcIp % 0x1_0000 + dstIp / 0x1_0000 + dstIp % 0x1_0000 + proto + len
  {
    hide SumNetwork, Octet;
    SumOfTwelve(PseudoHeader(srcIp, dstIp, proto, len));
    Halves(srcIp);
    Halves(dstIp);
    Halves(len);
  }

  lemma Halves(x: nat)
    requires x < 0x1_0000_0000
    ensures 0x100 * Octet(x, 0x100_0000) + Octet(x, 0x1_0000) == x / 0x1_0000
    ensures 0x100 * Octet(x, 0x100) + Octet(x, 1) == x % 0x1_0000
  {
  }

  lemma SumOfTwelve(s: seq<Byte>)
    requires |s| == 12
    ensures SumNetwork(s) == Be16(s[0], s[1]) + Be16(s[2], s[3]) + Be16(s[4], s[5]) + Be16(s[6], s[7])
                             + Be16(s[8], s[9]) + Be16(s[10], s[11])
  {
    assert SumNetwork(s[8..]) == Be16(s[8], s[9]) + Be16(s[10], s[11]) by {
      assert s[8..][2..] == s[10..] && s[10..][2..] == [] && SumNetwork(s[10..]) == Be16(s[10], s[11]);
    }
    assert SumNetwork(s[4..]) == Be16(s[4], s[5]) + Be16(s[6], s[7]) + SumNetwork(s[8..]) by {
      assert s[4..][2..] == s[6..] && s[6..][2..] == s[8..];
    }
    assert s[2..][2..] == s[4..];
  }

  /** udp_checksum over pseudo-header, header (checksum field zero) and data.  The result is never zero,
      and with it in place a receiver's sum over all three is all ones. */
  method UdpChecksum(srcIp: nat, dstIp: nat, hdr: seq<Byte>, data: seq<Byte>) returns (c: nat)
    requires |hdr| == UDP_HDR_LEN && |data| < 0x1_0000
    ensures 0 < c <= ONES
    ensures hdr[UDP_CSUM_AT] == 0 && hdr[UDP_CSUM_AT + 1] == 0 ==>
      var ph := PseudoHeader(srcIp, dstIp, IPPROTO_UDP, (UDP_HDR_LEN + |data|) % 0x1_0000);
      Fold(SumNetwork(ph + StoreNative(hdr, UDP_CSUM_AT, c) + data)) == ONES
  {
    hide Fold, SumNative, SumNetwork, PseudoHeader;
    var ph := PseudoHeader(srcIp, dstIp, IPPROTO_UDP, (UDP_HDR_LEN + |data|) % 0x1_0000);
    SumBound(ph);
    SumBound(hdr);
    SumBound(data);
    var sum := CsumNative(0, ph);
    sum := CsumNative(sum, hdr);
    sum := CsumNative(sum, data);
    ghost var all := ph + hdr + data;
    SumSplit(ph, hdr);
    SumSplit(ph + hdr, data);
    assert sum == SumNative(all);
    sum := FoldSum(sum);
    FoldMeaning(SumNative(all));
    c := ONES - sum;
    if c == 0 { c := ONES; }
    if hdr[UDP_CSUM_AT] == 0 && hdr[UDP_CSUM_AT + 1] == 0 {
      VerifiesIff(all, 12 + UDP_CSUM_AT, c);
      assert StoreNative(all, 12 + UDP_CSUM_AT, c) == ph + StoreNative(hdr, UDP_CSUM_AT, c) + data;
    }
  }

  // ----- TCP

  /** tcp_checksum adds the words in network order; the caller stores the result as the processor does. */
  function TcpChecksum(message: seq<Byte>): (c: nat)
    ensures 0 < c <= ONES
  {
    FoldMeaning(SumNetwork(message));
    var c := ONES - Fold(SumNetwork(message));
    if c == 0 then ONES else c
  }

  /** So a receiver accepts the segment exactly when 257 divides the sum of its words, that is, when the two
      bytes of the checksum happen to be equal. */
  lemma TcpVerifiesIff(message: seq<Byte>, k: nat)
    requires k % 2 == 0 && k + 1 < |message| && message[k] == 0 && message[k + 1] == 0
    ensures Fold(SumNetwork(StoreNative(message, k, TcpChecksum(message)))) == ONES <==> SumNetwork(message) % 0x101 == 0
    ensures SumNetwork(message) % 0x101 == 0 <==> TcpChecksum(message) / 0x100 == TcpChecksum(message) % 0x100
  {
    hide Fold, SumNative, SumNetwork, StoreNative;
    var c := TcpChecksum(message);
    var be, le := SumNetwork(message), SumNative(message);
    FoldMeaning(be);
    ByteOrder(message);
    StoreAdds(message, k, c);
    SameVerdict(StoreNative(message, k, c));
    FoldIsOnes(le + c);
    ComplementSum(be, Fold(be), c);
    TcpCore(be, le, c);
    EqualBytes(c);
    Divides257(be, c);
  }

  /** 257 divides 65535, so it divides both or neither of two numbers that add up to a multiple of 65535. */
  lemma Divides257(be: nat, c: nat)
    requires (be + c) % ONES == 0
    ensures be % 0x101 == 0 <==> c % 0x101 == 0
  {
    var q := (be + c) / ONES;
    assert be + c == 0x101 * (0xFF * q);
  }

  lemma ComplementSum(s: nat, f: nat, c: nat)
    requires f <= ONES && Same(f, s) && c == (if f == ONES then ONES else ONES - f)
    ensures (s + c) % ONES == 0
  {
    AddSame(f, s, c);
  }

  /** With be = 256 le and c = -be, the native sum le + c vanishes exactly when 257 divides c. */
  lemma TcpCore(be: nat, le: nat, c: nat)
    requires Same(be, 0x100 * le) && 0 < c <= ONES && (be + c) % ONES == 0
    ensures (le + c) % ONES == 0 <==> c / 0x100 == c % 0x100
  {
    SwapZero(le + c);
    AddSame(be, 0x100 * le, 0x100 * c);
    DropMultiple(be, c);
    Times255(c);
    EqualBytes(c);
  }

  /** Since be = -c, be + 256 c is 255 c. */
  lemma DropMultiple(be: nat, c: nat)
    requires (be + c) % ONES == 0
    ensures Same(be + 0x100 * c, 0xFF * c)
  {
    var q := (be + c) / ONES;
    assert be + 0x100 * c == 0xFF * c + q * ONES;
  }

  lemma Times255(c: nat)
    ensures (0xFF * c) % ONES == 0 <==> c % 0x101 == 0
  {
    if (0xFF * c) % ONES == 0 {
      var k := 0xFF * c / ONES;
      assert 0xFF * c == 0xFF * (0x101 * k);
    }
    if c % 0x101 == 0 {
      var k := c / 0x101;
      assert 0xFF * c == k * ONES;
    }
  }

  lemma EqualBytes(c: nat)
    requires c <= ONES
    ensures c % 0x101 == 0 <==> c / 0x100 == c % 0x100
  {
    assert c == 0x101 * (c / 0x100) + (c % 0x100 - c / 0x100);
  }

  /** A message a receiver rejects. */
  lemma TcpExampleRejected()
    ensures Fold(SumNetwork(StoreNative([0, 1, 0, 0], 2, TcpChecksum([0, 1, 0, 0])))) != ONES
  {
    var m: seq<Byte> := [0, 1, 0, 0];
    assert m[2..] == [0, 0] && m[2..][2..] == [];
    assert SumNetwork(m[2..]) == 0;
    assert SumNetwork(m) == 1;
    assert TcpChecksum(m) == 0xFFFE;
    TcpVerifiesIff(m, 2);
    assert SumNetwork(m) % 0x101 == 1;
  }
}

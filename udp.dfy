/**
 * The datagram sender and receiver of TINYUDP.C (RFC 768) over the Ethernet
 * driver. udp_send builds a 28-byte IP and UDP header plus the payload at
 * offset 22 of the transmit buffer; both UDP ports are the one port given and
 * the identification comes from the file's own counter nMessage.
 *
 * udp_checksum sums the pseudo header and the segment as NATIVE words (low
 * byte first) and stores the complement natively. A ones' complement sum
 * does not depend on byte order up to a swap of its two bytes (RFC 1071,
 * section 2(B)), so the stored field is the RFC 768 checksum in network
 * order -- provided the sum is folded completely. udp_checksum folds once
 * and truncates, which loses a second carry: the datagrams udp_send sends
 * (SegmentAsWritten) verify exactly when adding the sum's halves does not
 * carry; Segment, with the full fold, is the checksum evidently intended and
 * always verifies.
 *
 * udp_receive reads a packet at offset 14 of the receive buffer: protocol at
 * 23, destination address at 30, destination port at 36, UDP length at 38 and
 * the payload from 42.
 */
module Udp {
  import opened Wire
  import opened InetChecksum
  import opened Ethernet
  import opened Ip

  /** udp_send's time to live */
  const UDP_TTL: Byte := 128
  /** sizeof(struct udp_packet): the IP header and the UDP header */
  const UDP_PACKET: nat := 28
  /** The largest payload whose frame fits the transmit buffer with its FCS. */
  const MAX_PAYLOAD: nat := BUFFER_SIZE - 4 - TX_PAYLOAD - UDP_PACKET

  // ----- the native sum ----------------------------------------------------------------------

  /** The sum of the native (little-endian) words of d, an odd last byte taken as a low byte. */
  function NativeSum(d: seq<Byte>): nat
    decreases |d|
  {
    if |d| == 0 then 0
    else if |d| == 1 then d[0]
    else d[0] + d[1] * 0x100 + NativeSum(d[2..])
  }

  /** The native sum of an even-length prefix and what follows it add up. */
  lemma {:induction false} NativeSumAppend(a: seq<Byte>, b: seq<Byte>)
    requires |a| % 2 == 0
    ensures NativeSum(a + b) == NativeSum(a) + NativeSum(b)
    decreases |a|
  {
    if |a| > 0 {
      assert (a + b)[2..] == a[2..] + b;
      NativeSumAppend(a[2..], b);
    } else {
      assert a + b == b;
    }
  }

  /** A native word stored at an even offset adds its value to the native sum. */
  lemma NativeSumField(pre: seq<Byte>, w: Word, post: seq<Byte>)
    requires |pre| % 2 == 0
    ensures NativeSum(pre + LeBytes16(w) + post) == NativeSum(pre) + w + NativeSum(post)
  {
    NativeSumAppend(pre, LeBytes16(w) + post);
    NativeSumAppend(LeBytes16(w), post);
    assert LeBytes16(w) + post == (pre + LeBytes16(w) + post)[|pre|..];
    assert pre + LeBytes16(w) + post == pre + (LeBytes16(w) + post);
    assert LeBytes16(w)[2..] == [];
  }

  /** Each native word is at most 0xFFFF, so the sum grows by at most 0x8000 a byte. */
  lemma {:induction false} NativeSumBound(d: seq<Byte>)
    ensures NativeSum(d) <= 0x8000 * |d|
    decreases |d|
  {
    if |d| >= 2 {
      NativeSumBound(d[2..]);
    }
  }

  /** Big-endian and native word sums of the same bytes agree up to a factor 0x100
      modulo 0xFFFF, and vanish together. */
  lemma {:induction false} NativeWordCongruent(d: seq<Byte>)
    ensures (WordSum(d) - 0x100 * NativeSum(d)) % 0xFFFF == 0
    ensures WordSum(d) == 0 <==> NativeSum(d) == 0
    decreases |d|
  {
    if |d| >= 2 {
      NativeWordCongruent(d[2..]);
      var k := (WordSum(d[2..]) - 0x100 * NativeSum(d[2..])) / 0xFFFF;
      assert WordSum(d) - 0x100 * NativeSum(d) == 0xFFFF * (k - d[1]);
    }
  }

  /** Residues modulo 0xFFFF written out as multiples: if fw, w, n and f are congruent in
      the way the sums and their folds are, then fw is the byte swap of f. */
  lemma SwapOfCongruent(w: int, n: int, fw: Word, f: Word, a: int, b: int, c: int)
    requires w - 0x100 * n == 0xFFFF * a && fw - w == 0xFFFF * b && f - n == 0xFFFF * c
    requires 1 <= fw && 1 <= f
    ensures fw == SwapBytes(f)
  {
    var s := SwapBytes(f);
    assert s == Lo(f) * 0x100 + Hi(f);
    assert 0x100 * f - s == 0xFFFF * Hi(f);
    assert 0x100 * n - 0x100 * f == 0xFFFF * (-0x100 * c);
    var k := b + a - 0x100 * c + Hi(f);
    assert fw - s == 0xFFFF * k;
    assert 1 <= s;
  }

  /** The folded native sum of any bytes is the byte swap of their folded big-endian sum
      (the byte-order independence of RFC 1071, section 2(B)). */
  lemma NativeSumIsSwapped(d: seq<Byte>)
    ensures Fold(WordSum(d)) == SwapBytes(Fold(NativeSum(d)))
  {
    var w: int, n: int := WordSum(d), NativeSum(d);
    NativeWordCongruent(d);
    FoldCongruent(w);
    FoldCongruent(n);
    FoldZero(w);
    FoldZero(n);
    var fw, f := Fold(w), Fold(n);
    if w != 0 {
      SwapOfCongruent(w, n, fw, f, (w - 0x100 * n) / 0xFFFF, fw / 0xFFFF - w / 0xFFFF, f / 0xFFFF - n / 0xFFFF);
    }
  }

  // ----- the checksum of udp_checksum --------------------------------------------------------

  /** udp_checksum's return as written: the 32-bit sum split into its two halves, the
      halves added once and the total truncated to a Word. */
  function FoldOnce(lw: Longword): Word
  {
    (lw % 0x1_0000 + lw / 0x1_0000) % 0x1_0000
  }

  /** Adding the two halves of a 32-bit sum carries: the case the single fold gets wrong. */
  predicate HalvesCarry(lw: Longword)
  {
    lw % 0x1_0000 + lw / 0x1_0000 >= 0x1_0000
  }

  /** The single fold agrees with the full fold unless adding the halves carries; then
      it is one less, the carry lost. */
  lemma FoldOnceLosesCarry(lw: Longword)
    ensures lw % 0x1_0000 + lw / 0x1_0000 < 0x1_0000 ==> FoldOnce(lw) == Fold(lw)
    ensures lw % 0x1_0000 + lw / 0x1_0000 >= 0x1_0000 ==> FoldOnce(lw) + 1 == Fold(lw)
  {
    var hi, lo := lw / 0x1_0000, lw % 0x1_0000;
    assert hi < 0x1_0000;
    var t := lo + hi;
    HalvesFold(t);
    if lw >= 0x1_0000 {
      assert Fold(lw) == Fold(t);
    }
  }

  /** A sum of two halves folds to itself, or, when it carries, to itself less 0xFFFF. */
  lemma HalvesFold(t: nat)
    requires t <= 0x1_FFFE
    ensures t < 0x1_0000 ==> Fold(t) == t == t % 0x1_0000
    ensures t >= 0x1_0000 ==> Fold(t) == t - 0xFFFF && t % 0x1_0000 == t - 0x1_0000
  {
    if t >= 0x1_0000 {
      assert t % 0x1_0000 == t - 0x1_0000 && t / 0x1_0000 == 1;
      assert Fold(t) == Fold(t - 0xFFFF);
      assert Fold(t - 0xFFFF) == t - 0xFFFF;
    }
  }

  /** The loop of udp_checksum over the transmit buffer: the native words from the IP
      source address to the end of the payload, then the protocol and the native UDP
      length. The 32-bit result never wraps for a packet that fits the buffer. */
  method PseudoSum(tx: array<Byte>, payloadlen: nat, protocol: Word) returns (sum: Longword)
    requires 50 + payloadlen <= tx.Length <= BUFFER_SIZE
    ensures sum == NativeSum(tx[34..50 + payloadlen]) + protocol * 0x100 + Le16(tx[..], 46)
  {
    var buflen := payloadlen + UDP_HEADER + 8;
    var result: int := 0;
    var i := 34;
    ghost var d := tx[34..50 + payloadlen];
    NativeSumBound(d);
    while buflen > 1
      invariant 34 <= i && 0 <= buflen && i + buflen == 50 + payloadlen && (i - 34) % 2 == 0
      invariant NativeSum(d) == result + NativeSum(d[i - 34..])
    {
      assert d[i - 34..][2..] == d[i - 34 + 2..];
      assert d[i - 34] == tx[i] && d[i - 34 + 1] == tx[i + 1];
      result := result + tx[i] as int + tx[i + 1] as int * 0x100;
      i := i + 2;
      buflen := buflen - 2;
    }
    if buflen > 0 {
      assert d[i - 34] == tx[i];
      result := result + tx[i] as int;
    }
    assert result == NativeSum(d);
    result := result + protocol * 0x100;
    result := result + Le16(tx[..], 46);
    sum := result;
  }

  // ----- the segment -------------------------------------------------------------------------

  /** The pseudo header of RFC 768 in network order: the two addresses, a zero byte, the
      protocol and the UDP length. */
  function PseudoHeader(src: seq<Byte>, dst: seq<Byte>, length: Word): (r: seq<Byte>)
    requires |src| == 4 && |dst| == 4
    ensures |r| == 12
  {
    src + dst + [0, PROTOCOL_UDP] + BeBytes16(length)
  }

  /** The test of RFC 768 at a receiver: the ones' complement sum of the pseudo header and
      the segment, checksum field included, is all ones. */
  predicate ChecksumVerifies(src: seq<Byte>, dst: seq<Byte>, seg: seq<Byte>)
    requires |src| == 4 && |dst| == 4 && |seg| >= UDP_HEADER
  {
    Fold(WordSum(PseudoHeader(src, dst, Be16(seg, 4)) + seg)) == 0xFFFF
  }

  /** The 32-bit sum udp_checksum forms for a segment from src to dst; it cannot wrap. */
  function SegmentSum(src: seq<Byte>, dst: seq<Byte>, seg: seq<Byte>): (r: Longword)
    requires |src| == 4 && |dst| == 4 && |seg| <= BUFFER_SIZE
    ensures r == NativeSum(PseudoHeader(src, dst, Be16(seg, 4)) + seg)
  {
    NativeSumBound(src + dst + seg);
    PseudoSumIsNative(src, dst, seg);
    NativeSum(src + dst + seg) + PROTOCOL_UDP * 0x100 + Le16(seg, 4)
  }

  /** Summing the addresses and the segment and then adding the protocol and the native
      length, as udp_checksum does, is the native sum of pseudo header and segment. */
  lemma PseudoSumIsNative(src: seq<Byte>, dst: seq<Byte>, seg: seq<Byte>)
    requires |src| == 4 && |dst| == 4
    ensures NativeSum(PseudoHeader(src, dst, Be16(seg, 4)) + seg)
         == NativeSum(src + dst + seg) + PROTOCOL_UDP * 0x100 + Le16(seg, 4)
  {
    var a := src + dst;
    var len := BeBytes16(Be16(seg, 4));
    var rest := [0, PROTOCOL_UDP] + len + seg;
    Regroup(a, [0, PROTOCOL_UDP], len, seg);
    NativeSumAppend(a, rest);
    NativeSumAppend(a, seg);
    NativeSumAppend([0, PROTOCOL_UDP], len + seg);
    AppendAssoc([0, PROTOCOL_UDP], len, seg);
    NativeSumAppend(len, seg);
    NativeOfNetworkWord(seg, 4);
  }

  /** A word read in network order and stored back in network order sums natively to the
      word read natively. */
  lemma NativeOfNetworkWord(s: seq<Byte>, i: int)
    ensures NativeSum(BeBytes16(Be16(s, i))) == Le16(s, i)
  {
    var w := Be16(s, i);
    assert Hi(w) == ByteAt(s, i) && Lo(w) == ByteAt(s, i + 1);
    assert BeBytes16(w)[2..] == [];
  }

  /** The UDP header and payload as udp_send stores them, the checksum still zero: both
      ports are the one given, the length counts header and payload. */
  function Unsealed(port: Word, payload: seq<Byte>): (r: seq<Byte>)
    requires |payload| <= MAX_PAYLOAD
    ensures |r| == UDP_HEADER + |payload|
  {
    BeBytes16(port) + BeBytes16(port) + BeBytes16(UDP_HEADER + |payload|) + LeBytes16(0) + payload
  }

  /** A segment with the checksum field stored natively. */
  function WithChecksum(u: seq<Byte>, c: Word): (r: seq<Byte>)
    requires |u| >= UDP_HEADER
    ensures |r| == |u|
  {
    u[..6] + LeBytes16(c) + u[8..]
  }

  /** The segment udp_send sends with the complement of the fully folded sum. */
  function Segment(src: seq<Byte>, dst: seq<Byte>, port: Word, payload: seq<Byte>): (r: seq<Byte>)
    requires |src| == 4 && |dst| == 4 && |payload| <= MAX_PAYLOAD
    ensures |r| == UDP_HEADER + |payload|
  {
    var u := Unsealed(port, payload);
    WithChecksum(u, 0xFFFF - Fold(SegmentSum(src, dst, u)))
  }

  /** The segment as TINYUDP.C sends it: the complement of the once-folded sum. */
  function SegmentAsWritten(src: seq<Byte>, dst: seq<Byte>, port: Word, payload: seq<Byte>): (r: seq<Byte>)
    requires |src| == 4 && |dst| == 4 && |payload| <= MAX_PAYLOAD
    ensures |r| == UDP_HEADER + |payload|
  {
    var u := Unsealed(port, payload);
    WithChecksum(u, 0xFFFF - FoldOnce(SegmentSum(src, dst, u)))
  }

  /** What a receiver reads from a segment: the ports, the length and the payload. */
  lemma UnsealedFields(port: Word, payload: seq<Byte>, c: Word)
    requires |payload| <= MAX_PAYLOAD
    ensures var s := WithChecksum(Unsealed(port, payload), c);
      && Be16(s, 0) == port && Be16(s, 2) == port && Be16(s, 4) == UDP_HEADER + |payload|
      && Le16(s, 6) == c && s[UDP_HEADER..] == payload
  {
    var u := Unsealed(port, payload);
    var s := WithChecksum(u, c);
    assert s[0] == Hi(port) && s[1] == Lo(port) && s[2] == Hi(port) && s[3] == Lo(port);
    assert s[4] == Hi(UDP_HEADER + |payload|) && s[5] == Lo(UDP_HEADER + |payload|);
    assert s[6] == Lo(c) && s[7] == Hi(c);
    assert s[UDP_HEADER..] == u[8..] == payload;
  }

  /** Storing c in the zeroed checksum field adds c to the sum and leaves the length. */
  lemma StoredChecksum(src: seq<Byte>, dst: seq<Byte>, u: seq<Byte>, c: Word)
    requires |src| == 4 && |dst| == 4 && UDP_HEADER <= |u| <= BUFFER_SIZE && u[6..8] == LeBytes16(0)
    ensures var s := WithChecksum(u, c);
      Be16(s, 4) == Be16(u, 4) && SegmentSum(src, dst, s) == SegmentSum(src, dst, u) + c
  {
    var s := WithChecksum(u, c);
    var pre := src + dst + u[..6];
    assert src + dst + s == pre + LeBytes16(c) + u[8..];
    assert u == u[..6] + u[6..8] + u[8..];
    assert src + dst + u == pre + LeBytes16(0) + u[8..];
    NativeSumField(pre, c, u[8..]);
    NativeSumField(pre, 0, u[8..]);
    assert s[4] == u[4] && s[5] == u[5];
  }

  /** A receiver's test passes on a segment with checksum c exactly when the sender's
      native sum plus c folds to all ones. */
  lemma VerifiesWithChecksum(src: seq<Byte>, dst: seq<Byte>, u: seq<Byte>, c: Word)
    requires |src| == 4 && |dst| == 4 && UDP_HEADER <= |u| <= BUFFER_SIZE && u[6..8] == LeBytes16(0)
    ensures ChecksumVerifies(src, dst, WithChecksum(u, c)) <==> Fold(SegmentSum(src, dst, u) + c) == 0xFFFF
  {
    var s := WithChecksum(u, c);
    StoredChecksum(src, dst, u, c);
    NativeSumIsSwapped(PseudoHeader(src, dst, Be16(s, 4)) + s);
    SwapBytesInvolutive(0xFFFF);
    SwapBytesInvolutive(Fold(SegmentSum(src, dst, s)));
  }

  /** Every segment udp_send sends (with the full fold) passes the receiver's test. */
  lemma SegmentVerifies(src: seq<Byte>, dst: seq<Byte>, port: Word, payload: seq<Byte>)
    requires |src| == 4 && |dst| == 4 && |payload| <= MAX_PAYLOAD
    ensures ChecksumVerifies(src, dst, Segment(src, dst, port, payload))
  {
    var u := Unsealed(port, payload);
    var x := SegmentSum(src, dst, u);
    VerifiesWithChecksum(src, dst, u, 0xFFFF - Fold(x));
    ComplementCompletes(x);
  }

  /** Completing a sum with the complement of its single fold gives all ones exactly when
      adding the sum's halves does not carry. */
  lemma OnceFoldedComplement(x: Longword)
    ensures Fold(x + (0xFFFF - FoldOnce(x))) == 0xFFFF <==> x % 0x1_0000 + x / 0x1_0000 < 0x1_0000
  {
    FoldOnceLosesCarry(x);
    ComplementCompletes(x);
    if x % 0x1_0000 + x / 0x1_0000 >= 0x1_0000 {
      var y := x + (0xFFFF - Fold(x));
      assert x + (0xFFFF - FoldOnce(x)) == y + 1;
      FoldAllOnes(y);
      OneMoreNotAllOnes(y);
    }
  }

  /** One past a multiple of 0xFFFF is not one. */
  lemma OneMoreNotAllOnes(y: nat)
    requires y % 0xFFFF == 0
    ensures Fold(y + 1) != 0xFFFF
  {
    assert (y + 1) % 0xFFFF == 1;
    FoldAllOnes(y + 1);
  }

  /** The segment as written passes the receiver's test exactly when adding the halves of
      its sum does not carry. */
  lemma AsWrittenVerifiesIff(src: seq<Byte>, dst: seq<Byte>, port: Word, payload: seq<Byte>)
    requires |src| == 4 && |dst| == 4 && |payload| <= MAX_PAYLOAD
    ensures var x := SegmentSum(src, dst, Unsealed(port, payload));
      ChecksumVerifies(src, dst, SegmentAsWritten(src, dst, port, payload))
      <==> x % 0x1_0000 + x / 0x1_0000 < 0x1_0000
  {
    var u := Unsealed(port, payload);
    var x := SegmentSum(src, dst, u);
    VerifiesWithChecksum(src, dst, u, 0xFFFF - FoldOnce(x));
    OnceFoldedComplement(x);
  }

  /** A datagram to the echo port whose checksum TINYUDP.C gets wrong: its sum is 0x1FFFF,
      the single fold gives 0 instead of 1, and the peer drops the datagram. */
  lemma AsWrittenDropped()
    ensures var src, dst, payload := [192, 168, 1, 2], [192, 168, 1, 1], [0x7D, 0x78];
      && !ChecksumVerifies(src, dst, SegmentAsWritten(src, dst, 7, payload))
      && ChecksumVerifies(src, dst, Segment(src, dst, 7, payload))
  {
    ExampleSum();
    AsWrittenVerifiesIff([192, 168, 1, 2], [192, 168, 1, 1], 7, [0x7D, 0x78]);
    SegmentVerifies([192, 168, 1, 2], [192, 168, 1, 1], 7, [0x7D, 0x78]);
  }

  lemma ExampleSum()
    ensures SegmentSum([192, 168, 1, 2], [192, 168, 1, 1], Unsealed(7, [0x7D, 0x78])) == 0x1FFFF
  {
    var u := Unsealed(7, [0x7D, 0x78]);
    assert u == [0, 7, 0, 7, 0, 10, 0, 0, 0x7D, 0x78];
    assert [192, 168, 1, 2] + [192, 168, 1, 1] + u
        == [192, 168, 1, 2, 192, 168, 1, 1, 0, 7, 0, 7, 0, 10, 0, 0, 0x7D, 0x78];
    ExampleNativeSum();
    assert Le16(u, 4) == 0x0A00;
  }

  lemma ExampleNativeSum()
    ensures NativeSum([192, 168, 1, 2, 192, 168, 1, 1, 0, 7, 0, 7, 0, 10, 0, 0, 0x7D, 0x78]) == 0x1E4FF
  {
    var d: seq<Byte> := [192, 168, 1, 2, 192, 168, 1, 1, 0, 7, 0, 7, 0, 10, 0, 0, 0x7D, 0x78];
    assert NativeSum(d[16..]) == 0x787D;
    assert NativeSum(d[14..]) == 0x787D;
    assert NativeSum(d[12..]) == 0x827D;
    assert NativeSum(d[10..]) == 0x897D;
    assert NativeSum(d[8..]) == 0x907D;
    assert NativeSum(d[6..]) == 0x917E;
    assert NativeSum(d[4..]) == 0x13A3E;
    assert NativeSum(d[2..]) == 0x13C3F;
  }

  // ----- the datagram ------------------------------------------------------------------------

  /** The IP packet udp_send puts at offset 22: total length 28 + payload, protocol UDP,
      addresses in network order, then the segment sealed with the once-folded sum. */
  function Datagram(id: Word, local: Longword, dstIp: Longword, port: Word, payload: seq<Byte>): (r: seq<Byte>)
    requires |payload| <= MAX_PAYLOAD
    ensures |r| == UDP_PACKET + |payload|
  {
    SealedHeader(UDP_TTL, UDP_PACKET + |payload|, id, PROTOCOL_UDP, BeBytes32(local), BeBytes32(dstIp))
      + SegmentAsWritten(BeBytes32(local), BeBytes32(dstIp), port, payload)
  }

  /** The UDP header and payload stores of udp_send at offset 42: the ports and the length
      as rev_word, the data cleared and then copied, the checksum zeroed. */
  method WriteSegment(tx: array<Byte>, port: Word, message: seq<Byte>, payloadlen: Word)
    requires tx.Length == BUFFER_SIZE && payloadlen <= |message| && payloadlen <= MAX_PAYLOAD
    modifies tx
    ensures tx[..] == Splice(old(tx[..]), TX_PAYLOAD + IP_HEADER, Unsealed(port, message[..payloadlen]))
  {
    ghost var t0 := tx[..];
    PutSwapped(tx, 42, port);
    PutSwapped(tx, 44, port);
    PutSwapped(tx, 46, UDP_HEADER + payloadlen);
    ghost var t1 := tx[..];
    var i := 0;
    while i < payloadlen
      invariant 0 <= i <= payloadlen
      invariant forall k :: 0 <= k < BUFFER_SIZE && !(50 <= k < 50 + payloadlen) ==> tx[k] == t1[k]
      invariant forall k :: 50 <= k < 50 + i ==> tx[k] == 0
    {
      tx[50 + i] := 0;
      i := i + 1;
    }
    i := 0;
    while i < payloadlen
      invariant 0 <= i <= payloadlen
      invariant forall k :: 0 <= k < BUFFER_SIZE && !(50 <= k < 50 + payloadlen) ==> tx[k] == t1[k]
      invariant forall k :: 50 <= k < 50 + i ==> tx[k] == message[k - 50]
    {
      tx[50 + i] := message[i];
      i := i + 1;
    }
    Put(tx, 48, LeBytes16(0));
    ghost var want := Splice(t0, 42, Unsealed(port, message[..payloadlen]));
    forall k | 0 <= k < BUFFER_SIZE
      ensures tx[k] == want[k]
    {
      if 50 <= k < 50 + payloadlen {
        assert want[k] == message[..payloadlen][k - 50];
      }
    }
    assert tx[..] == want;
  }

  /** `udp_checksum = 0; udp_checksum = ~udp_checksum(...)` over the segment of port and
      payload already in place after the addresses src and dst: the complement, cut to a
      Word, of the once-folded sum. */
  method SealSegment(tx: array<Byte>, payloadlen: nat, ghost t: seq<Byte>, ghost src: seq<Byte>,
                     ghost dst: seq<Byte>, ghost port: Word, ghost payload: seq<Byte>)
    requires tx.Length == BUFFER_SIZE && |t| == BUFFER_SIZE && |src| == 4 && |dst| == 4
    requires |payload| == payloadlen <= MAX_PAYLOAD
    requires t[34..38] == src && t[38..42] == dst
    requires tx[..] == Splice(t, 42, Unsealed(port, payload))
    modifies tx
    ensures tx[..] == Splice(t, 42, SegmentAsWritten(src, dst, port, payload))
  {
    ghost var u := Unsealed(port, payload);
    ghost var t1 := tx[..];
    SumInPlace(t1, t, src, dst, u);
    var sum := PseudoSum(tx, payloadlen, PROTOCOL_UDP);
    assert sum == SegmentSum(src, dst, u);
    var c := 0xFFFF - FoldOnce(sum);
    assert WithChecksum(u, c) == SegmentAsWritten(src, dst, port, payload);
    Put(tx, 48, LeBytes16(c));
    ChecksumInPlace(t, t1, u, c);
  }

  /** The bytes udp_checksum reads are the addresses and the segment. */
  lemma SumInPlace(t1: seq<Byte>, t: seq<Byte>, src: seq<Byte>, dst: seq<Byte>, u: seq<Byte>)
    requires |t| == BUFFER_SIZE && |src| == 4 && |dst| == 4 && UDP_HEADER <= |u| && 42 + |u| <= BUFFER_SIZE
    requires t[34..38] == src && t[38..42] == dst && t1 == Splice(t, 42, u)
    ensures NativeSum(t1[34..42 + |u|]) + PROTOCOL_UDP * 0x100 + Le16(t1, 46) == SegmentSum(src, dst, u)
  {
    assert t1[34..42 + |u|] == src + dst + u;
    Field16Within(t1, 42, u, 4);
  }

  /** Storing c at offset 48 over a segment spliced at 42 splices the segment with c. */
  lemma ChecksumInPlace(t: seq<Byte>, t1: seq<Byte>, u: seq<Byte>, c: Word)
    requires |t| == BUFFER_SIZE && UDP_HEADER <= |u| && 42 + |u| <= BUFFER_SIZE && t1 == Splice(t, 42, u)
    ensures Splice(t1, 48, LeBytes16(c)) == Splice(t, 42, WithChecksum(u, c))
  {
  }

  /** The IP header at 22 and the segment at 42 make up the datagram at 22. */
  lemma DatagramJoined(t0: seq<Byte>, id: Word, local: Longword, dstIp: Longword, port: Word, payload: seq<Byte>)
    requires |t0| == BUFFER_SIZE && |payload| <= MAX_PAYLOAD
    ensures var src, dst := BeBytes32(local), BeBytes32(dstIp);
      Splice(Splice(t0, TX_PAYLOAD, SealedHeader(UDP_TTL, UDP_PACKET + |payload|, id, PROTOCOL_UDP, src, dst)),
             TX_PAYLOAD + IP_HEADER, SegmentAsWritten(src, dst, port, payload))
      == Splice(t0, TX_PAYLOAD, Datagram(id, local, dstIp, port, payload))
  {
    var src, dst := BeBytes32(local), BeBytes32(dstIp);
    SpliceJoin(t0, TX_PAYLOAD, SealedHeader(UDP_TTL, UDP_PACKET + |payload|, id, PROTOCOL_UDP, src, dst),
               SegmentAsWritten(src, dst, port, payload));
  }

  /** What a sender's trace records: one frame more, the datagram to mac. */
  ghost predicate Sent(wire: seq<seq<Byte>>, w0: seq<seq<Byte>>, mac: Mac, id: Word, local: Longword,
                       dstIp: Longword, port: Word, payload: seq<Byte>)
    requires |payload| <= MAX_PAYLOAD
  {
    && |wire| == |w0| + 1 && wire[..|w0|] == w0
    && forall i | |w0| <= i < |wire| :: wire[i] == FrameOf(mac, SwapBytes(PROTOCOL_IP), Datagram(id, local, dstIp, port, payload))
  }

  // ----- the receiver's filter ---------------------------------------------------------------

  /** The test of udp_receive on a packet at offset 14: protocol UDP, destination port
      portno, destination address local. */
  predicate Addressed(rx: seq<Byte>, local: Longword, portno: Word)
  {
    && Be16(rx, 22) % 0x100 == PROTOCOL_UDP
    && Be16(rx, 36) == portno
    && Be32(rx, 30) == local
  }

  /** The payload length the UDP length field announces, in 16-bit arithmetic. */
  function AnnouncedLength(rx: seq<Byte>): Word
  {
    Wrap16(Be16(rx, 38) - UDP_HEADER)
  }

  /** What udp_receive returns: for a datagram addressed to it, the announced length cut to
      maxlen; otherwise 0. */
  function ReceivedLength(rx: seq<Byte>, local: Longword, portno: Word, maxlen: Word): (n: Word)
    ensures n <= maxlen && (n > 0 ==> Addressed(rx, local, portno))
    ensures Addressed(rx, local, portno) && AnnouncedLength(rx) <= maxlen ==> n == AnnouncedLength(rx)
    ensures Addressed(rx, local, portno) && AnnouncedLength(rx) > maxlen ==> n == maxlen
  {
    if !Addressed(rx, local, portno) then 0
    else if AnnouncedLength(rx) > maxlen then maxlen
    else AnnouncedLength(rx)
  }

  /** What a receiver reads from a datagram at offset 14 of its buffer: it is addressed
      to dstIp and port, announces the payload's length, carries the payload at 42; the IP
      checksum verifies, the UDP checksum exactly when its sum's halves do not carry. */
  lemma DatagramDecode(r: seq<Byte>, id: Word, local: Longword, dstIp: Longword, port: Word, payload: seq<Byte>)
    requires |payload| <= MAX_PAYLOAD && ETH_HEADER + UDP_PACKET + |payload| <= |r|
    requires r[ETH_HEADER..ETH_HEADER + UDP_PACKET + |payload|] == Datagram(id, local, dstIp, port, payload)
    ensures Addressed(r, dstIp, port) && AnnouncedLength(r) == |payload|
    ensures Window(r, ETH_HEADER + UDP_PACKET, |payload|) == payload
    ensures r[26..30] == BeBytes32(local) && r[30..34] == BeBytes32(dstIp)
    ensures Fold(WordSum(r[14..34])) == 0xFFFF
    ensures ChecksumVerifies(r[26..30], r[30..34], r[34..42 + |payload|])
        <==> !HalvesCarry(SegmentSum(BeBytes32(local), BeBytes32(dstIp), Unsealed(port, payload)))
  {
    var src, dst := BeBytes32(local), BeBytes32(dstIp);
    var d := Datagram(id, local, dstIp, port, payload);
    SliceWithin(r, ETH_HEADER, d);
    assert r[14..34] == d[..20];
    assert r[34..42 + |payload|] == d[20..];
    HeaderDecode(r, UDP_PACKET + |payload|, id, src, dst);
    Be32At(r, 30, dstIp);
    SegmentDecode(r, src, dst, port, payload);
  }

  /** The IP header of a datagram at 14: protocol UDP, the addresses, a valid checksum. */
  lemma HeaderDecode(r: seq<Byte>, length: Word, id: Word, src: seq<Byte>, dst: seq<Byte>)
    requires |src| == 4 && |dst| == 4 && 34 <= |r| && r[14..34] == SealedHeader(UDP_TTL, length, id, PROTOCOL_UDP, src, dst)
    ensures Be16(r, 22) % 0x100 == PROTOCOL_UDP && r[26..30] == src && r[30..34] == dst
    ensures Fold(WordSum(r[14..34])) == 0xFFFF
  {
    var h := SealedHeader(UDP_TTL, length, id, PROTOCOL_UDP, src, dst);
    SealedHeaderFields(UDP_TTL, length, id, PROTOCOL_UDP, src, dst);
    Field16Within(r, 14, h, 8);
    SliceWithin(r, 14, h);
  }

  /** The segment of a datagram at 34: the port, the length, the payload, and a checksum
      that verifies exactly when the sum's halves do not carry. */
  lemma SegmentDecode(r: seq<Byte>, src: seq<Byte>, dst: seq<Byte>, port: Word, payload: seq<Byte>)
    requires |src| == 4 && |dst| == 4 && |payload| <= MAX_PAYLOAD && 42 + |payload| <= |r|
    requires r[34..42 + |payload|] == SegmentAsWritten(src, dst, port, payload)
    requires r[26..30] == src && r[30..34] == dst
    ensures Be16(r, 36) == port && AnnouncedLength(r) == |payload|
    ensures Window(r, ETH_HEADER + UDP_PACKET, |payload|) == payload
    ensures ChecksumVerifies(r[26..30], r[30..34], r[34..42 + |payload|])
        <==> !HalvesCarry(SegmentSum(src, dst, Unsealed(port, payload)))
  {
    var seg := SegmentAsWritten(src, dst, port, payload);
    UnsealedFields(port, payload, 0xFFFF - FoldOnce(SegmentSum(src, dst, Unsealed(port, payload))));
    AsWrittenVerifiesIff(src, dst, port, payload);
    Field16Within(r, 34, seg, 2);
    Field16Within(r, 34, seg, 4);
    SliceWithin(r, 34, seg);
    forall i | 0 <= i < |payload|
      ensures Window(r, 42, |payload|)[i] == payload[i]
    {
      assert r[42 + i] == seg[8..][i];
    }
  }

  /** The frame udp_send puts on the wire, delivered to the host dstIp: its driver accepts
      it exactly when the MAC passes, it is an IP packet, udp_receive on port takes it and
      returns the payload cut to maxlen; the IP checksum verifies, and the UDP checksum
      does exactly when its sum's halves do not carry. */
  lemma DatagramReachesPeer(rx: seq<Byte>, f: seq<Byte>, mac: Mac, id: Word, local: Longword, dstIp: Longword,
                            port: Word, payload: seq<Byte>, maxlen: Word)
    requires |rx| == BUFFER_SIZE && |payload| <= ETH_MTU - 18 - UDP_PACKET
    requires f == FrameOf(mac, SwapBytes(PROTOCOL_IP), Datagram(id, local, dstIp, port, payload))[8..]
    ensures var r := Delivered(rx, Some(f));
      && Arrived(Some(f)) && (MacAccepted(r[..6]) <==> MacAccepted(mac))
      && Be16(r, 12) == PROTOCOL_IP && Addressed(r, dstIp, port)
      && ReceivedLength(r, dstIp, port, maxlen) == (if |payload| <= maxlen then |payload| else maxlen)
      && Window(r, ETH_HEADER + UDP_PACKET, |payload|) == payload
      && Fold(WordSum(r[14..34])) == 0xFFFF
      && (ChecksumVerifies(r[26..30], r[30..34], r[34..42 + |payload|])
          <==> !HalvesCarry(SegmentSum(BeBytes32(local), BeBytes32(dstIp), Unsealed(port, payload))))
  {
    var d := Datagram(id, local, dstIp, port, payload);
    var r := Delivered(rx, Some(f));
    FrameArrives(rx, mac, SwapBytes(PROTOCOL_IP), d);
    CheckPacketIsNetworkOrder(r, PROTOCOL_IP);
    DatagramDecode(r, id, local, dstIp, port, payload);
  }

  // ----- the protocol's state ----------------------------------------------------------------

  /** The state of TINYUDP.C over the driver: the counter nMessage. */
  class UdpLayer {
    const nic: Nic
    /** nMessage: the identification of the next datagram sent */
    var nMessage: Word

    ghost predicate Valid()
      reads this, nic, nic.env
    {
      nic.Valid()
    }

    constructor (nic: Nic)
      requires nic.Valid()
      ensures Valid() && this.nic == nic && nMessage == 0
    {
      this.nic := nic;
      nMessage := 0;
    }

    /** udp_send up to sed_Send: the frame header, the IP header with identification
        nMessage, the segment and its checksum. */
    method WriteDatagram(dstIp: Longword, port: Word, message: seq<Byte>, payloadlen: Word)
      requires Valid() && payloadlen <= |message| && payloadlen <= MAX_PAYLOAD
      modifies this, nic.tx
      ensures Valid()
      ensures nic.tx[..] == Splice(Splice(old(nic.tx[..]), 0, FrameHeader(nic.theirMac, SwapBytes(PROTOCOL_IP))),
                                   TX_PAYLOAD, Datagram(old(nMessage), nic.localIp, dstIp, port, message[..payloadlen]))
      ensures nMessage == Wrap16(old(nMessage) + 1)
    {
      var off := nic.FormatPacket(nic.theirMac, SwapBytes(PROTOCOL_IP));
      ghost var t0 := nic.tx[..];
      var id := nMessage;
      nMessage := Wrap16(nMessage + 1);
      NativeStoreOfSwapWords(nic.localIp);
      NativeStoreOfSwapWords(dstIp);
      ghost var src, dst := BeBytes32(nic.localIp), BeBytes32(dstIp);
      WriteIpHeader(nic.tx, UDP_TTL, UDP_PACKET + payloadlen, id, PROTOCOL_UDP,
                    LeBytes32(SwapWords(nic.localIp)), LeBytes32(SwapWords(dstIp)));
      ghost var t1 := nic.tx[..];
      HeaderAddresses(t0, UDP_TTL, UDP_PACKET + payloadlen, id, PROTOCOL_UDP, src, dst);
      WriteSegment(nic.tx, port, message, payloadlen);
      SealSegment(nic.tx, payloadlen, t1, src, dst, port, message[..payloadlen]);
      DatagramJoined(t0, id, nic.localIp, dstIp, port, message[..payloadlen]);
    }

    /** udp_send: the datagram goes out in one frame to their_ethernet_address. */
    method Send(dstIp: Longword, port: Word, message: seq<Byte>, payloadlen: Word)
      requires Valid() && payloadlen <= |message| && payloadlen <= MAX_PAYLOAD
      modifies this, nic.tx, nic.env
      ensures Valid()
      ensures nMessage == Wrap16(old(nMessage) + 1)
      ensures Sent(nic.env.wire, old(nic.env.wire), old(nic.theirMac), old(nMessage), nic.localIp,
                   dstIp, port, message[..payloadlen])
      ensures nic.env.ticks == old(nic.env.ticks) && nic.env.polls == old(nic.env.polls)
    {
      ghost var tx0 := nic.tx[..];
      ghost var id := nMessage;
      WriteDatagram(dstIp, port, message, payloadlen);
      ghost var p := Datagram(id, nic.localIp, dstIp, port, message[..payloadlen]);
      ghost var w0 := nic.env.wire;
      SendIp(nic, tx0, nic.theirMac, p, UDP_PACKET + payloadlen);
      assert nic.env.wire[|w0|] == FrameOf(nic.theirMac, SwapBytes(PROTOCOL_IP), p);
    }

    /** udp_receive on the packet at offset 14 of the receive buffer: a datagram for this
        host and portno has its payload copied to msg, as many bytes as the length field
        announces but at most maxlen; anything else leaves msg alone. */
    method Receive(portno: Word, msg: array<Byte>, maxlen: Word) returns (n: Word)
      requires Valid() && maxlen <= msg.Length && msg != nic.rx
      modifies msg
      ensures n == ReceivedLength(nic.rx[..], nic.localIp, portno, maxlen)
      ensures msg[..] == Splice(old(msg[..]), 0, Window(nic.rx[..], ETH_HEADER + UDP_PACKET, n))
    {
      var rx := nic.rx;
      var protocol := Be16(rx[..], 22) % 0x100;
      var rcvIp := Be32(rx[..], 30);
      var rcvPort := Be16(rx[..], 36);
      var udpLen := Wrap16(Be16(rx[..], 38) - UDP_HEADER);
      if protocol == PROTOCOL_UDP && rcvPort == portno && rcvIp == nic.localIp {
        if udpLen > maxlen {
          udpLen := maxlen;
        }
        Put(msg, 0, Window(rx[..], ETH_HEADER + UDP_PACKET, udpLen));
      } else {
        udpLen := 0;
        assert Splice(msg[..], 0, []) == msg[..];
      }
      n := udpLen;
    }
  }
}

/**
 * The IP header the senders of TINYICMP.c, TINYUDP.C and TINYTCP.C build in
 * the transmit buffer (RFC 791): version 4, header length 5, type of service
 * 0, no fragmentation, and the header checksum of RFC 1071 computed with the
 * field zeroed and stored as rev_word of its complement. The header starts at
 * offset 22, right after preamble, SFD and Ethernet header.
 */
module Ip {
  import opened Wire
  import opened InetChecksum
  import opened Ethernet

  /** the ttlProtocol word: time to live in the high byte, protocol in the low one */
  function TtlProtocol(ttl: Byte, p: Byte): Word { ttl * 0x100 + p }

  /** A header whose checksum word at k is the complement of the folded sum of the header
      with that word zeroed: what `checksum = 0; checksum = rev_word(~checksum(...))` leaves. */
  function Seal(h: seq<Byte>, k: nat): (r: seq<Byte>)
    requires k + 2 <= |h|
    ensures |r| == |h|
  {
    h[..k] + BeBytes16(0xFFFF - Fold(WordSum(h[..k] + BeBytes16(0) + h[k + 2..]))) + h[k + 2..]
  }

  /** A sealed header verifies: the receiver's folded sum over it is 0xFFFF. */
  lemma SealVerifies(h: seq<Byte>, k: nat)
    requires k + 2 <= |h| && k % 2 == 0
    ensures Fold(WordSum(Seal(h, k))) == 0xFFFF
  {
    StoredComplementVerifies(0, h[..k], h[k + 2..]);
  }

  /** The IP header before its checksum is computed. */
  function IpHeader(ttl: Byte, length: Word, id: Word, protocol: Byte, src: seq<Byte>, dst: seq<Byte>): (r: seq<Byte>)
    requires |src| == 4 && |dst| == 4
    ensures |r| == IP_HEADER
  {
    BeBytes16(IPVERTOS) + BeBytes16(length) + BeBytes16(id) + BeBytes16(0)
    + BeBytes16(TtlProtocol(ttl, protocol)) + BeBytes16(0) + src + dst
  }

  /** The header as sent: sealed at its checksum word. */
  function SealedHeader(ttl: Byte, length: Word, id: Word, protocol: Byte, src: seq<Byte>, dst: seq<Byte>): (r: seq<Byte>)
    requires |src| == 4 && |dst| == 4
    ensures |r| == IP_HEADER
  {
    Seal(IpHeader(ttl, length, id, protocol, src, dst), 10)
  }

  /** What a receiver reads from a sealed header: the fields it was built from, and a
      checksum that verifies. */
  lemma SealedHeaderFields(ttl: Byte, length: Word, id: Word, protocol: Byte, src: seq<Byte>, dst: seq<Byte>)
    requires |src| == 4 && |dst| == 4
    ensures var h := SealedHeader(ttl, length, id, protocol, src, dst);
      && Be16(h, 0) == IPVERTOS && Be16(h, 2) == length && Be16(h, 4) == id
      && Be16(h, 8) == TtlProtocol(ttl, protocol) && Be16(h, 8) % 0x100 == protocol && h[12..16] == src && h[16..20] == dst
      && Fold(WordSum(h)) == 0xFFFF
  {
    var u := IpHeader(ttl, length, id, protocol, src, dst);
    var h := SealedHeader(ttl, length, id, protocol, src, dst);
    SealVerifies(u, 10);
    forall i | 0 <= i < IP_HEADER && (i < 10 || i >= 12)
      ensures h[i] == u[i]
    {
    }
    assert u[0] == Hi(IPVERTOS) && u[1] == Lo(IPVERTOS);
    assert u[2] == Hi(length) && u[3] == Lo(length) && u[4] == Hi(id) && u[5] == Lo(id);
    assert u[8] == Hi(TtlProtocol(ttl, protocol)) && u[9] == Lo(TtlProtocol(ttl, protocol));
    assert u[12..16] == src && u[16..20] == dst;
    assert h[12..16] == u[12..16] && h[16..20] == u[16..20];
  }

  /** The checksum over n bytes of a buffer from off, when they lie inside it. */
  lemma ChecksumOfSlice(buf: seq<Byte>, off: nat, n: nat)
    requires off + n <= |buf|
    ensures Checksum(buf, off, n) == Fold(WordSum(buf[off..off + n]))
  {
    assert LChecksumBytes(buf, off, n) == buf[off..off + n];
  }

  /** The IP header stores of the senders at offset 22: the fields as rev_word or as the
      address bytes given, the checksum zeroed and then sealed. */
  method WriteIpHeader(tx: array<Byte>, ttl: Byte, length: Word, id: Word, protocol: Byte, src: seq<Byte>, dst: seq<Byte>)
    requires tx.Length == BUFFER_SIZE && |src| == 4 && |dst| == 4
    modifies tx
    ensures tx[..] == Splice(old(tx[..]), TX_PAYLOAD, SealedHeader(ttl, length, id, protocol, src, dst))
  {
    ghost var t0 := tx[..];
    PutSwapped(tx, 22, IPVERTOS);
    PutSwapped(tx, 24, length);
    PutSwapped(tx, 26, id);
    Put(tx, 28, LeBytes16(0));
    PutSwapped(tx, 30, TtlProtocol(ttl, protocol));
    Put(tx, 34, src);
    Put(tx, 38, dst);
    Put(tx, 32, LeBytes16(0));
    IpHeaderWritten(t0, tx[..], ttl, length, id, protocol, src, dst);
    SealAt(tx, t0, TX_PAYLOAD, IpHeader(ttl, length, id, protocol, src, dst), IP_HEADER, 10);
  }

  lemma IpHeaderWritten(t0: seq<Byte>, t: seq<Byte>, ttl: Byte, length: Word, id: Word, protocol: Byte, src: seq<Byte>, dst: seq<Byte>)
    requires |t0| == BUFFER_SIZE && |src| == 4 && |dst| == 4
    requires t == Splice(Splice(Splice(Splice(Splice(Splice(Splice(Splice(t0,
      22, BeBytes16(IPVERTOS)), 24, BeBytes16(length)), 26, BeBytes16(id)), 28, LeBytes16(0)),
      30, BeBytes16(TtlProtocol(ttl, protocol))), 34, src), 38, dst), 32, LeBytes16(0))
    ensures t == Splice(t0, TX_PAYLOAD, IpHeader(ttl, length, id, protocol, src, dst))
  {
    var want := Splice(t0, TX_PAYLOAD, IpHeader(ttl, length, id, protocol, src, dst));
    forall k | 0 <= k < BUFFER_SIZE
      ensures t[k] == want[k]
    {
    }
  }

  /** `checksum = 0; checksum = rev_word(~checksum(header))` over a header already in place. */
  method SealAt(tx: array<Byte>, ghost t0: seq<Byte>, off: nat, ghost h: seq<Byte>, n: nat, k: nat)
    requires n == |h| && tx.Length == BUFFER_SIZE && k + 2 <= |h| && off + |h| <= BUFFER_SIZE && |t0| == BUFFER_SIZE
    requires h[k..k + 2] == BeBytes16(0) && tx[..] == Splice(t0, off, h)
    modifies tx
    ensures tx[..] == Splice(t0, off, Seal(h, k))
  {
    ghost var t := tx[..];
    assert t[off..off + n] == h;
    ChecksumOfSlice(t, off, n);
    var c := Checksum(tx[..], off, n);
    var w := 0xFFFF - c;
    PutSwapped(tx, off + k, w);
    SealWritten(t0, off, h, k, w);
  }

  /** The addresses of a sealed IP header spliced at 22 sit at 34 and 38. */
  lemma HeaderAddresses(t0: seq<Byte>, ttl: Byte, length: Word, id: Word, protocol: Byte, src: seq<Byte>, dst: seq<Byte>)
    requires |t0| == BUFFER_SIZE && |src| == 4 && |dst| == 4
    ensures var t := Splice(t0, TX_PAYLOAD, SealedHeader(ttl, length, id, protocol, src, dst));
      t[34..38] == src && t[38..42] == dst
  {
    var h := SealedHeader(ttl, length, id, protocol, src, dst);
    var t := Splice(t0, TX_PAYLOAD, h);
    SealedHeaderFields(ttl, length, id, protocol, src, dst);
    SliceWithin(t, TX_PAYLOAD, h);
  }

  /** Storing the complemented checksum of an unsealed header at off + k seals it. */
  lemma SealWritten(t0: seq<Byte>, off: nat, h: seq<Byte>, k: nat, w: Word)
    requires |t0| == BUFFER_SIZE && k + 2 <= |h| && off + |h| <= BUFFER_SIZE
    requires h[k..k + 2] == BeBytes16(0) && w == 0xFFFF - Fold(WordSum(h))
    ensures Splice(Splice(t0, off, h), off + k, BeBytes16(w)) == Splice(t0, off, Seal(h, k))
  {
    assert h == h[..k] + h[k..k + 2] + h[k + 2..];
    SpliceOver(t0, off, h, k, BeBytes16(w));
  }

  /** The frame the transmit buffer holds after sed_FormatPacket(dst, type IP) and the
      packet stores, as sed_Send puts it on the wire; the packet stays in the buffer. */
  lemma PacketSent(tx0: seq<Byte>, dst: Mac, p: seq<Byte>)
    requires |tx0| == BUFFER_SIZE && |p| <= BUFFER_SIZE - 26
    ensures var t := Splice(Splice(tx0, 0, FrameHeader(dst, SwapBytes(PROTOCOL_IP))), TX_PAYLOAD, p);
      && SendBuffer(t, |p|)[..FrameLength(|p|) + 12] == FrameOf(dst, SwapBytes(PROTOCOL_IP), p)
      && SendBuffer(t, |p|)[TX_PAYLOAD..TX_PAYLOAD + |p|] == p
  {
    var t := Splice(Splice(tx0, 0, FrameHeader(dst, SwapBytes(PROTOCOL_IP))), TX_PAYLOAD, p);
    assert t[..TX_PAYLOAD] == FrameHeader(dst, SwapBytes(PROTOCOL_IP));
    SentFrameIsFrameOf(t, dst, SwapBytes(PROTOCOL_IP), p);
    SendKeepsPayload(t, |p|);
  }

  /** sed_Send of the IP packet p the transmit buffer holds behind a frame header to dst:
      exactly that frame goes on the wire, and the packet stays in the buffer. */
  method SendIp(nic: Nic, ghost tx0: seq<Byte>, dst: Mac, ghost p: seq<Byte>, len: nat)
    requires nic.Valid() && |tx0| == BUFFER_SIZE && |p| == len <= BUFFER_SIZE - 26
    requires nic.tx[..] == Splice(Splice(tx0, 0, FrameHeader(dst, SwapBytes(PROTOCOL_IP))), TX_PAYLOAD, p)
    modifies nic.tx, nic.env`wire
    ensures nic.tx[..] == SendBuffer(old(nic.tx[..]), len) && nic.tx[TX_PAYLOAD..TX_PAYLOAD + len] == p
    ensures nic.env.wire == old(nic.env.wire) + [FrameOf(dst, SwapBytes(PROTOCOL_IP), p)]
    ensures nic.env.ticks == old(nic.env.ticks) && nic.env.polls == old(nic.env.polls)
  {
    PacketSent(tx0, dst, p);
    var ok := nic.Send(len);
  }
}

/**
 * The segment tcp_Send (TINYTCP.C) builds in the transmit buffer, and the
 * fields tcp_Handler and tcp_ProcessData read out of a received one
 * (RFC 793 section 3.1).
 *
 * tcp_Send writes the TCP header at offset 42: both ports, sequence and
 * acknowledgement number, the flags word with a data offset of five dwords
 * (six on a SYN), a window of 1024, checksum and urgent pointer zeroed. A SYN
 * carries the maximum-segment-size option and no data; any other segment
 * carries the socket's buffered data. Then the IP header goes in at 22 (TTL
 * 200, protocol 6). The checksum is RFC 1071's over the pseudo header and the
 * segment: the pseudo-header sum is folded first, the segment's sum added and
 * folded again, and the complement stored big-endian. Folding in two stages
 * gives the same word as folding once, so the receiver's test for 0xFFFF
 * passes.
 */
module TcpSegment {
  import opened Wire
  import opened InetChecksum
  import opened Ethernet
  import opened Ip

  /** the time to live of tcp_Send's packets */
  const TCP_TTL: Byte := 200
  /** the receive window tcp_Send always offers */
  const WINDOW: Word := 1024
  /** the option a SYN carries: kind 2, length 4, maximum segment size 1400 */
  const MSS_OPTION: Longword := 0x02040578
  /** sizeof(struct in_Header) + sizeof(struct tcp_Header) */
  const TCP_PACKET: nat := 40
  /** where the TCP header starts in the transmit buffer */
  const TX_SEGMENT: nat := 42
  /** the data offset of five dwords, as it sits in the flags word */
  const OFFSET_FIVE: Word := 0x5000

  // ----- the segment as sent -------------------------------------------------------------

  /** The flags word as sent: the socket's flags with a data offset of five dwords, one
      more on a SYN, which carries the option. */
  function FlagsField(flags: Word): Word
  {
    var f := Or16(flags, OFFSET_FIVE);
    if HasFlag(flags, TCPF_SYN) then Wrap16(f + 0x1000) else f
  }

  /** What follows the header: the option on a SYN, the data otherwise. */
  function Body(flags: Word, data: seq<Byte>): seq<Byte>
  {
    if HasFlag(flags, TCPF_SYN) then BeBytes32(MSS_OPTION) else data
  }

  /** The 20-byte header with flags word f and a zero checksum. */
  function Header(myPort: Word, hisPort: Word, seqnum: Longword, acknum: Longword, f: Word): (r: seq<Byte>)
    ensures |r| == TCP_HEADER
  {
    BeBytes16(myPort) + BeBytes16(hisPort) + BeBytes32(seqnum) + BeBytes32(acknum)
    + BeBytes16(f) + BeBytes16(WINDOW) + BeBytes16(0) + BeBytes16(0)
  }

  /** The segment as tcp_Send has stored it before the checksum: the header, then the body. */
  function Unsealed(myPort: Word, hisPort: Word, seqnum: Longword, acknum: Longword, flags: Word,
                    data: seq<Byte>): (r: seq<Byte>)
    ensures |r| == TCP_HEADER + |Body(flags, data)|
  {
    Header(myPort, hisPort, seqnum, acknum, FlagsField(flags)) + Body(flags, data)
  }

  /** struct tcp_Pseudoheader without its trailing checksum word: the 12 bytes summed */
  function PseudoHeader(src: seq<Byte>, dst: seq<Byte>, length: Word): (r: seq<Byte>)
    requires |src| == 4 && |dst| == 4
    ensures |r| == 12
  {
    src + dst + [0, PROTOCOL_TCP] + BeBytes16(length)
  }

  /** The word tcp_Send stores as the checksum: the pseudo-header sum folded, the segment's
      sum added and folded again, complemented. */
  function SegmentChecksum(src: seq<Byte>, dst: seq<Byte>, u: seq<Byte>): Word
    requires |src| == 4 && |dst| == 4 && |u| < 0x1_0000
  {
    0xFFFF - Fold(Fold(WordSum(PseudoHeader(src, dst, |u|))) + WordSum(u))
  }

  /** The segment with its checksum stored. */
  function Sealed(src: seq<Byte>, dst: seq<Byte>, u: seq<Byte>): (r: seq<Byte>)
    requires |src| == 4 && |dst| == 4 && TCP_HEADER <= |u| < 0x1_0000
    ensures |r| == |u|
  {
    u[..16] + BeBytes16(SegmentChecksum(src, dst, u)) + u[18..]
  }

  /** The IP packet tcp_Send puts at offset 22, u being the unsealed segment. */
  function Packet(id: Word, local: Longword, hisAddr: Longword, u: seq<Byte>): (r: seq<Byte>)
    requires TCP_HEADER <= |u| <= TCP_HEADER + TCP_MAXDATA
    ensures |r| == IP_HEADER + |u|
  {
    var src, dst := BeBytes32(local), BeBytes32(hisAddr);
    SealedHeader(TCP_TTL, IP_HEADER + |u|, id, PROTOCOL_TCP, src, dst) + Sealed(src, dst, u)
  }

  /** For flags below the data-offset bits, the flags word sent keeps them and announces
      five dwords of header, six on a SYN. */
  lemma FlagsFieldLayout(flags: Word)
    requires flags < 0x1000
    ensures FlagsField(flags) % 0x1000 == flags
    ensures TcpDataOffset(FlagsField(flags)) == if HasFlag(flags, TCPF_SYN) then 6 else 5
  {
    FlagsFieldSum(flags);
    if HasFlag(flags, TCPF_SYN) {
      assert (flags + 0x6000) % 0x1000 == flags && (flags + 0x6000) / 0x1000 == 6;
    } else {
      assert (flags + 0x5000) % 0x1000 == flags && (flags + 0x5000) / 0x1000 == 5;
    }
  }

  /** The offset bits land above the flags without carrying into them. */
  lemma FlagsFieldSum(flags: Word)
    requires flags < 0x1000
    ensures FlagsField(flags) == flags + if HasFlag(flags, TCPF_SYN) then 0x6000 else 0x5000
  {
    Pow2Values();
    OrDisjoint(flags, 5, 12);
    assert Or16(flags, OFFSET_FIVE) == flags + 0x5000;
  }

  // ----- the receiver's checksum test ------------------------------------------------------

  /** The receiver's fold over pseudo header and segment, as tcp_Handler computes it. */
  function ReceivedSum(src: seq<Byte>, dst: seq<Byte>, s: seq<Byte>): Word
    requires |src| == 4 && |dst| == 4 && |s| < 0x1_0000
  {
    Fold(Fold(WordSum(PseudoHeader(src, dst, |s|))) + WordSum(s))
  }

  /** The checksum stored by tcp_Send makes the receiver's fold 0xFFFF, whatever the
      segment holds: folding in two stages is RFC 1071's fold. */
  lemma SealedVerifies(src: seq<Byte>, dst: seq<Byte>, u: seq<Byte>)
    requires |src| == 4 && |dst| == 4 && TCP_HEADER <= |u| < 0x1_0000 && u[16..18] == BeBytes16(0)
    ensures ReceivedSum(src, dst, Sealed(src, dst, u)) == 0xFFFF
  {
    var ph := PseudoHeader(src, dst, |u|);
    var s := Sealed(src, dst, u);
    var c := SegmentChecksum(src, dst, u);
    var pre, post := ph + u[..16], u[18..];
    SumInStages(ph, u);
    Regrouped(ph, u, 0);
    assert c == 0xFFFF - Fold(0 + WordSum(pre + BeBytes16(0) + post));
    StoredComplementVerifies(0, pre, post);
    assert s[..16] == u[..16] && s[16..18] == BeBytes16(c) && s[18..] == post;
    Regrouped(ph, s, c);
    assert ph + s == pre + BeBytes16(c) + post;
    SumInStages(ph, s);
  }

  /** The two-stage fold of tcp_Send and tcp_Handler is the fold of the whole sum. */
  lemma SumInStages(ph: seq<Byte>, s: seq<Byte>)
    requires |ph| % 2 == 0
    ensures Fold(Fold(WordSum(ph)) + WordSum(s)) == Fold(WordSum(ph + s))
  {
    FoldInStages(WordSum(ph), WordSum(s));
    WordSumAppend(ph, s);
  }

  /** A segment whose checksum word holds c, behind the pseudo header. */
  lemma Regrouped(ph: seq<Byte>, s: seq<Byte>, c: Word)
    requires 18 <= |s| && s[16..18] == BeBytes16(c)
    ensures ph + s == (ph + s[..16]) + BeBytes16(c) + s[18..]
  {
    assert s == s[..16] + s[16..18] + s[18..];
  }

  // ----- writing it ----------------------------------------------------------------------

  /** The TCP stores of tcp_Send at offset 42: ports, sequence and acknowledgement numbers
      as rev_word/rev_longword, the window, the flags word with the data offset, checksum
      and urgent pointer zeroed; then on a SYN the offset raised by one dword and the
      option, otherwise Move of the buffered data. */
  method WriteSegment(tx: array<Byte>, myPort: Word, hisPort: Word, seqnum: Longword, acknum: Longword,
                      flags: Word, data: seq<Byte>)
    requires tx.Length == BUFFER_SIZE && |data| <= TCP_MAXDATA
    modifies tx
    ensures tx[..] == Splice(old(tx[..]), TX_SEGMENT, Unsealed(myPort, hisPort, seqnum, acknum, flags, data))
  {
    ghost var t0 := tx[..];
    WriteHeader(tx, myPort, hisPort, seqnum, acknum, Or16(flags, OFFSET_FIVE));
    if HasFlag(flags, TCPF_SYN) {
      WriteSynOption(tx, t0, myPort, hisPort, seqnum, acknum, flags);
    } else {
      Put(tx, 62, data);
    }
    SpliceJoin(t0, TX_SEGMENT, Header(myPort, hisPort, seqnum, acknum, FlagsField(flags)), Body(flags, data));
  }

  /** The header stores of tcp_Send, with flags word f. */
  method WriteHeader(tx: array<Byte>, myPort: Word, hisPort: Word, seqnum: Longword, acknum: Longword, f: Word)
    requires tx.Length == BUFFER_SIZE
    modifies tx
    ensures tx[..] == Splice(old(tx[..]), TX_SEGMENT, Header(myPort, hisPort, seqnum, acknum, f))
  {
    ghost var t0 := tx[..];
    PutSwapped(tx, 42, myPort);
    PutSwapped(tx, 44, hisPort);
    PutSwappedLong(tx, 46, seqnum);
    PutSwappedLong(tx, 50, acknum);
    PutSwapped(tx, 56, WINDOW);
    PutSwapped(tx, 54, f);
    Put(tx, 58, LeBytes16(0));
    Put(tx, 60, LeBytes16(0));
    HeaderWritten(t0, tx[..], myPort, hisPort, seqnum, acknum, f);
  }

  /** On a SYN: the data offset raised by one dword and the MSS option stored. */
  method WriteSynOption(tx: array<Byte>, ghost t0: seq<Byte>, myPort: Word, hisPort: Word, seqnum: Longword,
                        acknum: Longword, flags: Word)
    requires tx.Length == BUFFER_SIZE && |t0| == BUFFER_SIZE && HasFlag(flags, TCPF_SYN)
    requires tx[..] == Splice(t0, TX_SEGMENT, Header(myPort, hisPort, seqnum, acknum, Or16(flags, OFFSET_FIVE)))
    modifies tx
    ensures tx[..] == Splice(Splice(t0, TX_SEGMENT, Header(myPort, hisPort, seqnum, acknum, FlagsField(flags))),
                             62, BeBytes32(MSS_OPTION))
  {
    FlagsAt(t0, myPort, hisPort, seqnum, acknum, Or16(flags, OFFSET_FIVE));
    var f: int := Be16(tx[..], 54);
    PutSwapped(tx, 54, Wrap16(f + 0x1000));
    FlagsRewritten(t0, myPort, hisPort, seqnum, acknum, f, Wrap16(f + 0x1000));
    PutSwappedLong(tx, 62, MSS_OPTION);
  }

  lemma HeaderWritten(t0: seq<Byte>, t: seq<Byte>, myPort: Word, hisPort: Word, seqnum: Longword,
                      acknum: Longword, f: Word)
    requires |t0| == BUFFER_SIZE
    requires t == Splice(Splice(Splice(Splice(Splice(Splice(Splice(Splice(t0,
      42, BeBytes16(myPort)), 44, BeBytes16(hisPort)), 46, BeBytes32(seqnum)), 50, BeBytes32(acknum)),
      56, BeBytes16(WINDOW)), 54, BeBytes16(f)), 58, LeBytes16(0)), 60, LeBytes16(0))
    ensures t == Splice(t0, TX_SEGMENT, Header(myPort, hisPort, seqnum, acknum, f))
  {
    var want := Splice(t0, TX_SEGMENT, Header(myPort, hisPort, seqnum, acknum, f));
    forall k | 0 <= k < BUFFER_SIZE
      ensures t[k] == want[k]
    {
    }
  }

  /** The flags word of a header in place reads back as stored. */
  lemma FlagsAt(t0: seq<Byte>, myPort: Word, hisPort: Word, seqnum: Longword, acknum: Longword, f: Word)
    requires |t0| == BUFFER_SIZE
    ensures Be16(Splice(t0, TX_SEGMENT, Header(myPort, hisPort, seqnum, acknum, f)), 54) == f
  {
    var t := Splice(t0, TX_SEGMENT, Header(myPort, hisPort, seqnum, acknum, f));
    assert t[54..56] == Header(myPort, hisPort, seqnum, acknum, f)[12..14];
    Be16At(t, 54, f);
  }

  /** Storing another flags word over a header in place gives the header with that word. */
  lemma FlagsRewritten(t0: seq<Byte>, myPort: Word, hisPort: Word, seqnum: Longword, acknum: Longword, f: Word, g: Word)
    requires |t0| == BUFFER_SIZE
    ensures Splice(Splice(t0, TX_SEGMENT, Header(myPort, hisPort, seqnum, acknum, f)), 54, BeBytes16(g))
         == Splice(t0, TX_SEGMENT, Header(myPort, hisPort, seqnum, acknum, g))
  {
    var a := Splice(Splice(t0, TX_SEGMENT, Header(myPort, hisPort, seqnum, acknum, f)), 54, BeBytes16(g));
    var b := Splice(t0, TX_SEGMENT, Header(myPort, hisPort, seqnum, acknum, g));
    forall k | 0 <= k < BUFFER_SIZE
      ensures a[k] == b[k]
    {
    }
  }

  /** The TCP checksum of tcp_Send over the segment of n bytes in place after the IP
      header: the pseudo header from the addresses there, its sum folded, the segment's
      sum added and folded again, the complement stored at 58. */
  method SealSegment(tx: array<Byte>, n: nat, ghost t: seq<Byte>, ghost src: seq<Byte>, ghost dst: seq<Byte>,
                     ghost u: seq<Byte>)
    requires tx.Length == BUFFER_SIZE && |t| == BUFFER_SIZE && |u| == n && |src| == 4 && |dst| == 4
    requires TCP_HEADER <= n <= TCP_HEADER + TCP_MAXDATA
    requires t[34..38] == src && t[38..42] == dst
    requires tx[..] == Splice(t, TX_SEGMENT, u)
    modifies tx
    ensures tx[..] == Splice(t, TX_SEGMENT, Sealed(src, dst, u))
  {
    var ph := tx[34..38] + tx[38..42] + [0, PROTOCOL_TCP] + BeBytes16(n);
    assert ph == PseudoHeader(src, dst, n);
    assert LChecksumBytes(ph, 0, 12) == ph;
    var lw := Fold(LChecksum(ph, 0, 12));
    assert LChecksumBytes(tx[..], TX_SEGMENT, n) == u;
    lw := Fold(lw + LChecksum(tx[..], TX_SEGMENT, n));
    var c := 0xFFFF - lw;
    assert u[..16] + BeBytes16(c) + u[18..] == Sealed(src, dst, u);
    PutSwapped(tx, 58, c);
    ChecksumStored(t, u, c);
  }

  /** Storing c at 58 over a segment spliced at 42 splices the segment holding c. */
  lemma ChecksumStored(t: seq<Byte>, u: seq<Byte>, c: Word)
    requires |t| == BUFFER_SIZE && TCP_HEADER <= |u| <= TCP_HEADER + TCP_MAXDATA
    ensures Splice(Splice(t, TX_SEGMENT, u), 58, BeBytes16(c)) == Splice(t, TX_SEGMENT, u[..16] + BeBytes16(c) + u[18..])
  {
    var a := Splice(Splice(t, TX_SEGMENT, u), 58, BeBytes16(c));
    var b := Splice(t, TX_SEGMENT, u[..16] + BeBytes16(c) + u[18..]);
    forall k | 0 <= k < BUFFER_SIZE
      ensures a[k] == b[k]
    {
    }
  }

  /** The IP header spliced at 22 holds the addresses at 34 and 38, does not overlap the
      segment at 42, and the two together are the packet. */
  lemma PacketJoined(t0: seq<Byte>, id: Word, local: Longword, hisAddr: Longword, u: seq<Byte>)
    requires |t0| == BUFFER_SIZE && TCP_HEADER <= |u| <= TCP_HEADER + TCP_MAXDATA
    ensures var src, dst := BeBytes32(local), BeBytes32(hisAddr);
      var t := Splice(t0, TX_PAYLOAD, SealedHeader(TCP_TTL, IP_HEADER + |u|, id, PROTOCOL_TCP, src, dst));
      && t[34..38] == src && t[38..42] == dst
      && Splice(Splice(t0, TX_SEGMENT, u), TX_PAYLOAD, SealedHeader(TCP_TTL, IP_HEADER + |u|, id, PROTOCOL_TCP, src, dst))
         == Splice(t, TX_SEGMENT, u)
      && Splice(t, TX_SEGMENT, Sealed(src, dst, u)) == Splice(t0, TX_PAYLOAD, Packet(id, local, hisAddr, u))
  {
    var src, dst := BeBytes32(local), BeBytes32(hisAddr);
    var h := SealedHeader(TCP_TTL, IP_HEADER + |u|, id, PROTOCOL_TCP, src, dst);
    HeaderAddresses(t0, TCP_TTL, IP_HEADER + |u|, id, PROTOCOL_TCP, src, dst);
    SpliceCommute(t0, TX_PAYLOAD, h, TX_SEGMENT, u);
    SpliceJoin(t0, TX_PAYLOAD, h, Sealed(src, dst, u));
  }

  /** tcp_Send's stores after sed_FormatPacket: the segment at 42, the IP header with
      identification id at 22, the TCP checksum; the IP total length is 40 plus the data,
      or 44 on a SYN, which carries the option instead. */
  method WritePacket(tx: array<Byte>, id: Word, local: Longword, hisAddr: Longword, myPort: Word, hisPort: Word,
                     seqnum: Longword, acknum: Longword, flags: Word, data: seq<Byte>)
    returns (length: nat)
    requires tx.Length == BUFFER_SIZE && |data| <= TCP_MAXDATA
    modifies tx
    ensures var u := Unsealed(myPort, hisPort, seqnum, acknum, flags, data);
      && length == IP_HEADER + |u|
      && tx[..] == Splice(old(tx[..]), TX_PAYLOAD, Packet(id, local, hisAddr, u))
  {
    ghost var t0 := tx[..];
    ghost var u := Unsealed(myPort, hisPort, seqnum, acknum, flags, data);
    ghost var src, dst := BeBytes32(local), BeBytes32(hisAddr);
    if HasFlag(flags, TCPF_SYN) {
      length := TCP_PACKET;
    } else {
      length := TCP_PACKET + |data|;
    }
    WriteSegment(tx, myPort, hisPort, seqnum, acknum, flags, data);
    if HasFlag(flags, TCPF_SYN) {
      length := length + 4;
    }
    assert length == IP_HEADER + |u|;
    NativeStoreOfSwapWords(local);
    NativeStoreOfSwapWords(hisAddr);
    WriteIpHeader(tx, TCP_TTL, length, id, PROTOCOL_TCP, LeBytes32(SwapWords(local)), LeBytes32(SwapWords(hisAddr)));
    PacketJoined(t0, id, local, hisAddr, u);
    ghost var t := Splice(t0, TX_PAYLOAD, SealedHeader(TCP_TTL, length, id, PROTOCOL_TCP, src, dst));
    SealSegment(tx, length - IP_HEADER, t, src, dst, u);
  }

  /** The frame tcp_Send puts on the wire for the unsealed segment u. */
  function SegmentFrame(mac: Mac, id: Word, local: Longword, hisAddr: Longword, u: seq<Byte>): seq<Byte>
    requires TCP_HEADER <= |u| <= TCP_HEADER + TCP_MAXDATA
  {
    FrameOf(mac, SwapBytes(PROTOCOL_IP), Packet(id, local, hisAddr, u))
  }

  /** One frame more on the wire: the segment u to mac. */
  ghost predicate OneSent(wire: seq<seq<Byte>>, w0: seq<seq<Byte>>, mac: Mac, id: Word, local: Longword,
                          hisAddr: Longword, u: seq<Byte>)
    requires TCP_HEADER <= |u| <= TCP_HEADER + TCP_MAXDATA
  {
    && |wire| == |w0| + 1 && wire[..|w0|] == w0
    && forall i | |w0| <= i < |wire| :: wire[i] == SegmentFrame(mac, id, local, hisAddr, u)
  }

  /** The body of tcp_Send once the state allows sending: sed_FormatPacket to the peer's
      MAC, the packet stores, sed_Send of the IP total length. */
  method SendPacket(nic: Nic, id: Word, mac: Mac, hisAddr: Longword, myPort: Word, hisPort: Word,
                    seqnum: Longword, acknum: Longword, flags: Word, data: seq<Byte>)
    requires nic.Valid() && |data| <= TCP_MAXDATA
    modifies nic.tx, nic.env`wire
    ensures OneSent(nic.env.wire, old(nic.env.wire), mac, id, nic.localIp, hisAddr,
                    Unsealed(myPort, hisPort, seqnum, acknum, flags, data))
    ensures nic.env.ticks == old(nic.env.ticks) && nic.env.polls == old(nic.env.polls)
  {
    ghost var tx0 := nic.tx[..];
    ghost var u := Unsealed(myPort, hisPort, seqnum, acknum, flags, data);
    var off := nic.FormatPacket(mac, SwapBytes(PROTOCOL_IP));
    var length := WritePacket(nic.tx, id, nic.localIp, hisAddr, myPort, hisPort, seqnum, acknum, flags, data);
    ghost var p := Packet(id, nic.localIp, hisAddr, u);
    ghost var w0 := nic.env.wire;
    SendIp(nic, tx0, mac, p, length);
    assert nic.env.wire[|w0|] == SegmentFrame(mac, id, nic.localIp, hisAddr, u);
  }

  // ----- the received segment -------------------------------------------------------------

  /** The fields tcp_Handler and tcp_ProcessData read from a frame in the receive buffer:
      the sender's MAC, the IP source, the TCP header, the length of TCP header and data
      (the IP total length less the IP header, which may come out negative), and the
      bytes of the buffer from the TCP header on. */
  datatype Seg = Seg(mac: Mac, src: Longword, srcPort: Word, dstPort: Word, seqnum: Longword, acknum: Longword,
                     flags: Word, len: int, tcp: seq<Byte>)

  /** Where tcp_Handler finds the TCP header in a received frame: after IP_HBYTES bytes of
      IP header. */
  function TcpAt(rx: seq<Byte>): nat
  {
    ETH_HEADER + IpHBytes(Be16(rx, ETH_HEADER))
  }

  /** The segment tcp_Handler reads from the receive buffer. */
  function Parse(rx: seq<Byte>): (g: Seg)
    requires |rx| == BUFFER_SIZE
    ensures g.len == Be16(rx, 16) - IpHBytes(Be16(rx, ETH_HEADER))
    ensures |g.tcp| == BUFFER_SIZE - TcpAt(rx)
  {
    var tp := TcpAt(rx);
    var len := Be16(rx, 16) - IpHBytes(Be16(rx, ETH_HEADER));
    Seg(rx[6..12], Be32(rx, 26), Be16(rx, tp), Be16(rx, tp + 2), Be32(rx, tp + 4), Be32(rx, tp + 8),
        Be16(rx, tp + 12), len, rx[tp..])
  }

  /** The TCP checksum test of tcp_Handler on a received frame: the folded sum over the
      pseudo header (length cut to 16 bits) and the len bytes lchecksum reads. */
  function ReceivedTcpSum(rx: seq<Byte>): Word
    requires |rx| == BUFFER_SIZE
  {
    var len := Be16(rx, 16) - IpHBytes(Be16(rx, ETH_HEADER));
    var ph := rx[26..30] + rx[30..34] + [0, PROTOCOL_TCP] + BeBytes16(Wrap16(len));
    Fold(Fold(WordSum(ph)) + LChecksum(rx, TcpAt(rx), len))
  }

  /** The IP header checksum test of tcp(): the fold over IP_HBYTES bytes. */
  function ReceivedIpSum(rx: seq<Byte>): Word
  {
    Checksum(rx, ETH_HEADER, IpHBytes(Be16(rx, ETH_HEADER)))
  }

  /** The segment a receiver reads from a packet at offset 14 of its buffer: the fields
      it was built from, a verifying IP header and TCP checksum, and the body right after
      the 20-byte header. */
  lemma PacketDecode(r: seq<Byte>, id: Word, local: Longword, hisAddr: Longword, u: seq<Byte>)
    requires |r| == BUFFER_SIZE && TCP_HEADER <= |u| <= TCP_HEADER + TCP_MAXDATA && u[16..18] == BeBytes16(0)
    requires r[ETH_HEADER..ETH_HEADER + IP_HEADER + |u|] == Packet(id, local, hisAddr, u)
    ensures TcpAt(r) == ETH_HEADER + IP_HEADER
    ensures var g := Parse(r);
      && g.src == local && g.len == |u|
      && g.srcPort == Be16(u, 0) && g.dstPort == Be16(u, 2) && g.seqnum == Be32(u, 4) && g.acknum == Be32(u, 8)
      && g.flags == Be16(u, 12) && Window(g.tcp, TCP_HEADER, |u| - TCP_HEADER) == u[20..]
    ensures Be32(r, 30) == hisAddr && IpProtocol(Be16(r, 22)) == PROTOCOL_TCP
    ensures ReceivedIpSum(r) == 0xFFFF && ReceivedTcpSum(r) == 0xFFFF
  {
    var src, dst := BeBytes32(local), BeBytes32(hisAddr);
    var h := SealedHeader(TCP_TTL, IP_HEADER + |u|, id, PROTOCOL_TCP, src, dst);
    var s := Sealed(src, dst, u);
    var p := Packet(id, local, hisAddr, u);
    assert r[14..34] == r[ETH_HEADER..ETH_HEADER + IP_HEADER + |u|][..20];
    assert r[34..34 + |u|] == r[ETH_HEADER..ETH_HEADER + IP_HEADER + |u|][20..];
    HeaderDecode(r, IP_HEADER + |u|, id, local, hisAddr);
    SegmentDecode(r, src, dst, u);
  }

  /** The IP header of a TCP packet at 14: 20 bytes long, the total length, protocol 6,
      the addresses, a valid checksum. */
  lemma HeaderDecode(r: seq<Byte>, length: Word, id: Word, local: Longword, hisAddr: Longword)
    requires |r| == BUFFER_SIZE
    requires r[14..34] == SealedHeader(TCP_TTL, length, id, PROTOCOL_TCP, BeBytes32(local), BeBytes32(hisAddr))
    ensures TcpAt(r) == ETH_HEADER + IP_HEADER && Be16(r, 16) == length
    ensures Be32(r, 26) == local && Be32(r, 30) == hisAddr && IpProtocol(Be16(r, 22)) == PROTOCOL_TCP
    ensures r[26..30] == BeBytes32(local) && r[30..34] == BeBytes32(hisAddr)
    ensures ReceivedIpSum(r) == 0xFFFF
  {
    var src, dst := BeBytes32(local), BeBytes32(hisAddr);
    var h := SealedHeader(TCP_TTL, length, id, PROTOCOL_TCP, src, dst);
    SealedHeaderFields(TCP_TTL, length, id, PROTOCOL_TCP, src, dst);
    Field16Within(r, 14, h, 0);
    Field16Within(r, 14, h, 2);
    Field16Within(r, 14, h, 8);
    HBytesOfVersionFour();
    forall i | 26 <= i < 34
      ensures r[i] == h[i - 14]
    {
      assert r[i] == r[14..34][i - 14];
    }
    assert r[26..30] == h[12..16];
    assert r[30..34] == h[16..20];
    Be32At(r, 26, local);
    Be32At(r, 30, hisAddr);
    ChecksumOfSlice(r, 14, 20);
  }

  /** The TCP segment of a packet at 34: its header fields, its body, a valid checksum. */
  lemma SegmentDecode(r: seq<Byte>, src: seq<Byte>, dst: seq<Byte>, u: seq<Byte>)
    requires |r| == BUFFER_SIZE && |src| == 4 && |dst| == 4
    requires TCP_HEADER <= |u| <= TCP_HEADER + TCP_MAXDATA && u[16..18] == BeBytes16(0)
    requires TcpAt(r) == ETH_HEADER + IP_HEADER && Be16(r, 16) == IP_HEADER + |u|
    requires r[26..30] == src && r[30..34] == dst
    requires r[34..34 + |u|] == Sealed(src, dst, u)
    ensures var g := Parse(r);
      && g.len == |u| && g.tcp[..|u|] == Sealed(src, dst, u)
      && g.srcPort == Be16(u, 0) && g.dstPort == Be16(u, 2) && g.seqnum == Be32(u, 4) && g.acknum == Be32(u, 8)
      && g.flags == Be16(u, 12) && Window(g.tcp, TCP_HEADER, |u| - TCP_HEADER) == u[20..]
    ensures ReceivedTcpSum(r) == 0xFFFF
  {
    SegmentFieldsDecode(r, src, dst, u);
    SegmentSumDecode(r, src, dst, u);
  }

  lemma SegmentFieldsDecode(r: seq<Byte>, src: seq<Byte>, dst: seq<Byte>, u: seq<Byte>)
    requires |r| == BUFFER_SIZE && |src| == 4 && |dst| == 4
    requires TCP_HEADER <= |u| <= TCP_HEADER + TCP_MAXDATA
    requires TcpAt(r) == ETH_HEADER + IP_HEADER && Be16(r, 16) == IP_HEADER + |u|
    requires r[34..34 + |u|] == Sealed(src, dst, u)
    ensures var g := Parse(r);
      && g.len == |u| && g.tcp[..|u|] == Sealed(src, dst, u)
      && g.srcPort == Be16(u, 0) && g.dstPort == Be16(u, 2) && g.seqnum == Be32(u, 4) && g.acknum == Be32(u, 8)
      && g.flags == Be16(u, 12) && Window(g.tcp, TCP_HEADER, |u| - TCP_HEADER) == u[20..]
  {
    var s := Sealed(src, dst, u);
    SealedKeepsFields(src, dst, u);
    Field16Within(r, 34, s, 0);
    Field16Within(r, 34, s, 2);
    Field32Within(r, 34, s, 4);
    Field32Within(r, 34, s, 8);
    Field16Within(r, 34, s, 12);
    assert Window(r, 34, |u|) == s;
    assert Parse(r).tcp[..|u|] == s;
    assert Window(Parse(r).tcp, TCP_HEADER, |u| - TCP_HEADER) == s[20..];
  }

  lemma SegmentSumDecode(r: seq<Byte>, src: seq<Byte>, dst: seq<Byte>, u: seq<Byte>)
    requires |r| == BUFFER_SIZE && |src| == 4 && |dst| == 4
    requires TCP_HEADER <= |u| <= TCP_HEADER + TCP_MAXDATA && u[16..18] == BeBytes16(0)
    requires TcpAt(r) == ETH_HEADER + IP_HEADER && Be16(r, 16) == IP_HEADER + |u|
    requires r[26..30] == src && r[30..34] == dst
    requires r[34..34 + |u|] == Sealed(src, dst, u)
    ensures ReceivedTcpSum(r) == 0xFFFF
  {
    assert LChecksumBytes(r, 34, |u|) == Sealed(src, dst, u);
    SealedVerifies(src, dst, u);
  }

  /** Sealing changes only the checksum word: the header fields and the body stay. */
  lemma SealedKeepsFields(src: seq<Byte>, dst: seq<Byte>, u: seq<Byte>)
    requires |src| == 4 && |dst| == 4 && TCP_HEADER <= |u| <= TCP_HEADER + TCP_MAXDATA
    ensures var s := Sealed(src, dst, u);
      && Be16(s, 0) == Be16(u, 0) && Be16(s, 2) == Be16(u, 2) && Be32(s, 4) == Be32(u, 4)
      && Be32(s, 8) == Be32(u, 8) && Be16(s, 12) == Be16(u, 12) && s[20..] == u[20..]
  {
    var s := Sealed(src, dst, u);
    assert forall k | 0 <= k < 16 :: s[k] == u[k];
    assert s[20..] == u[20..];
  }

  /** IP_HBYTES of the header word 0x4500 is 20. */
  lemma HBytesOfVersionFour()
    ensures IpHBytes(IPVERTOS) == IP_HEADER
  {
  }

  /** Where the fields of an unsealed segment sit. */
  lemma UnsealedFields(myPort: Word, hisPort: Word, seqnum: Longword, acknum: Longword, flags: Word, data: seq<Byte>)
    ensures var u := Unsealed(myPort, hisPort, seqnum, acknum, flags, data);
      && Be16(u, 0) == myPort && Be16(u, 2) == hisPort && Be32(u, 4) == seqnum && Be32(u, 8) == acknum
      && Be16(u, 12) == FlagsField(flags) && u[16..18] == BeBytes16(0) && u[20..] == Body(flags, data)
  {
    var u := Unsealed(myPort, hisPort, seqnum, acknum, flags, data);
    Be16At(u, 0, myPort);
    Be16At(u, 2, hisPort);
    Be32At(u, 4, seqnum);
    Be32At(u, 8, acknum);
    Be16At(u, 12, FlagsField(flags));
  }

  /** The frame tcp_Send puts on the wire, delivered to the host hisAddr: its driver
      accepts it exactly when the MAC passes, it is an IP packet for hisAddr with protocol
      6, tcp_Handler reads back the ports, numbers and flags word sent, the sender's MAC
      and address and the body, and both checksums verify. */
  lemma SegmentReachesPeer(rx: seq<Byte>, f: seq<Byte>, mac: Mac, id: Word, local: Longword, hisAddr: Longword,
                           myPort: Word, hisPort: Word, seqnum: Longword, acknum: Longword, flags: Word, data: seq<Byte>)
    requires |rx| == BUFFER_SIZE && |data| <= TCP_MAXDATA
    requires f == SegmentFrame(mac, id, local, hisAddr, Unsealed(myPort, hisPort, seqnum, acknum, flags, data))[8..]
    ensures var r := Delivered(rx, Some(f));
      var g := Parse(r);
      && Arrived(Some(f)) && (MacAccepted(r[..6]) <==> MacAccepted(mac))
      && Be16(r, 12) == PROTOCOL_IP && Be32(r, 30) == hisAddr && IpProtocol(Be16(r, 22)) == PROTOCOL_TCP
      && g.mac == LOCAL_MAC && g.src == local && g.srcPort == myPort && g.dstPort == hisPort
      && g.seqnum == seqnum && g.acknum == acknum && g.flags == FlagsField(flags)
      && g.len == TCP_HEADER + |Body(flags, data)| && Window(g.tcp, TCP_HEADER, |Body(flags, data)|) == Body(flags, data)
      && ReceivedIpSum(r) == 0xFFFF && ReceivedTcpSum(r) == 0xFFFF
  {
    var u := Unsealed(myPort, hisPort, seqnum, acknum, flags, data);
    var p := Packet(id, local, hisAddr, u);
    var r := Delivered(rx, Some(f));
    assert |p| <= ETH_MTU - 18;
    FrameArrives(rx, mac, SwapBytes(PROTOCOL_IP), p);
    CheckPacketIsNetworkOrder(r, PROTOCOL_IP);
    UnsealedFields(myPort, hisPort, seqnum, acknum, flags, data);
    PacketDecode(r, id, local, hisAddr, u);
  }
}

/**
 * The echo responder and the ping of TINYICMP.c (RFC 792) over the Ethernet
 * driver. Both build a 28-byte packet in the transmit buffer: a 20-byte IP
 * header (version 4, header length 5, total length 28, TTL 128, protocol 1)
 * and an 8-byte ICMP header, each with its own Internet checksum, and no
 * echo data. The identification comes from the counter nMsg, which counts
 * the packets sent.
 *
 * The received packet starts at offset 14 of the receive buffer: the IP
 * source address is at 26, the destination at 30, the protocol at 23, the
 * ICMP type at 34, code 35, ID 38 and sequence 40.
 */
module Icmp {
  import opened Wire
  import opened InetChecksum
  import opened Ethernet
  import opened Ip

  const ECHO_REQUEST: Byte := 8
  const ECHO_REPLY: Byte := 0
  /** the time to live of both ICMP senders */
  const ECHO_TTL: Byte := 128
  /** sizeof(struct icmp_packet) */
  const ICMP_PACKET: nat := 28
  /** the ID icmp_send puts in its requests */
  const PING_ID: Word := 0x11

  // ----- the packet --------------------------------------------------------------------------

  /** The ICMP header before its checksum is computed. */
  function IcmpHeader(icmpType: Byte, code: Byte, ident: seq<Byte>, sequence: seq<Byte>): (r: seq<Byte>)
    requires |ident| == 2 && |sequence| == 2
    ensures |r| == 8
  {
    [icmpType, code] + BeBytes16(0) + ident + sequence
  }

  /** The 28 bytes sent: both headers sealed. */
  function Packet(id: Word, src: seq<Byte>, dst: seq<Byte>, icmpType: Byte, code: Byte,
                  ident: seq<Byte>, sequence: seq<Byte>): (r: seq<Byte>)
    requires |src| == 4 && |dst| == 4 && |ident| == 2 && |sequence| == 2
    ensures |r| == ICMP_PACKET
  {
    SealedHeader(ECHO_TTL, ICMP_PACKET, id, PROTOCOL_ICMP, src, dst) + Seal(IcmpHeader(icmpType, code, ident, sequence), 2)
  }

  /** The reply icmp_check builds for the packet in rx: the addresses swapped, type and
      code 0, ID and sequence copied. */
  function ReplyPacket(rx: seq<Byte>, id: Word): (r: seq<Byte>)
    requires |rx| >= 42
    ensures |r| == ICMP_PACKET
  {
    Packet(id, rx[30..34], rx[26..30], ECHO_REPLY, 0, rx[38..40], rx[40..42])
  }

  /** The echo request icmp_send builds; its ID is stored natively. */
  function RequestPacket(id: Word, local: Longword, dst: Longword): (r: seq<Byte>)
    ensures |r| == ICMP_PACKET
  {
    Packet(id, BeBytes32(local), BeBytes32(dst), ECHO_REQUEST, 0, LeBytes16(PING_ID), BeBytes16(0))
  }

  /** A packet holds its sealed IP header, then the ICMP fields it was built from, and its
      ICMP checksum verifies at the receiver. */
  lemma PacketLayout(id: Word, src: seq<Byte>, dst: seq<Byte>, icmpType: Byte, code: Byte,
                     ident: seq<Byte>, sequence: seq<Byte>)
    requires |src| == 4 && |dst| == 4 && |ident| == 2 && |sequence| == 2
    ensures var p := Packet(id, src, dst, icmpType, code, ident, sequence);
      && p[..IP_HEADER] == SealedHeader(ECHO_TTL, ICMP_PACKET, id, PROTOCOL_ICMP, src, dst)
      && p[20] == icmpType && p[21] == code
      && p[24..26] == ident && p[26..28] == sequence
      && Fold(WordSum(p[IP_HEADER..])) == 0xFFFF
  {
    var p := Packet(id, src, dst, icmpType, code, ident, sequence);
    var ic := IcmpHeader(icmpType, code, ident, sequence);
    SealVerifies(ic, 2);
    assert p[20..] == Seal(ic, 2);
    assert ic[4..6] == ident && ic[6..8] == sequence;
  }

  /** What a receiver reads from a packet at offset 14 of its buffer. */
  lemma PacketDecode(r: seq<Byte>, id: Word, src: seq<Byte>, dst: seq<Byte>, icmpType: Byte, code: Byte,
                     ident: seq<Byte>, sequence: seq<Byte>)
    requires |src| == 4 && |dst| == 4 && |ident| == 2 && |sequence| == 2
    requires |r| >= 42 && r[14..42] == Packet(id, src, dst, icmpType, code, ident, sequence)
    ensures Be16(r, 22) % 0x100 == PROTOCOL_ICMP && r[26..30] == src && r[30..34] == dst
    ensures r[34] == icmpType && r[35] == code && r[38..40] == ident && r[40..42] == sequence
    ensures Fold(WordSum(r[14..34])) == 0xFFFF && Fold(WordSum(r[34..42])) == 0xFFFF
  {
    var p := Packet(id, src, dst, icmpType, code, ident, sequence);
    var h := SealedHeader(ECHO_TTL, ICMP_PACKET, id, PROTOCOL_ICMP, src, dst);
    PacketLayout(id, src, dst, icmpType, code, ident, sequence);
    SealedHeaderFields(ECHO_TTL, ICMP_PACKET, id, PROTOCOL_ICMP, src, dst);
    SliceWithin(r, 14, p);
    assert r[14..34] == h;
    Field16Within(r, 14, h, 8);
    SliceWithin(r, 14, h);
    assert r[34] == p[20] && r[35] == p[21];
  }

  // ----- writing the packet ------------------------------------------------------------------

  /** The ICMP header stores of both functions, in the source's order, at offset 42. */
  method WriteIcmpHeader(tx: array<Byte>, icmpType: Byte, code: Byte, ident: seq<Byte>, sequence: seq<Byte>)
    requires tx.Length == BUFFER_SIZE && |ident| == 2 && |sequence| == 2
    modifies tx
    ensures tx[..] == Splice(old(tx[..]), TX_PAYLOAD + IP_HEADER, Seal(IcmpHeader(icmpType, code, ident, sequence), 2))
  {
    ghost var t0 := tx[..];
    tx[42] := icmpType;
    tx[43] := code;
    Put(tx, 46, ident);
    Put(tx, 48, sequence);
    Put(tx, 44, LeBytes16(0));
    IcmpHeaderWritten(t0, tx[..], icmpType, code, ident, sequence);
    SealAt(tx, t0, TX_PAYLOAD + IP_HEADER, IcmpHeader(icmpType, code, ident, sequence), 8, 2);
  }

  lemma IcmpHeaderWritten(t0: seq<Byte>, t: seq<Byte>, icmpType: Byte, code: Byte, ident: seq<Byte>, sequence: seq<Byte>)
    requires |t0| == BUFFER_SIZE && |ident| == 2 && |sequence| == 2
    requires t == Splice(Splice(Splice(t0[42 := icmpType][43 := code], 46, ident), 48, sequence), 44, LeBytes16(0))
    ensures t == Splice(t0, TX_PAYLOAD + IP_HEADER, IcmpHeader(icmpType, code, ident, sequence))
  {
    var want := Splice(t0, TX_PAYLOAD + IP_HEADER, IcmpHeader(icmpType, code, ident, sequence));
    forall k | 0 <= k < BUFFER_SIZE
      ensures t[k] == want[k]
    {
    }
  }

  /** Both headers in place make the packet. */
  method WritePacket(tx: array<Byte>, id: Word, src: seq<Byte>, dst: seq<Byte>, icmpType: Byte, code: Byte,
                     ident: seq<Byte>, sequence: seq<Byte>)
    requires tx.Length == BUFFER_SIZE && |src| == 4 && |dst| == 4 && |ident| == 2 && |sequence| == 2
    modifies tx
    ensures tx[..] == Splice(old(tx[..]), TX_PAYLOAD, Packet(id, src, dst, icmpType, code, ident, sequence))
  {
    ghost var t0 := tx[..];
    WriteIpHeader(tx, ECHO_TTL, ICMP_PACKET, id, PROTOCOL_ICMP, src, dst);
    WriteIcmpHeader(tx, icmpType, code, ident, sequence);
    assert tx[..] == Splice(t0, TX_PAYLOAD, Packet(id, src, dst, icmpType, code, ident, sequence)) by {
      var want := Splice(t0, TX_PAYLOAD, Packet(id, src, dst, icmpType, code, ident, sequence));
      forall k | 0 <= k < BUFFER_SIZE
        ensures tx[k] == want[k]
      {
      }
    }
  }

  // ----- the responder -----------------------------------------------------------------------

  /** What icmp_check evidently means to answer: an IP packet for this host, protocol ICMP,
      type echo request. */
  predicate IsEchoRequestFor(rx: seq<Byte>, local: Longword)
  {
    Be32(rx, 30) == local && Be16(rx, 22) % 0x100 == PROTOCOL_ICMP && ByteAt(rx, 34) == ECHO_REQUEST
  }

  /** The test icmp_check applies as written before it returns 0: the destination is ours,
      the protocol ICMP, and rev_word of the one-byte type equals the echo request type. */
  predicate IgnoredAsWritten(rx: seq<Byte>, local: Longword)
  {
    Be32(rx, 30) == local && Be16(rx, 22) % 0x100 == PROTOCOL_ICMP && SwapBytes(ByteAt(rx, 34)) == ECHO_REQUEST as Word
  }

  /** rev_word of a byte moves it to the high byte, so the type test never holds and the
      test as written ignores nothing: icmp_check answers every packet it is given. */
  lemma {:induction false} AsWrittenIgnoresNothing(rx: seq<Byte>, local: Longword)
    ensures !IgnoredAsWritten(rx, local)
  {
    SwapByte(ByteAt(rx, 34));
  }

  /** An echo reply addressed to this host, which the evident intent ignores, passes the
      test as written: icmp_check answers it with another reply. */
  lemma AsWrittenAnswersEchoReplies(rx: seq<Byte>, local: Longword, peer: Longword)
    requires |rx| >= 42 && EchoReplyFor(rx, local, peer)
    ensures !IgnoredAsWritten(rx, local) && !IsEchoRequestFor(rx, local)
  {
    AsWrittenIgnoresNothing(rx, local);
  }

  /** The buffer icmp_check builds: a frame to the sender's MAC, type IP, the reply packet. */
  function EchoBuffer(tx: seq<Byte>, rx: seq<Byte>, id: Word): (r: seq<Byte>)
    requires |tx| == BUFFER_SIZE && |rx| >= 42
    ensures |r| == BUFFER_SIZE
  {
    Splice(Splice(tx, 0, FrameHeader(rx[6..12], SwapBytes(PROTOCOL_IP))), TX_PAYLOAD, ReplyPacket(rx, id))
  }

  /** One frame more on the wire than in w0: the echo reply with identification id to the
      packet in rx, sent to the MAC it came from. */
  ghost predicate EchoedBack(wire: seq<seq<Byte>>, w0: seq<seq<Byte>>, rx: seq<Byte>, id: Word)
    requires |rx| >= 42
  {
    && |wire| == |w0| + 1 && wire[..|w0|] == w0
    && forall i | |w0| <= i < |wire| :: wire[i] == FrameOf(rx[6..12], SwapBytes(PROTOCOL_IP), ReplyPacket(rx, id))
  }

  /** One frame more on the wire than in w0: the echo request with identification id from
      local to peer, sent to mac. */
  ghost predicate Pinged(wire: seq<seq<Byte>>, w0: seq<seq<Byte>>, mac: Mac, id: Word, local: Longword, peer: Longword)
  {
    && |wire| == |w0| + 1 && wire[..|w0|] == w0
    && forall i | |w0| <= i < |wire| :: wire[i] == FrameOf(mac, SwapBytes(PROTOCOL_IP), RequestPacket(id, local, peer))
  }

  /** The protocol's state: the statics of TINYICMP.c over the driver. */
  class Pinger {
    const nic: Nic
    /** nMsg: the identification of the next packet sent */
    var nMsg: Word

    ghost predicate Valid()
      reads this, nic, nic.env
    {
      nic.Valid()
    }

    constructor (nic: Nic)
      requires nic.Valid()
      ensures Valid() && this.nic == nic && nMsg == 0
    {
      this.nic := nic;
      nMsg := 0;
    }

    /** icmp_check as written: its guard returns 0 only for an echo request to this host,
        and compares the type after rev_word, which never equals 8 (AsWrittenIgnoresNothing);
        so every packet handed to it is answered with an echo reply to the sender's MAC. */
    method Check() returns (r: int)
      requires Valid()
      modifies this, nic.tx, nic.env
      ensures Valid() && r == 1
      ensures nic.tx[..] == SendBuffer(EchoBuffer(old(nic.tx[..]), old(nic.rx[..]), old(nMsg)), ICMP_PACKET)
      ensures EchoedBack(nic.env.wire, old(nic.env.wire), old(nic.rx[..]), old(nMsg))
      ensures nMsg == Wrap16(old(nMsg) + 1)
      ensures nic.env.ticks == old(nic.env.ticks) && nic.env.polls == old(nic.env.polls)
    {
      var rcvIp := Be32(nic.rx[..], 30);
      var rcvProtocol := Be16(nic.rx[..], 22) % 0x100;
      var rcvType := SwapBytes(nic.rx[34] as Word);
      AsWrittenIgnoresNothing(nic.rx[..], nic.localIp);
      if rcvIp == nic.localIp && rcvProtocol == PROTOCOL_ICMP && rcvType == ECHO_REQUEST as Word {
        assert false;
      }
      Reply();
      r := 1;
    }

    /** icmp_check with its guard as evidently intended: an echo request for
        local_IP_address is answered with an echo reply to the sender's MAC, anything else
        is left alone. */
    method Answer() returns (r: int)
      requires Valid()
      modifies this, nic.tx, nic.env
      ensures Valid()
      ensures r == 0 || r == 1
      ensures r == 1 <==> IsEchoRequestFor(old(nic.rx[..]), nic.localIp)
      ensures r == 0 ==> nic.tx[..] == old(nic.tx[..]) && nic.env.wire == old(nic.env.wire) && nMsg == old(nMsg)
      ensures r == 1 ==>
        && nic.tx[..] == SendBuffer(EchoBuffer(old(nic.tx[..]), old(nic.rx[..]), old(nMsg)), ICMP_PACKET)
        && EchoedBack(nic.env.wire, old(nic.env.wire), old(nic.rx[..]), old(nMsg))
        && nMsg == Wrap16(old(nMsg) + 1)
      ensures nic.env.ticks == old(nic.env.ticks) && nic.env.polls == old(nic.env.polls)
    {
      var rcvIp := Be32(nic.rx[..], 30);
      var rcvProtocol := Be16(nic.rx[..], 22) % 0x100;
      var rcvType := nic.rx[34];
      if rcvIp != nic.localIp || rcvProtocol != PROTOCOL_ICMP || rcvType != ECHO_REQUEST {
        return 0;
      }
      Reply();
      r := 1;
    }

    /** icmp_check past its guard: the reply to the packet in the receive buffer. */
    method Reply()
      requires Valid()
      modifies this, nic.tx, nic.env
      ensures Valid()
      ensures nic.tx[..] == SendBuffer(EchoBuffer(old(nic.tx[..]), nic.rx[..], old(nMsg)), ICMP_PACKET)
      ensures EchoedBack(nic.env.wire, old(nic.env.wire), nic.rx[..], old(nMsg))
      ensures nMsg == Wrap16(old(nMsg) + 1)
      ensures nic.env.ticks == old(nic.env.ticks) && nic.env.polls == old(nic.env.polls)
    {
      ghost var tx0 := nic.tx[..];
      ghost var id := nMsg;
      WriteReply();
      ghost var w0 := nic.env.wire;
      SendIp(nic, tx0, nic.rx[6..12], ReplyPacket(nic.rx[..], id), ICMP_PACKET);
      assert nic.env.wire[|w0|] == FrameOf(nic.rx[6..12], SwapBytes(PROTOCOL_IP), ReplyPacket(nic.rx[..], id));
    }

    /** The stores of icmp_check: the frame header to the sender and the reply packet. */
    method WriteReply()
      requires Valid()
      modifies this, nic.tx
      ensures Valid()
      ensures nic.tx[..] == EchoBuffer(old(nic.tx[..]), nic.rx[..], old(nMsg))
      ensures nMsg == Wrap16(old(nMsg) + 1)
    {
      var ima, src, dst, ident, sequence := nic.rx[6..12], nic.rx[30..34], nic.rx[26..30], nic.rx[38..40], nic.rx[40..42];
      var off := nic.FormatPacket(ima, SwapBytes(PROTOCOL_IP));
      var id := nMsg;
      nMsg := Wrap16(nMsg + 1);
      WritePacket(nic.tx, id, src, dst, ECHO_REPLY, 0, ident, sequence);
    }

    /** icmp_send: an echo request to dst through their_ethernet_address, then polls until
        the echo reply arrives (1) or the clock reaches the first reading plus timeout (0).
        The first poll happens whatever the clock says. */
    method Send(dst: Longword, timeout: Longword) returns (r: int)
      requires Valid()
      modifies this, nic.tx, nic.rx, nic.env
      ensures Valid()
      ensures r == 0 || r == 1
      ensures nMsg == Wrap16(old(nMsg) + 1)
      ensures Pinged(nic.env.wire, old(nic.env.wire), old(nic.theirMac), old(nMsg), nic.localIp, dst)
      ensures nic.env.ticks > old(nic.env.ticks)
      ensures r == 1 ==> Replied(nic.rx[..], nic.env.arrivals, nic.env.polls, old(nic.rx[..]), old(nic.env.polls), nic.localIp, dst)
      ensures r == 0 ==>
        && Awaiting(nic.rx[..], nic.env.arrivals, nic.env.polls, old(nic.rx[..]), old(nic.env.polls), nic.localIp, dst)
        && nic.env.clock(nic.env.ticks - 1) >= nic.env.clock(old(nic.env.ticks)) + timeout
    {
      ghost var rx0 := nic.rx[..];
      ghost var p0 := nic.env.polls;
      SendRequest(dst);
      r := 0;
      var start := nic.env.Now();
      var expire := start + timeout;
      var hit := AwaitEcho(nic, nic.localIp, dst, expire, rx0, p0);
      if hit {
        r := 1;
      }
    }

    /** icmp_send up to sed_Send. */
    method SendRequest(dst: Longword)
      requires Valid()
      modifies this, nic.tx, nic.env
      ensures Valid()
      ensures nMsg == Wrap16(old(nMsg) + 1)
      ensures Pinged(nic.env.wire, old(nic.env.wire), nic.theirMac, old(nMsg), nic.localIp, dst)
      ensures nic.tx[34..38] == BeBytes32(nic.localIp) && nic.tx[38..42] == BeBytes32(dst)
      ensures nic.env.ticks == old(nic.env.ticks) && nic.env.polls == old(nic.env.polls)
    {
      ghost var tx0 := nic.tx[..];
      ghost var id := nMsg;
      WriteRequest(dst);
      ghost var p := RequestPacket(id, nic.localIp, dst);
      ghost var w0 := nic.env.wire;
      SendIp(nic, tx0, nic.theirMac, p, ICMP_PACKET);
      assert nic.env.wire[|w0|] == FrameOf(nic.theirMac, SwapBytes(PROTOCOL_IP), p);
      RequestAddresses(nic.tx[..], id, nic.localIp, dst);
    }

    /** The stores of icmp_send: the frame header to their_ethernet_address and the
        request packet, the addresses stored as rev_longword and the ID natively. */
    method WriteRequest(dst: Longword)
      requires Valid()
      modifies this, nic.tx
      ensures Valid()
      ensures nic.tx[..] == Splice(Splice(old(nic.tx[..]), 0, FrameHeader(nic.theirMac, SwapBytes(PROTOCOL_IP))),
                                   TX_PAYLOAD, RequestPacket(old(nMsg), nic.localIp, dst))
      ensures nMsg == Wrap16(old(nMsg) + 1)
    {
      var off := nic.FormatPacket(nic.theirMac, SwapBytes(PROTOCOL_IP));
      var id := nMsg;
      nMsg := Wrap16(nMsg + 1);
      NativeStoreOfSwapWords(nic.localIp);
      NativeStoreOfSwapWords(dst);
      WritePacket(nic.tx, id, LeBytes32(SwapWords(nic.localIp)), LeBytes32(SwapWords(dst)),
                  ECHO_REQUEST, 0, LeBytes16(PING_ID), LeBytes16(0));
    }
  }

  // ----- the ping ----------------------------------------------------------------------------

  /** The test icmp_send applies to an IP packet: protocol ICMP, from the host pinged to
      this host, an echo reply with code 0, the ID it sent and sequence 0. */
  predicate EchoReplyFor(rx: seq<Byte>, local: Longword, peer: Longword)
    requires |rx| >= 42
  {
    && Be16(rx, 22) % 0x100 == PROTOCOL_ICMP
    && rx[30..34] == BeBytes32(local) && rx[26..30] == BeBytes32(peer)
    && rx[34] == ECHO_REPLY && rx[35] == 0
    && Le16(rx, 38) == PING_ID && Le16(rx, 40) == 0
  }

  /** A poll that ends icmp_send: a frame arrived, passed the MAC test, is IP and the reply. */
  predicate Echoed(rx: seq<Byte>, arrival: Option<seq<Byte>>, local: Longword, peer: Longword)
    requires |rx| >= 42
  {
    Arrived(arrival) && MacAccepted(rx[..6]) && Be16(rx, 12) == PROTOCOL_IP && EchoReplyFor(rx, local, peer)
  }

  /** None of the n polls from poll k on brought the reply. */
  ghost predicate Unechoed(rx: seq<Byte>, arrivals: nat -> Option<seq<Byte>>, k: nat, n: nat,
                           local: Longword, peer: Longword)
    requires |rx| == BUFFER_SIZE
    decreases n
  {
    n == 0 || (Unechoed(rx, arrivals, k, n - 1, local, peer) && !Echoed(Polled(rx, arrivals, k, n), arrivals(k + n - 1), local, peer))
  }

  /** The receive buffer rx holds the polls - p0 polls since poll p0, none of them the reply. */
  ghost predicate Awaiting(rx: seq<Byte>, arrivals: nat -> Option<seq<Byte>>, polls: nat,
                           rx0: seq<Byte>, p0: nat, local: Longword, peer: Longword)
  {
    && |rx0| == BUFFER_SIZE && polls >= p0
    && rx == Polled(rx0, arrivals, p0, polls - p0)
    && Unechoed(rx0, arrivals, p0, polls - p0, local, peer)
  }

  /** The last of the polls since poll p0 brought the reply, none before it did. */
  ghost predicate Replied(rx: seq<Byte>, arrivals: nat -> Option<seq<Byte>>, polls: nat,
                          rx0: seq<Byte>, p0: nat, local: Longword, peer: Longword)
  {
    && |rx0| == BUFFER_SIZE && polls > p0
    && rx == Polled(rx0, arrivals, p0, polls - p0)
    && Unechoed(rx0, arrivals, p0, polls - p0 - 1, local, peer)
    && Echoed(rx, arrivals(polls - 1), local, peer)
  }

  /** The body of the do-while loop of icmp_send, up to the test of the frame; the
      addresses are compared with the ones in the transmit buffer, as the source does. */
  method PollEcho(nic: Nic, local: Longword, peer: Longword, ghost rx0: seq<Byte>, ghost p0: nat)
    returns (hit: bool)
    requires nic.Valid() && Awaiting(nic.rx[..], nic.env.arrivals, nic.env.polls, rx0, p0, local, peer)
    requires nic.tx[34..38] == BeBytes32(local) && nic.tx[38..42] == BeBytes32(peer)
    modifies nic.rx, nic.env
    ensures nic.Valid()
    ensures nic.env.polls == old(nic.env.polls) + 1
    ensures nic.env.ticks == old(nic.env.ticks) && nic.env.wire == old(nic.env.wire)
    ensures !hit ==> Awaiting(nic.rx[..], nic.env.arrivals, nic.env.polls, rx0, p0, local, peer)
    ensures hit ==> Replied(nic.rx[..], nic.env.arrivals, nic.env.polls, rx0, p0, local, peer)
  {
    var p := nic.IsPacket();
    hit := false;
    if p.Some? {
      var ok := nic.CheckPacket(PROTOCOL_IP);
      if ok {
        hit := TestEcho(nic.rx, nic.tx, local, peer);
      }
    }
    assert hit <==> Echoed(nic.rx[..], nic.env.arrivals(nic.env.polls - 1), local, peer);
  }

  /** The test of icmp_send on a received IP packet, against the addresses in the
      transmit buffer. */
  method TestEcho(rx: array<Byte>, tx: array<Byte>, local: Longword, peer: Longword) returns (hit: bool)
    requires rx.Length == BUFFER_SIZE && tx.Length == BUFFER_SIZE
    requires tx[34..38] == BeBytes32(local) && tx[38..42] == BeBytes32(peer)
    ensures hit <==> EchoReplyFor(rx[..], local, peer)
  {
    var t := rx[34];
    var c := rx[35];
    SwapByte(t);
    SwapByte(c);
    hit := Be16(rx[..], 22) % 0x100 == PROTOCOL_ICMP
           && tx[34..38] == rx[30..34] && rx[26..30] == tx[38..42]
           && SwapBytes(t) == ECHO_REPLY as Word && SwapBytes(c) == 0
           && Le16(rx[..], 38) == PING_ID && Le16(rx[..], 40) == 0;
  }

  /** One pass of the do-while loop after the first: a poll and, without the reply, the
      clock reading of the loop test. */
  method PollOnce(nic: Nic, local: Longword, peer: Longword, ghost rx0: seq<Byte>, ghost p0: nat)
    returns (hit: bool, now: nat)
    requires nic.Valid() && Awaiting(nic.rx[..], nic.env.arrivals, nic.env.polls, rx0, p0, local, peer)
    requires nic.tx[34..38] == BeBytes32(local) && nic.tx[38..42] == BeBytes32(peer)
    requires nic.env.ticks > 0
    modifies nic.rx, nic.env
    ensures nic.Valid()
    ensures nic.env.wire == old(nic.env.wire)
    ensures !hit ==>
      && Awaiting(nic.rx[..], nic.env.arrivals, nic.env.polls, rx0, p0, local, peer)
      && nic.env.ticks == old(nic.env.ticks) + 1 && now == nic.env.clock(nic.env.ticks - 1)
      && now > nic.env.clock(old(nic.env.ticks) - 1)
    ensures hit ==> nic.env.ticks == old(nic.env.ticks) && Replied(nic.rx[..], nic.env.arrivals, nic.env.polls, rx0, p0, local, peer)
  {
    ghost var before := nic.env.ticks;
    hit := PollEcho(nic, local, peer, rx0, p0);
    now := 0;
    if !hit {
      now := nic.env.Now();
      assert nic.env.clock(before - 1) < nic.env.clock(before);
    }
  }

  /** The waiting part of icmp_send: poll at least once, until the reply or until the
      clock reaches expire. */
  method AwaitEcho(nic: Nic, local: Longword, peer: Longword, expire: nat, ghost rx0: seq<Byte>, ghost p0: nat)
    returns (hit: bool)
    requires nic.Valid() && Awaiting(nic.rx[..], nic.env.arrivals, nic.env.polls, rx0, p0, local, peer)
    requires nic.tx[34..38] == BeBytes32(local) && nic.tx[38..42] == BeBytes32(peer)
    requires nic.env.ticks > 0
    modifies nic.rx, nic.env
    ensures nic.Valid()
    ensures nic.env.wire == old(nic.env.wire) && nic.env.ticks >= old(nic.env.ticks)
    ensures !hit ==> Awaiting(nic.rx[..], nic.env.arrivals, nic.env.polls, rx0, p0, local, peer)
                     && nic.env.ticks > old(nic.env.ticks) && nic.env.clock(nic.env.ticks - 1) >= expire
    ensures hit ==> Replied(nic.rx[..], nic.env.arrivals, nic.env.polls, rx0, p0, local, peer)
  {
    var now;
    hit, now := PollOnce(nic, local, peer, rx0, p0);
    if hit {
      return;
    }
    while now < expire
      invariant nic.Valid() && Awaiting(nic.rx[..], nic.env.arrivals, nic.env.polls, rx0, p0, local, peer)
      invariant nic.env.ticks > old(nic.env.ticks) && now == nic.env.clock(nic.env.ticks - 1)
      invariant nic.env.wire == old(nic.env.wire)
      decreases expire - now
    {
      hit, now := PollOnce(nic, local, peer, rx0, p0);
      if hit {
        return;
      }
    }
  }

  // ----- the exchange ------------------------------------------------------------------------

  /** An echo request icmp_send sends, delivered to the host pinged: its driver accepts it
      when the destination MAC passes its test, it is IP, both checksums verify, and the
      responder's test for an echo request addressed to that host holds. */
  lemma RequestReachesPeer(rx: seq<Byte>, mac: Mac, id: Word, local: Longword, peer: Longword)
    requires |rx| == BUFFER_SIZE
    ensures var f := FrameOf(mac, SwapBytes(PROTOCOL_IP), RequestPacket(id, local, peer))[8..];
      var r := Delivered(rx, Some(f));
      && Arrived(Some(f)) && (MacAccepted(r[..6]) <==> MacAccepted(mac))
      && Be16(r, 12) == PROTOCOL_IP && IsEchoRequestFor(r, peer)
      && Fold(WordSum(r[14..34])) == 0xFFFF && Fold(WordSum(r[34..42])) == 0xFFFF
  {
    var p := RequestPacket(id, local, peer);
    var f := FrameOf(mac, SwapBytes(PROTOCOL_IP), p)[8..];
    var r := Delivered(rx, Some(f));
    FrameArrives(rx, mac, SwapBytes(PROTOCOL_IP), p);
    CheckPacketIsNetworkOrder(r, PROTOCOL_IP);
    RequestDecode(r, p, id, local, peer);
  }

  /** A transmit buffer holding a request at offset 22 holds its addresses where icmp_send
      compares them with the reply's. */
  lemma RequestAddresses(t: seq<Byte>, id: Word, local: Longword, peer: Longword)
    requires |t| == BUFFER_SIZE && t[TX_PAYLOAD..TX_PAYLOAD + ICMP_PACKET] == RequestPacket(id, local, peer)
    ensures t[34..38] == BeBytes32(local) && t[38..42] == BeBytes32(peer)
  {
    var p := RequestPacket(id, local, peer);
    PacketLayout(id, BeBytes32(local), BeBytes32(peer), ECHO_REQUEST, 0, LeBytes16(PING_ID), BeBytes16(0));
    SealedHeaderFields(ECHO_TTL, ICMP_PACKET, id, PROTOCOL_ICMP, BeBytes32(local), BeBytes32(peer));
    SliceWithin(t, TX_PAYLOAD, p);
    assert p[12..16] == p[..IP_HEADER][12..16] && p[16..20] == p[..IP_HEADER][16..20];
    assert t[34..38] == p[12..16] && t[38..42] == p[16..20];
  }

  /** What a receiver reads from a request packet at offset 14. */
  lemma RequestDecode(r: seq<Byte>, p: seq<Byte>, id: Word, local: Longword, peer: Longword)
    requires p == RequestPacket(id, local, peer) && |r| >= 42 && r[14..42] == p
    ensures IsEchoRequestFor(r, peer)
    ensures r[26..30] == BeBytes32(local) && r[30..34] == BeBytes32(peer)
    ensures r[38..40] == LeBytes16(PING_ID) && r[40..42] == BeBytes16(0)
    ensures Fold(WordSum(r[14..34])) == 0xFFFF && Fold(WordSum(r[34..42])) == 0xFFFF
  {
    PacketDecode(r, id, BeBytes32(local), BeBytes32(peer), ECHO_REQUEST, 0, LeBytes16(PING_ID), BeBytes16(0));
    Be32At(r, 30, peer);
  }

  /** The echo reply icmp_check sends for one of our requests, delivered back to us:
      icmp_send's test holds for it, both checksums verify, and it goes to the MAC the
      request came from. */
  lemma ReplyReachesPinger(rx: seq<Byte>, req: seq<Byte>, id: Word, id0: Word, local: Longword, peer: Longword)
    requires |rx| == BUFFER_SIZE && |req| >= 42 && req[14..42] == RequestPacket(id0, local, peer)
    ensures var f := FrameOf(req[6..12], SwapBytes(PROTOCOL_IP), ReplyPacket(req, id))[8..];
      var r := Delivered(rx, Some(f));
      && Arrived(Some(f)) && (MacAccepted(r[..6]) <==> MacAccepted(req[6..12]))
      && Be16(r, 12) == PROTOCOL_IP && EchoReplyFor(r, local, peer)
      && Fold(WordSum(r[14..34])) == 0xFFFF && Fold(WordSum(r[34..42])) == 0xFFFF
  {
    var p := ReplyPacket(req, id);
    var f := FrameOf(req[6..12], SwapBytes(PROTOCOL_IP), p)[8..];
    var r := Delivered(rx, Some(f));
    FrameArrives(rx, req[6..12], SwapBytes(PROTOCOL_IP), p);
    CheckPacketIsNetworkOrder(r, PROTOCOL_IP);
    RequestDecode(req, RequestPacket(id0, local, peer), id0, local, peer);
    ReplyDecode(r, req, id, local, peer);
  }

  /** What a receiver reads from the reply to a request from local to peer. */
  lemma ReplyDecode(r: seq<Byte>, req: seq<Byte>, id: Word, local: Longword, peer: Longword)
    requires |req| >= 42 && |r| >= 42 && r[14..42] == ReplyPacket(req, id)
    requires req[26..30] == BeBytes32(local) && req[30..34] == BeBytes32(peer)
    requires req[38..40] == LeBytes16(PING_ID) && req[40..42] == BeBytes16(0)
    ensures EchoReplyFor(r, local, peer)
    ensures Fold(WordSum(r[14..34])) == 0xFFFF && Fold(WordSum(r[34..42])) == 0xFFFF
  {
    PacketDecode(r, id, req[30..34], req[26..30], ECHO_REPLY, 0, req[38..40], req[40..42]);
    Le16At(r, 38, PING_ID);
    Le16At(r, 40, 0);
  }

  /** Two hosts running icmp_check as written: our reply to the peer's ping reaches the
      peer, whose icmp_check answers it in turn (the evident intent ignores it). */
  lemma AsWrittenRepliesBounce(rx: seq<Byte>, req: seq<Byte>, id: Word, id0: Word, local: Longword, peer: Longword,
                               f: seq<Byte>)
    requires |rx| == BUFFER_SIZE && |req| >= 42 && req[14..42] == RequestPacket(id0, local, peer)
    requires f == FrameOf(req[6..12], SwapBytes(PROTOCOL_IP), ReplyPacket(req, id))[8..]
    ensures !IgnoredAsWritten(Delivered(rx, Some(f)), local) && !IsEchoRequestFor(Delivered(rx, Some(f)), local)
  {
    ReplyReachesPinger(rx, req, id, id0, local, peer);
    AsWrittenAnswersEchoReplies(Delivered(rx, Some(f)), local, peer);
  }
}

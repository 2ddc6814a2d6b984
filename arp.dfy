/**
 * The address resolver of TINYARP.C (RFC 826) over the Ethernet driver.
 * arp_checkpacket answers a request for this host's address with a reply built
 * in the transmit buffer; sar_MapIn2Eth broadcasts requests and polls for the
 * matching reply for two seconds, re-sending every 250 ms; do_arp falls back
 * to the broadcast address when resolution fails.
 *
 * The ARP header follows the Ethernet header: at offset 14 of the receive
 * buffer and at offset 22 (after preamble, SFD and header) of the transmit
 * buffer. Its fields: hwType 0, protType 2, hwProtAddrLen 4, opcode 6,
 * srcEthAddr 8, srcIPAddr 14, dstEthAddr 18, dstIPAddr 24 (28 bytes).
 */
module Arp {
  import opened Wire
  import opened Ethernet

  /** (sizeof(struct Ethernet_Address) << 8) + sizeof(IP_Address) */
  const HW_PROT_LEN: Word := 0x0604
  /** how long sar_MapIn2Eth keeps trying */
  const RESOLVE_TIME: nat := 2000
  /** how long it waits for a reply before it asks again */
  const RETRY_TIME: nat := 250

  // ----- the responder ---------------------------------------------------------------------

  /** The test of arp_checkpacket: Ethernet hardware, IP, a request, for address me. */
  predicate IsRequestFor(rx: seq<Byte>, me: Longword)
  {
    Be16(rx, 14) == ARP_TYPE_ETHER && Be16(rx, 16) == PROTOCOL_IP
    && Be16(rx, 20) == ARP_REQUEST && Be32(rx, 38) == me
  }

  /** The reply fields arp_checkpacket writes, hwType to dstEthAddr: hardware and protocol
      types copied from the request, sender IP the address asked for, sender MAC ours,
      target MAC the requester's. The target IP (the last four bytes) is not written. */
  function ReplyFields(rx: seq<Byte>): (r: seq<Byte>)
    requires |rx| >= 42
    ensures |r| == 24
  {
    rx[14..18] + BeBytes16(HW_PROT_LEN) + BeBytes16(ARP_REPLY) + LOCAL_MAC + rx[38..42] + rx[22..28]
  }

  /** The transmit buffer holding the reply to the request in rx, ready for sed_Send. */
  function ReplyBuffer(tx: seq<Byte>, rx: seq<Byte>): (r: seq<Byte>)
    requires |tx| == BUFFER_SIZE && |rx| >= 42
    ensures |r| == BUFFER_SIZE
  {
    Splice(Splice(tx, 0, FrameHeader(rx[22..28], SwapBytes(PROTOCOL_ARP))), TX_PAYLOAD, ReplyFields(rx))
  }

  /** arp_checkpacket, for the packet sed_IsPacket delivered (the header at rx[14..]). */
  method CheckPacket(nic: Nic) returns (r: int)
    requires nic.Valid()
    modifies nic, nic.tx, nic.rx, nic.env
    ensures nic.Valid() && nic.localIp == nic.myAddr
    ensures r == 0 || r == 1
    ensures r == 1 <==> IsRequestFor(old(nic.rx[..]), nic.myAddr)
    ensures r == 0 ==> nic.tx[..] == old(nic.tx[..]) && nic.rx[..] == old(nic.rx[..])
                       && nic.env.wire == old(nic.env.wire) && nic.theirMac == old(nic.theirMac)
    ensures r == 1 ==>
      && nic.tx[..] == SendBuffer(ReplyBuffer(old(nic.tx[..]), old(nic.rx[..])), ARP_HEADER)
      && nic.env.wire == old(nic.env.wire) + [nic.tx[..FrameLength(ARP_HEADER) + 12]]
      && nic.rx[..] == Splice(old(nic.rx[..]), 38, old(nic.rx[28..32]))
      && nic.theirMac == old(nic.rx[22..28])
    ensures nic.env.ticks == old(nic.env.ticks) && nic.env.polls == old(nic.env.polls)
  {
    var hwType := Be16(nic.rx[..], 14);
    var protType := Be16(nic.rx[..], 16);
    var opcode := Be16(nic.rx[..], 20);
    var dstIPAddr := Be32(nic.rx[..], 38);
    nic.localIp := nic.myAddr;
    if hwType != ARP_TYPE_ETHER || protType != PROTOCOL_IP || opcode != ARP_REQUEST
       || dstIPAddr != nic.localIp {
      return 0;
    }
    var off := nic.FormatPacket(nic.rx[22..28], SwapBytes(PROTOCOL_ARP));
    WriteReply(nic.tx, nic.rx, off);
    nic.theirMac := nic.rx[22..28];
    r := nic.Send(ARP_HEADER);
  }

  /** The field stores of arp_checkpacket: the reply at tx[off..], and the request's
      target IP overwritten with its sender IP. */
  method WriteReply(tx: array<Byte>, rx: array<Byte>, off: nat)
    requires tx.Length == BUFFER_SIZE && rx.Length == BUFFER_SIZE && tx != rx && off == TX_PAYLOAD
    modifies tx, rx
    ensures tx[..] == Splice(old(tx[..]), TX_PAYLOAD, ReplyFields(old(rx[..])))
    ensures rx[..] == Splice(old(rx[..]), 38, old(rx[28..32]))
  {
    ghost var rx0 := rx[..];
    NativeStoreOfSwap(HW_PROT_LEN);
    NativeStoreOfSwap(ARP_REPLY);
    Put(tx, off, rx[14..16]);
    Put(tx, off + 2, rx[16..18]);
    Put(tx, off + 4, LeBytes16(SwapBytes(HW_PROT_LEN)));
    Put(tx, off + 6, LeBytes16(SwapBytes(ARP_REPLY)));
    Put(tx, off + 14, rx[38..42]);
    Put(rx, 38, rx[28..32]);
    Put(tx, off + 8, LOCAL_MAC);
    assert rx[22..28] == rx0[22..28];
    Put(tx, off + 18, rx[22..28]);
    ReplyWritten(old(tx[..]), tx[..], rx0);
  }

  /** The field stores of arp_checkpacket, in the source's order, amount to the reply block. */
  lemma ReplyWritten(tx1: seq<Byte>, tx: seq<Byte>, rx: seq<Byte>)
    requires |tx1| == BUFFER_SIZE && |rx| == BUFFER_SIZE
    requires tx == Splice(Splice(Splice(Splice(Splice(Splice(Splice(tx1,
      22, rx[14..16]), 24, rx[16..18]), 26, BeBytes16(HW_PROT_LEN)), 28, BeBytes16(ARP_REPLY)),
      36, rx[38..42]), 30, LOCAL_MAC), 40, rx[22..28])
    ensures tx == Splice(tx1, TX_PAYLOAD, ReplyFields(rx))
  {
    var want := Splice(tx1, TX_PAYLOAD, ReplyFields(rx));
    forall k | 0 <= k < BUFFER_SIZE
      ensures tx[k] == want[k]
    {
    }
  }

  // ----- the resolver ----------------------------------------------------------------------

  /** The request fields sar_MapIn2Eth writes: sender IP src, target IP ina. The target
      MAC is not written; it keeps the bytes `stale` left in the buffer. */
  function RequestFields(src: Longword, stale: seq<Byte>, ina: Longword): (r: seq<Byte>)
    requires |stale| == 6
    ensures |r| == ARP_HEADER
  {
    BeBytes16(ARP_TYPE_ETHER) + BeBytes16(PROTOCOL_IP) + BeBytes16(HW_PROT_LEN) + BeBytes16(ARP_REQUEST)
    + LOCAL_MAC + BeBytes32(src) + stale + BeBytes32(ina)
  }

  /** The frame a request goes out as: broadcast, type ARP. */
  function RequestFrame(src: Longword, stale: seq<Byte>, ina: Longword): seq<Byte>
    requires |stale| == 6
  {
    FrameOf(BROADCAST_MAC, SwapBytes(PROTOCOL_ARP), RequestFields(src, stale, ina))
  }

  /** The test sar_MapIn2Eth applies to a delivered frame: type ARP, protocol IP,
      sender IP ina, a reply. */
  predicate ReplyFrom(rx: seq<Byte>, ina: Longword)
  {
    Be16(rx, 12) == PROTOCOL_ARP && Be16(rx, 16) == PROTOCOL_IP
    && Be32(rx, 28) == ina && Be16(rx, 20) == ARP_REPLY
  }

  /** A poll that ends sar_MapIn2Eth: a frame arrived, passed the MAC test and answers. */
  predicate Answered(rx: seq<Byte>, arrival: Option<seq<Byte>>, ina: Longword)
    requires |rx| >= 6
  {
    Arrived(arrival) && MacAccepted(rx[..6]) && ReplyFrom(rx, ina)
  }

  /** None of the n polls from poll k on brought an answer. */
  ghost predicate Unanswered(rx: seq<Byte>, arrivals: nat -> Option<seq<Byte>>, k: nat, n: nat, ina: Longword)
    requires |rx| == BUFFER_SIZE
    decreases n
  {
    n == 0 || (Unanswered(rx, arrivals, k, n - 1, ina) && !Answered(Polled(rx, arrivals, k, n), arrivals(k + n - 1), ina))
  }

  /** The field stores of the request, in the source's order. */
  method WriteRequest(tx: array<Byte>, off: nat, src: Longword, ina: Longword)
    requires tx.Length == BUFFER_SIZE && off == TX_PAYLOAD
    modifies tx
    ensures tx[..] == Splice(old(tx[..]), TX_PAYLOAD, RequestFields(src, old(tx[40..46]), ina))
  {
    NativeStoreOfSwap(ARP_TYPE_ETHER);
    NativeStoreOfSwap(PROTOCOL_IP);
    NativeStoreOfSwap(HW_PROT_LEN);
    NativeStoreOfSwapWords(src);
    NativeStoreOfSwapWords(ina);
    Put(tx, off, LeBytes16(SwapBytes(ARP_TYPE_ETHER)));
    Put(tx, off + 2, LeBytes16(SwapBytes(PROTOCOL_IP)));
    Put(tx, off + 4, LeBytes16(SwapBytes(HW_PROT_LEN)));
    Put(tx, off + 6, LeBytes16(SwapBytes(ARP_REQUEST)));
    Put(tx, off + 14, LeBytes32(SwapWords(src)));
    Put(tx, off + 24, LeBytes32(SwapWords(ina)));
    Put(tx, off + 8, LOCAL_MAC);
    RequestWritten(old(tx[..]), tx[..], src, ina);
  }

  lemma RequestWritten(tx0: seq<Byte>, tx: seq<Byte>, src: Longword, ina: Longword)
    requires |tx0| == BUFFER_SIZE
    requires tx == Splice(Splice(Splice(Splice(Splice(Splice(Splice(tx0,
      22, BeBytes16(ARP_TYPE_ETHER)), 24, BeBytes16(PROTOCOL_IP)), 26, BeBytes16(HW_PROT_LEN)),
      28, BeBytes16(ARP_REQUEST)), 36, BeBytes32(src)), 46, BeBytes32(ina)), 30, LOCAL_MAC)
    ensures tx == Splice(tx0, TX_PAYLOAD, RequestFields(src, tx0[40..46], ina))
  {
    var want := Splice(tx0, TX_PAYLOAD, RequestFields(src, tx0[40..46], ina));
    forall k | 0 <= k < BUFFER_SIZE
      ensures tx[k] == want[k]
    {
    }
  }

  /** One pass of the outer loop of sar_MapIn2Eth up to sed_Send: one request on the wire. */
  method SendRequest(nic: Nic, ina: Longword)
    requires nic.Valid()
    modifies nic.tx, nic.env
    ensures nic.tx[40..46] == old(nic.tx[40..46])
    ensures |nic.env.wire| == |old(nic.env.wire)| + 1 && nic.env.wire[..|old(nic.env.wire)|] == old(nic.env.wire)
    ensures RequestsOf(nic.env.wire, |old(nic.env.wire)|, nic.localIp, old(nic.tx[40..46]), ina)
    ensures nic.env.ticks == old(nic.env.ticks) && nic.env.polls == old(nic.env.polls)
  {
    ghost var tx0 := nic.tx[..];
    var off := nic.FormatPacket(BROADCAST_MAC, SwapBytes(PROTOCOL_ARP));
    assert nic.tx[40..46] == tx0[40..46];
    WriteRequest(nic.tx, off, nic.localIp, ina);
    RequestSent(tx0, nic.env.wire, nic.localIp, ina);
    var ok := nic.Send(ARP_HEADER);
  }

  /** The buffer sar_MapIn2Eth hands to sed_Send carries the request frame, and the
      target address field it never writes keeps its old bytes. */
  lemma RequestSent(tx0: seq<Byte>, wire: seq<seq<Byte>>, src: Longword, ina: Longword)
    requires |tx0| == BUFFER_SIZE
    ensures var t := Splice(Splice(tx0, 0, FrameHeader(BROADCAST_MAC, SwapBytes(PROTOCOL_ARP))),
                            TX_PAYLOAD, RequestFields(src, tx0[40..46], ina));
      && SendBuffer(t, ARP_HEADER)[40..46] == tx0[40..46]
      && RequestsOf(wire + [SendBuffer(t, ARP_HEADER)[..FrameLength(ARP_HEADER) + 12]], |wire|, src, tx0[40..46], ina)
  {
    var stale := tx0[40..46];
    var payload := RequestFields(src, stale, ina);
    var t := Splice(Splice(tx0, 0, FrameHeader(BROADCAST_MAC, SwapBytes(PROTOCOL_ARP))), TX_PAYLOAD, payload);
    assert t[..TX_PAYLOAD] == FrameHeader(BROADCAST_MAC, SwapBytes(PROTOCOL_ARP));
    SentFrameIsFrameOf(t, BROADCAST_MAC, SwapBytes(PROTOCOL_ARP), payload);
    SendKeepsPayload(t, ARP_HEADER);
    var sb := SendBuffer(t, ARP_HEADER);
    assert sb[40..46] == sb[..TX_PAYLOAD + ARP_HEADER][40..46];
    var wire' := wire + [sb[..FrameLength(ARP_HEADER) + 12]];
    assert wire'[|wire|] == RequestFrame(src, stale, ina);
  }

  /** The receive buffer rx holds the polls - p0 polls since poll p0, none of them an answer. */
  ghost predicate Searched(rx: seq<Byte>, arrivals: nat -> Option<seq<Byte>>, polls: nat,
                           rx0: seq<Byte>, p0: nat, ina: Longword)
  {
    && |rx0| == BUFFER_SIZE && polls >= p0
    && rx == Polled(rx0, arrivals, p0, polls - p0)
    && Unanswered(rx0, arrivals, p0, polls - p0, ina)
  }

  /** The last of the polls - p0 polls since poll p0 brought the answer, none before it did. */
  ghost predicate Found(rx: seq<Byte>, arrivals: nat -> Option<seq<Byte>>, polls: nat,
                        rx0: seq<Byte>, p0: nat, ina: Longword)
  {
    && |rx0| == BUFFER_SIZE && polls > p0
    && rx == Polled(rx0, arrivals, p0, polls - p0)
    && Unanswered(rx0, arrivals, p0, polls - p0 - 1, ina)
    && Answered(rx, arrivals(polls - 1), ina)
  }

  /** The body of the inner loop of sar_MapIn2Eth, up to the test of the frame. */
  method PollReply(nic: Nic, ina: Longword, ghost rx0: seq<Byte>, ghost p0: nat) returns (hit: bool)
    requires nic.Valid() && Searched(nic.rx[..], nic.env.arrivals, nic.env.polls, rx0, p0, ina)
    modifies nic.rx, nic.env
    ensures nic.Valid()
    ensures nic.env.polls == old(nic.env.polls) + 1
    ensures nic.env.ticks == old(nic.env.ticks) && nic.env.wire == old(nic.env.wire)
    ensures !hit ==> Searched(nic.rx[..], nic.env.arrivals, nic.env.polls, rx0, p0, ina)
    ensures hit ==> Found(nic.rx[..], nic.env.arrivals, nic.env.polls, rx0, p0, ina)
  {
    var p := nic.IsPacket();
    hit := false;
    if p.Some? {
      var ok := nic.CheckPacket(PROTOCOL_ARP);
      hit := ok && Be16(nic.rx[..], 16) == PROTOCOL_IP && Be32(nic.rx[..], 28) == ina
             && Be16(nic.rx[..], 20) == ARP_REPLY;
    }
    assert hit <==> Answered(nic.rx[..], nic.env.arrivals(nic.env.polls - 1), ina);
  }

  /** Every frame on the wire from entry w0 on is the request for ina from src. */
  ghost predicate RequestsOf(wire: seq<seq<Byte>>, w0: nat, src: Longword, stale: seq<Byte>, ina: Longword)
    requires |stale| == 6
  {
    forall i | w0 <= i < |wire| :: wire[i] == RequestFrame(src, stale, ina)
  }

  lemma RequestsExtend(wire: seq<seq<Byte>>, wire': seq<seq<Byte>>, w0: nat, src: Longword, stale: seq<Byte>, ina: Longword)
    requires |stale| == 6 && w0 <= |wire| <= |wire'| && wire'[..|wire|] == wire
    requires RequestsOf(wire, w0, src, stale, ina) && RequestsOf(wire', |wire|, src, stale, ina)
    ensures RequestsOf(wire', w0, src, stale, ina)
  {
    forall i | w0 <= i < |wire'|
      ensures wire'[i] == RequestFrame(src, stale, ina)
    {
      if i < |wire| {
        assert wire'[i] == wire'[..|wire|][i];
      }
    }
  }

  /** Successive readings more than RETRY_TIME apart (stated from the last pair back). */
  predicate Spaced(sent: seq<nat>)
    decreases |sent|
  {
    |sent| < 2 || (sent[|sent| - 2] + RETRY_TIME < sent[|sent| - 1] && Spaced(sent[..|sent| - 1]))
  }

  lemma {:induction false} SpacedAppend(sent: seq<nat>, t: nat)
    requires Spaced(sent) && (|sent| > 0 ==> sent[|sent| - 1] + RETRY_TIME < t)
    ensures Spaced(sent + [t])
  {
    assert (sent + [t])[..|sent|] == sent;
  }

  /** Any two successive readings of a spaced sequence are more than RETRY_TIME apart. */
  lemma {:induction false} SpacedPairs(sent: seq<nat>)
    requires Spaced(sent)
    ensures forall i | 0 <= i < |sent| - 1 :: sent[i] + RETRY_TIME < sent[i + 1]
    decreases |sent|
  {
    if |sent| >= 2 {
      var init := sent[..|sent| - 1];
      SpacedPairs(init);
      forall i | 0 <= i < |sent| - 1
        ensures sent[i] + RETRY_TIME < sent[i + 1]
      {
        if i < |sent| - 2 {
          assert sent[i] == init[i] && sent[i + 1] == init[i + 1];
        }
      }
    }
  }

  /** The inner loop of sar_MapIn2Eth: poll until a reply answers or the clock passes
      rxMitTime; `now` is the last reading. */
  method AwaitReply(nic: Nic, ina: Longword, rxMitTime: nat, ghost rx0: seq<Byte>, ghost p0: nat)
    returns (hit: bool, now: nat)
    requires nic.Valid() && Searched(nic.rx[..], nic.env.arrivals, nic.env.polls, rx0, p0, ina)
    modifies nic.rx, nic.env
    ensures nic.Valid()
    ensures nic.env.ticks > old(nic.env.ticks)
    ensures nic.env.wire == old(nic.env.wire)
    ensures !hit ==> Searched(nic.rx[..], nic.env.arrivals, nic.env.polls, rx0, p0, ina) && now == nic.env.clock(nic.env.ticks - 1) && now >= rxMitTime
    ensures hit ==> Found(nic.rx[..], nic.env.arrivals, nic.env.polls, rx0, p0, ina)
  {
    hit := false;
    now := nic.env.Now();
    while rxMitTime > now
      invariant nic.Valid() && Searched(nic.rx[..], nic.env.arrivals, nic.env.polls, rx0, p0, ina)
      invariant nic.env.ticks > old(nic.env.ticks) && now == nic.env.clock(nic.env.ticks - 1)
      invariant nic.env.wire == old(nic.env.wire)
      decreases rxMitTime - now
    {
      hit, now := PollOnce(nic, ina, rx0, p0);
      if hit {
        return;
      }
    }
  }

  /** One pass of the inner loop of sar_MapIn2Eth: test the next frame and, when it
      does not answer, read the clock. */
  method PollOnce(nic: Nic, ina: Longword, ghost rx0: seq<Byte>, ghost p0: nat) returns (hit: bool, now: nat)
    requires nic.Valid() && Searched(nic.rx[..], nic.env.arrivals, nic.env.polls, rx0, p0, ina)
    requires nic.env.ticks > 0
    modifies nic.rx, nic.env
    ensures nic.Valid()
    ensures nic.env.wire == old(nic.env.wire)
    ensures !hit ==>
      && Searched(nic.rx[..], nic.env.arrivals, nic.env.polls, rx0, p0, ina)
      && nic.env.ticks == old(nic.env.ticks) + 1 && now == nic.env.clock(nic.env.ticks - 1)
      && now > nic.env.clock(old(nic.env.ticks) - 1)
    ensures hit ==> nic.env.ticks == old(nic.env.ticks) && Found(nic.rx[..], nic.env.arrivals, nic.env.polls, rx0, p0, ina)
  {
    ghost var before := nic.env.ticks;
    hit := PollReply(nic, ina, rx0, p0);
    now := 0;
    if !hit {
      now := nic.env.Now();
      assert nic.env.clock(before - 1) < nic.env.clock(before);
    }
  }

  /** A request goes out after those since w0, all of them the same frame. */
  method Request(nic: Nic, ina: Longword, ghost w0: nat, ghost src: Longword, ghost stale: seq<Byte>)
    requires nic.Valid() && nic.localIp == src && nic.tx[40..46] == stale
    requires w0 <= |nic.env.wire| && RequestsOf(nic.env.wire, w0, src, stale, ina)
    modifies nic.tx, nic.env
    ensures nic.tx[40..46] == stale
    ensures |nic.env.wire| == |old(nic.env.wire)| + 1 && RequestsOf(nic.env.wire, w0, src, stale, ina)
    ensures nic.env.wire[..|old(nic.env.wire)|] == old(nic.env.wire) && nic.env.wire[..w0] == old(nic.env.wire)[..w0]
    ensures nic.env.ticks == old(nic.env.ticks) && nic.env.polls == old(nic.env.polls)
  {
    ghost var wire := nic.env.wire;
    SendRequest(nic, ina);
    RequestsExtend(wire, nic.env.wire, w0, src, stale, ina);
    assert nic.env.wire[..w0] == nic.env.wire[..|wire|][..w0];
  }

  /** One pass of the outer loop of sar_MapIn2Eth: send a request, take the clock
      reading mit, poll until a reply answers or the clock passes mit + RETRY_TIME, and
      when none did, read the clock for the test of the outer loop. */
  method Attempt(nic: Nic, ina: Longword, ghost rx0: seq<Byte>, ghost p0: nat,
                 ghost w0: nat, ghost src: Longword, ghost stale: seq<Byte>) returns (hit: bool, mit: nat, now: nat)
    requires nic.Valid() && Searched(nic.rx[..], nic.env.arrivals, nic.env.polls, rx0, p0, ina)
    requires nic.localIp == src && nic.tx[40..46] == stale
    requires w0 <= |nic.env.wire| && RequestsOf(nic.env.wire, w0, src, stale, ina)
    modifies nic.tx, nic.rx, nic.env
    ensures nic.Valid() && nic.tx[40..46] == stale
    ensures |nic.env.wire| == |old(nic.env.wire)| + 1 && RequestsOf(nic.env.wire, w0, src, stale, ina)
    ensures nic.env.wire[..|old(nic.env.wire)|] == old(nic.env.wire) && nic.env.wire[..w0] == old(nic.env.wire)[..w0]
    ensures mit == nic.env.clock(old(nic.env.ticks)) && nic.env.ticks > old(nic.env.ticks) + 1
    ensures old(nic.env.ticks) > 0 ==> mit > old(nic.env.clock(nic.env.ticks - 1))
    ensures !hit ==>
      && Searched(nic.rx[..], nic.env.arrivals, nic.env.polls, rx0, p0, ina)
      && now == nic.env.clock(nic.env.ticks - 1) && now > mit + RETRY_TIME
    ensures hit ==> Found(nic.rx[..], nic.env.arrivals, nic.env.polls, rx0, p0, ina)
  {
    Request(nic, ina, w0, src, stale);
    mit := nic.env.Now();
    hit, now := AwaitReply(nic, ina, mit + RETRY_TIME, rx0, p0);
    if !hit {
      now := nic.env.Now();
      assert nic.env.clock(nic.env.ticks - 2) < nic.env.clock(nic.env.ticks - 1);
    }
    if old(nic.env.ticks) > 0 {
      assert nic.env.clock(old(nic.env.ticks) - 1) < mit;
    }
  }

  /** sar_MapIn2Eth: r == 1 with the answering MAC in ethap, or r == 0 with ethap as it was.
      sent holds the clock reading taken after each request went out. */
  method MapIn2Eth(nic: Nic, ina: Longword, ethap0: Mac) returns (r: int, ethap: Mac, ghost sent: seq<nat>)
    requires nic.Valid()
    modifies nic, nic.tx, nic.rx, nic.env
    ensures nic.Valid() && nic.localIp == old(nic.localIp)
    ensures r == 0 || r == 1
    ensures r == 1 ==>
      && Found(nic.rx[..], nic.env.arrivals, nic.env.polls, old(nic.rx[..]), old(nic.env.polls), ina)
      && ethap == nic.rx[22..28] && nic.theirMac == ethap
    ensures r == 0 ==>
      && Searched(nic.rx[..], nic.env.arrivals, nic.env.polls, old(nic.rx[..]), old(nic.env.polls), ina)
      && ethap == ethap0 && nic.theirMac == old(nic.theirMac)
      && nic.env.ticks > old(nic.env.ticks)
      && nic.env.clock(nic.env.ticks - 1) >= nic.env.clock(old(nic.env.ticks)) + RESOLVE_TIME
    ensures |nic.env.wire| == |old(nic.env.wire)| + |sent| && nic.env.wire[..|old(nic.env.wire)|] == old(nic.env.wire)
    ensures RequestsOf(nic.env.wire, |old(nic.env.wire)|, nic.localIp, old(nic.tx[40..46]), ina)
    ensures Spaced(sent)
  {
    ghost var rx0, p0, t0 := nic.rx[..], nic.env.polls, nic.env.ticks;
    ethap := ethap0;
    var start := nic.env.Now();
    var endTime := start + RESOLVE_TIME;
    var now := nic.env.Now();
    var hit;
    hit, sent := Resolve(nic, ina, endTime, now, rx0, p0, nic.localIp, nic.tx[40..46]);
    if hit {
      ethap := nic.rx[22..28];
      nic.theirMac := nic.rx[22..28];
      r := 1;
    } else {
      r := 0;
    }
  }

  /** The outer loop of sar_MapIn2Eth: requests go out until one is answered or the
      clock reaches endTime; now is the reading taken before the first test. */
  method Resolve(nic: Nic, ina: Longword, endTime: nat, now: nat, ghost rx0: seq<Byte>, ghost p0: nat,
                 ghost src: Longword, ghost stale: seq<Byte>) returns (hit: bool, ghost sent: seq<nat>)
    requires nic.Valid() && Searched(nic.rx[..], nic.env.arrivals, nic.env.polls, rx0, p0, ina)
    requires nic.localIp == src && nic.tx[40..46] == stale
    requires nic.env.ticks > 0 && now == nic.env.clock(nic.env.ticks - 1)
    modifies nic.tx, nic.rx, nic.env
    ensures nic.Valid() && nic.env.ticks >= old(nic.env.ticks)
    ensures |nic.env.wire| == |old(nic.env.wire)| + |sent| && RequestsOf(nic.env.wire, |old(nic.env.wire)|, src, stale, ina)
    ensures nic.env.wire[..|old(nic.env.wire)|] == old(nic.env.wire)
    ensures Spaced(sent)
    ensures hit ==> Found(nic.rx[..], nic.env.arrivals, nic.env.polls, rx0, p0, ina)
    ensures !hit ==>
      && Searched(nic.rx[..], nic.env.arrivals, nic.env.polls, rx0, p0, ina)
      && nic.env.clock(nic.env.ticks - 1) >= endTime
  {
    ghost var w0 := |nic.env.wire|;
    sent := [];
    hit := false;
    var now := now;
    while endTime > now
      invariant nic.Valid() && nic.localIp == src
      invariant nic.env.ticks >= old(nic.env.ticks) && now == nic.env.clock(nic.env.ticks - 1)
      invariant Searched(nic.rx[..], nic.env.arrivals, nic.env.polls, rx0, p0, ina)
      invariant nic.tx[40..46] == stale
      invariant |nic.env.wire| == w0 + |sent| && RequestsOf(nic.env.wire, w0, src, stale, ina)
      invariant nic.env.wire[..w0] == old(nic.env.wire)
      invariant Spaced(sent)
      invariant |sent| > 0 ==> sent[|sent| - 1] + RETRY_TIME < now
      decreases endTime - now
    {
      ghost var head := nic.env.ticks;
      ghost var wire := nic.env.wire;
      var mit;
      hit, mit, now := Attempt(nic, ina, rx0, p0, w0, src, stale);
      SpacedAppend(sent, mit);
      sent := sent + [mit];
      if hit {
        return;
      }
    }
  }

  /** do_arp: their_ethernet_address becomes the answering MAC, or broadcast on failure. */
  method DoArp(nic: Nic, ip: Longword) returns (r: int)
    requires nic.Valid()
    modifies nic, nic.tx, nic.rx, nic.env
    ensures nic.Valid() && nic.env.polls >= old(nic.env.polls)
    ensures nic.rx[..] == Polled(old(nic.rx[..]), nic.env.arrivals, old(nic.env.polls), nic.env.polls - old(nic.env.polls))
    ensures r == 0 || r == 1
    ensures r == 1 ==>
      && nic.env.polls > old(nic.env.polls)
      && Answered(nic.rx[..], nic.env.arrivals(nic.env.polls - 1), ip)
      && nic.theirMac == nic.rx[22..28]
    ensures r == 0 ==>
      && nic.theirMac == BROADCAST_MAC
      && Unanswered(old(nic.rx[..]), nic.env.arrivals, old(nic.env.polls), nic.env.polls - old(nic.env.polls), ip)
  {
    var found, mac, sent := MapIn2Eth(nic, ip, nic.theirMac);
    if found == 1 {
      r := 1;
    } else {
      nic.theirMac := BROADCAST_MAC;
      r := 0;
    }
  }

  // ----- the exchange ----------------------------------------------------------------------

  /** The frame arp_checkpacket puts on the wire: to the requester, type ARP, the reply
      fields, then the four bytes the transmit buffer held where the target IP goes. */
  lemma ReplySent(tx: seq<Byte>, rx: seq<Byte>)
    requires |tx| == BUFFER_SIZE && |rx| == BUFFER_SIZE
    ensures SendBuffer(ReplyBuffer(tx, rx), ARP_HEADER)[..FrameLength(ARP_HEADER) + 12]
            == FrameOf(rx[22..28], SwapBytes(PROTOCOL_ARP), ReplyFields(rx) + tx[46..50])
  {
    var t := ReplyBuffer(tx, rx);
    var payload := ReplyFields(rx) + tx[46..50];
    assert t[..TX_PAYLOAD] == FrameHeader(rx[22..28], SwapBytes(PROTOCOL_ARP));
    assert t[TX_PAYLOAD..TX_PAYLOAD + ARP_HEADER] == payload;
    SentFrameIsFrameOf(t, rx[22..28], SwapBytes(PROTOCOL_ARP), payload);
  }

  /** What a receiver reads from the request fields: an Ethernet/IP request for ina,
      from src, whose sender MAC is ours. */
  lemma RequestFieldsDecode(r: seq<Byte>, src: Longword, stale: seq<Byte>, ina: Longword)
    requires |stale| == 6 && |r| >= 42 && r[ETH_HEADER..ETH_HEADER + ARP_HEADER] == RequestFields(src, stale, ina)
    ensures IsRequestFor(r, ina) && Be32(r, 28) == src && r[22..28] == LOCAL_MAC
  {
    var p := RequestFields(src, stale, ina);
    Field16Within(r, ETH_HEADER, p, 0);
    Field16Within(r, ETH_HEADER, p, 2);
    Field16Within(r, ETH_HEADER, p, 6);
    Field32Within(r, ETH_HEADER, p, 14);
    Field32Within(r, ETH_HEADER, p, 24);
    Be16At(p, 0, ARP_TYPE_ETHER);
    Be16At(p, 2, PROTOCOL_IP);
    Be16At(p, 6, ARP_REQUEST);
    Be32At(p, 14, src);
    Be32At(p, 24, ina);
    assert p[8..14] == LOCAL_MAC;
    assert r[22..28] == p[8..14] by {
      forall k | 22 <= k < 28
        ensures r[k] == p[k - ETH_HEADER]
      {
      }
    }
  }

  /** A request sar_MapIn2Eth sends, delivered to any host: the broadcast passes its MAC
      test, it is an ARP frame, and arp_checkpacket on the host whose address is ina
      accepts it; the requester's MAC is in the sender field. */
  lemma RequestReachesPeer(rx: seq<Byte>, src: Longword, stale: seq<Byte>, ina: Longword)
    requires |rx| == BUFFER_SIZE && |stale| == 6
    ensures var f := RequestFrame(src, stale, ina)[8..];
      var r := Delivered(rx, Some(f));
      && Arrived(Some(f)) && MacAccepted(r[..6])
      && Be16(r, 12) == PROTOCOL_ARP
      && IsRequestFor(r, ina) && r[22..28] == LOCAL_MAC
  {
    var payload := RequestFields(src, stale, ina);
    var f := RequestFrame(src, stale, ina)[8..];
    var r := Delivered(rx, Some(f));
    FrameArrives(rx, BROADCAST_MAC, SwapBytes(PROTOCOL_ARP), payload);
    MacAcceptance();
    CheckPacketIsNetworkOrder(r, PROTOCOL_ARP);
    RequestFieldsDecode(r, src, stale, ina);
  }

  /** The reply arp_checkpacket sends for a request for ina from a host with our MAC,
      delivered back to that host: it ends sar_MapIn2Eth there, and the MAC it reports
      is the responder's. */
  lemma ReplyReachesRequester(rx: seq<Byte>, req: seq<Byte>, tail: seq<Byte>, ina: Longword)
    requires |rx| == BUFFER_SIZE && |req| == BUFFER_SIZE && |tail| == 4
    requires IsRequestFor(req, ina) && req[22..28] == LOCAL_MAC
    ensures var f := FrameOf(req[22..28], SwapBytes(PROTOCOL_ARP), ReplyFields(req) + tail)[8..];
      var r := Delivered(rx, Some(f));
      && Answered(r, Some(f), ina) && r[22..28] == LOCAL_MAC
  {
    var payload := ReplyFields(req) + tail;
    var f := FrameOf(req[22..28], SwapBytes(PROTOCOL_ARP), payload)[8..];
    var r := Delivered(rx, Some(f));
    FrameArrives(rx, req[22..28], SwapBytes(PROTOCOL_ARP), payload);
    MacAcceptance();
    CheckPacketIsNetworkOrder(r, PROTOCOL_ARP);
    ReplyFieldsDecode(r, req, tail, ina);
  }

  /** What a receiver reads from the reply fields: protocol IP, a reply, sender IP the
      address the request asked for, sender MAC ours. */
  lemma ReplyFieldsDecode(r: seq<Byte>, req: seq<Byte>, tail: seq<Byte>, ina: Longword)
    requires |r| >= 42 && |req| >= 42 && |tail| == 4 && IsRequestFor(req, ina)
    requires r[ETH_HEADER..ETH_HEADER + ARP_HEADER] == ReplyFields(req) + tail
    ensures Be16(r, 16) == PROTOCOL_IP && Be16(r, 20) == ARP_REPLY && Be32(r, 28) == ina
    ensures r[22..28] == LOCAL_MAC
  {
    var p := ReplyFields(req) + tail;
    assert r[16] == req[16] && r[17] == req[17];
    assert r[28] == req[38] && r[29] == req[39] && r[30] == req[40] && r[31] == req[41];
    Field16Within(r, ETH_HEADER, p, 6);
    Be16At(p, 6, ARP_REPLY);
    ReplyMacDecode(r, p, req);
  }

  lemma ReplyMacDecode(r: seq<Byte>, p: seq<Byte>, req: seq<Byte>)
    requires |r| >= 42 && |req| >= 42 && |p| == ARP_HEADER && p[..24] == ReplyFields(req)
    requires r[ETH_HEADER..ETH_HEADER + ARP_HEADER] == p
    ensures r[22..28] == LOCAL_MAC
  {
    assert p[8..14] == ReplyFields(req)[8..14] == LOCAL_MAC;
    forall k | 22 <= k < 28
      ensures r[k] == p[k - ETH_HEADER]
    {
      assert r[k] == r[ETH_HEADER..ETH_HEADER + ARP_HEADER][k - ETH_HEADER];
    }
  }
}

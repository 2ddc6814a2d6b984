/**
 * The older address resolver of ARP.C, written against the serial-line driver
 * (its calls sed_Receive(Byte *) and sed_CheckPacket(Word *, Word) are those of
 * SEDSLIP.C). Unlike TINYARP.C it compares and stores the header fields as
 * they are held in memory, without byte-order conversion; on the little-endian
 * host of this model a 16-bit field v occupies the bytes LeBytes16(v).
 *
 * The packet a request arrives in is the value `ap` (the packet sed_IsPacket
 * returned); bytes read past its end read as 0 and the one field written back
 * into it is returned with the packet.
 */
module ArpLegacy {
  import opened Wire
  import opened Slip
  import Ethernet

  /** (sizeof(struct Ethernet_Address) << 8) + sizeof(IP_Address) */
  const HW_PROT_LEN: Word := 0x0604
  const RESOLVE_TIME: nat := 2000
  const RETRY_TIME: nat := 250

  /** The packet as the header overlay sees it: at least 28 bytes, zeros past its end. */
  function Widen(ap: seq<Byte>): (w: seq<Byte>)
    ensures |w| >= ARP_HEADER
    ensures forall i | 0 <= i < |w| :: w[i] == ByteAt(ap, i)
  {
    if |ap| >= ARP_HEADER then ap else ap + seq(ARP_HEADER - |ap|, _ => 0)
  }

  /** The test of sar_CheckPacket, on the fields as stored. */
  predicate IsRequestFor(ap: seq<Byte>, local: Longword)
  {
    Le16(ap, 0) == ARP_TYPE_ETHER && Le16(ap, 2) == PROTOCOL_IP
    && Le16(ap, 6) == ARP_REQUEST && Le32(ap, 24) == local
  }

  /** The four header words both senders store first: hardware type, protocol type, the
      two address lengths and the operation op, as held in memory. */
  function OpWords(op: Word): (r: seq<Byte>)
    ensures |r| == 8
  {
    LeBytes16(ARP_TYPE_ETHER) + LeBytes16(PROTOCOL_IP) + LeBytes16(HW_PROT_LEN) + LeBytes16(op)
  }

  /** The first four stores of sar_CheckPacket and sar_MapIn2Eth. */
  method PutOpWords(xmit: array<Byte>, off: nat, op: Word)
    requires xmit.Length == BUFFERSIZE && off == 0
    modifies xmit
    ensures xmit[..] == Splice(old(xmit[..]), 0, OpWords(op))
  {
    Put(xmit, off, LeBytes16(ARP_TYPE_ETHER));
    Put(xmit, off + 2, LeBytes16(PROTOCOL_IP));
    Put(xmit, off + 4, LeBytes16(HW_PROT_LEN));
    Put(xmit, off + 6, LeBytes16(op));
    OpWordsWritten(old(xmit[..]), xmit[..], op);
  }

  lemma OpWordsWritten(x0: seq<Byte>, x: seq<Byte>, op: Word)
    requires |x0| == BUFFERSIZE
    requires x == Splice(Splice(Splice(Splice(x0, 0, LeBytes16(ARP_TYPE_ETHER)), 2, LeBytes16(PROTOCOL_IP)),
                                4, LeBytes16(HW_PROT_LEN)), 6, LeBytes16(op))
    ensures x == Splice(x0, 0, OpWords(op))
  {
    var want := Splice(x0, 0, OpWords(op));
    forall k | 0 <= k < BUFFERSIZE
      ensures x[k] == want[k]
    {
    }
  }

  /** The 28 bytes of the reply sar_CheckPacket sends: sender MAC ours, sender IP local,
      target MAC the requester's; the target IP keeps the bytes `stale` of the buffer. */
  function ReplyFields(ap: seq<Byte>, local: Longword, stale: seq<Byte>): (r: seq<Byte>)
    requires |ap| >= ARP_HEADER && |stale| == 4
    ensures |r| == ARP_HEADER
  {
    OpWords(ARP_REPLY) + Ethernet.LOCAL_MAC + LeBytes32(local) + ap[8..14] + stale
  }

  /** sar_CheckPacket: r == 1 exactly for a request for local; then the reply is on the
      line and the request's target IP holds local. Otherwise nothing changes. */
  method CheckPacket(link: SlipLink, ap: seq<Byte>, local: Longword) returns (r: int, ap': seq<Byte>)
    requires link.Valid()
    modifies link, link.xmit
    ensures link.Valid() && link.State() == old(link.State()) && link.input == old(link.input)
    ensures r == 1 <==> IsRequestFor(ap, local)
    ensures r == 0 || r == 1
    ensures r == 0 ==> ap' == ap && link.line == old(link.line) && link.xmit[..] == old(link.xmit[..])
    ensures r == 1 ==>
      && ap' == Splice(Widen(ap), 24, LeBytes32(local))
      && link.xmit[..] == Splice(old(link.xmit[..]), 0, ReplyFields(Widen(ap), local, old(link.xmit[24..28])))
      && link.line == old(link.line) + Frame(link.xmit[..ARP_HEADER])
  {
    ap' := ap;
    if Le16(ap, 0) != ARP_TYPE_ETHER || Le16(ap, 2) != PROTOCOL_IP
       || Le16(ap, 6) != ARP_REQUEST || Le32(ap, 24) != local {
      r := 0;
      return;
    }
    var w := Widen(ap);
    var off := link.FormatPacket(w[8..14], PROTOCOL_ARP);
    WriteReply(link.xmit, off, w, local);
    ap' := Splice(w, 24, LeBytes32(local));
    r := link.Send(ARP_HEADER);
    r := 1;
  }

  /** The field stores of sar_CheckPacket into the transmit buffer, in the source's order. */
  method WriteReply(xmit: array<Byte>, off: nat, ap: seq<Byte>, local: Longword)
    requires xmit.Length == BUFFERSIZE && off == 0 && |ap| >= ARP_HEADER
    modifies xmit
    ensures xmit[..] == Splice(old(xmit[..]), 0, ReplyFields(ap, local, old(xmit[24..28])))
  {
    PutOpWords(xmit, off, ARP_REPLY);
    Put(xmit, off + 14, LeBytes32(local));
    Put(xmit, off + 8, Ethernet.LOCAL_MAC);
    Put(xmit, off + 18, ap[8..14]);
    ReplyWritten(old(xmit[..]), xmit[..], ap, local);
  }

  lemma ReplyWritten(x0: seq<Byte>, x: seq<Byte>, ap: seq<Byte>, local: Longword)
    requires |x0| == BUFFERSIZE && |ap| >= ARP_HEADER
    requires x == Splice(Splice(Splice(Splice(x0, 0, OpWords(ARP_REPLY)),
      14, LeBytes32(local)), 8, Ethernet.LOCAL_MAC), 18, ap[8..14])
    ensures x == Splice(x0, 0, ReplyFields(ap, local, x0[24..28]))
  {
    var want := Splice(x0, 0, ReplyFields(ap, local, x0[24..28]));
    forall k | 0 <= k < BUFFERSIZE
      ensures x[k] == want[k]
    {
    }
  }

  // ----- the resolver ----------------------------------------------------------------------

  /** The 28 bytes of a request: sender IP local, target IP ina, the target MAC left as
      the bytes `stale` of the buffer. */
  function RequestFields(local: Longword, stale: seq<Byte>, ina: Longword): (r: seq<Byte>)
    requires |stale| == 6
    ensures |r| == ARP_HEADER
  {
    OpWords(ARP_REQUEST) + Ethernet.LOCAL_MAC + LeBytes32(local) + stale + LeBytes32(ina)
  }

  /** The test sar_MapIn2Eth applies to a packet after sed_CheckPacket(op, 0x806). */
  predicate IsReplyFrom(op: seq<Byte>, ina: Longword)
  {
    Le16(op, 2) == PROTOCOL_IP && Le32(op, 14) == ina && Le16(op, 6) == ARP_REPLY
  }

  /** n copies of the framed request. */
  function Repeated(frame: seq<Byte>, n: nat): (r: seq<Byte>)
    ensures |r| == n * |frame|
  {
    if n == 0 then [] else Repeated(frame, n - 1) + frame
  }

  method WriteRequest(xmit: array<Byte>, off: nat, local: Longword, ina: Longword)
    requires xmit.Length == BUFFERSIZE && off == 0
    modifies xmit
    ensures xmit[..] == Splice(old(xmit[..]), 0, RequestFields(local, old(xmit[18..24]), ina))
  {
    PutOpWords(xmit, off, ARP_REQUEST);
    Put(xmit, off + 14, LeBytes32(local));
    Put(xmit, off + 8, Ethernet.LOCAL_MAC);
    Put(xmit, off + 24, LeBytes32(ina));
    RequestWritten(old(xmit[..]), xmit[..], local, ina);
  }

  lemma RequestWritten(x0: seq<Byte>, x: seq<Byte>, local: Longword, ina: Longword)
    requires |x0| == BUFFERSIZE
    requires x == Splice(Splice(Splice(Splice(x0, 0, OpWords(ARP_REQUEST)),
      14, LeBytes32(local)), 8, Ethernet.LOCAL_MAC), 24, LeBytes32(ina))
    ensures x == Splice(x0, 0, RequestFields(local, x0[18..24], ina))
  {
    var want := Splice(x0, 0, RequestFields(local, x0[18..24], ina));
    forall k | 0 <= k < BUFFERSIZE
      ensures x[k] == want[k]
    {
    }
  }

  /** sar_MapIn2Eth over the serial line. sed_CheckPacket(op, 0x806) is 0 there, so no
      packet ends the search: after RESOLVE_TIME it returns 0 with ethap untouched, having
      sent n framed copies of the request. */
  method MapIn2Eth(link: SlipLink, env: Ethernet.Env, local: Longword, ina: Longword, ethap0: Mac)
    returns (r: int, ethap: Mac, ghost n: nat)
    requires link.Valid() && env.Valid()
    modifies link, link.xmit, env
    ensures link.Valid() && env.Valid()
    ensures r == 0 && ethap == ethap0
    ensures link.line == old(link.line) + Repeated(Frame(RequestFields(local, old(link.xmit[18..24]), ina)), n)
    ensures env.ticks > old(env.ticks)
    ensures env.clock(env.ticks - 1) >= env.clock(old(env.ticks)) + RESOLVE_TIME
  {
    ghost var stale, line0, t0 := link.xmit[18..24], link.line, env.ticks;
    ghost var frame := Frame(RequestFields(local, stale, ina));
    ethap := ethap0;
    var enabled := link.EnableReceive();
    var start := env.Now();
    var endTime := start + RESOLVE_TIME;
    var now := env.Now();
    n := 0;
    while endTime > now
      invariant link.Valid() && env.Valid() && link.xmit[18..24] == stale
      invariant link.line == line0 + Repeated(frame, n)
      invariant env.ticks > t0 + 1 && now == env.clock(env.ticks - 1) && start == env.clock(t0)
      decreases endTime - now
    {
      now := Attempt(link, env, local, ina, frame);
      AppendAssoc(line0, Repeated(frame, n), frame);
      n := n + 1;
    }
    r := 0;
  }

  /** One pass of the outer loop of sar_MapIn2Eth: send the request, listen for
      RETRY_TIME, read the clock for the outer test. */
  method Attempt(link: SlipLink, env: Ethernet.Env, local: Longword, ina: Longword, ghost frame: seq<Byte>)
    returns (now: nat)
    requires link.Valid() && env.Valid() && env.ticks > 0
    requires frame == Frame(RequestFields(local, link.xmit[18..24], ina))
    modifies link, link.xmit, env
    ensures link.Valid() && link.xmit[18..24] == old(link.xmit[18..24])
    ensures link.line == old(link.line) + frame
    ensures env.ticks > old(env.ticks) && now == env.clock(env.ticks - 1)
    ensures now > env.clock(old(env.ticks) - 1)
  {
    SendRequest(link, local, ina, frame);
    now := Wait(link, env, ina);
  }

  /** The rest of one pass of the outer loop: the clock reading mit, the polls until the
      clock passes mit + RETRY_TIME, and the reading for the outer test. */
  method Wait(link: SlipLink, env: Ethernet.Env, ina: Longword) returns (now: nat)
    requires link.Valid() && env.Valid() && env.ticks > 0
    modifies link, env
    ensures link.Valid() && link.line == old(link.line)
    ensures env.ticks > old(env.ticks) && now == env.clock(env.ticks - 1)
    ensures now > env.clock(old(env.ticks) - 1)
  {
    ghost var before := env.ticks;
    var mit := env.Now();
    now := Listen(link, env, ina, mit + RETRY_TIME);
    now := env.Now();
    assert env.clock(before - 1) < env.clock(env.ticks - 1);
  }

  /** The request fields and sed_Send: one framed request on the line. */
  method SendRequest(link: SlipLink, local: Longword, ina: Longword, ghost frame: seq<Byte>)
    requires link.Valid() && frame == Frame(RequestFields(local, link.xmit[18..24], ina))
    modifies link, link.xmit
    ensures link.Valid() && link.xmit[18..24] == old(link.xmit[18..24])
    ensures link.line == old(link.line) + frame
  {
    var off := link.FormatPacket(BROADCAST_MAC, PROTOCOL_ARP);
    WriteRequest(link.xmit, off, local, ina);
    assert link.xmit[..ARP_HEADER] == RequestFields(local, old(link.xmit[18..24]), ina);
    assert link.xmit[18..24] == link.xmit[..ARP_HEADER][18..24];
    var sent := link.Send(ARP_HEADER);
  }

  /** The inner loop of sar_MapIn2Eth: poll the line until the clock passes rxMitTime;
      every packet fails the test and reception is re-armed. Returns the last reading. */
  method Listen(link: SlipLink, env: Ethernet.Env, ina: Longword, rxMitTime: nat) returns (now: nat)
    requires link.Valid() && env.Valid()
    modifies link, env
    ensures link.Valid() && link.line == old(link.line)
    ensures env.ticks > old(env.ticks) && now == env.clock(env.ticks - 1) && now >= rxMitTime
  {
    now := env.Now();
    while rxMitTime > now
      invariant link.Valid() && link.line == old(link.line)
      invariant env.ticks > old(env.ticks) && now == env.clock(env.ticks - 1)
      decreases rxMitTime - now
    {
      ghost var before := env.ticks;
      var op := link.IsPacket();
      if op.Some? {
        var ok := link.CheckPacket(PROTOCOL_ARP);
        var reply := IsReplyFrom(op.value, ina);
        if ok && reply {
          assert false;
        }
        var enabled := link.EnableReceive();
      }
      now := env.Now();
      assert env.clock(before - 1) < env.clock(before);
    }
  }

  // ----- the exchange ----------------------------------------------------------------------

  /** A request sent on the line reaches an idle receiver intact, and a responder whose
      local address is ina accepts it. */
  lemma RequestReachesPeer(d: Decoder, local: Longword, stale: seq<Byte>, ina: Longword, more: seq<Byte>)
    requires Idle(d) && |stale| == 6
    ensures Receive(d, Frame(RequestFields(local, stale, ina)) + more).2 == Some(RequestFields(local, stale, ina))
    ensures IsRequestFor(RequestFields(local, stale, ina), ina)
  {
    var p := RequestFields(local, stale, ina);
    FrameRoundTrip(d, p, more);
    Le16At(p, 0, ARP_TYPE_ETHER);
    Le16At(p, 2, PROTOCOL_IP);
    Le16At(p, 6, ARP_REQUEST);
    Le32At(p, 24, ina);
  }

  /** The reply a responder with address ina sends to a request passes the test of
      sar_MapIn2Eth for ina, names our MAC as sender and the requester's as target. */
  lemma ReplyAnswers(req: seq<Byte>, ina: Longword, stale: seq<Byte>)
    requires |req| >= ARP_HEADER && |stale| == 4
    ensures var rep := ReplyFields(req, ina, stale);
      && IsReplyFrom(rep, ina) && rep[8..14] == Ethernet.LOCAL_MAC && rep[18..24] == req[8..14]
  {
    var rep := ReplyFields(req, ina, stale);
    Le16At(rep, 2, PROTOCOL_IP);
    Le16At(rep, 6, ARP_REPLY);
    Le32At(rep, 14, ina);
  }

  /** Repeated frames: one more copy is one more frame at the end. */
  lemma {:induction false} RepeatedSplit(frame: seq<Byte>, n: nat, k: nat)
    requires k <= n
    ensures Repeated(frame, n) == Repeated(frame, k) + Repeated(frame, n - k)
    decreases n
  {
    if n > k {
      RepeatedSplit(frame, n - 1, k);
    }
  }
}

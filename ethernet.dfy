/**
 * The Ethernet driver of SED.C. The transmit buffer holds preamble and SFD
 * (8 bytes), the 14-byte Ethernet header and the payload; sed_Send pads short
 * frames to 60 bytes, appends the frame check sequence and hands the frame
 * to the hardware. Received frames land at the start of the receive buffer
 * and are accepted byte by byte against the local and the broadcast address.
 *
 * The hardware and the clock are an environment (class Env): the k-th
 * reading of MsecClock and the k-th result of rcv_frame are fixed in advance
 * and every frame put on the wire is appended to a ghost log.
 */
module Ethernet {
  import opened Wire
  import opened FrameCheck

  const BUFFER_SIZE: nat := 4096
  /** E10P_MIN: the minimum frame length, header included, FCS excluded */
  const E10P_MIN: nat := 60
  /** the largest frame rcv_frame is asked for */
  const ETH_MTU: nat := 1518
  /** preamble and start-of-frame delimiter */
  const PREAMBLE: seq<Byte> := [0x55, 0x55, 0x55, 0x55, 0x55, 0x55, 0x55, 0xD5]
  /** the address sed_Init makes up for this host */
  const LOCAL_MAC: Mac := [0x00, 0x12, 0x34, 0x56, 0x78, 0x90]
  /** where the payload starts in the transmit buffer */
  const TX_PAYLOAD: nat := 22

  // ----- frames --------------------------------------------------------------------------

  /** What sed_FormatPacket writes at the start of the transmit buffer; the type is
      stored natively, so callers pass it already byte-swapped. */
  function FrameHeader(dst: Mac, ethType: Word): (r: seq<Byte>)
    ensures |r| == TX_PAYLOAD
  {
    PREAMBLE + dst + LOCAL_MAC + LeBytes16(ethType)
  }

  /** The frame length sed_Send settles on for a payload of len bytes. */
  function FrameLength(len: int): (r: int)
    ensures r >= E10P_MIN && r >= len + ETH_HEADER
    ensures r == len + ETH_HEADER || (r == E10P_MIN && len + ETH_HEADER < E10P_MIN)
  {
    if len + ETH_HEADER < E10P_MIN then E10P_MIN else len + ETH_HEADER
  }

  /** The padding: each pad byte holds its offset in the frame. */
  function Padding(from: int): (r: seq<Byte>)
    requires from >= 0
    ensures |r| == if from < E10P_MIN then E10P_MIN - from else 0
    ensures forall i :: 0 <= i < |r| ==> r[i] == (from + i) % 0x100
  {
    if from < E10P_MIN then seq<Byte>(E10P_MIN - from, i requires 0 <= i < E10P_MIN - from => (from + i) % 0x100)
    else []
  }

  /** The transmit buffer after the padding loop of sed_Send. */
  function Padded(tx: seq<Byte>, len: int): (r: seq<Byte>)
    requires |tx| == BUFFER_SIZE && len + TX_PAYLOAD >= 0
    ensures |r| == BUFFER_SIZE
  {
    var from := len + ETH_HEADER;
    seq<Byte>(|tx|, k requires 0 <= k < |tx| =>
      if 8 + from <= k < 8 + E10P_MIN then (k - 8) % 0x100 else tx[k])
  }

  /** The transmit buffer as sed_Send leaves it: padded, with the FCS of the frame
      (preamble and SFD excluded) stored natively right after it. */
  function SendBuffer(tx: seq<Byte>, len: int): (r: seq<Byte>)
    requires |tx| == BUFFER_SIZE && 0 <= len + TX_PAYLOAD <= BUFFER_SIZE - 4
    ensures |r| == BUFFER_SIZE
  {
    var p := Padded(tx, len);
    var n := FrameLength(len);
    Splice(p, 8 + n, LeBytes32(Fcs(p[8..8 + n]) as int))
  }

  /** The Ethernet frame carrying payload to dst, as it goes on the wire. */
  function FrameBody(dst: Mac, ethType: Word, payload: seq<Byte>): seq<Byte>
  {
    dst + LOCAL_MAC + LeBytes16(ethType) + payload + Padding(ETH_HEADER + |payload|)
  }

  function FrameOf(dst: Mac, ethType: Word, payload: seq<Byte>): seq<Byte>
  {
    var body := FrameBody(dst, ethType, payload);
    PREAMBLE + body + LeBytes32(Fcs(body) as int)
  }

  /** Where the header fields and the payload sit in a frame body. */
  lemma BodyLayout(dst: Mac, ethType: Word, payload: seq<Byte>)
    ensures var body := FrameBody(dst, ethType, payload);
      && |body| == FrameLength(|payload|)
      && body[..6] == dst
      && body[6..12] == LOCAL_MAC
      && body[12..14] == LeBytes16(ethType)
      && body[ETH_HEADER..ETH_HEADER + |payload|] == payload
  {
    var body := FrameBody(dst, ethType, payload);
    var rest := payload + Padding(ETH_HEADER + |payload|);
    assert body == dst + LOCAL_MAC + LeBytes16(ethType) + rest;
    assert body[ETH_HEADER..] == rest;
  }

  /** A frame is preamble and SFD, at least 60 bytes of header, payload and padding,
      and the IEEE 802.3 CRC-32 of those bytes, low byte first. */
  lemma FrameLayout(dst: Mac, ethType: Word, payload: seq<Byte>)
    ensures var f := FrameOf(dst, ethType, payload);
      && |f| == FrameLength(|payload|) + 12
      && f[..8] == PREAMBLE
      && f[8..|f| - 4] == FrameBody(dst, ethType, payload)
      && Le32(f, |f| - 4) == Crc32(f[8..|f| - 4]) as int
  {
    var body := FrameBody(dst, ethType, payload);
    BodyLayout(dst, ethType, payload);
    TrailerAt(PREAMBLE, body, Fcs(body) as int);
    FcsIsCrc32(body);
  }

  /** A buffer holding the header and the payload is sent as FrameOf. */
  lemma SentFrameIsFrameOf(tx: seq<Byte>, dst: Mac, ethType: Word, payload: seq<Byte>)
    requires |tx| == BUFFER_SIZE && |payload| <= BUFFER_SIZE - 26
    requires tx[..TX_PAYLOAD] == FrameHeader(dst, ethType)
    requires tx[TX_PAYLOAD..TX_PAYLOAD + |payload|] == payload
    ensures SendBuffer(tx, |payload|)[..FrameLength(|payload|) + 12] == FrameOf(dst, ethType, payload)
  {
    var p := Padded(tx, |payload|);
    var n := FrameLength(|payload|);
    PaddedFrame(tx, dst, ethType, payload);
    assert p[8..8 + n] == FrameBody(dst, ethType, payload);
    SplicePrefix(p, 8 + n, LeBytes32(Fcs(p[8..8 + n]) as int));
  }

  /** sed_Send leaves the header and the payload it was given as they were. */
  lemma SendKeepsPayload(tx: seq<Byte>, len: nat)
    requires |tx| == BUFFER_SIZE && len <= BUFFER_SIZE - 26
    ensures SendBuffer(tx, len)[..TX_PAYLOAD + len] == tx[..TX_PAYLOAD + len]
  {
    var p := Padded(tx, len);
    var n := FrameLength(len);
    assert p[..TX_PAYLOAD + len] == tx[..TX_PAYLOAD + len];
    SplicePrefix(p, 8 + n, LeBytes32(Fcs(p[8..8 + n]) as int));
    assert SendBuffer(tx, len)[..TX_PAYLOAD + len] == (p[..8 + n] + LeBytes32(Fcs(p[8..8 + n]) as int))[..TX_PAYLOAD + len];
  }

  /** After the padding loop the buffer holds preamble and SFD and the frame body. */
  lemma PaddedFrame(tx: seq<Byte>, dst: Mac, ethType: Word, payload: seq<Byte>)
    requires |tx| == BUFFER_SIZE && |payload| <= BUFFER_SIZE - 26
    requires tx[..TX_PAYLOAD] == FrameHeader(dst, ethType)
    requires tx[TX_PAYLOAD..TX_PAYLOAD + |payload|] == payload
    ensures var n := FrameLength(|payload|);
      && Padded(tx, |payload|)[..8 + n] == PREAMBLE + FrameBody(dst, ethType, payload)
      && Padded(tx, |payload|)[8..8 + n] == FrameBody(dst, ethType, payload)
  {
    var len := |payload|;
    var p := Padded(tx, len);
    var n := FrameLength(len);
    var body := FrameBody(dst, ethType, payload);
    var pad := Padding(ETH_HEADER + len);
    var sent := FrameHeader(dst, ethType) + payload;
    assert tx[..TX_PAYLOAD + len] == sent by {
      assert tx[..TX_PAYLOAD + len] == tx[..TX_PAYLOAD] + tx[TX_PAYLOAD..TX_PAYLOAD + len];
    }
    assert PREAMBLE + body == sent + pad;
    forall k | 0 <= k < 8 + n
      ensures p[k] == (sent + pad)[k]
    {
      if k < TX_PAYLOAD + len {
        assert p[k] == tx[k];
      }
    }
    assert p[..8 + n] == PREAMBLE + body;
    assert p[8..8 + n] == (PREAMBLE + body)[8..];
  }

  /** sed_checkMAC: every destination byte is the local byte or 0xFF, judged per byte. */
  predicate MacAccepted(dst: seq<Byte>)
    requires |dst| >= 6
  {
    forall i :: 0 <= i < 6 ==> dst[i] == LOCAL_MAC[i] || dst[i] == 0xFF
  }

  /** The local and the broadcast address pass; since the test is per byte, so does a
      mixture of the two, and an address with one foreign byte does not. */
  lemma MacAcceptance()
    ensures MacAccepted(LOCAL_MAC) && MacAccepted(BROADCAST_MAC)
    ensures MacAccepted([0x00, 0xFF, 0x34, 0xFF, 0x78, 0xFF])
    ensures !MacAccepted([0x00, 0x12, 0x34, 0x56, 0x78, 0x91])
  {
    var m: seq<Byte> := [0x00, 0x12, 0x34, 0x56, 0x78, 0x91];
    assert m[5] != LOCAL_MAC[5] && m[5] != 0xFF;
  }

  /** The receive buffer after rcv_frame(ETH_MTU): a frame longer than the MTU is cut. */
  function Delivered(rx: seq<Byte>, arrival: Option<seq<Byte>>): (r: seq<Byte>)
    requires |rx| == BUFFER_SIZE
    ensures |r| == BUFFER_SIZE
  {
    match arrival
    case None => rx
    case Some(f) => Splice(rx, 0, if |f| <= ETH_MTU then f else f[..ETH_MTU])
  }

  /** The receive buffer after n polls, the first of which is poll k. */
  function Polled(rx: seq<Byte>, arrivals: nat -> Option<seq<Byte>>, k: nat, n: nat): (r: seq<Byte>)
    requires |rx| == BUFFER_SIZE
    ensures |r| == BUFFER_SIZE
    decreases n
  {
    if n == 0 then rx else Delivered(Polled(rx, arrivals, k, n - 1), arrivals(k + n - 1))
  }

  /** rcv_frame returned a non-zero count */
  predicate Arrived(arrival: Option<seq<Byte>>)
  {
    arrival.Some? && |arrival.value| > 0
  }

  /** The frame a peer's driver receives when this host sends FrameOf: the hardware
      strips preamble and SFD. Such a frame is accepted exactly when its destination
      passes the MAC test, and the receiver finds type and payload where they were put. */
  lemma FrameArrives(rx: seq<Byte>, dst: Mac, ethType: Word, payload: seq<Byte>)
    requires |rx| == BUFFER_SIZE && |payload| <= ETH_MTU - 18
    ensures var f := FrameOf(dst, ethType, payload)[8..];
      var r := Delivered(rx, Some(f));
      && Arrived(Some(f))
      && (MacAccepted(r[..6]) <==> MacAccepted(dst))
      && r[6..12] == LOCAL_MAC
      && Le16(r, 12) == ethType
      && r[ETH_HEADER..ETH_HEADER + |payload|] == payload
  {
    FrameLayout(dst, ethType, payload);
    var full := FrameOf(dst, ethType, payload);
    var body := FrameBody(dst, ethType, payload);
    assert full[8..] == body + full[|full| - 4..];
    BodyArrives(rx, dst, ethType, payload, full[|full| - 4..]);
  }

  lemma BodyArrives(rx: seq<Byte>, dst: Mac, ethType: Word, payload: seq<Byte>, trailer: seq<Byte>)
    requires |rx| == BUFFER_SIZE && |payload| <= ETH_MTU - 18 && |trailer| == 4
    ensures var f := FrameBody(dst, ethType, payload) + trailer;
      var r := Delivered(rx, Some(f));
      && Arrived(Some(f))
      && (MacAccepted(r[..6]) <==> MacAccepted(dst))
      && r[6..12] == LOCAL_MAC
      && Le16(r, 12) == ethType
      && r[ETH_HEADER..ETH_HEADER + |payload|] == payload
  {
    BodyLayout(dst, ethType, payload);
    var body := FrameBody(dst, ethType, payload);
    var f := body + trailer;
    var r := Delivered(rx, Some(f));
    assert |f| <= ETH_MTU;
    assert r[..|f|] == f;
    assert r[..|body|] == body;
    assert r[..6] == dst;
    assert r[6..12] == body[6..12];
    assert r[12..14] == LeBytes16(ethType);
    Le16At(r, 12, ethType);
    assert r[ETH_HEADER..ETH_HEADER + |payload|] == body[ETH_HEADER..ETH_HEADER + |payload|];
  }

  /** The test of sed_CheckPacket: the natively read type equals rev_word(expected),
      which is the type read in network order equals expected. */
  lemma CheckPacketIsNetworkOrder(rx: seq<Byte>, expected: Word)
    ensures Le16(rx, 12) == SwapBytes(expected) <==> Be16(rx, 12) == expected
  {
    var t := Le16(rx, 12);
    assert Hi(t) == ByteAt(rx, 13) && Lo(t) == ByteAt(rx, 12);
    var s := SwapBytes(expected);
    assert t == Hi(t) * 0x100 + Lo(t) && s == Hi(s) * 0x100 + Lo(s);
  }

  // ----- the hardware and the clock ----------------------------------------------------------

  /** Strictly increasing readings: every polling loop on the clock ends. */
  ghost predicate Monotonic(clock: nat -> nat)
  {
    forall j, k :: 0 <= j < k ==> clock(j) < clock(k)
  }

  class Env {
    /** clock(k): the k-th value MsecClock returns */
    const clock: nat -> nat
    /** arrivals(k): the k-th rcv_frame outcome, None when it times out */
    const arrivals: nat -> Option<seq<Byte>>
    var ticks: nat
    var polls: nat
    /** every frame handed to xmt_frame, in order */
    ghost var wire: seq<seq<Byte>>

    ghost predicate Valid()
    {
      Monotonic(clock)
    }

    constructor (clock: nat -> nat, arrivals: nat -> Option<seq<Byte>>)
      requires Monotonic(clock)
      ensures Valid() && this.clock == clock && this.arrivals == arrivals
      ensures ticks == 0 && polls == 0 && wire == []
    {
      this.clock := clock;
      this.arrivals := arrivals;
      ticks, polls, wire := 0, 0, [];
    }

    /** MsecClock */
    method Now() returns (t: nat)
      modifies this
      ensures t == clock(old(ticks)) && ticks == old(ticks) + 1
      ensures polls == old(polls) && wire == old(wire)
    {
      t := clock(ticks);
      ticks := ticks + 1;
    }

    /** rcv_frame: the next outcome */
    method Poll() returns (f: Option<seq<Byte>>)
      modifies this
      ensures f == arrivals(old(polls)) && polls == old(polls) + 1
      ensures ticks == old(ticks) && wire == old(wire)
    {
      f := arrivals(polls);
      polls := polls + 1;
    }

    /** xmt_frame */
    method Transmit(frame: seq<Byte>)
      modifies this`wire
      ensures wire == old(wire) + [frame]
      ensures ticks == old(ticks) && polls == old(polls)
    {
      wire := wire + [frame];
    }
  }

  // ----- the driver ----------------------------------------------------------------------

  /** The driver's statics (sed_tx, sed_rx) and the addresses the protocols share. */
  class Nic {
    const tx: array<Byte>
    const rx: array<Byte>
    const env: Env
    /** MY_ADDR, the configured IP address of this host */
    const myAddr: Longword
    /** their_ethernet_address */
    var theirMac: Mac
    /** local_IP_address */
    var localIp: Longword

    ghost predicate Valid()
      reads this, env
    {
      tx.Length == BUFFER_SIZE && rx.Length == BUFFER_SIZE && tx != rx && env.Valid()
    }

    /** sed_Init: the buffers and addresses; the port writes are the hardware's. sed_Init never
        stores into their_ethernet_address, so it keeps the zero of its static storage until ARP
        sets it. */
    constructor (env: Env, myAddr: Longword)
      requires env.Valid()
      ensures Valid() && this.env == env && this.myAddr == myAddr
      ensures fresh(tx) && fresh(rx)
      ensures theirMac == ZERO_MAC && localIp == 0
    {
      tx := new Byte[BUFFER_SIZE];
      rx := new Byte[BUFFER_SIZE];
      this.env := env;
      this.myAddr := myAddr;
      theirMac := ZERO_MAC;
      localIp := 0;
    }

    /** sed_FormatPacket: returns the payload offset in the transmit buffer. */
    method FormatPacket(dst: Mac, ethType: Word) returns (off: nat)
      requires Valid()
      modifies tx
      ensures off == TX_PAYLOAD
      ensures tx[..] == Splice(old(tx[..]), 0, FrameHeader(dst, ethType))
    {
      var i := 0;
      while i < 7
        invariant 0 <= i <= 7
        invariant forall k :: 0 <= k < tx.Length ==> tx[k] == if k < i then 0x55 else old(tx[k])
      {
        tx[i] := 0x55;
        i := i + 1;
      }
      tx[7] := 0xD5;
      assert tx[..8] == PREAMBLE;
      Put(tx, 8, dst);
      Put(tx, 14, LOCAL_MAC);
      Put(tx, 20, LeBytes16(ethType));
      assert tx[..TX_PAYLOAD] == FrameHeader(dst, ethType) by {
        assert tx[..TX_PAYLOAD] == tx[..8] + tx[8..14] + tx[14..20] + tx[20..22];
      }
      off := TX_PAYLOAD;
    }

    /** sed_Send: len is the payload length. */
    method Send(len: int) returns (r: int)
      requires Valid() && 0 <= len + TX_PAYLOAD <= BUFFER_SIZE - 4
      modifies tx, env`wire
      ensures tx[..] == SendBuffer(old(tx[..]), len)
      ensures env.wire == old(env.wire) + [tx[..FrameLength(len) + 12]]
      ensures env.ticks == old(env.ticks) && env.polls == old(env.polls)
      ensures r == 1
    {
      var length := len + ETH_HEADER;
      if length < E10P_MIN {
        var i := length;
        while i < E10P_MIN
          invariant length <= i <= E10P_MIN
          invariant unchanged(env)
          invariant forall k :: 0 <= k < tx.Length ==>
            tx[k] == if 8 + length <= k < 8 + i then (k - 8) % 0x100 else old(tx[k])
        {
          tx[8 + i] := i % 0x100;
          i := i + 1;
        }
        length := E10P_MIN;
      }
      ghost var padded := tx[..];
      assert padded == Padded(old(tx[..]), len);
      assert length == FrameLength(len);
      var crc := GetFcs(tx, 8, length);
      assert tx[8..8 + length] == padded[8..8 + length];
      Put(tx, 8 + length, LeBytes32(crc as int));
      env.Transmit(tx[..length + 12]);
      r := 1;
    }

    /** sed_checkMAC */
    method CheckMac() returns (ok: bool)
      requires Valid()
      ensures ok <==> MacAccepted(rx[..6])
    {
      ok := true;
      var i := 0;
      while i < 6
        invariant 0 <= i <= 6
        invariant forall k :: 0 <= k < i ==> rx[k] == LOCAL_MAC[k] || rx[k] == 0xFF
      {
        if rx[i] != LOCAL_MAC[i] && rx[i] != 0xFF {
          ok := false;
          break;
        }
        i := i + 1;
      }
    }

    /** sed_IsPacket: the offset of the payload in the receive buffer, or None. */
    method IsPacket() returns (p: Option<nat>)
      requires Valid()
      modifies rx, env
      ensures rx[..] == Delivered(old(rx[..]), env.arrivals(old(env.polls)))
      ensures p.Some? <==> Arrived(env.arrivals(old(env.polls))) && MacAccepted(rx[..6])
      ensures p.Some? ==> p.value == ETH_HEADER
      ensures env.polls == old(env.polls) + 1
      ensures env.ticks == old(env.ticks) && env.wire == old(env.wire)
    {
      var a := env.Poll();
      p := None;
      if a.Some? {
        var f := if |a.value| <= ETH_MTU then a.value else a.value[..ETH_MTU];
        Put(rx, 0, f);
        if |f| > 0 {
          var ok := CheckMac();
          if ok {
            p := Some(ETH_HEADER);
          }
        }
      }
    }

    /** sed_CheckPacket */
    method CheckPacket(expected: Word) returns (ok: bool)
      requires Valid()
      ensures ok <==> Be16(rx[..], 12) == expected
    {
      CheckPacketIsNetworkOrder(rx[..], expected);
      var t: int := rx[12] as int + (rx[13] as int) * 0x100;
      assert t == Le16(rx[..], 12);
      ok := t == SwapBytes(expected);
    }

    /** sed_Receive: a packet of the given protocol, or None. */
    method Receive(protocol: Word) returns (p: Option<nat>)
      requires Valid()
      modifies rx, env
      ensures rx[..] == Delivered(old(rx[..]), env.arrivals(old(env.polls)))
      ensures p.Some? <==> Arrived(env.arrivals(old(env.polls))) && MacAccepted(rx[..6])
                           && Be16(rx[..], 12) == protocol
      ensures p.Some? ==> p.value == ETH_HEADER
      ensures env.polls == old(env.polls) + 1
      ensures env.ticks == old(env.ticks) && env.wire == old(env.wire)
    {
      p := IsPacket();
      if p.Some? {
        var ok := CheckPacket(protocol);
        if !ok {
          p := None;
        }
      }
    }
  }
}

/**
 * TINYTCP.C on objects: the socket structures, the registry tcp_allsocs, the IP
 * identification counter tcp_id, and the procedures that change them. Each procedure is
 * proved against the value-level transition of module TcpState: the socket ends as the
 * transition says, the segments it sends are the transition's snapshots framed by
 * TcpSegment, the data handler's calls are recorded in order as ghost events, and the
 * socket leaves the registry exactly when the transition unthreads it.
 */
module Tcp {
  import opened Wire
  import opened Ethernet
  import opened TcpSegment
  import opened TcpState
  import Arp

  /** A count of pending bytes: dataSize stays within the buffer. */
  type Fill = n: int | 0 <= n <= TCP_MAXDATA

  /** The 512-byte send buffer stored inside the socket structure. */
  type Buffer = d: seq<Byte> | |d| == TCP_MAXDATA witness seq(TCP_MAXDATA, _ => 0)

  /** struct tcp_Socket: the state, the peer, the sequence numbers, the timer and the send
      buffer. The registry's next pointers are the order of Engine.socks. */
  class Socket {
    var state: int
    /** whether dataHandler is set; the handler's code is not part of this model */
    var handler: bool
    var hisMac: Mac
    var hisAddr: Longword
    var myPort: Word
    var hisPort: Word
    var acknum: Longword
    var seqnum: Longword
    var timeout: Longword
    var unhappy: bool
    var flags: Word
    var dataSize: Fill
    var data: Buffer

    /** The socket's fields as a value. */
    function View(): (t: Tcb)
      reads this`state, this`handler, this`hisMac, this`hisAddr, this`myPort, this`hisPort, this`acknum,
            this`seqnum, this`timeout, this`unhappy, this`flags, this`dataSize, this`data
    {
      Tcb(state, handler, hisMac, hisAddr, myPort, hisPort, acknum, seqnum, timeout, unhappy, flags,
          dataSize, data)
    }

    /** A socket structure as static storage starts: all zero. */
    constructor ()
      ensures View() == Tcb(0, false, [0, 0, 0, 0, 0, 0], 0, 0, 0, 0, 0, 0, false, 0, 0, seq(TCP_MAXDATA, _ => 0))
    {
      state, handler, hisMac, hisAddr, myPort, hisPort := 0, false, [0, 0, 0, 0, 0, 0], 0, 0, 0;
      acknum, seqnum, timeout, unhappy, flags, dataSize := 0, 0, 0, false, 0, 0;
      data := seq(TCP_MAXDATA, _ => 0);
    }

    /** The stores tcp_Listen and tcp_Open share: sequence number 0, an empty buffer, the
        flags, unhappy and the handler. */
    method Restart(flags: Word, unhappy: bool, handler: bool)
      modifies this
      ensures View() == old(View()).(seqnum := 0, dataSize := 0, flags := flags, unhappy := unhappy, handler := handler)
    {
      seqnum := 0;
      dataSize := 0;
      this.flags := flags;
      this.unhappy := unhappy;
      this.handler := handler;
    }

    /** The stores of tcp_Listen. */
    method SetListen(port: Word, handler: bool, timeout: Longword)
      modifies this
      ensures View() == TcpState.Listen(old(View()), port, handler, timeout)
    {
      state := TS_LISTEN;
      if timeout == 0 {
        this.timeout := 0x7FFFFFF;
      } else {
        this.timeout := timeout;
      }
      myPort := port;
      hisPort := 0;
      Restart(0, false, handler);
    }

    /** The peer tcp_Open names: its MAC, address and port. */
    method Aim(mac: Mac, ina: Longword, port: Word)
      modifies this
      ensures View() == old(View()).(hisMac := mac, hisAddr := ina, hisPort := port)
    {
      hisMac := mac;
      hisAddr := ina;
      hisPort := port;
    }

    /** The stores of tcp_Open, with lp the local port chosen (lport, or the clock's low 16
        bits when lport is 0) and mac the peer's MAC (resolved, or broadcast). */
    method SetOpen(lport: Word, ghost clock: nat, lp: Word, mac: Mac, ina: Longword, port: Word, handler: bool)
      requires lp == if lport == 0 then Wrap16(clock) else lport
      modifies this
      ensures View() == TcpState.Open(old(View()), lport, ina, port, handler, mac, clock).tcb
    {
      state := TS_SSYN;
      timeout := TCP_LONGTIMEOUT;
      myPort := lp;
      Aim(mac, ina, port);
      Restart(TCPF_SYN, true, handler);
    }

    /** The acknowledgement step of ESTABLISHED: the acknowledged pending bytes leave the
        front of the buffer and seqnum moves past them. */
    method Ack(ack: Longword)
      modifies this`data, this`dataSize, this`seqnum
      ensures View() == Acked(old(View()), ack)
    {
      var diff := ToInt32(Wrap32(ack - seqnum));
      if diff > 0 && dataSize > 0 {
        if diff > dataSize {
          diff := dataSize;
        }
        data := Compacted(data, diff);
        dataSize := dataSize - diff;
        seqnum := Wrap32(seqnum + diff);
      }
    }

    /** The FIN step of tcp_ProcessData. */
    method Finish(x: int)
      modifies this`acknum, this`state, this`flags, this`unhappy
      ensures View() == Finished(old(View()), x)
    {
      acknum := Wrap32(acknum + 1);
      if state == TS_ESTAB {
        state := TS_LASTACK;
        flags := Or16(flags, TCPF_FIN);
        unhappy := true;
      } else if state == TS_SFIN {
        state := TS_RFIN;
      } else if state == TS_AFIN {
        state := TS_TIMEWT;
      } else {
        state := x;
      }
    }

    /** The LISTEN stores for a SYN: the peer is named and SYN|ACK readied. */
    method Greet(g: Seg)
      modifies this`acknum, this`hisPort, this`hisAddr, this`flags
      ensures View() == old(View()).(acknum := Wrap32(g.seqnum + 1), hisPort := g.srcPort, hisAddr := g.src,
                                     flags := Or16(TCPF_SYN, TCPF_ACK))
    {
      acknum := Wrap32(g.seqnum + 1);
      hisPort := g.srcPort;
      hisAddr := g.src;
      flags := Or16(TCPF_SYN, TCPF_ACK);
    }

    /** A new state, unhappy and the connection timeout, as tcp_Handler stores them. */
    method Await(state: int, unhappy: bool)
      modifies this`state, this`unhappy, this`timeout
      ensures View() == old(View()).(state := state, unhappy := unhappy, timeout := TCP_TIMEOUT)
    {
      this.state := state;
      this.unhappy := unhappy;
      timeout := TCP_TIMEOUT;
    }

    /** SYN-SENT's stores for a SYN: acknum counts it, ACK is readied, the timer rearmed. */
    method SynSeen()
      modifies this`acknum, this`flags, this`timeout
      ensures View() == old(View()).(acknum := Wrap32(old(acknum) + 1), flags := TCPF_ACK, timeout := TCP_TIMEOUT)
    {
      acknum := Wrap32(acknum + 1);
      flags := TCPF_ACK;
      timeout := TCP_TIMEOUT;
    }

    /** SYN-SENT's stores when the SYN acknowledges ours. */
    method Establish(ack: Longword)
      modifies this`state, this`seqnum, this`acknum, this`unhappy
      ensures View() == old(View()).(state := TS_ESTAB, seqnum := Wrap32(old(seqnum) + 1), acknum := ack, unhappy := false)
    {
      state := TS_ESTAB;
      seqnum := Wrap32(seqnum + 1);
      acknum := ack;
      unhappy := false;
    }

    /** SYN-RECEIVED's stores once our SYN is acknowledged. */
    method Promote()
      modifies this`seqnum, this`unhappy, this`state, this`timeout
      ensures View() == old(View()).(seqnum := Wrap32(old(seqnum) + 1), unhappy := false, state := TS_ESTAB, timeout := TCP_TIMEOUT)
    {
      seqnum := Wrap32(seqnum + 1);
      unhappy := false;
      state := TS_ESTAB;
      timeout := TCP_TIMEOUT;
    }

    /** New flags and sequence number. */
    method Mark(flags: Word, seqnum: Longword)
      modifies this`flags, this`seqnum
      ensures View() == old(View()).(flags := flags, seqnum := seqnum)
    {
      this.flags := flags;
      this.seqnum := seqnum;
    }

    /** New state and flags. */
    method Mark2(state: int, flags: Word)
      modifies this`state, this`flags
      ensures View() == old(View()).(state := state, flags := flags)
    {
      this.state := state;
      this.flags := flags;
    }

    /** tcp_Write's copy: the bytes go behind the pending ones. */
    method Append(bytes: seq<Byte>)
      requires dataSize + |bytes| <= TCP_MAXDATA
      modifies this`data, this`dataSize
      ensures View() == old(View()).(data := Splice(old(data), old(dataSize), bytes), dataSize := old(dataSize) + |bytes|)
    {
      data := Splice(data, dataSize, bytes);
      dataSize := dataSize + |bytes|;
    }

    /** The second half of tcp_Abort: the socket is closed with nothing left to send. */
    method Drop()
      modifies this`unhappy, this`dataSize, this`state
      ensures View() == old(View()).(unhappy := false, dataSize := 0, state := TS_CLOSED)
    {
      unhappy := false;
      dataSize := 0;
      state := TS_CLOSED;
    }

    /** tcp_Close: an established (or half-open) connection starts closing; the FIN goes
        out with the next retransmission. */
    method Close()
      modifies this
      ensures View() == TcpState.Close(old(View()))
    {
      if state == TS_ESTAB || state == TS_RSYN {
        flags := Or16(TCPF_ACK, TCPF_FIN);
        state := TS_SFIN;
        unhappy := true;
      }
    }
  }

  /** One call of a socket's data handler. */
  datatype Event = Event(sock: Socket, call: Call)

  function Tagged(s: Socket, calls: seq<Call>): (r: seq<Event>)
    ensures |r| == |calls| && forall i :: 0 <= i < |r| ==> r[i] == Event(s, calls[i])
  {
    if |calls| == 0 then [] else [Event(s, calls[0])] + Tagged(s, calls[1..])
  }

  /** The handler calls of the outcomes os of the sockets ss, in order. */
  function Log(ss: seq<Socket>, os: seq<Outcome>): seq<Event>
    requires |ss| == |os|
  {
    if |os| == 0 then [] else Log(ss[..|ss| - 1], os[..|os| - 1]) + Tagged(ss[|ss| - 1], os[|os| - 1].calls)
  }

  lemma LogStep(ss: seq<Socket>, os: seq<Outcome>, o: Outcome)
    requires |os| < |ss|
    ensures var i := |os|; Log(ss[..i + 1], os + [o]) == Log(ss[..i], os) + Tagged(ss[i], o.calls)
  {
    var i := |os|;
    var ss1, os1 := ss[..i + 1], os + [o];
    assert ss1[..|ss1| - 1] == ss[..i] && ss1[|ss1| - 1] == ss[i];
    assert os1[..|os1| - 1] == os && os1[|os1| - 1] == o;
  }

  /** xs without x */
  function Remove(xs: seq<Socket>, x: Socket): seq<Socket>
  {
    if |xs| == 0 then [] else if xs[0] == x then Remove(xs[1..], x) else [xs[0]] + Remove(xs[1..], x)
  }

  /** The sockets' fields as values, in order. */
  ghost function ViewsOf(xs: seq<Socket>): (ts: seq<Tcb>)
    reads set x | x in xs
    ensures |ts| == |xs| && forall i :: 0 <= i < |xs| ==> ts[i] == xs[i].View()
  {
    seq(|xs|, i requires 0 <= i < |xs| reads set x | x in xs => xs[i].View())
  }

  /** Each socket of xs holds the value at its place in ts. */
  ghost predicate Holds(xs: seq<Socket>, ts: seq<Tcb>)
    reads set x | x in xs
  {
    |xs| == |ts| && forall j :: 0 <= j < |xs| ==> xs[j].View() == ts[j]
  }

  /** The registry after a walk over ss with outcomes os: without the last socket visited
      when it left, as it was otherwise. */
  ghost predicate Registry(ss: seq<Socket>, os: seq<Outcome>, socks: seq<Socket>)
    requires |os| <= |ss|
  {
    socks == if |os| > 0 && os[|os| - 1].unthread then Remove(ss, ss[|os| - 1]) else ss
  }

  /** No socket listed twice. */
  ghost predicate Distinct(xs: seq<Socket>)
    decreases |xs|
  {
    |xs| == 0 || (xs[0] !in xs[1..] && Distinct(xs[1..]))
  }

  /** Two places of a registry without repeats hold two sockets. */
  lemma {:induction false} DistinctApart(xs: seq<Socket>, i: nat, j: nat)
    requires Distinct(xs) && i < j < |xs|
    ensures xs[i] != xs[j]
    decreases i
  {
    if i == 0 {
      assert xs[j] == xs[1..][j - 1];
    } else {
      DistinctApart(xs[1..], i - 1, j - 1);
    }
  }

  /** The bytes of the segment tcp_Send builds from a socket. */
  function SegmentOf(t: Tcb): (u: seq<Byte>)
    requires Buffered(t)
    ensures TCP_HEADER <= |u| <= TCP_HEADER + TCP_MAXDATA
  {
    Unsealed(t.myPort, t.hisPort, t.seqnum, t.acknum, t.flags, Pending(t))
  }

  /** The frame tcp_Send puts on the wire for snapshot t with identification id: its
      segment to its peer's MAC and address. */
  ghost function SentFrame(t: Tcb, id: int, local: Longword): seq<Byte>
  {
    if Buffered(t) then SegmentFrame(t.hisMac, Wrap16(id), local, t.hisAddr, SegmentOf(t)) else []
  }

  /** f applied to each snapshot and its number, counting up from id0. */
  ghost function Numbered(f: (Tcb, int) -> seq<Byte>, ts: seq<Tcb>, id0: int): (r: seq<seq<Byte>>)
    ensures |r| == |ts|
  {
    seq(|ts|, i requires 0 <= i < |ts| => f(ts[i], id0 + i))
  }

  /** The frames of the snapshots sent, in order, identifications counting up from id0. */
  ghost function Frames(sent: seq<Tcb>, id0: int, local: Longword): (r: seq<seq<Byte>>)
    ensures |r| == |sent|
  {
    Numbered(Framer(local), sent, id0)
  }

  /** SentFrame as a function of the snapshot and its identification. */
  ghost function Framer(local: Longword): (Tcb, int) -> seq<Byte>
  {
    (t, id) => SentFrame(t, id, local)
  }

  /** The wire grew from w0 by the frames of the snapshots sent. */
  ghost predicate Transmitted(wire: seq<seq<Byte>>, w0: seq<seq<Byte>>, sent: seq<Tcb>, id0: int, local: Longword)
  {
    (forall t | t in sent :: Buffered(t)) && wire == w0 + Frames(sent, id0, local)
  }

  lemma TransmittedNone(wire: seq<seq<Byte>>, id0: int, local: Longword)
    ensures Transmitted(wire, wire, [], id0, local)
  {
    assert wire + [] == wire;
  }

  /** The frame tcp_Send puts on the wire is the transmission of its snapshot. */
  lemma TransmittedOne(wire: seq<seq<Byte>>, w0: seq<seq<Byte>>, t: Tcb, id0: int, local: Longword)
    requires Buffered(t)
    requires OneSent(wire, w0, t.hisMac, Wrap16(id0), local, t.hisAddr, SegmentOf(t))
    ensures Transmitted(wire, w0, [t], id0, local)
  {
    FrameSent(wire, w0, t, id0, local);
    assert wire == w0 + [wire[|w0|]];
  }

  lemma FrameSent(wire: seq<seq<Byte>>, w0: seq<seq<Byte>>, t: Tcb, id0: int, local: Longword)
    requires Buffered(t)
    requires OneSent(wire, w0, t.hisMac, Wrap16(id0), local, t.hisAddr, SegmentOf(t))
    ensures Frames([t], id0, local) == [wire[|w0|]]
  {
    NumberedOne(Framer(local), t, id0, wire[|w0|]);
  }

  lemma NumberedOne(f: (Tcb, int) -> seq<Byte>, t: Tcb, id0: int, x: seq<Byte>)
    requires f(t, id0) == x
    ensures Numbered(f, [t], id0) == [x]
  {
    assert Numbered(f, [t], id0)[0] == f(t, id0);
  }

  /** Two sends in a row transmit the snapshots of both, identifications running on. */
  lemma TransmittedJoin(w0: seq<seq<Byte>>, w1: seq<seq<Byte>>, w2: seq<seq<Byte>>, s1: seq<Tcb>, s2: seq<Tcb>,
                        id0: int, id1: int, local: Longword)
    requires id1 == id0 + |s1|
    requires Transmitted(w1, w0, s1, id0, local) && Transmitted(w2, w1, s2, id1, local)
    ensures Transmitted(w2, w0, s1 + s2, id0, local)
  {
    FramesJoin(s1, s2, id0, id1, local);
    AppendAssoc(w0, Frames(s1, id0, local), Frames(s2, id1, local));
  }

  lemma FramesJoin(s1: seq<Tcb>, s2: seq<Tcb>, id0: int, id1: int, local: Longword)
    requires id1 == id0 + |s1|
    requires (forall t | t in s1 :: Buffered(t)) && (forall t | t in s2 :: Buffered(t))
    ensures forall t | t in s1 + s2 :: Buffered(t)
    ensures Frames(s1 + s2, id0, local) == Frames(s1, id0, local) + Frames(s2, id1, local)
  {
    NumberedJoin(Framer(local), s1, s2, id0, id1);
  }

  /** Numbering a concatenation numbers the second part on from where the first ends. */
  lemma NumberedJoin(f: (Tcb, int) -> seq<Byte>, s1: seq<Tcb>, s2: seq<Tcb>, id0: int, id1: int)
    requires id1 == id0 + |s1|
    ensures Numbered(f, s1 + s2, id0) == Numbered(f, s1, id0) + Numbered(f, s2, id1)
  {
    var s := s1 + s2;
    forall j | 0 <= j < |s2|
      ensures Numbered(f, s, id0)[|s1| + j] == Numbered(f, s2, id1)[j]
    {
      assert s[|s1| + j] == s2[j];
    }
  }

  /** What one turn of tcp()'s loop did: an ARP frame answered, an IP frame for another
      host dropped, a frame handed to tcp_Handler, any other frame dropped, or no frame
      (the retransmitter swept the registry when its time had come). */
  datatype Turn = ArpFrame | ForeignIp | TcpFrame | OtherFrame | NoFrame(swept: bool)

  /** The branch tcp() takes for the frame in rx; local is local_IP_address. The IP
      header's checksum is computed but only logged, and a frame that is neither ARP nor
      IP still reaches the protocol test. */
  function Classify(rx: seq<Byte>, local: Longword): (t: Turn)
    requires |rx| >= 34
    ensures t == TcpFrame ==> IpProtocol(Be16(rx, 22)) == PROTOCOL_TCP
    ensures t == ForeignIp || t == ArpFrame || t == TcpFrame || t == OtherFrame
  {
    if Be16(rx, 12) == PROTOCOL_ARP then ArpFrame
    else if Be16(rx, 12) == PROTOCOL_IP && Be32(rx, 30) != local then ForeignIp
    else if IpProtocol(Be16(rx, 22)) == PROTOCOL_TCP then TcpFrame
    else OtherFrame
  }

  /** The TCP layer's statics: tcp_allsocs (socks, head first), tcp_id, and the record of
      the data handler's calls. */
  class Engine {
    const nic: Nic
    var socks: seq<Socket>
    /** tcp_id: the next IP identification is its low 16 bits */
    var tcpId: int
    ghost var events: seq<Event>

    /** No socket is threaded twice. */
    ghost predicate Valid()
      reads this`socks
    {
      Distinct(socks)
    }

    /** The registry's sockets as values, in order. */
    ghost function Views(): (ts: seq<Tcb>)
      reads this, socks
      ensures |ts| == |socks| && forall i :: 0 <= i < |socks| ==> ts[i] == socks[i].View()
    {
      ViewsOf(socks)
    }

    /** Transition o was carried out on s since the wire was w0, tcp_id id0 and the record
        ev0: s holds o's socket, the wire grew by o's snapshots, tcp_id counted them, and
        o's handler calls were recorded. */
    ghost predicate Did(s: Socket, o: Outcome, w0: seq<seq<Byte>>, id0: int, ev0: seq<Event>)
      reads this`tcpId, this`events, s, nic`localIp, nic.env`wire
    {
      && s.View() == o.tcb
      && Transmitted(nic.env.wire, w0, o.sent, id0, nic.localIp)
      && tcpId == id0 + |o.sent|
      && events == ev0 + Tagged(s, o.calls)
    }

    /** tcp_Init: no sockets, identification 0. */
    constructor (nic: Nic)
      ensures Valid() && this.nic == nic && socks == [] && tcpId == 0 && events == []
    {
      this.nic := nic;
      socks := [];
      tcpId := 0;
      events := [];
    }

    /** tcp_Send: unless the socket is in state 0 or CLOSED, its segment goes out to its
        peer with identification tcp_id, which then counts up. */
    method Send(s: Socket)
      requires nic.Valid()
      modifies this`tcpId, nic.tx, nic.env`wire
      ensures Transmitted(nic.env.wire, old(nic.env.wire), Sends(s.View()), old(tcpId), nic.localIp)
      ensures tcpId == old(tcpId) + |Sends(s.View())|
    {
      if s.state == 0 || s.state == TS_CLOSED {
        return;
      }
      ghost var t := s.View();
      SendPacket(nic, Wrap16(tcpId), s.hisMac, s.hisAddr, s.myPort, s.hisPort, s.seqnum, s.acknum, s.flags,
                 s.data[..s.dataSize]);
      assert Pending(t) == s.data[..s.dataSize];
      TransmittedOne(nic.env.wire, old(nic.env.wire), t, tcpId, nic.localIp);
      tcpId := tcpId + 1;
    }

    /** A call of the socket's data handler, if it has one. */
    method Notify(s: Socket, data: seq<Byte>, len: int)
      modifies this`events
      ensures events == old(events) + Tagged(s, TcpState.Notify(s.View(), data, len))
    {
      if s.handler {
        events := events + [Event(s, Call(data, len))];
      }
    }

    /** tcp_Flush: pending data goes out with PUSH. */
    method Flush(s: Socket)
      requires nic.Valid()
      modifies s`flags, this`tcpId, nic.tx, nic.env`wire
      ensures Did(s, TcpState.Flush(old(s.View())), old(nic.env.wire), old(tcpId), old(events))
    {
      if s.state == 0 || s.state == TS_CLOSED {
        return;
      }
      if s.dataSize > 0 {
        s.flags := Or16(s.flags, TCPF_PUSH);
        Send(s);
      }
    }

    /** tcp_Write: in ESTAB, as many of the len bytes at dp as fit go behind the pending
        ones and are flushed; the count taken is returned (0 outside ESTAB). */
    method Write(s: Socket, dp: seq<Byte>, len: int) returns (n: int)
      requires nic.Valid() && len <= |dp|
      modifies s`data, s`dataSize, s`flags, this`tcpId, nic.tx, nic.env`wire
      ensures n == TcpState.Write(old(s.View()), dp, len).0
      ensures Did(s, TcpState.Write(old(s.View()), dp, len).1, old(nic.env.wire), old(tcpId), old(events))
    {
      if s.state != TS_ESTAB {
        return 0;
      }
      var x := TCP_MAXDATA - s.dataSize;
      n := len;
      if n > x {
        n := x;
      }
      if n > 0 {
        s.Append(dp[..n]);
        Flush(s);
      }
    }

    /** tcp_Abort: RST|ACK unless LISTEN or CLOSED; then CLOSED and empty, the handler told
        -1, the socket unthreaded. */
    method Abort(s: Socket)
      requires nic.Valid() && Valid()
      modifies s, this`socks, this`tcpId, this`events, nic.tx, nic.env`wire
      ensures Valid() && socks == Remove(old(socks), s)
      ensures Did(s, TcpState.Abort(old(s.View())), old(nic.env.wire), old(tcpId), old(events))
    {
      ghost var o := TcpState.Abort(s.View());
      Reset(s);
      s.Drop();
      assert s.View() == o.tcb;
      Notify(s, [], -1);
      Unthread(s);
    }

    /** The first half of tcp_Abort: a synchronised connection is told with RST|ACK. */
    method Reset(s: Socket)
      requires nic.Valid()
      modifies s`flags, this`tcpId, nic.tx, nic.env`wire
      ensures var t := old(s.View());
        var reset := t.state != TS_LISTEN && t.state != TS_CLOSED;
        var t1 := if reset then t.(flags := Or16(TCPF_RST, TCPF_ACK)) else t;
        var sent := if reset then Sends(t1) else [];
        && s.View() == t1
        && Transmitted(nic.env.wire, old(nic.env.wire), sent, old(tcpId), nic.localIp)
        && tcpId == old(tcpId) + |sent|
    {
      if s.state != TS_LISTEN && s.state != TS_CLOSED {
        s.flags := Or16(TCPF_RST, TCPF_ACK);
        Send(s);
      } else {
        TransmittedNone(nic.env.wire, tcpId, nic.localIp);
      }
    }

    // ----- receiving -----------------------------------------------------------------------

    /** The two searches of tcp_Handler: the position of the socket Demux picks, or the
        registry's length when there is none. */
    method Find(seg: Seg) returns (i: nat)
      requires Valid()
      ensures i <= |socks|
      ensures i == |socks| <==> Demux(Views(), seg).None?
      ensures i < |socks| ==> Demux(Views(), seg) == Some(i)
    {
      ghost var ts := Views();
      i := 0;
      while i < |socks| && !(socks[i].hisPort != 0 && seg.dstPort == socks[i].myPort
                              && seg.srcPort == socks[i].hisPort && seg.src == socks[i].hisAddr)
        invariant 0 <= i <= |socks|
        invariant FirstActive(ts, seg, i) == FirstActive(ts, seg, 0)
      {
        i := i + 1;
      }
      if i == |socks| {
        i := 0;
        while i < |socks| && !(socks[i].hisPort == 0 && seg.dstPort == socks[i].myPort)
          invariant 0 <= i <= |socks|
          invariant FirstPassive(ts, seg, i) == FirstPassive(ts, seg, 0)
        {
          i := i + 1;
        }
      }
    }

    /** tcp_Handler: the segment in the receive buffer goes to the socket demultiplexing
        picks (k, its place in the registry), which moves as tcp_Handler's transition on
        it says; every other socket stays as it was. Without a match nothing changes. */
    method Handler() returns (ghost g: Seg, ghost k: Option<nat>)
      requires nic.Valid() && Valid()
      modifies socks, this`socks, this`tcpId, this`events, nic.tx, nic.env`wire
      ensures g == Parse(old(nic.rx[..])) && k == Demux(old(Views()), g)
      ensures Valid()
      ensures k.None? ==> unchanged(this, nic.env) && forall x | x in socks :: unchanged(x)
      ensures k.Some? ==>
        var s := old(socks)[k.value];
        var o := Handle(old(Views())[k.value], g);
        && Did(s, o, old(nic.env.wire), old(tcpId), old(events))
        && socks == (if o.unthread then Remove(old(socks), s) else old(socks))
        && forall x | x in old(socks) && x != s :: unchanged(x)
    {
      var seg := Parse(nic.rx[..]);
      g := seg;
      var i := Find(seg);
      if i == |socks| {
        k := None;
        return;
      }
      k := Some(i);
      var s := socks[i];
      assert Views()[i] == s.View();
      Dispatch(s, seg);
    }

    /** tcp_Handler once the socket is found: the sender's MAC is saved, a RST closes and
        unthreads the socket, LAST-ACK may close it; the other states respond in place. */
    method Dispatch(s: Socket, g: Seg)
      requires nic.Valid() && Valid()
      modifies s, this`socks, this`tcpId, this`events, nic.tx, nic.env`wire
      ensures Valid()
      ensures var o := Handle(old(s.View()), g);
        && Did(s, o, old(nic.env.wire), old(tcpId), old(events))
        && socks == (if o.unthread then Remove(old(socks), s) else old(socks))
    {
      ghost var t := s.View();
      s.hisMac := g.mac;
      assert s.View() == t.(hisMac := g.mac);
      Receive(s, g);
    }

    /** The segment past the MAC save: a RST closes and unthreads the socket, LAST-ACK may
        close it; the other states respond in place. */
    method Receive(s: Socket, g: Seg)
      requires nic.Valid() && Valid()
      modifies s, this`socks, this`tcpId, this`events, nic.tx, nic.env`wire
      ensures Valid()
      ensures var o := TcpState.Receive(old(s.View()), g);
        && Did(s, o, old(nic.env.wire), old(tcpId), old(events))
        && socks == (if o.unthread then Remove(old(socks), s) else old(socks))
    {
      ghost var t := s.View();
      if HasFlag(g.flags, TCPF_RST) {
        OnReset(s);
        ghost var t1 := t.(state := TS_CLOSED);
        assert TcpState.Notify(t1, [], -1) == TcpState.Notify(t, [], -1);
        assert TcpState.Receive(t, g) == Outcome(t1, [], TcpState.Notify(t1, [], -1), true);
      } else if s.state == TS_LASTACK {
        OnLastAck(s, g);
        assert TcpState.Receive(t, g) == TcpState.OnLastAck(t, g);
      } else {
        Respond(s, g);
        RespondUnthreads(t, g);
        assert TcpState.Receive(t, g) == TcpState.Respond(t, g);
      }
    }

    /** A RST: the socket is CLOSED, its handler told -1, and it leaves the registry. */
    method OnReset(s: Socket)
      requires Valid()
      modifies s`state, this`socks, this`events
      ensures Valid() && socks == Remove(old(socks), s)
      ensures s.View() == old(s.View()).(state := TS_CLOSED)
      ensures events == old(events) + Tagged(s, TcpState.Notify(old(s.View()), [], -1))
    {
      s.state := TS_CLOSED;
      Notify(s, [], -1);
      Unthread(s);
    }

    /** The cases of tcp_Handler's switch that keep the socket threaded. */
    method Respond(s: Socket, g: Seg)
      requires nic.Valid() && s.state != TS_LASTACK
      modifies s, this`tcpId, this`events, nic.tx, nic.env`wire
      ensures Did(s, TcpState.Respond(old(s.View()), g), old(nic.env.wire), old(tcpId), old(events))
    {
      if s.state == TS_LISTEN {
        OnListen(s, g);
      } else if s.state == TS_SSYN {
        OnSynSent(s, g);
      } else if s.state == TS_RSYN {
        OnSynReceived(s, g);
      } else if s.state == TS_ESTAB {
        OnEstablished(s, g);
      } else if s.state == TS_SFIN {
        OnFinSent(s, g);
      } else if s.state == TS_AFIN {
        OnFinAcked(s, g);
      } else if s.state == TS_RFIN {
        OnFinReceived(s, g);
      } else if s.state == TS_TIMEWT {
        OnTimeWait(s);
      }
    }

    /** LISTEN: a SYN names the peer, SYN|ACK is sent and the socket is SYN-RECEIVED. */
    method OnListen(s: Socket, g: Seg)
      requires nic.Valid()
      modifies s, this`tcpId, nic.tx, nic.env`wire
      ensures Did(s, TcpState.OnListen(old(s.View()), g), old(nic.env.wire), old(tcpId), events)
    {
      if HasFlag(g.flags, TCPF_SYN) {
        s.Greet(g);
        Send(s);
        s.Await(TS_RSYN, true);
      }
    }

    /** SYN-SENT: a SYN is counted and establishes the connection when it acknowledges
        ours; without SYN a RST goes back and the SYN is readied again. */
    method OnSynSent(s: Socket, g: Seg)
      requires nic.Valid()
      modifies s, this`tcpId, nic.tx, nic.env`wire
      ensures Did(s, TcpState.OnSynSent(old(s.View()), g), old(nic.env.wire), old(tcpId), events)
    {
      ghost var t := s.View();
      if HasFlag(g.flags, TCPF_SYN) {
        s.SynSeen();
        if HasFlag(g.flags, TCPF_ACK) && g.acknum == Wrap32(s.seqnum + 1) {
          s.Establish(Wrap32(g.seqnum + 1));
        } else {
          s.state := TS_RSYN;
        }
        assert TcpState.OnSynSent(t, g) == Idle(s.View());
      } else {
        s.Mark(TCPF_RST, g.acknum);
        ghost var t1 := s.View();
        Send(s);
        s.Mark(TCPF_SYN, 0);
        s.timeout := TCP_TIMEOUT;
        assert TcpState.OnSynSent(t, g) == Outcome(s.View(), Sends(t1), [], false);
      }
    }

    /** SYN-RECEIVED: a repeated SYN has SYN|ACK sent again; then an ACK of our SYN has an
        ACK sent and establishes the connection. */
    method OnSynReceived(s: Socket, g: Seg)
      requires nic.Valid()
      modifies s, this`tcpId, nic.tx, nic.env`wire
      ensures Did(s, TcpState.OnSynReceived(old(s.View()), g), old(nic.env.wire), old(tcpId), events)
    {
      ghost var t := s.View();
      ghost var sent0 := if HasFlag(g.flags, TCPF_SYN) then Sends(t.(flags := Or16(TCPF_SYN, TCPF_ACK))) else [];
      Resyn(s, g);
      ghost var w1, t1 := nic.env.wire, s.View();
      if HasFlag(g.flags, TCPF_ACK) && g.acknum == Wrap32(s.seqnum + 1) {
        ghost var id1 := tcpId;
        Confirm(s);
        TransmittedJoin(old(nic.env.wire), w1, nic.env.wire, sent0, Sends(t1.(flags := TCPF_ACK)), old(tcpId), id1,
                        nic.localIp);
        assert TcpState.OnSynReceived(t, g) == Outcome(s.View(), sent0 + Sends(t1.(flags := TCPF_ACK)), [], false);
      } else {
        assert TcpState.OnSynReceived(t, g) == Outcome(t1, sent0, [], false);
      }
    }

    /** SYN-RECEIVED's first half: a repeated SYN has SYN|ACK sent again. */
    method Resyn(s: Socket, g: Seg)
      requires nic.Valid()
      modifies s, this`tcpId, nic.tx, nic.env`wire
      ensures var t := old(s.View());
        var t0 := t.(flags := Or16(TCPF_SYN, TCPF_ACK));
        var sent := if HasFlag(g.flags, TCPF_SYN) then Sends(t0) else [];
        && s.View() == (if HasFlag(g.flags, TCPF_SYN) then t0.(timeout := TCP_TIMEOUT) else t)
        && Transmitted(nic.env.wire, old(nic.env.wire), sent, old(tcpId), nic.localIp)
        && tcpId == old(tcpId) + |sent|
    {
      if HasFlag(g.flags, TCPF_SYN) {
        s.flags := Or16(TCPF_SYN, TCPF_ACK);
        Send(s);
        s.timeout := TCP_TIMEOUT;
      } else {
        TransmittedNone(nic.env.wire, tcpId, nic.localIp);
      }
    }

    /** SYN-RECEIVED's second half: ACK sent, the connection established. */
    method Confirm(s: Socket)
      requires nic.Valid()
      modifies s, this`tcpId, nic.tx, nic.env`wire
      ensures var t1 := old(s.View()).(flags := TCPF_ACK);
        && s.View() == t1.(seqnum := Wrap32(t1.seqnum + 1), unhappy := false, state := TS_ESTAB, timeout := TCP_TIMEOUT)
        && Transmitted(nic.env.wire, old(nic.env.wire), Sends(t1), old(tcpId), nic.localIp)
        && tcpId == old(tcpId) + |Sends(t1)|
    {
      s.flags := TCPF_ACK;
      Send(s);
      s.Promote();
    }

    /** ESTABLISHED: with ACK, the acknowledged bytes leave the buffer, then the data. */
    method OnEstablished(s: Socket, g: Seg)
      requires nic.Valid()
      modifies s, this`tcpId, this`events, nic.tx, nic.env`wire
      ensures Did(s, TcpState.OnEstablished(old(s.View()), g), old(nic.env.wire), old(tcpId), old(events))
    {
      if !HasFlag(g.flags, TCPF_ACK) {
        return;
      }
      s.Ack(g.acknum);
      s.flags := TCPF_ACK;
      ProcessData(s, g);
    }

    /** FIN-WAIT-1: with ACK, FIN|ACK again unless our FIN is acknowledged; then the data. */
    method OnFinSent(s: Socket, g: Seg)
      requires nic.Valid()
      modifies s, this`tcpId, this`events, nic.tx, nic.env`wire
      ensures Did(s, TcpState.OnFinSent(old(s.View()), g), old(nic.env.wire), old(tcpId), old(events))
    {
      if !HasFlag(g.flags, TCPF_ACK) {
        return;
      }
      ghost var t := s.View();
      var diff := ToInt32(Wrap32(g.acknum - s.seqnum - 1));
      s.flags := Or16(TCPF_ACK, TCPF_FIN);
      if diff == 0 {
        s.Mark2(TS_AFIN, TCPF_ACK);
      }
      ghost var t2 := s.View();
      assert t2 == OnFinSentReady(t, g);
      ProcessData(s, g);
      assert TcpState.OnFinSent(t, g) == ProcessDataAsWritten(t2, g);
    }

    /** FIN-WAIT-2: ACK readied, then the data. */
    method OnFinAcked(s: Socket, g: Seg)
      requires nic.Valid()
      modifies s, this`tcpId, this`events, nic.tx, nic.env`wire
      ensures Did(s, TcpState.OnFinAcked(old(s.View()), g), old(nic.env.wire), old(tcpId), old(events))
    {
      s.flags := TCPF_ACK;
      ProcessData(s, g);
    }

    /** CLOSING: the ACK of our FIN starts TIME-WAIT. */
    method OnFinReceived(s: Socket, g: Seg)
      modifies s
      ensures s.View() == TcpState.OnFinReceived(old(s.View()), g).tcb
    {
      if g.acknum == Wrap32(s.seqnum + 1) {
        s.state := TS_TIMEWT;
        s.timeout := TCP_TIMEOUT;
      }
    }

    /** TIME-WAIT: an ACK is sent. */
    method OnTimeWait(s: Socket)
      requires nic.Valid()
      modifies s, this`tcpId, nic.tx, nic.env`wire
      ensures Did(s, TcpState.OnTimeWait(old(s.View())), old(nic.env.wire), old(tcpId), events)
    {
      s.flags := TCPF_ACK;
      Send(s);
    }

    /** LAST-ACK: the ACK of our FIN closes and unthreads the socket, telling the handler
        0; anything else has FIN|ACK sent again. */
    method OnLastAck(s: Socket, g: Seg)
      requires nic.Valid() && Valid()
      modifies s, this`socks, this`tcpId, this`events, nic.tx, nic.env`wire
      ensures Valid()
      ensures var o := TcpState.OnLastAck(old(s.View()), g);
        && Did(s, o, old(nic.env.wire), old(tcpId), old(events))
        && socks == (if o.unthread then Remove(old(socks), s) else old(socks))
    {
      ghost var t := s.View();
      if g.acknum == Wrap32(s.seqnum + 1) {
        s.Drop();
        ghost var t1 := s.View();
        Notify(s, [], 0);
        Unthread(s);
        assert TcpState.OnLastAck(t, g) == Outcome(t1, [], TcpState.Notify(t1, [], 0), true);
      } else {
        s.flags := Or16(TCPF_ACK, TCPF_FIN);
        ghost var t1 := s.View();
        Send(s);
        s.timeout := TCP_TIMEOUT;
        assert TcpState.OnLastAck(t, g) == Outcome(s.View(), Sends(t1), [], false);
      }
    }

    /** tcp_ProcessData as written: when the segment does not start after acknum, the
        length less diff goes to the handler and acknum moves by it (and past a FIN), even
        when that count is negative; the timeout is set and the socket's segment sent. */
    method ProcessData(s: Socket, g: Seg)
      requires nic.Valid()
      modifies s, this`tcpId, this`events, nic.tx, nic.env`wire
      ensures Did(s, ProcessDataAsWritten(old(s.View()), g), old(nic.env.wire), old(tcpId), old(events))
    {
      ghost var t := s.View();
      var diff := Unseen(s, g);
      var x := TcpDataOffset(g.flags) * 4;
      var len := g.len - x;
      if diff >= 0 {
        var n := ToInt32(Wrap32(len - diff));
        Consume(s, g, x, diff, n);
        assert ProcessDataAsWritten(t, g) == TcpState.Take(t, g, x, diff, n);
      } else {
        Acknowledge(s);
        assert ProcessDataAsWritten(t, g) == AckOnly(t);
      }
    }

    /** tcp_ProcessData's diff: how far the segment starts before acknum. */
    method Unseen(s: Socket, g: Seg) returns (diff: int)
      ensures diff == Seen(s.View(), g)
    {
      diff := ToInt32(Wrap32(s.acknum - g.seqnum));
      if HasFlag(g.flags, TCPF_SYN) {
        diff := ToInt32(Wrap32(diff - 1));
      }
    }

    /** tcp_ProcessData once n new bytes are found at x + diff: they are taken, then
        acknowledged. */
    method Consume(s: Socket, g: Seg, x: int, diff: int, n: int)
      requires nic.Valid()
      modifies s, this`tcpId, this`events, nic.tx, nic.env`wire
      ensures Did(s, TcpState.Take(old(s.View()), g, x, diff, n), old(nic.env.wire), old(tcpId), old(events))
    {
      ghost var t := s.View();
      Take(s, g, x, diff, n);
      Acknowledge(s);
      assert TcpState.Take(t, g, x, diff, n).calls == TcpState.Notify(t, Data(g, x + diff, n), n);
    }

    /** tcp_ProcessData's new bytes: the handler gets them, acknum moves past them, and a
        FIN is consumed. */
    method Take(s: Socket, g: Seg, x: int, diff: int, n: int)
      modifies s, this`events
      ensures s.View() == Taken(old(s.View()), g, x, n)
      ensures events == old(events) + Tagged(s, TcpState.Notify(old(s.View()), Data(g, x + diff, n), n))
    {
      Notify(s, Data(g, x + diff, n), n);
      s.acknum := Wrap32(s.acknum + n);
      if HasFlag(g.flags, TCPF_FIN) {
        s.Finish(x);
      }
    }

    /** The end of tcp_ProcessData: the connection timeout is set and the socket's segment
        sent. */
    method Acknowledge(s: Socket)
      requires nic.Valid()
      modifies s`timeout, this`tcpId, nic.tx, nic.env`wire
      ensures Did(s, AckOnly(old(s.View())), old(nic.env.wire), old(tcpId), events)
    {
      s.timeout := TCP_TIMEOUT;
      Send(s);
    }

    /** tcp_Unthread: ds leaves the registry if it is on it, the others keep their order;
        nothing happens for null. */
    method Unthread(ds: Socket?)
      requires Valid()
      modifies this`socks
      ensures Valid() && socks == if ds == null then old(socks) else Remove(old(socks), ds)
    {
      if ds == null {
        return;
      }
      var i := 0;
      while i < |socks| && socks[i] != ds
        invariant 0 <= i <= |socks|
        invariant forall j :: 0 <= j < i ==> socks[j] != ds
      {
        i := i + 1;
      }
      if i < |socks| {
        RemoveAt(socks, i);
        RemoveKeepsDistinct(socks, ds);
        socks := socks[..i] + socks[i + 1..];
      } else {
        RemoveAbsent(socks, ds);
      }
    }

    /** tcp_Listen: the socket listens on port and goes to the head of the registry. */
    method Listen(s: Socket, port: Word, handler: bool, timeout: Longword)
      requires Valid() && s !in socks
      modifies this`socks, s
      ensures Valid() && socks == [s] + old(socks)
      ensures s.View() == TcpState.Listen(old(s.View()), port, handler, timeout)
    {
      s.SetListen(port, handler, timeout);
      assert ([s] + socks)[1..] == socks;
      socks := [s] + socks;
    }

    /** tcp_Open: SYN-SENT to ina:port from lport (the clock's low 16 bits when 0), the
        peer's MAC from ARP or broadcast; the socket goes to the head of the registry and
        its SYN is sent. clock is the reading taken, arpWire the wire after the ARP
        requests. */
    method Open(s: Socket, lport: Word, ina: Longword, port: Word, handler: bool)
      returns (ghost clock: nat, ghost resolved: bool, ghost arpWire: seq<seq<Byte>>)
      requires Valid() && nic.Valid() && s !in socks
      modifies this`socks, this`tcpId, s, nic, nic.tx, nic.rx, nic.env
      ensures Valid() && nic.Valid() && socks == [s] + old(socks)
      ensures s.View() == TcpState.Open(old(s.View()), lport, ina, port, handler, s.hisMac, clock).tcb
      ensures Transmitted(nic.env.wire, arpWire, [s.View()], old(tcpId), nic.localIp) && tcpId == old(tcpId) + 1
      ensures |arpWire| >= |old(nic.env.wire)| && arpWire[..|old(nic.env.wire)|] == old(nic.env.wire)
      ensures resolved ==> s.hisMac == nic.theirMac == nic.rx[22..28]
      ensures !resolved ==> s.hisMac == BROADCAST_MAC
    {
      clock, resolved := Prepare(s, lport, ina, port, handler);
      arpWire := nic.env.wire;
      ghost var t := s.View();
      assert Sends(t) == [t];
      assert ([s] + socks)[1..] == socks;
      socks := [s] + socks;
      Send(s);
    }

    /** The stores of tcp_Open: the clock is read when lport is 0, the peer's MAC
        resolved. */
    method Prepare(s: Socket, lport: Word, ina: Longword, port: Word, handler: bool)
      returns (ghost clock: nat, ghost resolved: bool)
      requires nic.Valid()
      modifies s, nic, nic.tx, nic.rx, nic.env
      ensures nic.Valid() && nic.localIp == old(nic.localIp)
      ensures s.View() == TcpState.Open(old(s.View()), lport, ina, port, handler, s.hisMac, clock).tcb
      ensures lport == 0 ==> clock == nic.env.clock(old(nic.env.ticks))
      ensures resolved ==> s.hisMac == nic.theirMac == nic.rx[22..28]
      ensures !resolved ==> s.hisMac == BROADCAST_MAC
      ensures |nic.env.wire| >= |old(nic.env.wire)| && nic.env.wire[..|old(nic.env.wire)|] == old(nic.env.wire)
      ensures Arp.RequestsOf(nic.env.wire, |old(nic.env.wire)|, nic.localIp, old(nic.tx[40..46]), ina)
    {
      var lp := lport;
      clock := 0;
      if lp == 0 {
        var now := nic.env.Now();
        clock := now;
        lp := Wrap16(now);
      }
      var mac;
      resolved, mac := PeerMac(nic, ina, s.hisMac);
      s.SetOpen(lport, clock, lp, mac, ina, port, handler);
    }

    // ----- the retransmitter ---------------------------------------------------------------

    /** One socket's turn in tcp_Retransmitter, as TickOne says; gone tells whether it left
        the registry (its next pointer is then null, which ends the walk). */
    method Tick(s: Socket) returns (gone: bool)
      requires nic.Valid() && Valid()
      modifies s, this`socks, this`tcpId, this`events, nic.tx, nic.env`wire
      ensures Valid() && gone == TickOne(old(s.View())).unthread
      ensures var o := TickOne(old(s.View()));
        && Did(s, o, old(nic.env.wire), old(tcpId), old(events))
        && socks == (if o.unthread then Remove(old(socks), s) else old(socks))
    {
      ghost var t := s.View();
      var x := s.dataSize > 0 || s.unhappy;
      ghost var sent := if x then Sends(t) else [];
      if x {
        Send(s);
      } else {
        TransmittedNone(nic.env.wire, tcpId, nic.localIp);
      }
      ghost var w1, id1, ev1 := nic.env.wire, tcpId, events;
      assert s.View() == t && ev1 == old(events);
      ghost var t1 := if x || t.state != TS_ESTAB then t.(timeout := Wrap32(t.timeout - TCP_RETRANSMITTIME)) else t;
      ghost var o := if t1.timeout == 0 then TcpState.Expire(t1) else Outcome(t1, [], [], false);
      assert TickOne(t) == Outcome(o.tcb, sent + o.sent, o.calls, o.unthread);
      gone := Countdown(s, x);
      TransmittedJoin(old(nic.env.wire), w1, nic.env.wire, sent, o.sent, old(tcpId), id1, nic.localIp);
    }

    /** The rest of a socket's turn once x (pending data or an unhappy socket) decided the
        send: the timeout runs down unless an established socket sent nothing, and a socket
        whose timeout is then 0 expires. */
    method Countdown(s: Socket, x: bool) returns (gone: bool)
      requires nic.Valid() && Valid()
      modifies s, this`socks, this`tcpId, this`events, nic.tx, nic.env`wire
      ensures Valid()
      ensures var t := old(s.View());
        var t1 := if x || t.state != TS_ESTAB then t.(timeout := Wrap32(t.timeout - TCP_RETRANSMITTIME)) else t;
        var o := if t1.timeout == 0 then TcpState.Expire(t1) else Outcome(t1, [], [], false);
        && gone == o.unthread
        && Did(s, o, old(nic.env.wire), old(tcpId), old(events))
        && socks == (if gone then Remove(old(socks), s) else old(socks))
    {
      if x || s.state != TS_ESTAB {
        s.timeout := Wrap32(s.timeout - TCP_RETRANSMITTIME);
      }
      gone := s.timeout == 0;
      if gone {
        Expire(s);
      } else {
        TransmittedNone(nic.env.wire, tcpId, nic.localIp);
      }
    }

    /** A socket whose timeout ran out closes (TIME-WAIT) or is aborted, and leaves the
        registry. */
    method Expire(s: Socket)
      requires nic.Valid() && Valid()
      modifies s, this`socks, this`tcpId, this`events, nic.tx, nic.env`wire
      ensures Valid() && socks == Remove(old(socks), s)
      ensures Did(s, TcpState.Expire(old(s.View())), old(nic.env.wire), old(tcpId), old(events))
    {
      if s.state == TS_TIMEWT {
        s.state := TS_CLOSED;
        Notify(s, [], 0);
        TransmittedNone(nic.env.wire, tcpId, nic.localIp);
        Unthread(s);
      } else {
        Abort(s);
      }
    }

    /** tcp_Retransmitter: the registry is walked from its head as Sweep says, each socket
        visited ticking as TickOne says, until one leaves the registry or 11 have been
        visited; os are the outcomes of the sockets visited, in order. Each socket visited
        holds its outcome, the others do not change. */
    method Retransmitter() returns (ghost os: seq<Outcome>)
      requires nic.Valid() && Valid()
      modifies socks, this`socks, this`tcpId, this`events, nic.tx, nic.env`wire
      ensures Valid() && os == Sweep(old(Views()), SWEEP_LIMIT)
      ensures Transmitted(nic.env.wire, old(nic.env.wire), AllSent(os), old(tcpId), nic.localIp)
      ensures tcpId == old(tcpId) + |AllSent(os)|
      ensures events == old(events) + Log(old(socks)[..|os|], os)
      ensures Holds(old(socks), Updated(old(Views()), os))
      ensures socks == if |os| > 0 && os[|os| - 1].unthread then Remove(old(socks), old(socks)[|os| - 1]) else old(socks)
    {
      ghost var ts, ss := Views(), socks;
      ghost var w0, id0, ev0 := nic.env.wire, tcpId, events;
      TransmittedNone(w0, id0, nic.localIp);
      os := Walk(ss, ts, Turns(ts), w0, id0, ev0);
    }

    /** The loop of tcp_Retransmitter over the registry ss, whose values were ts. */
    method Walk(ghost ss: seq<Socket>, ghost ts: seq<Tcb>, ghost outs: seq<Outcome>,
                ghost w0: seq<seq<Byte>>, ghost id0: int, ghost ev0: seq<Event>)
      returns (ghost os: seq<Outcome>)
      requires nic.Valid() && Valid() && socks == ss && outs == Turns(ts)
      requires Walking(ss, ts, [], w0, id0, ev0) && Holds(ss, ts)
      modifies socks, this`socks, this`tcpId, this`events, nic.tx, nic.env`wire
      ensures Valid() && Walking(ss, ts, os, w0, id0, ev0) && os == Cut(outs, SWEEP_LIMIT)
      ensures Holds(ss, Updated(ts, os)) && Registry(ss, os, socks)
    {
      var all := socks;
      var i := 0;
      os := [];
      assert Updated(ts, os) == ts;
      while i < |all|
        invariant 0 <= i <= |all| && all == ss && |os| == i && Valid() && socks == ss
        invariant Walking(ss, ts, os, w0, id0, ev0) && Holds(ss, Updated(ts, os))
        invariant Going(outs, os)
      {
        var gone;
        ghost var os0 := os;
        gone, os := Visit(all[i], ss, ts, outs, os, w0, id0, ev0);
        i := i + 1;
        CutStep(outs, os0, !gone && i < SWEEP_LIMIT, os);
        if gone || i == SWEEP_LIMIT {
          break;
        }
      }
      if Going(outs, os) {
        CutAll(outs, os);
        assert Registry(ss, os, socks);
      }
    }

    /** Part way through the walk over ss, whose values were ts, from the wire w0, tcp_id
        id0 and the record ev0: os are the outcomes of the sockets visited so far. */
    ghost predicate Walking(ss: seq<Socket>, ts: seq<Tcb>, os: seq<Outcome>, w0: seq<seq<Byte>>, id0: int, ev0: seq<Event>)
      reads this, nic, nic.env
    {
      && |os| <= |ss| == |ts|
      && Transmitted(nic.env.wire, w0, AllSent(os), id0, nic.localIp)
      && tcpId == id0 + |AllSent(os)|
      && events == ev0 + Log(ss[..|os|], os)
    }

    /** The turn of the next socket s in the walk: the outcomes so far, os0, grow by its
        turn. */
    method Visit(s: Socket, ghost ss: seq<Socket>, ghost ts: seq<Tcb>, ghost outs: seq<Outcome>,
                 ghost os0: seq<Outcome>, ghost w0: seq<seq<Byte>>, ghost id0: int, ghost ev0: seq<Event>)
      returns (gone: bool, ghost os: seq<Outcome>)
      requires nic.Valid() && Valid() && socks == ss && |os0| < |ss| && s == ss[|os0|] && outs == Turns(ts)
      requires Walking(ss, ts, os0, w0, id0, ev0) && Holds(ss, Updated(ts, os0))
      modifies s, this`socks, this`tcpId, this`events, nic.tx, nic.env`wire
      ensures Valid() && os == os0 + [outs[|os0|]] && gone == outs[|os0|].unthread
      ensures socks == (if gone then Remove(ss, s) else ss) && Registry(ss, os, socks)
      ensures Walking(ss, ts, os, w0, id0, ev0) && Holds(ss, Updated(ts, os))
    {
      ghost var i := |os0|;
      ghost var w1, id1 := nic.env.wire, tcpId;
      ghost var before := Updated(ts, os0);
      assert s.View() == before[i] == ts[i];
      label before:
      gone := Tick(s);
      ghost var o := TickOne(ts[i]);
      TurnsAt(ts, i);
      TransmittedJoin(w0, w1, nic.env.wire, AllSent(os0), o.sent, id0, id1, nic.localIp);
      AllSentStep(os0, o);
      LogStep(ss, os0, o);
      AppendAssoc(ev0, Log(ss[..i], os0), Tagged(s, o.calls));
      forall j | 0 <= j < |ss|
        ensures ss[j].View() == Updated(ts, os0 + [o])[j]
      {
        if j != i {
          if j < i { DistinctApart(ss, j, i); } else { DistinctApart(ss, i, j); }
          assert unchanged@before(ss[j]);
          assert ss[j].View() == before[j];
        }
      }
      os := os0 + [o];
    }

    // ----- the busy-wait loop ----------------------------------------------------------

    /** One turn of tcp()'s loop, deadline being its timeout: a frame is dispatched as
        Classify says; without one the retransmitter may sweep the registry. Only a frame
        for tcp_Handler or a sweep touches the sockets. The application callback is not
        modelled. */
    method Step(deadline: nat) returns (next: nat, ghost turn: Turn, ghost os: seq<Outcome>, ghost rx: seq<Byte>, ghost ts: seq<Tcb>)
      requires nic.Valid() && Valid()
      modifies socks, this`socks, this`tcpId, this`events, nic, nic.tx, nic.rx, nic.env
      ensures nic.Valid() && Valid() && nic.env.polls == old(nic.env.polls) + 1
      ensures rx == Delivered(old(nic.rx[..]), old(nic.env.arrivals(nic.env.polls))) && ts == old(Views())
      ensures turn.NoFrame? <==> !(Arrived(old(nic.env.arrivals(nic.env.polls))) && MacAccepted(rx[..6]))
      ensures !turn.NoFrame? ==>
        next == deadline && Dispatched(turn, rx, old(nic.localIp), old(socks), ts, old(nic.env.wire), old(tcpId), old(events))
      ensures turn != TcpFrame && !(turn.NoFrame? && turn.swept) ==>
        socks == old(socks) && tcpId == old(tcpId) && events == old(events) && forall x | x in old(socks) :: unchanged(x)
      ensures turn.NoFrame? ==>
        && (turn.swept <==> nic.env.clock(old(nic.env.ticks)) > deadline)
        && (!turn.swept ==> next == deadline && nic.env.wire == old(nic.env.wire))
        && (turn.swept ==> next == nic.env.clock(old(nic.env.ticks) + 1) + TCP_RETRANSMITTIME
                           && Swept(os, old(socks), ts, old(nic.env.wire), old(tcpId), old(events), nic.env.wire, nic.localIp))
    {
      next, os := deadline, [];
      var got;
      got, turn, rx, ts := Poll();
      if !got {
        ghost var ss, w0, id0, ev0, t0 := socks, nic.env.wire, tcpId, events, nic.env.ticks;
        assert Views() == ts && ss == old(socks) && w0 == old(nic.env.wire) && id0 == old(tcpId) && ev0 == old(events)
            && t0 == old(nic.env.ticks);
        ghost var swept;
        next, swept, os := Wait(deadline);
        turn := NoFrame(swept);
      }
    }

    /** sed_IsPacket and, when it gives a frame, its dispatch; without one, nothing but the
        poll happens. */
    method Poll() returns (got: bool, ghost turn: Turn, ghost rx: seq<Byte>, ghost ts: seq<Tcb>)
      requires nic.Valid() && Valid()
      modifies socks, this`socks, this`tcpId, this`events, nic, nic.tx, nic.rx, nic.env
      ensures nic.Valid() && Valid() && nic.env.polls == old(nic.env.polls) + 1
      ensures rx == Delivered(old(nic.rx[..]), old(nic.env.arrivals(nic.env.polls))) && ts == old(Views())
      ensures got == !turn.NoFrame? && (turn == NoFrame(false) || got)
      ensures turn.NoFrame? <==> !(Arrived(old(nic.env.arrivals(nic.env.polls))) && MacAccepted(rx[..6]))
      ensures !turn.NoFrame? ==> Dispatched(turn, rx, old(nic.localIp), old(socks), ts, old(nic.env.wire), old(tcpId), old(events))
      ensures turn.NoFrame? ==> nic.env.ticks == old(nic.env.ticks) && nic.env.wire == old(nic.env.wire) && nic.localIp == old(nic.localIp)
      ensures turn != TcpFrame ==>
        socks == old(socks) && tcpId == old(tcpId) && events == old(events) && forall x | x in old(socks) :: unchanged(x)
    {
      var p := nic.IsPacket();
      rx, ts := nic.rx[..], Views();
      assert ts == old(Views());
      got := p.Some?;
      if got {
        turn := Arrival();
      } else {
        turn := NoFrame(false);
      }
    }

    /** What the dispatch of the frame rx did, from the registry ss with values ts, the
        wire w0, tcp_id id0 and the record ev0: arp_checkpacket may answer an ARP request,
        tcp_Handler treats a TCP segment, other frames change nothing sent. */
    ghost predicate Dispatched(turn: Turn, rx: seq<Byte>, local: Longword, ss: seq<Socket>, ts: seq<Tcb>,
                               w0: seq<seq<Byte>>, id0: int, ev0: seq<Event>)
      requires |rx| == BUFFER_SIZE && |ss| == |ts| && forall i :: 0 <= i < |ts| ==> Buffered(ts[i])
      reads this, nic, nic.env, set x | x in ss
    {
      && turn == Classify(rx, local)
      && (turn == ArpFrame ==>
            && nic.localIp == nic.myAddr
            && |nic.env.wire| == |w0| + (if Arp.IsRequestFor(rx, nic.myAddr) then 1 else 0)
            && nic.env.wire[..|w0|] == w0)
      && (turn == ForeignIp || turn == OtherFrame ==> nic.env.wire == w0)
      && (turn == TcpFrame ==>
            var g := Parse(rx);
            var k := Demux(ts, g);
            && (k.None? ==> socks == ss && tcpId == id0 && events == ev0 && nic.env.wire == w0)
            && (k.Some? ==>
                  var o := Handle(ts[k.value], g);
                  && Did(ss[k.value], o, w0, id0, ev0)
                  && socks == (if o.unthread then Remove(ss, ss[k.value]) else ss)))
    }

    /** The sweep of tcp_Retransmitter: os from the registry ss with values ts, the wire w0,
        tcp_id id0 and the record ev0, leaving the wire w on a host with address local. */
    ghost predicate Swept(os: seq<Outcome>, ss: seq<Socket>, ts: seq<Tcb>, w0: seq<seq<Byte>>, id0: int, ev0: seq<Event>,
                          w: seq<seq<Byte>>, local: Longword)
      requires |ss| == |ts|
      reads this, set x | x in ss
    {
      && os == Sweep(ts, SWEEP_LIMIT)
      && Transmitted(w, w0, AllSent(os), id0, local)
      && tcpId == id0 + |AllSent(os)|
      && events == ev0 + Log(ss[..|os|], os)
      && Holds(ss, Updated(ts, os))
      && socks == if |os| > 0 && os[|os| - 1].unthread then Remove(ss, ss[|os| - 1]) else ss
    }

    /** The frame branch of tcp(), for the frame sed_IsPacket put in the receive buffer. */
    method Arrival() returns (ghost turn: Turn)
      requires nic.Valid() && Valid()
      modifies socks, this`socks, this`tcpId, this`events, nic, nic.tx, nic.rx, nic.env
      ensures nic.Valid() && Valid() && nic.env.polls == old(nic.env.polls)
      ensures Dispatched(turn, old(nic.rx[..]), old(nic.localIp), old(socks), old(Views()),
                         old(nic.env.wire), old(tcpId), old(events))
      ensures turn != TcpFrame ==>
        socks == old(socks) && tcpId == old(tcpId) && events == old(events) && forall x | x in old(socks) :: unchanged(x)
    {
      ghost var rx, ts, ss, w0, id0, ev0 := nic.rx[..], Views(), socks, nic.env.wire, tcpId, events;
      var arp := nic.CheckPacket(PROTOCOL_ARP);
      assert nic.rx[..] == rx && Views() == ts && socks == ss && nic.env.wire == w0 && tcpId == id0 && events == ev0;
      if arp {
        turn := Resolve();
      } else {
        turn := Network();
      }
    }

    /** The frame branch of tcp() for an ARP frame: arp_checkpacket answers a request for
        this host; no socket changes. */
    method Resolve() returns (ghost turn: Turn)
      requires nic.Valid() && Valid() && Be16(nic.rx[..], 12) == PROTOCOL_ARP
      modifies nic, nic.tx, nic.rx, nic.env
      ensures nic.Valid() && nic.env.polls == old(nic.env.polls) && turn == ArpFrame
      ensures Dispatched(turn, old(nic.rx[..]), old(nic.localIp), old(socks), old(Views()),
                         old(nic.env.wire), old(tcpId), old(events))
    {
      turn := ArpFrame;
      var _ := Arp.CheckPacket(nic);
    }

    /** The frame branch of tcp() for a frame that is not ARP: an IP datagram for another
        host is dropped; a datagram whose protocol is TCP goes to tcp_Handler (as does any
        other frame whose byte 23 is 6, since the IP check only drops foreign addresses). */
    method Network() returns (ghost turn: Turn)
      requires nic.Valid() && Valid() && Be16(nic.rx[..], 12) != PROTOCOL_ARP
      modifies socks, this`socks, this`tcpId, this`events, nic.tx, nic.env`wire
      ensures nic.Valid() && Valid() && turn != ArpFrame
      ensures Dispatched(turn, old(nic.rx[..]), old(nic.localIp), old(socks), old(Views()),
                         old(nic.env.wire), old(tcpId), old(events))
      ensures turn != TcpFrame ==>
        socks == old(socks) && tcpId == old(tcpId) && events == old(events) && forall x | x in old(socks) :: unchanged(x)
    {
      turn := Classify(nic.rx[..], nic.localIp);
      var ip := nic.CheckPacket(PROTOCOL_IP);
      if ip && Be32(nic.rx[..], 30) != nic.localIp {
        return;
      }
      if IpProtocol(Be16(nic.rx[..], 22)) == PROTOCOL_TCP {
        var _, _ := Handler();
      }
    }

    /** The branch of tcp() without a frame: once the clock passes the deadline the
        retransmitter sweeps the registry and the deadline moves to 1000 ms after a
        second reading. */
    method Wait(deadline: nat) returns (next: nat, ghost swept: bool, ghost os: seq<Outcome>)
      requires nic.Valid() && Valid()
      modifies socks, this`socks, this`tcpId, this`events, nic.tx, nic.env
      ensures nic.Valid() && Valid() && nic.env.polls == old(nic.env.polls)
      ensures swept <==> nic.env.clock(old(nic.env.ticks)) > deadline
      ensures !swept ==> next == deadline && nic.env.wire == old(nic.env.wire) && socks == old(socks)
                         && tcpId == old(tcpId) && events == old(events) && forall x | x in old(socks) :: unchanged(x)
      ensures swept ==> next == nic.env.clock(old(nic.env.ticks) + 1) + TCP_RETRANSMITTIME
                        && Swept(os, old(socks), old(Views()), old(nic.env.wire), old(tcpId), old(events),
                                 nic.env.wire, nic.localIp)
    {
      next, os := deadline, [];
      ghost var ss, ts, w0, id0, ev0 := socks, Views(), nic.env.wire, tcpId, events;
      var now := nic.env.Now();
      assert Views() == ts;
      swept := now > deadline;
      if now > deadline {
        next, os := Rearm(ss, ts, w0, id0, ev0);
      }
    }

    /** tcp_Retransmitter followed by the next deadline, 1000 ms after the clock's reading. */
    method Rearm(ghost ss: seq<Socket>, ghost ts: seq<Tcb>, ghost w0: seq<seq<Byte>>, ghost id0: int, ghost ev0: seq<Event>)
      returns (next: nat, ghost os: seq<Outcome>)
      requires nic.Valid() && Valid()
      requires ss == socks && ts == Views() && w0 == nic.env.wire && id0 == tcpId && ev0 == events
      modifies socks, this`socks, this`tcpId, this`events, nic.tx, nic.env
      ensures nic.Valid() && Valid() && nic.env.polls == old(nic.env.polls)
      ensures next == nic.env.clock(old(nic.env.ticks)) + TCP_RETRANSMITTIME
      ensures nic.env.ticks == old(nic.env.ticks) + 1
      ensures Swept(os, ss, ts, w0, id0, ev0, nic.env.wire, nic.localIp)
    {
      ghost var t0, polls0 := nic.env.ticks, nic.env.polls;
      os := Retransmitter();
      assert nic.env.ticks == t0 && nic.env.polls == polls0;
      var later := nic.env.Now();
      next := later + TCP_RETRANSMITTIME;
    }
  }

  /** The peer's MAC in tcp_Open: the ARP answer, or broadcast when ARP gives up. */
  method PeerMac(nic: Nic, ina: Longword, mac0: Mac) returns (resolved: bool, mac: Mac)
    requires nic.Valid()
    modifies nic, nic.tx, nic.rx, nic.env
    ensures nic.Valid() && nic.localIp == old(nic.localIp)
    ensures resolved ==> mac == nic.theirMac == nic.rx[22..28]
    ensures !resolved ==> mac == BROADCAST_MAC
    ensures |nic.env.wire| >= |old(nic.env.wire)| && nic.env.wire[..|old(nic.env.wire)|] == old(nic.env.wire)
    ensures Arp.RequestsOf(nic.env.wire, |old(nic.env.wire)|, nic.localIp, old(nic.tx[40..46]), ina)
  {
    var r;
    ghost var sent;
    r, mac, sent := Arp.MapIn2Eth(nic, ina, mac0);
    resolved := r == 1;
    if !resolved {
      mac := BROADCAST_MAC;
    }
  }

  /** Removing x takes out x and nothing else: every other socket stays. */
  lemma {:induction false} RemoveOnly(xs: seq<Socket>, x: Socket)
    ensures x !in Remove(xs, x)
    ensures forall y :: y in Remove(xs, x) <==> y in xs && y != x
    decreases |xs|
  {
    if |xs| > 0 {
      RemoveOnly(xs[1..], x);
      assert forall y :: y in xs <==> y == xs[0] || y in xs[1..];
    }
  }

  /** Removing keeps a registry free of repeats. */
  lemma {:induction false} RemoveKeepsDistinct(xs: seq<Socket>, x: Socket)
    requires Distinct(xs)
    ensures Distinct(Remove(xs, x))
    decreases |xs|
  {
    if |xs| > 0 {
      RemoveKeepsDistinct(xs[1..], x);
      if xs[0] != x {
        RemoveOnly(xs[1..], x);
        var r := Remove(xs[1..], x);
        assert Remove(xs, x) == [xs[0]] + r && ([xs[0]] + r)[1..] == r;
      }
    }
  }

  /** Removing the socket at i of a registry without repeats cuts it out. */
  lemma {:induction false} RemoveAt(xs: seq<Socket>, i: nat)
    requires i < |xs| && Distinct(xs)
    ensures Remove(xs, xs[i]) == xs[..i] + xs[i + 1..]
    decreases i
  {
    if i == 0 {
      RemoveAbsent(xs[1..], xs[0]);
      assert xs[1..] == xs[..0] + xs[1..];
    } else {
      RemoveAt(xs[1..], i - 1);
      assert xs[1..][i - 1] == xs[i];
      assert xs[..i] + xs[i + 1..] == [xs[0]] + (xs[1..][..i - 1] + xs[1..][i..]);
    }
  }

  lemma {:induction false} RemoveAbsent(xs: seq<Socket>, x: Socket)
    requires x !in xs
    ensures Remove(xs, x) == xs
    decreases |xs|
  {
    if |xs| > 0 {
      RemoveAbsent(xs[1..], x);
      assert xs == [xs[0]] + xs[1..];
    }
  }
}

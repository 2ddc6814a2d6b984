/**
 * The per-socket state machine of TINYTCP.C (RFC 793 section 3.9, as far as
 * this engine follows it), on values: a socket's fields, a received segment,
 * and what a transition does to them. Each transition returns the socket's
 * new fields, the snapshots of the socket that tcp_Send puts on the wire (in
 * order), the calls made to the data handler, and whether the socket is
 * unthreaded from the registry. The classes of module Tcp carry out the same
 * transitions on objects and are proved against these functions.
 *
 * Arithmetic follows the host: sequence numbers and timeouts are unsigned
 * 32-bit, `diff` and `len` are 32-bit ints, dataSize and state are shorts.
 */
module TcpState {
  import opened Wire
  import opened InetChecksum
  import opened TcpSegment

  /** struct tcp_Socket without its next pointer; `handler` says whether dataHandler is set. */
  datatype Tcb = Tcb(state: int, handler: bool, hisMac: Mac, hisAddr: Longword, myPort: Word, hisPort: Word,
                     acknum: Longword, seqnum: Longword, timeout: Longword, unhappy: bool, flags: Word,
                     dataSize: int, data: seq<Byte>)

  /** One call of the data handler: the bytes at dp and len (0 on close, -1 on reset or abort). */
  datatype Call = Call(data: seq<Byte>, len: int)

  /** What a transition does: the socket's new fields, the snapshots sent, the handler
      calls, and whether the socket leaves the registry. */
  datatype Outcome = Outcome(tcb: Tcb, sent: seq<Tcb>, calls: seq<Call>, unthread: bool)

  /** The send buffer holds 512 bytes, dataSize of them pending. */
  predicate Buffered(t: Tcb)
  {
    |t.data| == TCP_MAXDATA && 0 <= t.dataSize <= TCP_MAXDATA
  }

  /** The bytes tcp_Send moves behind the header. */
  function Pending(t: Tcb): seq<Byte>
    requires Buffered(t)
  {
    t.data[..t.dataSize]
  }

  /** tcp_Send's guard: nothing goes out for state 0 or CLOSED. */
  function Sends(t: Tcb): seq<Tcb>
  {
    if t.state == 0 || t.state == TS_CLOSED then [] else [t]
  }

  /** A call of the data handler, when the socket has one. */
  function Notify(t: Tcb, data: seq<Byte>, len: int): seq<Call>
  {
    if t.handler then [Call(data, len)] else []
  }

  /** Nothing happens. */
  function Idle(t: Tcb): Outcome
  {
    Outcome(t, [], [], false)
  }

  // ----- opening ---------------------------------------------------------------------------

  /** tcp_Open's stores: SYN-SENT with the open timeout, the local port (the clock's low 16
      bits when lport is 0), the peer's MAC as ARP found it or broadcast, sequence number 0,
      an empty buffer, flags SYN, unhappy; then the SYN is sent. acknum is left as it was. */
  function Open(t: Tcb, lport: Word, ina: Longword, port: Word, handler: bool, mac: Mac, clock: nat): Outcome
  {
    var t1 := t.(state := TS_SSYN, timeout := TCP_LONGTIMEOUT, myPort := if lport == 0 then Wrap16(clock) else lport,
                 hisMac := mac, hisAddr := ina, hisPort := port, seqnum := 0, dataSize := 0, flags := TCPF_SYN,
                 unhappy := true, handler := handler);
    Outcome(t1, Sends(t1), [], false)
  }

  /** The timeout tcp_Listen stores: 0 asks for 0x7FFFFFF, "forever". */
  function ListenTimeout(timeout: Longword): Longword
  {
    if timeout == 0 then 0x7FFFFFF else timeout
  }

  /** tcp_Listen's stores: LISTEN on port, no peer port, sequence number 0, an empty buffer,
      no flags, not unhappy. Nothing is sent. */
  function Listen(t: Tcb, port: Word, handler: bool, timeout: Longword): Tcb
  {
    t.(state := TS_LISTEN, timeout := ListenTimeout(timeout), myPort := port, hisPort := 0, seqnum := 0,
       dataSize := 0, flags := 0, unhappy := false, handler := handler)
  }

  // ----- writing and closing -----------------------------------------------------------------

  /** tcp_Flush: with data pending and a state that sends, PUSH is added and the segment sent. */
  function Flush(t: Tcb): Outcome
  {
    if t.state == 0 || t.state == TS_CLOSED then Idle(t)
    else if t.dataSize > 0 then
      var t1 := t.(flags := Or16(t.flags, TCPF_PUSH));
      Outcome(t1, Sends(t1), [], false)
    else Idle(t)
  }

  /** The count tcp_Write accepts: len cut to the free room. */
  function Accepted(t: Tcb, len: int): int
  {
    var x := TCP_MAXDATA - t.dataSize;
    if len > x then x else len
  }

  /** tcp_Write of len bytes from dp: in ESTAB, the accepted bytes go behind the pending
      ones and the socket is flushed; the count is returned. */
  function Write(t: Tcb, dp: seq<Byte>, len: int): (int, Outcome)
    requires Buffered(t) && len <= |dp|
  {
    if t.state != TS_ESTAB then (0, Idle(t))
    else
      var n := Accepted(t, len);
      if n > 0 then
        (n, Flush(t.(data := Splice(t.data, t.dataSize, dp[..n]), dataSize := t.dataSize + n)))
      else (n, Idle(t))
  }

  /** tcp_Close: from ESTAB or SYN-RECEIVED, FIN-WAIT with ACK|FIN and unhappy. */
  function Close(t: Tcb): Tcb
  {
    if t.state == TS_ESTAB || t.state == TS_RSYN then
      t.(flags := Or16(TCPF_ACK, TCPF_FIN), state := TS_SFIN, unhappy := true)
    else t
  }

  /** tcp_Abort: RST|ACK unless LISTEN or CLOSED, then CLOSED with an empty buffer, the
      handler told -1, the socket unthreaded. */
  function Abort(t: Tcb): Outcome
  {
    var reset := t.state != TS_LISTEN && t.state != TS_CLOSED;
    var t1 := if reset then t.(flags := Or16(TCPF_RST, TCPF_ACK)) else t;
    var sent := if reset then Sends(t1) else [];
    var t2 := t1.(unhappy := false, dataSize := 0, state := TS_CLOSED);
    Outcome(t2, sent, Notify(t2, [], -1), true)
  }

  // ----- receiving ------------------------------------------------------------------------

  /** tcp_Handler's demultiplexing tests: an active socket matches both ports and the peer
      address, a passive one (no peer port yet) the destination port. */
  predicate ActiveMatch(t: Tcb, g: Seg)
  {
    t.hisPort != 0 && g.dstPort == t.myPort && g.srcPort == t.hisPort && g.src == t.hisAddr
  }

  predicate PassiveMatch(t: Tcb, g: Seg)
  {
    t.hisPort == 0 && g.dstPort == t.myPort
  }

  /** The first index from k on whose socket matches actively, or passively. */
  function FirstActive(ts: seq<Tcb>, g: Seg, k: nat): (r: Option<nat>)
    ensures r.Some? ==> k <= r.value < |ts| && ActiveMatch(ts[r.value], g)
    ensures r.Some? ==> forall j :: k <= j < r.value ==> !ActiveMatch(ts[j], g)
    ensures r.None? ==> forall j :: k <= j < |ts| ==> !ActiveMatch(ts[j], g)
    decreases |ts| - k
  {
    if k >= |ts| then None else if ActiveMatch(ts[k], g) then Some(k) else FirstActive(ts, g, k + 1)
  }

  function FirstPassive(ts: seq<Tcb>, g: Seg, k: nat): (r: Option<nat>)
    ensures r.Some? ==> k <= r.value < |ts| && PassiveMatch(ts[r.value], g)
    ensures r.Some? ==> forall j :: k <= j < r.value ==> !PassiveMatch(ts[j], g)
    ensures r.None? ==> forall j :: k <= j < |ts| ==> !PassiveMatch(ts[j], g)
    decreases |ts| - k
  {
    if k >= |ts| then None else if PassiveMatch(ts[k], g) then Some(k) else FirstPassive(ts, g, k + 1)
  }

  /** The socket tcp_Handler picks, by position in the registry: the first active match;
      failing that, the first passive match; failing both, none (the segment is dropped). */
  function Demux(ts: seq<Tcb>, g: Seg): (r: Option<nat>)
    ensures r.Some? ==> r.value < |ts|
    ensures r.Some? && ts[r.value].hisPort != 0 ==>
      ActiveMatch(ts[r.value], g) && forall j :: 0 <= j < r.value ==> !ActiveMatch(ts[j], g)
    ensures r.Some? && ts[r.value].hisPort == 0 ==>
      && PassiveMatch(ts[r.value], g)
      && (forall j :: 0 <= j < |ts| ==> !ActiveMatch(ts[j], g))
      && (forall j :: 0 <= j < r.value ==> !PassiveMatch(ts[j], g))
    ensures r.None? <==> forall j :: 0 <= j < |ts| ==> !ActiveMatch(ts[j], g) && !PassiveMatch(ts[j], g)
  {
    var a := FirstActive(ts, g, 0);
    if a.Some? then a else FirstPassive(ts, g, 0)
  }

  /** The data of a segment from offset off of its TCP header, n bytes; none when n is not
      positive. */
  function Data(g: Seg, off: int, n: int): seq<Byte>
  {
    if n > 0 then Window(g.tcp, off, n) else []
  }

  /** The FIN step of tcp_ProcessData: acknum counts the FIN; ESTAB goes to LAST-ACK (past
      CLOSE-WAIT) sending FIN and unhappy, FIN-WAIT-1 to CLOSING, FIN-WAIT-2 to TIME-WAIT;
      any other state would take x, four times the data offset. */
  function Finished(t: Tcb, x: int): Tcb
  {
    var t1 := t.(acknum := Wrap32(t.acknum + 1));
    if t.state == TS_ESTAB then t1.(state := TS_LASTACK, flags := Or16(t.flags, TCPF_FIN), unhappy := true)
    else if t.state == TS_SFIN then t1.(state := TS_RFIN)
    else if t.state == TS_AFIN then t1.(state := TS_TIMEWT)
    else t1.(state := x)
  }

  /** The count of already-seen bytes tcp_ProcessData computes: acknum less the segment's
      sequence number, one less on a SYN, as a 32-bit int. */
  function Seen(t: Tcb, g: Seg): int
  {
    var diff := ToInt32(Wrap32(t.acknum - g.seqnum));
    if HasFlag(g.flags, TCPF_SYN) then ToInt32(Wrap32(diff - 1)) else diff
  }

  /** The part of tcp_ProcessData that takes n new bytes: acknum moves past them and a
      FIN is consumed. */
  function Taken(t: Tcb, g: Seg, x: int, n: int): Tcb
  {
    var t1 := t.(acknum := Wrap32(t.acknum + n));
    if HasFlag(g.flags, TCPF_FIN) then Finished(t1, x) else t1
  }

  /** The part of tcp_ProcessData that every segment reaches: the connection timeout is
      set and the socket's segment (an acknowledgement) sent. */
  function AckOnly(t: Tcb): Outcome
  {
    var t3 := t.(timeout := TCP_TIMEOUT);
    Outcome(t3, Sends(t3), [], false)
  }

  /** New bytes taken: the handler gets them (n may be zero), then the acknowledgement. */
  function Take(t: Tcb, g: Seg, x: int, diff: int, n: int): Outcome
  {
    AckOnly(Taken(t, g, x, n)).(calls := Notify(t, Data(g, x + diff, n), n))
  }

  /** tcp_ProcessData as TINYTCP.C writes it: whenever diff is not negative the segment's
      length less diff is taken as new, even when the segment lies wholly before acknum;
      then that count is negative, acknum moves backwards and the handler gets it. */
  function ProcessDataAsWritten(t: Tcb, g: Seg): Outcome
  {
    var diff := Seen(t, g);
    var x := TcpDataOffset(g.flags) * 4;
    var len := g.len - x;
    if diff >= 0 then Take(t, g, x, diff, ToInt32(Wrap32(len - diff))) else AckOnly(t)
  }

  /** tcp_ProcessData: the bytes of the segment not yet seen go to the handler and acknum
      moves past them (and past a FIN); a segment that holds nothing at or after acknum is
      only acknowledged. In every case the connection timeout is set and the socket's
      segment sent. */
  function ProcessData(t: Tcb, g: Seg): Outcome
  {
    var diff := Seen(t, g);
    var x := TcpDataOffset(g.flags) * 4;
    var len := g.len - x;
    if 0 <= diff <= len then Take(t, g, x, diff, len - diff) else AckOnly(t)
  }

  /** Move(&data[diff], &data[0], 512 - diff): the bytes from diff on moved to the front,
      the tail left as it was. */
  function Compacted(data: seq<Byte>, diff: int): (r: seq<Byte>)
    requires |data| == TCP_MAXDATA && 0 < diff <= TCP_MAXDATA
    ensures |r| == TCP_MAXDATA
  {
    data[diff..] + data[TCP_MAXDATA - diff..]
  }

  /** How far an acknowledgement number lies past seqnum, as the (int) of the unsigned
      difference. */
  function AckDistance(t: Tcb, ack: Longword): int
  {
    ToInt32(Wrap32(ack - t.seqnum))
  }

  /** The number of pending bytes an acknowledgement covers. */
  function AckCount(t: Tcb, ack: Longword): (d: int)
    ensures 0 <= d <= (if t.dataSize < 0 then 0 else t.dataSize)
  {
    var diff := AckDistance(t, ack);
    if diff <= 0 || t.dataSize <= 0 then 0 else if diff > t.dataSize then t.dataSize else diff
  }

  /** The acknowledgement step of ESTAB: the bytes the peer acknowledges are dropped from
      the front of the buffer and seqnum moves past them. An acknowledgement is never taken
      for more bytes than are pending. */
  function Acked(t: Tcb, ack: Longword): Tcb
    requires Buffered(t)
  {
    var d := AckCount(t, ack);
    if d > 0 then t.(data := Compacted(t.data, d), dataSize := t.dataSize - d, seqnum := Wrap32(t.seqnum + d))
    else t
  }

  /** The acknowledgement step as TINYTCP.C writes it: diff is cut to 512 only, so an
      acknowledgement beyond the pending bytes drives dataSize below zero. */
  function AckedAsWritten(t: Tcb, ack: Longword): Tcb
    requires Buffered(t)
  {
    var diff := AckDistance(t, ack);
    if diff > 0 then
      var d := if diff > TCP_MAXDATA then TCP_MAXDATA else diff;
      var data := if diff > TCP_MAXDATA then t.data else Compacted(t.data, d);
      t.(data := data, dataSize := ToShort(t.dataSize - d), seqnum := Wrap32(t.seqnum + d))
    else t
  }

  /** LISTEN: a SYN names the peer; SYN|ACK goes back and the socket is SYN-RECEIVED. */
  function OnListen(t: Tcb, g: Seg): Outcome
  {
    if HasFlag(g.flags, TCPF_SYN) then
      var t1 := t.(acknum := Wrap32(g.seqnum + 1), hisPort := g.srcPort, hisAddr := g.src,
                   flags := Or16(TCPF_SYN, TCPF_ACK));
      Outcome(t1.(state := TS_RSYN, unhappy := true, timeout := TCP_TIMEOUT), Sends(t1), [], false)
    else Idle(t)
  }

  /** SYN-SENT: a SYN is counted; with an ACK of our SYN the connection is established
      (nothing is sent), otherwise SYN-RECEIVED. A segment without SYN is answered by a RST
      at its ack number, and the socket starts over from sequence number 0. */
  function OnSynSent(t: Tcb, g: Seg): Outcome
  {
    if HasFlag(g.flags, TCPF_SYN) then
      var t1 := t.(acknum := Wrap32(t.acknum + 1), flags := TCPF_ACK, timeout := TCP_TIMEOUT);
      if HasFlag(g.flags, TCPF_ACK) && g.acknum == Wrap32(t.seqnum + 1) then
        Idle(t1.(state := TS_ESTAB, seqnum := Wrap32(t.seqnum + 1), acknum := Wrap32(g.seqnum + 1), unhappy := false))
      else Idle(t1.(state := TS_RSYN))
    else
      var t1 := t.(flags := TCPF_RST, seqnum := g.acknum);
      Outcome(t1.(flags := TCPF_SYN, timeout := TCP_TIMEOUT, seqnum := 0), Sends(t1), [], false)
  }

  /** SYN-RECEIVED: a repeated SYN is answered with SYN|ACK again; an ACK of our SYN sends
      an ACK and establishes the connection. */
  function OnSynReceived(t: Tcb, g: Seg): Outcome
  {
    var t0 := if HasFlag(g.flags, TCPF_SYN) then t.(flags := Or16(TCPF_SYN, TCPF_ACK)) else t;
    var sent0 := if HasFlag(g.flags, TCPF_SYN) then Sends(t0) else [];
    var t1 := if HasFlag(g.flags, TCPF_SYN) then t0.(timeout := TCP_TIMEOUT) else t0;
    if HasFlag(g.flags, TCPF_ACK) && g.acknum == Wrap32(t1.seqnum + 1) then
      var t2 := t1.(flags := TCPF_ACK);
      Outcome(t2.(seqnum := Wrap32(t1.seqnum + 1), unhappy := false, state := TS_ESTAB, timeout := TCP_TIMEOUT),
              sent0 + Sends(t2), [], false)
    else Outcome(t1, sent0, [], false)
  }

  /** ESTABLISHED: only a segment with ACK counts; the acknowledged bytes leave the buffer
      (never more than are pending, see Acked), then its data is processed as written. */
  function OnEstablished(t: Tcb, g: Seg): Outcome
    requires Buffered(t)
  {
    if !HasFlag(g.flags, TCPF_ACK) then Idle(t)
    else ProcessDataAsWritten(Acked(t, g.acknum).(flags := TCPF_ACK), g)
  }

  /** FIN-WAIT-1: with ACK, FIN|ACK again, or FIN-WAIT-2 when our FIN is acknowledged;
      then the data is processed as written. */
  function OnFinSent(t: Tcb, g: Seg): Outcome
  {
    if !HasFlag(g.flags, TCPF_ACK) then Idle(t) else ProcessDataAsWritten(OnFinSentReady(t, g), g)
  }

  /** FIN-WAIT-1's stores before the data: FIN|ACK, or FIN-WAIT-2 with ACK when the
      acknowledgement is one past seqnum (our FIN). */
  function OnFinSentReady(t: Tcb, g: Seg): Tcb
  {
    var diff := ToInt32(Wrap32(g.acknum - t.seqnum - 1));
    var t1 := t.(flags := Or16(TCPF_ACK, TCPF_FIN));
    if diff == 0 then t1.(state := TS_AFIN, flags := TCPF_ACK) else t1
  }

  /** FIN-WAIT-2: ACK readied and the data processed as written. */
  function OnFinAcked(t: Tcb, g: Seg): Outcome
  {
    ProcessDataAsWritten(t.(flags := TCPF_ACK), g)
  }

  /** CLOSING: the ACK of our FIN starts TIME-WAIT. */
  function OnFinReceived(t: Tcb, g: Seg): Outcome
  {
    if g.acknum == Wrap32(t.seqnum + 1) then Idle(t.(state := TS_TIMEWT, timeout := TCP_TIMEOUT)) else Idle(t)
  }

  /** LAST-ACK: the ACK of our FIN closes the socket, which leaves the registry with the
      handler told 0; anything else has FIN|ACK sent again. */
  function OnLastAck(t: Tcb, g: Seg): Outcome
  {
    if g.acknum == Wrap32(t.seqnum + 1) then
      var t1 := t.(state := TS_CLOSED, unhappy := false, dataSize := 0);
      Outcome(t1, [], Notify(t1, [], 0), true)
    else
      var t1 := t.(flags := Or16(TCPF_ACK, TCPF_FIN));
      Outcome(t1.(timeout := TCP_TIMEOUT), Sends(t1), [], false)
  }

  /** TIME-WAIT: every segment is answered with an ACK. */
  function OnTimeWait(t: Tcb): Outcome
  {
    var t1 := t.(flags := TCPF_ACK);
    Outcome(t1, Sends(t1), [], false)
  }

  /** tcp_Handler's switch on the state; CLOSED (and any unnamed state) ignores the segment. */
  function Respond(t: Tcb, g: Seg): Outcome
    requires Buffered(t)
  {
    if t.state == TS_LISTEN then OnListen(t, g)
    else if t.state == TS_SSYN then OnSynSent(t, g)
    else if t.state == TS_RSYN then OnSynReceived(t, g)
    else if t.state == TS_ESTAB then OnEstablished(t, g)
    else if t.state == TS_SFIN then OnFinSent(t, g)
    else if t.state == TS_AFIN then OnFinAcked(t, g)
    else if t.state == TS_RFIN then OnFinReceived(t, g)
    else if t.state == TS_LASTACK then OnLastAck(t, g)
    else if t.state == TS_TIMEWT then OnTimeWait(t)
    else Idle(t)
  }

  /** tcp_Handler on the socket demultiplexing chose: the sender's MAC is saved, then the
      segment is received. */
  function Handle(t: Tcb, g: Seg): Outcome
    requires Buffered(t)
  {
    Receive(t.(hisMac := g.mac), g)
  }

  /** A RST closes the socket in any state and unthreads it; otherwise the state's case. */
  function Receive(t: Tcb, g: Seg): Outcome
    requires Buffered(t)
  {
    if HasFlag(g.flags, TCPF_RST) then
      var t1 := t.(state := TS_CLOSED);
      Outcome(t1, [], Notify(t1, [], -1), true)
    else Respond(t, g)
  }

  // ----- the retransmitter ---------------------------------------------------------------

  /** One socket's turn in tcp_Retransmitter: pending data or an unhappy socket is sent;
      the timeout runs down by 1000 ms (unsigned) unless an established socket sent
      nothing; at exactly 0 a TIME-WAIT socket closes and any other is aborted. */
  function TickOne(t: Tcb): Outcome
  {
    var x := t.dataSize > 0 || t.unhappy;
    var sent := if x then Sends(t) else [];
    var t1 := if x || t.state != TS_ESTAB then t.(timeout := Wrap32(t.timeout - TCP_RETRANSMITTIME)) else t;
    if t1.timeout == 0 then
      var e := Expire(t1);
      Outcome(e.tcb, sent + e.sent, e.calls, true)
    else Outcome(t1, sent, [], false)
  }

  /** A socket whose timeout ran out: TIME-WAIT closes (the handler told 0), any other
      state is aborted; either way the socket leaves the registry. */
  function Expire(t: Tcb): (o: Outcome)
    ensures o.unthread && o.tcb.state == TS_CLOSED
    ensures o.tcb.handler == t.handler && o.tcb.timeout == t.timeout
    ensures t.state == TS_TIMEWT ==> o.sent == [] && o.calls == Notify(t, [], 0)
    ensures t.state != TS_TIMEWT ==> o.calls == Notify(t, [], -1)
  {
    if t.state == TS_TIMEWT then
      var t2 := t.(state := TS_CLOSED);
      Outcome(t2, [], Notify(t2, [], 0), true)
    else Abort(t)
  }

  /** the walk's limit: the loop breaks once n > 10 */
  const SWEEP_LIMIT: nat := 11

  /** Every socket's turn, as if the walk went over the whole registry. */
  function Turns(ts: seq<Tcb>): (r: seq<Outcome>)
    ensures |r| == |ts|
    decreases |ts|
  {
    if |ts| == 0 then [] else [TickOne(ts[0])] + Turns(ts[1..])
  }

  /** The turns the walk takes: up to and including the first that unthreads its socket,
      and at most budget of them. */
  function Cut(os: seq<Outcome>, budget: nat): (r: seq<Outcome>)
    ensures |r| <= |os| && |r| <= budget
    decreases |os|
  {
    if |os| == 0 || budget == 0 then []
    else if os[0].unthread || budget == 1 then [os[0]]
    else [os[0]] + Cut(os[1..], budget - 1)
  }

  /** tcp_Retransmitter's walk over the registry: one outcome per socket visited, in
      order; the walk ends after a socket is unthreaded (its next pointer is cleared) or
      after budget sockets. */
  function Sweep(ts: seq<Tcb>, budget: nat): (r: seq<Outcome>)
    ensures |r| <= |ts| && |r| <= budget
  {
    Cut(Turns(ts), budget)
  }

  lemma {:induction false} TurnsAt(ts: seq<Tcb>, i: nat)
    requires i < |ts|
    ensures Turns(ts)[i] == TickOne(ts[i])
    decreases i
  {
    if i > 0 {
      TurnsAt(ts[1..], i - 1);
      assert ts[1..][i - 1] == ts[i];
    }
  }

  /** The snapshots sent by a sequence of outcomes, in order. */
  function AllSent(os: seq<Outcome>): seq<Tcb>
  {
    if |os| == 0 then [] else AllSent(os[..|os| - 1]) + os[|os| - 1].sent
  }

  /** The socket values after a walk: the outcomes' sockets, then the sockets not visited. */
  function Updated(ts: seq<Tcb>, os: seq<Outcome>): (r: seq<Tcb>)
    requires |os| <= |ts|
    ensures |r| == |ts|
    ensures forall i :: 0 <= i < |os| ==> r[i] == os[i].tcb
    ensures forall i :: |os| <= i < |ts| ==> r[i] == ts[i]
  {
    seq(|ts|, i requires 0 <= i < |ts| => if i < |os| then os[i].tcb else ts[i])
  }

  lemma AllSentStep(os: seq<Outcome>, o: Outcome)
    ensures AllSent(os + [o]) == AllSent(os) + o.sent
  {
    assert (os + [o])[..|os|] == os;
  }

  /** One more socket of the walk: either the walk ends with it, or the rest follows. */
  /** A walk bounded by SWEEP_LIMIT still going on after the turns os: they are the first
      turns of outs and none of them unthreaded its socket. */
  predicate Going(outs: seq<Outcome>, os: seq<Outcome>)
  {
    |os| <= |outs| && |os| < SWEEP_LIMIT && os == outs[..|os|]
    && forall k :: 0 <= k < |os| ==> !os[k].unthread
  }

  /** One more turn: the walk goes on unless it unthreaded its socket or reached the
      limit, and then the turns taken are all the walk's. */
  lemma CutStep(outs: seq<Outcome>, os: seq<Outcome>, go: bool, os1: seq<Outcome>)
    requires Going(outs, os) && |os| < |outs|
    requires os1 == os + [outs[|os|]] && go == (!outs[|os|].unthread && |os1| < SWEEP_LIMIT)
    ensures go ==> Going(outs, os1)
    ensures !go ==> os1 == Cut(outs, SWEEP_LIMIT)
  {
    var n := |os1|;
    assert os1 == outs[..n];
    if go {
      forall k | 0 <= k < n
        ensures !os1[k].unthread
      {
        if k < n - 1 {
          assert os1[k] == os[k];
        }
      }
    } else {
      assert forall k :: 0 <= k < n - 1 ==> outs[k] == os[k];
      CutPrefix(outs, n, SWEEP_LIMIT);
    }
  }

  /** A walk that went on to the end of the registry took every turn. */
  lemma CutAll(outs: seq<Outcome>, os: seq<Outcome>)
    requires Going(outs, os) && |os| == |outs|
    ensures os == Cut(outs, SWEEP_LIMIT)
  {
    assert os == outs;
    CutWhole(outs, SWEEP_LIMIT);
  }

  /** The first n turns are the walk's when the n-th is the first to unthread or the last
      the budget allows. */
  lemma {:induction false} CutPrefix(outs: seq<Outcome>, n: nat, budget: nat)
    requires 0 < n <= |outs| && n <= budget
    requires forall k :: 0 <= k < n - 1 ==> !outs[k].unthread
    requires outs[n - 1].unthread || n == budget
    ensures Cut(outs, budget) == outs[..n]
    decreases n
  {
    if n > 1 {
      CutPrefix(outs[1..], n - 1, budget - 1);
      assert outs[..n] == [outs[0]] + outs[1..][..n - 1];
    }
  }

  /** Every turn is the walk's when none unthreads and the budget is not reached. */
  lemma {:induction false} CutWhole(outs: seq<Outcome>, budget: nat)
    requires |outs| < budget && forall k :: 0 <= k < |outs| ==> !outs[k].unthread
    ensures Cut(outs, budget) == outs
    decreases |outs|
  {
    if |outs| > 0 {
      CutWhole(outs[1..], budget - 1);
      assert outs == [outs[0]] + outs[1..];
    }
  }

  // ----- sequence arithmetic ---------------------------------------------------------------

  /** Moving a 32-bit sequence number forward by d and measuring the distance gives d back. */
  lemma WrapDistance(a: Longword, d: int)
    requires 0 <= d < 0x1_0000_0000
    ensures Wrap32(Wrap32(a + d) - a) == d
  {
    if a + d >= 0x1_0000_0000 {
      assert Wrap32(a + d) == a + d - 0x1_0000_0000;
    }
  }

  /** Moving a 32-bit sequence number back by d and measuring from there gives d. */
  lemma WrapDistanceBack(a: Longword, d: int)
    requires 0 <= d < 0x1_0000_0000
    ensures Wrap32(a - Wrap32(a - d)) == d
  {
    if a - d < 0 {
      assert Wrap32(a - d) == a - d + 0x1_0000_0000;
    }
  }

  /** Adding in two wrapped steps is adding once. */
  lemma WrapAdd(a: int, b: int)
    ensures Wrap32(Wrap32(a) + b) == Wrap32(a + b)
  {
    var q := a / 0x1_0000_0000;
    assert a == 0x1_0000_0000 * q + Wrap32(a);
    assert Wrap32(a) + b == (a + b) - 0x1_0000_0000 * q;
    WrapShift(a + b, q);
  }

  lemma WrapShift(x: int, q: int)
    ensures Wrap32(x - 0x1_0000_0000 * q) == Wrap32(x)
  {
    var r := x / 0x1_0000_0000;
    assert x - 0x1_0000_0000 * q == 0x1_0000_0000 * (r - q) + Wrap32(x);
    DivUnique(x - 0x1_0000_0000 * q, 0x1_0000_0000, r - q, Wrap32(x));
  }

  // ----- writing, acknowledging, closing, aborting -------------------------------------------

  /** tcp_Write in ESTAB: the accepted count is len cut to the free room; the accepted bytes
      follow the pending ones, PUSH is set and the socket's segment sent. Outside ESTAB
      nothing changes and 0 is returned. */
  lemma WriteAppends(t: Tcb, dp: seq<Byte>, len: int)
    requires Buffered(t) && len <= |dp|
    ensures var w := Write(t, dp, len);
      && Buffered(w.1.tcb) && w.1.calls == [] && !w.1.unthread
      && (t.state != TS_ESTAB ==> w.0 == 0 && w.1 == Idle(t))
      && (t.state == TS_ESTAB ==> w.0 == (if len <= TCP_MAXDATA - t.dataSize then len else TCP_MAXDATA - t.dataSize))
      && (t.state == TS_ESTAB && w.0 > 0 ==>
            && Pending(w.1.tcb) == Pending(t) + dp[..w.0]
            && w.1.tcb.state == TS_ESTAB && HasFlag(w.1.tcb.flags, TCPF_PUSH)
            && w.1.sent == [w.1.tcb])
      && (w.0 <= 0 ==> w.1 == Idle(t))
  {
    var w := Write(t, dp, len);
    if t.state == TS_ESTAB && w.0 > 0 {
      var n := w.0;
      SplicePrefix(t.data, t.dataSize, dp[..n]);
      OrFlag(t.flags, TCPF_PUSH);
      PushSet(t.flags);
    }
  }

  /** Setting PUSH makes PUSH present. */
  lemma PushSet(f: Word)
    ensures HasFlag(Or16(f, TCPF_PUSH), TCPF_PUSH)
  {
    OrFlag(f, TCPF_PUSH);
    if !HasFlag(f, TCPF_PUSH) {
      assert (f + 8) / 8 == f / 8 + 1;
    }
  }

  /** An acknowledgement drops exactly the covered bytes from the front of the pending
      data and moves seqnum past them; every other field stays. */
  lemma AckedDropsPrefix(t: Tcb, ack: Longword)
    requires Buffered(t)
    ensures var r := Acked(t, ack); var d := AckCount(t, ack);
      && Buffered(r)
      && Pending(t) == Pending(t)[..d] + Pending(r)
      && r.seqnum == Wrap32(t.seqnum + d)
      && r == t.(data := r.data, dataSize := r.dataSize, seqnum := r.seqnum)
  {
    var d := AckCount(t, ack);
    if d > 0 {
      var r := Acked(t, ack);
      assert Pending(r) == t.data[d..t.dataSize];
    }
  }

  /** An acknowledgement of everything pending empties the buffer; one that does not
      reach past seqnum changes nothing. */
  lemma AckedAll(t: Tcb, ack: Longword)
    requires Buffered(t)
    ensures ack == Wrap32(t.seqnum + t.dataSize) ==>
      Acked(t, ack).dataSize == 0 && Acked(t, ack).seqnum == ack
    ensures AckDistance(t, ack) <= 0 ==> Acked(t, ack) == t
  {
    if ack == Wrap32(t.seqnum + t.dataSize) {
      WrapDistance(t.seqnum, t.dataSize);
    }
  }

  /** Where the acknowledgement stays within the pending bytes the step as written and the
      corrected step agree. */
  lemma AckedAsWrittenAgrees(t: Tcb, ack: Longword)
    requires Buffered(t) && AckDistance(t, ack) <= t.dataSize
    ensures AckedAsWritten(t, ack) == Acked(t, ack)
  {
  }

  /** The input that shows the difference: nothing pending, the peer acknowledges one byte.
      As written dataSize becomes -1 (and tcp_Send would then copy a negative count);
      the corrected step leaves the socket as it was. */
  lemma AckBeyondPendingAsWritten(t: Tcb)
    requires Buffered(t) && t.dataSize == 0
    ensures var w := AckedAsWritten(t, Wrap32(t.seqnum + 1));
      w.dataSize == -1 && !Buffered(w) && w.seqnum == Wrap32(t.seqnum + 1)
    ensures Acked(t, Wrap32(t.seqnum + 1)) == t
  {
    WrapDistance(t.seqnum, 1);
  }

  /** tcp_Close acts only on ESTAB and SYN-RECEIVED and is idempotent; it sends nothing
      itself, but leaves the socket unhappy, so the next retransmitter pass sends the FIN
      first. */
  lemma CloseSendsFinOnce(t: Tcb)
    ensures Close(Close(t)) == Close(t)
    ensures Close(t) != t <==> t.state == TS_ESTAB || t.state == TS_RSYN
    ensures Close(t).state == TS_SFIN <==> t.state in {TS_ESTAB, TS_RSYN, TS_SFIN}
    ensures Close(t) != t ==> var o := TickOne(Close(t));
      |o.sent| >= 1 && o.sent[0] == Close(t) && HasFlag(Close(t).flags, TCPF_FIN) && HasFlag(Close(t).flags, TCPF_ACK)
  {
    OrFlag(TCPF_ACK, TCPF_FIN);
  }

  /** tcp_Abort always ends CLOSED, empty, quiet and unthreaded, with the handler told -1;
      a RST|ACK carrying the old state goes out exactly when the socket was neither
      LISTEN nor CLOSED (nor never opened). */
  lemma AbortCloses(t: Tcb)
    ensures var o := Abort(t);
      && o.tcb.state == TS_CLOSED && o.tcb.dataSize == 0 && !o.tcb.unhappy && o.unthread
      && o.calls == Notify(t, [], -1)
      && (o.sent == [] <==> t.state in {0, TS_LISTEN, TS_CLOSED})
      && (o.sent != [] ==>
            (o.sent == [t.(flags := o.sent[0].flags)]
             && HasFlag(o.sent[0].flags, TCPF_RST) && HasFlag(o.sent[0].flags, TCPF_ACK)))
      && Sends(o.tcb) == []
  {
    OrFlag(TCPF_RST, TCPF_ACK);
  }

  // ----- receiving data --------------------------------------------------------------------

  /** A segment starting d bytes before acknum (d = 0: in order), without SYN or FIN and
      with at least d bytes of data, hands exactly its unseen bytes to the handler and
      moves acknum to the segment's end; the acknowledgement goes out. This holds of the
      step as written, which the engine runs. */
  lemma OverlapDelivered(t: Tcb, g: Seg, d: int)
    requires !HasFlag(g.flags, TCPF_SYN) && !HasFlag(g.flags, TCPF_FIN)
    requires 0 <= d <= g.len - 4 * TcpDataOffset(g.flags) <= 0xFFFF
    requires g.seqnum == Wrap32(t.acknum - d)
    ensures var x := 4 * TcpDataOffset(g.flags); var n := g.len - x - d;
      var o := ProcessDataAsWritten(t, g);
      && o.calls == Notify(t, Data(g, x + d, n), n)
      && o.tcb.acknum == Wrap32(g.seqnum + g.len - x)
      && o.tcb == t.(acknum := o.tcb.acknum, timeout := TCP_TIMEOUT)
      && o.sent == Sends(o.tcb) && !o.unthread
  {
    var x := 4 * TcpDataOffset(g.flags);
    WrapDistanceBack(t.acknum, d);
    assert Seen(t, g) == d;
    assert ToInt32(Wrap32(g.len - x - d)) == g.len - x - d;
    WrapAdd(t.acknum - d, g.len - x);
  }

  /** The step as written and the corrected step agree on every segment that starts at
      or after acknum, or that holds at least the bytes before acknum. */
  lemma ProcessDataAgrees(t: Tcb, g: Seg)
    requires g.len <= 0xFFFF
    requires Seen(t, g) < 0 || Seen(t, g) <= g.len - 4 * TcpDataOffset(g.flags)
    ensures ProcessDataAsWritten(t, g) == ProcessData(t, g)
  {
    var len := g.len - 4 * TcpDataOffset(g.flags);
    if Seen(t, g) >= 0 {
      assert ToInt32(Wrap32(len - Seen(t, g))) == len - Seen(t, g);
    }
  }

  /** Where they part: a well-formed segment without FIN that lies wholly before acknum
      (k bytes too early) moves acknum back by k as written and tells the handler -k; the
      corrected step leaves acknum where it was and tells the handler nothing. */
  lemma StaleSegmentAsWritten(t: Tcb, g: Seg)
    requires !HasFlag(g.flags, TCPF_FIN) && 4 * TcpDataOffset(g.flags) <= g.len
    requires g.len - 4 * TcpDataOffset(g.flags) < Seen(t, g)
    ensures var k := Seen(t, g) - (g.len - 4 * TcpDataOffset(g.flags));
      var o := ProcessDataAsWritten(t, g);
      && o.tcb.acknum == Wrap32(t.acknum - k) && o.calls == Notify(t, [], -k)
      && Wrap32(t.acknum - o.tcb.acknum) == k
    ensures var o := ProcessData(t, g);
      o.tcb.acknum == t.acknum && o.calls == []
  {
    var x := TcpDataOffset(g.flags) * 4;
    var k := Seen(t, g) - (g.len - x);
    assert ToInt32(Wrap32(-k)) == -k;
    assert ProcessDataAsWritten(t, g) == AckOnly(t.(acknum := Wrap32(t.acknum + -k))).(calls := Notify(t, Data(g, x + Seen(t, g), -k), -k));
    WrapDistanceBack(t.acknum, k);
  }

  /** Whatever arrives, the corrected step never moves acknum backwards or by more than a
      segment can carry, and never hands the handler a negative count: the advance is the
      count handed over, plus one for a FIN. */
  lemma ProcessDataAdvances(t: Tcb, g: Seg)
    requires g.len <= 0xFFFF
    ensures var o := ProcessData(t, g);
      && (forall c :: c in o.calls ==> 0 <= c.len && |c.data| == c.len)
      && Wrap32(o.tcb.acknum - t.acknum) <= 0x1_0000
      && (t.handler && !HasFlag(g.flags, TCPF_FIN) ==>
            |o.calls| <= 1 && Wrap32(o.tcb.acknum - t.acknum) == if o.calls == [] then 0 else o.calls[0].len)
  {
    var diff := Seen(t, g);
    var x := TcpDataOffset(g.flags) * 4;
    var len := g.len - x;
    var o := ProcessData(t, g);
    if 0 <= diff <= len {
      TakenAdvance(t, g, x, len - diff);
    }
  }

  /** Taking n new bytes moves acknum on by n, and by one more for a FIN. */
  lemma TakenAdvance(t: Tcb, g: Seg, x: int, n: int)
    requires 0 <= n <= 0xFFFF
    ensures Wrap32(Taken(t, g, x, n).acknum - t.acknum) == n + (if HasFlag(g.flags, TCPF_FIN) then 1 else 0)
  {
    if HasFlag(g.flags, TCPF_FIN) {
      WrapAdd(t.acknum + n, 1);
      WrapDistance(t.acknum, n + 1);
    } else {
      WrapDistance(t.acknum, n);
    }
  }

  /** The input that shows the difference: a keep-alive, one byte before acknum and
      without data. As written the handler is told -1 (which the applications read as a
      close) and acknum moves back by one; corrected, the segment is only acknowledged. */
  lemma KeepAliveAsWritten(t: Tcb, g: Seg)
    requires t.handler && g.flags == 0x5010 && g.len == TCP_HEADER
    requires g.seqnum == Wrap32(t.acknum - 1)
    ensures var o := ProcessDataAsWritten(t, g);
      o.calls == [Call([], -1)] && o.tcb.acknum == Wrap32(t.acknum - 1)
      && Wrap32(o.tcb.acknum - t.acknum) == 0xFFFF_FFFF
    ensures var o := ProcessData(t, g);
      o.calls == [] && o.tcb.acknum == t.acknum && o.sent == Sends(o.tcb)
  {
    WrapDistanceBack(t.acknum, 1);
    assert Seen(t, g) == 1;
    assert ToInt32(Wrap32(0 - 1)) == -1;
    WrapAdd(t.acknum - 1, 0);
  }

  /** A FIN whose place is at or after acknum moves the states past CLOSE-WAIT: ESTAB to
      LAST-ACK sending FIN, FIN-WAIT-1 to CLOSING, FIN-WAIT-2 to TIME-WAIT; acknum counts it. */
  lemma FinTransitions(t: Tcb, g: Seg)
    requires t.state in {TS_ESTAB, TS_SFIN, TS_AFIN} && HasFlag(g.flags, TCPF_FIN)
    requires 0 <= Seen(t, g) <= g.len - 4 * TcpDataOffset(g.flags) <= 0xFFFF
    ensures var o := ProcessDataAsWritten(t, g);
      && o.tcb.state == (if t.state == TS_ESTAB then TS_LASTACK else if t.state == TS_SFIN then TS_RFIN else TS_TIMEWT)
      && (t.state == TS_ESTAB ==> HasFlag(o.tcb.flags, TCPF_FIN) && o.tcb.unhappy && o.sent == [o.tcb])
      && o.tcb.acknum == Wrap32(t.acknum + (g.len - 4 * TcpDataOffset(g.flags) - Seen(t, g)) + 1)
  {
    var n := g.len - 4 * TcpDataOffset(g.flags) - Seen(t, g);
    assert ToInt32(Wrap32(n)) == n;
    WrapAdd(t.acknum + n, 1);
    if t.state == TS_ESTAB {
      FinSet(t.flags);
    }
  }

  /** Setting FIN makes FIN present. */
  lemma FinSet(f: Word)
    ensures HasFlag(Or16(f, TCPF_FIN), TCPF_FIN)
  {
    OrFlag(f, TCPF_FIN);
  }

  // ----- connection set-up and reset ---------------------------------------------------------

  /** The active open: tcp_Open sends a SYN at sequence number 0 from SYN-SENT; a SYN|ACK
      acknowledging it establishes the connection at sequence number 1, acknowledging the
      peer's SYN. The engine sends no ACK of its own at that point. */
  lemma ActiveOpenHandshake(t: Tcb, lport: Word, ina: Longword, port: Word, handler: bool, mac: Mac,
                            clock: nat, g: Seg)
    requires |t.data| == TCP_MAXDATA
    requires HasFlag(g.flags, TCPF_SYN) && HasFlag(g.flags, TCPF_ACK) && !HasFlag(g.flags, TCPF_RST) && g.acknum == 1
    ensures var o1 := Open(t, lport, ina, port, handler, mac, clock);
      && Buffered(o1.tcb) && o1.tcb.state == TS_SSYN && o1.sent == [o1.tcb]
      && o1.tcb.flags == TCPF_SYN && o1.tcb.seqnum == 0 && o1.tcb.unhappy
      && o1.tcb.myPort == (if lport == 0 then Wrap16(clock) else lport)
      && o1.tcb.hisAddr == ina && o1.tcb.hisPort == port && o1.tcb.hisMac == mac
      && var o2 := Handle(o1.tcb, g);
         && o2.tcb.state == TS_ESTAB && o2.tcb.seqnum == 1 && o2.tcb.acknum == Wrap32(g.seqnum + 1)
         && !o2.tcb.unhappy && o2.tcb.flags == TCPF_ACK && o2.sent == [] && o2.calls == [] && !o2.unthread
  {
  }

  /** The passive open: a listening socket answers a SYN for its port with SYN|ACK from
      sequence number 0, acknowledging the SYN and taking the sender as its peer; an ACK
      of that SYN is answered with an ACK and establishes the connection at 1. */
  lemma PassiveOpenHandshake(t: Tcb, port: Word, handler: bool, timeout: Longword, syn: Seg, ack: Seg)
    requires |t.data| == TCP_MAXDATA
    requires HasFlag(syn.flags, TCPF_SYN) && !HasFlag(syn.flags, TCPF_RST) && syn.dstPort == port
    requires HasFlag(ack.flags, TCPF_ACK) && !HasFlag(ack.flags, TCPF_SYN) && !HasFlag(ack.flags, TCPF_RST)
    requires ack.acknum == 1
    ensures var l := Listen(t, port, handler, timeout);
      && Buffered(l) && PassiveMatch(l, syn)
      && var o1 := Handle(l, syn);
         && o1.tcb.state == TS_RSYN && o1.tcb.unhappy && |o1.sent| == 1 && o1.calls == []
         && o1.sent[0].flags == Or16(TCPF_SYN, TCPF_ACK) && o1.sent[0].seqnum == 0
         && o1.sent[0].acknum == Wrap32(syn.seqnum + 1)
         && o1.sent[0].hisPort == syn.srcPort && o1.sent[0].hisAddr == syn.src && o1.sent[0].hisMac == syn.mac
         && var o2 := Handle(o1.tcb, ack);
            && o2.tcb.state == TS_ESTAB && o2.tcb.seqnum == 1 && !o2.tcb.unhappy
            && |o2.sent| == 1 && o2.sent[0].flags == TCPF_ACK && o2.sent[0].seqnum == 0
            && o2.sent[0].acknum == Wrap32(syn.seqnum + 1) && o2.calls == []
  {
    OrFlag(TCPF_SYN, TCPF_ACK);
  }

  /** A segment with RST closes the socket it reaches, in any state, sending nothing; the
      handler is told -1 and the socket leaves the registry. */
  lemma ResetCloses(t: Tcb, g: Seg)
    requires Buffered(t) && HasFlag(g.flags, TCPF_RST)
    ensures var o := Handle(t, g);
      && o.tcb.state == TS_CLOSED && o.unthread && o.sent == [] && o.calls == Notify(t, [], -1)
      && o.tcb == t.(hisMac := g.mac, state := TS_CLOSED)
  {
  }

  /** A socket leaves the registry on a RST, or in LAST-ACK when the segment acknowledges
      our FIN; every other segment keeps it threaded. */
  lemma HandleUnthreads(t: Tcb, g: Seg)
    requires Buffered(t)
    ensures Handle(t, g).unthread
            <==> HasFlag(g.flags, TCPF_RST) || (t.state == TS_LASTACK && g.acknum == Wrap32(t.seqnum + 1))
  {
    RespondUnthreads(t.(hisMac := g.mac), g);
  }

  /** The cases of the switch unthread only in LAST-ACK, on the ACK of our FIN. */
  lemma RespondUnthreads(t: Tcb, g: Seg)
    requires Buffered(t)
    ensures Respond(t, g).unthread <==> t.state == TS_LASTACK && g.acknum == Wrap32(t.seqnum + 1)
  {
  }

  // ----- the states the machine reaches ---------------------------------------------------

  /** The states a socket on the registry can be in: CLOSE-WAIT is declared but never used. */
  predicate Named(state: int)
  {
    TS_LISTEN <= state <= TS_CLOSED && state != TS_CLOSEWT
  }

  /** tcp_ProcessData is reached from ESTAB, FIN-WAIT-1 and FIN-WAIT-2 only, and from those
      a FIN leads to LAST-ACK, CLOSING or TIME-WAIT, never to the data offset. */
  lemma ProcessDataStates(t: Tcb, g: Seg)
    requires t.state in {TS_ESTAB, TS_SFIN, TS_AFIN}
    ensures ProcessDataAsWritten(t, g).tcb.state in {TS_ESTAB, TS_SFIN, TS_AFIN, TS_RFIN, TS_LASTACK, TS_TIMEWT}
  {
  }

  /** tcp_Handler keeps the socket in a named state; CLOSE-WAIT is skipped. */
  lemma HandleNamed(t: Tcb, g: Seg)
    requires Buffered(t) && Named(t.state)
    ensures Named(Handle(t, g).tcb.state)
  {
    var t0 := t.(hisMac := g.mac);
    if HasFlag(g.flags, TCPF_RST) {
    } else if t0.state == TS_ESTAB {
      if HasFlag(g.flags, TCPF_ACK) {
        ProcessDataStates(Acked(t0, g.acknum).(flags := TCPF_ACK), g);
      }
    } else if t0.state == TS_SFIN {
      if HasFlag(g.flags, TCPF_ACK) {
        ProcessDataStates(OnFinSentReady(t0, g), g);
      }
    } else if t0.state == TS_AFIN {
      ProcessDataStates(t0.(flags := TCPF_ACK), g);
    }
  }

  /** The socket calls keep it in a named state as well. */
  lemma CallsNamed(t: Tcb, dp: seq<Byte>, len: int)
    requires Buffered(t) && Named(t.state) && len <= |dp|
    ensures Named(TickOne(t).tcb.state)
    ensures Named(Close(t).state) && Named(Abort(t).tcb.state)
    ensures Named(Write(t, dp, len).1.tcb.state) && Named(Flush(t).tcb.state)
  {
  }

  // ----- the retransmitter's timers ------------------------------------------------------

  /** The socket after k passes of the retransmitter. */
  function Ticks(t: Tcb, k: nat): Tcb
    decreases k
  {
    if k == 0 then t else TickOne(Ticks(t, k - 1)).tcb
  }

  /** An established socket with nothing to send is left alone: its timeout does not run
      (one whose timeout already ran out while it was sending would be aborted). */
  lemma IdleConnectionKept(t: Tcb)
    requires t.state == TS_ESTAB && t.dataSize <= 0 && !t.unhappy && t.timeout != 0
    ensures TickOne(t) == Idle(t)
  {
  }

  /** A TIME-WAIT socket whose timeout is m seconds is counted down a second per pass. */
  lemma {:induction false} TimeWaitCountdown(t: Tcb, m: nat, j: nat)
    requires t.state == TS_TIMEWT && t.timeout == 1000 * m && j < m
    ensures Ticks(t, j) == t.(timeout := 1000 * (m - j))
    decreases j
  {
    if j > 0 {
      TimeWaitCountdown(t, m, j - 1);
      var u := Ticks(t, j - 1);
      assert u.timeout == 1000 * (m - j) + 1000;
      TimeWaitTick(u);
    }
  }

  /** One pass over a TIME-WAIT socket with more than a second left takes a second off. */
  lemma TimeWaitTick(u: Tcb)
    requires u.state == TS_TIMEWT && u.timeout > TCP_RETRANSMITTIME
    ensures TickOne(u).tcb == u.(timeout := u.timeout - TCP_RETRANSMITTIME) && !TickOne(u).unthread
  {
  }

  /** ... and closes on pass m exactly: the handler is told 0 and the socket unthreaded.
      With tcp_TIMEOUT that is the twentieth pass. */
  lemma TimeWaitCloses(t: Tcb, m: nat, j: nat)
    requires t.state == TS_TIMEWT && t.timeout == 1000 * m && j < m
    ensures var o := TickOne(Ticks(t, j));
      && (o.unthread <==> j == m - 1)
      && (j == m - 1 ==> o.tcb.state == TS_CLOSED && o.calls == Notify(t, [], 0))
      && (j < m - 1 ==> o.tcb.state == TS_TIMEWT && o.calls == [])
    ensures TCP_TIMEOUT == 1000 * 20
  {
    TimeWaitCountdown(t, m, j);
  }

  /** One pass moves a timeout down by a second without changing it modulo 8. */
  lemma StepKeepsResidue(w: Longword)
    ensures Wrap32(w - TCP_RETRANSMITTIME) % 8 == w % 8
  {
    if w < 1000 {
      assert Wrap32(w - 1000) == w - 1000 + 0x1_0000_0000;
    }
  }

  /** A listening socket whose timeout is not a multiple of 8 never times out: the timeout
      steps by 1000 and wraps at 2^32, both multiples of 8, so it never reaches 0. */
  lemma {:induction false} ListenNeverExpires(t: Tcb, k: nat)
    requires t.state == TS_LISTEN && t.dataSize <= 0 && !t.unhappy && t.timeout % 8 != 0
    ensures Ticks(t, k) == t.(timeout := Wrap32(t.timeout - TCP_RETRANSMITTIME * k))
    ensures Ticks(t, k).timeout % 8 == t.timeout % 8
    ensures !TickOne(Ticks(t, k)).unthread && TickOne(Ticks(t, k)).sent == []
    decreases k
  {
    if k > 0 {
      ListenNeverExpires(t, k - 1);
      var u := Ticks(t, k - 1);
      ListenTick(u);
      WrapAdd(t.timeout - TCP_RETRANSMITTIME * (k - 1), -1000);
    }
    ListenTick(Ticks(t, k));
  }

  /** One pass over such a listening socket: the timeout steps down and keeps its residue. */
  lemma ListenTick(u: Tcb)
    requires u.state == TS_LISTEN && u.dataSize <= 0 && !u.unhappy && u.timeout % 8 != 0
    ensures TickOne(u) == Outcome(u.(timeout := Wrap32(u.timeout - TCP_RETRANSMITTIME)), [], [], false)
    ensures Wrap32(u.timeout - TCP_RETRANSMITTIME) % 8 == u.timeout % 8
  {
    StepKeepsResidue(u.timeout);
  }

  /** tcp_Listen with timeout 0 listens forever: 0x7FFFFFF is 7 modulo 8. */
  lemma ListenZeroIsForever(t: Tcb, port: Word, handler: bool, k: nat)
    ensures Ticks(Listen(t, port, handler, 0), k).state == TS_LISTEN
    ensures !TickOne(Ticks(Listen(t, port, handler, 0), k)).unthread
  {
    ListenNeverExpires(Listen(t, port, handler, 0), k);
  }

  /** tcp_Retransmitter visits the registry in order, each socket once, and stops after
      the first socket it unthreads or after the budget. */
  lemma {:induction false} SweepVisitsInOrder(ts: seq<Tcb>, budget: nat)
    ensures var r := Sweep(ts, budget);
      && (forall i :: 0 <= i < |r| ==> r[i] == TickOne(ts[i]))
      && (forall i :: 0 <= i < |r| - 1 ==> !r[i].unthread)
      && (|r| < |ts| && |r| < budget ==> |r| > 0 && r[|r| - 1].unthread)
  {
    SweepTicksEach(ts, budget);
    SweepStops(ts, budget);
  }

  lemma {:induction false} SweepTicksEach(ts: seq<Tcb>, budget: nat)
    ensures var r := Sweep(ts, budget); forall i :: 0 <= i < |r| ==> r[i] == TickOne(ts[i])
  {
    var r := Sweep(ts, budget);
    CutTakesPrefix(Turns(ts), budget);
    forall i | 0 <= i < |r|
      ensures r[i] == TickOne(ts[i])
    {
      TurnsAt(ts, i);
    }
  }

  /** The walk's turns are the first turns of os. */
  lemma {:induction false} CutTakesPrefix(os: seq<Outcome>, budget: nat)
    ensures var r := Cut(os, budget); forall i :: 0 <= i < |r| ==> r[i] == os[i]
    decreases |os|
  {
    if |os| > 0 && budget > 0 && !(os[0].unthread || budget == 1) {
      var r, r1 := Cut(os, budget), Cut(os[1..], budget - 1);
      CutTakesPrefix(os[1..], budget - 1);
      assert r == [os[0]] + r1;
      forall i | 1 <= i < |r|
        ensures r[i] == os[i]
      {
        assert r[i] == r1[i - 1] && os[i] == os[1..][i - 1];
      }
    }
  }

  lemma {:induction false} SweepStops(ts: seq<Tcb>, budget: nat)
    ensures var r := Sweep(ts, budget);
      && (forall i :: 0 <= i < |r| - 1 ==> !r[i].unthread)
      && (|r| < |ts| && |r| < budget ==> |r| > 0 && r[|r| - 1].unthread)
  {
    CutStops(Turns(ts), budget);
  }

  lemma {:induction false} CutStops(os: seq<Outcome>, budget: nat)
    ensures var r := Cut(os, budget);
      && (forall i :: 0 <= i < |r| - 1 ==> !r[i].unthread)
      && (|r| < |os| && |r| < budget ==> |r| > 0 && r[|r| - 1].unthread)
    decreases |os|
  {
    if |os| > 0 && budget > 0 && !(os[0].unthread || budget == 1) {
      var r, r1 := Cut(os, budget), Cut(os[1..], budget - 1);
      CutStops(os[1..], budget - 1);
      assert r == [os[0]] + r1;
      forall i | 1 <= i < |r| - 1
        ensures !r[i].unthread
      {
        assert r[i] == r1[i - 1];
      }
    }
  }

  // ----- the send buffer --------------------------------------------------------------

  /** tcp_Handler never lets dataSize leave 0..512 or the buffer change size. */
  lemma HandleKeepsBuffer(t: Tcb, g: Seg)
    requires Buffered(t)
    ensures Buffered(Handle(t, g).tcb)
  {
    if !HasFlag(g.flags, TCPF_RST) {
      var t0 := t.(hisMac := g.mac);
      if t0.state == TS_ESTAB {
        EstablishedKeepsBuffer(t0, g);
      } else if t0.state == TS_SFIN {
        ProcessDataKeepsBuffer(OnFinSentReady(t0, g), g);
      } else if t0.state == TS_AFIN {
        ProcessDataKeepsBuffer(t0.(flags := TCPF_ACK), g);
      }
    }
  }

  lemma EstablishedKeepsBuffer(t: Tcb, g: Seg)
    requires Buffered(t)
    ensures Buffered(OnEstablished(t, g).tcb)
  {
    if HasFlag(g.flags, TCPF_ACK) {
      AckedDropsPrefix(t, g.acknum);
      ProcessDataKeepsBuffer(Acked(t, g.acknum).(flags := TCPF_ACK), g);
    }
  }

  /** tcp_ProcessData does not touch the send buffer. */
  lemma ProcessDataKeepsBuffer(t: Tcb, g: Seg)
    ensures ProcessDataAsWritten(t, g).tcb.data == t.data && ProcessDataAsWritten(t, g).tcb.dataSize == t.dataSize
  {
  }

  /** Neither do the socket calls. */
  lemma CallsKeepBuffer(t: Tcb, dp: seq<Byte>, len: int)
    requires Buffered(t) && len <= |dp|
    ensures Buffered(TickOne(t).tcb)
    ensures Buffered(Close(t)) && Buffered(Abort(t).tcb)
    ensures Buffered(Write(t, dp, len).1.tcb) && Buffered(Flush(t).tcb)
  {
  }
}

/**
 * The SLIP link of SEDSLIP.C (RFC 1055), which stands in for the Ethernet
 * driver's entry points. sed_Send frames the transmit buffer with FR_END
 * and escapes FR_END and FR_ESC inside it; sed_IsPacket is a streaming
 * decoder whose state (receive buffer fill, packet start, FR_END count,
 * escape flag) survives between calls.
 *
 * The serial port is an input queue (the bytes inp_char will return) and an
 * output line (the bytes given to outp_char).
 */
module Slip {
  import opened Wire

  const FR_END: Byte := 0xC0
  const FR_ESC: Byte := 0xDB
  const T_FR_END: Byte := 0xDC
  const T_FR_ESC: Byte := 0xDD
  const BUFFERSIZE: nat := 8192

  // ----- the encoder --------------------------------------------------------------------

  /** What sed_Send emits for one byte. */
  function Escape(b: Byte): (r: seq<Byte>)
    ensures 1 <= |r| <= 2
  {
    if b == FR_END then [FR_ESC, T_FR_END]
    else if b == FR_ESC then [FR_ESC, T_FR_ESC]
    else [b]
  }

  /** The escaped packet body. */
  function Stuff(data: seq<Byte>): (r: seq<Byte>)
    ensures |data| <= |r| <= 2 * |data|
    decreases |data|
  {
    if |data| == 0 then [] else Stuff(data[..|data| - 1]) + Escape(data[|data| - 1])
  }

  /** Stuffing one byte more appends its escape. */
  lemma StuffStep(data: seq<Byte>, i: nat)
    requires i < |data|
    ensures Stuff(data[..i + 1]) == Stuff(data[..i]) + Escape(data[i])
  {
    assert data[..i + 1][..i] == data[..i];
  }

  /** A packet on the line. */
  function Frame(data: seq<Byte>): seq<Byte>
  {
    [FR_END] + Stuff(data) + [FR_END]
  }

  /** The body carries no raw FR_END ... */
  lemma {:induction false} StuffHasNoEnd(data: seq<Byte>)
    ensures forall i :: 0 <= i < |Stuff(data)| ==> Stuff(data)[i] != FR_END
    decreases |data|
  {
    if |data| > 0 {
      StuffHasNoEnd(data[..|data| - 1]);
    }
  }

  /** ... and every FR_ESC in it is followed by T_FR_END or T_FR_ESC. */
  lemma {:induction false} StuffEscapesWellFormed(data: seq<Byte>)
    ensures var s := Stuff(data);
      forall i :: 0 <= i < |s| && s[i] == FR_ESC ==>
        i + 1 < |s| && (s[i + 1] == T_FR_END || s[i + 1] == T_FR_ESC)
    decreases |data|
  {
    if |data| > 0 {
      var init := data[..|data| - 1];
      StuffEscapesWellFormed(init);
      var s := Stuff(data);
      var e := Escape(data[|data| - 1]);
      assert s == Stuff(init) + e;
      forall i | 0 <= i < |s| && s[i] == FR_ESC
        ensures i + 1 < |s| && (s[i + 1] == T_FR_END || s[i + 1] == T_FR_ESC)
      {
        if i < |Stuff(init)| {
          assert Stuff(init)[i] == FR_ESC;
        } else {
          assert e[i - |Stuff(init)|] == FR_ESC;
        }
      }
    }
  }

  // ----- the decoder --------------------------------------------------------------------

  /** The statics of sed_IsPacket: the receive buffer up to p_recv_next, the packet start
      p_begin_packet (an index into it), end_count and b_esc_flag. */
  datatype Decoder = Decoder(recv: seq<Byte>, begin: nat, ends: nat, esc: bool)

  /** The byte an escape sequence stands for; an unknown one stands for itself. */
  function Unescape(b: Byte): Byte
  {
    if b == T_FR_ESC then FR_ESC else if b == T_FR_END then FR_END else b
  }

  /** One received byte. */
  function Step(d: Decoder, b: Byte): Decoder
  {
    if d.esc then d.(recv := d.recv + [Unescape(b)], esc := false)
    else if b == FR_ESC then d.(esc := true)
    else if b == FR_END then
      if d.ends + 1 == 1 then d.(ends := 1, begin := |d.recv|) else d.(ends := d.ends + 1)
    else d.(recv := d.recv + [b])
  }

  /** The receive loop: bytes are taken until the second FR_END or until none is left;
      the decoder and the bytes still queued. */
  function Consume(d: Decoder, input: seq<Byte>): (r: (Decoder, seq<Byte>))
    ensures |r.1| <= |input|
    decreases |input|
  {
    if |input| == 0 then (d, input)
    else
      var d' := Step(d, input[0]);
      if d'.ends == 2 then (d', input[1..]) else Consume(d', input[1..])
  }

  /** sed_IsPacket: the new decoder, the bytes still queued, and the packet if one ended. */
  function Receive(d: Decoder, input: seq<Byte>): (Decoder, seq<Byte>, Option<seq<Byte>>)
  {
    var (e, rest) := Consume(d, input);
    if e.ends == 2 && e.begin <= |e.recv| then (e.(recv := [], ends := 0), rest, Some(e.recv[e.begin..]))
    else (e, rest, None)
  }

  /** Between calls fewer than two FR_END have been seen, and after the first the packet
      start lies within what was received. */
  ghost predicate Resting(d: Decoder)
  {
    d.ends < 2 && (d.ends == 1 ==> d.begin <= |d.recv|)
  }

  /** A decoder that has seen no FR_END yet and is not inside an escape. */
  ghost predicate Idle(d: Decoder)
  {
    d.ends == 0 && !d.esc
  }

  lemma {:induction false} ConsumeKeepsResting(d: Decoder, input: seq<Byte>)
    requires Resting(d)
    ensures var (e, _) := Consume(d, input);
      e.ends <= 2 && (e.ends >= 1 ==> e.begin <= |e.recv|) && (e.ends < 2 ==> Resting(e))
    decreases |input|
  {
    if |input| > 0 {
      var d' := Step(d, input[0]);
      if d'.ends < 2 {
        ConsumeKeepsResting(d', input[1..]);
      }
    }
  }

  /** Receiving keeps the decoder resting. */
  lemma ReceiveKeepsResting(d: Decoder, input: seq<Byte>)
    requires Resting(d)
    ensures Resting(Receive(d, input).0)
    ensures Receive(d, input).2.None? ==> Receive(d, input).0.ends < 2
  {
    ConsumeKeepsResting(d, input);
  }

  /** Inside a packet, an escaped body is read back as the bytes it escapes. */
  lemma {:induction false} ConsumeStuff(d: Decoder, data: seq<Byte>, rest: seq<Byte>)
    requires d.ends == 1 && !d.esc
    ensures Consume(d, Stuff(data) + rest) == Consume(d.(recv := d.recv + data), rest)
    decreases |data|
  {
    if |data| == 0 {
      assert Stuff(data) + rest == rest;
      assert d.recv + data == d.recv;
    } else {
      var init, b := data[..|data| - 1], data[|data| - 1];
      assert data[..|data| - 1 + 1] == data;
      StuffStep(data, |data| - 1);
      AppendAssoc(Stuff(init), Escape(b), rest);
      ConsumeStuff(d, init, Escape(b) + rest);
      var m := d.(recv := d.recv + init);
      ConsumeEscape(m, b, rest);
      assert data == init + [b];
      AppendAssoc(d.recv, init, [b]);
    }
  }

  /** Inside a packet, the escape of one byte is read back as that byte. */
  lemma ConsumeEscape(m: Decoder, b: Byte, rest: seq<Byte>)
    requires m.ends == 1 && !m.esc
    ensures Consume(m, Escape(b) + rest) == Consume(m.(recv := m.recv + [b]), rest)
  {
    var done := m.(recv := m.recv + [b]);
    if b == FR_END || b == FR_ESC {
      var t := Escape(b)[1];
      assert Escape(b) + rest == [FR_ESC] + ([t] + rest);
      var m1 := Step(m, FR_ESC);
      assert m1 == m.(esc := true);
      assert Consume(m, [FR_ESC] + ([t] + rest)) == Consume(m1, [t] + rest);
      assert Step(m1, t) == done;
      assert Consume(m1, [t] + rest) == Consume(done, rest) by {
        assert ([t] + rest)[1..] == rest;
      }
    } else {
      assert (Escape(b) + rest)[1..] == rest;
      assert Step(m, b) == done;
    }
  }

  /** Bytes before the first FR_END (other than FR_END and FR_ESC) are stored, but the
      packet starts after them. */
  lemma {:induction false} ConsumeNoise(d: Decoder, noise: seq<Byte>, rest: seq<Byte>)
    requires Idle(d)
    requires forall i :: 0 <= i < |noise| ==> noise[i] != FR_END && noise[i] != FR_ESC
    ensures Consume(d, noise + rest) == Consume(d.(recv := d.recv + noise), rest)
    decreases |noise|
  {
    if |noise| == 0 {
      assert noise + rest == rest;
      assert d.recv + noise == d.recv;
    } else {
      assert (noise + rest)[1..] == noise[1..] + rest;
      ConsumeNoise(Step(d, noise[0]), noise[1..], rest);
      assert d.recv + [noise[0]] + noise[1..] == d.recv + noise;
    }
  }

  /** Round trip: an idle decoder given an encoded packet returns exactly the packet,
      leaves what follows in the queue and is reset to an empty buffer. */
  lemma FrameRoundTrip(d: Decoder, data: seq<Byte>, more: seq<Byte>)
    requires Idle(d)
    ensures Receive(d, Frame(data) + more) == (Decoder([], |d.recv|, 0, false), more, Some(data))
  {
    var d1 := Step(d, FR_END);
    assert Frame(data) + more == [FR_END] + (Stuff(data) + ([FR_END] + more));
    ConsumeStuff(d1, data, [FR_END] + more);
    var d2 := d1.(recv := d1.recv + data);
    assert Consume(d2, [FR_END] + more) == (d2.(ends := 2), more) by {
      assert ([FR_END] + more)[1..] == more;
    }
  }

  /** The same packet preceded by line noise: the noise is not part of the packet. */
  lemma NoiseIgnored(d: Decoder, noise: seq<Byte>, data: seq<Byte>, more: seq<Byte>)
    requires Idle(d)
    requires forall i :: 0 <= i < |noise| ==> noise[i] != FR_END && noise[i] != FR_ESC
    ensures Receive(d, noise + Frame(data) + more).2 == Some(data)
  {
    assert noise + Frame(data) + more == noise + (Frame(data) + more);
    ConsumeNoise(d, noise, Frame(data) + more);
    FrameRoundTrip(d.(recv := d.recv + noise), data, more);
  }

  /** A packet split across two calls: the first returns nothing and keeps the partial
      packet, the second completes it. */
  lemma SplitDelivery(d: Decoder, data: seq<Byte>, more: seq<Byte>)
    requires Idle(d)
    ensures var (d1, rest1, p1) := Receive(d, [FR_END] + Stuff(data));
      && p1 == None && rest1 == []
      && d1 == Decoder(d.recv + data, |d.recv|, 1, false)
      && Receive(d1, [FR_END] + more) == (Decoder([], |d.recv|, 0, false), more, Some(data))
  {
    var s := Step(d, FR_END);
    assert ([FR_END] + Stuff(data))[1..] == Stuff(data) + [];
    ConsumeStuff(s, data, []);
    assert ([FR_END] + more)[1..] == more;
  }

  /** Inside an escape, a byte other than T_FR_END and T_FR_ESC is stored unchanged. */
  lemma UnknownEscapeKept(d: Decoder, b: Byte)
    requires Idle(d) && b != T_FR_END && b != T_FR_ESC
    ensures Receive(d, [FR_END, FR_ESC, b, FR_END]).2 == Some([b])
  {
    var d1 := Step(d, FR_END);
    var d2 := Step(d1, FR_ESC);
    var d3 := Step(d2, b);
    assert d3 == Decoder(d.recv + [b], |d.recv|, 1, false);
    assert Consume(d, [FR_END, FR_ESC, b, FR_END]) == Consume(d1, [FR_ESC, b, FR_END]);
    assert Consume(d1, [FR_ESC, b, FR_END]) == Consume(d2, [b, FR_END]);
    assert Consume(d2, [b, FR_END]) == Consume(d3, [FR_END]);
    assert Consume(d3, [FR_END]) == (d3.(ends := 2), []);
  }

  // ----- the driver ------------------------------------------------------------------------

  class SlipLink {
    /** xmitbuffer */
    const xmit: array<Byte>
    var recv: seq<Byte>
    var begin: nat
    var ends: nat
    var esc: bool
    /** the bytes inp_char has still to deliver */
    var input: seq<Byte>
    /** the bytes given to outp_char */
    var line: seq<Byte>

    ghost predicate Valid()
      reads this`recv, this`begin, this`ends, this`esc
    {
      xmit.Length == BUFFERSIZE && Resting(State())
    }

    function State(): Decoder
      reads this`recv, this`begin, this`ends, this`esc
    {
      Decoder(recv, begin, ends, esc)
    }

    /** sed_Init, with the serial port holding `input` */
    constructor (input: seq<Byte>)
      ensures Valid() && fresh(xmit)
      ensures State() == Decoder([], 0, 0, false)
      ensures this.input == input && line == []
    {
      xmit := new Byte[BUFFERSIZE];
      recv, begin, ends, esc := [], 0, 0, false;
      this.input := input;
      line := [];
    }

    /** sed_FormatPacket: the packet is built at the start of the transmit buffer. */
    method FormatPacket(dst: Mac, ethType: Word) returns (off: nat)
      ensures off == 0
    {
      off := 0;
    }

    /** sed_CheckPacket: only IP travels over SLIP. */
    method CheckPacket(expected: Word) returns (ok: bool)
      ensures ok <==> expected == PROTOCOL_IP
    {
      ok := expected == PROTOCOL_IP;
    }

    /** sed_Send */
    method Send(len: int) returns (r: int)
      requires Valid() && len <= BUFFERSIZE
      modifies this`line
      ensures line == old(line) + (if len <= 0 then [] else Frame(xmit[..len]))
      ensures r == 1
    {
      r := 1;
      if len <= 0 {
        return;
      }
      line := line + [FR_END];
      PutStuffed(len);
      line := line + [FR_END];
      Regroup(old(line), [FR_END], Stuff(xmit[..len]), [FR_END]);
    }

    /** The loop of sed_Send: the first n bytes of the transmit buffer, escaped. */
    method PutStuffed(n: nat)
      requires n <= xmit.Length
      modifies this`line
      ensures line == old(line) + Stuff(xmit[..n])
    {
      ghost var data := xmit[..n];
      var i := 0;
      while i < n
        invariant 0 <= i <= n
        invariant line == old(line) + Stuff(data[..i])
      {
        PutEscaped(xmit[i]);
        StuffStep(data, i);
        AppendAssoc(old(line), Stuff(data[..i]), Escape(data[i]));
        i := i + 1;
      }
      assert data[..n] == data;
    }

    /** The bytes sed_Send puts out for one byte of the packet. */
    method PutEscaped(b: Byte)
      modifies this`line
      ensures line == old(line) + Escape(b)
    {
      if b == FR_END {
        line := line + [FR_ESC, T_FR_END];
      } else if b == FR_ESC {
        line := line + [FR_ESC, T_FR_ESC];
      } else {
        line := line + [b];
      }
    }

    /** sed_Receive: nothing to enable on a serial line; it reports success. */
    method EnableReceive() returns (r: int)
      ensures r == 1
    {
      r := 1;
    }

    /** sed_IsPacket */
    method IsPacket() returns (p: Option<seq<Byte>>)
      requires Valid()
      modifies this
      ensures Valid()
      ensures (State(), input, p) == Receive(old(State()), old(input))
      ensures line == old(line)
    {
      ghost var result := Consume(State(), input);
      ConsumeKeepsResting(State(), input);
      while |input| > 0
        invariant Resting(State())
        invariant Consume(State(), input) == result
        invariant line == old(line)
        decreases |input|
      {
        ghost var before, queued := State(), input;
        var uc := input[0];
        input := input[1..];
        if esc {
          if uc == T_FR_ESC {
            recv := recv + [FR_ESC];
          } else if uc == T_FR_END {
            recv := recv + [FR_END];
          } else {
            recv := recv + [uc];
          }
          esc := false;
        } else {
          if uc == FR_ESC {
            esc := true;
          } else if uc == FR_END {
            ends := ends + 1;
            if ends == 1 {
              begin := |recv|;
            }
          } else {
            recv := recv + [uc];
          }
        }
        assert State() == Step(before, uc);
        if ends == 2 {
          assert (State(), input) == result;
          break;
        }
      }
      if ends == 2 {
        p := Some(recv[begin..]);
        recv := [];
        ends := 0;
      } else {
        p := None;
      }
    }
  }
}

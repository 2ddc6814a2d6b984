/**
 * Sized integers, byte order, wire constants and the header-field macros that
 * every layer of tinySOCK shares (tinysock.h, with the byte-order helpers of
 * TINYTCP.C).  The host is a little-endian x86: a Word stored "natively" puts
 * its low byte first, and rev_word / rev_longword are the byte swaps
 * SwapBytes / SwapWords.
 */
module Wire {

  type Byte = b: int | 0 <= b < 0x100
  type Word = w: int | 0 <= w < 0x1_0000
  type Longword = l: int | 0 <= l < 0x1_0000_0000
  /** struct Ethernet_Address: six bytes */
  type Mac = m: seq<Byte> | |m| == 6 witness [0, 0, 0, 0, 0, 0]

  datatype Option<T> = None | Some(value: T)

  // ----- protocol numbers ---------------------------------------------------
  const PROTOCOL_IP: Word := 0x0800
  const PROTOCOL_ARP: Word := 0x0806
  const PROTOCOL_ICMP: Byte := 0x01
  const PROTOCOL_UDP: Byte := 0x11
  const PROTOCOL_TCP: Byte := 6
  const IPVERTOS: Word := 0x4500

  // ----- header sizes (sizeof of the packed structs) ------------------------
  const ETH_HEADER: nat := 14
  const IP_HEADER: nat := 20
  const TCP_HEADER: nat := 20
  const UDP_HEADER: nat := 8
  const ICMP_HEADER: nat := 8
  const ARP_HEADER: nat := 28

  // ----- TCP flag bits --------------------------------------------------------
  const TCPF_FIN: Word := 0x0001
  const TCPF_SYN: Word := 0x0002
  const TCPF_RST: Word := 0x0004
  const TCPF_PUSH: Word := 0x0008
  const TCPF_ACK: Word := 0x0010
  const TCPF_URG: Word := 0x0020
  const TCPF_DO: Word := 0xF000

  // ----- TCP states -----------------------------------------------------------
  const TS_LISTEN: int := 1
  const TS_SSYN: int := 2
  const TS_RSYN: int := 3
  const TS_ESTAB: int := 4
  const TS_SFIN: int := 5
  const TS_AFIN: int := 6
  const TS_CLOSEWT: int := 7
  const TS_RFIN: int := 8
  const TS_LASTACK: int := 9
  const TS_TIMEWT: int := 10
  const TS_CLOSED: int := 11

  // ----- TCP socket buffer and timers ----------------------------------------
  const TCP_MAXDATA: nat := 512
  const TCP_RETRANSMITTIME: nat := 1000
  const TCP_LONGTIMEOUT: nat := 20000
  const TCP_TIMEOUT: nat := 20000

  // ----- ARP and ICMP codes ----------------------------------------------------
  const ARP_TYPE_ETHER: Word := 1
  const ARP_REQUEST: Word := 1
  const ARP_REPLY: Word := 2
  const ICMP_T_ECHOREPLY: Byte := 0
  const ICMP_C_ECHOREPLY: Byte := 0
  const ICMP_T_ECHOREQ: Byte := 8
  const ICMP_C_ECHOREQ: Byte := 0

  const BROADCAST_MAC: Mac := [0xFF, 0xFF, 0xFF, 0xFF, 0xFF, 0xFF]
  /** The value of a zero-initialised MAC global before anything stores into it. */
  const ZERO_MAC: Mac := [0, 0, 0, 0, 0, 0]

  /** The numeric value of a TCP state constant and of a flag bit, as the header declares them. */
  lemma StateNumbering()
    ensures [TS_LISTEN, TS_SSYN, TS_RSYN, TS_ESTAB, TS_SFIN, TS_AFIN, TS_CLOSEWT, TS_RFIN,
             TS_LASTACK, TS_TIMEWT, TS_CLOSED] == [1, 2, 3, 4, 5, 6, 7, 8, 9, 10, 11]
    ensures [TCPF_FIN, TCPF_SYN, TCPF_RST, TCPF_PUSH, TCPF_ACK, TCPF_URG] == [1, 2, 4, 8, 16, 32]
  {
  }

  // ----- regrouping concatenations ---------------------------------------------------

  /** Stated once for every element type, so callers need no element-wise argument. */
  lemma AppendAssoc<T>(a: seq<T>, b: seq<T>, c: seq<T>)
    ensures a + b + c == a + (b + c)
  {
  }

  lemma Regroup<T>(a: seq<T>, b: seq<T>, c: seq<T>, d: seq<T>)
    ensures a + b + c + d == a + (b + c + d)
  {
  }

  // ----- truncations -------------------------------------------------------------
  function Wrap16(x: int): Word { x % 0x1_0000 }
  function Wrap32(x: int): Longword { x % 0x1_0000_0000 }

  /** (int) of an unsigned 32-bit value: two's-complement reinterpretation */
  function ToInt32(x: Longword): (r: int)
    ensures -0x8000_0000 <= r < 0x8000_0000
    ensures Wrap32(r) == x
  {
    if x < 0x8000_0000 then x else x - 0x1_0000_0000
  }

  /** (short) of an int: two's-complement truncation to 16 bits */
  function ToShort(x: int): (r: int)
    ensures -0x8000 <= r < 0x8000
    ensures Wrap16(r) == Wrap16(x)
  {
    var w := Wrap16(x);
    if w < 0x8000 then w else w - 0x1_0000
  }

  /** Bit test `w & bit` for a single-bit mask. */
  predicate HasFlag(w: Word, bit: Word)
    requires bit in {TCPF_FIN, TCPF_SYN, TCPF_RST, TCPF_PUSH, TCPF_ACK, TCPF_URG}
  {
    (w / bit) % 2 == 1
  }

  function Pow2(k: nat): (r: nat)
    ensures r >= 1
  {
    if k == 0 then 1 else 2 * Pow2(k - 1)
  }

  /** `a | b`, bit by bit from the least significant */
  function BitOr(a: nat, b: nat): nat
    decreases a + b
  {
    if a == 0 then b
    else if b == 0 then a
    else 2 * BitOr(a / 2, b / 2) + (if a % 2 == 1 || b % 2 == 1 then 1 else 0)
  }

  /** `a | b` on two Words */
  function Or16(a: Word, b: Word): Word
  {
    Pow2Values();
    OrBound(a, b, 16);
    BitOr(a, b)
  }

  lemma Pow2Values()
    ensures Pow2(0) == 1 && Pow2(1) == 2 && Pow2(2) == 4 && Pow2(3) == 8 && Pow2(4) == 16 && Pow2(5) == 32
    ensures Pow2(12) == 0x1000 && Pow2(16) == 0x1_0000
  {
    assert Pow2(5) == 32;
    assert Pow2(8) == 256;
    assert Pow2(12) == 0x1000;
  }

  lemma {:induction false} OrBound(a: nat, b: nat, k: nat)
    requires a < Pow2(k) && b < Pow2(k)
    ensures BitOr(a, b) < Pow2(k)
    decreases k
  {
    if a != 0 && b != 0 {
      OrBound(a / 2, b / 2, k - 1);
    }
  }

  /** Bits that do not overlap add up: a below bit k, b a multiple of 2^k. */
  lemma {:induction false} OrDisjoint(a: nat, m: nat, k: nat)
    requires a < Pow2(k)
    ensures BitOr(a, m * Pow2(k)) == a + m * Pow2(k)
    decreases k
  {
    if a != 0 && m != 0 {
      var p := Pow2(k - 1);
      assert m * Pow2(k) == 2 * (m * p);
      OrDisjoint(a / 2, m, k - 1);
    }
  }

  lemma {:induction false} MulAtLeast(d: int, n: int)
    requires d > 0 && n >= 1
    ensures d * n >= d
    decreases n
  {
    if n > 1 {
      MulAtLeast(d, n - 1);
      assert d * n == d * (n - 1) + d;
    }
  }

  /** The quotient is the only q with x == d * q + t and 0 <= t < d. */
  lemma DivUnique(x: int, d: int, q: int, t: int)
    requires d > 0 && 0 <= t < d && x == d * q + t
    ensures x / d == q
  {
    var q2, t2 := x / d, x % d;
    assert x == d * q2 + t2 && 0 <= t2 < d;
    if q > q2 {
      assert d * (q - q2) == d * q - d * q2;
      MulAtLeast(d, q - q2);
    } else if q < q2 {
      assert d * (q2 - q) == d * q2 - d * q;
      MulAtLeast(d, q2 - q);
    }
  }

  lemma HalfThenDivide(w: nat, p: nat)
    requires p >= 1
    ensures (w / 2) / p == w / (2 * p)
  {
    var a := w / 2;
    var q, s := a / p, a % p;
    var t := 2 * s + w % 2;
    assert a == p * q + s;
    assert w == (2 * p) * q + t;
    DivUnique(w, 2 * p, q, t);
  }

  /** Setting bit k: a number that has it keeps its value, one that does not gains 2^k. */
  lemma {:induction false} OrPow(w: nat, k: nat)
    ensures BitOr(w, Pow2(k)) == if (w / Pow2(k)) % 2 == 1 then w else w + Pow2(k)
    decreases k
  {
    if w != 0 && k != 0 {
      var p := Pow2(k - 1);
      OrPow(w / 2, k - 1);
      HalfThenDivide(w, p);
    }
  }

  /** Setting a flag the word does not have adds its value; one it has changes nothing. */
  lemma OrFlag(w: Word, bit: Word)
    requires bit in {TCPF_FIN, TCPF_SYN, TCPF_RST, TCPF_PUSH, TCPF_ACK, TCPF_URG}
    ensures Or16(w, bit) == if HasFlag(w, bit) then w else w + bit
  {
    var k := if bit == TCPF_FIN then 0 else if bit == TCPF_SYN then 1 else if bit == TCPF_RST then 2
      else if bit == TCPF_PUSH then 3 else if bit == TCPF_ACK then 4 else 5;
    Pow2Values();
    OrPow(w, k);
  }

  // ----- byte order ----------------------------------------------------------------
  function Hi(w: Word): Byte { w / 0x100 }
  function Lo(w: Word): Byte { w % 0x100 }

  /** swapBytes: exchange the two bytes of a Word (rev_word on the little-endian host) */
  function SwapBytes(x: Word): (r: Word)
    ensures Hi(r) == Lo(x) && Lo(r) == Hi(x)
  {
    Lo(x) * 0x100 + Hi(x)
  }

  /** rev_word of a one-byte value moves it to the high byte. */
  lemma SwapByte(b: Byte)
    ensures SwapBytes(b) == (b as int) * 0x100
  {
    assert Hi(b) == 0 && Lo(b) == b;
  }

  lemma SwapBytesInvolutive(x: Word)
    ensures SwapBytes(SwapBytes(x)) == x
  {
  }

  /** Byte i (0 = least significant) of a Longword. */
  function ByteOf(x: Longword, i: nat): Byte
    requires i < 4
  {
    if i == 0 then x % 0x100
    else if i == 1 then (x / 0x100) % 0x100
    else if i == 2 then (x / 0x1_0000) % 0x100
    else x / 0x100_0000
  }

  /** swapWords: swap the two Words and the bytes within each (rev_longword) */
  function SwapWords(x: Longword): Longword
  {
    SwapBytes(x % 0x1_0000) * 0x1_0000 + SwapBytes(x / 0x1_0000)
  }

  /** rev_longword reverses the four bytes of its argument. */
  lemma {:induction false} SwapWordsReversesBytes(x: Longword)
    ensures forall i :: 0 <= i < 4 ==> ByteOf(SwapWords(x), i) == ByteOf(x, 3 - i)
  {
    var a: int, b: int, c: int, d: int := Ip1B(x), Ip2B(x), Ip3B(x), Ip4B(x);
    AddrRoundTrip(a, b, c, d, x);
    assert x / 0x1_0000 == a * 0x100 + b by {
      assert x == (a * 0x100 + b) * 0x1_0000 + (c * 0x100 + d);
    }
    assert x % 0x1_0000 == c * 0x100 + d by {
      assert x == (a * 0x100 + b) * 0x1_0000 + (c * 0x100 + d);
    }
    assert SwapBytes(c * 0x100 + d) == d * 0x100 + c;
    assert SwapBytes(a * 0x100 + b) == b * 0x100 + a;
    var r := SwapWords(x);
    assert r == Addr(d, c, b, a);
    AddrRoundTrip(d, c, b, a, r);
  }

  lemma SwapWordsInvolutive(x: Longword)
    ensures SwapWords(SwapWords(x)) == x
  {
    var lo, hi := x % 0x1_0000, x / 0x1_0000;
    var y := SwapWords(x);
    assert y == 0x1_0000 * SwapBytes(lo) + SwapBytes(hi);
    DivUnique(y, 0x1_0000, SwapBytes(lo), SwapBytes(hi));
    assert y % 0x1_0000 == SwapBytes(hi);
    SwapBytesInvolutive(lo);
    SwapBytesInvolutive(hi);
    assert x == hi * 0x1_0000 + lo;
  }

  // ----- ADDR and IP_nB -------------------------------------------------------------
  /** ADDR(a,b,c,d): a is the most significant byte */
  function Addr(a: Byte, b: Byte, c: Byte, d: Byte): Longword
  {
    a * 0x100_0000 + b * 0x1_0000 + c * 0x100 + d
  }

  function Ip1B(x: Longword): Byte { x / 0x100_0000 }
  function Ip2B(x: Longword): Byte { (x / 0x1_0000) % 0x100 }
  function Ip3B(x: Longword): Byte { (x / 0x100) % 0x100 }
  function Ip4B(x: Longword): Byte { x % 0x100 }

  /** IP_nB recovers the bytes ADDR packed, and ADDR of the bytes rebuilds any address. */
  lemma AddrRoundTrip(a: Byte, b: Byte, c: Byte, d: Byte, x: Longword)
    ensures Ip1B(Addr(a, b, c, d)) == a && Ip2B(Addr(a, b, c, d)) == b
    ensures Ip3B(Addr(a, b, c, d)) == c && Ip4B(Addr(a, b, c, d)) == d
    ensures Addr(Ip1B(x), Ip2B(x), Ip3B(x), Ip4B(x)) == x
  {
    var v := Addr(a, b, c, d);
    assert v == ((a * 0x100 + b) * 0x100 + c) * 0x100 + d;
    assert v / 0x100 == (a * 0x100 + b) * 0x100 + c;
    assert v / 0x1_0000 == a * 0x100 + b;
    assert v / 0x100_0000 == a;
    assert x == (x / 0x100) * 0x100 + x % 0x100;
    assert x / 0x100 == (x / 0x1_0000) * 0x100 + (x / 0x100) % 0x100;
    assert x / 0x1_0000 == (x / 0x100_0000) * 0x100 + (x / 0x1_0000) % 0x100;
  }

  // ----- header-field macros (applied to the host-order value of the field) ------------
  /** IP_VERSION: top nibble of vht */
  function IpVersion(vht: Word): nat { vht / 0x1000 }
  /** IP_HLEN: (vht >> 8) & 0x0f */
  function IpHLen(vht: Word): nat { (vht / 0x100) % 0x10 }
  /** IP_HBYTES: (vht >> 6) & 0x3c, i.e. bits 2..5 of vht >> 6 */
  function IpHBytes(vht: Word): nat { (vht / 0x40) % 0x40 - (vht / 0x40) % 4 }
  /** IP_TOS: low byte of vht */
  function IpTos(vht: Word): Byte { vht % 0x100 }
  /** IP_TTL: high byte of ttlProtocol */
  function IpTtl(ttlProtocol: Word): Byte { ttlProtocol / 0x100 }
  /** IP_PROTOCOL: low byte of ttlProtocol */
  function IpProtocol(ttlProtocol: Word): Byte { ttlProtocol % 0x100 }
  /** TCP_DATAOFFSET: flags >> 12 */
  function TcpDataOffset(flags: Word): nat { flags / 0x1000 }

  /** For every vht word the byte length of the header is four times the dword count. */
  lemma {:induction false} HBytesIsFourHLen(vht: Word)
    ensures IpHBytes(vht) == 4 * IpHLen(vht)
  {
    var a := vht / 0x40;
    assert vht / 0x100 == a / 4;
    assert a % 0x40 == 4 * ((a / 4) % 0x10) + a % 4;
  }

  /** TTL/protocol packing, the data offset and the flag bits live in disjoint parts of their words. */
  lemma HeaderFieldPacking(ttl: Byte, proto: Byte, offset: nat, f: Word)
    requires offset < 16 && f < 0x1000
    ensures IpProtocol(ttl * 0x100 + proto) == proto && IpTtl(ttl * 0x100 + proto) == ttl
    ensures TcpDataOffset(offset * 0x1000 + f) == offset
  {
  }

  // ----- reading and writing fields in byte buffers ------------------------------------
  /** A byte of a received buffer; reads past what was received give 0. */
  function ByteAt(s: seq<Byte>, i: int): Byte
  {
    if 0 <= i < |s| then s[i] else 0
  }

  /** rev_word of a Word field at offset i: the field read big-endian */
  function Be16(s: seq<Byte>, i: int): Word
  {
    ByteAt(s, i) * 0x100 + ByteAt(s, i + 1)
  }

  /** rev_longword of a Longword field at offset i: the field read big-endian */
  function Be32(s: seq<Byte>, i: int): Longword
  {
    Be16(s, i) * 0x1_0000 + Be16(s, i + 2)
  }

  /** A Word field read natively (low byte first) on the little-endian host */
  function Le16(s: seq<Byte>, i: int): Word
  {
    ByteAt(s, i) + ByteAt(s, i + 1) * 0x100
  }

  /** A Longword field read natively */
  function Le32(s: seq<Byte>, i: int): Longword
  {
    Le16(s, i) + Le16(s, i + 2) * 0x1_0000
  }

  function BeBytes16(w: Word): (r: seq<Byte>)
    ensures |r| == 2
  {
    [Hi(w), Lo(w)]
  }

  function BeBytes32(l: Longword): (r: seq<Byte>)
    ensures |r| == 4
  {
    BeBytes16(l / 0x1_0000) + BeBytes16(l % 0x1_0000)
  }

  function LeBytes16(w: Word): (r: seq<Byte>)
    ensures |r| == 2
  {
    [Lo(w), Hi(w)]
  }

  function LeBytes32(l: Longword): (r: seq<Byte>)
    ensures |r| == 4
  {
    LeBytes16(l % 0x1_0000) + LeBytes16(l / 0x1_0000)
  }

  /** Storing a field and loading it back, in either byte order, gives the value stored;
      a native load of big-endian bytes is the byte swap (this is why rev_word is needed). */
  lemma FieldRoundTrip(w: Word, l: Longword, pre: seq<Byte>, post: seq<Byte>)
    ensures Be16(pre + BeBytes16(w) + post, |pre|) == w
    ensures Le16(pre + LeBytes16(w) + post, |pre|) == w
    ensures Be32(pre + BeBytes32(l) + post, |pre|) == l
    ensures Le32(pre + LeBytes32(l) + post, |pre|) == l
    ensures Le16(pre + BeBytes16(w) + post, |pre|) == SwapBytes(w)
  {
    var s := pre + BeBytes32(l) + post;
    assert s[|pre|..|pre| + 4] == BeBytes32(l);
    var t := pre + LeBytes32(l) + post;
    assert t[|pre|..|pre| + 4] == LeBytes32(l);
  }

  /** Reading back a field from the bytes stored at offset i. */
  lemma Le16At(s: seq<Byte>, i: nat, w: Word)
    requires i + 2 <= |s| && s[i..i + 2] == LeBytes16(w)
    ensures Le16(s, i) == w
  {
    assert s[i] == Lo(w) && s[i + 1] == Hi(w);
  }

  lemma Le32At(s: seq<Byte>, i: nat, l: Longword)
    requires i + 4 <= |s| && s[i..i + 4] == LeBytes32(l)
    ensures Le32(s, i) == l
  {
    assert s[i..i + 2] == s[i..i + 4][..2];
    assert s[i + 2..i + 4] == s[i..i + 4][2..];
    Le16At(s, i, l % 0x1_0000);
    Le16At(s, i + 2, l / 0x1_0000);
  }

  lemma Be16At(s: seq<Byte>, i: nat, w: Word)
    requires i + 2 <= |s| && s[i..i + 2] == BeBytes16(w)
    ensures Be16(s, i) == w
  {
    assert s[i] == Hi(w) && s[i + 1] == Lo(w);
  }

  lemma Be32At(s: seq<Byte>, i: nat, l: Longword)
    requires i + 4 <= |s| && s[i..i + 4] == BeBytes32(l)
    ensures Be32(s, i) == l
  {
    assert s[i..i + 2] == s[i..i + 4][..2];
    assert s[i + 2..i + 4] == s[i..i + 4][2..];
    Be16At(s, i, l / 0x1_0000);
    Be16At(s, i + 2, l % 0x1_0000);
  }

  /** A 4-byte trailer stored natively after a prefix and a body reads back as stored. */
  lemma TrailerAt(pre: seq<Byte>, body: seq<Byte>, l: Longword)
    ensures var f := pre + body + LeBytes32(l);
      Le32(f, |f| - 4) == l && f[|pre|..|f| - 4] == body
  {
    var f := pre + body + LeBytes32(l);
    assert f[|f| - 4..] == LeBytes32(l);
    Le32At(f, |f| - 4, l);
  }

  /** A native store of rev_word(w) lays down w in network (big-endian) order. */
  lemma NativeStoreOfSwap(w: Word)
    ensures LeBytes16(SwapBytes(w)) == BeBytes16(w)
    ensures Le16(BeBytes16(w), 0) == SwapBytes(w)
  {
  }

  /** A native store of rev_longword(l) lays down l in network order. */
  lemma NativeStoreOfSwapWords(l: Longword)
    ensures LeBytes32(SwapWords(l)) == BeBytes32(l)
  {
    var x := SwapWords(l);
    assert x % 0x1_0000 == SwapBytes(l / 0x1_0000);
    assert x / 0x1_0000 == SwapBytes(l % 0x1_0000);
    NativeStoreOfSwap(l / 0x1_0000);
    NativeStoreOfSwap(l % 0x1_0000);
  }

  /** A field of a block stored at offset a of a buffer reads as the block's own field. */
  lemma Field16Within(s: seq<Byte>, a: nat, p: seq<Byte>, k: nat)
    requires a + |p| <= |s| && s[a..a + |p|] == p && k + 2 <= |p|
    ensures Be16(s, a + k) == Be16(p, k) && Le16(s, a + k) == Le16(p, k)
  {
    assert s[a + k] == p[k] && s[a + k + 1] == p[k + 1];
  }

  lemma Field32Within(s: seq<Byte>, a: nat, p: seq<Byte>, k: nat)
    requires a + |p| <= |s| && s[a..a + |p|] == p && k + 4 <= |p|
    ensures Be32(s, a + k) == Be32(p, k) && Le32(s, a + k) == Le32(p, k)
  {
    Field16Within(s, a, p, k);
    Field16Within(s, a, p, k + 2);
  }

  /** The slices of a buffer holding p at offset a are p's slices. */
  lemma SliceWithin(s: seq<Byte>, a: nat, p: seq<Byte>)
    requires a + |p| <= |s| && s[a..a + |p|] == p
    ensures forall i, j :: 0 <= i <= j <= |p| ==> s[a + i..a + j] == p[i..j]
  {
    forall i, j | 0 <= i <= j <= |p|
      ensures s[a + i..a + j] == p[i..j]
    {
      forall k | 0 <= k < j - i
        ensures s[a + i..a + j][k] == p[i..j][k]
      {
        assert s[a + i + k] == s[a..a + |p|][i + k];
      }
    }
  }

  /** The bytes written into a buffer at `off`, everything else unchanged. */
  function Splice(buf: seq<Byte>, off: nat, bytes: seq<Byte>): (r: seq<Byte>)
    requires off + |bytes| <= |buf|
    ensures |r| == |buf|
    ensures r[off..off + |bytes|] == bytes
    ensures forall i :: 0 <= i < |buf| && !(off <= i < off + |bytes|) ==> r[i] == buf[i]
  {
    seq(|buf|, i requires 0 <= i < |buf| => if off <= i < off + |bytes| then bytes[i - off] else buf[i])
  }

  /** What precedes a splice, followed by the bytes spliced in. */
  lemma SplicePrefix(buf: seq<Byte>, off: nat, bytes: seq<Byte>)
    requires off + |bytes| <= |buf|
    ensures Splice(buf, off, bytes)[..off + |bytes|] == buf[..off] + bytes
  {
  }

  /** Two adjacent splices are one splice of the bytes joined. */
  lemma SpliceJoin(buf: seq<Byte>, off: nat, a: seq<Byte>, b: seq<Byte>)
    requires off + |a| + |b| <= |buf|
    ensures Splice(Splice(buf, off, a), off + |a|, b) == Splice(buf, off, a + b)
  {
  }

  /** A splice inside bytes already spliced is one splice of the bytes overwritten. */
  lemma SpliceOver(buf: seq<Byte>, off: nat, a: seq<Byte>, k: nat, w: seq<Byte>)
    requires off + |a| <= |buf| && k + |w| <= |a|
    ensures Splice(Splice(buf, off, a), off + k, w) == Splice(buf, off, a[..k] + w + a[k + |w|..])
  {
    var x := Splice(Splice(buf, off, a), off + k, w);
    var y := Splice(buf, off, a[..k] + w + a[k + |w|..]);
    forall i | 0 <= i < |buf|
      ensures x[i] == y[i]
    {
    }
  }

  /** Splices of disjoint ranges may be made in either order. */
  lemma SpliceCommute(buf: seq<Byte>, i: nat, a: seq<Byte>, j: nat, b: seq<Byte>)
    requires i + |a| <= j && j + |b| <= |buf|
    ensures Splice(Splice(buf, j, b), i, a) == Splice(Splice(buf, i, a), j, b)
  {
    var x := Splice(Splice(buf, j, b), i, a);
    var y := Splice(Splice(buf, i, a), j, b);
    forall k | 0 <= k < |buf|
      ensures x[k] == y[k]
    {
    }
  }

  /** Move / memcpy of a byte string into an array at `off`. */
  method Put(a: array<Byte>, off: nat, bytes: seq<Byte>)
    requires off + |bytes| <= a.Length
    modifies a
    ensures a[..] == Splice(old(a[..]), off, bytes)
  {
    var i := 0;
    while i < |bytes|
      invariant 0 <= i <= |bytes|
      invariant forall k :: 0 <= k < a.Length && !(off <= k < off + i) ==> a[k] == old(a[k])
      invariant forall k :: 0 <= k < i ==> a[off + k] == bytes[k]
    {
      a[off + i] := bytes[i];
      i := i + 1;
    }
    assert a[..] == Splice(old(a[..]), off, bytes);
  }

  /** A native (little-endian) store of rev_word(w) at `off`: w lands in network order. */
  method PutSwapped(a: array<Byte>, off: nat, w: Word)
    requires off + 2 <= a.Length
    modifies a
    ensures a[..] == Splice(old(a[..]), off, BeBytes16(w))
  {
    NativeStoreOfSwap(w);
    Put(a, off, LeBytes16(SwapBytes(w)));
  }

  /** A native store of rev_longword(l) at `off`: l lands in network order. */
  method PutSwappedLong(a: array<Byte>, off: nat, l: Longword)
    requires off + 4 <= a.Length
    modifies a
    ensures a[..] == Splice(old(a[..]), off, BeBytes32(l))
  {
    NativeStoreOfSwapWords(l);
    Put(a, off, LeBytes32(SwapWords(l)));
  }
}

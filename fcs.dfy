/**
 * The frame check sequence of SED.C (GetFCS): a CRC computed four bits at a time
 * through a 16-entry table, low nibble of each byte first. It is the IEEE 802.3
 * CRC-32, which this module proves against a bit-serial reference.
 */
module FrameCheck {
  import opened Wire

  /** crc_table of GetFCS */
  function FcsTable(i: bv32): bv32
    requires i < 16
  {
    if i == 0 then 0x4DBD_F21C else if i == 1 then 0x500A_E278
    else if i == 2 then 0x76D3_D2D4 else if i == 3 then 0x6B64_C2B0
    else if i == 4 then 0x3B61_B38C else if i == 5 then 0x26D6_A3E8
    else if i == 6 then 0x000F_9344 else if i == 7 then 0x1DB8_8320
    else if i == 8 then 0xA005_713C else if i == 9 then 0xBDB2_6158
    else if i == 10 then 0x9B6B_51F4 else if i == 11 then 0x86DC_4190
    else if i == 12 then 0xD6D9_30AC else if i == 13 then 0xCB6E_20C8
    else if i == 14 then 0xEDB7_1064 else 0xF000_0000
  }

  /** one table step: `crc = (crc >> 4) ^ crc_table[(crc ^ nibble) & 0x0F]` */
  function NibbleStep(crc: bv32, n: bv32): bv32
  {
    (crc >> 4) ^ FcsTable((crc ^ n) & 0xF)
  }

  function LowNibble(b: Byte): bv32 { (b as bv32) & 0xF }
  function HighNibble(b: Byte): bv32 { (b as bv32) >> 4 }

  /** The nibbles GetFCS feeds the table, low nibble of each byte first. */
  function Nibbles(data: seq<Byte>): (r: seq<bv32>)
    ensures |r| == 2 * |data|
    decreases |data|
  {
    if |data| == 0 then []
    else Nibbles(data[..|data| - 1]) + [LowNibble(data[|data| - 1]), HighNibble(data[|data| - 1])]
  }

  /** A register driven through a sequence of steps. */
  function Run(f: (bv32, bv32) -> bv32, c: bv32, ns: seq<bv32>): bv32
    decreases |ns|
  {
    if |ns| == 0 then c else f(Run(f, c, ns[..|ns| - 1]), ns[|ns| - 1])
  }

  /** The value GetFCS returns: the register starts at 0. */
  function Fcs(data: seq<Byte>): bv32
  {
    Run(NibbleStep, 0, Nibbles(data))
  }

  /** GetFCS over the size bytes of data from off, as sed_Send hands it the frame in
      sed_tx after the preamble. */
  method GetFcs(data: array<Byte>, off: nat, size: nat) returns (crc: bv32)
    requires off + size <= data.Length
    ensures crc == Fcs(data[off..off + size])
  {
    ghost var d := data[off..off + size];
    crc := 0;
    var n := 0;
    while n < size
      invariant 0 <= n <= size
      invariant crc == Fcs(d[..n])
    {
      var b := data[off + n] as bv32;
      FcsByte(d, n, crc, b);
      crc := NibbleStep(crc, b);
      crc := NibbleStep(crc, b >> 4);
      n := n + 1;
    }
    assert d[..n] == d;
  }

  /** One iteration of the GetFCS loop: the whole byte goes into the first table step,
      which only looks at its low nibble. */
  lemma FcsByte(data: seq<Byte>, n: nat, crc: bv32, b: bv32)
    requires n < |data| && crc == Fcs(data[..n]) && b == data[n] as bv32
    ensures NibbleStep(NibbleStep(crc, b), b >> 4) == Fcs(data[..n + 1])
  {
    assert data[..n + 1] == data[..n] + [data[n]];
    FcsAppend(data[..n], data[n]);
    NibbleLowOnly(crc, b);
  }

  /** The table step only looks at the low nibble of its input. */
  lemma NibbleLowOnly(c: bv32, n: bv32)
    ensures NibbleStep(c, n) == NibbleStep(c, n & 0xF)
  {
    assert (c ^ n) & 0xF == (c ^ (n & 0xF)) & 0xF;
  }

  lemma RunAppend2(f: (bv32, bv32) -> bv32, c: bv32, ns: seq<bv32>, x: bv32, y: bv32)
    ensures Run(f, c, ns + [x, y]) == f(f(Run(f, c, ns), x), y)
  {
    var ms := ns + [x, y];
    assert ms[..|ms| - 1] == ns + [x];
    assert ms[..|ms| - 1][..|ms| - 2] == ns;
  }

  lemma FcsAppend(data: seq<Byte>, b: Byte)
    ensures Fcs(data + [b]) == NibbleStep(NibbleStep(Fcs(data), LowNibble(b)), HighNibble(b))
  {
    var d := data + [b];
    assert d[..|d| - 1] == data;
    RunAppend2(NibbleStep, 0, Nibbles(data), LowNibble(b), HighNibble(b));
  }

  // The reference: the reflected CRC-32 of IEEE 802.3 (polynomial 0xEDB88320, register
  // preset to all ones, result complemented), one bit at a time.

  function Mask(c: bv32): bv32 { if c & 1 == 1 then 0xEDB8_8320 else 0 }
  function BitStep(c: bv32): bv32 { (c >> 1) ^ Mask(c) }
  function Bit4(x: bv32): bv32 { BitStep(BitStep(BitStep(BitStep(x)))) }
  /** four serial CRC steps on the low nibble n */
  function SerialNibble(c: bv32, n: bv32): bv32 { Bit4(c ^ n) }

  function Crc32(data: seq<Byte>): bv32
  {
    !Run(SerialNibble, 0xFFFF_FFFF, Nibbles(data))
  }

  /** Every table entry is the complement of a serial step on the complemented index. */
  lemma TableEntry(k: bv32)
    requires k < 16
    ensures FcsTable(k ^ 0xF) == Bit4(k) ^ 0xF000_0000
  {
    if k == 0 {} else if k == 1 {} else if k == 2 {} else if k == 3 {}
    else if k == 4 {} else if k == 5 {} else if k == 6 {} else if k == 7 {}
    else if k == 8 {} else if k == 9 {} else if k == 10 {} else if k == 11 {}
    else if k == 12 {} else if k == 13 {} else if k == 14 {} else {}
  }

  /** Serial steps on a register depend on its low nibble only through a table value. */
  lemma Bit4SplitCase(x: bv32, k: bv32)
    requires k < 16 && x & 0xF == k
    ensures Bit4(x) == (x >> 4) ^ Bit4(k)
  {
    if k == 0 {} else if k == 1 {} else if k == 2 {} else if k == 3 {}
    else if k == 4 {} else if k == 5 {} else if k == 6 {} else if k == 7 {}
    else if k == 8 {} else if k == 9 {} else if k == 10 {} else if k == 11 {}
    else if k == 12 {} else if k == 13 {} else if k == 14 {} else {}
  }

  lemma StepAt(c: bv32, n: bv32, j: bv32)
    requires j < 16 && (c ^ n) & 0xF == j
    ensures NibbleStep(c, n) == (c >> 4) ^ FcsTable(j)
  {
  }

  /** The table step on a complemented register x, for the low nibble k of x. */
  lemma TableStepCase(x: bv32, k: bv32)
    requires k < 16 && x & 0xF == k
    ensures (!x >> 4) ^ FcsTable(!x & 0xF) == !Bit4(x)
  {
    assert !x & 0xF == k ^ 0xF;
    Bit4SplitCase(x, k);
    TableEntry(k);
  }

  lemma ComplementNibble(c: bv32, n: bv32)
    requires n < 16
    ensures (!c ^ n) & 0xF == !(c ^ n) & 0xF && !c >> 4 == !(c ^ n) >> 4
  {
  }

  /** The table step on a complemented register is the complemented serial step. */
  lemma NibbleComplement(c: bv32, n: bv32)
    requires n < 16
    ensures NibbleStep(!c, n) == !Bit4(c ^ n)
  {
    var x := c ^ n;
    assert NibbleStep(!c, n) == (!x >> 4) ^ FcsTable(!x & 0xF) by {
      ComplementNibble(c, n);
      StepAt(!c, n, !x & 0xF);
    }
    TableStepCase(x, x & 0xF);
  }

  lemma {:induction false} RunComplement(f: (bv32, bv32) -> bv32, g: (bv32, bv32) -> bv32,
                                         c: bv32, ns: seq<bv32>)
    requires forall x: bv32, n: bv32 :: n < 16 ==> f(!x, n) == !g(x, n)
    requires forall i :: 0 <= i < |ns| ==> ns[i] < 16
    ensures Run(f, !c, ns) == !Run(g, c, ns)
    decreases |ns|
  {
    if |ns| > 0 {
      RunComplement(f, g, c, ns[..|ns| - 1]);
    }
  }

  lemma {:induction false} NibblesSmall(data: seq<Byte>)
    ensures forall i :: 0 <= i < |Nibbles(data)| ==> Nibbles(data)[i] < 16
    decreases |data|
  {
    if |data| > 0 {
      NibblesSmall(data[..|data| - 1]);
      var b := data[|data| - 1];
      assert (b as bv32) < 256;
    }
  }

  /** GetFCS computes the Ethernet CRC-32: its table keeps the register complemented,
      so starting from 0 is the standard preset and no final complement is needed. */
  lemma FcsIsCrc32(data: seq<Byte>)
    ensures Fcs(data) == Crc32(data)
  {
    forall x: bv32, n: bv32 | n < 16
      ensures NibbleStep(!x, n) == !SerialNibble(x, n)
    {
      NibbleComplement(x, n);
    }
    NibblesSmall(data);
    RunComplement(NibbleStep, SerialNibble, 0xFFFF_FFFF, Nibbles(data));
  }

  lemma FcsOfEmpty()
    ensures Fcs([]) == 0 && Crc32([]) == 0
  {
  }
}

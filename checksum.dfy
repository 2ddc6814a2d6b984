/**
 * The Internet checksum of RFC 1071 as TINYTCP.C computes it: lchecksum adds
 * the big-endian 16-bit words of a buffer (an odd trailing byte is the high
 * byte of a last word), checksum folds the carries back into the low 16 bits.
 * Senders store the complement of the folded sum; a receiver that sums the
 * same bytes, checksum field included, expects 0xFFFF.
 */
module InetChecksum {
  import opened Wire

  /** The sum of the big-endian words of d, an odd last byte taken as a high byte. */
  function WordSum(d: seq<Byte>): nat
    decreases |d|
  {
    if |d| == 0 then 0
    else if |d| == 1 then d[0] * 0x100
    else d[0] * 0x100 + d[1] + WordSum(d[2..])
  }

  /** n bytes of buf from off; bytes outside buf read as 0. */
  function Window(buf: seq<Byte>, off: int, n: nat): (r: seq<Byte>)
    ensures |r| == n
    ensures forall i :: 0 <= i < n ==> r[i] == ByteAt(buf, off + i)
  {
    seq<Byte>(n, i requires 0 <= i < n => ByteAt(buf, off + i))
  }

  /** The bytes lchecksum(dp, length) reads: `length >> 1` words, then one byte when
      `length & 1`; a negative length reads no word (and one byte when it is odd). */
  function LChecksumBytes(buf: seq<Byte>, off: int, length: int): seq<Byte>
  {
    if length >= 0 then Window(buf, off, length)
    else if length % 2 == 1 then Window(buf, off, 1)
    else []
  }

  /** lchecksum: the unfolded 32-bit word sum */
  function LChecksum(buf: seq<Byte>, off: int, length: int): (r: nat)
    ensures length <= 0x1_0000 ==> r < 0x8000_0000
  {
    var d := LChecksumBytes(buf, off, length);
    WordSumBound(d);
    WordSum(d)
  }

  /** The carry-folding loop `while (sum & 0xFFFF0000) sum = (sum & 0xFFFF) + (sum >> 16)`. */
  function Fold(sum: nat): Word
    decreases sum
  {
    if sum < 0x1_0000 then sum else Fold(sum % 0x1_0000 + sum / 0x1_0000)
  }

  /** checksum: the folded word sum (not complemented) */
  function Checksum(buf: seq<Byte>, off: int, length: int): Word
  {
    Fold(LChecksum(buf, off, length))
  }

  // ----- properties of the word sum -----------------------------------------------------

  lemma {:induction false} WordSumBound(d: seq<Byte>)
    ensures WordSum(d) <= 0xFFFF * ((|d| + 1) / 2)
    decreases |d|
  {
    if |d| >= 2 {
      WordSumBound(d[2..]);
    }
  }

  /** Splitting a buffer at an even offset splits its word sum. */
  lemma {:induction false} WordSumAppend(a: seq<Byte>, b: seq<Byte>)
    requires |a| % 2 == 0
    ensures WordSum(a + b) == WordSum(a) + WordSum(b)
    decreases |a|
  {
    if |a| == 0 {
      assert a + b == b;
    } else {
      assert (a + b)[2..] == a[2..] + b;
      WordSumAppend(a[2..], b);
    }
  }

  /** A 16-bit field at an even offset contributes exactly its value to the sum. */
  lemma WordSumField(pre: seq<Byte>, w: Word, post: seq<Byte>)
    requires |pre| % 2 == 0
    ensures WordSum(pre + BeBytes16(w) + post) == WordSum(pre) + w + WordSum(post)
  {
    WordSumAppend(pre, BeBytes16(w) + post);
    assert pre + BeBytes16(w) + post == pre + (BeBytes16(w) + post);
    assert (BeBytes16(w) + post)[2..] == post;
  }

  /** Changing byte i changes the sum by the byte's weight (0x100 at even offsets). */
  lemma {:induction false} WordSumUpdate(d: seq<Byte>, i: nat, v: Byte)
    requires i < |d|
    ensures WordSum(d[i := v]) == WordSum(d) + (v - d[i]) * (if i % 2 == 0 then 0x100 else 1)
    decreases |d|
  {
    if i >= 2 {
      assert d[i := v][2..] == d[2..][i - 2 := v];
      WordSumUpdate(d[2..], i - 2, v);
    } else if |d| >= 2 {
      assert d[i := v][2..] == d[2..];
    }
  }

  // ----- properties of the fold ------------------------------------------------------------

  /** Folding keeps the sum's residue modulo 0xFFFF (end-around carry). */
  lemma {:induction false} FoldCongruent(sum: nat)
    ensures Fold(sum) % 0xFFFF == sum % 0xFFFF
    decreases sum
  {
    if sum >= 0x1_0000 {
      var q, r := sum / 0x1_0000, sum % 0x1_0000;
      assert sum == (r + q) + 0xFFFF * q;
      ResidueShift(r + q, q);
      FoldCongruent(r + q);
    }
  }

  /** The folded sum is zero only for a zero sum. */
  lemma {:induction false} FoldZero(sum: nat)
    ensures Fold(sum) == 0 <==> sum == 0
    decreases sum
  {
    if sum >= 0x1_0000 {
      FoldZero(sum % 0x1_0000 + sum / 0x1_0000);
    }
  }

  /** A folded sum is 0xFFFF exactly when the sum is a positive multiple of 0xFFFF. */
  lemma FoldAllOnes(sum: nat)
    ensures Fold(sum) == 0xFFFF <==> sum > 0 && sum % 0xFFFF == 0
  {
    FoldCongruent(sum);
    FoldZero(sum);
  }

  /** Folding never increases a sum. */
  lemma {:induction false} FoldNotLarger(sum: nat)
    ensures Fold(sum) <= sum
    decreases sum
  {
    if sum >= 0x1_0000 {
      FoldNotLarger(sum % 0x1_0000 + sum / 0x1_0000);
    }
  }

  /** The 32-bit loop computes the same value: each step stays below 2^32. */
  lemma FoldStepFits(sum: nat)
    requires 0x1_0000 <= sum < 0x1_0000_0000
    ensures sum % 0x1_0000 + sum / 0x1_0000 < sum
  {
  }

  // ----- RFC 1071: sender complement, receiver check ---------------------------------------

  /** Adding the complement of the folded sum to any sum makes it fold to 0xFFFF. */
  lemma ComplementCompletes(x: nat)
    ensures Fold(x + (0xFFFF - Fold(x))) == 0xFFFF
  {
    var y := x + (0xFFFF - Fold(x));
    FoldCongruent(x);
    FoldZero(x);
    FoldNotLarger(x);
    assert y > 0;
    assert y % 0xFFFF == 0;
    FoldAllOnes(y);
  }

  /** The folded sum is fixed by the sum's residue modulo 0xFFFF and whether it is zero. */
  lemma FoldValue(sum: nat)
    ensures Fold(sum) == if sum == 0 then 0 else if sum % 0xFFFF == 0 then 0xFFFF else sum % 0xFFFF
  {
    FoldCongruent(sum);
    FoldZero(sum);
    FoldAllOnes(sum);
  }

  /** Adding multiples of 0xFFFF keeps the residue. */
  lemma ResidueShift(x: nat, k: nat)
    ensures (x + 0xFFFF * k) % 0xFFFF == x % 0xFFFF
  {
    var q, r := x / 0xFFFF, x % 0xFFFF;
    DivUnique(x + 0xFFFF * k, 0xFFFF, q + k, r);
  }

  /** Folding a partial sum before adding the rest changes nothing: the pseudo-header
      sum may be folded on its own first. */
  lemma FoldInStages(a: nat, b: nat)
    ensures Fold(Fold(a) + b) == Fold(a + b)
  {
    FoldValue(a);
    FoldValue(Fold(a) + b);
    FoldValue(a + b);
    var q, m := a / 0xFFFF, a % 0xFFFF;
    if a != 0 {
      if m == 0 {
        ResidueShift(b, 1);
        ResidueShift(b, q);
      } else {
        ResidueShift(m + b, q);
      }
    }
  }

  /** A buffer whose checksum field (at an even offset) holds the complement of the folded
      sum computed with the field zeroed, plus an optional already-folded prefix sum,
      verifies: the receiver's fold over the same bytes is 0xFFFF. */
  lemma StoredComplementVerifies(prefix: nat, pre: seq<Byte>, post: seq<Byte>)
    requires |pre| % 2 == 0
    ensures
      var c := 0xFFFF - Fold(prefix + WordSum(pre + BeBytes16(0) + post));
      Fold(prefix + WordSum(pre + BeBytes16(c) + post)) == 0xFFFF
  {
    var x := prefix + WordSum(pre + BeBytes16(0) + post);
    var c := 0xFFFF - Fold(x);
    WordSumField(pre, 0, post);
    WordSumField(pre, c, post);
    ComplementCompletes(x);
  }

  /** Once a buffer verifies, changing any single byte makes verification fail. */
  lemma SingleByteChangeDetected(d: seq<Byte>, i: nat, v: Byte)
    requires i < |d| && v != d[i]
    requires Fold(WordSum(d)) == 0xFFFF
    ensures Fold(WordSum(d[i := v])) != 0xFFFF
  {
    WordSumUpdate(d, i, v);
    FoldAllOnes(WordSum(d));
    FoldAllOnes(WordSum(d[i := v]));
    var delta := (v - d[i]) * (if i % 2 == 0 then 0x100 else 1);
    assert -0xFF00 <= delta <= 0xFF00 && delta != 0;
    NonMultipleShift(WordSum(d), delta);
  }

  /** Moving a multiple of 0xFFFF by less than 0xFFFF (but not by 0) leaves the multiples. */
  lemma NonMultipleShift(s: nat, delta: int)
    requires s % 0xFFFF == 0 && delta != 0 && -0xFFFF < delta < 0xFFFF && s + delta >= 0
    ensures (s + delta) % 0xFFFF != 0
  {
    var k := s / 0xFFFF;
    assert s == k * 0xFFFF;
    if delta > 0 {
      assert k * 0xFFFF < s + delta < (k + 1) * 0xFFFF;
      assert (s + delta) / 0xFFFF == k;
    } else {
      assert (k - 1) * 0xFFFF < s + delta < k * 0xFFFF;
      assert (s + delta) / 0xFFFF == k - 1;
    }
  }
}

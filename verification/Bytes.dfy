/** Bytes, 64-bit words and the little-endian layout used by the shared-memory buffers
    and by the CAN payloads. */
module Bytes {

  type byte = b: int | 0 <= b < 256

  const TWO_63: nat := 0x8000_0000_0000_0000
  const TWO_64: nat := 0x1_0000_0000_0000_0000

  function Pow256(width: nat): (p: nat)
    ensures p > 0
  {
    if width == 0 then 1 else 256 * Pow256(width - 1)
  }

  /** `struct.pack("<...")` of an unsigned value: least significant byte first. */
  function EncodeLE(value: nat, width: nat): (bs: seq<byte>)
    ensures |bs| == width
  {
    if width == 0 then [] else [value % 256] + EncodeLE(value / 256, width - 1)
  }

  /** `struct.unpack("<...")` of an unsigned value. */
  function DecodeLE(bs: seq<byte>): (value: nat)
    ensures value < Pow256(|bs|)
  {
    if bs == [] then 0 else bs[0] + 256 * DecodeLE(bs[1..])
  }

  lemma {:induction false} DecodeEncode(value: nat, width: nat)
    requires value < Pow256(width)
    ensures DecodeLE(EncodeLE(value, width)) == value
  {
    if width > 0 {
      DecodeEncode(value / 256, width - 1);
      assert EncodeLE(value, width)[1..] == EncodeLE(value / 256, width - 1);
    }
  }

  lemma {:induction false} EncodeDecode(bs: seq<byte>)
    ensures EncodeLE(DecodeLE(bs), |bs|) == bs
  {
    if bs != [] {
      EncodeDecode(bs[1..]);
      assert DecodeLE(bs) % 256 == bs[0] && DecodeLE(bs) / 256 == DecodeLE(bs[1..]);
    }
  }

  /** The value of the first `n` bytes, byte `k` weighing 256^k. */
  function Weighed(bs: seq<byte>, n: nat): nat
    requires n <= |bs|
  {
    if n == 0 then 0 else Weighed(bs, n - 1) + bs[n - 1] * Pow256(n - 1)
  }

  lemma {:induction false} DecodeAppend(bs: seq<byte>, b: byte)
    ensures DecodeLE(bs + [b]) == DecodeLE(bs) + b * Pow256(|bs|)
  {
    if bs != [] {
      DecodeAppend(bs[1..], b);
      assert (bs + [b])[1..] == bs[1..] + [b];
      Carry(b, Pow256(|bs| - 1));
    }
  }

  lemma Carry(b: int, p: int)
    ensures 256 * (b * p) == b * (256 * p)
  {
  }

  lemma {:induction false} WeighedPrefix(bs: seq<byte>, more: seq<byte>, n: nat)
    requires n <= |bs| && bs <= more
    ensures Weighed(more, n) == Weighed(bs, n)
  {
    if n > 0 { WeighedPrefix(bs, more, n - 1); }
  }

  /** Little-endian means that byte `k` weighs 256^k. */
  lemma {:induction false} DecodeIsWeighed(bs: seq<byte>)
    ensures DecodeLE(bs) == Weighed(bs, |bs|)
    decreases |bs|
  {
    if bs != [] {
      var n := |bs| - 1;
      DecodeIsWeighed(bs[..n]);
      DecodeAppend(bs[..n], bs[n]);
      assert bs == bs[..n] + [bs[n]];
      WeighedPrefix(bs[..n], bs, n);
    }
  }

  lemma Widths()
    ensures Pow256(2) == 0x1_0000 && Pow256(4) == 0x1_0000_0000 && Pow256(8) == TWO_64
  {
    assert Pow256(1) == 256;
    assert Pow256(2) == 0x1_0000;
    assert Pow256(3) == 0x100_0000;
    assert Pow256(4) == 0x1_0000_0000;
    assert Pow256(5) == 0x100_0000_0000;
    assert Pow256(6) == 0x1_0000_0000_0000;
    assert Pow256(7) == 0x100_0000_0000_0000;
  }

  // ----- Overwriting a stretch of a byte sequence -----

  /** The sequence `s` after `s[offset : offset + |data|] = data`. */
  function Splice(s: seq<byte>, offset: nat, data: seq<byte>): (r: seq<byte>)
    requires offset + |data| <= |s|
    ensures |r| == |s|
  {
    s[..offset] + data + s[offset + |data|..]
  }

  /** A window reads the new data if it is the overwritten one, and the old bytes if it
      does not meet the overwritten one. */
  lemma SpliceWindow(s: seq<byte>, offset: nat, data: seq<byte>, lo: nat, hi: nat)
    requires offset + |data| <= |s| && lo <= hi <= |s|
    ensures lo == offset && hi == offset + |data| ==> Splice(s, offset, data)[lo..hi] == data
    ensures hi <= offset || offset + |data| <= lo ==> Splice(s, offset, data)[lo..hi] == s[lo..hi]
  {
    var r := Splice(s, offset, data);
    assert forall k | 0 <= k < |s| ::
        r[k] == if offset <= k < offset + |data| then data[k - offset] else s[k];
  }

  // ----- Sequence words -----

  /** The 64-bit word that holds an unbounded count: `count & 0xFFFFFFFFFFFFFFFF`. */
  function Word64(count: nat): (w: nat)
    ensures w < TWO_64
  {
    count % TWO_64
  }

  function NextOddSequence(sequence: nat): (r: nat)
    ensures r < TWO_64
  {
    if sequence % 2 == 0 then Word64(sequence + 1) else Word64(sequence + 2)
  }

  function NextEvenSequence(sequence: nat): (r: nat)
    ensures r < TWO_64
  {
    if sequence % 2 == 0 then Word64(sequence) else Word64(sequence + 1)
  }

  lemma WordParity(count: nat)
    ensures Word64(count) % 2 == count % 2
  {
    assert count == count / TWO_64 * TWO_64 + Word64(count);
  }

  lemma WordAdd(count: nat, more: nat)
    ensures Word64(Word64(count) + more) == Word64(count + more)
  {
    var q := count / TWO_64;
    assert count + more == (Word64(count) + more) + q * TWO_64;
    ModShift(Word64(count) + more, q);
  }

  lemma {:induction false} ModShift(x: nat, q: nat)
    ensures (x + q * TWO_64) % TWO_64 == x % TWO_64
  {
    if q > 0 {
      ModShift(x, q - 1);
      assert x + q * TWO_64 == (x + (q - 1) * TWO_64) + TWO_64;
    }
  }

  /** What the writer's two helpers do to a counter that holds `2n` or `2n - 1` modulo 2^64:
      the odd store leads to `2(n+1) - 1`, the even store to `2(n+1)`, also across the wrap. */
  lemma NextSequences(sequence: nat, attempts: nat)
    requires sequence == Word64(2 * attempts) || (attempts > 0 && sequence == Word64(2 * attempts - 1))
    ensures NextOddSequence(sequence) == Word64(2 * (attempts + 1) - 1)
    ensures NextEvenSequence(NextOddSequence(sequence)) == Word64(2 * (attempts + 1))
    ensures NextOddSequence(sequence) % 2 == 1
  {
    var even := 2 * attempts;
    NextTwo(sequence, even);
    assert even + 1 == 2 * (attempts + 1) - 1 && even + 2 == 2 * (attempts + 1);
  }

  lemma NextTwo(sequence: nat, even: nat)
    requires even % 2 == 0 && (sequence == Word64(even) || (even > 0 && sequence == Word64(even - 1)))
    ensures NextOddSequence(sequence) == Word64(even + 1)
    ensures NextEvenSequence(NextOddSequence(sequence)) == Word64(even + 2)
    ensures NextOddSequence(sequence) % 2 == 1
  {
    FirstOfTwo(sequence, even);
    OddAfter(even);
    NextEvenAfter(NextOddSequence(sequence), even + 1);
  }

  lemma FirstOfTwo(sequence: nat, even: nat)
    requires even % 2 == 0 && (sequence == Word64(even) || (even > 0 && sequence == Word64(even - 1)))
    ensures NextOddSequence(sequence) == Word64(even + 1)
  {
    if sequence == Word64(even) {
      OddAfterEven(sequence, even);
    } else {
      BeforeEven(even);
      OddAfterOdd(sequence, even - 1);
    }
  }

  lemma OddAfter(even: nat)
    requires even % 2 == 0
    ensures (even + 1) % 2 == 1
  {
  }

  lemma BeforeEven(even: nat)
    requires even % 2 == 0 && even > 0
    ensures (even - 1) % 2 == 1
  {
  }

  lemma OddAfterEven(sequence: nat, count: nat)
    requires sequence == Word64(count) && count % 2 == 0
    ensures NextOddSequence(sequence) == Word64(count + 1)
  {
    WordParity(count);
    WordAdd(count, 1);
  }

  lemma OddAfterOdd(sequence: nat, count: nat)
    requires sequence == Word64(count) && count % 2 == 1
    ensures NextOddSequence(sequence) == Word64(count + 2)
  {
    WordParity(count);
    WordAdd(count, 2);
  }

  lemma NextEvenAfter(sequence: nat, count: nat)
    requires sequence == Word64(count) && count % 2 == 1
    ensures sequence % 2 == 1 && NextEvenSequence(sequence) == Word64(count + 1)
  {
    WordParity(count);
    WordAdd(count, 1);
  }

  lemma OddWord(n: nat)
    ensures Word64(2 * (n + 1) - 1) % 2 == 1
  {
    OddAfter(2 * n);
    WordParity(2 * n + 1);
  }

  /** Two equal even words mean that the attempts between them are a multiple of 2^63. */
  lemma EqualEvenWords(a: nat, b: nat)
    requires a <= b && Word64(2 * a) == Word64(2 * b)
    ensures (b - a) % TWO_63 == 0
    ensures b - a < TWO_63 ==> a == b
  {
    var q := (2 * b) / TWO_64 - (2 * a) / TWO_64;
    assert 2 * b - 2 * a == q * TWO_64;
    assert b - a == q * TWO_63;
    assert q >= 0;
  }

  /** 2^63 more attempts bring a word back to where it was. */
  lemma WrapsAround(attempts: nat)
    ensures Word64(2 * (attempts + TWO_63)) == Word64(2 * attempts)
  {
    ModShift(2 * attempts, 1);
    assert 2 * (attempts + TWO_63) == 2 * attempts + 1 * TWO_64;
  }

  // ----- Material for runs -----

  /** How many of the entries `lo`, ..., `hi - 1` hold. */
  function HowMany(flags: seq<bool>, lo: nat, hi: nat): nat
    requires lo <= hi <= |flags|
  {
    if lo == hi then 0 else HowMany(flags, lo, hi - 1) + if flags[hi - 1] then 1 else 0
  }

  /** Bytes that differ from `p` in every byte. */
  function Other(p: seq<byte>): (q: seq<byte>)
    ensures |q| == |p| && forall k :: 0 <= k < |p| ==> q[k] != p[k]
  {
    seq(|p|, k requires 0 <= k < |p| => if p[k] < 255 then p[k] + 1 else 0)
  }

  function Repeated(p: seq<byte>, n: nat): (ps: seq<seq<byte>>)
    ensures |ps| == n && forall k :: 0 <= k < n ==> ps[k] == p
  {
    seq(n, _ => p)
  }
}

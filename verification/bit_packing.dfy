/** Bit strings and their packing into bytes (`packBits` and `unpackBits` in
    server/src/algorithms/huffman.js). A bit string is a sequence of booleans,
    `true` standing for the character `"1"`. Bits are packed most significant
    first; the last byte is padded with 0 bits. */
module BitPacking {
  import opened Bytes

  type Bits = seq<bool>

  function Pow2(n: nat): (p: nat)
    ensures p >= 1
  {
    if n == 0 then 1 else 2 * Pow2(n - 1)
  }

  /** `x >> s` for a nonnegative `x`: `s` halvings. */
  function Shr(x: nat, s: nat): nat
    decreases s
  {
    if s == 0 then x else Shr(x / 2, s - 1)
  }

  /** The number a bit string spells, most significant bit first. */
  function ValueOf(bs: Bits): (v: nat)
    ensures v < Pow2(|bs|)
  {
    if bs == [] then 0 else 2 * ValueOf(bs[..|bs| - 1]) + (if bs[|bs| - 1] then 1 else 0)
  }

  /** The low `n` bits of `x`, most significant first. */
  function BitsOf(x: nat, n: nat): (bs: Bits)
    ensures |bs| == n
  {
    if n == 0 then [] else BitsOf(x / 2, n - 1) + [x % 2 == 1]
  }

  /** Spelling out the value of a bit string gives the bit string back. */
  lemma {:induction false} BitsOfValue(bs: Bits)
    ensures BitsOf(ValueOf(bs), |bs|) == bs
  {
    if bs != [] {
      var init := bs[..|bs| - 1];
      BitsOfValue(init);
      assert bs == init + [bs[|bs| - 1]];
    }
  }

  /** The value of the low `n` bits of a number below `2^n` is the number. */
  lemma {:induction false} ValueOfBits(x: nat, n: nat)
    requires x < Pow2(n)
    ensures ValueOf(BitsOf(x, n)) == x
  {
    if n > 0 {
      ValueOfBits(x / 2, n - 1);
      var bs := BitsOf(x, n);
      assert bs[..n - 1] == BitsOf(x / 2, n - 1);
    }
  }

  /** Bit `k` of the `n`-bit spelling of `x` is `(x >> (n - 1 - k)) & 1`. */
  lemma {:induction false} BitsOfShr(x: nat, n: nat, k: nat)
    requires k < n
    ensures BitsOf(x, n)[k] == (Shr(x, n - 1 - k) % 2 == 1)
  {
    if k < n - 1 {
      BitsOfShr(x / 2, n - 1, k);
    }
  }

  // ---------------------------------------------------------------------
  // packBits (huffman.js:48-56)

  /** The eight bits that go into byte `j`: bits `8j .. 8j + 7`, and 0 bits
      past the end of the string. */
  function Block(bits: Bits, j: nat): (b: Bits)
    ensures |b| == 8
  {
    seq(8, k requires 0 <= k < 8 => 8 * j + k < |bits| && bits[8 * j + k])
  }

  /** Byte `j` of the packed buffer: bit `i` of the string sets bit
      `7 - i % 8` of byte `i / 8`. */
  function PackedByte(bits: Bits, j: nat): byte
  {
    assert Pow2(8) == 256;
    ValueOf(Block(bits, j))
  }

  /** `packBits`: `ceil(|bits| / 8)` bytes, most significant bit first. */
  function PackBits(bits: Bits): (out: seq<byte>)
    ensures |out| == (|bits| + 7) / 8
  {
    seq((|bits| + 7) / 8, j requires 0 <= j < (|bits| + 7) / 8 => PackedByte(bits, j))
  }

  // ---------------------------------------------------------------------
  // unpackBits (huffman.js:59-65)

  /** Bit `i` of a packed buffer, `(buf[i / 8] >> (7 - i % 8)) & 1`. Past the
      end of the buffer the byte reads as `undefined`, which shifts to 0. */
  function BitAt(buf: seq<byte>, i: nat): bool
  {
    i / 8 < |buf| && Shr(buf[i / 8], 7 - i % 8) % 2 == 1
  }

  /** `unpackBits`: the first `bitLen` bits of `buf`. */
  function UnpackBits(buf: seq<byte>, bitLen: nat): (bits: Bits)
    ensures |bits| == bitLen
  {
    seq(bitLen, i requires 0 <= i => BitAt(buf, i))
  }

  /** Bit `i` of a packed string is bit `i % 8` of its block. */
  lemma PackedBit(bits: Bits, i: nat)
    requires i < 8 * |PackBits(bits)|
    ensures BitAt(PackBits(bits), i) == Block(bits, i / 8)[i % 8]
  {
    var block := Block(bits, i / 8);
    BitsOfValue(block);
    BitsOfShr(ValueOf(block), 8, i % 8);
  }

  /** Unpacking a packed string gives back the string. */
  lemma UnpackPack(bits: Bits)
    ensures UnpackBits(PackBits(bits), |bits|) == bits
  {
    forall i | 0 <= i < |bits|
      ensures UnpackBits(PackBits(bits), |bits|)[i] == bits[i]
    {
      PackedBit(bits, i);
      assert 8 * (i / 8) + i % 8 == i;
    }
  }

  /** The padding bits of the last byte are 0. */
  lemma PackPadding(bits: Bits)
    ensures forall i :: |bits| <= i < 8 * |PackBits(bits)| ==> !BitAt(PackBits(bits), i)
  {
    forall i | |bits| <= i < 8 * |PackBits(bits)|
      ensures !BitAt(PackBits(bits), i)
    {
      PackedBit(bits, i);
      assert 8 * (i / 8) + i % 8 == i;
    }
  }

  /** Packing every bit of a buffer gives back the buffer. */
  lemma PackUnpack(buf: seq<byte>)
    ensures PackBits(UnpackBits(buf, 8 * |buf|)) == buf
  {
    var bits := UnpackBits(buf, 8 * |buf|);
    forall j | 0 <= j < |buf|
      ensures PackBits(bits)[j] == buf[j]
    {
      assert Pow2(8) == 256;
      forall k | 0 <= k < 8
        ensures Block(bits, j)[k] == BitsOf(buf[j], 8)[k]
      {
        assert (8 * j + k) / 8 == j && (8 * j + k) % 8 == k;
        BitsOfShr(buf[j], 8, k);
      }
      assert Block(bits, j) == BitsOf(buf[j], 8);
      ValueOfBits(buf[j], 8);
    }
  }
}

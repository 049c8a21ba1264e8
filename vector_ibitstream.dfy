/**
 * Most-significant-bit-first reader over a borrowed byte buffer.
 *
 * The reader walks a cursor through the first `end` bytes of `buf`: `pos` is
 * the byte being read and `mask` the single bit of it that comes next, from
 * 0x80 down to 0x01. Reading past the last bit of a byte moves to the next
 * byte with the mask reset to 0x80. The bit sequence the reader produces is
 * specified by Unpack, which lists the bits of every byte, most significant
 * first; Pack is its inverse.
 */
module BitStream {

  type Bit = b: nat | b <= 1

  /** A byte with exactly one bit set. */
  predicate IsMask(m: bv8)
  {
    m != 0 && m & (m - 1) == 0
  }

  /** The mask of bit j of a byte, counting from the most significant bit. */
  function MaskAt(j: nat): (m: bv8)
    requires j < 8
    ensures IsMask(m)
  {
    if j == 0 then 0x80
    else if j == 1 then 0x40
    else if j == 2 then 0x20
    else if j == 3 then 0x10
    else if j == 4 then 0x08
    else if j == 5 then 0x04
    else if j == 6 then 0x02
    else 0x01
  }

  /** How many bits of the current byte precede the one that mask selects. */
  function Offset(m: bv8): (o: nat)
    requires IsMask(m)
    ensures o < 8 && MaskAt(o) == m
  {
    if m == 0x80 then 0
    else if m == 0x40 then 1
    else if m == 0x20 then 2
    else if m == 0x10 then 3
    else if m == 0x08 then 4
    else if m == 0x04 then 5
    else if m == 0x02 then 6
    else 7
  }

  /** Bit j of byte b, counting from the most significant bit. */
  function BitOf(b: bv8, j: nat): (bit: Bit)
    requires j < 8
  {
    if b & MaskAt(j) != 0 then 1 else 0
  }

  /** The eight bits of b, most significant first. */
  function ByteBits(b: bv8): (bits: seq<Bit>)
    ensures |bits| == 8
  {
    seq(8, j requires 0 <= j < 8 => BitOf(b, j))
  }

  /** The bits of every byte of bs, in order, each byte most significant bit first. */
  function Unpack(bs: seq<bv8>): (bits: seq<Bit>)
    ensures |bits| == 8 * |bs|
  {
    if |bs| == 0 then [] else ByteBits(bs[0]) + Unpack(bs[1..])
  }

  /** The byte whose bits, most significant first, are bits. */
  function Assemble(bits: seq<Bit>): (b: bv8)
    requires |bits| == 8
  {
    (if bits[0] == 1 then 0x80 else 0) | (if bits[1] == 1 then 0x40 else 0) |
    (if bits[2] == 1 then 0x20 else 0) | (if bits[3] == 1 then 0x10 else 0) |
    (if bits[4] == 1 then 0x08 else 0) | (if bits[5] == 1 then 0x04 else 0) |
    (if bits[6] == 1 then 0x02 else 0) | (if bits[7] == 1 then 0x01 else 0)
  }

  /** Groups of eight bits reassembled into bytes. */
  function Pack(bits: seq<Bit>): (bs: seq<bv8>)
    requires |bits| % 8 == 0
    ensures 8 * |bs| == |bits|
  {
    if |bits| == 0 then [] else [Assemble(bits[..8])] + Pack(bits[8..])
  }

  /** Reading the eight bits of a byte and reassembling them gives the byte back. */
  lemma ByteRoundTrip(b: bv8)
    ensures Assemble(ByteBits(b)) == b
  {
    var bits := ByteBits(b);
    var a := Assemble(bits);
    assert BitOf(a, 0) == BitOf(b, 0) && BitOf(a, 1) == BitOf(b, 1) && BitOf(a, 2) == BitOf(b, 2)
      && BitOf(a, 3) == BitOf(b, 3) && BitOf(a, 4) == BitOf(b, 4) && BitOf(a, 5) == BitOf(b, 5)
      && BitOf(a, 6) == BitOf(b, 6) && BitOf(a, 7) == BitOf(b, 7);
  }

  /** The bits of an assembled byte are the bits it was assembled from. */
  lemma AssembleBits(bits: seq<Bit>)
    requires |bits| == 8
    ensures ByteBits(Assemble(bits)) == bits
  {
    var a := Assemble(bits);
    forall j | 0 <= j < 8
      ensures BitOf(a, j) == bits[j]
    {
      AssembleBit(bits, j);
    }
  }

  /** Bit j of an assembled byte is bits[j]: the other terms of the disjunction leave it clear. */
  lemma AssembleBit(bits: seq<Bit>, j: nat)
    requires |bits| == 8 && j < 8
    ensures BitOf(Assemble(bits), j) == bits[j]
  {
    var m := MaskAt(j);
    var a := Assemble(bits);
    if j == 0 { assert a & m == (if bits[0] == 1 then m else 0); }
    else if j == 1 { assert a & m == (if bits[1] == 1 then m else 0); }
    else if j == 2 { assert a & m == (if bits[2] == 1 then m else 0); }
    else if j == 3 { assert a & m == (if bits[3] == 1 then m else 0); }
    else if j == 4 { assert a & m == (if bits[4] == 1 then m else 0); }
    else if j == 5 { assert a & m == (if bits[5] == 1 then m else 0); }
    else if j == 6 { assert a & m == (if bits[6] == 1 then m else 0); }
    else { assert a & m == (if bits[7] == 1 then m else 0); }
  }

  /** Bit j of byte p of bs sits at position 8p + j of Unpack(bs). */
  lemma {:induction false} UnpackAt(bs: seq<bv8>, p: nat, j: nat)
    requires p < |bs| && j < 8
    ensures Unpack(bs)[8 * p + j] == BitOf(bs[p], j)
  {
    if p > 0 {
      UnpackAt(bs[1..], p - 1, j);
      assert Unpack(bs)[8 * p + j] == Unpack(bs[1..])[8 * (p - 1) + j];
    }
  }

  /** The eight bits of byte p of bs reassemble to that byte. */
  lemma ByteReadBack(bs: seq<bv8>, p: nat)
    requires p < |bs|
    ensures Assemble(Unpack(bs)[8 * p .. 8 * p + 8]) == bs[p]
  {
    var bits := Unpack(bs)[8 * p .. 8 * p + 8];
    forall j | 0 <= j < 8
      ensures bits[j] == ByteBits(bs[p])[j]
    {
      UnpackAt(bs, p, j);
    }
    assert bits == ByteBits(bs[p]);
    ByteRoundTrip(bs[p]);
  }

  /** Packing the unpacked bits of a buffer gives the buffer back. */
  lemma {:induction false} PackUnpack(bs: seq<bv8>)
    ensures Pack(Unpack(bs)) == bs
  {
    if |bs| > 0 {
      var bits := Unpack(bs);
      assert bits[..8] == ByteBits(bs[0]);
      assert bits[8..] == Unpack(bs[1..]);
      ByteRoundTrip(bs[0]);
      PackUnpack(bs[1..]);
    }
  }

  /** Unpacking packed bits gives the bits back. */
  lemma {:induction false} UnpackPack(bits: seq<Bit>)
    requires |bits| % 8 == 0
    ensures Unpack(Pack(bits)) == bits
  {
    if |bits| > 0 {
      AssembleBits(bits[..8]);
      UnpackPack(bits[8..]);
      assert Pack(bits)[1..] == Pack(bits[8..]);
      assert bits == bits[..8] + bits[8..];
    }
  }

  /** Shifting a mask other than 0x01 right by one selects the next bit of the same byte. */
  lemma ShiftMask(m: bv8)
    requires IsMask(m) && m != 0x01
    ensures IsMask(m >> 1) && Offset(m >> 1) == Offset(m) + 1
  {
  }

  /**
   * The reader's state: the bytes buf[..end] are read in order, bit by bit.
   * Cursor() counts the bits consumed so far.
   */
  class VectorIBitstream {
    const buf: seq<bv8>
    const end: nat
    var pos: nat
    var mask: bv8
    var totalBits: nat

    /**
     * The states read_bit and good() keep: the mask selects one bit, the
     * byte position stays within the buffer, and the end of the buffer is only
     * reached at the start of a (missing) byte.
     */
    ghost predicate Valid()
      reads this
    {
      end <= |buf| && pos <= end && IsMask(mask) && (pos == end ==> mask == 0x80)
    }

    /** Number of bits already consumed from buf[..end]. */
    ghost function Cursor(): (c: nat)
      reads this
      requires Valid()
      ensures c <= 8 * end
    {
      8 * pos + Offset(mask)
    }

    /** True while bits remain: the cursor has not reached the end of the buffer. */
    function Good(): (g: bool)
      reads this
      ensures Valid() ==> (g <==> Cursor() < 8 * end)
    {
      pos < end
    }

    /**
     * Returns the bit that mask selects in the current byte and advances the
     * cursor by one bit; after the last bit of a byte the reader moves to the
     * next byte with the mask back at 0x80.
     */
    method ReadBit() returns (bit: Bit)
      requires Valid() && Good()
      modifies this`pos, this`mask, this`totalBits
      ensures Valid()
      ensures bit == 1 <==> old(mask) & buf[old(pos)] != 0
      ensures bit == Unpack(buf[..end])[old(Cursor())]
      ensures Cursor() == old(Cursor()) + 1
      ensures old(mask) != 0x01 ==> pos == old(pos) && mask == old(mask) >> 1
      ensures old(mask) == 0x01 ==> pos == old(pos) + 1 && mask == 0x80
      ensures totalBits == old(totalBits) + 1
    {
      ghost var o := Offset(mask);
      UnpackAt(buf[..end], pos, o);
      bit := if mask & buf[pos] != 0 then 1 else 0;
      if mask != 0x01 {
        ShiftMask(mask);
      }
      mask := mask >> 1;
      if mask == 0 {
        pos := pos + 1;
        mask := 0x80;
      }
      totalBits := totalBits + 1;
    }
  }

  /**
   * A reader drained with good() and read_bit(): the bits returned are those
   * of buf[..end] from the starting cursor on, and good() fails exactly after
   * the last of them.
   */
  method ReadAll(r: VectorIBitstream) returns (bits: seq<Bit>)
    requires r.Valid()
    modifies r`pos, r`mask, r`totalBits
    ensures r.Valid() && !r.Good() && r.pos == r.end
    ensures |bits| == 8 * r.end - old(r.Cursor())
    ensures bits == Unpack(r.buf[..r.end])[old(r.Cursor())..]
    ensures r.totalBits == old(r.totalBits) + |bits|
    ensures old(r.Cursor()) == 0 ==> |bits| % 8 == 0 && Pack(bits) == r.buf[..r.end]
  {
    ghost var c0 := r.Cursor();
    ghost var all := Unpack(r.buf[..r.end]);
    bits := [];
    while r.Good()
      invariant r.Valid()
      invariant c0 <= r.Cursor()
      invariant |bits| == r.Cursor() - c0
      invariant forall k :: 0 <= k < |bits| ==> bits[k] == all[c0 + k]
      invariant r.totalBits == old(r.totalBits) + |bits|
      decreases 8 * r.end - r.Cursor()
    {
      var bit := r.ReadBit();
      bits := bits + [bit];
    }
    assert bits == all[c0..];
    if c0 == 0 {
      PackUnpack(r.buf[..r.end]);
    }
  }
}

/**
 * The bit writer and bit reader of huffman.cpp:39-109. The byte sink of the
 * writer is an append-only sequence of bytes; the byte source of the reader is
 * a byte sequence with a cursor. The pure functions Bit and BitsFrom give
 * the reader's behaviour on a bit string, and the tree and payload decoders
 * are specified with them.
 */
module BitStream {
  import opened Bits

  /**
   * Bit `p` of the stream as `readBit` delivers it: past the end of the
   * source every read yields 0 (huffman.cpp:88-93).
   */
  function Bit(s: seq<bool>, p: nat): bool
  {
    p < |s| && s[p]
  }

  /** `k` successive reads from bit `p`, folded most significant first as `readByte` does. */
  function BitsFrom(s: seq<bool>, p: nat, k: nat): nat
  {
    if k == 0 then 0 else 2 * BitsFrom(s, p, k - 1) + (if Bit(s, p + k - 1) then 1 else 0)
  }

  lemma {:induction false} BitsFromBound(s: seq<bool>, p: nat, k: nat)
    ensures BitsFrom(s, p, k) < Pow2(k)
  {
    if k > 0 {
      BitsFromBound(s, p, k - 1);
    }
  }

  /** Within the source, reading `k` bits yields their MSB-first value. */
  lemma {:induction false} BitsFromInRange(s: seq<bool>, p: nat, k: nat)
    requires p + k <= |s|
    ensures BitsFrom(s, p, k) == BitsToNat(s[p..p + k])
  {
    if k > 0 {
      BitsFromInRange(s, p, k - 1);
      assert s[p..p + k][..k - 1] == s[p..p + k - 1];
    }
  }

  /** Setting the next bit of a buffer keeps it a byte, and it then holds one more bit. */
  lemma NextBuffer(pending: seq<bool>, bit: bool, buffer: nat)
    requires |pending| < 8 && buffer == BitsToNat(pending + Zeros(8 - |pending|))
    ensures buffer + (if bit then Pow2(7 - |pending|) else 0) < 256
    ensures buffer + (if bit then Pow2(7 - |pending|) else 0)
         == BitsToNat(pending + [bit] + Zeros(8 - (|pending| + 1)))
  {
    SetBitValue(pending, bit, 7 - |pending|);
    ByteBound(pending + [bit] + Zeros(8 - (|pending| + 1)));
  }

  lemma ByteBound(bits: seq<bool>)
    requires |bits| == 8
    ensures BitsToNat(bits) < 256
  {
    BitsToNatBound(bits);
    Pow2Of8();
  }

  /** A buffer holding no bits is zero. */
  lemma EmptyBuffer()
    ensures BitsToNat([] + Zeros(8)) == 0
  {
    ZerosShift([], 8);
  }

  /** Emitting a full buffer extends the emitted bytes by that byte. */
  lemma EmitByte(done: seq<bool>, filled: seq<bool>)
    requires |done| % 8 == 0 && |filled| == 8
    ensures Chunk(done + filled) == Chunk(done) + [BitsToNat(filled)]
  {
    ChunkAppend(done, filled);
    assert filled[..8] == filled && filled[8..] == [];
  }

  /** What a flush leaves in the sink: the whole bytes, then the zero-padded partial one. */
  lemma FlushBytes(done: seq<bool>, pending: seq<bool>)
    requires |done| % 8 == 0 && |pending| < 8
    ensures PackBits(done + pending)
         == Chunk(done) + (if |pending| > 0 then [BitsToNat(pending + Zeros(8 - |pending|))] else [])
  {
    PadAfter(|done|, |pending|);
    if |pending| > 0 {
      var last := pending + Zeros(8 - |pending|);
      Assoc(done, pending, Zeros(8 - |pending|));
      ChunkAppend(done, last);
      ChunkOne(last);
    } else {
      assert done + pending + Zeros(0) == done;
    }
  }

  /** The padding after whole bytes and `k` more bits. */
  lemma PadAfter(d: nat, k: nat)
    requires d % 8 == 0 && k < 8
    ensures PadLen(d + k) == if k > 0 then 8 - k else 0
  {
    assert (d + k) % 8 == k;
  }

  /** Eight bits make one byte. */
  lemma ChunkOne(b: seq<bool>)
    requires |b| == 8
    ensures Chunk(b) == [BitsToNat(b)]
  {
    assert b[..8] == b && b[8..] == [];
  }

  /**
   * A reader over the bytes a flushed writer emitted for `bits` delivers
   * those bits in order, then the zero padding of the last byte, then 0
   * for every read past the end (huffman.cpp:50-59, 69-71, 87-100).
   */
  lemma ReadBackBits(bits: seq<bool>, i: nat)
    ensures Bit(Unpack(PackBits(bits)), i) == (i < |bits| && bits[i])
    ensures |Unpack(PackBits(bits))| == |bits| + PadLen(|bits|)
  {
    UnpackPackBits(bits);
    var s := bits + Zeros(PadLen(|bits|));
    if |bits| <= i < |s| {
      assert s[i] == Zeros(PadLen(|bits|))[i - |bits|];
    }
  }

  /** `readByte` after `writeByte(b)` yields `b` (huffman.cpp:65-67, 102-106). */
  lemma ReadBackByte(bits: seq<bool>, p: nat, b: Byte)
    requires p + 8 <= |bits| && bits[p..p + 8] == NatToBits(b, 8)
    ensures BitsFrom(Unpack(PackBits(bits)), p, 8) == b
  {
    var s := Unpack(PackBits(bits));
    UnpackPackBits(bits);
    assert s[p..p + 8] == bits[p..p + 8];
    BitsFromInRange(s, p, 8);
    Pow2Of8();
    BitsToNatToBits(b, 8);
  }

  /** The bit writer: `output` is everything emitted to the sink so far. */
  class BitWriter {
    var output: seq<Byte>
    var buffer: Byte
    var bitCount: nat
    var totalBits: nat
    /** Bits already emitted in whole bytes, and bits waiting in `buffer`. */
    ghost var done: seq<bool>
    ghost var pending: seq<bool>

    ghost predicate Valid()
      reads this
    {
      Buffered() && bitCount < 8
    }

    /** The writer's invariant, also in the moment a full buffer awaits emission. */
    ghost predicate Buffered()
      reads this
    {
      |done| % 8 == 0 && output == Chunk(done) &&
      bitCount <= 8 && |pending| == bitCount &&
      buffer == BitsToNat(pending + Zeros(8 - bitCount)) &&
      totalBits == |done| + |pending|
    }

    /** Every bit written so far, in order. */
    ghost function Written(): seq<bool>
      reads this
    {
      done + pending
    }

    constructor ()
      ensures Valid() && Written() == [] && output == [] && bitCount == 0
    {
      output, buffer, bitCount, totalBits := [], 0, 0, 0;
      done, pending := [], [];
      EmptyBuffer();
    }

    /**
     * `writeBit`: set bit `7 - bitCount` of the buffer, and emit the buffer
     * once it holds eight bits (huffman.cpp:50-59).
     */
    method WriteBit(bit: bool)
      requires Valid()
      modifies this
      ensures Valid()
      ensures Written() == old(Written()) + [bit]
      ensures totalBits == old(totalBits) + 1
      ensures bitCount == if old(bitCount) == 7 then 0 else old(bitCount) + 1
      ensures old(output) <= output
      ensures |output| == |old(output)| + (if old(bitCount) == 7 then 1 else 0)
    {
      SetNextBit(bit);
      if bitCount == 8 {
        EmitBuffer();
      }
    }

    /** The first half of `writeBit`: the bit goes into the buffer (huffman.cpp:51-53). */
    method SetNextBit(bit: bool)
      requires Valid()
      modifies this
      ensures Buffered() && output == old(output) && done == old(done)
      ensures pending == old(pending) + [bit]
      ensures totalBits == old(totalBits) + 1 && bitCount == old(bitCount) + 1
    {
      NextBuffer(pending, bit, buffer);
      if bit {
        buffer := buffer + Pow2(7 - bitCount);
      }
      bitCount := bitCount + 1;
      totalBits := totalBits + 1;
      pending := pending + [bit];
    }

    /** The second half of `writeBit`: a full buffer is emitted and cleared (huffman.cpp:54-58). */
    method EmitBuffer()
      requires Buffered() && bitCount == 8
      modifies this
      ensures Valid() && bitCount == 0 && totalBits == old(totalBits)
      ensures done + pending == old(done + pending)
      ensures output == old(output) + [BitsToNat(old(pending))]
    {
      ghost var full := pending;
      ghost var emitted := done + full;
      assert output + [buffer] == Chunk(emitted) && |emitted| % 8 == 0 && buffer == BitsToNat(full) by {
        assert pending + Zeros(0) == pending;
        EmitByte(done, full);
      }
      output := output + [buffer];
      buffer := 0;
      bitCount := 0;
      done := emitted;
      pending := [];
      assert buffer == BitsToNat(pending + Zeros(8 - bitCount)) by {
        assert [] + Zeros(8) == Zeros(8);
        EmptyBuffer();
      }
    }

    /** `writeBits`: one bit per character, '1' for a one (huffman.cpp:61-63). */
    method WriteBits(bits: seq<char>)
      requires Valid()
      modifies this
      ensures Valid()
      ensures Written() == old(Written()) + CodeBits(bits)
    {
      for i := 0 to |bits|
        invariant Valid()
        invariant Written() == old(Written()) + CodeBits(bits)[..i]
      {
        WriteBit(bits[i] == '1');
        AppendNext(old(Written()), CodeBits(bits), i);
      }
      assert CodeBits(bits)[..|bits|] == CodeBits(bits);
    }

    /** `writeByte`: the eight bits of `b`, most significant first (huffman.cpp:65-67). */
    method WriteByte(b: Byte)
      requires Valid()
      modifies this
      ensures Valid()
      ensures Written() == old(Written()) + NatToBits(b, 8)
    {
      ghost var bits := NatToBits(b, 8);
      ghost var before := Written();
      var i := 7;
      while i >= 0
        invariant -1 <= i <= 7
        invariant Valid()
        invariant Written() == before + bits[..7 - i]
      {
        var bit := (b / Pow2(i)) % 2 == 1;
        NatToBitsAt(b, 8, 7 - i);
        WriteBit(bit);
        AppendNext(before, bits, 7 - i);
        i := i - 1;
      }
      assert bits[..8] == bits;
    }

    /**
     * `flush`: emit a partly filled buffer, its unused low bits zero
     * (huffman.cpp:69-71). The buffer and its count are not reset, so a
     * second flush would emit the same partial byte again; `compress`
     * flushes once, as its last use of the writer.
     */
    method Flush()
      requires Valid()
      modifies this
      ensures output == old(output) + (if old(bitCount) > 0 then [old(buffer)] else [])
      ensures output == PackBits(old(Written()))
      ensures Written() == old(Written()) && totalBits == old(totalBits)
      ensures buffer == old(buffer) && bitCount == old(bitCount)
    {
      FlushBytes(done, pending);
      if bitCount > 0 {
        output := output + [buffer];
      }
    }
  }

  /**
   * The bit reader over `input`. `pos` bytes have been fetched and `bitCount`
   * bits of the last one are still unread. The ghost `cursor` counts the
   * `readBit` calls made so far, including those past the end of the source.
   */
  class BitReader {
    const input: seq<Byte>
    var pos: nat
    var buffer: Byte
    var bitCount: nat
    var endOfFile: bool
    ghost var cursor: nat

    ghost predicate Valid()
      reads this
    {
      pos <= |input| && bitCount <= 8 &&
      (bitCount > 0 ==> pos > 0 && buffer == input[pos - 1]) &&
      (endOfFile <==> cursor > 8 * |input|) &&
      (endOfFile ==> bitCount == 0 && pos == |input|) &&
      (!endOfFile ==> cursor == 8 * pos - bitCount)
    }

    /** The bits the reader delivers, in order. */
    ghost function Stream(): seq<bool>
    {
      Unpack(input)
    }

    constructor (source: seq<Byte>)
      ensures Valid() && input == source && cursor == 0 && !endOfFile
    {
      input := source;
      pos, buffer, bitCount, endOfFile := 0, 0, 0, false;
      cursor := 0;
    }

    /**
     * `readBit` (huffman.cpp:87-100): the bit under the cursor; once the
     * source is exhausted, 0 with the end-of-file flag set.
     */
    method ReadBit() returns (bit: bool)
      requires Valid()
      modifies this
      ensures Valid()
      ensures bit == Bit(Stream(), old(cursor)) && cursor == old(cursor) + 1
      ensures endOfFile <==> old(cursor) >= |Stream()|
    {
      cursor := cursor + 1;
      if bitCount == 0 {
        if pos == |input| {
          endOfFile := true;
          return false;
        }
        buffer := input[pos];
        pos := pos + 1;
        bitCount := 8;
      }
      bit := (buffer / Pow2(bitCount - 1)) % 2 == 1;
      bitCount := bitCount - 1;
      UnpackAt(input, pos - 1, 7 - bitCount);
      NatToBitsAt(buffer, 8, 7 - bitCount);
      assert 8 * (pos - 1) + (7 - bitCount) == 8 * pos - bitCount - 1;
    }

    /** `readByte`: eight `readBit`s, most significant first (huffman.cpp:102-106). */
    method ReadByte() returns (b: Byte)
      requires Valid()
      modifies this
      ensures Valid()
      ensures b == BitsFrom(Stream(), old(cursor), 8) && cursor == old(cursor) + 8
    {
      BitsFromBound(Stream(), cursor, 8);
      Pow2Of8();
      var v: nat := 0;
      for i := 0 to 8
        invariant Valid()
        invariant v == BitsFrom(Stream(), old(cursor), i) && cursor == old(cursor) + i
      {
        var bit := ReadBit();
        v := 2 * v + (if bit then 1 else 0);
      }
      b := v;
    }

    /**
     * `isEOF` (huffman.cpp:108): true exactly when a read has gone past the
     * last bit of the source.
     */
    function IsEOF(): (e: bool)
      reads this
      requires Valid()
      ensures e <==> cursor > |Stream()|
    {
      endOfFile && bitCount == 0
    }
  }
}

/**
 * Bytes and bit strings. A byte is spelled as eight bits, most significant
 * bit first, which is the order in which the bit writer packs and the bit
 * reader unpacks them (huffman.cpp:50-106).
 */
module Bits {
  /** A byte, as `unsigned char` holds it. */
  type Byte = x: int | 0 <= x < 256

  function Pow2(k: nat): (r: nat)
    ensures r >= 1
  {
    if k == 0 then 1 else 2 * Pow2(k - 1)
  }

  lemma Pow2Of8()
    ensures Pow2(7) == 128 && Pow2(8) == 256
  {
  }

  /** The value of a bit string read most significant bit first. */
  function BitsToNat(bits: seq<bool>): nat
  {
    if bits == [] then 0
    else 2 * BitsToNat(bits[..|bits| - 1]) + (if bits[|bits| - 1] then 1 else 0)
  }

  /** A string of `w` bits has a value below `2^w`. */
  lemma {:induction false} BitsToNatBound(bits: seq<bool>)
    ensures BitsToNat(bits) < Pow2(|bits|)
  {
    if bits != [] {
      BitsToNatBound(bits[..|bits| - 1]);
    }
  }

  /** The low `w` bits of `n`, most significant first. */
  function NatToBits(n: nat, w: nat): (r: seq<bool>)
    ensures |r| == w
  {
    if w == 0 then [] else NatToBits(n / 2, w - 1) + [n % 2 == 1]
  }

  /** `w` zero bits: the padding the writer's flush leaves in a last byte. */
  function Zeros(w: nat): (r: seq<bool>)
    ensures |r| == w && forall i :: 0 <= i < w ==> !r[i]
  {
    seq(w, _ => false)
  }

  /** A string of '0'/'1' characters as bits: the writer's `bit == '1'`. */
  function CodeBits(code: seq<char>): (r: seq<bool>)
    ensures |r| == |code| && forall i :: 0 <= i < |code| ==> (r[i] <==> code[i] == '1')
  {
    seq(|code|, i requires 0 <= i < |code| => code[i] == '1')
  }

  lemma CodeBitsAppend(a: seq<char>, b: seq<char>)
    ensures CodeBits(a + b) == CodeBits(a) + CodeBits(b)
  {
    assert forall i :: 0 <= i < |a + b| ==> CodeBits(a + b)[i] == (CodeBits(a) + CodeBits(b))[i];
  }

  lemma {:induction false} DivUnique(n: nat, m: nat, q: nat, r: nat)
    requires m > 0 && r < m && n == m * q + r
    ensures n / m == q && n % m == r
  {
    var q', r' := n / m, n % m;
    assert n == m * q' + r';
    if q' < q {
      MulMono(m, q' + 1, q);
      assert false;
    } else if q < q' {
      MulMono(m, q + 1, q');
      assert false;
    }
  }

  lemma MulSpread(v: nat, d: nat, p: nat)
    ensures (2 * v + d) * p == v * (2 * p) + d * p
    ensures v * (2 * p) == p * (2 * v) + 0
  {
  }

  lemma MulTwice(v: nat, p: nat)
    ensures 2 * (v * p) == v * (2 * p)
  {
  }

  lemma {:induction false} MulMono(m: nat, a: nat, b: nat)
    requires a <= b
    ensures m * a <= m * b
  {
    if a < b {
      MulMono(m, a, b - 1);
      assert m * b == m * (b - 1) + m;
    }
  }

  lemma HalveTwice(n: nat, m: nat)
    requires m > 0
    ensures n / 2 / m == n / (2 * m)
  {
    var q, r := n / (2 * m), n % (2 * m);
    assert n == 2 * m * q + r;
    DivUnique(n, 2, m * q + r / 2, r % 2);
    DivUnique(n / 2, m, q, r / 2);
  }

  /** Reading back the bits of a value gives the value. */
  lemma {:induction false} BitsToNatToBits(n: nat, w: nat)
    requires n < Pow2(w)
    ensures BitsToNat(NatToBits(n, w)) == n
  {
    if w > 0 {
      BitsToNatToBits(n / 2, w - 1);
      var s := NatToBits(n, w);
      assert s[..w - 1] == NatToBits(n / 2, w - 1);
    }
  }

  /** Spelling out the value of a bit string gives the bit string back. */
  lemma {:induction false} NatToBitsToNat(bits: seq<bool>)
    ensures NatToBits(BitsToNat(bits), |bits|) == bits
  {
    if bits != [] {
      var init := bits[..|bits| - 1];
      NatToBitsToNat(init);
      var v := BitsToNat(bits);
      DivUnique(v, 2, BitsToNat(init), if bits[|bits| - 1] then 1 else 0);
      assert bits == init + [bits[|bits| - 1]];
    }
  }

  /** Bit `i` from the top of the `w`-bit spelling of `n` is `(n >> (w-1-i)) & 1`. */
  lemma {:induction false} NatToBitsAt(n: nat, w: nat, i: nat)
    requires i < w
    ensures NatToBits(n, w)[i] == ((n / Pow2(w - 1 - i)) % 2 == 1)
  {
    if i < w - 1 {
      NatToBitsAt(n / 2, w - 1, i);
      HalveTwice(n, Pow2(w - 2 - i));
    }
  }

  /** Appending `w` zero bits shifts the value left by `w`. */
  lemma {:induction false} ZerosShift(bits: seq<bool>, w: nat)
    ensures BitsToNat(bits + Zeros(w)) == BitsToNat(bits) * Pow2(w)
  {
    if w == 0 {
      assert bits + Zeros(w) == bits;
    } else {
      ZerosShift(bits, w - 1);
      var s := bits + Zeros(w);
      var s' := bits + Zeros(w - 1);
      assert s[..|s| - 1] == s';
      assert !s[|s| - 1];
      var v, p := BitsToNat(bits), Pow2(w - 1);
      assert BitsToNat(s) == 2 * BitsToNat(s');
      assert BitsToNat(s') == v * p;
      MulTwice(v, p);
    }
  }

  /**
   * Writing bit `b` into a byte that holds `p` followed by zeros adds
   * `b << w`: the value of `p`, then `b`, then `w` zeros. The bit it sets
   * is clear beforehand, so the `|=` of the writer is an addition.
   */
  lemma SetBitValue(p: seq<bool>, b: bool, w: nat)
    ensures BitsToNat(p + [b] + Zeros(w))
         == BitsToNat(p + Zeros(w + 1)) + (if b then Pow2(w) else 0)
    ensures (BitsToNat(p + Zeros(w + 1)) / Pow2(w)) % 2 == 0
  {
    var v, d, pw := BitsToNat(p), (if b then 1 else 0), Pow2(w);
    BitsToNatSnoc(p, b);
    ZerosShift(p + [b], w);
    ZerosShift(p, w + 1);
    SetBitArith(v, d, pw, BitsToNat(p + [b] + Zeros(w)), BitsToNat(p + Zeros(w + 1)));
  }

  lemma BitsToNatSnoc(p: seq<bool>, b: bool)
    ensures BitsToNat(p + [b]) == 2 * BitsToNat(p) + (if b then 1 else 0)
  {
    assert (p + [b])[..|p|] == p;
  }

  lemma SetBitArith(v: nat, d: nat, pw: nat, x: nat, y: nat)
    requires pw > 0
    requires x == (2 * v + d) * pw && y == v * (2 * pw)
    ensures x == y + d * pw && (y / pw) % 2 == 0
  {
    MulSpread(v, d, pw);
    DivUnique(y, pw, 2 * v, 0);
  }

  /** The bytes of a whole number of bytes' worth of bits, eight bits to a byte. */
  function Chunk(bits: seq<bool>): (r: seq<Byte>)
    requires |bits| % 8 == 0
    ensures |r| * 8 == |bits|
  {
    if bits == [] then []
    else
      Pow2Of8();
      BitsToNatBound(bits[..8]);
      [BitsToNat(bits[..8])] + Chunk(bits[8..])
  }

  /** The number of zero bits a flush appends after `n` bits. */
  function PadLen(n: nat): (r: nat)
    ensures r < 8 && (n + r) % 8 == 0 && (n % 8 == 0 <==> r == 0)
  {
    (8 - n % 8) % 8
  }

  /** `bits` lie in `s` from position `p` on. */
  ghost predicate BitsAt(s: seq<bool>, p: nat, bits: seq<bool>)
  {
    p + |bits| <= |s| && s[p..p + |bits|] == bits
  }

  /** A sequence holds its own prefix at position 0. */
  lemma PrefixAt(s: seq<bool>, bits: seq<bool>, pad: seq<bool>)
    requires s == bits + pad
    ensures BitsAt(s, 0, bits)
  {
    assert s[0..|bits|] == bits;
  }

  /** Where two bit strings lie one after the other. */
  lemma SplitAt(s: seq<bool>, p: nat, a: seq<bool>, b: seq<bool>)
    requires BitsAt(s, p, a + b)
    ensures BitsAt(s, p, a) && BitsAt(s, p + |a|, b)
  {
    SliceSplit(s, p, a, b);
  }

  /** The bytes a bit writer has emitted once it is flushed after `bits`. */
  function PackBits(bits: seq<bool>): seq<Byte>
  {
    Chunk(bits + Zeros(PadLen(|bits|)))
  }

  /** The bits a bit reader delivers from `bytes`, eight per byte, MSB first. */
  function Unpack(bytes: seq<Byte>): (r: seq<bool>)
    ensures |r| == 8 * |bytes|
  {
    if bytes == [] then [] else NatToBits(bytes[0], 8) + Unpack(bytes[1..])
  }

  lemma {:induction false} ChunkAppend(a: seq<bool>, b: seq<bool>)
    requires |a| % 8 == 0 && |b| % 8 == 0
    ensures Chunk(a + b) == Chunk(a) + Chunk(b)
  {
    if a != [] {
      ChunkAppend(a[8..], b);
      assert (a + b)[..8] == a[..8];
      assert (a + b)[8..] == a[8..] + b;
    } else {
      assert a + b == b;
    }
  }

  /** Unpacking the bytes of a bit string gives the bit string back. */
  lemma {:induction false} UnpackChunk(bits: seq<bool>)
    requires |bits| % 8 == 0
    ensures Unpack(Chunk(bits)) == bits
  {
    if bits != [] {
      UnpackChunk(bits[8..]);
      NatToBitsToNat(bits[..8]);
      var c := Chunk(bits);
      assert c[1..] == Chunk(bits[8..]);
      assert bits == bits[..8] + bits[8..];
    }
  }

  /**
   * Writer-to-reader round trip: the flushed bytes unpack to the bits written
   * followed by fewer than eight zero bits of padding.
   */
  lemma UnpackPackBits(bits: seq<bool>)
    ensures Unpack(PackBits(bits)) == bits + Zeros(PadLen(|bits|))
    ensures |Unpack(PackBits(bits))| - |bits| < 8
  {
    UnpackChunk(bits + Zeros(PadLen(|bits|)));
  }

  /** A byte written MSB-first is read back MSB-first as the same byte. */
  lemma ByteRoundTrip(b: Byte)
    ensures Unpack([b]) == NatToBits(b, 8)
    ensures BitsToNat(Unpack([b])) == b
  {
    assert Unpack([b]) == NatToBits(b, 8) + Unpack([]);
    Pow2Of8();
    BitsToNatToBits(b, 8);
  }

  /** Bit `j` of byte `i` sits at position `8 * i + j` of the unpacked stream. */
  lemma {:induction false} UnpackAt(bytes: seq<Byte>, i: nat, j: nat)
    requires i < |bytes| && j < 8
    ensures Unpack(bytes)[8 * i + j] == NatToBits(bytes[i], 8)[j]
  {
    if i > 0 {
      UnpackAt(bytes[1..], i - 1, j);
      assert 8 * i + j == 8 + (8 * (i - 1) + j);
    }
  }

  /** The two halves of a slice that spells `a + b`. */
  lemma SliceSplit(s: seq<bool>, pos: nat, a: seq<bool>, b: seq<bool>)
    requires pos + |a| + |b| <= |s| && s[pos..pos + |a| + |b|] == a + b
    ensures s[pos..pos + |a|] == a && s[pos + |a|..pos + |a| + |b|] == b
  {
    assert s[pos..pos + |a|] == (a + b)[..|a|];
    assert s[pos + |a|..pos + |a| + |b|] == (a + b)[|a|..];
  }

  lemma Assoc<T>(a: seq<T>, b: seq<T>, c: seq<T>)
    ensures a + b + c == a + (b + c)
  {
  }

  lemma EmptyAppend<T>(a: seq<T>, b: seq<T>)
    ensures [] + a + b == a + b
  {
  }

  /** Appending the next element of `s` to what came before its first `i`. */
  lemma AppendNext<T>(before: seq<T>, s: seq<T>, i: nat)
    requires i < |s|
    ensures before + s[..i] + [s[i]] == before + s[..i + 1]
  {
    assert s[..i + 1] == s[..i] + [s[i]];
  }

  /** The three parts of a slice that spells a 0 bit, then `a`, then `b`. */
  lemma TagSplit(s: seq<bool>, p: nat, a: seq<bool>, b: seq<bool>)
    requires p + 1 + |a| + |b| <= |s| && s[p..p + 1 + |a| + |b|] == [false] + a + b
    ensures !s[p] && s[p + 1..p + 1 + |a|] == a && s[p + 1 + |a|..p + 1 + |a| + |b|] == b
  {
    SliceSplit(s, p, [false] + a, b);
    SliceSplit(s, p, [false], a);
    assert s[p] == s[p..p + 1][0];
  }
}

/**
 * The tree header of a compressed stream (huffman.cpp:183-205): the tree in
 * pre-order, a 1 bit and the eight symbol bits for a leaf, a 0 bit followed
 * by the left and then the right subtree for an internal node.
 */
module TreeCodec {
  import opened Bits
  import opened Wrappers
  import opened BitStream
  import opened HuffmanTree

  /** The bits `serializeTree` writes for `t`. */
  function Serialize(t: Tree): seq<bool>
  {
    match t
    case Leaf(s, _) => [true] + NatToBits(s, 8)
    case Node(l, r, _) => [false] + Serialize(l) + Serialize(r)
  }

  function LeafCount(t: Tree): nat
  {
    match t
    case Leaf(_, _) => 1
    case Node(l, r, _) => LeafCount(l) + LeafCount(r)
  }

  function InternalCount(t: Tree): nat
  {
    match t
    case Leaf(_, _) => 0
    case Node(l, r, _) => 1 + InternalCount(l) + InternalCount(r)
  }

  /** The header costs 9 bits per leaf and 1 bit per internal node. */
  lemma {:induction false} SerializeLength(t: Tree)
    ensures |Serialize(t)| == 9 * LeafCount(t) + InternalCount(t)
  {
    match t
    case Leaf(_, _) =>
    case Node(l, r, _) =>
      SerializeLength(l);
      SerializeLength(r);
  }

  /** A tree is shallower than its header is long, so a header's own length is enough fuel to read it. */
  lemma {:induction false} HeightBound(t: Tree)
    ensures Height(t) < |Serialize(t)|
  {
    match t
    case Leaf(_, _) =>
    case Node(l, r, _) =>
      HeightBound(l);
      HeightBound(r);
  }

  /**
   * `deserializeTree` run on bit string `s` from cursor `p`, with at most
   * `fuel` levels of recursion: the tree read (weights 0, an internal node
   * weighing the sum of its children as its constructor sets it) and the
   * cursor after it, or None once the fuel is spent. The source itself has no
   * bound and recurses without end on a header cut short, where `readBit`
   * keeps yielding 0.
   */
  function DeserializeAt(s: seq<bool>, p: nat, fuel: nat): Option<(Tree, nat)>
    decreases fuel
  {
    if fuel == 0 then None
    else if Bit(s, p) then
      BitsFromBound(s, p + 1, 8);
      Pow2Of8();
      Some((Leaf(BitsFrom(s, p + 1, 8), 0), p + 9))
    else
      var left := DeserializeAt(s, p + 1, fuel - 1);
      if left.None? then None
      else
        var right := DeserializeAt(s, left.value.1, fuel - 1);
        if right.None? then None
        else Some((Node(left.value.0, right.value.0, left.value.0.w + right.value.0.w), right.value.1))
  }

  /** Erased trees weigh nothing. */
  lemma EraseWeight(t: Tree)
    ensures Erase(t).w == 0
  {
  }

  /** A serialized leaf reads back as its tag bit and its symbol. */
  lemma LeafSlices(s: seq<bool>, p: nat, x: Byte)
    requires p + 9 <= |s| && s[p..p + 9] == [true] + NatToBits(x, 8)
    ensures Bit(s, p) && BitsFrom(s, p + 1, 8) == x
  {
    assert s[p] == s[p..p + 9][0];
    SliceSplit(s, p, [true], NatToBits(x, 8));
    BitsFromInRange(s, p + 1, 8);
    Pow2Of8();
    BitsToNatToBits(x, 8);
  }

  /** The nine bits of a leaf read from `p` spell the leaf's serialization. */
  lemma LeafBits(s: seq<bool>, p: nat)
    requires p + 9 <= |s| && Bit(s, p)
    ensures s[p..p + 9] == [true] + NatToBits(BitsFrom(s, p + 1, 8), 8)
  {
    var bits := s[p + 1..p + 9];
    BitsFromInRange(s, p + 1, 8);
    NatToBitsToNat(bits);
    assert s[p..p + 9] == [s[p]] + bits;
  }

  /** The bits of a node read from `p`: its tag bit, then the bits of each subtree. */
  lemma NodeBits(s: seq<bool>, p: nat, mid: nat, end: nat)
    requires p < mid <= end <= |s| && !s[p]
    ensures s[p..end] == [false] + s[p + 1..mid] + s[mid..end]
  {
    assert s[p..end] == [s[p]] + s[p + 1..mid] + s[mid..end];
  }

  /** Where the tag bit and the two subtrees of a serialized node lie. */
  lemma NodeSlices(s: seq<bool>, p: nat, t: Tree)
    requires t.Node? && p + |Serialize(t)| <= |s|
    requires s[p..p + |Serialize(t)|] == Serialize(t)
    ensures |Serialize(t)| == 1 + |Serialize(t.l)| + |Serialize(t.r)|
    ensures !s[p] && !Bit(s, p)
    ensures s[p + 1..p + 1 + |Serialize(t.l)|] == Serialize(t.l)
    ensures s[p + 1 + |Serialize(t.l)|..p + 1 + |Serialize(t.l)| + |Serialize(t.r)|] == Serialize(t.r)
  {
    TagSplit(s, p, Serialize(t.l), Serialize(t.r));
  }

  /**
   * Reading back a serialized tree rebuilds its shape and symbols, without
   * its weights, and consumes exactly the bits written for it.
   */
  lemma {:induction false} DeserializeSerialize(s: seq<bool>, p: nat, t: Tree, fuel: nat)
    requires p + |Serialize(t)| <= |s|
    requires s[p..p + |Serialize(t)|] == Serialize(t)
    requires fuel > Height(t)
    ensures DeserializeAt(s, p, fuel) == Some((Erase(t), p + |Serialize(t)|))
    decreases t
  {
    match t
    case Leaf(x, _) =>
      LeafSlices(s, p, x);
    case Node(l, r, _) =>
      NodeSlices(s, p, t);
      var mid := p + 1 + |Serialize(l)|;
      DeserializeSerialize(s, p + 1, l, fuel - 1);
      DeserializeSerialize(s, mid, r, fuel - 1);
      EraseWeight(l);
      EraseWeight(r);
      DeserializeNode(s, p, fuel, Erase(l), Erase(r), mid, mid + |Serialize(r)|);
  }

  /** A 0 bit followed by two trees reads as the node over them. */
  lemma DeserializeNode(s: seq<bool>, p: nat, fuel: nat, l: Tree, r: Tree, mid: nat, end: nat)
    requires fuel > 0 && !Bit(s, p)
    requires DeserializeAt(s, p + 1, fuel - 1) == Some((l, mid))
    requires DeserializeAt(s, mid, fuel - 1) == Some((r, end))
    ensures DeserializeAt(s, p, fuel) == Some((Node(l, r, l.w + r.w), end))
  {
  }

  /** `r` is a weightless tree whose serialization is exactly the bits from `p` to `r.1`. */
  ghost predicate Reads(s: seq<bool>, p: nat, r: (Tree, nat))
  {
    p + |Serialize(r.0)| == r.1 <= |s| &&
    s[p..r.1] == Serialize(r.0) && r.0 == Erase(r.0)
  }

  /**
   * Conversely, a tree read without running past the end of the bits is
   * exactly the serialization of what was read, and carries no weight.
   */
  lemma {:induction false} DeserializeReadsSerialize(s: seq<bool>, p: nat, fuel: nat)
    requires DeserializeAt(s, p, fuel).Some? && DeserializeAt(s, p, fuel).value.1 <= |s|
    ensures Reads(s, p, DeserializeAt(s, p, fuel).value)
    decreases fuel
  {
    if Bit(s, p) {
      LeafBits(s, p);
    } else {
      var left := DeserializeAt(s, p + 1, fuel - 1).value;
      var right := DeserializeAt(s, left.1, fuel - 1).value;
      DeserializeAdvances(s, left.1, fuel - 1);
      DeserializeReadsSerialize(s, p + 1, fuel - 1);
      DeserializeReadsSerialize(s, left.1, fuel - 1);
      NodeBits(s, p, left.1, right.1);
    }
  }

  /** Reading a tree moves the cursor forward. */
  lemma {:induction false} DeserializeAdvances(s: seq<bool>, p: nat, fuel: nat)
    requires DeserializeAt(s, p, fuel).Some?
    ensures DeserializeAt(s, p, fuel).value.1 > p
    decreases fuel
  {
    if !Bit(s, p) {
      var left := DeserializeAt(s, p + 1, fuel - 1).value;
      DeserializeAdvances(s, p + 1, fuel - 1);
      DeserializeAdvances(s, left.1, fuel - 1);
    }
  }

  /** `serializeTree` (huffman.cpp:183-193): writes `Serialize(t)` through `w`. */
  method SerializeTree(t: Tree, w: BitWriter)
    requires w.Valid()
    modifies w
    ensures w.Valid() && w.Written() == old(w.Written()) + Serialize(t)
    decreases t
  {
    ghost var before := w.Written();
    if t.Leaf? {
      w.WriteBit(true);
      w.WriteByte(t.sym);
      Assoc(before, [true], NatToBits(t.sym, 8));
    } else {
      w.WriteBit(false);
      SerializeTree(t.l, w);
      SerializeTree(t.r, w);
      Assoc(before, [false], Serialize(t.l));
      Assoc(before, [false] + Serialize(t.l), Serialize(t.r));
    }
  }

  /**
   * `deserializeTree` (huffman.cpp:195-205) on a reader whose remaining bits
   * hold a tree that is read within `fuel` levels.
   */
  method DeserializeTree(reader: BitReader, ghost fuel: nat) returns (t: Tree)
    requires reader.Valid() && DeserializeAt(reader.Stream(), reader.cursor, fuel).Some?
    modifies reader
    ensures reader.Valid()
    ensures Some((t, reader.cursor)) == DeserializeAt(reader.Stream(), old(reader.cursor), fuel)
    decreases fuel
  {
    var isLeaf := reader.ReadBit();
    if isLeaf {
      var symbol := reader.ReadByte();
      t := Leaf(symbol, 0);
    } else {
      var left := DeserializeTree(reader, fuel - 1);
      var right := DeserializeTree(reader, fuel - 1);
      t := Node(left, right, left.w + right.w);
    }
  }
}

/**
 * The encoding table of huffman.cpp:173-181: every leaf's symbol mapped to
 * the path from the root to it, '0' for a step left and '1' for a step
 * right. A later leaf with the same symbol overwrites an earlier entry, which
 * happens only for the weight-0 padding leaf of symbol 0.
 */
module CodeTable {
  import opened Bits
  import opened Wrappers
  import opened HuffmanTree

  /**
   * `generateEncodingTable(node, code)` run on table `acc`: a leaf records
   * `code` (or "0" when the code is empty), an internal node visits its left
   * child with `code + "0"`, then its right child with `code + "1"`.
   */
  function EncodingTable(t: Tree, code: seq<char>, acc: map<Byte, seq<char>>): map<Byte, seq<char>>
  {
    match t
    case Leaf(s, _) => acc[s := if code == [] then "0" else code]
    case Node(l, r, _) => EncodingTable(r, code + "1", EncodingTable(l, code + "0", acc))
  }

  /** The table `compress` builds: cleared, then filled from the root with the empty code. */
  function Codes(root: Tree): map<Byte, seq<char>>
  {
    EncodingTable(root, "", map[])
  }

  /** The table gains exactly the symbols of the tree's leaves. */
  lemma {:induction false} EncodingTableKeys(t: Tree, code: seq<char>, acc: map<Byte, seq<char>>)
    ensures forall s :: s in EncodingTable(t, code, acc) <==> s in acc || Count(t, s) >= 1
  {
    match t
    case Leaf(_, _) =>
    case Node(l, r, _) =>
      EncodingTableKeys(l, code + "0", acc);
      EncodingTableKeys(r, code + "1", EncodingTable(l, code + "0", acc));
  }

  /**
   * Each entry of the table is either left as it was in `acc`, or is a
   * non-empty code extending `code` whose remainder is a path in `t` to a
   * leaf of that very symbol.
   */
  lemma {:induction false} EncodingTablePaths(t: Tree, code: seq<char>, acc: map<Byte, seq<char>>)
    requires code != [] || t.Node?
    ensures var m := EncodingTable(t, code, acc);
      forall s :: s in m ==>
        (s in acc && m[s] == acc[s]) ||
        (code <= m[s] && m[s] != [] && LeafAt(t, CodeBits(m[s][|code|..])) == Some(s))
  {
    var m := EncodingTable(t, code, acc);
    match t
    case Leaf(x, _) =>
      forall s | s in m && !(s in acc && m[s] == acc[s])
        ensures code <= m[s] && m[s] != [] && LeafAt(t, CodeBits(m[s][|code|..])) == Some(s)
      {
        assert s == x && m[s] == code;
        assert m[s][|code|..] == [];
      }
    case Node(l, r, _) =>
      var left := EncodingTable(l, code + "0", acc);
      EncodingTablePaths(l, code + "0", acc);
      EncodingTablePaths(r, code + "1", left);
      forall s | s in m && !(s in acc && m[s] == acc[s])
        ensures code <= m[s] && m[s] != [] && LeafAt(t, CodeBits(m[s][|code|..])) == Some(s)
      {
        if s in left && m[s] == left[s] {
          StepDown(t, code, '0', m[s]);
        } else {
          StepDown(t, code, '1', m[s]);
        }
      }
  }

  /**
   * A code that extends `code + [c]` and leads from child `c` of `t` to a
   * leaf leads there from `t` as well.
   */
  lemma StepDown(t: Tree, code: seq<char>, c: char, w: seq<char>)
    requires t.Node? && (c == '0' || c == '1')
    requires code + [c] <= w
    requires LeafAt(if c == '1' then t.r else t.l, CodeBits(w[|code| + 1..])).Some?
    ensures code < w
    ensures LeafAt(t, CodeBits(w[|code|..])) == LeafAt(if c == '1' then t.r else t.l, CodeBits(w[|code| + 1..]))
  {
    assert w[|code|] == c;
    assert w[|code|..][1..] == w[|code| + 1..];
    CodeBitsTail(w[|code|..]);
  }

  lemma CodeBitsTail(a: seq<char>)
    requires a != []
    ensures CodeBits(a)[1..] == CodeBits(a[1..])
  {
  }

  /**
   * The codes of a tree with an internal root: one entry per leaf symbol,
   * each a non-empty string that spells the root-to-leaf path of a leaf with
   * that symbol.
   */
  lemma CodesAreLeafPaths(root: Tree)
    requires root.Node?
    ensures forall s :: s in Codes(root) <==> Count(root, s) >= 1
    ensures forall s :: s in Codes(root) ==> Codes(root)[s] != [] && LeafAt(root, CodeBits(Codes(root)[s])) == Some(s)
  {
    EncodingTableKeys(root, "", map[]);
    EncodingTablePaths(root, "", map[]);
    forall s | s in Codes(root)
      ensures Codes(root)[s][0..] == Codes(root)[s]
    {
    }
  }

  /** A prefix of a code spells a prefix of its path. */
  lemma CodeBitsPrefix(a: seq<char>, b: seq<char>)
    requires a <= b
    ensures CodeBits(a) <= CodeBits(b)
  {
  }

  /**
   * The codes are prefix-free: the code of one symbol is a prefix of the code
   * of another only when the two symbols are the same.
   */
  lemma CodesPrefixFree(root: Tree, s: Byte, x: Byte)
    requires root.Node? && s in Codes(root) && x in Codes(root)
    requires Codes(root)[s] <= Codes(root)[x]
    ensures s == x
  {
    var table := Codes(root);
    CodesAreLeafPaths(root);
    CodeBitsPrefix(table[s], table[x]);
    LeafPathIsMaximal(root, CodeBits(table[s]), CodeBits(table[x]));
  }

  /**
   * With one symbol `s`, the root is `s`'s leaf beside the padding leaf of
   * symbol 0: `s` is coded "0" and 0 is coded "1", which for `s == 0`
   * replaces the "0" it was given first (huffman.cpp:155-160, 173-181).
   */
  lemma SingleSymbolCodes(s: Byte, f: nat)
    ensures s != 0 ==> Codes(Node(Leaf(s, f), Leaf(0, 0), f)) == map[s := "0", 0 := "1"]
    ensures s == 0 ==> Codes(Node(Leaf(s, f), Leaf(0, 0), f)) == map[0 := "1"]
  {
    var code: seq<char> := "";
    assert code + "0" == "0" && code + "1" == "1";
    assert EncodingTable(Leaf(s, f), "0", map[]) == map[s := "0"];
    assert EncodingTable(Leaf(0, 0), "1", map[s := "0"]) == map[s := "0"][0 := "1"];
  }
}

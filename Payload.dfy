/**
 * The payload of a compressed stream: every input byte replaced by its code
 * (huffman.cpp:272-274), and the decoding walk that turns the bits back into
 * bytes (huffman.cpp:341-352).
 */
module Payload {
  import opened Bits
  import opened Wrappers
  import opened BitStream
  import opened HuffmanTree
  import opened CodeTable

  /**
   * `encodingTable[byte]`: the code of `b`, or the empty string that
   * `operator[]` inserts for a byte without an entry.
   */
  function Lookup(table: map<Byte, seq<char>>, b: Byte): seq<char>
  {
    if b in table then table[b] else ""
  }

  /** The bits the encode loop writes for `data`: the codes of its bytes, in order. */
  function EncodePayload(data: seq<Byte>, table: map<Byte, seq<char>>): seq<bool>
  {
    if data == [] then []
    else EncodePayload(data[..|data| - 1], table) + CodeBits(Lookup(table, data[|data| - 1]))
  }

  /** The payload of `[b] + rest` starts with the code of `b`. */
  lemma {:induction false} EncodePayloadCons(b: Byte, rest: seq<Byte>, table: map<Byte, seq<char>>)
    ensures EncodePayload([b] + rest, table) == CodeBits(Lookup(table, b)) + EncodePayload(rest, table)
    decreases |rest|
  {
    var first := CodeBits(Lookup(table, b));
    if rest == [] {
      assert [b] + [] == [b] && [b][..0] == [] && [] + first == first + [];
    } else {
      var init, last := rest[..|rest| - 1], rest[|rest| - 1];
      ConsInit(b, rest);
      EncodePayloadCons(b, init, table);
      Assoc(first, EncodePayload(init, table), CodeBits(Lookup(table, last)));
    }
  }

  lemma ConsInit(b: Byte, rest: seq<Byte>)
    requires rest != []
    ensures ([b] + rest)[..|rest|] == [b] + rest[..|rest| - 1]
    ensures ([b] + rest)[|rest|] == rest[|rest| - 1]
  {
  }

  /** The payload of non-empty data starts with the code of its first byte. */
  lemma EncodePayloadFirst(data: seq<Byte>, table: map<Byte, seq<char>>)
    requires data != []
    ensures EncodePayload(data, table) == CodeBits(Lookup(table, data[0])) + EncodePayload(data[1..], table)
  {
    assert data == [data[0]] + data[1..];
    EncodePayloadCons(data[0], data[1..], table);
  }

  /** One more byte of input appends its code to the payload. */
  lemma EncodePayloadStep(data: seq<Byte>, table: map<Byte, seq<char>>, i: nat)
    requires i < |data|
    ensures EncodePayload(data[..i + 1], table) == EncodePayload(data[..i], table) + CodeBits(Lookup(table, data[i]))
  {
    assert data[..i + 1][..i] == data[..i];
  }

  /** `for (byte : data) writer.writeBits(encodingTable[byte])` (huffman.cpp:272-274). */
  method EncodeData(data: seq<Byte>, table: map<Byte, seq<char>>, w: BitWriter)
    requires w.Valid()
    modifies w
    ensures w.Valid() && w.Written() == old(w.Written()) + EncodePayload(data, table)
  {
    ghost var start := w.Written();
    for i := 0 to |data|
      invariant w.Valid()
      invariant w.Written() == start + EncodePayload(data[..i], table)
    {
      EncodeByte(data, table, i, w, start);
    }
    assert data[..|data|] == data;
  }

  /** One pass of the encode loop: the code of `data[i]` goes out after the codes of `data[..i]`. */
  method EncodeByte(data: seq<Byte>, table: map<Byte, seq<char>>, i: nat, w: BitWriter, ghost start: seq<bool>)
    requires i < |data| && w.Valid() && w.Written() == start + EncodePayload(data[..i], table)
    modifies w
    ensures w.Valid() && w.Written() == start + EncodePayload(data[..i + 1], table)
  {
    ghost var before := EncodePayload(data[..i], table);
    var code := Lookup(table, data[i]);
    w.WriteBits(code);
    EncodePayloadStep(data, table, i);
    Assoc(start, before, CodeBits(code));
  }

  /**
   * The decode loop (huffman.cpp:344-352) from node `cur`, cursor `p`, with
   * `out` emitted so far: while fewer than `n` bytes are out and no read has
   * gone past the end, read a bit and step right on 1, left on 0; on reaching
   * a leaf emit its symbol and start again from the root. A read past the end
   * yields 0 and the step it drives is still taken.
   */
  function DecodeRun(root: Tree, cur: Tree, s: seq<bool>, p: nat, n: nat, out: seq<Byte>): seq<Byte>
    requires root.Node? && cur.Node?
    decreases |s| + 1 - p
  {
    if |out| >= n || p > |s| then out
    else
      var next := if Bit(s, p) then cur.r else cur.l;
      if next.Leaf? then DecodeRun(root, root, s, p + 1, n, out + [next.sym])
      else DecodeRun(root, next, s, p + 1, n, out)
  }

  /** The decode loop never takes back what it has emitted, nor emits more than `n` bytes. */
  lemma {:induction false} DecodeRunExtends(root: Tree, cur: Tree, s: seq<bool>, p: nat, n: nat, out: seq<Byte>)
    requires root.Node? && cur.Node?
    ensures out <= DecodeRun(root, cur, s, p, n, out)
    ensures |out| <= n ==> |DecodeRun(root, cur, s, p, n, out)| <= n
    decreases |s| + 1 - p
  {
    if !(|out| >= n || p > |s|) {
      var next := if Bit(s, p) then cur.r else cur.l;
      if next.Leaf? {
        DecodeRunExtends(root, root, s, p + 1, n, out + [next.sym]);
      } else {
        DecodeRunExtends(root, next, s, p + 1, n, out);
      }
    }
  }

  /**
   * Walking a code from `cur` that leads to a leaf of symbol `x` emits `x`
   * and returns to the root, the cursor just past the code.
   */
  lemma {:induction false} Walk(root: Tree, cur: Tree, s: seq<bool>, p: nat, n: nat, out: seq<Byte>,
                                code: seq<bool>, x: Byte)
    requires root.Node? && cur.Node? && |out| < n
    requires code != [] && LeafAt(cur, code) == Some(x)
    requires p + |code| <= |s| && s[p..p + |code|] == code
    ensures DecodeRun(root, cur, s, p, n, out) == DecodeRun(root, root, s, p + |code|, n, out + [x])
    decreases |code|
  {
    assert s[p] == code[0];
    var next := if code[0] then cur.r else cur.l;
    if next.Node? {
      assert s[p + 1..p + |code|] == code[1..];
      Walk(root, next, s, p + 1, n, out, code[1..], x);
    }
  }

  /** The code of `b` in `table` is a non-empty path from `root` to a leaf of `b`. */
  ghost predicate LeadsTo(root: Tree, table: map<Byte, seq<char>>, b: Byte)
  {
    b in table && table[b] != [] && LeafAt(root, CodeBits(table[b])) == Some(b)
  }

  /**
   * Decoding the payload of `data`, with a table whose codes are root paths
   * to their symbols, emits exactly `data` and then stops on the count,
   * whatever bits follow.
   */
  lemma {:induction false} DecodePayload(root: Tree, table: map<Byte, seq<char>>, data: seq<Byte>,
                                         s: seq<bool>, p: nat, out: seq<Byte>, n: nat)
    requires root.Node? && n == |out| + |data|
    requires forall i :: 0 <= i < |data| ==> LeadsTo(root, table, data[i])
    requires BitsAt(s, p, EncodePayload(data, table))
    ensures DecodeRun(root, root, s, p, n, out) == out + data
    decreases |data|
  {
    if data == [] {
      assert out + data == out;
    } else {
      var m := DecodeFirst(root, table, data, s, p, out, n);
      DecodePayload(root, table, data[1..], s, m, out + [data[0]], n);
      AppendFirst(out, data);
    }
  }

  /**
   * The first step of DecodePayload: the code of the first byte is walked,
   * that byte is emitted, and the payload of the rest follows at `m`.
   */
  lemma DecodeFirst(root: Tree, table: map<Byte, seq<char>>, data: seq<Byte>,
                    s: seq<bool>, p: nat, out: seq<Byte>, n: nat) returns (m: nat)
    requires root.Node? && n == |out| + |data| && data != []
    requires forall i :: 0 <= i < |data| ==> LeadsTo(root, table, data[i])
    requires BitsAt(s, p, EncodePayload(data, table))
    ensures DecodeRun(root, root, s, p, n, out) == DecodeRun(root, root, s, m, n, out + [data[0]])
    ensures forall i :: 0 <= i < |data[1..]| ==> LeadsTo(root, table, data[1..][i])
    ensures BitsAt(s, m, EncodePayload(data[1..], table))
  {
    var code := FirstCode(root, table, data);
    var rest := EncodePayload(data[1..], table);
    SplitAt(s, p, code, rest);
    m := p + |code|;
    Walk(root, root, s, p, n, out, code, data[0]);
    LeadsToRest(root, table, data);
  }

  /** The payload of data whose bytes all have root paths starts with the path of the first byte. */
  lemma FirstCode(root: Tree, table: map<Byte, seq<char>>, data: seq<Byte>) returns (code: seq<bool>)
    requires data != [] && forall i :: 0 <= i < |data| ==> LeadsTo(root, table, data[i])
    ensures code != [] && LeafAt(root, code) == Some(data[0])
    ensures EncodePayload(data, table) == code + EncodePayload(data[1..], table)
  {
    assert LeadsTo(root, table, data[0]);
    code := CodeBits(table[data[0]]);
    EncodePayloadFirst(data, table);
  }

  lemma LeadsToRest(root: Tree, table: map<Byte, seq<char>>, data: seq<Byte>)
    requires data != [] && forall i :: 0 <= i < |data| ==> LeadsTo(root, table, data[i])
    ensures forall i :: 0 <= i < |data[1..]| ==> LeadsTo(root, table, data[1..][i])
  {
    forall i | 0 <= i < |data[1..]| ensures LeadsTo(root, table, data[1..][i]) {
      assert data[1..][i] == data[i + 1];
    }
  }

  lemma AppendFirst(out: seq<Byte>, data: seq<Byte>)
    requires data != []
    ensures out + [data[0]] + data[1..] == out + data
  {
    assert data == [data[0]] + data[1..];
  }

  /**
   * The decode loop of `decompress` (huffman.cpp:341-352), reading from
   * `reader` until `n` bytes are out or a read has run past the end.
   */
  method DecodeData(reader: BitReader, root: Tree, n: nat) returns (out: seq<Byte>)
    requires reader.Valid() && root.Node?
    modifies reader
    ensures reader.Valid()
    ensures out == DecodeRun(root, root, reader.Stream(), old(reader.cursor), n, [])
  {
    var current := root;
    var decodedBytes := 0;
    out := [];
    while decodedBytes < n && !reader.IsEOF()
      invariant reader.Valid() && current.Node? && decodedBytes == |out|
      invariant DecodeRun(root, current, reader.Stream(), reader.cursor, n, out)
             == DecodeRun(root, root, reader.Stream(), old(reader.cursor), n, [])
      decreases |reader.Stream()| + 1 - reader.cursor
    {
      var bit := reader.ReadBit();
      var next := if bit then current.r else current.l;
      if next.Leaf? {
        out := out + [next.sym];
        decodedBytes := decodedBytes + 1;
        current := root;
      } else {
        current := next;
      }
    }
  }
}

/**
 * The codec itself (huffman.cpp:111-368, without its file handling): a
 * compressed file is the magic "HUFF" followed by the tree header and the
 * payload, packed into bytes; the count of original bytes travels with it.
 */
module Codec {
  import opened Bits
  import opened Wrappers
  import opened BitStream
  import opened Frequency
  import opened HuffmanTree
  import opened CodeTable
  import opened TreeCodec
  import opened Payload
  import opened Paths

  /** "HUFF", the first four bytes of every compressed file. */
  const Magic: seq<Byte> := [72, 85, 70, 70]

  /** The check of huffman.cpp:321-326: the file starts with "HUFF". */
  predicate HasMagic(file: seq<Byte>)
  {
    |file| >= 4 && file[..4] == Magic
  }

  /** A compressed file, with the byte count its header carries. */
  datatype Compressed = Compressed(file: seq<Byte>, originalSize: nat)

  datatype Error = EmptyInput | InvalidMagic

  /**
   * The files the model decompresses: those without the magic, and those
   * whose tree header is read within `|bits| + 1` levels and has an internal
   * root. On headers that never end the source recurses without end, and on
   * a leaf root it follows a null child once the decode loop runs. Leaf-root
   * headers on which the source finishes with an empty file (the header read
   * ran past the end, or the stored size is 0) are excluded as well.
   */
  ghost predicate Decodable(c: Compressed)
  {
    HasMagic(c.file) ==>
      var s := Unpack(c.file[4..]);
      var header := DeserializeAt(s, 0, |s| + 1);
      header.Some? && header.value.0.Node?
  }

  /**
   * What `decompress` produces from `c`: InvalidMagic without the magic,
   * otherwise the tree read from the bits after it and the bytes the decode
   * loop emits from the bits after the tree.
   */
  ghost function DecompressSpec(c: Compressed): Result<seq<Byte>, Error>
    requires Decodable(c)
  {
    if !HasMagic(c.file) then Failure(InvalidMagic)
    else
      var s := Unpack(c.file[4..]);
      var header := DeserializeAt(s, 0, |s| + 1).value;
      Success(DecodeRun(header.0, header.0, s, header.1, c.originalSize, []))
  }

  /** The file `compress` writes for `data` with tree `root` and its codes. */
  function CompressedFile(data: seq<Byte>, root: Tree): Compressed
  {
    Compressed(Magic + PackBits(Serialize(root) + EncodePayload(data, Codes(root))), |data|)
  }

  /**
   * Decompressing what compress wrote gives back the original bytes, for any
   * tree with an internal root holding a leaf of every byte of the data:
   * the header reads back as the tree, each code walks to its byte, and the
   * count stops the loop before the padding.
   */
  lemma RoundTrip(data: seq<Byte>, root: Tree, c: Compressed)
    requires root.Node? && forall i :: 0 <= i < |data| ==> Count(root, data[i]) >= 1
    requires c == CompressedFile(data, root)
    ensures Decodable(c) && DecompressSpec(c) == Success(data)
  {
    FileLayout(data, root, c);
    LaidOutRoundTrip(data, root, c, PackBits(Serialize(root) + EncodePayload(data, Codes(root))));
  }

  /** RoundTrip for any file laid out as `compress` lays it out, `body` following the magic. */
  lemma LaidOutRoundTrip(data: seq<Byte>, root: Tree, c: Compressed, body: seq<Byte>)
    requires root.Node? && forall i :: 0 <= i < |data| ==> Count(root, data[i]) >= 1
    requires HasMagic(c.file) && c.originalSize == |data| && c.file[4..] == body
    requires body == PackBits(Serialize(root) + EncodePayload(data, Codes(root)))
    ensures Decodable(c) && DecompressSpec(c) == Success(data)
  {
    BodyRoundTrip(data, root, body);
    Decompressing(c, body, Erase(root), |Serialize(root)|, |data|, data);
  }

  /**
   * The bytes after the magic: the tree header reads back as the tree
   * without its weights, and the decode loop after it yields `data`.
   */
  lemma BodyRoundTrip(data: seq<Byte>, root: Tree, body: seq<Byte>)
    requires root.Node? && forall i :: 0 <= i < |data| ==> Count(root, data[i]) >= 1
    requires body == PackBits(Serialize(root) + EncodePayload(data, Codes(root)))
    ensures DeserializeAt(Unpack(body), 0, |Unpack(body)| + 1) == Some((Erase(root), |Serialize(root)|))
    ensures Erase(root).Node?
    ensures DecodeRun(Erase(root), Erase(root), Unpack(body), |Serialize(root)|, |data|, []) == data
  {
    HeaderReadsBack(root, EncodePayload(data, Codes(root)), body);
    DecodesData(data, root, Unpack(body), |Serialize(root)|);
  }

  /** Wherever the payload of `data` lies, the decode loop from there with the tree read back yields `data`. */
  lemma DecodesData(data: seq<Byte>, root: Tree, s: seq<bool>, n: nat)
    requires root.Node? && forall i :: 0 <= i < |data| ==> Count(root, data[i]) >= 1
    requires BitsAt(s, n, EncodePayload(data, Codes(root)))
    ensures Erase(root).Node?
    ensures DecodeRun(Erase(root), Erase(root), s, n, |data|, []) == data
  {
    CodesLeadToData(root, data);
    DecodePayload(Erase(root), Codes(root), data, s, n, [], |data|);
    assert [] + data == data;
  }

  /** A compressed file is the magic, then the packed header and payload. */
  lemma FileLayout(data: seq<Byte>, root: Tree, c: Compressed)
    requires c == CompressedFile(data, root)
    ensures HasMagic(c.file) && c.originalSize == |data|
    ensures c.file[4..] == PackBits(Serialize(root) + EncodePayload(data, Codes(root)))
  {
    assert c.file[..4] == Magic;
  }

  /** Once the header of a file with the magic has been read, decompressing is the decode loop after it. */
  lemma Decompressing(c: Compressed, body: seq<Byte>, tree: Tree, n: nat, size: nat, out: seq<Byte>)
    requires HasMagic(c.file) && tree.Node? && body == c.file[4..] && size == c.originalSize
    requires DeserializeAt(Unpack(body), 0, |Unpack(body)| + 1) == Some((tree, n))
    requires DecodeRun(tree, tree, Unpack(body), n, size, []) == out
    ensures Decodable(c)
    ensures DecompressSpec(c) == Success(out)
  {
  }

  /**
   * In the unpacked body of a compressed file the tree header reads back as
   * the tree without its weights, and the payload follows it.
   */
  lemma HeaderReadsBack(root: Tree, payload: seq<bool>, body: seq<Byte>)
    requires body == PackBits(Serialize(root) + payload)
    ensures DeserializeAt(Unpack(body), 0, |Unpack(body)| + 1) == Some((Erase(root), |Serialize(root)|))
    ensures BitsAt(Unpack(body), |Serialize(root)|, payload)
  {
    var header := Serialize(root);
    var bits := header + payload;
    var s := Unpack(body);
    UnpackPackBits(bits);
    PrefixAt(s, bits, Zeros(PadLen(|bits|)));
    SplitAt(s, 0, header, payload);
    HeightBound(root);
    DeserializeSerialize(s, 0, root, |s| + 1);
  }

  /** The codes of the tree lead, in the weightless tree read back, to the bytes of the data. */
  lemma CodesLeadToData(root: Tree, data: seq<Byte>)
    requires root.Node? && forall i :: 0 <= i < |data| ==> Count(root, data[i]) >= 1
    ensures Erase(root).Node?
    ensures forall i :: 0 <= i < |data| ==> LeadsTo(Erase(root), Codes(root), data[i])
  {
    var table := Codes(root);
    CodesAreLeafPaths(root);
    forall i | 0 <= i < |data|
      ensures LeadsTo(Erase(root), table, data[i])
    {
      LeafAtErase(root, CodeBits(table[data[i]]));
    }
  }

  /** A decompressed file is never longer than its header's count. */
  lemma DecompressBound(c: Compressed)
    requires Decodable(c) && DecompressSpec(c).Success?
    ensures |DecompressSpec(c).value| <= c.originalSize
  {
    var s := Unpack(c.file[4..]);
    var header := DeserializeAt(s, 0, |s| + 1).value;
    DecodeRunExtends(header.0, header.0, s, header.1, c.originalSize, []);
  }

  /** A file without the magic is refused, whatever follows. */
  lemma NoMagicRefused(c: Compressed)
    requires |c.file| >= 4 && c.file[..4] != Magic
    ensures Decodable(c) && DecompressSpec(c) == Failure(InvalidMagic)
  {
  }

  /**
   * The bit-writer part of `compress` (huffman.cpp:264-277): the tree header,
   * then the code of every byte, flushed into whole bytes.
   */
  method WriteBody(data: seq<Byte>, root: Tree, table: map<Byte, seq<char>>) returns (body: seq<Byte>)
    ensures body == PackBits(Serialize(root) + EncodePayload(data, table))
  {
    var writer := new BitWriter();
    SerializeTree(root, writer);
    EncodeData(data, table, writer);
    EmptyAppend(Serialize(root), EncodePayload(data, table));
    writer.Flush();
    body := writer.output;
  }

  /**
   * The output of `compress` (huffman.cpp:267-276) for data whose every byte
   * has a leaf in `root`: "HUFF", then the body the bit writer emits with the
   * tree's codes. It is the file `CompressedFile` describes, and it
   * decompresses back to `data`.
   */
  method WriteFile(data: seq<Byte>, root: Tree, table: map<Byte, seq<char>>) returns (c: Compressed)
    requires root.Node? && table == Codes(root)
    requires forall i :: 0 <= i < |data| ==> Count(root, data[i]) >= 1
    ensures c == CompressedFile(data, root)
    ensures Decodable(c) && DecompressSpec(c) == Success(data)
  {
    var body := WriteBody(data, root, table);
    c := Compressed(Magic + body, |data|);
    RoundTrip(data, root, c);
  }

  /**
   * The bit-reader part of `decompress` (huffman.cpp:331-352) on a file with
   * the magic: the tree read from the bits after the magic, then the decode
   * loop over the bits after the tree, which together are the specified
   * decompression.
   */
  method ReadBody(c: Compressed) returns (tree: Tree, out: seq<Byte>)
    requires HasMagic(c.file) && Decodable(c)
    ensures var s := Unpack(c.file[4..]);
      tree == DeserializeAt(s, 0, |s| + 1).value.0
    ensures DecompressSpec(c) == Success(out)
  {
    var reader := new BitReader(c.file[4..]);
    tree := DeserializeTree(reader, |reader.Stream()| + 1);
    out := DecodeData(reader, tree, c.originalSize);
  }

  /**
   * `HuffmanCodec` (huffman.cpp:111-368): the tree, the code table and the
   * frequency table of the last run. The tree pointer starts out null.
   */
  class HuffmanCodec {
    var root: Option<Tree>
    var encodingTable: map<Byte, seq<char>>
    var frequencyTable: map<Byte, nat>

    constructor ()
      ensures root == None && encodingTable == map[] && frequencyTable == map[]
    {
      root, encodingTable, frequencyTable := None, map[], map[];
    }

    /**
     * `compress` (huffman.cpp:221-294) on the bytes of the input file:
     * EmptyInput and no output name for an empty file; otherwise the tables
     * and tree are rebuilt from `data`, the file written is "HUFF", the tree
     * header and the codes of the bytes, flushed, and decompresses back to
     * `data`, and its name is the input's stem with ".huff".
     */
    method Compress(inputFile: string, data: seq<Byte>) returns (r: Result<Compressed, Error>, outputFile: string)
      modifies this
      ensures data == [] ==> r == Failure(EmptyInput) && outputFile == "" && unchanged(this)
      ensures data != [] ==> outputFile == CompressedName(inputFile)
      ensures data != [] ==>
        r.Success? && root.Some? && root.value.Node? &&
        (forall b :: b in frequencyTable <==> b in data) &&
        (forall b :: b in frequencyTable ==> frequencyTable[b] == multiset(data)[b]) &&
        root.value.w == |data| &&
        encodingTable == Codes(root.value) &&
        r.value == CompressedFile(data, root.value) &&
        Decodable(r.value) && DecompressSpec(r.value) == Success(data)
    {
      if |data| == 0 {
        return Failure(EmptyInput), "";
      }
      var freq := BuildFrequencyTable(data);
      assert data[0] in freq.Keys;
      var tree := BuildHuffmanTree(freq);
      var table := Codes(tree);
      assert forall i :: 0 <= i < |data| ==> data[i] in freq;
      var file := WriteFile(data, tree, table);
      r := Success(file);
      frequencyTable, root, encodingTable := freq, Some(tree), table;
      outputFile := CompressedName(inputFile);
    }

    /**
     * `decompress` (huffman.cpp:296-368) on a compressed file: InvalidMagic
     * and no output name without the magic; otherwise the tree is read into
     * `root` and the decode loop's output is returned under the name
     * RestoredName gives, the rule the comment at huffman.cpp:301 states
     * rather than the test written below it (RestoredNameAsWritten).
     */
    method Decompress(inputFile: string, c: Compressed) returns (r: Result<seq<Byte>, Error>, outputFile: string)
      requires Decodable(c)
      modifies this
      ensures r == DecompressSpec(c)
      ensures outputFile == if r.Success? then RestoredName(inputFile) else ""
      ensures encodingTable == old(encodingTable) && frequencyTable == old(frequencyTable)
      ensures !HasMagic(c.file) ==> root == old(root)
      ensures HasMagic(c.file) ==>
        var s := Unpack(c.file[4..]);
        root == Some(DeserializeAt(s, 0, |s| + 1).value.0)
    {
      if !HasMagic(c.file) {
        return Failure(InvalidMagic), "";
      }
      var tree, out := ReadBody(c);
      root := Some(tree);
      r := Success(out);
      outputFile := RestoredName(inputFile);
    }
  }
}

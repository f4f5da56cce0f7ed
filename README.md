# Huffman codec, modelled in Dafny

A model of the Huffman compressor in `huffman.cpp` and proofs about it.
`compress` counts the bytes of a file and builds a Huffman tree by repeatedly
merging two of the lightest nodes. It then derives a table of codes ('0' for
a step left, '1' for a step right) and writes "HUFF", the original size, the
tree in pre-order and the code of every byte. Bits are packed most
significant bit first and the last byte is padded with zeros. `decompress`
checks the magic and reads the tree back. It then walks the tree bit by bit
until it has emitted the original number of bytes or runs out of bits.

The headline theorem is `Codec.RoundTrip`: decompressing the file that
`compress` writes gives back the original bytes, for every non-empty input.

Modules, one file each:

- `Wrappers`: Option and Result.
- `Bits`: bytes as eight bits, MSB first. `PackBits` gives the bytes a flushed writer emits. `Unpack` gives the bits a reader delivers.
- `BitStream`: the `BitWriter` and `BitReader` classes. Each is proved against `PackBits`/`Unpack` and the pure reader functions `Bit` and `BitsFrom`.
- `Frequency`: `buildFrequencyTable`.
- `HuffmanTree`: the tree datatype and `buildHuffmanTree`. Its priority queue is a sequence, and any node of least weight may be taken out.
- `CodeTable`: `generateEncodingTable`.
- `TreeCodec`: `serializeTree` and `deserializeTree`.
- `Payload`: the encode loop and the decode loop of `compress` and `decompress`.
- `Codec`: the `HuffmanCodec` class with `Compress` and `Decompress`, and the round trip.
- `Paths`: `getFileName`, `removeExtension` and the output names of both operations.

## Model

| member | source | states |
|---|---|---|
| Bits.CodeBits | huffman.cpp:61-63 | the definition of the bits of a code, one per character, 1 exactly for '1'; that `writeBits` appends them is stated by `BitStream.BitWriter.WriteBits` |
| Bits.CodeBitsAppend | huffman.cpp:179-180 | the bits of a code extended by a character are the old bits and then that character's bit |
| Bits.NatToBitsAt | huffman.cpp:65-67 | bit `i` of the MSB-first spelling of a byte is `(byte >> (7 - i)) & 1`, the bit `writeByte` writes at step `i` |
| Bits.BitsToNatToBits | huffman.cpp:102-106 | folding the eight bits of a byte MSB first, as `readByte` does, gives the byte back |
| Bits.NatToBitsToNat | huffman.cpp:196-199 | spelling out the value of eight bits gives those bits back, so a leaf's symbol bits are determined by the symbol |
| Bits.SetBitValue | huffman.cpp:51 | the bit that `buffer |= 1 << (7 - bitCount)` sets is clear beforehand, so the `|=` is an addition of `2^(7-bitCount)` when the bit is 1, and it leaves the buffer as the pending bits followed by the new one, zero-filled |
| Bits.PadLen | huffman.cpp:69-71 | a flush pads with fewer than eight zero bits, up to a whole byte, and pads nothing exactly when no bits are pending |
| Bits.ChunkAppend | huffman.cpp:54-55 | the bytes of two whole-byte bit strings are the bytes of the first and then those of the second |
| Bits.UnpackChunk | huffman.cpp:87-100 | unpacking the bytes of a whole-byte bit string gives that bit string back |
| Bits.UnpackPackBits | huffman.cpp:50-71 | the bytes a flushed writer emitted unpack to the bits written, then fewer than eight zero bits |
| Bits.ByteRoundTrip | huffman.cpp:94-97 | a byte fetched by the reader is delivered as its eight bits, most significant first |
| Bits.UnpackAt | huffman.cpp:94-98 | bit `j` of byte `i` is at position `8 * i + j` of the unpacked stream |
| Bits.PackBits | huffman.cpp:50-71 | the bytes a writer emits up to its flush: the bits written, zero-padded to whole bytes, eight bits per byte MSB first; `Bits.UnpackPackBits` and `BitStream.BitWriter.Flush` state what they are |
| Bits.Unpack | huffman.cpp:87-100 | the bits a reader delivers from its bytes, eight per byte MSB first; `Bits.UnpackAt` places each bit and `Bits.UnpackPackBits` undoes `PackBits` |
| BitStream.BitsFromBound | huffman.cpp:102-106 | `readByte` yields a value below 256 |
| BitStream.BitsFromInRange | huffman.cpp:102-106 | within the source, `readByte` yields the MSB-first value of the next eight bits |
| BitStream.Bit | huffman.cpp:87-100 | the value of the `p`-th `readBit` call: the bit at `p`, or 0 past the end; `BitStream.BitReader.ReadBit` is proved against it |
| BitStream.BitsFrom | huffman.cpp:102-106 | the value of `readByte`, `k` reads folded MSB first; `BitStream.BitsFromInRange` and `BitStream.BitsFromBound` state what it is |
| BitStream.NextBuffer | huffman.cpp:51-53 | after a bit is set the buffer is still a byte, and it holds the pending bits plus the new one, zero-filled |
| BitStream.EmitByte | huffman.cpp:54-58 | emitting a full buffer appends exactly the byte those eight bits spell |
| BitStream.FlushBytes | huffman.cpp:69-71 | the bytes after a flush are the whole bytes, then, only if bits are pending, those bits padded with zeros |
| BitStream.ReadBackBits | huffman.cpp:87-100 | a reader over the flushed writer's bytes delivers the written bits in order, then the padding, then 0 for every read past the end |
| BitStream.ReadBackByte | huffman.cpp:102-106 | `readByte` after `writeByte(b)` yields `b` |
| BitStream.BitWriter.constructor | huffman.cpp:47-48 | a new writer has nothing written, nothing emitted and an empty buffer |
| BitStream.BitWriter.WriteBit | huffman.cpp:50-59 | the bit is appended to what was written, `totalBits` grows by one, `bitCount` wraps from 7 to 0, and one byte is emitted exactly on the eighth bit |
| BitStream.BitWriter.SetNextBit | huffman.cpp:51-53 | the bit joins the pending bits, and `bitCount` and `totalBits` grow by one |
| BitStream.BitWriter.EmitBuffer | huffman.cpp:54-58 | a full buffer is emitted as the byte of its eight bits, and the writer starts a fresh byte |
| BitStream.BitWriter.WriteBits | huffman.cpp:61-63 | the bits of the code are appended in order |
| BitStream.BitWriter.WriteByte | huffman.cpp:65-67 | the eight bits of the byte are appended, most significant first |
| BitStream.BitWriter.Flush | huffman.cpp:69-71 | one more byte is emitted exactly when bits are pending, all the bytes emitted are `PackBits` of everything written, and the buffer and its count are left as they were |
| BitStream.BitReader.constructor | huffman.cpp:84-85 | a new reader is at the start of its source, without end-of-file |
| BitStream.BitReader.ReadBit | huffman.cpp:87-100 | the bit under the cursor, or 0 past the end, and the end-of-file flag is set exactly when the read was past the end |
| BitStream.BitReader.ReadByte | huffman.cpp:102-106 | eight reads folded MSB first |
| BitStream.BitReader.IsEOF | huffman.cpp:108 | true exactly when some read has gone past the last bit of the source |
| Frequency.SumFromUpdate | huffman.cpp:143 | changing one count changes the sum of the counts by the same amount |
| Frequency.TotalUpdate | huffman.cpp:143 | one `frequencyTable[byte]++` raises the total by one |
| Frequency.CountStep | huffman.cpp:143 | one increment turns the table of `data` into the table of `data + [byte]`, and the total grows by one |
| Frequency.BuildFrequencyTable | huffman.cpp:141-144 | the keys are exactly the bytes of the data, each counted as often as it occurs, and the counts sum to the data's length |
| HuffmanTree.LeafPathIsMaximal | huffman.cpp:173-181 | a path that ends at a leaf is a prefix of no other path into the tree |
| HuffmanTree.LeafAtErase | huffman.cpp:195-205 | the weights a decoded tree lacks play no part in finding a leaf |
| HuffmanTree.QueueCountRemove | huffman.cpp:164-165 | popping a node takes its leaves out of the queue |
| HuffmanTree.QueueWeightRemove | huffman.cpp:164-165 | popping a node takes its weight out of the queue's total |
| HuffmanTree.MinimumExists | huffman.cpp:164 | a non-empty queue has an element of least weight for `top()` to return |
| HuffmanTree.MergeTotals | huffman.cpp:163-168 | a pop-pop-push step keeps the queue's leaves and total weight |
| HuffmanTree.MergeShape | huffman.cpp:166 | the pushed parent has two children and weighs their sum, and the leaves keep their table counts |
| HuffmanTree.MergeStep | huffman.cpp:163-168 | a pop-pop-push step keeps the queue invariant |
| HuffmanTree.PushLeaf | huffman.cpp:151-153 | pushing the leaf of one more table entry keeps the initialisation invariant |
| HuffmanTree.InitDone | huffman.cpp:151-153 | after the first loop the queue holds one leaf per table entry |
| HuffmanTree.LastNode | huffman.cpp:170 | the last node is a consistent tree holding each table symbol in exactly one leaf, and its weight is the total count |
| HuffmanTree.OnlyLeaf | huffman.cpp:155-157 | with one table entry the queue holds that entry's leaf |
| HuffmanTree.InitialQueue | huffman.cpp:151-153 | one leaf per table entry, weighted by its count |
| HuffmanTree.MergeQueue | huffman.cpp:163-170 | the merge loop ends with one internal node that holds the whole table |
| HuffmanTree.BuildHuffmanTree | huffman.cpp:146-171 | the root is internal and consistent and weighs the total count. With one symbol it is that symbol's leaf beside a weight-0 leaf of symbol 0. Otherwise each table symbol is in exactly one leaf, weighted by its count, and no other symbol occurs |
| CodeTable.EncodingTableKeys | huffman.cpp:173-181 | the table gains exactly the symbols of the tree's leaves |
| CodeTable.EncodingTablePaths | huffman.cpp:173-181 | every new entry is a non-empty code extending the current prefix, whose rest is the path to a leaf of that symbol |
| CodeTable.StepDown | huffman.cpp:179-180 | a path that leads to a leaf from one child also leads there from the parent, one step longer |
| CodeTable.CodesAreLeafPaths | huffman.cpp:255-256 | the table has an entry exactly for each leaf symbol, and each entry is a non-empty root-to-leaf path to that symbol |
| CodeTable.CodesPrefixFree | huffman.cpp:173-181 | no code is a prefix of the code of another symbol |
| CodeTable.SingleSymbolCodes | huffman.cpp:155-160 | with one symbol `s`, `s` is coded "0" and the padding symbol 0 "1", and for `s == 0` the "1" overwrites the "0" |
| CodeTable.EncodingTable | huffman.cpp:173-181 | the table `generateEncodingTable` fills from a node and a prefix; `CodeTable.EncodingTableKeys` and `CodeTable.EncodingTablePaths` state which keys it adds and that each code is the prefix followed by a leaf path |
| CodeTable.Codes | huffman.cpp:255-256 | the table built from the root with an empty prefix after `clear()`; `CodeTable.CodesAreLeafPaths` and `CodeTable.CodesPrefixFree` state that it is a prefix-free code of root-to-leaf paths |
| TreeCodec.SerializeLength | huffman.cpp:183-193 | the header costs 9 bits per leaf and 1 per internal node |
| TreeCodec.Serialize | huffman.cpp:183-193 | the pre-order header: 1 and eight symbol bits per leaf, 0 then both subtrees per node; `TreeCodec.DeserializeSerialize` proves reading it back gives the tree without weights |
| TreeCodec.DeserializeAt | huffman.cpp:195-205 | the tree `deserializeTree` reads from position `p` and the position after it, within `fuel` levels of recursion; `TreeCodec.DeserializeReadsSerialize` proves what it reads is a serialization |
| TreeCodec.HeightBound | huffman.cpp:195-205 | a tree is shallower than its header is long, which bounds the recursion of `deserializeTree` |
| TreeCodec.EraseWeight | huffman.cpp:199 | a decoded tree weighs nothing, since its leaves are made with frequency 0 |
| TreeCodec.LeafSlices | huffman.cpp:196-199 | a serialized leaf reads back as a 1 tag and its symbol |
| TreeCodec.LeafBits | huffman.cpp:196-199 | a 1 tag and eight bits read back spell a serialized leaf |
| TreeCodec.NodeBits | huffman.cpp:200-203 | a 0 tag is followed by the bits of the two subtrees |
| TreeCodec.NodeSlices | huffman.cpp:188-192 | a serialized node is a 0 tag, then the left subtree, then the right subtree |
| TreeCodec.DeserializeNode | huffman.cpp:200-203 | a 0 tag followed by two trees reads as the node over them, its weight their sum |
| TreeCodec.DeserializeSerialize | huffman.cpp:183-205 | reading back a serialized tree rebuilds its shape and symbols with weight 0, and consumes exactly the bits written |
| TreeCodec.DeserializeReadsSerialize | huffman.cpp:195-205 | conversely, a tree read within the source is weightless, and the bits it consumed are its serialization |
| TreeCodec.DeserializeAdvances | huffman.cpp:195-205 | reading a tree always consumes bits |
| TreeCodec.SerializeTree | huffman.cpp:183-193 | the writer receives exactly the serialization of the tree |
| TreeCodec.DeserializeTree | huffman.cpp:195-205 | the tree and the cursor after it are those of the pure reading from where the reader stood |
| Payload.EncodePayloadCons | huffman.cpp:272-274 | the payload of a byte followed by more data is that byte's code, then the payload of the rest |
| Payload.Lookup | huffman.cpp:273 | the code `encodingTable[byte]` yields, empty for a byte without an entry |
| Payload.EncodePayload | huffman.cpp:272-274 | the codes of the bytes in order; `Payload.DecodePayload` proves the decode loop turns them back into the bytes |
| Payload.EncodePayloadFirst | huffman.cpp:272-274 | the payload of non-empty data starts with the code of its first byte |
| Payload.EncodePayloadStep | huffman.cpp:272-274 | one more byte of input appends its code |
| Payload.EncodeData | huffman.cpp:272-274 | the writer receives the codes of all bytes, in order |
| Payload.EncodeByte | huffman.cpp:273 | one pass appends the code of the current byte after the codes of the earlier ones |
| Payload.DecodeRunExtends | huffman.cpp:344-352 | the decode loop never takes back what it has emitted and never emits more than the count |
| Payload.DecodeRun | huffman.cpp:344-352 | the output of the decode loop from a node and a cursor; `Payload.DecodeRunExtends`, `Payload.Walk` and `Payload.DecodePayload` state what it emits |
| Payload.Walk | huffman.cpp:345-351 | walking a code that leads to a leaf emits that leaf's symbol and returns to the root just past the code |
| Payload.DecodeFirst | huffman.cpp:344-351 | decoding the payload first emits the first byte, and the payload of the rest lies just past its code |
| Payload.LeadsToRest | huffman.cpp:272-274 | the rest of the data still has codes that lead to its bytes |
| Payload.DecodePayload | huffman.cpp:341-352 | decoding the payload of the data, with codes that are root paths, emits exactly the data and stops on the count whatever bits follow |
| Payload.DecodeData | huffman.cpp:341-352 | the loop emits what the pure decode run emits from the reader's position |
| Codec.RoundTrip | huffman.cpp:251-352 | the file `compress` writes for non-empty data is decodable, and decompressing it gives the data back |
| Codec.LaidOutRoundTrip | huffman.cpp:321-352 | any file with the magic and then the packed header and payload decompresses to the data |
| Codec.BodyRoundTrip | huffman.cpp:331-352 | in the bytes after the magic the header reads back as the tree, and the decode loop after it yields the data |
| Codec.DecodesData | huffman.cpp:341-352 | wherever the payload lies, the decode loop from there with the tree read back yields the data |
| Codec.FileLayout | huffman.cpp:267-276 | a compressed file is the magic, then the packed header and payload, with the data's length as its count |
| Codec.Decompressing | huffman.cpp:321-352 | once the header of a file with the magic is read, decompressing is the decode loop after it |
| Codec.HeaderReadsBack | huffman.cpp:331-332 | the tree header reads back as the tree without weights, and the payload follows it |
| Codec.CodesLeadToData | huffman.cpp:255-256 | each byte of the data has a code that leads, in the tree read back, to that byte |
| Codec.DecompressBound | huffman.cpp:344 | decompressing never yields more bytes than the stored count |
| Codec.NoMagicRefused | huffman.cpp:321-326 | a file without the magic is refused, whatever follows |
| Codec.HasMagic | huffman.cpp:321-326 | the file starts with the four bytes "HUFF"; `Codec.NoMagicRefused` states what happens without them |
| Codec.Decodable | huffman.cpp:331-352 | the files the model decompresses: without the magic, or with a tree header read within `|bits| + 1` levels and an internal root |
| Codec.DecompressSpec | huffman.cpp:321-352 | InvalidMagic without the magic, otherwise the bytes the decode loop emits after the tree header; `Codec.RoundTrip` and `Codec.DecompressBound` state what they are |
| Codec.CompressedFile | huffman.cpp:267-276 | "HUFF", then the packed tree header and codes of the data, with the data's length as the size; `Codec.RoundTrip` proves it decompresses to the data |
| Codec.WriteBody | huffman.cpp:265-276 | the writer emits the packed tree header followed by the codes of the data |
| Codec.WriteFile | huffman.cpp:267-276 | the file written is "HUFF" followed by the writer's bytes, i.e. `CompressedFile` of the data and tree, and it decompresses back to the data |
| Codec.ReadBody | huffman.cpp:331-352 | on a file with the magic, the reader yields the tree read after the magic and then bytes that are exactly the specified decompression of the file |
| Codec.HuffmanCodec.constructor | huffman.cpp:111-115 | a fresh codec has no tree and empty tables |
| Codec.HuffmanCodec.Compress | huffman.cpp:221-294 | empty input is refused and changes nothing. Otherwise the frequency table is that of the data, the tree weighs the data's length, and the code table is the tree's codes. The file written decompresses to the data, and its name is the input's stem with ".huff" |
| Codec.HuffmanCodec.Decompress | huffman.cpp:296-368 | the result is the specified decompression: refused without the magic, otherwise the tree read is stored and the decoded bytes are returned, under the corrected restored name |
| Paths.FindLastOf | huffman.cpp:119 | the last position holding one of the given characters, or none exactly when no position does |
| Paths.GetFileName | huffman.cpp:118-124 | the longest end of the path without a separator |
| Paths.RemoveExtension | huffman.cpp:127-133 | the name up to its last dot, or the whole name when it has no dot |
| Paths.NoSeparatorName | huffman.cpp:118-124 | a name without separators is its own file name |
| Paths.GetFileNameIdempotent | huffman.cpp:118-124 | taking the file name twice changes nothing |
| Paths.RemoveExtensionAppend | huffman.cpp:127-133 | stripping a dot-free extension after a dot gives back the stem |
| Paths.HuffExtension | huffman.cpp:225 | stripping ".huff" gives back the stem |
| Paths.CompressedName | huffman.cpp:223-225 | the compressed name ends in ".huff" and has no separator |
| Paths.CompressedNameStem | huffman.cpp:298-299 | the compressed name is its own file name, and stripping its extension gives the original stem |
| Paths.RestoredNameAsWritten | huffman.cpp:298-304 | as written, "_restored" is appended exactly when the stem is longer than five characters (one char per byte of the name) and does not itself end in ".huff"; the definition of the test as written, whose consequence for real names `Paths.RestoredNamesOfPlainFile` states |
| Paths.RestoredNamesOfPlainFile | huffman.cpp:298-304 | for a plain `stem.ext` file compressed to `stem.huff`, the code as written appends "_restored" by the stem's length alone, and the corrected rule gives back `stem` |
| Paths.RestoredName | huffman.cpp:300-304 | corrected: the stem of the file name, with "_restored" appended exactly when the name does not end in ".huff"; the definition of the corrected rule, whose consequence for compressed names `Paths.RestoredCompressedName` states |
| Paths.RestoredCompressedName | huffman.cpp:298-304 | corrected: restoring any name `compress` chose gives back the stem of the original file name |

## Left out

- `main` (huffman.cpp:370-425): the console menu, and its auto-detection of the operation from the extension, is interactive I/O.
- File handling: `fileExists`, opening, reading and closing streams, and their error messages. The input of `compress` is a byte sequence and a file name, and its output is the `Compressed` value returned and the name chosen for it.
- Timing, `formatBytes` and the compression ratio: these are clock and floating-point reporting.
- The `size_t` size header that `compress` writes after the magic and `decompress` reads back with `reinterpret_cast`. It is the `originalSize` field of `Compressed`, beside the file's bytes, so the packed bits follow the magic directly in the model.
- `shared_ptr` ownership and the null checks of `generateEncodingTable` and `serializeTree`: the tree is an inductive datatype and is never shared.
- Frequency counts are `unsigned int` in the source and unbounded here. Their wrap-around above 2^32 - 1 occurrences is not modelled.
- Malformed compressed files. `HuffmanCodec.Decompress` requires `Decodable`: with the magic present, the tree header must be read within `|bits| + 1` levels and have an internal root. On headers that never end the source recurses without end, and on a leaf root it follows a null child once the decode loop runs. `Decodable` also excludes leaf-root headers on which the source finishes without running the loop and writes an empty file: those where the header read runs past the end, as the bytes `[255]` after the magic do, or the stored size is 0. `deserializeTree` is a function with that much fuel.
- A file shorter than four bytes: the source compares partly uninitialised memory with "HUFF". The model refuses it as `InvalidMagic`.
- Optimality of the code lengths is not proved. The order in which equally light nodes leave the priority queue is left open, as the source's heap and hash map leave it.
- `encodingTable[byte]` for a byte without an entry inserts that key with an empty code and writes nothing for it. `Payload.Lookup` models the empty code but not the insertion into `encodingTable`. Neither happens for the data the table was built from, whose every byte has an entry, so `HuffmanCodec.Compress` still leaves the table equal to the tree's codes.
- `getTotalBits` (huffman.cpp:73) is a plain read of `totalBits`, whose value `WriteBit` states.
- Paths.RestoredNameAsWritten, and every file name in `Paths`: names are `string`, and each char stands for one byte of the source's `std::string`, so the length test of `Paths.RestoredNameAsWritten` (huffman.cpp:302) counts bytes only for names whose characters are single bytes. A name with a character that takes several bytes in UTF-8, such as "abc€.huff", has a longer byte length in the source than its char length here; such names are not modelled.
- HuffmanCodec.Decompress names its output by the corrected rule `Paths.RestoredName` (the rule the comment at huffman.cpp:301 states), not by the test at huffman.cpp:302-304: for "report.huff" it gives "report" where the source gives "report_restored". The source's name is `Paths.RestoredNameAsWritten`, and the difference is recorded under "## Findings".

## Findings

| source | as written | input that shows it | evidently intended | confidence | as-written member | corrected member |
|---|---|---|---|---|---|---|
| huffman.cpp:300-304 | the comment says the suffix is added when the original extension is not ".huff", but the test is on the name after its extension was stripped, and only when that name is longer than five characters | "report.huff", written by `compress` for "report.txt", is restored as "report_restored", while "data.huff", written for "data.txt", is restored as "data"; both carry the ".huff" extension (`Paths.RestoredNamesOfPlainFile`) | "_restored" is appended exactly when the name being decompressed does not end in ".huff", so restoring a compressed name gives back the original stem (`Paths.RestoredCompressedName`) | medium, not executed | Paths.RestoredNameAsWritten | Paths.RestoredName |

# Huffman compressor engine, modelled in Dafny

This project models the in-memory engine of coderodde's HuffmanCompressor. The engine has eight parts:

- **ByteCountComputer** counts byte occurrences.
- **HuffmanTree** builds a Huffman tree from a weight map and reads a code map off its root-to-leaf paths.
- **HuffmanEncoder** concatenates code words.
- **HuffmanDecoder** walks the bits with an accumulator.
- **HuffmanSerializer** writes the compressed byte layout: signature, two little-endian counts, five-byte table entries and the packed text.
- **HuffmanDeserializer** reads a byte layout back.
- **BitString** and **ByteList** are the two growable buffers underneath.

The model has one Dafny module per Java class, plus shared modules for results (`Wrappers`), bytes and bit arithmetic (`Bytes`), and code maps (`Codes`).

Modelling choices:

- **Buffers.** Both buffers are modelled at storage level: the backing array, its capacity and the size. Each operation is proved to behave like the corresponding operation on the abstract value. For `BitString` that value is the first `size` stored bits. For `ByteList` it is the first `size` bytes.
- **Code words.** Everywhere outside `BitStrings`, code words are `seq<bool>` values compared bit by bit.
- **Exceptions.** Every exception of the source is an `Err` of the `Result` type. The exceptions modelled are `IllegalArgumentException`, `IllegalStateException`, `IndexOutOfBoundsException`, `NegativeArraySizeException`, `NullPointerException` and `InvalidFileFormatException`.
- **Map iteration order.** Java map iteration order is unspecified. Where the output depends on it, the order is an explicit parameter: `order` in the serializer. Where a loop picks an arbitrary entry, the model uses a `:|` choice: `InvertEncoderMap` and `InitialQueue`.

Proved properties:

- With code words compared by value, the decoder inverts the encoder for every prefix code.
- The tree's code map is prefix-free and covers the text.
- With code words compared by value, counting, encoding and decoding compose to the identity on every non-empty text.
- The serializer's header reads back through the deserializer's signature check and count readers. The serializer's table and payload are proved to sit at their own layout positions. They do not read back through the deserializer, whose table format differs.
- Reading a table written in code-word form returns its entries and stops right after it.
- The payload offset the deserializer computes equals the end of the table walk exactly when the table's byte values are distinct.

## Model

| member | source | states |
|---|---|---|
| Bytes.Ceil8 | src/main/java/net/coderodde/compression/huffman/BitString.java:135-137 | the byte count for n bits is the least r with 8r >= n, and is zero only for zero bits |
| Bytes.PackByte | src/main/java/net/coderodde/compression/huffman/BitString.java:146-149 | bit k of the packed byte, least significant first, is the k-th of the eight bits packed |
| Bytes.UnpackPackByte | src/main/java/net/coderodde/compression/huffman/HuffmanDeserializer.java:141-153 | reading the first n bits, least significant first, of a byte packed from eight bits gives back the first n of those bits |
| Bytes.LE32RoundTrip | src/main/java/net/coderodde/compression/huffman/HuffmanSerializer.java:60-63 | reading back the four bytes written for an int gives it modulo 2^32, and gives a non-negative 32-bit value unchanged |
| Bytes.LE32ReadBack | src/main/java/net/coderodde/compression/huffman/HuffmanDeserializer.java:67-81 | any four bytes are the writer's bytes of the value the reader assembles from them |
| BitStrings.LongsFor | src/main/java/net/coderodde/compression/huffman/BitString.java:64-65 | the number of longs is the least whose 64 bits cover the requested bits |
| BitStrings.New | src/main/java/net/coderodde/compression/huffman/BitString.java:48-51 | a new bit string is valid, empty and has capacity 128 |
| BitStrings.Copy | src/main/java/net/coderodde/compression/huffman/BitString.java:59-68 | the copy is valid, holds the same bits and has room for them |
| BitStrings.EnsureCapacity | src/main/java/net/coderodde/compression/huffman/BitString.java:203-219 | growth keeps the bits and the stored prefix, reaches the requested capacity, never shrinks, and changes nothing when there is room |
| BitStrings.AppendBit | src/main/java/net/coderodde/compression/huffman/BitString.java:70-74 | the bits afterwards are the bits before followed by the new bit |
| BitStrings.AppendBitsFrom | src/main/java/net/coderodde/compression/huffman/BitString.java:91-98 | the bits afterwards are this string's bits followed by the other's, and the capacity covers both |
| BitStrings.ReadBit | src/main/java/net/coderodde/compression/huffman/BitString.java:166-188 | succeeds exactly for an index inside the string, with the bit at that index; an empty string fails with IllegalState, an index outside a non-empty one with IndexOutOfBounds |
| BitStrings.RemoveLastBit | src/main/java/net/coderodde/compression/huffman/BitString.java:114-121 | fails with IllegalState exactly on an empty string; otherwise drops the last bit and leaves the storage untouched |
| BitStrings.Clear | src/main/java/net/coderodde/compression/huffman/BitString.java:126-128 | the string becomes empty and keeps its storage |
| BitStrings.NumberOfBytesOccupied | src/main/java/net/coderodde/compression/huffman/BitString.java:135-137 | the least number of bytes whose bits hold all the bits |
| BitStrings.ToByteArray | src/main/java/net/coderodde/compression/huffman/BitString.java:139-153 | as many bytes as are occupied, and bit j of the string is bit j mod 8 of byte j/8 |
| BitStrings.AppendThenRemove | src/main/java/net/coderodde/compression/huffman/BitString.java:114-121 | removing the bit just appended gives back the same bits |
| BitStrings.StalePaddingBit | src/main/java/net/coderodde/compression/huffman/BitString.java:139-153 | after appending 1, 1 and removing the last bit, the string 1 packs to the byte 3: padding bits carry stale storage |
| ByteLists.New | src/main/java/net/coderodde/compression/huffman/ByteList.java:16-18 | a new list is empty over an array of eight bytes |
| ByteLists.WithCapacity | src/main/java/net/coderodde/compression/huffman/ByteList.java:20-22 | succeeds exactly for a non-negative capacity, with an empty list over that many bytes; fails with NegativeArraySize otherwise |
| ByteLists.EnsureCapacity | src/main/java/net/coderodde/compression/huffman/ByteList.java:33-40 | growth keeps the contents and the array prefix, grows to the larger of the request and twice the length, and changes nothing when there is room |
| ByteLists.AppendByte | src/main/java/net/coderodde/compression/huffman/ByteList.java:24-27 | the contents afterwards are the contents before followed by the byte, and a list with room keeps its array length |
| ByteLists.AppendAllContents | src/main/java/net/coderodde/compression/huffman/ByteList.java:24-31 | appending bytes one by one and taking the array gives exactly the earlier contents followed by those bytes, whatever the growth |
| ByteLists.AppendAllInPlace | src/main/java/net/coderodde/compression/huffman/ByteList.java:33-40 | a list with room for all appended bytes never reallocates |
| ByteCounts.ComputeCharacterWeights | src/main/java/net/coderodde/compression/huffman/ByteCountComputer.java:22-37 | the keys are exactly the bytes of the text, each count is the byte's number of occurrences and at least one, the counts sum to the text length, and an empty text gives an empty map |
| HuffmanTrees.MakeLeaf | src/main/java/net/coderodde/compression/huffman/HuffmanTree.java:27-35 | a leaf is built exactly for a strictly positive weight; otherwise IllegalArgument |
| HuffmanTrees.Merge | src/main/java/net/coderodde/compression/huffman/HuffmanTree.java:42-58 | the merged node weighs the sum, has the two inputs as children with the lighter on the left and node2 on the left on a tie, and carries the leaves of both |
| HuffmanTrees.Build | src/main/java/net/coderodde/compression/huffman/HuffmanTree.java:76-97 | succeeds exactly for a non-empty map of positive weights; the tree then has each key on exactly one leaf with its weight, and every internal weight is the sum of its children's |
| HuffmanTrees.InitialQueue | src/main/java/net/coderodde/compression/huffman/HuffmanTree.java:84-88 | fails with IllegalArgument exactly when some weight is not positive; otherwise the queue holds only leaves, one per key, each with that key's weight |
| HuffmanTrees.MergeAll | src/main/java/net/coderodde/compression/huffman/HuffmanTree.java:90-96 | the last node left is a weighted tree over the weight map carrying exactly the leaves of the queue |
| HuffmanTrees.MergeStep | src/main/java/net/coderodde/compression/huffman/HuffmanTree.java:91-93 | removing two lightest nodes and adding their merge shrinks the queue by one; the new node's children are the two removed nodes, every other node stays, and the queue keeps its leaves and its well-formedness |
| HuffmanTrees.PathMapShape | src/main/java/net/coderodde/compression/huffman/HuffmanTree.java:115-135 | the paths are keyed by exactly the leaf bytes, each extends the current path, and strictly so below an internal node |
| HuffmanTrees.PathMapPrefixFree | src/main/java/net/coderodde/compression/huffman/HuffmanTree.java:115-135 | with distinct leaf bytes, no leaf's path is a prefix of another's |
| HuffmanTrees.InferImpl | src/main/java/net/coderodde/compression/huffman/HuffmanTree.java:115-135 | the shared builder ends holding the bits it started with, and the map gains each leaf's path |
| HuffmanTrees.InferEncodingMap | src/main/java/net/coderodde/compression/huffman/HuffmanTree.java:99-113 | one non-empty code word per leaf byte, prefix-free for distinct leaves; a single leaf gets the word 0 |
| HuffmanTrees.BuiltTreeCode | src/main/java/net/coderodde/compression/huffman/HuffmanTree.java:76-135 | the code of a built tree is a prefix code keyed by exactly the weight map's keys |
| HuffmanEncoder.Encode | src/main/java/net/coderodde/compression/huffman/HuffmanEncoder.java:22-33 | succeeds exactly when every byte has a code word, with the sum of their lengths; a missing word is a NullPointer failure |
| HuffmanEncoder.EncodeAppend | src/main/java/net/coderodde/compression/huffman/HuffmanEncoder.java:26-30 | the encoding of a concatenation is the concatenation of the encodings |
| HuffmanEncoder.EncodeToBitString | src/main/java/net/coderodde/compression/huffman/HuffmanEncoder.java:22-33 | the loop over a bit string builder yields exactly the encoding, or NullPointer when a byte has no code word |
| HuffmanDecoder.Walk | src/main/java/net/coderodde/compression/huffman/HuffmanDecoder.java:30-38 | the walk never emits more bytes than there are bits |
| HuffmanDecoder.InvertEncoderMap | src/main/java/net/coderodde/compression/huffman/HuffmanDecoder.java:43-53 | the keys are exactly the code words, each mapped to a byte that has it as its word; for an injective map this is the inverse |
| HuffmanDecoder.Decode | src/main/java/net/coderodde/compression/huffman/HuffmanDecoder.java:23-41 | with code words compared by value: the output has at most as many bytes as bits, is empty for no bits, and is the walk over the inverse map |
| HuffmanDecoder.DecodeWith | src/main/java/net/coderodde/compression/huffman/HuffmanDecoder.java:26-40 | the loop with byte list and accumulator yields exactly the walk |
| HuffmanDecoder.DecodeStep | src/main/java/net/coderodde/compression/huffman/HuffmanDecoder.java:30-38 | one loop pass keeps the output so far followed by the walk of the rest unchanged |
| HuffmanDecoder.DecodeEncode | src/main/java/net/coderodde/compression/huffman/HuffmanDecoder.java:30-38 | for a prefix code with non-empty words and any decoder map that inverts it, reading the encoding of a text followed by further bits gives the text, then what those bits read as; with no further bits, decoding undoes encoding |
| HuffmanDecoder.DecodeInverseEncode | src/main/java/net/coderodde/compression/huffman/HuffmanDecoder.java:23-41 | with the map `decode` inverts from a prefix code, decoding the encoding of a text gives the text |
| HuffmanDecoder.DecodeDropsTrailingBits | src/main/java/net/coderodde/compression/huffman/HuffmanDecoder.java:30-38 | with a decoder map that inverts a prefix code, a proper prefix of a code word after an encoded text is dropped without error |
| HuffmanDecoder.ReferenceWalkEmitsNothing | src/main/java/net/coderodde/compression/huffman/HuffmanDecoder.java:32 | when the lookup compares references, an accumulator that is not a key emits nothing, whatever the bits |
| HuffmanDecoder.ReferenceLookupLosesText | src/main/java/net/coderodde/compression/huffman/HuffmanDecoder.java:30-35 | for the text 65 under the code {65: 0}, the reference lookup decodes nothing while the value lookup decodes the text |
| HuffmanSerializer.EntriesLayout | src/main/java/net/coderodde/compression/huffman/HuffmanSerializer.java:72-84 | the i-th five bytes of the table are the i-th byte value in iteration order and its frequency |
| HuffmanSerializer.Serialize | src/main/java/net/coderodde/compression/huffman/HuffmanSerializer.java:47-94 | the output has 12 bytes of header, five per map entry and the bytes occupied by the encoded text |
| HuffmanSerializer.SerializeHeader | src/main/java/net/coderodde/compression/huffman/HuffmanSerializer.java:52-69 | the output starts with the signature, then reads back the number of entries and the number of bits modulo 2^32 |
| HuffmanSerializer.SerializeTable | src/main/java/net/coderodde/compression/huffman/HuffmanSerializer.java:72-84 | byte 12 + 5i is the i-th byte value and the four after it read back its frequency modulo 2^32 |
| HuffmanSerializer.SerializePayload | src/main/java/net/coderodde/compression/huffman/HuffmanSerializer.java:86-91 | after the header and table comes exactly the packed encoded text |
| HuffmanSerializer.AppendEntries | src/main/java/net/coderodde/compression/huffman/HuffmanSerializer.java:72-84 | the entry loop appends exactly the table, in place |
| HuffmanSerializer.SerializeToList | src/main/java/net/coderodde/compression/huffman/HuffmanSerializer.java:47-102 | the byte list of the computed size receives exactly the serialized bytes and ends exactly full |
| HuffmanDeserializer.CheckSignature | src/main/java/net/coderodde/compression/huffman/HuffmanDeserializer.java:53-65 | passes exactly when the data has at least four bytes and starts with the signature; fails with InvalidFileFormat otherwise |
| HuffmanDeserializer.ExtractNumberOfCodeWords | src/main/java/net/coderodde/compression/huffman/HuffmanDeserializer.java:67-81 | succeeds exactly with eight bytes or more, with the 32-bit value whose little-endian bytes are bytes 4 to 7 |
| HuffmanDeserializer.ExtractNumberOfEncodedTextBits | src/main/java/net/coderodde/compression/huffman/HuffmanDeserializer.java:161-176 | succeeds exactly with twelve bytes or more, with the value whose little-endian bytes are bytes 8 to 11 |
| HuffmanDeserializer.ReadEntry | src/main/java/net/coderodde/compression/huffman/HuffmanDeserializer.java:94-116 | succeeds exactly when the byte value and a length byte L below 0x80 are there and, for L > 0, the ceil(L/8) code bytes follow; the entry is then that byte value with L bits, bit j being bit j mod 8 of code byte j/8, and the cursor moves past the 2 + ceil(L/8) bytes; any failure is InvalidFileFormat |
| HuffmanDeserializer.ReadTableEntries | src/main/java/net/coderodde/compression/huffman/HuffmanDeserializer.java:93-117 | a successful walk reads exactly the requested number of entries, and entry k is the entry read at the byte where entry k - 1 ended, the first one at the cursor |
| HuffmanDeserializer.ReadTableCursor | src/main/java/net/coderodde/compression/huffman/HuffmanDeserializer.java:93-117 | the walk ends at the cursor plus the bytes its entries take, inside the data, and every word read is shorter than 0x80 |
| HuffmanDeserializer.ExtractEncoderMap | src/main/java/net/coderodde/compression/huffman/HuffmanDeserializer.java:83-123 | succeeds exactly for a count below 2^31 whose table walk from byte 12 succeeds; any failure is InvalidFileFormat |
| HuffmanDeserializer.ExtractEncoderMapContent | src/main/java/net/coderodde/compression/huffman/HuffmanDeserializer.java:83-123 | when the walk from byte 12 reads a list of entries, the map holds exactly their byte values, each with the code word of its last entry |
| HuffmanDeserializer.ReadTableMapSize | src/main/java/net/coderodde/compression/huffman/HuffmanDeserializer.java:83-123 | the encoder map has at most as many keys as entries were read |
| HuffmanDeserializer.PutAllLastWins | src/main/java/net/coderodde/compression/huffman/HuffmanDeserializer.java:112 | the map holds each byte value of the entries with the word of its last entry, and keeps every other key |
| HuffmanDeserializer.PutAllCost | src/main/java/net/coderodde/compression/huffman/HuffmanDeserializer.java:132-134 | the bytes counted over the map are at most the bytes the entries take, and equal exactly when every put adds a new key |
| HuffmanDeserializer.PayloadOffsetMatchesCursor | src/main/java/net/coderodde/compression/huffman/HuffmanDeserializer.java:128-137 | the computed payload offset is at most the end of the table walk, and equal to it exactly when the table's byte values are distinct |
| HuffmanDeserializer.RepeatedByteShiftsPayload | src/main/java/net/coderodde/compression/huffman/HuffmanDeserializer.java:132-134 | two entries for one byte value take six table bytes but count three in the offset |
| HuffmanDeserializer.ExtractEncodedText | src/main/java/net/coderodde/compression/huffman/HuffmanDeserializer.java:125-159 | succeeds exactly when the bit count fits a non-negative int and its bytes lie after the offset; bit j is bit j mod 8 of payload byte j/8 |
| HuffmanDeserializer.Deserialize | src/main/java/net/coderodde/compression/huffman/HuffmanDeserializer.java:40-51 | succeeds exactly when the data has at least twelve bytes starting with the signature, extractEncoderMap succeeds for the header's entry count and extractEncodedText succeeds with that map and the header's bit count; a success has the map that extractEncoderMap builds for the header's entry count (so at most that many keys), and the bits that extractEncodedText reads with that map and the header's bit count; every failure is InvalidFileFormat |
| HuffmanDeserializer.DeserializedBits | src/main/java/net/coderodde/compression/huffman/HuffmanDeserializer.java:125-159 | the payload of a deserialized text lies inside the data, and bit j of the text is bit j mod 8 of byte j/8 after the offset computed from the map |
| HuffmanDeserializer.SerializedHeaderReads | src/main/java/net/coderodde/compression/huffman/HuffmanDeserializer.java:53-81 | the serializer's output passes the signature check and its counts read back as the entry count and the bit count modulo 2^32 |
| HuffmanDeserializer.PackingRoundTrip | src/main/java/net/coderodde/compression/huffman/HuffmanDeserializer.java:141-153 | unpacking the bytes of toByteArray gives back exactly the bits |
| HuffmanDeserializer.PayloadReadBack | src/main/java/net/coderodde/compression/huffman/HuffmanDeserializer.java:125-159 | a packed bit string placed at the payload offset is read back exactly |
| HuffmanDeserializer.PackWordUnpacks | src/main/java/net/coderodde/compression/huffman/HuffmanDeserializer.java:99-110 | a code word packed with zero padding unpacks to itself |
| HuffmanDeserializer.ReadWrittenEntry | src/main/java/net/coderodde/compression/huffman/HuffmanDeserializer.java:94-116 | an entry written in code-word form, anywhere in the data, is read back with the cursor just after it |
| HuffmanDeserializer.ReadWrittenTable | src/main/java/net/coderodde/compression/huffman/HuffmanDeserializer.java:93-117 | a table written in code-word form, anywhere in the data, is read back entry by entry in order |
| HuffmanDeserializer.ReadTableInverse | src/main/java/net/coderodde/compression/huffman/HuffmanDeserializer.java:88-117 | from byte 12 on, the walk over a written table returns its entries and stops right after it |
| HuffmanPipeline.CountWeights | src/main/java/net/coderodde/compression/huffman/ByteCountComputer.java:22-37 | the counts of a text are positive weights for exactly its bytes, and empty only for an empty text |
| HuffmanPipeline.TreeCodeCovers | src/main/java/net/coderodde/compression/huffman/HuffmanTree.java:99-135 | the code of the tree built from a text's weights is a prefix code with a word for every byte of the text |
| HuffmanPipeline.CompressDecompress | src/test/java/net/coderodde/compression/huffman/BruteCodingTest.java:23-60 | with code words compared by value, counting, building, encoding and decoding give back every non-empty text; an empty text fails with IllegalArgument |

## Left out

- `App.java` is not part of this model: it handles file I/O, the command line and timing.
- `CharacterWeightComputer` is not part of this model. It computes float frequencies, and the model uses the integer counts of `ByteCountComputer` as weights.
- HuffmanTrees.Build: weights are integers, not Java `float`s. The `NaN` check has no counterpart, and float rounding of summed weights is not modelled.
- HuffmanTrees.MergeAll: it does not state that the code is optimal. It does not fix which of several equally light nodes the priority queue removes, because `PriorityQueue` leaves that to its implementation.
- HuffmanPipeline.CompressDecompress: it skips the serialize and deserialize steps of `BruteCodingTest`. The serializer writes five-byte weight entries while the deserializer reads code-word entries, so a serialized map does not read back as a code map. The two formats are modelled separately, with a round trip proved for each:
  - `HuffmanSerializer` with `SerializeHeader`, `SerializeTable` and `SerializePayload`;
  - `HuffmanDeserializer` with `ReadTableInverse` and `PayloadReadBack`.
- HuffmanSerializer.ComputeByteListSize: sizes are unbounded integers. The Java `int` overflow of sizes past 2^31 is not modelled, here and in `BitString` and `ByteList`.
- HuffmanSerializer.Serialize: Java map iteration order is the explicit parameter `order`, not a particular `HashMap` or `TreeMap` order.
- HuffmanDeserializer.ReadEntry: a length byte of 0x80 or more is a negative Java `byte`. The Java loop then runs until its `int` counter wraps around, and the model treats that as the failure it is on any input shorter than 2^28 bytes. A count of 2^31 or more is handled the same way in `ExtractEncoderMap` and `ExtractEncodedText`.
- HuffmanDeserializer.Deserialize: the bits are read first and the bit string is then built from them with `FromBits`, which replays the `new BitString()` and `appendBit` loop of `extractEncodedText`. The reads and the appends run in two passes rather than one loop; the result is the same, since an out-of-bounds read fails the whole call.
- BitStrings.ToByteArray: the padding bits of the last byte are not promised to be zero. The code copies whatever the storage holds there, and `StalePaddingBit` shows a non-zero padding bit.
- BitStrings.EnsureCapacity and ByteLists.EnsureCapacity: amortised cost is not modelled, only the resulting sizes.
- `BitString.toString` is not modelled. It only formats output.

## Findings

| source | as written | input that shows it | evidently intended | confidence | as-written member | corrected member |
|---|---|---|---|---|---|---|
| src/main/java/net/coderodde/compression/huffman/HuffmanDecoder.java:32 | `decoderMap.get(bitAccumulator)` looks up a `HashMap` keyed by `BitString`, which defines neither `equals` nor `hashCode`, so keys compare by reference and the decoder's own accumulator never matches | the text `[65]` encoded with the code `{65: 0}` decodes to the empty text | look up the accumulator by its bits, so every code word read is found | not executed | HuffmanDecoder.ReferenceLookupLosesText | HuffmanDecoder.DecodeEncode |

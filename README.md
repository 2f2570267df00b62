# HZipper Huffman codec, modelled in Dafny

HZipper (`hzipper.py`) compresses a file with Huffman coding. It works in five steps:

1. It counts the bytes of the text (`genFreq`).
2. It builds a code tree. Leaves are kept in a list sorted by frequency (`insertByFreq`), and the two front nodes are merged until one node is left (`recHuffAlgorithm`, `buildTree`).
3. It writes the tree as a preorder bit string, packed into bytes (`traverse`, `writeBits`, `writeTree`).
4. It derives a codebook from the tree (`genCodeBook`, `recCB`) and encodes the text with it (`encode`).
5. It writes one byte holding the encoding's length modulo 8, then the packed encoding (`hzip`).

Decompression reverses these steps (`readTree`, `treeFromTraversal`, `readBits`, `decode`, `unzip`).

In the model, files are byte sequences and bits are booleans. A code tree is the datatype
`Tree = Leaf(freq, sym) | Node(freq, left, right)`. The modules are:

- `Common`: bytes, errors, `Result` and `Option`.
- `BitStream`: `writeBits`, `readBits` and the bit arithmetic they use.
- `Frequency`: `genFreq`.
- `HuffmanTree`: `insertByFreq`, `recHuffAlgorithm`, `buildTree` and `isLeaf`.
- `Serialization`: `traverse` and `treeFromTraversal`.
- `Codebook`: `genCodeBook` and `recCB`.
- `Codec`: `encode` and `decode`.
- `Container`: `writeTree`, `readTree`, `hzip` and `unzip`.

Each loop of the program is a method. Its `ensures` equates the result to a specification function, and lemmas state what the program promises about that function:

- round trips (bits, tree encoding, codes, whole files);
- sortedness and the tie-break of the insertion;
- the frequency sums of the tree;
- prefix-freeness of the codes;
- the length arithmetic of the file format.

Two behaviours of the program break the naive round trip. The model proves them as written, then proves the round trip for a corrected reading (see "## Findings").

## Model

| member | source | states |
|---|---|---|
| BitStream.Pack | hzipper.py:76-95 | writeBits emits ceil(n/8) bytes for n bits, and none for no bits |
| BitStream.ExpandPack | hzipper.py:76-95 | the bytes writeBits emits hold the bits most significant first, followed by zero padding up to a whole byte |
| BitStream.FullByte | hzipper.py:87-90 | once 8 bits are shifted in, the byte is below 256 and is the next packed byte, and the next byte starts empty |
| BitStream.LastByte | hzipper.py:91-95 | the last partial byte shifted left by 8 - bits is below 256 and completes the packing of all the bits |
| BitStream.WriteBits | hzipper.py:76-95 | the shift-and-count loop emits exactly Pack(bools) |
| BitStream.PackChunk | hzipper.py:87-95 | a full byte or the final partial byte shifted left by 8 - bits appends exactly one packed byte |
| BitStream.AppendByteBits | hzipper.py:221-226 | the mask loop appends the eight bits of a byte, most significant first |
| BitStream.BitAndPow2 | hzipper.py:110 | `byte & mask == mask` with mask = 2^j holds exactly when bit j of byte is set |
| BitStream.ValueOfBitsOf | hzipper.py:193-198 | reading back the bits of a byte gives the byte |
| BitStream.BitsOfValueOf | hzipper.py:193-198 | the bits of the value of eight bits are those bits |
| BitStream.Unpack | hzipper.py:99-119 | readBits keeps a prefix of the expanded bits; for non-empty data and remainder ≤ 8 its length is 8·len(data) − 8 + remainder; empty data gives nothing |
| BitStream.SliceEnd | hzipper.py:117 | the end of Python's s[:stop] never passes the list's end, and is stop itself when 0 ≤ stop ≤ len(s) |
| BitStream.ReadBits | hzipper.py:99-119 | the byte and mask loops return exactly Unpack(data, remainder) |
| BitStream.UnpackPack | hzipper.py:99-119 | readBits with remainder len % 8 inverts writeBits when len % 8 ≠ 0 |
| BitStream.UnpackPackFullByte | hzipper.py:117 | with remainder 0, a non-empty message of whole bytes loses its last 8 bits |
| BitStream.FullByteCounterexample | hzipper.py:117 | eight one-bits written and read back with remainder 0 give nothing |
| BitStream.UnpackPackWhole | hzipper.py:99-119 | the default remainder 8 returns the bits and their zero padding |
| BitStream.UnpackIntendedPack | hzipper.py:36 | with the writer's count len % 8, reading 0 as a full last byte inverts writeBits for every message |
| Frequency.GenFreq | hzipper.py:205-212 | the table's keys are exactly the bytes of the text, each mapped to its positive count |
| Frequency.CountsSumToLength | hzipper.py:205-212 | the counts of the distinct bytes sum to the text's length |
| Frequency.EnumerationSize | hzipper.py:179 | the table has at most 256 keys, and none exactly when the text is empty |
| HuffmanTree.IsLeaf | hzipper.py:268-269 | isLeaf holds exactly for a node without children; its contract is stated by IsLeafCounts |
| HuffmanTree.IsLeafCounts | hzipper.py:268-269 | a node without children is exactly a subtree with no internal node, and exactly one with a single byte |
| HuffmanTree.InternalCountFromLeaves | hzipper.py:248 | a binary tree has one internal node fewer than leaves |
| HuffmanTree.FirstAtLeast | hzipper.py:255-257 | the scan stops at the first node whose frequency is at least x's, past only smaller ones |
| HuffmanTree.InsertedSorted | hzipper.py:254-258 | insertion keeps the list sorted by frequency |
| HuffmanTree.InsertedPosition | hzipper.py:254-258 | for every x and list, x lands where the scan stops, and removing it gives back the other nodes in their original order |
| HuffmanTree.InsertedTieBreak | hzipper.py:255-257 | x goes in front of every node whose frequency is at least its own, equal ones included |
| HuffmanTree.InsertedSums | hzipper.py:254-258 | insertion adds x's frequency, internal nodes and bytes to the list and loses none, as a permutation |
| HuffmanTree.InsertByFreq | hzipper.py:254-258 | the scan-then-insert loop returns Inserted(x, nodes) |
| HuffmanTree.Merged | hzipper.py:246-250 | popping the two front nodes and inserting their merge shortens the list by one |
| HuffmanTree.MergedFreq | hzipper.py:246-250 | merging the two front nodes keeps the list's total frequency |
| HuffmanTree.MergedInternal | hzipper.py:246-250 | merging the two front nodes adds one internal node |
| HuffmanTree.MergedSymbols | hzipper.py:246-250 | merging the two front nodes keeps the multiset of leaf bytes |
| HuffmanTree.MergedWellWeighted | hzipper.py:248-249 | the merged node's frequency is the sum of its children's, so every node of the list stays well weighted |
| HuffmanTree.MergedPosition | hzipper.py:246-250 | the merged node has the first popped node as its left child and the second as its right; it lands where the scan over the rest stops, and the rest keep their order |
| HuffmanTree.MergedSorted | hzipper.py:246-250 | the merged list stays sorted |
| HuffmanTree.Huffman | hzipper.py:242-252 | repeated merging leaves exactly one node from a non-empty list, and none from an empty one |
| HuffmanTree.HuffmanFacts | hzipper.py:242-252 | merging keeps total frequency and leaf bytes, performs len(nodes) − 1 merges and keeps every node well weighted |
| HuffmanTree.RecHuffAlgorithm | hzipper.py:242-252 | the recursive merge returns Huffman(nodes) |
| HuffmanTree.InitialListFacts | hzipper.py:179-181 | the leaf list is sorted, its leaf bytes are exactly the listed bytes, and its frequencies sum to their counts |
| HuffmanTree.InitialListLeaves | hzipper.py:179-181 | every node of the list is a leaf whose frequency is its own byte's count |
| HuffmanTree.BuildTree | hzipper.py:175-183 | counting, inserting and merging give BuiltTree(text, order), and an empty text fails at nodes[0] |
| HuffmanTree.BuiltTreeFacts | hzipper.py:175-183 | a tree exists exactly for a non-empty text; every internal frequency is the sum of its children's; the root holds len(text); there is one leaf per distinct byte and one merge fewer than leaves; the root is a leaf exactly for one distinct byte |
| Serialization.TreeBits | hzipper.py:214-230 | the preorder encoding of a subtree starts with 1 exactly at a leaf and holds at least the 9 bits of one leaf |
| Serialization.TreeBitsLength | hzipper.py:214-230 | the preorder encoding has 9 bits per leaf and 1 per internal node |
| Serialization.Traverse | hzipper.py:214-230 | traverse appends TreeBits(x) to toWrite |
| Serialization.TreeBitsErase | hzipper.py:214-230 | frequencies are not written |
| Serialization.ParseTree | hzipper.py:187-203 | parsing consumes at least one bit, and the tree it returns has frequency 0 at its root |
| Serialization.ParseTreeBits | hzipper.py:187-203 | parsing the encoding of a tree followed by anything returns the tree (frequencies dropped) and exactly what followed |
| Serialization.ParseTreeTruncated | hzipper.py:188-195 | every proper prefix of an encoding runs out of bits and fails |
| Serialization.ReadByte | hzipper.py:191-198 | the eight-bit loop returns the byte the bits spell, most significant first |
| Serialization.TreeFromTraversal | hzipper.py:187-203 | the recursive pops return ParseTree(bits) |
| Codebook.RecCB | hzipper.py:232-240 | recCB visits the left subtree before the right, extending the path with False and True; its contract is stated by RecCBCodes |
| Codebook.GenCodeBook | hzipper.py:166-173 | genCodeBook gives a leaf root the code [True] and otherwise runs recCB on both children from an empty map; its contract is stated by CodeBookKeys, CodeBookPaths and CodeBookPrefixFree |
| Codebook.RecCBCodes | hzipper.py:232-240 | recCB gives every byte of the subtree a code that extends path to its leaf, and keeps every other entry |
| Codebook.CodeBookKeys | hzipper.py:166-173 | exactly the tree's bytes have codes, and a leaf root gets [True] |
| Codebook.CodeBookPaths | hzipper.py:166-173 | below a root with two children every code is the non-empty root-to-leaf path of its byte (False left, True right) |
| Codebook.LeafPathsPrefixFree | hzipper.py:232-240 | one path to a leaf is never a prefix of another |
| Codebook.CodeBookPrefixFree | hzipper.py:166-173 | no code is a prefix of another byte's code |
| Codebook.CodeBookErase | hzipper.py:164-173 | the tree read back from a file has the codebook of the tree written |
| Codec.Encoded | hzipper.py:122-127 | encoding succeeds exactly when every byte has a code, and otherwise reports a byte without one |
| Codec.EncodedPrefixErr | hzipper.py:124-125 | the first failing lookup decides the outcome |
| Codec.Encode | hzipper.py:122-127 | the lookup loop returns Encoded(text, codebook) |
| Codec.RunStep | hzipper.py:133-141 | one pass of decode's loop (emit at a leaf and restart at the root, then step left or right) keeps the emitted bytes plus the bytes still to come |
| Codec.Decode | hzipper.py:130-144 | the walk returns Decoded(bitstring, root) |
| Codec.WalkCode | hzipper.py:133-141 | reading a code from the root walks to its leaf, emits the byte and restarts at the root |
| Codec.DecodeEncode | hzipper.py:122-144 | for a root with two children, decode(encode(text)) == text |
| Codec.DecodeLeafRoot | hzipper.py:133-143 | with a leaf root, n bits decode to n + 1 copies of its byte |
| Codec.EncodedLeafRoot | hzipper.py:122-127 | with a leaf root every byte is coded as the single bit True |
| Codec.SingleLeafCounterexample | hzipper.py:133-143 | one byte coded with a leaf root decodes to two copies |
| Codec.DecodeEncodeIntended | hzipper.py:137 | decoding with one byte per bit at a leaf root inverts encoding for every tree |
| Container.Uint16LE | hzipper.py:158-162 | the two bytes of '<H' are the low byte and then the high byte |
| Container.CeilBytes | hzipper.py:155-157 | Nbytes is the ceiling of the bit count divided by 8 |
| Container.CeilBytesPack | hzipper.py:155-159 | the written byte count equals the number of packed bytes |
| Container.WriteTree | hzipper.py:152-159 | writeTree writes WrittenTree(t): the count, then the packed tree |
| Container.WrittenTreeFits | hzipper.py:155-159 | a Huffman tree over at most 256 bytes fits in at most 320 bytes, so the 2-byte count never overflows |
| Container.ReadCount | hzipper.py:101-104 | f.read(n) takes n bytes when they are there, the rest otherwise, and everything for n = 0 |
| Container.ReadTree | hzipper.py:161-164 | readTree returns TreeFromFile(data) |
| Container.ReadWrittenTree | hzipper.py:152-164 | a written tree reads back (frequencies dropped), leaving exactly what follows it |
| Container.HZip | hzipper.py:27-37 | hzip writes Compressed(text, order) |
| Container.CompressedOk | hzipper.py:28-37 | compression succeeds exactly for a non-empty text |
| Container.CompressedParts | hzipper.py:28-35 | every byte of the text has a code, and the root has two children exactly for two or more distinct bytes |
| Container.BuiltTreeLeaves | hzipper.py:175-183 | the built tree has one leaf per distinct byte, among them every byte of the text, and its root is a leaf exactly for one distinct byte, holding that byte |
| Container.EncodedLength | hzipper.py:122-127 | with a root with two children, the encoding has at least one bit per byte |
| Container.Unzip | hzipper.py:55-72 | unzip returns Decompressed(data) |
| Container.DecompressCompressed | hzipper.py:17-72 | unzip of hzip decodes the read-back encoding with the read-back tree |
| Container.RoundTrip | hzipper.py:17-72 | for two or more distinct bytes and an encoding that does not fill its last byte, unzip(hzip(text)) == text |
| Container.FullByteLoss | hzipper.py:36 | an encoding that fills its last byte decompresses without its last 8 bits |
| Container.FullByteCounterexampleFile | hzipper.py:36 | the text 0,0,0,0,1,1,1,1 compresses to a file that decompresses to nothing |
| Container.SingleSymbol | hzipper.py:133-143 | a text of one distinct byte decompresses to len + 1 copies, or len − 7 when len is a multiple of 8 |
| Container.RoundTripIntended | hzipper.py:5 | with both corrections, unzip(hzip(text)) == text for every non-empty text |

## Left out

- Opening, reading and closing files and URLs (hzipper.py:19-25, 50-51, 57-59, 71-72): the files are byte sequences, `f.read` takes from a sequence and `f.write` appends to one.
- The compression ratio and its print (hzipper.py:39-48): floating point and file positions.
- The command-line interface (hzipper.py:271-285) and the commented-out test code after it.
- The iteration order of the frequency dictionary is not determined by the program: it is the parameter `order`, required to list each distinct byte of the text once.
- `struct.pack`/`struct.unpack` appear only as conversions: a byte to an integer in 0..255, and 2-byte little-endian for the tree length. `struct.pack('<H', n)` failing for n > 65535 is the error `TreeTooLarge`; `WrittenTreeFits` shows it cannot happen for a tree built by `buildTree`.
- Python lists and dictionaries mutated in place (`nodes.insert`, `nodes.pop(0)`, `bits.pop(0)`, `CB[c] = path`, `toWrite.append`) are values returned by the model. Nothing else holds a reference to them, so no aliasing is lost.
- Python's `&` and `>>` are defined digit by digit on natural numbers (`BitAnd`, `ShiftRight`). The mask loop of readBits and traverse (hzipper.py:108-115 and 222-226) is the one method `AppendByteBits`, which uses both as written. Properties are proved only for the power-of-two masks that loop uses (`BitAndPow2`).
- A `Node` read back from a file has frequency `None`; the model gives it frequency 0, and frequencies play no part in decoding.
- The exceptions the program raises itself are `Err` values naming the cause: an empty text at `nodes[0]`, a byte without a code, bits or header bytes running out, and a missing bit-count byte. Errors of the interpreter are not modelled; see the next line.
- Serialization.ParseTree, Serialization.TreeFromTraversal, Container.TreeFromFile and Container.Decompressed do not model Python's recursion limit. treeFromTraversal (hzipper.py:187-203) recurses once per internal node, so a crafted header describing a tree about 1000 internal nodes deep makes the program fail with RuntimeError, while the model returns `Ok`. A file written by hzip has at most 255 internal nodes and is not affected.
- HuffmanTree.BuiltTreeFacts does not prove that the tree is optimal, nor that a byte with a strictly higher count never gets a strictly longer code (for example for the text aaabbc). That each leaf carries its byte's count is proved only for the initial list (`InitialListLeaves`), not carried through the merges to the final tree. These are properties of the Huffman method, not checks the program makes, and their proofs are out of reach of this model's budget.
- HuffmanTree.BuildTree and Container.HZip require `order` to enumerate the distinct bytes of the text, as the dictionary's keys do.

## Findings

| source | as written | input that shows it | evidently intended | confidence | as-written member | corrected member |
|---|---|---|---|---|---|---|
| hzipper.py:117 | the writer (hzipper.py:36) stores r = len(encoded) % 8, which is 0 when the last byte is full; the reader keeps 8·n − 8 + r bits, as the format at hzipper.py:11-12 documents for r < 8, so a full last byte is dropped. Writer and documented reader disagree exactly when the encoding fills its last byte | the text 0,0,0,0,1,1,1,1: the encoding is 8 bits, r = 0, and unzip returns nothing | unzip inverts hzip, the compressor's stated purpose (hzipper.py:5). The documented format assumes r < 8 and cannot describe a full last byte. The correction reads r = 0 as a full last byte, a convention chosen so that the two sides agree, not something the format text says | not executed | BitStream.Unpack, BitStream.UnpackPackFullByte, BitStream.FullByteCounterexample, Container.FullByteLoss, Container.FullByteCounterexampleFile | BitStream.UnpackIntended, BitStream.UnpackIntendedPack, Container.DecompressedIntended, Container.RoundTripIntended |
| hzipper.py:133-143 | with a leaf as root, decode emits the byte once per bit and once more after the loop | a text of one byte 97: its code is [True], and decode gives 97, 97 | one byte per bit when the root is a leaf | not executed | Codec.Decoded, Codec.DecodeLeafRoot, Codec.SingleLeafCounterexample, Container.SingleSymbol | Codec.DecodedIntended, Codec.DecodeEncodeIntended, Container.RoundTripIntended |

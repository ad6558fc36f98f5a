# Static Huffman compressor — Dafny model

This project models the core of a small C++ file compressor built on static
Huffman coding. The model covers five parts:

- the byte frequency table (`Huffman::buildFrequencyTable`);
- the greedy tree construction over a priority queue ordered by
  `CompareNode` (`Huffman::buildTree`);
- the code table derived by walking the tree (`Huffman::buildCodeTable`);
- bit-string encoding and decoding (`Huffman::encode`, `Huffman::decode`);
- the packing of the '0'/'1' character string into bytes and back, and the
  container layout (`convertBitStringToBytes`, `convertBytesToBitString`, and
  the bodies of `compressFile` / `decompressFile`).

Everything is pure functions over immutable data:

- bytes are `Byte = 0..255`;
- bit strings are `string`, as in the source;
- trees are a datatype `Leaf(ch, freq) | Node(freq, left, right)`;
- the queue is a `seq<Tree>`;
- the frequency table is a `map<Byte, int>`;
- the compressed file is a `seq<Byte>`.

Failure paths where the source has undefined behaviour are `None`. Examples
are a null-pointer walk in `decode`, erasing more characters than the bit
string holds, and reading an integer past the end of the file. Signed `int`
overflow is the exception: counts and parent sums are unbounded integers
(see "## Left out"), and `Compressor.TreeFitsInt32` shows that the
compressor's own tree never leaves the `int` range.

Modules, in dependency order: `Wrappers`, `Bytes`, `Nodes`,
`FrequencyCounter`, `TreeBuilder`, `CodeTable`, `BitCodec`, `BitPacking`,
`Container`, `Compressor`.

Choices the code forces, and where the model follows the code:

- **Signed tie-break.** The comment on the comparison at Huffman.h:23 says
  the smaller ASCII value has the higher priority. The code compares `char`,
  which is signed on x86 and x86-64. For bytes 0x00–0x7F that matches the
  comment, but at equal frequency bytes 0x80–0xFF read as negative and
  therefore leave the heap before 0x00–0x7F. Internal nodes carry `'\0'` and tie with the leaf of
  byte 0. The model follows the code (`Nodes.TieKey`,
  `Nodes.TieBreakIsSigned`).
- **Any heap tie order.** `std::priority_queue` may return any of several
  equal-ranked nodes. `TreeBuilder.BuildTree` and `TreeBuilder.MergeLoop` pick
  ANY heap top each turn, and every shape guarantee is proved for every such
  choice. `Compress` and `Decompress` use `TreeBuilder.HuffmanTreeOf`. It is one fixed
  resolution: the earliest-queued minimum, and `TreeBuilder.HuffmanTreeIsGreedy`
  shows it is one of the outcomes `BuildTree` allows. It is a function of the table
  alone, as the source's tree is: the table is sorted before it is pushed, so
  compressor and decompressor build the same tree.
- **Header integers.** Header integers are 4-byte little-endian two's
  complement. The source writes the host's native `int`.
- **Entry order.** Table entries are written in ascending byte order. The
  source's `unordered_map` order is unspecified. Reading inserts them in file
  order, and a later duplicate overwrites an earlier one.
- **Missing codes.** `codeTable[ch]` on a byte without a code inserts and
  returns an empty string, so such a byte encodes to nothing
  (`BitCodec.CodeOf`). The compressor never meets one, because every input
  byte has a leaf.
- **Null root.** With an empty table the decompressor's root is null.
  `decode` then returns `""` for an empty bit string and would dereference
  null on any bit, which the model makes `None` (`Compressor.DecodeFrom`).

## Model

| member | source | states |
|---|---|---|
| Nodes.Compare | Huffman.h:20-27 | `CompareNode` on leaves and internal nodes, with `ch` read as a signed `char` and `'\0'` for an internal node. Its contract is stated by `Nodes.CompareIsKeyGreater` and `Nodes.CompareIsStrictWeakOrder`. |
| Nodes.CompareIsKeyGreater | Huffman.h:20-27 | `CompareNode(l, r)` holds exactly when `l` is strictly greater than `r` in the `(freq, ch)` order. |
| Nodes.CompareIsStrictWeakOrder | Huffman.h:20-27 | The comparator is irreflexive, asymmetric and transitive, and incomparability is transitive. This makes it a valid `priority_queue` ordering. |
| Nodes.EqualKeysIncomparable | Huffman.h:22-23 | Equal frequency and equal `ch` are incomparable. This covers two internal nodes, and an internal node (`'\0'`) next to the leaf of byte 0. |
| Nodes.TieBreakIsSigned | Huffman.h:22-23 | At equal frequency, byte 0x80 ranks before 0x7F, every byte 0x80–0xFF ranks before an internal node, and every byte 0x01–0x7F ranks after one. |
| Nodes.DepthBelowLeafCount | Huffman.cpp:45-54 | A tree with n leaves is less than n deep, and an internal node has at least two leaves. |
| FrequencyCounter.Frequencies | Huffman.cpp:21-25 | One `frequencyTable[ch]++` per input byte. Its contract is `FrequencyCounter.FrequenciesCounts` and `FrequencyCounter.FrequenciesTotal`. |
| FrequencyCounter.FrequenciesCounts | Huffman.cpp:21-25 | The keys are exactly the bytes that occur. Each maps to its number of occurrences, which lies between 1 and the data length. |
| FrequencyCounter.FrequenciesTotal | Huffman.cpp:21-25 | The counts sum to the data length, and only empty data gives an empty table. |
| FrequencyCounter.FrequenciesOfPermutation | Huffman.cpp:21-25 | Reordering the data gives the same table. |
| FrequencyCounter.Entries | main.cpp:83-88 | The entry list has at most 256 entries with strictly ascending bytes. It holds each `(byte, count)` pair of the table exactly once and nothing else. |
| FrequencyCounter.EntriesCount | main.cpp:83-84 | The entry count written equals `frequencyTable.size()`. |
| FrequencyCounter.ToMap | main.cpp:117-123 | `frequencyTable[ch] = freq` for each entry read, in file order. Its contract is `FrequencyCounter.ToMapKeys`, `FrequencyCounter.ToMapLastWins` and `FrequencyCounter.ToMapEntries`. |
| FrequencyCounter.ToMapKeys | main.cpp:117-123 | After reading, the table's keys are exactly the bytes of the entries read. |
| FrequencyCounter.ToMapLastWins | main.cpp:117-123 | For a byte listed more than once, the last entry read gives its count. |
| FrequencyCounter.ToMapEntries | main.cpp:117-123 | Reading back the written entries rebuilds the very same table. |
| TreeBuilder.TopIsKeyMinimum | Huffman.cpp:46-49 | A node is a heap top exactly when it is a minimum of the queue in the `(freq, signed ch)` order. |
| TreeBuilder.LeafQueue | Huffman.cpp:29-43 | The initial heap contents: one leaf per table entry. Its contract is `TreeBuilder.LeafQueueFacts`. |
| TreeBuilder.LeafQueueFacts | Huffman.cpp:29-43 | The initial queue has one leaf per table entry. Its leaves are exactly the table's `(byte, count)` pairs, its total is the table total, and every tree in it is well formed. |
| TreeBuilder.PickTop | Huffman.cpp:46-49 | The chosen node is a heap top: nothing ranks before it. Every earlier-queued node ranks after it. |
| TreeBuilder.RemoveMultiset | Huffman.cpp:47-49 | A pop removes exactly one copy of the popped node from the queue. |
| TreeBuilder.Merge | Huffman.cpp:46-53 | One loop turn: pop `left`, pop `right`, push a parent carrying `left->freq + right->freq` with `left` as its left child. Its contract is `TreeBuilder.MergePreserves` and `TreeBuilder.TopsMergeGreedily`. |
| TreeBuilder.MergePreserves | Huffman.cpp:45-54 | For any pair of nodes merged, the queue shrinks by one. It keeps its multiset of leaves and its total frequency, and all trees stay well formed (parent frequency = sum of children). |
| TreeBuilder.Combine | Huffman.cpp:45-57 | Running the merge loop to one tree gives a well-formed root holding all queued leaves and the queue's total frequency. `TreeBuilder.CombineIsGreedy` states that every turn pops two heap tops. |
| TreeBuilder.CombineIsGreedy | Huffman.cpp:45-54 | Each turn of `Combine` pops two heap tops, the first as the left child. Its queue contents run greedily in `n - 1` turns from the queue to the single tree `Combine(q)`. |
| TreeBuilder.HuffmanTreeOf | Huffman.cpp:28-58 | The root is null iff the table is empty. Otherwise the root is well formed, its leaves are exactly the table's `(byte, count)` entries, and its frequency is the table total. A one-entry table gives that single leaf. |
| TreeBuilder.HuffmanTreeIsGreedy | Huffman.cpp:40-57 | The tree that `Compress` and `Decompress` build ends a greedy run of `|t| - 1` turns that starts at the leaf queue. That is one of the outcomes `TreeBuilder.BuildTree` allows. |
| TreeBuilder.HuffmanTreeFreqsBounded | Huffman.cpp:50 | For non-negative counts, every node frequency, each parent sum `left->freq + right->freq` included, lies between 0 and the table total. |
| Nodes.FreqsWithinRoot | Huffman.cpp:50 | In a well-formed tree with non-negative leaf counts, no node frequency exceeds the root's. |
| TreeBuilder.PopTwoTops | Huffman.cpp:46-49 | The first pop takes a top of the queue, and the second a top of what remains. |
| TreeBuilder.MergeLoop | Huffman.cpp:45-54 | With any tie resolution, the loop makes `n - 1` greedy turns on `n > 0` trees and ends with one tree. It keeps the queued leaves and the total frequency and preserves well-formedness. An empty queue stays empty. |
| TreeBuilder.BuildTree | Huffman.cpp:28-58 | With any tie resolution, the trace starts at the leaf queue and each step is a greedy turn. There are `|t| - 1` turns, and the root has the same shape guarantees as `HuffmanTreeOf`. |
| CodeTable.BuildCodeTable | Huffman.cpp:61-69 | `buildCodeTable(root, "")`: the coded bytes are exactly the leaf bytes. `CodeTable.CodeTableFacts` states that the codes are prefix-free paths to their leaves. |
| CodeTable.CodesFrom | Huffman.cpp:61-69 | The bytes given codes are exactly the bytes at the leaves. |
| CodeTable.CodesFromPaths | Huffman.cpp:61-69 | Each code is the accumulated prefix followed by the path to a leaf of its byte. It is at most depth-many steps longer than the prefix, and strictly longer below an internal node. |
| CodeTable.CodesFromPrefixFree | Huffman.cpp:61-69 | No code of a subtree is a prefix of another byte's code. |
| CodeTable.CodeTableFacts | Huffman.cpp:61-69 | The code table is prefix-free, and each code is a '0'/'1' string leading from the root to its byte's leaf. No code is longer than the tree depth, and all codes are non-empty when the root is internal. |
| BitCodec.Encode | Huffman.cpp:72-77 | The codes of the input bytes, concatenated in input order. Its contract is `BitCodec.EncodeConcat`, `BitCodec.EncodeLength` and `BitCodec.DecodeEncode`. |
| BitCodec.CodeOf | Huffman.cpp:75 | `codeTable[ch]`: a byte without a code reads as `""`, because the lookup default-inserts an empty string. `BitCodec.EncodeLength` counts such a byte as zero bits. |
| BitCodec.EncodeConcat | Huffman.cpp:72-77 | Encoding distributes over concatenation of the input. |
| BitCodec.EncodeIsBitString | Huffman.cpp:72-77 | With '0'/'1' codes the output is a '0'/'1' string. |
| BitCodec.EncodeLengthBound | Huffman.cpp:72-77 | With codes of at most m bits, the output is at most m bits per input byte. |
| BitCodec.EncodeLength | Huffman.cpp:72-77 | The encoded length is the sum over byte values of frequency times code length. |
| BitCodec.Walk | Huffman.cpp:84-94 | The decode loop from the current node: '0' goes left, and anything else goes right. A leaf emits its byte and restarts at the root. A step below a leaf is `None`. Its contract is `BitCodec.WalkEncoded` and `BitCodec.WalkPartial`. |
| BitCodec.Decode | Huffman.cpp:81-95 | `decode(encodedData, root)`. Its contract is `BitCodec.DecodeEncode` and `BitCodec.TrailingBitsIgnored`. `BitCodec.DecodeStream` shows the source's loop computes it. |
| BitCodec.DecodeStream | Huffman.cpp:81-95 | The source's single loop (current node, reset to the root after each leaf) computes the recursive decoding `Decode`. |
| BitCodec.WalkEncoded | Huffman.cpp:81-95 | Decoding an encoding followed by further bits gives the data followed by what those bits decode to. |
| BitCodec.DecodeEncode | Huffman.cpp:72-95 | For a root with two or more leaves, decoding the encoding of data whose bytes all have leaves gives the data back. |
| BitCodec.TrailingBitsIgnored | Huffman.cpp:84-94 | Bits after the last complete code that stop at an internal node emit nothing. |
| BitPacking.PackByte | main.cpp:22-27 | A group of n bit characters packs to a value below 2^n. |
| BitPacking.Pack | main.cpp:10-31 | The padding count is below 8, and it is 0 iff the length is a multiple of 8. Bytes × 8 = bits + padding, and the byte count is the bit count rounded up to whole bytes. |
| BitPacking.PackPadsWithZeros | main.cpp:12-18 | The packed bytes expand to the input bits followed by `unusedBits` zero bits. |
| BitPacking.PackReadsOnlyOnes | main.cpp:25-26 | Only '1' sets a bit: any other character packs like '0'. |
| BitPacking.Unpack | main.cpp:35-49 | Empty bytes give an empty string whatever the padding count. Otherwise the result is 8 bits per byte minus the padding, defined only when the padding is at most the bit count. |
| BitPacking.UnpackPack | main.cpp:10-49 | A '0'/'1' string packed and then unpacked with its padding count comes back unchanged. |
| BitPacking.PackUnpack | main.cpp:35-44 | Expanding bytes and packing the result gives the same bytes with no padding. |
| Container.Int32Bytes | main.cpp:83-92 | Writing an `int` as 4 bytes, here little-endian two's complement of the value modulo 2^32. Its contract is `Container.Int32RoundTrip` and `Container.Int32BytesRoundTrip`. |
| Container.Int32Value | main.cpp:114-129 | Reading 4 bytes back as a signed 32-bit `int`. Its contract is `Container.Int32RoundTrip` and `Container.Int32BytesRoundTrip`. |
| Container.Int32RoundTrip | main.cpp:114-115 | Every 32-bit `int` written as 4 bytes reads back as itself. |
| Container.Int32BytesRoundTrip | main.cpp:128-129 | Every 4 bytes read as an `int` write back as themselves. |
| Container.Write | main.cpp:79-95 | The file is one padding byte, the 4-byte entry count, 5 bytes per entry, the 4-byte payload length and the payload. |
| Container.ReadEntries | main.cpp:117-123 | Reads `n` 5-byte entries, or `None` when the file ends first. Its contract is `Container.ReadWriteEntries`. |
| Container.Read | main.cpp:109-133 | `decompressFile`'s reads. A negative count reads no entries, a negative payload length is `None`, and a short payload is filled with spaces. Its contract is `Container.ReadWrite`. |
| Container.ReadWriteEntries | main.cpp:117-123 | Reading n entries from n written entries recovers them and leaves the bytes after them. |
| Container.ReadWrite | main.cpp:109-133 | Reading a written file gives back the padding count, the entries and the payload, whatever bytes follow, when every count fits a 32-bit `int`. |
| Compressor.ContentsFit | main.cpp:83-92 | Below 2^26 input bytes, the entry count, every frequency and the payload length fit a 32-bit `int`. |
| Compressor.TreeFitsInt32 | Huffman.cpp:50 | Below 2^26 input bytes, no frequency of the compressor's tree leaves the 32-bit `int` range, parent sums included. |
| Compressor.DecodeFrom | main.cpp:139 | `decode` on a root that may be null. With an empty table there is no root: no bits give `""`, and any bit is `None` because it would dereference null. `Compressor.RoundTrip` covers the empty input through it. |
| Compressor.Compress | main.cpp:63-95 | `compressFile` without the file I/O. Its contract is `Compressor.ReadCompressed` and `Compressor.RoundTrip`. |
| Compressor.Decompress | main.cpp:109-139 | `decompressFile` without the file I/O. Its contract is `Compressor.RoundTrip` and `Compressor.SingleSymbolLosesData`. |
| Compressor.ReadCompressed | main.cpp:79-133 | The decompressor reads back the compressor's padding count, table and payload. The rebuilt table equals the original, and unpacking gives the encoded bits. |
| Compressor.TwoSymbolsGiveNode | Huffman.cpp:45-57 | Data with two distinct bytes gives a root that is an internal node. |
| Compressor.RoundTrip | main.cpp:63-139 | For data that is empty or holds two or more distinct bytes (below 2^26 bytes), decompressing the compressed file gives the data back. |
| Compressor.SingleSymbolTree | Huffman.cpp:55-69 | For one repeated byte, the tree is that byte's leaf carrying the input length, and the encoded bit string is empty. |
| Compressor.SingleSymbolLosesData | main.cpp:63-139 | As written, a non-empty run of one byte value decompresses to the empty string, not to the input. |
| Compressor.OneByteFileLost | main.cpp:63-139 | As written, the one-byte file "a" decompresses to nothing. |
| Compressor.DecompressCorrected | main.cpp:124-139 | `decompressFile` with a one-leaf tree decoded as `freq` copies of its byte. Its contract is `Compressor.CorrectedRoundTrip`. |
| Compressor.CorrectedRoundTrip | main.cpp:63-139 | With the one-leaf tree decoded from its stored frequency, every input below 2^26 bytes survives compression and decompression. |

## Left out

- File I/O and the command line (`main`, the stream opening and error messages) are not modelled. The compressor takes the input bytes, and the decompressor takes the file bytes.
- `clearTree` and the destructor are left out. They only free memory.
- Heap layout is left out. `std::priority_queue`'s internal order is abstracted to "any top" (`TreeBuilder.BuildTree`) plus one fixed choice (`TreeBuilder.HuffmanTreeOf`).
- The `std::sort` before the pushes is left out. With distinct keys it only fixes the push order, which the model replaces by ascending byte order.
- The decompressor's `buildCodeTable` call is left out because its result is unused.
- Compressor.RoundTrip: requires fewer than 2^26 input bytes. That is enough for every header field to fit a 32-bit `int`, since codes are at most 255 bits. The exact limit of the source depends on the actual code lengths.
- Compressor.CorrectedRoundTrip: requires fewer than 2^26 input bytes, for the same reason.
- Container.Read: a payload cut short is filled with `' '` as in the source. A truncated header or entry is `None`, standing for the source reading uninitialised values.
- `frequencyTable[ch]++` overflow is left out. A count beyond 2^31 − 1 needs more input than `Compressor.RoundTrip` admits.
- TreeBuilder.HuffmanTreeOf: the parent sum `left->freq + right->freq` (Huffman.cpp:50) is an unbounded integer. In the source it is a 32-bit `int` whose overflow is undefined behaviour. A crafted file whose table totals more than 2^31 − 1, such as two entries of 2^31 − 1, makes the source overflow while the model builds a tree with the exact sum. `Compressor.TreeFitsInt32` shows that this cannot happen for the compressor's own output below 2^26 bytes.

## Findings

| source | as written | input that shows it | evidently intended | confidence | as-written member | corrected member |
|---|---|---|---|---|---|---|
| Huffman.cpp:61-69 | When the input holds a single distinct byte, the tree is one leaf, its code is `""`, the payload is empty, and `decode` returns `""`. | the one-byte file `a` (0x61) | the original bytes come back, as for every other input | high (not executed) | Compressor.SingleSymbolLosesData | Compressor.CorrectedRoundTrip |

The corrected decompressor (`Compressor.DecompressCorrected`) decodes a
one-leaf tree with no bits as `freq` copies of the leaf's byte. The frequency
is already stored in the table. `Compressor.CorrectedRoundTrip` proves it
restores every input, empty and single-byte-value inputs included. The
compressor and the file format are unchanged.

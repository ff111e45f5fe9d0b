# Byte codecs of the compression service, in Dafny

The service compresses uploaded files with three codecs. Each codec is a pair of
pure functions from bytes to bytes:

- **Run-length coding** (`server/src/algorithms/rle.js`). A compressed buffer is a
  list of `(count, value)` byte pairs, and a run is capped at 255.
- **LZ77** (`server/src/algorithms/lz77.js`). A compressed buffer is a list of
  4-byte records: a big-endian 16-bit distance, an 8-bit length, and the byte that
  follows the match. The encoder searches a 4096-byte window with a 16-byte
  lookahead by brute force. The decoder copies from its own growing output, so a
  copy may overlap the bytes it is writing.
- **Huffman coding** (`server/src/algorithms/huffman.js`). The steps are:
  - a frequency table;
  - a tree built by repeatedly sorting the forest and merging its two lightest trees;
  - a code per leaf, where 0 means left and 1 means right;
  - a bit string packed most significant bit first.

  The container is a 16-bit symbol count, then a value byte and a 32-bit frequency
  for each symbol, then the 32-bit bit length, then the packed bits.

Every operation is a pure Dafny function. Each JavaScript loop becomes one of
the following, with the same branches:

- a recursive function over the input, such as `RunLength.Decompress`,
  `HuffmanTree.Freqs` and `HuffmanCode.Encode`;
- a sequence comprehension, where each output element depends only on its
  index, as in `BitPacking.PackBits` and `BitPacking.UnpackBits`.

The LZ77 compressor loop is split in two. `Lz77.Steps` computes the record the
loop body would emit at every position. `Lz77.Walk` then visits the positions
the loop actually reaches, skipping the bytes each record covers.

Where the code throws, the model returns `Failure` of a `CodecError`:

- a header field past the end of the buffer gives `MalformedHeader`;
- a decoding step to a child of `null` gives `CorruptStream`;
- a bit length too large for its 32-bit field gives `FieldOutOfRange`.

Where the code silently reads `undefined`, the model uses the value that
`undefined` ends up as.

Files, one module each:

| file | module | contents |
|---|---|---|
| `common.dfy` | `Bytes` | bytes, `Result`, big-endian fields |
| `rle.dfy` | `RunLength` | run-length codec |
| `lz77.dfy` | `Lz77` | LZ77 codec, including a corrected compressor |
| `bit_packing.dfy` | `BitPacking` | `packBits` / `unpackBits` |
| `huffman_tree.dfy` | `HuffmanTree` | `freqMap`, `buildTree` |
| `huffman_code.dfy` | `HuffmanCode` | `genCodes`, the bit string, the decode loop |
| `huffman.dfy` | `Huffman` | the Huffman container, including a corrected decoder |

Behaviour of the code that is easy to miss:

- **LZ77 ties.** Among equally long matches, the encoder keeps the one furthest
  back. The comparison `length > bestLen` runs over window positions in ascending
  order.
- **LZ77 malformed input.** The decoder never fails:
  - 1 to 3 trailing bytes are ignored;
  - a back-reference reaching before the start of the output copies `undefined`,
    which is stored as 0.
- **Huffman empty input.** This compresses to six zero bytes: a zero symbol count
  and a zero bit length. It is not an empty buffer.
- **Huffman decoding.** A trailing incomplete code is dropped silently. Bits past
  the end of the packed bytes read as 0, so a declared bit length larger than the
  buffer is not an error, up to the engine's string-length limit (see
  "Left out").
- **Run-length decoding.** An odd trailing byte is ignored.
- **Round trips.** Two codecs do not round-trip every input. See "Findings".

## Model

| member | source | states |
|---|---|---|
| RunLength.Runs | server/src/algorithms/rle.js:5-17 | The runs the loop closes have counts 1..255 and spell out the input in order. A run is followed by one of the same value only when it is full (255). There are no runs exactly when the input is empty. |
| RunLength.Compress | server/src/algorithms/rle.js:3-19 | The output is empty exactly for empty input. It consists of whole pairs whose counts are 1..255. A count below 255 is never followed by the same value. It decompresses to the input. |
| RunLength.EncodeShape | server/src/algorithms/rle.js:12-17 | Byte pair `k` is the count and value of run `k`, and valid maximal runs give a well-formed, maximal buffer. |
| RunLength.DecompressEncode | server/src/algorithms/rle.js:20-29 | Decoding the pairs of valid runs yields exactly the bytes the runs stand for. |
| RunLength.DecompressLength | server/src/algorithms/rle.js:23-27 | The decoded length is the sum of the counts of the whole pairs. |
| RunLength.Decompress | server/src/algorithms/rle.js:20-29 | No ensures of its own. Its contract is carried by `DecompressLength`, `DecompressEncode`, `DecompressIgnoresTrailingByte` and `DecompressAppend`. |
| RunLength.DecompressIgnoresTrailingByte | server/src/algorithms/rle.js:23 | A lone trailing byte after whole pairs changes nothing. |
| RunLength.DecompressAppend | server/src/algorithms/rle.js:23-27 | Decoding distributes over concatenation after an even-length prefix. |
| RunLength.CompressRepeat | server/src/algorithms/rle.js:10-14 | A stretch of `n` equal bytes is cut into full 255-runs and one run for the remainder. |
| RunLength.CompressThreeHundred | server/src/algorithms/rle.js:10 | 300 equal bytes compress to `[255, v, 45, v]`. |
| Lz77.Search | server/src/algorithms/lz77.js:14-32 | The best length is within the lookahead and the input. A zero length comes with a zero distance. Otherwise the distance lies in the window and is at least the length. |
| Lz77.SearchMeaning | server/src/algorithms/lz77.js:20-32 | The result is a real match. No window distance holds a longer match, and none further back holds one as long. |
| Lz77.Step | server/src/algorithms/lz77.js:34-43 | A literal carries the byte at `pos`. A back-reference has length 3..lookahead, at most its distance, and a distance in the window. It stays inside the input, and its `next` is the byte after the match, or 0 at the end of the input. |
| Lz77.StepMatches | server/src/algorithms/lz77.js:22-27 | A back-reference's bytes equal the bytes it replaces. |
| Lz77.StepIsLongest | server/src/algorithms/lz77.js:20-34 | A back-reference is emitted exactly when some window distance offers a match of 3 or more bytes. It is the longest such match, and the furthest back among the longest. |
| Lz77.Compress | server/src/algorithms/lz77.js:8-47 | The output is a whole number of 4-byte records and is empty exactly for empty input. |
| Lz77.CompressedRecordsValid | server/src/algorithms/lz77.js:13-43 | Every emitted record is a literal `(0, 0, b)` or a back-reference of 3..lookahead bytes. A back-reference's distance lies in the window, is at least its length, and never exceeds the bytes decoded before it. |
| Lz77.Walk | server/src/algorithms/lz77.js:13-44 | No ensures of its own. `WalkDecodes` carries its contract: from any position, the records the loop emits rebuild the input from there on. |
| Lz77.WalkDecodes | server/src/algorithms/lz77.js:13-44 | When every position's record is one the loop may emit, the walk from a position rebuilds the input from that position on, ending with a padding record exactly when its last match reaches the end. |
| Lz77.Records | server/src/algorithms/lz77.js:13-44 | No ensures of its own. `RecordsDecode` and `CompressedRecordsValid` carry its contract. |
| Lz77.RecordsDecode | server/src/algorithms/lz77.js:13-44 | The records `compress` emits rebuild the whole input, record by record. |
| Lz77.ParseRecords | server/src/algorithms/lz77.js:54-57 | The decoder reads `floor(n / 4)` records. |
| Lz77.ParseEncode | server/src/algorithms/lz77.js:37 | Parsing serialized records gives them back when distances fit 16 bits and lengths fit 8 bits. |
| Lz77.CopyBack | server/src/algorithms/lz77.js:64-67 | The bytes already in the output stay, and exactly `n` bytes are appended. |
| Lz77.Replay | server/src/algorithms/lz77.js:54-71 | No ensures of its own. `ReplayGrows` and the copy lemmas below carry its contract. |
| Lz77.ReplayGrows | server/src/algorithms/lz77.js:54-71 | Replaying records only appends to the output. Each record adds its length plus its `next` byte. |
| Lz77.CopyBackRepeats | server/src/algorithms/lz77.js:64-67 | Each copied byte equals the byte `dist` positions before it, so an overlapping copy repeats the last `dist` bytes. |
| Lz77.CopyBackDangling | server/src/algorithms/lz77.js:64-66 | A copy lying wholly before the output reads only `undefined`, so it appends `n` 0 bytes. |
| Lz77.CopyBackPastEnd | server/src/algorithms/lz77.js:64-66 | A zero distance with a nonzero length reads past the end at every step and appends 0 bytes. |
| Lz77.DanglingReference | server/src/algorithms/lz77.js:49-74 | The lone record `(5, 3, 'a')` decodes to three 0 bytes and `a`, with no error. |
| Lz77.OverlappingCopy | server/src/algorithms/lz77.js:59-69 | After a literal `a`, the record `(1, 5, 'b')` decodes to `aaaaaab`. |
| Lz77.DecompressIgnoresTail | server/src/algorithms/lz77.js:54 | 1 to 3 trailing bytes that do not form a record are ignored. |
| Lz77.Decompress | server/src/algorithms/lz77.js:49-74 | No ensures of its own. `RoundTrip`, `DecompressIgnoresTail`, `DanglingReference` and `OverlappingCopy` carry its contract. |
| Lz77.RoundTrip | server/src/algorithms/lz77.js:8-74 | Decompressing a compressed input gives the input back. One 0 byte is appended exactly when the last record is a back-reference that reaches the end of the input. |
| Lz77.TrailingZero | server/src/algorithms/lz77.js:36 | `[1, 2, 3, 1, 2, 3]` comes back as `[1, 2, 3, 1, 2, 3, 0]`. |
| Lz77.RoundTripFixed | server/src/algorithms/lz77.js:16 | With the lookahead ending one byte before the end of the input, every input round-trips exactly. |
| BitPacking.PackBits | server/src/algorithms/huffman.js:48-56 | Packing `n` bits yields `ceil(n / 8)` bytes. |
| BitPacking.PackedBit | server/src/algorithms/huffman.js:52 | Bit `i` of the string is bit `7 - i % 8` of byte `i / 8`. |
| BitPacking.UnpackBits | server/src/algorithms/huffman.js:59-65 | Exactly `bitLen` bits come out. `UnpackPack` and `PackUnpack` relate it to `PackBits`. |
| BitPacking.UnpackPack | server/src/algorithms/huffman.js:59-65 | Unpacking `n` bits of a packed `n`-bit string returns the string. |
| BitPacking.PackPadding | server/src/algorithms/huffman.js:49-55 | The padding bits of the last byte are 0. |
| BitPacking.PackUnpack | server/src/algorithms/huffman.js:48-65 | Packing all `8 * |buf|` unpacked bits of a buffer returns the buffer. |
| HuffmanTree.Freqs | server/src/algorithms/huffman.js:14-18 | The table has one entry per byte value, 256 in all. `FreqsCount` states that each entry counts its value. |
| HuffmanTree.FreqsCount | server/src/algorithms/huffman.js:14-18 | The entry for each byte value is its number of occurrences in the input. |
| HuffmanTree.FreqsSum | server/src/algorithms/huffman.js:14-18 | The frequencies add up to the input length. |
| HuffmanTree.LeavesSpec | server/src/algorithms/huffman.js:22-25 | One leaf is seeded per present value, in ascending value order, with total weight equal to the table sum. |
| HuffmanTree.SortSpec | server/src/algorithms/huffman.js:28 | The sort orders by weight and is stable: trees of equal weight keep their order. |
| HuffmanTree.SortPermutes | server/src/algorithms/huffman.js:28 | The sort is a permutation of the forest. |
| HuffmanTree.Sort | server/src/algorithms/huffman.js:28 | The result has as many trees as the input. `SortSpec` and `SortPermutes` state that it is the stable sort by weight. |
| HuffmanTree.MergeSpec | server/src/algorithms/huffman.js:27-33 | The merged tree holds the forest's values and weighs as much. Every node weighs the sum of its children, and every leaf weighs its value's frequency. |
| HuffmanTree.Merge | server/src/algorithms/huffman.js:27-32 | A forest of two or more trees merges into a node. `MergeSpec` states what the node holds and weighs. |
| HuffmanTree.BuildTreeSpec | server/src/algorithms/huffman.js:21-34 | The result is `null` exactly for an empty table. Otherwise the tree holds exactly the present values, weighs the table sum, and is a single leaf exactly when one value is present. |
| HuffmanTree.BuildTree | server/src/algorithms/huffman.js:21-34 | No ensures of its own. `BuildTreeSpec` carries its contract. |
| HuffmanTree.PresentOfData | server/src/algorithms/huffman.js:14-25 | A value is seeded as a leaf exactly when it occurs in the input. |
| HuffmanTree.TreeAbsent | server/src/algorithms/huffman.js:21-34 | `buildTree` of an input's frequencies returns `null` exactly when the input is empty. |
| HuffmanCode.CodeTableSpec | server/src/algorithms/huffman.js:37-45 | Codes exist exactly for the values at the leaves. A lone leaf gets `"0"`. Otherwise a code is the nonempty path to the leaf. No code is a prefix of another. |
| HuffmanCode.Codes | server/src/algorithms/huffman.js:37-45 | No ensures of its own. `CodesKeys` and `CodesPaths` carry its contract. |
| HuffmanCode.CodeTable | server/src/algorithms/huffman.js:37-45 | No ensures of its own. `CodeTableSpec`, `CodeTablePaths` and `CodeTablePrefixFree` carry its contract. |
| HuffmanCode.CodesKeys | server/src/algorithms/huffman.js:37-45 | The table built below any prefix has a code for exactly the values at the leaves. |
| HuffmanCode.CodeTablePaths | server/src/algorithms/huffman.js:39-43 | With two or more leaves, each value's code is its path from the root, which is never empty. |
| HuffmanCode.CodeTablePrefixFree | server/src/algorithms/huffman.js:37-45 | No code in a tree's table is a prefix of another code. |
| HuffmanCode.CodesPaths | server/src/algorithms/huffman.js:39-43 | Below a node, the code of a value is the prefix followed by its path. |
| HuffmanCode.PathsPrefixFree | server/src/algorithms/huffman.js:40-43 | The path to one value is never a prefix of the path to another. |
| HuffmanCode.EncodeLength | server/src/algorithms/huffman.js:75-76 | The bit string is as long as the sum over values of frequency times code length. |
| HuffmanCode.DecodePath | server/src/algorithms/huffman.js:133-138 | Following a value's path outputs that value and restarts at the root. |
| HuffmanCode.DecodeBits | server/src/algorithms/huffman.js:131-139 | No ensures of its own. `DecodePath`, `DecodePartialPath` and `DecodeEncode` carry its contract. |
| HuffmanCode.Decode | server/src/algorithms/huffman.js:131-139 | No ensures of its own. `DecodeFails`, `DecodeBound` and `DecodeEncode` carry its contract. |
| HuffmanCode.DecodeBitsNodes | server/src/algorithms/huffman.js:133-138 | From a root with two children the loop never fails: each leaf it reaches sends it back to the root. |
| HuffmanCode.DecodeFails | server/src/algorithms/huffman.js:131-139 | Decoding fails exactly when there are bits and the tree is `null` or a lone leaf, the two places the loop reads a property of `null`. |
| HuffmanCode.DecodePartialPath | server/src/algorithms/huffman.js:133-138 | A trailing incomplete code outputs nothing and raises no error. |
| HuffmanCode.DecodeEncode | server/src/algorithms/huffman.js:131-139 | On a tree with at least two leaves, decoding the codes of some bytes outputs exactly those bytes and continues with the rest of the bits. |
| HuffmanCode.DecodeBound | server/src/algorithms/huffman.js:131-139 | A successful decode outputs at most one byte per bit. |
| Huffman.CodesKeysOf | server/src/algorithms/huffman.js:70-72 | The code table has an entry exactly for each byte value occurring in the input. |
| Huffman.CodeBits | server/src/algorithms/huffman.js:75-79 | The bit string has the weighted code length and at least one bit per input byte. |
| Huffman.HeaderSymbols | server/src/algorithms/huffman.js:84 | The header lists exactly the distinct input bytes, in strictly ascending order. |
| Huffman.Container | server/src/algorithms/huffman.js:85-99 | The buffer is `6 + 5k + ceil(bitLen / 8)` bytes for `k` symbols. |
| Huffman.ContainerEntries | server/src/algorithms/huffman.js:90-95 | Entry `j` of the header holds symbol `j` and its frequency as a big-endian 32-bit field. |
| Huffman.Compress | server/src/algorithms/huffman.js:68-102 | Compression fails, with `FieldOutOfRange`, exactly when the bit length reaches 2^32. Every input of 2^32 bytes or more fails. |
| Huffman.CompressLayout | server/src/algorithms/huffman.js:85-99 | Buffer layout: total size; the symbol count; each symbol with its number of occurrences; the bit length; the packed bits after the header. |
| Huffman.CompressEmpty | server/src/algorithms/huffman.js:84-99 | Empty input compresses to six zero bytes. |
| Huffman.ParseHeader | server/src/algorithms/huffman.js:108-121 | Header reading fails with `MalformedHeader` exactly when the buffer is shorter than the count field or the declared header. Otherwise it yields a full 256-entry table. |
| Huffman.ReadEntries | server/src/algorithms/huffman.js:113-118 | After the frequency loop, a listed value has the frequency written for it. Any other value keeps its previous entry. |
| Huffman.ReadTable | server/src/algorithms/huffman.js:113-118 | The result is a full 256-entry table. `ReadTableLast` and `ReadEntries` state which entries the loop overwrites. |
| Huffman.ReadTableLast | server/src/algorithms/huffman.js:113-118 | For any header, each value gets the frequency of the last entry naming it, and a value no entry names keeps its previous frequency. |
| Huffman.ParseCompressed | server/src/algorithms/huffman.js:104-128 | Reading back a compressed buffer recovers the input's frequency table, its bit length and its packed bits. |
| Huffman.Decompress | server/src/algorithms/huffman.js:104-141 | Success implies a readable header and at most `bitLen` output bytes. A buffer under 6 bytes is a malformed header. |
| Huffman.DecompressFails | server/src/algorithms/huffman.js:104-141 | Decompression fails exactly when the header cannot be read, or when it declares a nonzero bit length and its table gives no tree or a lone leaf. |
| Huffman.TreeHolds | server/src/algorithms/huffman.js:21-34 | Every byte of the input is a value at some leaf of its tree. |
| Huffman.TreeLeaf | server/src/algorithms/huffman.js:21-34 | The tree of an input is a lone leaf exactly when the input repeats one value. |
| Huffman.RoundTrip | server/src/algorithms/huffman.js:68-141 | An input that compresses and is empty or holds at least two distinct byte values decompresses back to itself. |
| Huffman.SingleValueFails | server/src/algorithms/huffman.js:133-135 | A nonempty input repeating one byte value compresses, but decompressing it fails at the lone leaf's missing child. |
| Huffman.RoundTripFixed | server/src/algorithms/huffman.js:131-139 | With the lone-leaf case decoded as one value per bit, every input that compresses decompresses back to itself. |

## Left out

- Input coercion (`Buffer.isBuffer` and `Buffer.from` of a non-buffer) is left out. Every input is a byte sequence.
- The HTTP routes, file storage, database records and client are not part of this model.
- Lz77.RoundTrip: the model requires a window below 65536 and a lookahead below 256. These are the values for which distances and lengths fit their fields. Larger constructor arguments truncate the fields (`& 0xff`, `Buffer.from`); the model serializes such fields that way but states no round trip for them.
- Lz77: constructor arguments are natural numbers. Negative or fractional sizes are not modelled.
- Huffman.Compress: the model fails only when the bit length reaches 2^32, where `writeUInt32BE` throws. The JavaScript engine's maximum string length stops `bits += …` much earlier, and that engine limit is not modelled.
- Huffman.Compress: the frequency table is a `Uint32Array`, whose counts wrap at 2^32. This is not modelled: whenever compression succeeds, the bit length is below 2^32, so every count is too.
- Huffman.Decompress: `unpackBits` builds its bits with `s += …`. A declared bit length above the JavaScript engine's maximum string length (2^29 - 24 characters in V8) throws a `RangeError` there. The model has no such limit and decodes the zero bits that lie past the buffer's end.
- Huffman.Decompress: the model's errors stand for the JavaScript exceptions. `RangeError` from reading past the buffer is `MalformedHeader`. `TypeError` from stepping to a child of `null` is `CorruptStream`. Error messages are not modelled.
- HuffmanTree.Sort: `Array.prototype.sort` is modelled as a stable insertion sort by weight. A stable sort has exactly one result for a given input, so the engine's algorithm does not matter.

## Findings

| source | as written | input that shows it | evidently intended | confidence | as-written member | corrected member |
|---|---|---|---|---|---|---|
| server/src/algorithms/lz77.js:36 | A match may run to the last input byte. Its `next` field then holds the filler 0, which `decompress` appends (line 69). | `[1, 2, 3, 1, 2, 3]` decompresses to `[1, 2, 3, 1, 2, 3, 0]` | `decompress(compress(x)) == x` for every input | not executed | Lz77.TrailingZero | Lz77.RoundTripFixed |
| server/src/algorithms/huffman.js:133-135 | Input with one distinct byte value gets a one-leaf tree and the code `"0"`. The decode loop steps from that leaf to its `null` left child and reads `.v` of `null`. | `[97, 97, 97, 97]` | decompression returns the four bytes | not executed | Huffman.SingleValueFails | Huffman.RoundTripFixed |

The LZ77 fix ends the lookahead one byte before the end of the input
(`Lz77.StepFixed`, `Lz77.CompressFixed`), so every back-reference leaves a real
`next` byte.

The Huffman fix decodes a lone-leaf tree as one occurrence of its value per bit
(`Huffman.DecodeFixed`, `Huffman.DecompressFixed`). This matches the code `"0"`
that the encoder gave it.

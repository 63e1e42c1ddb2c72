# Huffman processor — a verified Dafny model

This project models `HuffProcessor`, the core of a Huffman-coding file
compressor and decompressor. It covers the following revision:

- **Frequency counter** (`readForCounts`). It reads 8-bit values until the input
  runs out and tallies them into a table of 257 counts. The extra slot, index 256,
  is the end-of-data symbol `PSEUDO_EOF` and is preset to 1.
- **Stub compressor** (`compress`). It counts the input, then copies whatever
  8-bit values remain. Counting has already drained the input and nothing
  rewinds it, so nothing is copied.
- **Header reader** (`readTree`). It rebuilds the decoding tree from its
  pre-order bit form. A 0 tag is an internal node, followed by its left and then
  its right subtree. A 1 tag is a leaf, followed by a 9-bit value.
- **Decompressor** (`decompress`). It checks the 32-bit magic number
  `0xFACE8201`, reads the tree header, and then walks the tree one payload bit at
  a time. A 0 bit goes left and a 1 bit goes right. On reaching a leaf it writes
  that leaf's value and returns to the root. The walk succeeds only at the
  `PSEUDO_EOF` leaf.

Layout:

- `bits.dfy` (module `Bits`): MSB-first fixed-width fields (`Value`, `ToBits`)
  and slice lemmas.
- `streams.dfy` (module `BitStreams`): the two stream ports the processor is
  handed.
  - An input is a bit sequence with a read position. `readBits(n)` yields the next
    `n` bits as a number, or -1 when fewer remain, and drains the input in that case.
  - An output is the list of `writeBits` calls it received.
- `huff.dfy` (module `HuffProcessor`): the processor itself.
  - `ReadForCounts`, `CopyWords`, `Compress`, `Decompress` and `WalkPayload` are
    methods over the stream objects and the count array.
  - Four are proved against a specification function:
    - `ReadForCounts` against `Counts(Words(..))`;
    - `CopyWords` against `WordWrites(Words(..))`;
    - `WalkPayload` against `Walk`;
    - `Decompress` against `Decompression`, which uses `ReadTree` for the header.
  - `Compress` states its result directly: nothing is written and the input is
    exhausted.
- `header_proofs.dfy` (module `HeaderProofs`): the header writer the format
  implies (`Encode`), and the round-trip, exact-consumption, prefix-freeness and
  truncation properties of `ReadTree`.
- `payload_proofs.dfy` (module `PayloadProofs`): root-to-leaf codes (`Code`), the
  payload of a value sequence (`Payload`), and the completeness, soundness,
  truncation and error properties of the walk.
- `decompress_proofs.dfy` (module `DecompressProofs`): the whole stream. This
  covers the magic check, header errors, and the round trip and soundness of
  magic + header + payload.

Modelling decisions:

- **Errors.** The processor's exceptions become the `Error` values:
  - `InvalidMagic(m)` for "invalid magic number";
  - `InvalidInputStream` for a missing tag bit in the header;
  - `NoPseudoEof` for "bad input, no PSEUDO_EOF".

  A header that is a single leaf makes the walk follow a null child and then read
  that child's fields. The model makes this an explicit outcome, `NullDereference`,
  rather than excluding it.
- **Magic number.** The 32-bit magic number is compared as an unsigned bit
  pattern. This gives the same verdict as the source's signed `int` comparison.
- **Leaf values.** The 9-bit leaf read is unchecked, as in the source. A header
  cut inside a leaf's field therefore yields a leaf holding -1. Values from 257 to
  511 are kept as read.
- **Tag bit.** `readTree` reads its 1-bit tag with `readBits(1)`. The model tests
  the next bit directly; `BitStreams.ReadBit` shows that the two agree.
- **Compressor: doc-comments versus code.** The doc-comments promise a
  reversible, loss-less codec whose decompressed output is bit-for-bit identical
  to the original (src/HuffProcessor.java:36 and 67-68). In this revision,
  however, `compress` only counts and then copies, and the model follows the code.
  `Encode`, `Code` and `Payload` appear only as proof aids for the decompressor
  properties.

## Model

| member | source | states |
|---|---|---|
| HuffProcessor.ReadForCounts | src/HuffProcessor.java:54-65 | the returned array is new, and it is the table of `Counts` over the 8-bit values read from the start position, and the input is left exhausted |
| HuffProcessor.StreamCounts | src/HuffProcessor.java:56-63 | in the table counted from a stream, each byte slot holds the number of occurrences of that value, the PSEUDO_EOF slot holds 1, and the total is one more than the number of whole bytes |
| HuffProcessor.CountsAreOccurrences | src/HuffProcessor.java:58-62 | slot v of the table equals the multiplicity of v among the values read, for every byte value v; the PSEUDO_EOF slot stays 1 |
| HuffProcessor.CountsSum | src/HuffProcessor.java:58-62 | the counts add up to the number of values read plus one |
| HuffProcessor.Words | src/HuffProcessor.java:59-61 | the 8-bit reads until -1 yield exactly one value per whole byte left in the input |
| HuffProcessor.WordsAt | src/HuffProcessor.java:59-61 | the i-th value read is the MSB-first value of the i-th whole byte of the input after the start position |
| HuffProcessor.CopyWords | src/HuffProcessor.java:46-50 | the copy loop writes an 8-bit field for every value left in the input, in order, and exhausts the input |
| HuffProcessor.Compress | src/HuffProcessor.java:43-52 | compress leaves the input exhausted and writes nothing, because counting drains the input before the copy loop |
| HuffProcessor.ReadTree | src/HuffProcessor.java:117-135 | readTree fails only with InvalidInputStream; on success it consumes at least one bit; every leaf is in [-1, 512), and in [0, 512) when input remains after the header |
| HuffProcessor.Decompress | src/HuffProcessor.java:75-115 | the outcome, the final input position and the writes are those of the `Decompression` run from the starting position; output already written is kept on failure |
| HuffProcessor.WalkPayload | src/HuffProcessor.java:82-113 | the payload loop ends with the outcome, position and writes of the `Walk` run from the root |
| BitStreams.Read | src/HuffProcessor.java:85-89 | a read yields -1 exactly when fewer than n bits remain, and then drains the input; otherwise it yields an n-bit value and advances by n |
| BitStreams.ReadBit | src/HuffProcessor.java:119-124 | a 1-bit read yields 1 for a set bit and 0 for a clear one |
| BitStreams.ReadField | src/HuffProcessor.java:132 | a successful n-bit read yields the number whose n-bit rendering is exactly the bits consumed |
| HeaderProofs.ReadTreeLeaf | src/HuffProcessor.java:130-134 | a 1 tag followed by 9 bits reads as the leaf holding their value, stopping after them |
| HeaderProofs.ReadTreeShortLeaf | src/HuffProcessor.java:132-133 | a 1 tag with fewer than 9 bits left reads as a leaf holding -1 and drains the input |
| HeaderProofs.ReadTreeNode | src/HuffProcessor.java:124-128 | a 0 tag reads as the node of the left subtree and then the right subtree, read one after the other |
| HeaderProofs.ReadTreeAtEnd | src/HuffProcessor.java:119-123 | with no bit left for the tag, readTree fails with InvalidInputStream |
| HeaderProofs.ReadTreeEncode | src/HuffProcessor.java:117-135 | header round trip: wherever the encoding of a tree with 9-bit leaves stands, readTree returns that tree and stops right after it |
| HeaderProofs.ReadTreeEncodeSuffix | src/HuffProcessor.java:117-135 | on a stream that is a header followed by any suffix, readTree returns the tree and leaves exactly the suffix unread |
| HeaderProofs.ReadTreeConsumesEncoding | src/HuffProcessor.java:117-135 | when every leaf read holds a real 9-bit value, the bits readTree consumed are exactly the encoding of the tree it returned |
| HeaderProofs.EncodePrefixFree | src/HuffProcessor.java:117-135 | headers are prefix-free: the encoding of u begins the encoding of t only when u is t |
| HeaderProofs.ReadTreeTruncated | src/HuffProcessor.java:119-123 | a header cut short never reads back as a tree with 9-bit leaves: readTree fails or returns a leaf holding -1 |
| PayloadProofs.Code | src/HuffProcessor.java:92-100 | a value has a code exactly when some leaf holds it, and following the code's bits from the root reaches that leaf |
| PayloadProofs.WalkPath | src/HuffProcessor.java:92-110 | following a path's bits from an internal node reaches its leaf: PSEUDO_EOF ends the run there, any other value is written and the walk restarts at the root |
| PayloadProofs.WalkPayloadOf | src/HuffProcessor.java:84-113 | payload round trip: from an internal root, the codes of s followed by the code of PSEUDO_EOF decode to exactly s and stop right after, whatever follows |
| PayloadProofs.WalkPartialPath | src/HuffProcessor.java:85-89 | bits that end part-way down a path fail with the missing PSEUDO_EOF error and write nothing more |
| PayloadProofs.WalkTruncatedPayload | src/HuffProcessor.java:85-89 | a payload cut short fails with the missing PSEUDO_EOF error at the end of the input, having written a prefix of s |
| PayloadProofs.FollowCode | src/HuffProcessor.java:92-100 | with distinct leaf values, the code of a value is the only path to its leaf |
| PayloadProofs.WalkFirstLeaf | src/HuffProcessor.java:92-104 | a walk from an internal node that ends in Done first follows a path spelled by the next bits to some leaf |
| PayloadProofs.WalkDoneDecodes | src/HuffProcessor.java:84-113 | soundness: with distinct leaf values, a successful walk wrote encodable values, and the bits it consumed are exactly their payload |
| PayloadProofs.WalkOutcome | src/HuffProcessor.java:84-113 | with an internal root, the walk either ends in Done or fails with the missing PSEUDO_EOF error at the end of the input |
| PayloadProofs.WalkErrors | src/HuffProcessor.java:84-113 | the walk raises no error other than the missing PSEUDO_EOF and the null dereference |
| PayloadProofs.WalkLeafRoot | src/HuffProcessor.java:92-100 | with a single-leaf root, the first payload bit leads to the null dereference, with nothing written |
| DecompressProofs.MagicBits | src/HuffProcessor.java:19-20 | the 32 magic bits a stream starts with denote HUFF_TREE |
| DecompressProofs.MagicRejected | src/HuffProcessor.java:77-80 | decompress reports an invalid magic number exactly when the first 32 bits are missing or are not HUFF_TREE; it then has read only those bits (or drained the input) and written nothing |
| DecompressProofs.HeaderRejected | src/HuffProcessor.java:81 | after a good magic number, InvalidInputStream is reported exactly when readTree fails; nothing is then written and the input is drained |
| DecompressProofs.DecompressRoundTrip | src/HuffProcessor.java:75-115 | magic number, then the header of an internal-node tree, then the payload of s, followed by anything: decompresses to exactly s and stops after the PSEUDO_EOF code |
| DecompressProofs.DecompressSound | src/HuffProcessor.java:75-115 | a stream that decompresses to Done starts with the magic number and the header of an internal-node tree with 9-bit leaves; with distinct leaf values, the rest up to the stop point is the payload of what was written |

## Left out

- **Stream ports.** The bit stream classes (`BitInputStream`, `BitOutputStream`)
  are not part of this model. Only the behaviour the processor relies on is
  modelled:
  - MSB-first n-bit reads;
  - -1 when fewer than n bits remain, which leaves the input drained;
  - an output seen as its list of writes.
- **`out.close()`**. Flushing and zero-padding of the last byte are not modelled.
- **Debug level.** The debug level (`myDebugLevel`, `DEBUG_HIGH`, `DEBUG_LOW`) and
  the constructors that set it are not modelled; nothing in this revision reads it.
- **Exception text.** The text of `HuffException` is not modelled, only which
  error is raised. The magic value carried by `InvalidMagic` is the unsigned
  32-bit value rather than Java's signed rendering.
- **Integer widths.** Java `int` overflow of a count past 2^31 - 1 is not
  modelled; counts are unbounded integers.
- **Tree construction, code tables and header writing.** This revision of the
  processor has none of these. `Encode`, `Code` and `Payload` are proof aids; no
  compressor operation corresponds to them.
- **`readTree` as a recursive reader.** It is modelled as a function of the bits
  and the start position. `Decompress` moves the input to the position it
  returns; on failure the input is moved to its end, which is where a failed read
  leaves it.
- **`HuffNode` objects.** They are modelled as the `Tree` datatype. Node weights
  (always 0 in `readTree`) are not kept. The null children of a leaf are not
  values; following one is the `NullDereference` outcome.
- **Recursion depth.** `readTree` recurses once per 0 tag
  (src/HuffProcessor.java:126). In the source, a long run of 0 tags therefore
  exhausts the JVM stack with a `StackOverflowError` rather than a
  `HuffException`. The model's `ReadTree` has no depth bound: such a stream
  reaches the end of the input and yields `Fail(InvalidInputStream)`.

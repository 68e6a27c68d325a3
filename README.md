# Huffman compressor engine, modelled in Dafny

This project models the engine of a static Huffman compressor for byte
streams (the `huffman` package): the frequency dictionary `Compteur`, the
sorted-list priority queue `FileDePriorite`, the immutable tree
`ArbreHuffman`, the never-empty bit list `CodeBinaire`, and the pipeline of
`huffman.py`. That pipeline does the counting (`statistiques`), the
deterministic tree building (`arbre_de_huffman`), the code table
(`code_binaire`), the container writer (`compresser`) and the container
reader (`decompresser`).

The model follows the code, not textbook Huffman:

- Among equal weights the newest tree leaves the queue first, because
  `enfiler` inserts in front of equal elements. For `{A:1, B:1}`, B is
  dequeued first and becomes the right child, so A gets `0` and B gets `1`
  (`TreeBuilding.TwoEqualCounts`, `CodeTables.TwoLeafCodes`).
- A container whose identifier is not `"HUFF"` decompresses to nothing and
  raises nothing.
- The exceptions the engine raises are values of `Common.Error`. Operations
  that may raise return `Result` or report the exception beside what they
  wrote (`Compression.Emitted`).

Streams are byte sequences. The destination is an `OutputStream` whose
`data` only grows. The source is a sequence, or an `InputStream` with a read
position. Four-byte integers are little-endian, standing for `sys.byteorder`.
`Compress` requires a source shorter than 2^32 bytes, because
`to_bytes(4)` overflows beyond that.

Layout: `common.dfy` (bytes, errors, results), `trees.dfy`, `bits.dfy`,
`counter.dfy`, `queue.dfy`, `build.dfy` (tree building), `codes.dfy` (code
table), `packing.dfy` (`list_to_byte`, `naturel_to_list`), `streams.dfy`,
`compress.dfy`, `decompress.dfy`, and `corrected.dfy` (the corrected codec of
the findings below).

## Model

| member | source | states |
|---|---|---|
| `Counters.Counter.constructor` | huffman/compteur.py:9-11 | every distinct element of the initial sequence becomes a key with count 1, however often it repeats, in first-occurrence order; no other key exists |
| `Counters.Counter.Increment` | huffman/compteur.py:13-18 | the element's count rises by exactly one, or it is inserted (last in key order) with count 1; every other key and count is unchanged |
| `Counters.Counter.Set` | huffman/compteur.py:20-22 | that key's count becomes the given value; a new key goes last; no other key changes |
| `Counters.Counter.Count` | huffman/compteur.py:24-26 | the stored count of a present key, 0 for an absent key; reads only |
| `Counters.Counter.Elements` | huffman/compteur.py:28-31 | every key exactly once (no repetition, as many as the dictionary holds), and nothing else, in insertion order (the order the constructor, `Set` and `Increment` give the keys) |
| `Counters.Counter.ElementsWithCount` | huffman/compteur.py:33-35 | exactly the keys whose count equals the given value, each once |
| `Counters.Counter.LeastFrequent` | huffman/compteur.py:37-39 | fails with the empty-sequence error exactly on an empty counter; otherwise exactly the keys whose count is at most every other count, a non-empty list |
| `Counters.Counter.MostFrequent` | huffman/compteur.py:41-43 | fails exactly on an empty counter; otherwise exactly the keys whose count is at least every other count |
| `Counters.Counter.GroupsByCount` | huffman/compteur.py:45-47 | one pair per distinct count (no count twice, every count present), and a key is in a pair's group exactly when its count is that pair's count |
| `PriorityQueues.InsertionPointSplits` | huffman/file_de_priorite.py:36-39 | on a sorted list the scan stops after exactly the elements of strictly smaller count, so the new element lands before every element of equal count |
| `PriorityQueues.InsertKeepsSorted` | huffman/file_de_priorite.py:23-39 | insertion keeps the list sorted, makes it one longer, adds exactly the new element (as a multiset), and puts it in front of the elements of equal count |
| `PriorityQueues.PriorityQueue.Enqueue` | huffman/file_de_priorite.py:23-39 | the scanning loop leaves the list equal to the specified insertion and still sorted |
| `PriorityQueues.PriorityQueue.ScanInsertionPoint` | huffman/file_de_priorite.py:36-38 | the scan, skipped on an empty queue, stops at the insertion point: past exactly the leading elements the new one is strictly greater than |
| `PriorityQueues.PriorityQueue.constructor` | huffman/file_de_priorite.py:17-21 | the arguments are enqueued one at a time in argument order, from an empty list |
| `PriorityQueues.PriorityQueue.Peek` | huffman/file_de_priorite.py:47-54 | an empty queue raises the empty-queue error; otherwise the first element that nothing is strictly smaller than, which on the sorted list is the front; the queue is not changed |
| `PriorityQueues.RemoveFirst` | huffman/file_de_priorite.py:41-45 | `list.remove` deletes exactly one element, the front one when the front equals it |
| `PriorityQueues.RemoveFirstAt` | huffman/file_de_priorite.py:41-45 | `list.remove(x)` deletes the element at the first position holding `x` and keeps the others in order |
| `PriorityQueues.PriorityQueue.Dequeue` | huffman/file_de_priorite.py:41-45 | an empty queue raises the empty-queue error and is unchanged; otherwise the front (minimum) is returned and removed, the rest keeping its order |
| `PriorityQueues.PriorityQueue.IsEmpty` | huffman/file_de_priorite.py:55-58 | true exactly when the length is 0 |
| `PriorityQueues.PriorityQueue.Length` | huffman/file_de_priorite.py:60-61 | the number of queued trees |
| `HuffmanTrees.MakeTree` | huffman/arbre_huffman.py:37-60 | a leaf exactly from a truthy element and count without children, storing both; a node exactly from two distinct children without element or count, its count the children's sum; one child alone reads a field of `None`; every other combination is incoherent |
| `HuffmanTrees.Element` | huffman/arbre_huffman.py:62-86 | succeeds exactly on a leaf (`est_une_feuille`), returning its byte; an internal node raises `DoitEtreUneFeuilleError` |
| `HuffmanTrees.LeftChild` | huffman/arbre_huffman.py:88-98 | succeeds exactly on an internal node, returning its left subtree; a leaf raises `NeDoitPasEtreUneFeuilleError` |
| `HuffmanTrees.RightChild` | huffman/arbre_huffman.py:100-110 | succeeds exactly on an internal node, returning its right subtree; a leaf raises `NeDoitPasEtreUneFeuilleError` |
| `HuffmanTrees.ComparisonsSeeOnlyCounts` | huffman/arbre_huffman.py:132-154 | trees of equal count compare alike against any tree whatever their shapes and elements; `>`/`>=` are the mirrors of `<`/`<=`, and `<=`/`>=` are the negations of `>`/`<` |
| `HuffmanTrees.EqualIsStructural` | huffman/arbre_huffman.py:156-168 | the recursive `__eq__` (same element and count for leaves; same count and equal subtrees for nodes; a leaf never equals a node) holds exactly for identical trees |
| `HuffmanTrees.NotEqual` | huffman/arbre_huffman.py:179-183 | `!=` holds exactly when the trees differ |
| `BinaryCodes.Bit.Value` | huffman/code_binaire.py:12-15 | the value of a bit is 0 or 1, and 0 exactly for `BIT_0` |
| `BinaryCodes.Bit.Length` | huffman/code_binaire.py:17-18 | a bit has length 1, never 0: the empty-value test of `__setitem__` cannot fire for a bit, and `__delitem__` at one index (`DeleteAt`) subtracts exactly one, so it raises on a one-bit code |
| `BinaryCodes.Bit.Digit` | huffman/code_binaire.py:24-26 | `__str__` of a bit is the character `0` or `1`, `0` exactly for `BIT_0` |
| `BinaryCodes.BitCode.constructor` | huffman/code_binaire.py:31-40 | a code is built from a mandatory first bit and the further bits, so it holds at least one bit |
| `BinaryCodes.BitCode.Append` | huffman/code_binaire.py:42-47 | appends exactly one bit at the end; earlier bits unchanged |
| `BinaryCodes.BitCode.Length` | huffman/code_binaire.py:54-56 | the number of bits, never below 1 |
| `BinaryCodes.BitCode.Get` | huffman/code_binaire.py:58-62 | an integer index (negative from the end) gives that bit; an index out of range raises `IndexError` |
| `BinaryCodes.BitCode.GetSlice` | huffman/code_binaire.py:58-62 | a slice gives a new code of exactly those bits; an empty slice calls the constructor without a first bit and raises |
| `BinaryCodes.BitCode.SetAt` | huffman/code_binaire.py:64-71 | assigning a bit at an index replaces only that position; an index out of range raises and changes nothing |
| `BinaryCodes.BitCode.SetSlice` | huffman/code_binaire.py:64-71 | an empty value raises `AuMoinsUnBitError` and changes nothing; otherwise the slice is replaced by the given bits |
| `BinaryCodes.BitCode.DeleteAt` | huffman/code_binaire.py:98-104 | deleting the last remaining bit raises `AuMoinsUnBitError` without change; otherwise exactly that bit is removed |
| `BinaryCodes.BitCode.DeleteSlice` | huffman/code_binaire.py:98-104 | a deletion that would leave fewer than one bit raises without change; otherwise exactly the slice is removed |
| `BinaryCodes.BitCode.Equals` | huffman/code_binaire.py:111-113 | two codes are equal exactly when they have the same length and the same bit at every position |
| `BinaryCodes.BitCode.Concat` | huffman/code_binaire.py:119-120 | a new code holding the left bits followed by the right bits, its length the sum |
| `BinaryCodes.BitCode.ToString` | huffman/code_binaire.py:129-133 | the string `cdc` unchanged, then one digit per bit in order (`0` or `1`), so the length is that of `cdc` plus the code length |
| `Compression.Statistics` | huffman/huffman.py:14-26 | reading from position 0 to the end counts each byte as many times as it occurs (the counter is the histogram of the source, keys in first-occurrence order) and returns the number of bytes read |
| `Compression.HistogramSpec` | huffman/huffman.py:14-26 | the counted keys are exactly the bytes of the source, each with its number of occurrences, between 1 and the length |
| `Compression.StatisticsTotal` | huffman/huffman.py:14-26 | the counts returned by `statistiques` add up to the returned length |
| `Compression.CountByte` | huffman/huffman.py:22-25 | one iteration of the reading loop: the counter becomes the histogram of one more byte of the source, its keys still in first-occurrence order |
| `TreeBuilding.SortedKeysSpec` | huffman/huffman.py:37-38 | the seeding order is strictly increasing and lists exactly the counter's keys, that is `sorted(stat.elements)` |
| `TreeBuilding.SeedQueue` | huffman/huffman.py:32-39 | one leaf per key is enqueued in ascending byte order, each with its key's count; a zero count makes the leaf constructor raise |
| `TreeBuilding.EnqueueLeaf` | huffman/huffman.py:37-38 | the leaf of one key succeeds exactly when its count is not 0, and is then enqueued at its insertion point after the leaves of the smaller keys |
| `TreeBuilding.SeedSpec` | huffman/huffman.py:32-39 | the seeded queue holds exactly the seed leaves and their total count; it is empty exactly for an empty counter |
| `TreeBuilding.MergeFront` | huffman/huffman.py:41-46 | the first tree dequeued becomes the right child and the second the left child of a new node, which is enqueued back |
| `TreeBuilding.BuildHuffmanTree` | huffman/huffman.py:28-51 | the seeding, the merging loop and the final `defiler` compute exactly the specified tree, or its exception |
| `TreeBuilding.MergeSpec` | huffman/huffman.py:48-51 | the merging keeps every leaf and the total count, ending in one tree; only an empty queue fails, with the empty-queue error |
| `TreeBuilding.BuildTreeSpec` | huffman/huffman.py:28-51 | building fails exactly on an empty counter (empty-queue error) or a zero count; otherwise the tree is well formed, its leaves are exactly one leaf per key with its count, and the root count is the total count |
| `TreeBuilding.OneKey` | huffman/huffman.py:48-51 | a single key gives a single leaf as the whole tree |
| `TreeBuilding.TwoEqualCountsSeed` | huffman/huffman.py:37-39 | for two keys `x < y` of equal count (such as `{A:1, B:1}`) the queue is `[y, x]`: the later equal leaf goes in front |
| `TreeBuilding.TwoEqualCounts` | huffman/huffman.py:37-51 | for two keys `x < y` of equal non-zero count the tree is `x` on the left and `y` on the right, its count the sum |
| `TreeBuilding.ThreeKeysSeed` | huffman/huffman.py:37-39 | three keys `x < y < z` with non-increasing counts are queued as `[z, y, x]`, each later leaf going in front |
| `TreeBuilding.ThreeKeysTree` | huffman/huffman.py:37-51 | for three keys with non-increasing counts where the two rarest together do not outweigh the first, the two rarest are merged first and that node goes to the right of the first key |
| `CodeTables.FillDomain` | huffman/huffman.py:57-69 | `table_codage` adds exactly the bytes of the subtree and leaves every other entry alone |
| `CodeTables.FillCodes` | huffman/huffman.py:57-69 | each byte of the subtree gets a code that extends the given prefix and then walks (0 left, 1 right) to a leaf holding that byte |
| `CodeTables.CodeTableSpec` | huffman/huffman.py:53-77 | with two or more leaves the table holds exactly the bytes of the tree, each with a non-empty root-to-leaf path as its code; a lone leaf maps to the bare `Bit.BIT_0` |
| `CodeTables.PrefixFree` | huffman/huffman.py:53-77 | with two or more leaves, no byte's code is a prefix of another byte's code |
| `CodeTables.TwoLeafCodes` | huffman/huffman.py:71-74 | for the tree of `{A:1, B:1}`, A gets `0` and B gets `1` |
| `CodeTables.ThreeLeafCodes` | huffman/huffman.py:57-74 | for the tree of `A:5, B:1, C:1`, A gets `0`, B gets `10`, C gets `11` |
| `BitPacking.ListToByte` | huffman/huffman.py:83-93 | the accumulator loop, with fractional terms for exponents below 0 and the final truncation, yields the first eight bits read most significant first, missing low bits being 0 |
| `BitPacking.NaturalToList` | huffman/huffman.py:181-192 | the digit loop, the zero padding and the reversal give a list of at least eight bits whose value is the input, exactly the eight-bit writing for a byte |
| `BitPacking.ByteOfBitsOf` | huffman/huffman.py:83-93 | packing the eight bits of a byte gives the byte back |
| `BitPacking.BitsOfByteOf` | huffman/huffman.py:181-192 | unpacking the byte of eight bits gives the bits back |
| `BitPacking.ByteOfTwoBits` | huffman/huffman.py:83-93 | `list_to_byte([0, 1])` is `0x40`: two high bits, six zero low bits |
| `Streams.FromToBytes` | huffman/huffman.py:103-108 | reading back the four little-endian bytes of a number below 2^32 gives the number |
| `Compression.HeaderLayout` | huffman/huffman.py:95-118 | the header is 1032 bytes: `"HUFF"`, the length, then the count of byte `b` (0 when absent) at offset `8 + 4b` |
| `Compression.IdentifierWrite` | huffman/huffman.py:95-101 | one byte per character is appended, in order |
| `Compression.LengthWrite` | huffman/huffman.py:103-108 | the length is appended as four little-endian bytes |
| `Compression.StatsWriteBigFile` | huffman/huffman.py:110-118 | the 256 count slots are appended in byte order |
| `Compression.WriteMagic` | huffman/huffman.py:95-101 | `identifiant_write("HUFF")` appends exactly the four bytes 72, 85, 70, 70 |
| `Compression.WriteHeader` | huffman/huffman.py:160-173 | "HUFF", the length and the 256 counts are appended, in that order, whatever the length |
| `Compression.DistributeSplit` | huffman/huffman.py:146-150 | a code's bits fill the byte buffer up to eight bits and the rest go, in order, to the carry buffer |
| `Compression.FillBuffer` | huffman/huffman.py:141-151 | the inner loop computes the specified pass: bytes are read while the buffer holds fewer than eight bits, and a bare-bit entry raises |
| `Compression.DistributeCode` | huffman/huffman.py:146-150 | the `for bit in code` loop computes the specified split of a code between the byte buffer and the carry buffer |
| `Compression.WritePass` | huffman/huffman.py:139-153 | one pass writes one packed byte, or raises the `TypeError` of a bare bit before writing; what remains to write is the passes from the new position and carry, and the position advances or else the carry shrinks |
| `Compression.WritePasses` | huffman/huffman.py:137-153 | the outer loop, from the start of the source with an empty carry, writes exactly the specified bytes and ends with the specified exception |
| `Compression.WriteCodes` | huffman/huffman.py:137-153 | the nested loops write exactly one packed byte per pass and stop with the `TypeError` of a bare-bit entry |
| `Compression.HistogramTree` | huffman/huffman.py:130-136 | for a non-empty source the tree builds, every source byte has a table entry, and the root count is the source length |
| `Compression.CodeWrite` | huffman/huffman.py:130-153 | rebuilds the tree and table from the statistics and appends exactly the specified payload |
| `Compression.Compress` | huffman/huffman.py:155-175 | appends the header whatever the length, then the payload only when the length is not 0, and reports the exception the payload raises |
| `Compression.WritePayload` | huffman/huffman.py:159-174 | `code_write` runs only when the length is not 0, appending exactly the specified payload and reporting its exception |
| `Compression.WriteContainer` | huffman/huffman.py:159-174 | the header followed by the payload: exactly the specified container, and the exception of the payload |
| `Compression.CompressedStartsWithHeader` | huffman/huffman.py:155-175 | the output starts with the 1032-byte header and the payload follows it; an empty source gives the header alone, without error |
| `Compression.SingleSymbolCrashes` | huffman/huffman.py:140-146 | a source made of one byte value gets a header and then the `TypeError` of iterating a bare bit, with no payload byte |
| `Compression.TwoSymbolPayload` | huffman/huffman.py:130-153 | `"AB"` has the payload `0x40` |
| `Compression.SevenSymbolPayload` | huffman/huffman.py:139-153 | `"CAAAAAB"` has the payload `0xC1` alone: the ninth code bit, carried over, is never written |
| `Compression.TwoSymbolTree` | huffman/huffman.py:28-51 | `"AB"` builds A on the left and B on the right |
| `Compression.SevenSymbolTree` | huffman/huffman.py:28-51 | `"CAAAAAB"` builds A on the left and a node of B (left) and C (right) on the right |
| `Compression.LongCarryTruncated` | huffman/huffman.py:87-92 | with the prefix-free codes seventeen bits 1 and one bit 0, the nine carried bits go through one `list_to_byte`, so only sixteen of the seventeen bits 1 are written |
| `Decompression.IdentifierOf` | huffman/huffman.py:194-201 | the identifier read is `"HUFF"` exactly when the source starts with those four bytes |
| `Decompression.SearchIdentifier` | huffman/huffman.py:194-201 | four one-byte reads from the start, a read past the end giving the character 0 |
| `Decompression.IdentifierRead` | huffman/huffman.py:199-200 | the `i`-th one-byte read yields the `i`-th identifier character, 0 past the end, and leaves the position after byte `i` (or at the end) |
| `Decompression.StatsMap` | huffman/huffman.py:203-212 | the rebuilt counter holds exactly the byte values whose four-byte slot is non-zero, with that count |
| `Decompression.SearchStats` | huffman/huffman.py:203-212 | the 256 reads build exactly that counter, with keys in ascending order, and move past the table |
| `Decompression.ReadSlot` | huffman/huffman.py:208-211 | one four-byte read: the counter gains the byte value exactly when its slot is non-zero, keys stay ascending, and the position moves past the slot |
| `Decompression.StepBits` | huffman/huffman.py:224-232 | walking bits writes at most one byte per bit; the only exception is stepping down from a leaf; the written count grows by the bytes written |
| `Decompression.WalkBit` | huffman/huffman.py:225-232 | one bit writes the leaf byte when on a leaf, then steps left on 0 and right on 1 as `StepBit` specifies, which raises `NeDoitPasEtreUneFeuilleError` when the node it steps from is a leaf |
| `Decompression.WalkPendingBits` | huffman/huffman.py:224-232 | the inner loop writes exactly what the walk over the byte's bits specifies and stops at its exception |
| `Decompression.WalkByte` | huffman/huffman.py:223-232 | the eight bits of a byte, most significant first, are walked as specified |
| `Decompression.WalkBits` | huffman/huffman.py:224-232 | the inner loop over one byte's bits writes exactly the specified bytes and stops at the specified exception |
| `Decompression.Reconstruction` | huffman/huffman.py:214-233 | the outer loop reads one byte ahead, checks the length only between bytes, and writes exactly the specified bytes |
| `Decompression.ReconstructionStep` | huffman/huffman.py:223-233 | one outer iteration walks the byte read ahead and reads the next one unless the walk raised; what remains to write is the reconstruction from the next byte |
| `Decompression.ReconstructionLoop` | huffman/huffman.py:222-233 | the outer loop writes exactly the specified reconstruction and ends with its exception |
| `Decompression.Decompress` | huffman/huffman.py:235-246 | writes exactly what the container specifies: nothing without `"HUFF"`; otherwise the walk over the payload with the tree rebuilt from the counts, or the exception of building it |
| `Decompression.DecompressBody` | huffman/huffman.py:239-246 | after `"HUFF"`: the length, the counts, the tree and the walk write exactly the specified output, or the exception of building the tree |
| `Decompression.NotHuffNoOutput` | huffman/huffman.py:238-239 | a source not starting with `"HUFF"` decompresses to nothing, without an exception |
| `Decompression.ReadHeader` | huffman/huffman.py:238-242 | a written header reads back as `"HUFF"`, the length and exactly the non-zero counts, and the payload starts at byte 1032 |
| `Decompression.ReadSourceHeader` | huffman/huffman.py:203-212 | the header `compresser` writes reads back as the source's length and statistics |
| `Decompression.DecompressCompressed` | huffman/huffman.py:235-246 | decompressing a compressed non-empty source walks the payload with the very tree the compression used, for the source's length |
| `Decompression.EmptyContainerCrashes` | huffman/huffman.py:242-244 | the container of an empty source decompresses to nothing and raises the empty-queue error |
| `Decompression.TwoSymbolDecode` | huffman/huffman.py:222-228 | `"AB"` compressed and decompressed gives `"ABAAAAA"` |
| `Decompression.SevenSymbolDecode` | huffman/huffman.py:139-153 | `"CAAAAAB"` compressed and decompressed gives `"CAAAAA"` |
| `Decompression.SevenSymbolRoundTrip` | huffman/huffman.py:214-233 | the payload `0xC1` for the tree of `"CAAAAAB"` walks back to `"CAAAAA"`: the seventh byte is never reached |
| `CorrectedCodec.CorrectedCodeTable` | huffman/huffman.py:71-77 | the corrected table holds exactly the tree's bytes, each with a code of at least one bit (`[0]` for a lone leaf) that walks from the root to that byte's leaf |
| `CorrectedCodec.UnpackPack` | huffman/huffman.py:130-153 | packing all the code bits and unpacking them gives every bit back, followed by fewer than eight zero padding bits |
| `CorrectedCodec.DescendCode` | huffman/huffman.py:224-232 | a code leading to a leaf descends to that leaf's byte and leaves exactly the bits after it |
| `CorrectedCodec.DecodeEncode` | huffman/huffman.py:214-233 | decoding the code bits of a source, followed by any padding, for the source's length gives the source back |
| `CorrectedCodec.CorrectedRoundTrip` | huffman/huffman.py:155-246 | every source shorter than 2^32 bytes, empty and single-symbol ones included, decompresses from its corrected container to itself, without an exception |
| `CorrectedCodec.CorrectedTwoSymbols` | huffman/huffman.py:214-233 | as corrected, `"AB"` still packs to `0x40` and now decompresses to `"AB"` |
| `CorrectedCodec.CorrectedSevenSymbols` | huffman/huffman.py:139-153 | as corrected, `"CAAAAAB"` packs to `0xC1 0x00`, keeping the ninth bit |
| `CorrectedCodec.CorrectedLongCode` | huffman/huffman.py:87-92 | as corrected, the eighteen bits 1 pack to `0xFF 0xFF 0xC0` and all eighteen unpack again |

## Left out

- The command line (`huff.py`): argument parsing, file existence checks, opening and closing files, and verbose printing.
- The `yield` progress strings of `compresser` and `decompresser`. They are informational, so the model has plain methods.
- Real `io.RawIOBase` streams. The source is a byte sequence, or an `InputStream` with a position. The destination is an `OutputStream` that only appends.
- `sys.byteorder`: every four-byte integer is little-endian.
- `Compression.Compress`: requires a source shorter than 2^32 bytes. Beyond that `to_bytes(4)` raises `OverflowError`, which is not modelled.
- Python's dynamic type checks. `ElementNonComparableError`, the `TypeError`s of `CodeBinaire` for non-`Bit` values, and `_verification_type` are ruled out by Dafny's types.
- `PriorityQueues.PriorityQueue`: holds only Huffman trees, the one element type the engine queues. Comparability probing is left out with the type checks.
- `PriorityQueues.PriorityQueue.Enqueue`: the optional start index `i` of `enfiler` is fixed at 0, the value every call site uses. A caller-supplied `i > 0` skips the first `i` elements, which may be larger than the new one, so it can land after larger elements and break sortedness; an index past the end appends. That is not modelled.
- `BinaryCodes.BitCode.GetSlice`: slices with a step other than 1 are not modelled, and neither is `__iter__`.
- `BinaryCodes.BitCode.SetSlice`: only slices of step 1 are modelled; assigning to an extended slice (a step other than 1), including the `ValueError` Python raises when the value's length differs from the slice's, is not.
- `BinaryCodes.BitCode.DeleteSlice`: only slices of step 1 are modelled; deleting an extended slice, which removes every k-th bit of the range, is not.
- `Counters.Counter.GroupsByCount`: the pairs follow the first appearance of each count. Python iterates a `set`, whose order the model does not fix, so the contract says nothing about order.
- `BitPacking.ListToByte`: uses exact fractions. Python floats could round a sum of more than about 45 fractional terms up to the next integer. That needs a carry of over 53 bits, and it is not modelled.
- `__repr__`, `__str__` and `__hash__` of the tree, the queue and the counter, the commented-out `stats_write`, and the `__main__` demonstration blocks.

## Findings

| source | as written | input that shows it | evidently intended | confidence | as-written member | corrected member |
|---|---|---|---|---|---|---|
| huffman/huffman.py:139-153 | bits carried into `temp_bit2` in the pass where the source ends are never written | `"CAAAAAB"`: payload `0xC1`, which decompresses to `"CAAAAA"` | every code bit is written, the last byte padded with 0 bits | high (proved; not executed) | `Compression.SevenSymbolPayload` | `CorrectedCodec.UnpackPack` |
| huffman/huffman.py:87-92 | a carry of more than eight bits goes whole into one `list_to_byte`, which keeps only the first eight | the prefix-free codes seventeen bits 1 and one bit 0, for two bytes: `0xFF 0xFF 0x00`, sixteen of the seventeen bits 1 | every carried bit reaches a byte | medium (proved on a given prefix-free table; a tree needs a code of at least 10 bits for it; not executed) | `Compression.LongCarryTruncated` | `CorrectedCodec.CorrectedLongCode` |
| huffman/huffman.py:222-228 | the decoder writes a leaf's byte only when the next bit arrives, and checks the length only between input bytes | `"AB"` (payload `0x40`) decompresses to `"ABAAAAA"` | a byte is written on reaching its leaf, and decoding stops at the stored length | high (proved; not executed) | `Decompression.TwoSymbolDecode` | `CorrectedCodec.DecodeEncode` |
| huffman/huffman.py:76 | a lone leaf gets a bare `Bit.BIT_0`, which `code_write` cannot iterate (`TypeError`) | `"aaaa"`: header written, then the exception | the one-bit code `CodeBinaire(Bit.BIT_0)` | high (proved; not executed) | `Compression.SingleSymbolCrashes` | `CorrectedCodec.CorrectedCodeTable` |
| huffman/huffman.py:242-244 | the tree is built even for a length of 0, and an empty counter empties the queue (`FileDePrioriteVideError`) | the container of `""` | a length of 0 decompresses to nothing | high (proved; not executed) | `Decompression.EmptyContainerCrashes` | `CorrectedCodec.CorrectedRoundTrip` |

# Huffman file coder: a Dafny model

This project models `huffmanCompress.cpp`, a single-file Huffman coder. Its
pieces are:

- a first pass that counts the occurrences of each byte of the input;
- a min-heap loop that merges the two lightest nodes until one tree is left;
- a traversal that records each leaf's root-to-leaf path as a string of
  '0' and '1' characters;
- a compressed file made of a code-table header (entry count, then per
  entry the symbol, a `size_t` code length and the code characters)
  followed by the code words packed eight to a byte, high bit first, with
  the last byte zero-padded;
- a decompressor that reads the header back, rebuilds a decoding tree from
  the table, and walks the payload bits from the root, writing a symbol and
  returning to the root whenever it lands on a node without children.

Every step is a pure function over immutable data. Two steps also appear as
methods with loop invariants, since that is how the program computes them:
the packing loop (`Packing.PackPayload`) and the decoding loop
(`BitWalk.DecodePayload`).

Modules, one per file, in program order:

| file | module | program part |
|---|---|---|
| basics.dfy | `Basics` | bytes, bit strings, code tables, results, map iteration order |
| frequency.dfy | `Frequency` | the counting pass |
| huffman_tree.dfy | `HuffmanTree` | `buildHuffmanTree` |
| code_gen.dfy | `CodeGen` | `buildHuffmanCodes` |
| header.dfy | `HeaderFormat` | writing and reading the code-table header |
| packing.dfy | `Packing` | bit packing of the payload and its expansion |
| trie.dfy | `Trie` | `rebuildHuffmanTree`; its node type is `DecodeTree` |
| bit_walk.dfy | `BitWalk` | the decoding walk |
| pipeline.dfy | `Pipeline` | `compressFile` / `decompressFile` end to end |

The main theorem is `Pipeline.RoundTrip`. Decompressing a compressed
non-empty input `s` gives `s` back, followed by a fixed number of copies of
the leftmost leaf's symbol. That number is how many whole copies of that
symbol's all-zeros code fit in the zero padding of the last byte. The
padding is never more than 7 bits, so:

- the input is always a prefix of the output, with fewer than 8 extra symbols
  (`Pipeline.RoundTripPrefix`);
- the round trip is exact whenever the code words fill whole bytes
  (`Pipeline.RoundTripExact`).

The file stores no bit count, so the decoder cannot tell padding from data.
This is a limitation of the format, and the model states its exact effect
rather than hiding it.

## Modelling choices

- **Bytes and code strings.** A byte is an `int` in 0..255. A code string is
  a `seq<bool>`: `false` is '0' and means "left", `true` is '1' and means
  "right".
- **Map iteration order.** The program iterates `unordered_map`s whose order
  the standard leaves unspecified. The model fixes one order: ascending byte
  value (`Basics.SortedKeys`, `Basics.Entries`). This order is used
  everywhere the program iterates a map: filling the heap (line 21), writing
  the header (line 82) and rebuilding the tree (line 121).
- **Heap ties.** `std::priority_queue` leaves equal-weight order unspecified.
  The model's queue is a sequence: `PopMin` takes the first element of least
  weight, and a merged node is appended at the end. The proved properties
  (conservation, greediness, shape) do not depend on this choice.
- **`size_t` fields.** A `size_t` is taken to be 8 bytes, least significant
  byte first (`HeaderFormat.LE`). Writing takes the value modulo 256^8;
  reading back is exact for every value that fits.
- **Corrected table.** Two defects of `buildHuffmanCodes` are listed under
  Findings. The model keeps the code as written (`CodeGen.SourceCodes`,
  `Pipeline.SourceCompress`) and the corrected table (`CodeGen.CodeTable`,
  `Pipeline.Compress`). The corrected table is what the round-trip theorem is
  about. It records every leaf, byte 0 included, and gives a lone leaf at the
  root the one-bit code "0". Leaves and internal nodes are told apart by
  their tag, not by a `'\0'` data sentinel. For inputs without byte 0 and
  with two or more distinct bytes, the two coders write the same file
  (`Pipeline.SourceAgrees`), so the round-trip theorem covers the program
  as written there.
- **Null dereferences.** Stepping to a child that does not exist dereferences
  a null pointer in the program. Here it is `Failure(FellOffTrie)`.
- **Truncated headers.** A header that ends early is `Failure(Truncated)`.

## Model

| member | source | states |
|---|---|---|
| Basics.SortedKeys | huffmanCompress.cpp:21-23 | The iteration order used for every table: each key listed once, strictly ascending, exactly the table's keys, at most 256 of them |
| Frequency.Count | huffmanCompress.cpp:59-64 | After the counting pass, a byte is a key exactly when it occurs in the input, and its count is its number of occurrences (always positive) |
| Frequency.Bump | huffmanCompress.cpp:63 | `freqs[ch]++`: the byte read becomes a key, its count goes up by one from the default 0, and every other key keeps its count |
| Frequency.TallyBump | huffmanCompress.cpp:63 | `freqs[ch]++` raises the sum of counts over any key list by the number of times that list names `ch` |
| Frequency.CountTotal | huffmanCompress.cpp:59-64 | Over any duplicate-free list of symbols covering the input, the counts add up to the input length |
| Frequency.CountSum | huffmanCompress.cpp:59-64 | The counts of all keys of the frequency table add up to the input length |
| HuffmanTree.TreeShape | huffmanCompress.cpp:35-38 | A tree of joined nodes with n leaves has n - 1 internal nodes and height below n |
| HuffmanTree.Aggregates | huffmanCompress.cpp:18-38 | Total weight, leaf-symbol multiset and internal-node count of a queue are additive over concatenation |
| HuffmanTree.ForestLeavesAppend | huffmanCompress.cpp:18-38 | The leaves of a queue, each with its symbol and count, are additive over concatenation |
| HuffmanTree.Remove | huffmanCompress.cpp:29-33 | Removing one queue element keeps the order of the others, and takes exactly that element's share out of the multiset, the total weight, the leaf symbols and the internal-node count |
| HuffmanTree.RemoveLeaves | huffmanCompress.cpp:29-33 | Taking one node out of the queue takes exactly that node's leaves out of the queue's leaves |
| HuffmanTree.MinIndex | huffmanCompress.cpp:12-14 | The heap's top under `greater`: an element no heavier than any other, and strictly lighter than every element before it (the first minimum) |
| HuffmanTree.PopMin | huffmanCompress.cpp:27-33 | `top()` then `pop()`: the node taken weighs no more than any node left, and the nodes left plus the one taken are the old queue as a multiset, with weight, symbols and internal count conserved |
| HuffmanTree.PopMinLeaves | huffmanCompress.cpp:27-33 | `top()` then `pop()` keeps every leaf: the leaves left plus those of the node taken are the old queue's leaves |
| HuffmanTree.PopMinFrom | huffmanCompress.cpp:27-33 | The node taken and every node left were in the queue |
| HuffmanTree.MergeShape | huffmanCompress.cpp:26-38 | A merge pushes an internal node whose weight is the sum of its two children, and the rest of the queue plus those children is exactly the old queue |
| HuffmanTree.Merge | huffmanCompress.cpp:26-39 | One loop iteration shortens the queue by one; `MergeShape`, `MergeConserves`, `MergeLeaves` and `MergeIsGreedy` state what it pushes and what it keeps |
| HuffmanTree.MergeConserves | huffmanCompress.cpp:35-38 | A merge keeps the total weight and the multiset of leaf symbols, and adds exactly one internal node |
| HuffmanTree.MergeLeaves | huffmanCompress.cpp:26-38 | A merge keeps every leaf of the queue with its symbol and count |
| HuffmanTree.PushConserves | huffmanCompress.cpp:35-38 | Pushing the join of two nodes adds their weights, their leaf symbols and one more internal node than they had |
| HuffmanTree.MergeIsGreedy | huffmanCompress.cpp:26-38 | Each merge is greedy: the left child weighs no more than the right, and no node still queued is lighter than either child |
| HuffmanTree.Build | huffmanCompress.cpp:26-43 | The tree returned weighs the total of the queue, holds each queued leaf symbol exactly as often as the queue did, has as its leaves exactly the queued leaves with their counts, and has one internal node per merge (queue length - 1 plus those already queued) |
| HuffmanTree.BuildWellWeighted | huffmanCompress.cpp:35-38 | In the built tree every internal node weighs the sum of its children |
| HuffmanTree.Leaves | huffmanCompress.cpp:21-23 | The initial heap: one leaf per key in iteration order, carrying that key's count; it weighs the sum of the counts and holds no internal node |
| HuffmanTree.QueueLeaves | huffmanCompress.cpp:21-23 | Every node of the initial heap is a leaf for a key carrying that key's count, and every key has one, as `HuffmanNode(entry.first, entry.second)` builds it |
| HuffmanTree.HuffmanTreeOf | huffmanCompress.cpp:68 | The tree `compressFile` builds; `HuffmanTreeWeight`, `HuffmanTreeWellWeighted`, `HuffmanTreeLeaves`, `HuffmanTreeLeafCounts` and `HuffmanTreeShape` characterise it |
| HuffmanTree.HuffmanTreeWeight | huffmanCompress.cpp:17-44 | The tree built for an input weighs the input length |
| HuffmanTree.HuffmanTreeWellWeighted | huffmanCompress.cpp:17-44 | In the tree built for an input, every internal node weighs the sum of its children |
| HuffmanTree.HuffmanTreeLeaves | huffmanCompress.cpp:17-44 | The tree's leaves carry distinct symbols, exactly the bytes occurring in the input, one leaf per distinct byte |
| HuffmanTree.HuffmanTreeLeafCounts | huffmanCompress.cpp:17-44 | Every leaf of the tree built for an input holds an input byte together with its number of occurrences, and every input byte has such a leaf |
| HuffmanTree.HuffmanTreeShape | huffmanCompress.cpp:17-44 | The tree has one internal node fewer than the input has distinct bytes, and height below that number (at most 255) |
| CodeGen.Codes | huffmanCompress.cpp:46-54 | The recorded symbols are exactly the leaf symbols; each code extends the starting path by at most the tree height, and strictly when the tree is a node |
| CodeGen.CodesArePaths | huffmanCompress.cpp:46-54 | Following a recorded code from the root ('0' left, '1' right) reaches a leaf holding that symbol |
| CodeGen.CodesPrefixFree | huffmanCompress.cpp:46-54 | No recorded code is a prefix of another symbol's code |
| CodeGen.CodesLeftmost | huffmanCompress.cpp:46-54 | With distinct leaf symbols, the leftmost leaf's code is the starting path followed by only '0's, one per level |
| CodeGen.CodeTable | huffmanCompress.cpp:46-54 | The corrected table: its keys are exactly the leaf symbols, and every code is non-empty and no longer than the height plus one |
| CodeGen.CodeTablePrefixFree | huffmanCompress.cpp:46-54 | The corrected table is prefix-free |
| CodeGen.CodeTableLeftmost | huffmanCompress.cpp:46-54 | In the corrected table the leftmost leaf's code is a non-empty run of '0's |
| CodeGen.SourceCodes | huffmanCompress.cpp:46-54 | As written, the table is the path table with byte 0 removed, since the `'\0'` test skips a leaf for byte 0 as well as internal nodes |
| HeaderFormat.FromLEBound | huffmanCompress.cpp:148-149 | A field of k bytes read back is below 256^k |
| HeaderFormat.LE | huffmanCompress.cpp:78-86 | A `size_t` field is written as 8 bytes; `FromLEOfLE` and `LEOfFromLE` show reading it back is its inverse |
| HeaderFormat.FromLEOfLE | huffmanCompress.cpp:78-79 | A `size_t` field written and read back gives the value written, for any value that fits |
| HeaderFormat.LEOfFromLE | huffmanCompress.cpp:155-157 | A field read and written again gives the same bytes |
| HeaderFormat.BitChars | huffmanCompress.cpp:87 | A code is stored as one character per bit, '1' for a right step and '0' for a left step |
| HeaderFormat.CharsToBits | huffmanCompress.cpp:124-135 | The rebuild takes at most one step per stored character, and exactly the step each '0' or '1' names when every character is one of those |
| HeaderFormat.EntriesBytes | huffmanCompress.cpp:82-88 | Each written entry takes at least nine bytes: the symbol and its `size_t` length |
| HeaderFormat.Header | huffmanCompress.cpp:77-88 | The header's count field reads back as the number of entries, and each entry takes at least nine bytes after it; `ParseHeaderRoundTrip` reads the whole header back |
| HeaderFormat.EntryFields | huffmanCompress.cpp:83-87 | A written entry is the symbol, then the length field, then the code characters, then whatever follows |
| HeaderFormat.ReadOneEntry | huffmanCompress.cpp:154-162 | Reading one written entry stores its code for its symbol and continues at the bytes after it |
| HeaderFormat.CharsToBitsOfBitChars | huffmanCompress.cpp:124-135 | The stored characters of a code, read as steps by the rebuild, give the code back |
| HeaderFormat.ReadEntries | huffmanCompress.cpp:153-163 | Reading entries leaves an unread suffix of the input, strictly shorter when any entry was read; reading none changes nothing |
| HeaderFormat.ParseHeader | huffmanCompress.cpp:148-163 | Input shorter than a `size_t` is a truncated header; a parsed header leaves a suffix of the input after the count field |
| HeaderFormat.ReadEntriesBytes | huffmanCompress.cpp:82-88 | Reading back written entries stores them in order, as `huffmanCodes[ch] = code` does, and leaves the bytes after them untouched |
| HeaderFormat.StoreCovers | huffmanCompress.cpp:161 | Storing entries that agree with a table and, with what is already stored, cover it gives that table |
| HeaderFormat.StoreEntries | huffmanCompress.cpp:161 | Storing every entry of a table into an empty table gives the table back |
| HeaderFormat.EntriesReadBack | huffmanCompress.cpp:153-163 | Reading the entries of a written table gives the table and the bytes after it |
| HeaderFormat.ParseHeaderRoundTrip | huffmanCompress.cpp:78-88 | Parsing a written header gives back the table written and exactly the bytes that follow it, for any table whose code lengths fit a `size_t` |
| Packing.Encode | huffmanCompress.cpp:93-96 | The code words of the input in order: the first symbol's code word comes first, and with non-empty code words there is at least one bit per symbol |
| Packing.EncodeOfPrefix | huffmanCompress.cpp:93-96 | The code words of a prefix of the input are a prefix of the code words of the whole input |
| Packing.EncodeAppend | huffmanCompress.cpp:93-96 | The code words of `a + b` are those of `a` followed by those of `b` |
| Packing.FromBitsBound | huffmanCompress.cpp:98 | n bits denote a number below 2^n |
| Packing.ByteOf | huffmanCompress.cpp:102 | A full buffer denotes a value that fits in one byte, namely the value of its bits |
| Packing.ToBitsOfFromBits | huffmanCompress.cpp:98 | Reading the bits of the number a bit string denotes gives the bit string back |
| Packing.FromBitsOfToBits | huffmanCompress.cpp:174 | Taking the low n bits of a number below 2^n and reading their value gives the number back |
| Packing.PadLen | huffmanCompress.cpp:110-111 | The padding of the last byte is under 8 bits and completes a whole byte |
| Packing.Pack | huffmanCompress.cpp:91-112 | The payload holds the bits in whole bytes: at least one bit per bit packed and fewer than 8 spare |
| Packing.Unpack | huffmanCompress.cpp:171-174 | The decoder reads exactly 8 bits per payload byte |
| Packing.UnpackPack | huffmanCompress.cpp:91-112 | Expanding a packed payload gives the packed bits followed by the zero padding of the last byte |
| Packing.PackUnpack | huffmanCompress.cpp:171-174 | Packing the bits of whole bytes gives those bytes back |
| Packing.PackAppend | huffmanCompress.cpp:99-104 | Packing splits at any whole number of bytes |
| Packing.PackingDone | huffmanCompress.cpp:110-112 | Once all bits are in, the completed bytes plus a flushed partial buffer are the packing of all the bits |
| Packing.PackingStep | huffmanCompress.cpp:98-105 | Setting one more bit, and emitting and clearing a full buffer, keeps the loop state: completed bytes are the packing of the bits so far, and the buffer holds the rest with clear low bits |
| Packing.PackingEmit | huffmanCompress.cpp:99-104 | Emitting a full buffer appends the byte its eight bits spell and leaves an empty buffer |
| Packing.PushCode | huffmanCompress.cpp:96-106 | Pushing one code word bit by bit keeps the loop state for the bits pushed so far |
| Packing.PackPayload | huffmanCompress.cpp:91-112 | The payload loop writes exactly the packing of the input's code words, within the byte bounds above |
| Trie.Insert | huffmanCompress.cpp:123-137 | Inserting one entry always leaves a root node; `InsertBranch`, `InsertOffPath`, `InsertData` and `InsertKeeps` state what it creates and stores |
| Trie.AtSnoc | huffmanCompress.cpp:124-135 | Following one more bit is one more child step, and nothing exists below a missing node |
| Trie.InsertBranch | huffmanCompress.cpp:123-137 | After inserting a code, a node exists at a path exactly when one existed before or the path is a prefix of the code |
| Trie.AtFresh | huffmanCompress.cpp:120 | A fresh root has no node below it |
| Trie.InsertOffPath | huffmanCompress.cpp:123-137 | Inserting a code leaves every subtree off its path unchanged |
| Trie.InsertData | huffmanCompress.cpp:137 | Inserting a code stores the symbol in the node where the code ends |
| Trie.InsertKeepsAbove | huffmanCompress.cpp:123-136 | Inserting a code keeps the data of each node strictly above its end |
| Trie.InsertKeeps | huffmanCompress.cpp:123-137 | Inserting a code keeps the data of every existing node except the one where the code ends |
| Trie.InsertAll | huffmanCompress.cpp:121-138 | Inserting all entries in order leaves a root node; `InsertAllBranch`, `InsertAllKeeps` and `InsertAllData` state what it builds |
| Trie.InsertAllBranch | huffmanCompress.cpp:121-138 | After inserting all entries, a node exists at a path exactly when it existed before or the path is a prefix of some inserted code |
| Trie.InsertAllKeeps | huffmanCompress.cpp:121-138 | Entries none of which ends at a node leave that node's data alone |
| Trie.InsertAllData | huffmanCompress.cpp:121-138 | An entry whose code no later entry repeats keeps its symbol at the end of its code |
| Trie.Rebuild | huffmanCompress.cpp:119-140 | The rebuilt tree always has a root node; `RebuildBranch`, `RebuildData`, `RebuildChildless` and `RebuildReaches` state its shape and contents |
| Trie.RebuildBranch | huffmanCompress.cpp:119-140 | The rebuilt tree has a node at a path exactly when the path is empty or a prefix of some code |
| Trie.RebuildData | huffmanCompress.cpp:119-140 | When no two symbols share a code, the node where a symbol's code ends holds that symbol |
| Trie.ChildlessStops | huffmanCompress.cpp:119-140 | No code runs on past a childless node |
| Trie.ChildlessIsCodeEnd | huffmanCompress.cpp:119-140 | Every childless node is where some code ends, or is the root of the tree for an empty table |
| Trie.CodeEndChildless | huffmanCompress.cpp:119-140 | In a tree rebuilt from a prefix-free table, each code ends at a childless node |
| Trie.RebuildChildless | huffmanCompress.cpp:119-140 | For a prefix-free table, the childless nodes are exactly the code ends (plus the bare root of an empty table) |
| Trie.RebuildReaches | huffmanCompress.cpp:119-140 | For a prefix-free table of non-empty codes, following a symbol's code passes only through nodes with children and ends at a childless node holding that symbol |
| Trie.InsertLeaves | huffmanCompress.cpp:123-137 | Inserting a symbol of K keeps every childless node holding a symbol of K |
| Trie.InsertAllLeaves | huffmanCompress.cpp:121-138 | Inserting entries whose symbols are in K keeps every childless node holding a symbol of K |
| Trie.RebuildLeaves | huffmanCompress.cpp:119-140 | Every childless node of the tree rebuilt from a non-empty table holds one of the table's symbols |
| BitWalk.PrependAll | huffmanCompress.cpp:185 | Symbols written before a walk come before its output; a failure stays a failure |
| BitWalk.Walk | huffmanCompress.cpp:169-189 | The walk either steps off the tree or ends at an existing node, having written at most one symbol per bit |
| BitWalk.WalkAppend | huffmanCompress.cpp:169-189 | Walking `a + b` is walking `a` and then walking `b` from where that ended; a failure in `a` fails the whole |
| BitWalk.WalkCodeFrom | huffmanCompress.cpp:176-187 | Following the rest of a code from partway along it writes the code's symbol and returns to the root |
| BitWalk.WalkCode | huffmanCompress.cpp:176-187 | Following a symbol's whole code from the root writes that symbol and returns to the root |
| BitWalk.WalkEncoded | huffmanCompress.cpp:169-189 | Walking the code words of `s` writes `s` and returns to the root, ready for whatever bits follow |
| BitWalk.WalkPartial | huffmanCompress.cpp:176-187 | A proper part of a code leads from the root to the node it names, writing nothing |
| BitWalk.WalkZeros | huffmanCompress.cpp:169-189 | Zero padding walked from the root writes the all-zeros symbol once per whole run of its code, and does not fail |
| BitWalk.WalkWritesLeaves | huffmanCompress.cpp:182-185 | A walk writes only symbols held by childless nodes |
| BitWalk.ToBitsIndex | huffmanCompress.cpp:172-174 | The j-th bit of a byte's expansion is bit 7 - j of the byte, `(byte >> i) & 1` |
| BitWalk.WalkStep | huffmanCompress.cpp:176-187 | One bit from the current node fails at a missing child, writes a symbol and resets at a childless one, and otherwise moves down |
| BitWalk.DecodeByte | huffmanCompress.cpp:172-188 | The bit loop for one byte does exactly the walk over that byte's 8 bits, high bit first |
| BitWalk.DecodePayload | huffmanCompress.cpp:169-189 | The decoding loop writes exactly what the walk over all payload bits writes, and fails exactly when that walk does |
| BitWalk.UnpackPrefix | huffmanCompress.cpp:171-174 | The bits of the first i + 1 bytes are those of the first i followed by those of byte i |
| BitWalk.UnpackSnoc | huffmanCompress.cpp:171-174 | One more byte appends its 8 bits, high bit first |
| BitWalk.UnpackAppend | huffmanCompress.cpp:171-174 | The bits of `a + b` are those of `a` followed by those of `b` |
| Pipeline.CompressFile | huffmanCompress.cpp:57-116 | The compressor's file parses back to its table and a payload that packs the input's code words within the byte bounds |
| Pipeline.DecompressFile | huffmanCompress.cpp:142-193 | The decompressor's loops compute exactly the functional decompression: parse, rebuild, walk |
| Pipeline.TableKeys | huffmanCompress.cpp:68-72 | The table has an entry exactly for each byte occurring in the input |
| Pipeline.TableCodes | huffmanCompress.cpp:68-72 | The table's codes are non-empty, at most 256 bits, and prefix-free |
| Pipeline.TableLeftmost | huffmanCompress.cpp:68-72 | The leftmost symbol is in the table, with a non-empty all-zeros code |
| Pipeline.TableSize | huffmanCompress.cpp:78 | The header's entry count is the number of distinct input bytes |
| Pipeline.TableWritable | huffmanCompress.cpp:84-86 | Every code length of the table fits a `size_t` |
| Pipeline.TableSuits | huffmanCompress.cpp:68-72 | The table is writable, prefix-free, non-empty-coded, covers the input and gives the leftmost symbol an all-zeros code |
| Pipeline.Compress | huffmanCompress.cpp:57-116 | The compressed file's header parses back to the table used, followed by exactly the packed code words; `RoundTrip` states what decompressing it gives |
| Pipeline.SourceCompress | huffmanCompress.cpp:57-116 | As written, the file's header parses back to the table `buildHuffmanCodes` builds, followed by exactly the packed code words; `SingleSymbolLost`, `ZeroByteLost` and `SourceAgrees` state what decompressing it gives |
| Pipeline.Decompress | huffmanCompress.cpp:142-193 | A file shorter than the count field is a truncated header, and a decoded file yields at most one symbol per payload bit; `RoundTrip` states what it gives for a compressed input |
| Pipeline.DecompressEncoded | huffmanCompress.cpp:142-189 | Decompressing a file written with a writable table walks the rebuilt tree over the code words plus the zero padding |
| Pipeline.DecodeTable | huffmanCompress.cpp:142-189 | Any table that suits an input decodes the input, then the all-zeros symbol once per whole run of its code in the padding |
| Pipeline.DecodeEmptyCodes | huffmanCompress.cpp:95-96 | When every input symbol has the empty code, decoding writes nothing |
| Pipeline.DecodeWithoutZero | huffmanCompress.cpp:182-185 | A table without byte 0 never decodes an input holding byte 0 back to itself |
| Pipeline.RoundTrip | huffmanCompress.cpp:57-189 | Decompressing a compressed non-empty input gives the input, then one copy of the leftmost symbol per whole run of its code in the padding |
| Pipeline.RoundTripPrefix | huffmanCompress.cpp:57-189 | The input is a prefix of the decompressed output, which has fewer than 8 extra symbols |
| Pipeline.RoundTripExact | huffmanCompress.cpp:57-189 | When the code words fill whole bytes, decompression gives exactly the input |
| Pipeline.SingleSymbolTree | huffmanCompress.cpp:26-43 | For an input of one repeated byte, the tree is a lone leaf with that byte and weight the input length |
| Pipeline.SingleSymbolCount | huffmanCompress.cpp:59-64 | An input of one repeated byte has one distinct byte |
| Pipeline.EncodeNothing | huffmanCompress.cpp:95-106 | When every symbol has the empty code, no bits are produced |
| Pipeline.EncodeOneBit | huffmanCompress.cpp:95-106 | When every symbol has a one-bit code, one bit is produced per symbol |
| Pipeline.SingleSymbolRoundTrip | huffmanCompress.cpp:40-49 | With the corrected table, an input of one repeated byte decodes to itself followed by one more copy per padding bit |
| Pipeline.SourceTable | huffmanCompress.cpp:46-54 | The as-written table has no entry for byte 0, and its code lengths fit a `size_t` |
| Pipeline.SingleSymbolLost | huffmanCompress.cpp:40-49 | As written, an input of one repeated byte decodes to nothing |
| Pipeline.ZeroByteLost | huffmanCompress.cpp:48-49 | As written, an input holding byte 0 never decodes to itself |
| Pipeline.TwoSymbolsCount | huffmanCompress.cpp:59-64 | An input with two different bytes has at least two distinct symbols |
| Pipeline.SourceTableAgrees | huffmanCompress.cpp:46-54 | On a tree of two or more leaves, none holding byte 0, the table as written equals the corrected table |
| Pipeline.SourceAgrees | huffmanCompress.cpp:46-54 | For an input without byte 0 and with two or more distinct bytes, the program as written writes the same file as the corrected coder, so the round-trip theorem covers it |
| Pipeline.ZeroByteKept | huffmanCompress.cpp:46-54 | With the corrected table, an input holding byte 0 decodes to an output that starts with the whole input, so byte 0 is kept in place |

## Left out

- File I/O, `main`, and the test-file setup are left out. Both coders are functions from bytes to bytes, and the input is read as bytes.
- Text-mode newline translation is left out. The input and output streams are opened in text mode, and on platforms that translate line ends the bytes may differ.
- Pointers, heap allocation and the leaked nodes are left out. Trees are immutable values, and the heap's node copies are values too.
- The `int` frequency counter (line 63) and the `int` merged weight `left->frequency + right->frequency` (line 35) are unbounded here. In the program the merged weight overflows once the input reaches 2^31 bytes, even when every single count fits, so `HuffmanTree.HuffmanTreeWeight` and `HuffmanTree.BuildWellWeighted` describe the program only for inputs shorter than 2^31 bytes.
- `unordered_map` iteration order and `priority_queue` tie order are fixed as described under "Modelling choices". Other orders give other, equally valid trees and tables.
- `size_t` is taken as 8 bytes, little-endian. Other widths and byte orders are not modelled.
- Empty input is excluded by a precondition on `Compress`. The program calls `top()` on an empty heap there, which is undefined behaviour.
- Malformed compressed files become failure values. The program instead reads garbage or dereferences a null pointer. A header that ends early gives `Truncated`, where the stream's fail state would leave `numCodes` and `codeSize` unspecified.
- Code characters other than '0' and '1' are dropped when the header is parsed. The rebuild ignores them the same way, so the decoding tree is unchanged.
- Padding: the format stores no bit count, so the output can carry extra symbols. `Pipeline.RoundTrip` states exactly which ones, rather than claiming an exact round trip.

## Findings

| source | as written | input that shows it | evidently intended | confidence | as-written member | corrected member |
|---|---|---|---|---|---|---|
| huffmanCompress.cpp:48-49 | `buildHuffmanCodes` records a leaf only when its data is not `'\0'`, so byte 0 gets no code. It packs as nothing and never decodes | the two bytes 0x00 0x01 | every leaf records its code, byte 0 included | high, not executed | Pipeline.ZeroByteLost | Pipeline.ZeroByteKept |
| huffmanCompress.cpp:40-49 | with one distinct byte the root is a leaf, so its code is the empty string. The payload is empty, and decoding writes nothing | "aaaa" | a lone leaf gets a one-bit code such as "0" | high, not executed | Pipeline.SingleSymbolLost | Pipeline.SingleSymbolRoundTrip |

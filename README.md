# Huffman coding engine in Dafny

This project models the core of a small Huffman compressor and proves properties of the model. The compressor is a C++ header, `huffman.hpp`, with its implementation file `huffman.cpp`. The core has three parts.

- **Counting.** `CountTable` reads a text character by character. It counts every character in 0..127 and skips the others.
- **Tree and tables.** `HuffmanTree` queues one leaf per counted character and builds the tree. `buildTree` merges the two nodes of least count until one is left. `preorderEncode` then gives every leaf the path to it as its code, with `0` for a left step and `1` for a right step. `getDecodeTable` inverts the encode table. `getMinLengthCode` and `getMaxLengthCode` scan it.
- **Bit streams.** `encode` packs codes into bytes, most significant bit first. `decode` expands each byte into eight bits and matches codes greedily against the decode table.

Modules, one per file:

| file | module | models |
|---|---|---|
| common.dfy | `Common` | characters (`Char`, -128..127), bytes, and the table predicates: bit strings, prefix-free, injective, inverse |
| bits.dfy | `Bits` | the MSB-first byte packing of `encode` and the expansion of `decode`, with their round trips |
| counting.dfy | `Counting` | the class `CountTable`, and the function `CountMap` that specifies it |
| nodes.dfy | `Nodes` | `HuffmanNode` as the datatype `Tree`, its queries and the comparator |
| build.dfy | `Build` | the priority queue as a sequence; one `buildTree` iteration (`MergeStep`) and the whole loop (`Huffman`) |
| codes.dfy | `CodeTable` | the table `preorderEncode` writes (`Codes`): paths to leaves, prefix-free |
| encoder.dfy | `Encoder` | `encode` as written (`Fill`, `Run`, method `Encode`), and a corrected encoder (`FlushAll`, method `EncodeFlushAll`) |
| decoder.dfy | `Decoder` | `decode` (`Scan`, method `Decode`), and unique decoding under a prefix-free table |
| engine.dfy | `Engine` | the class `HuffmanTree`: constructor, `buildTree`, `preorderEncode` and the four table getters |
| roundtrip.dfy | `RoundTrip` | the round trip from text to bytes and back |
| findings.dfy | `Findings` | concrete inputs that show the encoder defects listed under Findings |

Modelling choices:

- **Queue order.** `std::priority_queue` leaves the order of equal counts unspecified. The model keeps the queue as a sequence in push order: leaves come in ascending character order, as `std::map` iterates, and merged nodes go to the back. Its top (`Build.MinIndex`) is the first node of least count.
- **Tree.** Each node of the tree becomes a `Tree` value. Nodes are never updated after construction, so pointers, `new` and the destructor disappear.
- **Imperative parts.** These stay imperative: the counting loop, the queue-filling loop, `buildTree`, the recursive `preorderEncode` writing into the `encodeTable` field, the three table getters, and the loops of `encode` and `decode`. Each has a contract giving its result or its new state, most of them through a function that specifies it.
- **Strings and files.** Codes are strings of `'0'` and `'1'`. Files are sequences: characters in, bytes out, and back.

## Model

| member | source | states |
|---|---|---|
| Counting.CountMap | huffman.hpp:28-39 | each key is an ASCII character of the text; its count is its number of occurrences, at least 1; no other character is a key |
| Counting.CountMapSnoc | huffman.hpp:29-39 | one more character inserts it at 1 or increments it when it is in 0..127, and leaves the table unchanged otherwise |
| Counting.CountTable.constructor | huffman.hpp:20-44 | after the read loop the table is the count table of the whole input |
| Counting.CountTable.GetCount | huffman.hpp:47-49 | returns the character's count, or 0 for a missing character; a missing character is then inserted with count 0, as `operator[]` does |
| Counting.CountTable.GetCounts | huffman.hpp:52-54 | a copy of the table: exactly the ASCII characters of the text, each with its number of occurrences |
| Nodes.MakeLeaf | huffman.hpp:97-102 | a leaf has the given count, `isLeaf` holds and its character is the one given |
| Nodes.MakeInternal | huffman.hpp:105-110 | an internal node keeps the count and children given; `getCharacter` fails on it; with two children it is not a leaf |
| Nodes.GetCharacter | huffman.hpp:113-120 | succeeds exactly when the node has a character and returns it; otherwise fails with the no-character error |
| Nodes.IsLeaf | huffman.hpp:126-143 | true iff both children are null, false iff both are present, and fails iff exactly one is null |
| Nodes.ComparatorStrictWeakOrder | huffman.hpp:208-211 | the comparator, true when the first node's count is larger, is irreflexive, asymmetric and transitive, and equal ranks are transitive, as a priority queue requires |
| Nodes.WellFormedQueriesSucceed | huffman.hpp:113-143 | on a tree the builder makes, `isLeaf` never fails and a node is a leaf exactly when it has a character |
| Nodes.RootCountIsLeafTotal | huffman.hpp:316 | the root of a weighted tree counts the sum of its leaf counts |
| Nodes.SubtreesDistinct | huffman.hpp:323-332 | below a node whose characters are distinct, its subtrees have distinct characters and no character in common |
| Build.MinIndex | huffman.hpp:208-211 | the queue's top: no node has a smaller count, and every node before it has a strictly larger count |
| Build.RemoveKeeps | huffman.hpp:310-314 | a pop removes exactly one node and keeps the rest, in order |
| Build.RemoveSums | huffman.hpp:310-314 | a pop takes away exactly that node's count and leaves |
| Build.MergeStep | huffman.hpp:308-318 | one iteration shrinks the queue by exactly one and pushes an internal node with two children |
| Build.MergeStepConserves | huffman.hpp:316 | an iteration keeps the total count and the multiset of leaf characters of the queue |
| Build.MergeStepKeepsWeighted | huffman.hpp:316 | every queued node stays weighted: each internal node counts the sum of its children |
| Build.MergeStepJoinsLeast | huffman.hpp:208-211 | the new node joins the two least nodes, first popped ≤ second popped ≤ every node left, and counts their sum |
| Build.Huffman | huffman.hpp:307-320 | the loop ends with one tree from n ≥ 1 nodes, or none from none; it keeps the total count and the leaves, and the tree is internal when n ≥ 2 |
| Build.SortedKeys | huffman.hpp:223 | the keys of the count table listed once each, as many as there are keys |
| Build.SortedKeysAscending | huffman.hpp:223 | the count table is visited in strictly ascending character order |
| Build.LeavesFor | huffman.hpp:223-226 | one leaf per character, in order, each with its count |
| Build.LeafQueue | huffman.hpp:223-226 | the initial queue has one leaf per table entry, and its leaves are exactly the table's characters |
| Build.HuffmanRoot | huffman.hpp:228 | the root `buildTree` leaves for the leaf queue of a count table is a full binary tree with characters exactly at its leaves |
| Build.HuffmanRootFacts | huffman.hpp:219-228 | the root is weighted, its leaves are the table's characters with none repeated, it counts the total of all counts, and it is internal with two or more characters |
| CodeTable.Codes | huffman.hpp:323-332 | the written entries are exactly the leaf characters, each extending the path that reached the subtree |
| CodeTable.CodesWalk | huffman.hpp:323-332 | following a character's code from the root leads to that character's leaf |
| CodeTable.WalkFindsCode | huffman.hpp:323-332 | conversely, the path to a character's leaf is its code |
| CodeTable.CodesPrefixFree | huffman.hpp:323-332 | no code is a prefix of another character's code |
| CodeTable.CodeTableFacts | huffman.hpp:323-332 | the codes of a tree are bit strings, one per leaf character, prefix-free and pairwise distinct, and none is empty when the root is internal |
| Engine.HuffmanCodeFacts | huffman.hpp:219-232 | the Huffman tree of a count table with two or more characters gives one non-empty, prefix-free, distinct bit-string code per character |
| Engine.CountInput | huffman.hpp:220 | the constructor's count table is the count map of the input |
| Engine.HuffmanTree.constructor | huffman.hpp:219-234 | the built tree is the Huffman root of the input's count table, the queue holds just that root, and the encode table is its codes |
| Engine.HuffmanTree.BuildFromCounts | huffman.hpp:223-230 | the constructor body after counting: root, queue and encode table become the Huffman root of the counts, that root alone, and its codes |
| Engine.HuffmanTree.GrowTree | huffman.hpp:223-228 | filling the queue and building the tree leave the Huffman root of the counts as `root` and as the queue's only node |
| Engine.HuffmanTree.EncodeTree | huffman.hpp:230 | `preorderEncode(root, "")` on an empty table makes the table the codes of the whole tree |
| Engine.HuffmanTree.PushLeaves | huffman.hpp:223-226 | the queue holds one leaf per counted character, in ascending character order |
| Engine.HuffmanTree.BuildTree | huffman.hpp:307-320 | the queue ends as the merge loop's result; with two or more nodes `root` is the single node left, otherwise `root` is unchanged |
| Engine.HuffmanTree.MergeTwoLeast | huffman.hpp:309-318 | one iteration: the queue becomes the merge step's result and `root` is the node pushed |
| Engine.HuffmanTree.PreorderEncode | huffman.hpp:323-332 | the encode table gains exactly the entries of the subtree's codes under the accumulated path |
| Engine.HuffmanTree.GetEncodeTable | huffman.hpp:236-238 | a copy of the codes: one per ASCII character of the input, each a non-empty bit string, none a prefix of another |
| Engine.HuffmanTree.GetDecodeTable | huffman.hpp:240-249 | its keys are exactly the codes; each maps back to a character with that code; with distinct codes it is the exact inverse |
| Engine.Invert | huffman.hpp:244-246 | the writes `decodeTable[code] = character` in a given visiting order, a later write overwriting an earlier one; its properties are in `Engine.InvertFacts` |
| Engine.InvertTable | huffman.hpp:240-249 | `Engine.Invert` visiting the encode table in ascending character order; its properties are in `Engine.InvertTableFacts` |
| Engine.InvertFacts | huffman.hpp:244-246 | visiting characters writes their codes as keys; with distinct codes and no repeated visit, each code maps back to its character |
| Engine.InvertTableFacts | huffman.hpp:240-249 | the decode table's keys are the codes, every entry points back, and it is the inverse whenever codes are distinct |
| Engine.HuffmanTree.GetMinLengthCode | huffman.hpp:251-262 | a code no longer than any code shorter than INT_MAX, the first in key order among the shortest; "" when there is none |
| Engine.HuffmanTree.GetMaxLengthCode | huffman.hpp:264-275 | a code at least as long as every code, the first in key order among the longest; "" when every code is empty |
| Common.PrefixFreeIsInjective | huffman.hpp:241 | a prefix-free table gives distinct characters distinct codes |
| Common.InjectiveValuesSize | huffman.hpp:240-249 | with distinct codes, the decode table has as many entries as the encode table |
| Bits.PackByte | huffman.cpp:33-38 | the flushed byte is the value of the first eight buffer bits read MSB first, and expanding it gives those bits back |
| Bits.ExpandByte | huffman.cpp:62-74 | the expanded string is the byte's eight bits, MSB first, and reads back as the byte |
| Bits.ByteRoundTrip | huffman.cpp:33-38 | expanding a byte and packing the bits gives the byte back |
| Bits.BitsRoundTrip | huffman.cpp:62-74 | packing eight bits and expanding the byte gives the bits back |
| Bits.UnpackPack | huffman.cpp:33-74 | expanding the packing of whole bytes of bits gives the bits back |
| Bits.PackUnpack | huffman.cpp:33-74 | packing the expansion of a byte stream gives the stream back |
| Encoder.Code | huffman.cpp:22 | `encodeTable[c]` is c's code when c has one, and "" otherwise, as `operator[]` inserts an empty string |
| Encoder.Fill | huffman.cpp:26-30 | the inner loop ends with at least eight bits; it appends copies only once the input is exhausted; it can spin only when the last character's code is empty |
| Encoder.FillStuck | huffman.cpp:26-30 | the inner loop spins for ever if and only if the last character's code is empty and the buffer plus the codes still to read hold fewer than eight bits |
| Encoder.FillBuffer | huffman.cpp:26-30 | the filled buffer is the old buffer, the codes read, then copies of the last code |
| Encoder.FillPadBound | huffman.cpp:26-30 | past the end, at most as many copies are appended as the buffer lacked bits |
| Encoder.RunStepState | huffman.cpp:21-30 | the loop invariant: the bytes written and the buffer hold the codes of the characters read, then the copies appended past the end |
| Encoder.RunLength | huffman.cpp:21-42 | one byte per outer iteration: no more bytes than characters |
| Encoder.RunBits | huffman.cpp:21-42 | the bits written are a prefix of the input's codes followed by at most eight copies of the last code |
| Encoder.Run | huffman.cpp:21-42 | the outer loop from a given position, buffer and output; the bytes already written stay a prefix of everything written |
| Encoder.EncodeAsWritten | huffman.cpp:9-46 | the whole encoder as written, from an empty buffer; an empty input writes nothing |
| Encoder.RunHangs | huffman.cpp:26-30 | the encoder hangs only when the last character's code is empty |
| Encoder.RunHangsWhenShort | huffman.cpp:21-30 | the converse of `RunHangs`: an outer iteration that starts with fewer than eight bits in the buffer and the codes left to read, and an empty last code, never ends |
| Encoder.HangsWhenShort | huffman.cpp:9-46 | encode as written hangs on any text whose codes total fewer than eight bits and whose last character has no code |
| Encoder.EncodeAsWrittenBits | huffman.cpp:9-46 | on a non-empty input with a table of bit strings: it hangs only on an uncoded last character; otherwise it writes at most one byte per character, and the bytes hold a prefix of the codes followed by copies of the last code |
| Encoder.Encode | huffman.cpp:9-46 | the nested loops compute the as-written outcome, a hang included |
| Encoder.FillByte | huffman.cpp:26-30 | the inner loop reaches the same position and buffer as `Fill`, and is reported stuck exactly when `Fill` is |
| Encoder.FlushAll | huffman.cpp:20-41 | the corrected encoder's output, every full byte of the codes and the fewer than eight trailing bits dropped: one byte for every eight bits of codes |
| Encoder.EncodeFlushAll | huffman.cpp:21-42 | the corrected loop writes exactly the whole bytes of the input's codes |
| Encoder.FlushFullBytes | huffman.cpp:33-41 | moving every whole byte out of the buffer keeps the bits written, then the buffer, unchanged, and leaves fewer than eight bits |
| Encoder.FlushAllBits | huffman.cpp:21-42 | the corrected encoder writes one byte per eight bits of codes, holding exactly those bits, in order |
| Decoder.Scan | huffman.cpp:80-97 | the greedy matching pass: grow a frame bit by bit and emit its character as soon as it is a key; `Decoder.MatchCodes` and `Decoder.Decode` are proved equal to it |
| Decoder.ScanWritesValues | huffman.cpp:85-89 | every character written is the character of some code of the decode table |
| Decoder.ScanRestIsTail | huffman.cpp:96-97 | the buffer kept is exactly the unmatched tail of the bits |
| Decoder.ScanRestNoKey | huffman.cpp:80-95 | no prefix of the kept frame is a code |
| Decoder.ScanAppend | huffman.cpp:61-97 | matching can be split at any bit: the pass over x + y is the pass over x, then over the rest and y |
| Decoder.MatchCodes | huffman.cpp:80-97 | one matching pass writes the pass's characters and keeps exactly its unmatched tail, a suffix of the buffer |
| Decoder.DecodeStep | huffman.cpp:61-97 | one more byte: the characters and buffer follow from the buffer before and the byte's bits |
| Decoder.Decode | huffman.cpp:48-102 | the output is one greedy pass over all bits of the file, however it splits into bytes; an empty file gives empty output |
| Decoder.ScanCode | huffman.cpp:82-95 | under a prefix-free table and its inverse, a single code decodes to its character with nothing left over |
| Decoder.DecodeCodes | huffman.cpp:82-95 | unique decoding: the codes of a text decode to exactly that text with nothing left over |
| Decoder.DecodeCutCodes | huffman.cpp:82-95 | the codes of a text cut anywhere decode to a prefix of the text |
| Decoder.DecodeCodesThenPart | huffman.cpp:82-95 | codes followed by part of one more code decode to the text alone |
| RoundTrip.ConcatKnown | huffman.cpp:22-23 | characters the table lacks contribute no bits |
| RoundTrip.KnownAscii | huffman.hpp:29-32 | the characters the Huffman table codes are the text's characters in 0..127 |
| RoundTrip.FlushAllDecodes | huffman.cpp:9-102 | corrected encoding, then decoding, gives a prefix of the coded characters, and all of them when the codes fill whole bytes |
| RoundTrip.HuffmanRoundTrip | huffman.cpp:9-102 | with the text's own tree and tables, decoding gives back a prefix of its ASCII characters, and all of them when the codes fill whole bytes |
| RoundTrip.CompressAndRestore | huffman.hpp:219-249 | building the tree, taking both tables, encoding with the corrected encoder and decoding gives a prefix of the input's ASCII characters, and all of them when the codes fill whole bytes |
| Findings.LastCodeRepeated | huffman.cpp:26-30 | "aaab" with a = "1", b = "0" is written as 11100000, which decodes to "aaabbbbb"; the corrected encoder writes nothing |
| Findings.FullBytesLeftBehind | huffman.cpp:21-42 | "bb" with a 12-bit code for b is written as two bytes that decode to "b"; the corrected encoder writes three bytes that decode to "bb" |
| Findings.UncodedLastCharHangs | huffman.cpp:22-30 | "ab" followed by a character outside 0..127 makes the encoder hang |

## Left out

- File I/O: opening, reading, writing and closing files, and the diagnostics on `cerr` when a file does not open. Inputs and outputs are sequences of characters and bytes.
- XML persistence through cereal (`serializeDecodeTable`, `deserializeDecodeTable`): the decode table passes from `getDecodeTable` to `decode` as a value.
- Printing: `printCounts`, `HuffmanNode::toString`, `printEncodeTable`, and the progress messages of the constructor.
- The command-line programs compress.cpp and decompress.cpp.
- Raw pointers, `new`, `delete` and the recursive destructor. The tree is a datatype value, and nodes are never shared or updated.
- The heap inside `std::priority_queue`: the model fixes the order of equal counts, as described above.
- `HuffmanNode::getCount` is a field read (`Tree.count`) and has no member of its own.
- The floating-point `pow(2, 7 - i)` of huffman.cpp:36 becomes the exact integer power of two.
- `Engine.HuffmanTree.constructor` requires at least two distinct characters in 0..127. With fewer, `buildTree` never assigns `root`, and `preorderEncode` follows an uninitialised pointer. That is undefined behaviour, and the model does not invent a result for it.
- `char` is modelled as signed, -128..127, so `currentChar > 127` never holds. A count table over text with no character in 0..127 is empty.
- The width of `int` counts and the `int`/`size_t` comparisons of the length getters: counts and lengths are unbounded. `Engine.HuffmanTree.GetMinLengthCode` still starts from INT_MAX, as the source does.
- `RoundTrip.CompressAndRestore` and `RoundTrip.HuffmanRoundTrip` use the corrected encoder `Encoder.EncodeFlushAll`. For the encoder as written, only the defects under Findings and the bound in `Encoder.EncodeAsWrittenBits` are stated.
- Dropped trailing bits. The comments at huffman.cpp:20 and huffman.cpp:32 say that the buffer holds bits "until a complete byte is generated" and that its first 8 bits are written. The code as written instead pads the last byte with copies of the last code, and can leave whole bytes in the buffer. The model follows the code (`Encoder.Encode`). It also gives a corrected encoder, `Encoder.EncodeFlushAll`, which writes every full byte and drops the fewer than eight bits left at the end. The round-trip lemmas recover the text only up to those dropped bits, all of it when the codes fill whole bytes.

## Findings

| source | as written | input that shows it | evidently intended | confidence | as-written member | corrected member |
|---|---|---|---|---|---|---|
| huffman.cpp:26-30 | at end of input `get` fails and leaves `currentChar` unchanged, so the inner loop appends the last character's code again until the byte is full | "aaab" with a = "1", b = "0": written as 11100000, decoded as "aaabbbbb" | stop at end of input and write no invented bits | high, not executed | Findings.LastCodeRepeated | Encoder.EncodeFlushAll |
| huffman.cpp:21-42 | each outer iteration writes exactly one byte, so with codes longer than eight bits whole bytes stay in the buffer and are never written | "bb" with a = "0", b = "100000000000": written as 2 of its 3 bytes, decoded as "b" | write every full byte of the buffer | high, not executed | Findings.FullBytesLeftBehind | Encoder.EncodeFlushAll |
| huffman.cpp:22-30 | a character the table has no code for (outside 0..127, skipped when counting) yields the code "" through `operator[]`; as the last character, before a full byte, it makes the inner loop spin for ever | "ab" followed by character -61 with a = "1", b = "0" | terminate; characters without a code contribute no bits | high, not executed | Findings.UncodedLastCharHangs | Encoder.EncodeFlushAll |

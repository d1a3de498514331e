# Huffman coding engine of james-wangx/compress, modelled in Dafny

The project models the byte-level Huffman coder of the `compress` repository, and proves properties of that model. The coder runs in four stages:

- **Counting.** `HuffmanCode.getByteWeight` counts how often each byte value occurs.
- **Tree building.** `HuffmanTree.createTree` sorts a working list of `HTNode`s by weight. It merges the first two under a new parent, labelling them `"0"` and `"1"`, and repeats until one node, the root, is left. `calcPath` then walks the tree in pre-order. It puts each node's parent's final path in front of the node's own label and collects the leaves.
- **Packing.** `createCodeMap` turns the leaves into the static code table (byte → path). `getCode` concatenates the codewords of the input and packs each full 8-bit group, most significant bit first, into a byte. A short final group is not packed: its bits go into the table under the `null` key, and its byte stays 0.
- **Decoding.** `getBinaryString` renders every byte but the last as its 8 bits, then appends the `null`-key entry in place of the last byte. `getContent` inverts the table and scans the bits greedily.

The model follows the Java code's own form.

- **Nodes and tree.** `HTNode` is a class with the fields of `HTNode` and of its generic base `Node`. `HuffmanTree` is a class whose `nodeList` and `leafList` are sequence fields. The methods build the tree in the heap, node by node. Beside them, a ghost datatype `Tree` of node references records the shape, and heap predicates tie the nodes' `left`/`right`/`parent`/`value`/`weight`/`path` fields to that shape.
- **Coder.** `HuffmanCode` is a class holding the static `codeMap` as a field. Its methods keep the Java loops: the counting loop, the paired `i`/`j` packing loop that fills an `array`, the unpacking loop, and the accumulator loop of the decoder.
- **Specifications.** Each method is proved against value-level functions in `CodeTables`. `Encoded` is the concatenation, `PackedFrom` the packing, `ByteString` the unpacking and `Scan` the greedy decoder. The properties are proved about these functions as lemmas.
- **Java types.**
  - Java `byte` is the newtype `Bits.JByte` (-128..127).
  - A nullable `Byte` is `Option<JByte>`; the `null` key is `None`.
  - `(byte)` narrowing is `ToByte`.
  - `Integer.parseInt(s, 2)` is `ParseBinary`; its NumberFormatException is `Thrown(NumberFormat)`.
  - The last 8 characters of `Integer.toBinaryString(b | 0x100)` are `ByteBits`.
  - A failed `HashMap.get` appended to a `StringBuilder` gives the text `"null"` (`Lookup`).
  - The `IndexOutOfBoundsException` of `nodeList.get(0)` on empty input is `Thrown(IndexOutOfBounds)`.

Main results:

- **Counts.** The weight map holds exactly the bytes present, each with its occurrence count.
- **Tree building.** Sorting is a permutation ordered by weight. Each merge keeps the total weight, and the forest stays well formed. The loop ends with exactly one node, or none for empty input, when `get(0)` throws.
- **Paths.** After `calcPath`, every child's path is its parent's path followed by its own bit. `leafList` is the tree's leaves in pre-order, one per symbol. Their paths are binary and prefix-free. With two or more symbols every path is non-empty. With one symbol the root is the only leaf and keeps the empty path.
- **Packing.** `getCode` returns ceil(L/8) bytes; each full group is read as an unsigned big-endian number and narrowed. The `null` key gets the last L % 8 bits exactly when L % 8 != 0, and the last slot stays 0.
- **Unpacking.** It inverts the packing for full groups. When L % 8 == 0, the last group comes back as the text `"null"` (`AlignedLosesLastGroup`).
- **Decoding.** Greedy scanning over a prefix-free table gives the input back, and emits at most one byte per bit.
- **Round trip.** `decode(code(b)) == b` when `b` has two different bytes, L % 8 != 0 and the tail is no byte's codeword (`CodeDecodeRoundTrip`).

Behaviour of the code a reader may not expect (the model follows the code):

- **The packed array.** The array has ceil(L/8) slots, so the short final group still takes a slot, which holds 0.
- **The single-byte codeword.** When the input has one distinct byte, the root is the only leaf and keeps the path `""`, so that byte's codeword is empty and the packed array has no bytes.
- **A missing codeword.** `StringBuilder.append` of a lookup miss appends the text `"null"`; nothing throws.
- **The inverted table.** `getContent` inverts every entry, the `null`-key entry too (tail → null). This is why the round trip needs the tail to differ from every codeword. Otherwise HashMap iteration order decides whether the tail's key maps to the byte or to null.
- **An empty payload.** `getBinaryString` of an empty array returns `""` and does not read the `null`-key entry.

## Model

Source paths are relative to the repository root.

| member | source | states |
|---|---|---|
| HTNodes.HTNode.constructor | src/main/java/com/codicefun/compress/huffmancode/HTNode.java:15-19 | stores value and weight, path `""`, parent and both children null, so the new node is a leaf |
| HTNodes.HTNode.IsLeaf | src/main/java/com/codicefun/compress/binarytree/Node.java:28-48 | a node is a leaf exactly when it has neither a left nor a right child |
| HTNodes.HTNode.CompareTo | src/main/java/com/codicefun/compress/huffmancode/HTNode.java:46-48 | the result is negative, zero or positive exactly as this weight is below, equal to or above the other's |
| HTNodes.CompareToAntisymmetric | src/main/java/com/codicefun/compress/huffmancode/HTNode.java:46-48 | `a.compareTo(b) == -b.compareTo(a)` |
| HTNodes.HTNode.SetValue | src/main/java/com/codicefun/compress/binarytree/Node.java:54-56 | sets `value` and may change no other field |
| HTNodes.HTNode.SetLeftChild | src/main/java/com/codicefun/compress/binarytree/Node.java:62-64 | sets `left` and may change no other field |
| HTNodes.HTNode.SetRightChild | src/main/java/com/codicefun/compress/binarytree/Node.java:70-72 | sets `right` and may change no other field |
| HTNodes.HTNode.SetParent | src/main/java/com/codicefun/compress/huffmancode/HTNode.java:25-27 | sets `parent` and may change no other field |
| HTNodes.HTNode.SetWeight | src/main/java/com/codicefun/compress/huffmancode/HTNode.java:33-35 | sets `weight` and may change no other field |
| HTNodes.HTNode.SetPath | src/main/java/com/codicefun/compress/huffmancode/HTNode.java:41-43 | sets `path` and may change no other field |
| Bits.ToByte | src/main/java/com/codicefun/compress/huffmancode/HuffmanCode.java:78 | the `(byte)` cast keeps the value modulo 256 and maps 128..255 to the negative bytes |
| Bits.ParseBinary | src/main/java/com/codicefun/compress/huffmancode/HuffmanCode.java:78 | on the strings the coder builds (the characters `0`, `1` and those of `"null"`), `parseInt(s, 2)` succeeds exactly on non-empty bit strings, with a value below 2 to the power of its length |
| Bits.ByteBits | src/main/java/com/codicefun/compress/huffmancode/HuffmanCode.java:127-133 | the last 8 characters of `toBinaryString` with bit 8 set are exactly 8 characters, each a bit |
| Bits.GroupRoundTrip | src/main/java/com/codicefun/compress/huffmancode/HuffmanCode.java:127-133 | rendering a packed group gives the 8-bit group back |
| Bits.ByteRoundTrip | src/main/java/com/codicefun/compress/huffmancode/HuffmanCode.java:127-133 | packing a rendered byte gives the same signed byte back |
| TreeShapes.Join | src/main/java/com/codicefun/compress/huffmancode/HuffmanTree.java:55-59 | two disjoint well formed subtrees hung under a fresh parent, labelled `"0"`/`"1"`, weighing their sum, form a well formed tree |
| TreeShapes.LeafPathsExtendTop | src/main/java/com/codicefun/compress/huffmancode/HuffmanTree.java:72-81 | after composition every leaf path extends the top's path by bits, by at least one bit below an internal node |
| TreeShapes.TwoLeafValues | src/main/java/com/codicefun/compress/huffmancode/HuffmanTree.java:49-63 | a merged (internal) tree carries at least two symbols |
| TreeShapes.LeafPathsPrefixFree | src/main/java/com/codicefun/compress/huffmancode/HuffmanTree.java:72-81 | no leaf path of a composed tree is a prefix of another leaf's path |
| TreeShapes.LeafValuesDistinct | src/main/java/com/codicefun/compress/huffmancode/HuffmanTree.java:77-79 | the leaves in pre-order carry pairwise different bytes, exactly the tree's symbols |
| HuffmanTrees.TotalWeightMerge | src/main/java/com/codicefun/compress/huffmancode/HuffmanTree.java:55-62 | replacing the first two nodes by a parent of their summed weight keeps the list's total weight |
| HuffmanTrees.TotalWeightPermutation | src/main/java/com/codicefun/compress/huffmancode/HuffmanTree.java:50 | reordering the list keeps its total weight |
| HuffmanTrees.SortedLightestFirst | src/main/java/com/codicefun/compress/huffmancode/HuffmanTree.java:50-54 | after sorting, the first two nodes are the two lightest, in order |
| HuffmanTrees.InsertionPoint | src/main/java/com/codicefun/compress/huffmancode/HuffmanTree.java:50 | a stable insertion point: every node before it is not heavier, every node after it is heavier |
| HuffmanTrees.SortByWeight | src/main/java/com/codicefun/compress/huffmancode/HuffmanTree.java:50 | `Collections.sort` under `compareTo` returns a permutation of the list ordered by weight |
| HuffmanTrees.Without | src/main/java/com/codicefun/compress/huffmancode/HuffmanTree.java:60-61 | `remove(x)` of a missing element leaves the list alone, and of the head drops the head |
| HuffmanTrees.WithoutRemovesFirst | src/main/java/com/codicefun/compress/huffmancode/HuffmanTree.java:60-61 | wherever `x` first occurs, `remove(x)` takes out exactly that element and keeps the others in order |
| HuffmanTrees.PartitionMerge | src/main/java/com/codicefun/compress/huffmancode/HuffmanTree.java:60-62 | after a merge the list is still duplicate-free, its trees disjoint, and together they still carry exactly the symbols |
| HuffmanTrees.PlantedMerge | src/main/java/com/codicefun/compress/huffmancode/HuffmanTree.java:52-62 | after a merge's field updates every tree of the list is well formed with a parentless, unlabelled top |
| HuffmanTrees.Link | src/main/java/com/codicefun/compress/huffmancode/HuffmanTree.java:52-59 | the merge's field updates: labels `"0"`/`"1"`, a fresh null-valued parent of summed weight, parent links both ways, nothing else changed |
| HuffmanTrees.NewLeaves | src/main/java/com/codicefun/compress/huffmancode/HuffmanTree.java:22 | one fresh parentless leaf per weight-map entry, with that key, that weight and path `""`, values pairwise different |
| HuffmanTrees.HuffmanTree.constructor | src/main/java/com/codicefun/compress/huffmancode/HuffmanTree.java:18-23 | as many leaves as map entries, each with matching value and weight; `leafList` empty; the symbols are exactly the keys |
| HuffmanTrees.HuffmanTree.SortNodes | src/main/java/com/codicefun/compress/huffmancode/HuffmanTree.java:50 | the list becomes a permutation of itself ordered by weight, with the same total weight, and the forest stays valid |
| HuffmanTrees.HuffmanTree.MergeFirstTwo | src/main/java/com/codicefun/compress/huffmancode/HuffmanTree.java:51-62 | the first two nodes are labelled and hung under a fresh parent of summed weight, which replaces them at the end of the list; on the sorted list the two merged nodes are the lightest, the left no heavier than the right, the right no heavier than any node left; the total weight is kept and the forest stays valid |
| HuffmanTrees.HuffmanTree.Merged | src/main/java/com/codicefun/compress/huffmancode/HuffmanTree.java:55-62 | a merge restores the forest invariant and keeps the total weight |
| HuffmanTrees.HuffmanTree.MergeAll | src/main/java/com/codicefun/compress/huffmancode/HuffmanTree.java:49-63 | the loop ends with at most one node, with none only when it started empty; total weight kept; forest valid |
| HuffmanTrees.HuffmanTree.VisitCalcPath | src/main/java/com/codicefun/compress/huffmancode/HuffmanTree.java:73-80 | a node with a parent gets the parent's path in front of its own; a leaf is appended to `leafList` |
| HuffmanTrees.HuffmanTree.PreorderCalcPath | src/main/java/com/codicefun/compress/huffmancode/HuffmanTree.java:141-151 | walks the subtree in pre-order: appends its leaves in pre-order, and leaves every child's path its parent's final path followed by its bit |
| HuffmanTrees.HuffmanTree.CalcPath | src/main/java/com/codicefun/compress/huffmancode/HuffmanTree.java:72-81 | from the single root, the tree ends composed; `leafList` holds its leaves in pre-order, and they carry exactly the symbols |
| HuffmanTrees.HuffmanTree.CreateTree | src/main/java/com/codicefun/compress/huffmancode/HuffmanTree.java:48-67 | throws IndexOutOfBounds exactly on an empty list; otherwise the tree is built, and the root weighs the initial total weight |
| HuffmanTrees.HuffmanTree.LeafCode | src/main/java/com/codicefun/compress/huffmancode/HuffmanTree.java:48-81 | the leaves cover each symbol once, with binary, prefix-free paths; two or more symbols: all paths non-empty; one symbol: the root alone, path `""` |
| CodeTables.EncodedSnoc | src/main/java/com/codicefun/compress/huffmancode/HuffmanCode.java:66-68 | appending a byte appends its codeword to the concatenation |
| CodeTables.EncodedIgnoresTail | src/main/java/com/codicefun/compress/huffmancode/HuffmanCode.java:76 | writing the `null` entry does not change the encoding of bytes |
| CodeTables.EncodedBinary | src/main/java/com/codicefun/compress/huffmancode/HuffmanCode.java:66-68 | the concatenation of binary codewords is a bit string |
| CodeTables.PrefixFreeNonEmpty | src/main/java/com/codicefun/compress/huffmancode/HuffmanCode.java:52-55 | with two different bytes in a prefix-free table, no codeword is empty |
| CodeTables.Group | src/main/java/com/codicefun/compress/huffmancode/HuffmanCode.java:78 | the substring `i..i+8` of group `j` is 8 characters long |
| CodeTables.BinaryFullGroups | src/main/java/com/codicefun/compress/huffmancode/HuffmanCode.java:73-79 | every full group of a bit string is accepted by `parseInt(_, 2)` |
| CodeTables.Tail | src/main/java/com/codicefun/compress/huffmancode/HuffmanCode.java:74-76 | the tail is the last L % 8 bits, and the full groups followed by it are the whole string |
| CodeTables.ByteString | src/main/java/com/codicefun/compress/huffmancode/HuffmanCode.java:126-135 | rendering n bytes gives a bit string of 8n characters |
| CodeTables.UnpackFullGroups | src/main/java/com/codicefun/compress/huffmancode/HuffmanCode.java:123-139 | rendering the first n packed bytes gives the first 8n bits back |
| CodeTables.UnpackPack | src/main/java/com/codicefun/compress/huffmancode/HuffmanCode.java:123-139 | when L % 8 != 0, rendering all but the last byte and then appending the tail gives the packed bit string back |
| CodeTables.AlignedLosesLastGroup | src/main/java/com/codicefun/compress/huffmancode/HuffmanCode.java:129-131 | when L is a non-zero multiple of 8, the unpacked string ends in `"null"` instead of the last group and differs from the packed bits |
| CodeTables.ScanLength | src/main/java/com/codicefun/compress/huffmancode/HuffmanCode.java:155-163 | the scan emits at most one byte per character |
| CodeTables.ScanWord | src/main/java/com/codicefun/compress/huffmancode/HuffmanCode.java:156-162 | reading a codeword none of whose proper prefixes match emits its byte and resets the accumulator |
| CodeTables.CodewordDecodes | src/main/java/com/codicefun/compress/huffmancode/HuffmanCode.java:153-159 | in an inverted prefix-free table a codeword maps back to its byte, unless the tail equals it, and no proper prefix maps to a byte |
| CodeTables.ScanEncoded | src/main/java/com/codicefun/compress/huffmancode/HuffmanCode.java:155-163 | scanning the concatenated codewords of `s` gives `s` back, when the codewords are non-empty and the tail is none of them |
| CodeTables.RoundTrip | src/main/java/com/codicefun/compress/huffmancode/HuffmanCode.java:174-178 | when L % 8 != 0, the tail is under `null` and no codeword equals the tail: unpacking the packing and scanning gives the input back |
| HuffmanCoding.GetByteWeight | src/main/java/com/codicefun/compress/huffmancode/HuffmanCode.java:28-45 | the keys are exactly the bytes present; each maps to its occurrence count, at least 1 |
| HuffmanCoding.BuildLeaves | src/main/java/com/codicefun/compress/huffmancode/HuffmanCode.java:93-98 | throws IndexOutOfBounds exactly on empty input; otherwise the tree's leaves cover each byte of the input once, with binary, prefix-free paths |
| HuffmanCoding.SymbolsOfBytes | src/main/java/com/codicefun/compress/huffmancode/HuffmanCode.java:93-95 | the tree built from the counts has exactly the input's bytes as symbols |
| HuffmanCoding.HuffmanCode.constructor | src/main/java/com/codicefun/compress/huffmancode/HuffmanCode.java:12 | the static table, before any coding, is empty |
| HuffmanCoding.HuffmanCode.CreateCodeMap | src/main/java/com/codicefun/compress/huffmancode/HuffmanCode.java:52-55 | a fresh table whose keys are exactly the leaves' values, each mapped to the path of the last leaf with that value |
| HuffmanCoding.TableEntries | src/main/java/com/codicefun/compress/huffmancode/HuffmanCode.java:53-54 | with distinct leaf values the table holds every leaf's own path, and its keys are exactly the symbols |
| HuffmanCoding.TableCode | src/main/java/com/codicefun/compress/huffmancode/HuffmanCode.java:52-55 | the table made from the leaves is prefix-free, with binary codewords and only byte keys; a lone symbol's codeword is `""` |
| HuffmanCoding.TableFromLeaves | src/main/java/com/codicefun/compress/huffmancode/HuffmanCode.java:93-98 | the table has a binary, prefix-free codeword for exactly the input's bytes and no `null` key; a single repeated byte gets `""` |
| HuffmanCoding.HuffmanCode.GetCode | src/main/java/com/codicefun/compress/huffmancode/HuffmanCode.java:63-83 | on the tables the coder builds, throws NumberFormat iff a full group is not binary; otherwise returns the packing of the concatenated codewords, and puts the tail under `null` exactly when L % 8 != 0 |
| HuffmanCoding.ParseGroup | src/main/java/com/codicefun/compress/huffmancode/HuffmanCode.java:78 | succeeds exactly on a binary group, giving the packed byte; otherwise NumberFormat |
| HuffmanCoding.GroupIndex | src/main/java/com/codicefun/compress/huffmancode/HuffmanCode.java:70-74 | of the ceil(L/8) groups only the last can be short, exactly when L % 8 != 0, and it starts at L - L % 8 |
| HuffmanCoding.EmptyEncoding | src/main/java/com/codicefun/compress/huffmancode/HuffmanCode.java:66-68 | input made of one byte whose codeword is `""` encodes to `""` |
| HuffmanCoding.HuffmanCode.Code | src/main/java/com/codicefun/compress/huffmancode/HuffmanCode.java:91-102 | empty input throws and keeps the table; otherwise the table has a binary, prefix-free codeword for exactly the input's bytes, the result packs their concatenation, `null` holds the tail exactly when L % 8 != 0, and a single repeated byte packs to no bytes |
| HuffmanCoding.HuffmanCode.GetBinaryString | src/main/java/com/codicefun/compress/huffmancode/HuffmanCode.java:123-139 | every byte but the last rendered as 8 bits, then the `null` entry (or `"null"`); `""` for no bytes |
| HuffmanCoding.HuffmanCode.GetContent | src/main/java/com/codicefun/compress/huffmancode/HuffmanCode.java:147-166 | the output is the greedy scan of the bits against an inversion of the table, at most one byte per bit |
| HuffmanCoding.HuffmanCode.Decode | src/main/java/com/codicefun/compress/huffmancode/HuffmanCode.java:174-178 | the output is the greedy scan of the unpacked bytes against an inversion of the table |
| HuffmanCoding.CodeDecodeRoundTrip | src/main/java/com/codicefun/compress/huffmancode/HuffmanCode.java:91-102 | with the table and packing `code` produces, two different input bytes, L % 8 != 0 and a tail that is no codeword, decoding gives the input back |

## Left out

- **I/O.** The console menu, file streams and object serialization in `Main.java` are not part of this model. The coder's inputs and outputs are byte sequences.
- **The `BinaryTree` interface.** It declares behaviour only. `HuffmanTree` is modelled directly, and `Node` is folded into `HTNode`.
- **`code(String)` and the character output of `getContent`.** `String.getBytes()` depends on the platform charset. `getContent` appends `(char)(byte) b`. The decoder's result is the sequence of decoded byte values instead.
- **Unused members.** `inorderTraverse`, `postorderTraverse` (which recurses on the same node and does not terminate), `forEachLeaf` and `isEmpty` are not used by the coder. The no-argument constructors of `HTNode` and `Node` are not used either.
- **Getters.** `getRoot`, `getLeafList`, `getCodeMap`/`setCodeMap` and the node getters are plain field reads and writes.
- **The traversal action.** `preorderTraverse` takes a `Consumer`. The model specialises it to the only action the coder passes, the one in `calcPath` (`PreorderCalcPath`, `VisitCalcPath`).
- **The loop of `createTree`.** It is a method of its own (`MergeAll`); the rest of `createTree` calls it.
- **Order among equal weights.** Ties and the order of HashMap iteration, both in the constructor and in the inversion of the table, are unspecified. They are chosen by `:|`, and every property holds for any choice.
- HTNodes.HTNode.CompareTo: no 32-bit overflow. Weights are unbounded `nat`s, so the subtraction in `compareTo` and the weight sums cannot overflow. Java wraps at 2^31.
- HuffmanTrees.HuffmanTree.CreateTree: the root weight is stated weaker. It equals the total weight of the initial list, and each leaf's weight is its byte's count. That this total equals the input length is not stated.
- CodeTables.RoundTrip: needs an extra condition, as does `HuffmanCoding.CodeDecodeRoundTrip`. Both need the tail to differ from every codeword. The Java inversion of the table also maps the tail to null, and whether that overrides a byte with the same codeword depends on HashMap iteration order.
- HuffmanCoding.HuffmanCode.constructor: the static `codeMap` starts as an empty table. In Java it is null before the first `code` call, so decoding before coding, which throws NullPointerException there, is not modelled.
- Bits.ParseBinary: models `Integer.parseInt(s, 2)` only on strings of ASCII characters without a sign. Java also accepts a leading `+` or `-` and non-ASCII digits that `Character.digit` reads as 0 or 1; the coder never builds such strings.
- HuffmanCoding.HuffmanCode.GetCode: its NumberFormat condition is exact only for tables whose codewords are ASCII bit strings, such as those `createCodeMap` builds. A table holding a signed or non-ASCII codeword, which Java could still parse, is outside the model.
- **Calling `createTree` twice.** `CreateTree` requires `leafList` to be empty, as it is after construction, so leaves collected by a second call are not modelled.
- **`ByteBits`.** It states the result of `toBinaryString(b | 0x100)` cut to 8 characters directly: the byte's low 8 bits, zero-padded. It does not model `toBinaryString` in general.

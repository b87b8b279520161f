# Huffman compression engine, modelled in Dafny

This project models the compression side of a small Java Huffman coder.
`Huffman.java` covers four steps:

- it tallies how often each byte occurs in the input;
- it builds a Huffman tree from those counts with a min-priority queue;
- it walks the tree to derive a code table;
- it concatenates the codes of the input bytes and packs them most
  significant bit first, recording the exact bit count in a configuration
  object.

`Tree.java` supplies the node type and its pre-order traversal.

Modules, one per file:

- `Wrappers` (`wrappers.dfy`): `Option` and the byte type. A Java `byte` is
  kept as its unsigned bit pattern 0..255.
- `Trees` (`trees.dfy`): `Node` (`Nil` is Java's `null`), `Tree`, and the
  pre-order traversal.
  - The listener is modelled by the sequence of nodes it receives.
  - Positions in the tree (`Path`) state which node each visit is and in
    what order visits happen.
- `HuffmanTree` (`huffman_tree.dfy`): `Word` and the tree builder.
  - The priority queue is a sequence.
  - `Poll` takes any node of least weight, because Java's heap leaves the
    order of equal weights open.
  - A ghost trace records every merge: the queue it polled from and the
    two positions it polled. The trace is chained from the queue of leaves
    to the queue holding only the root.
- `EncodeTables` (`encode_table.dfy`): the encode table and the traversal
  that fills it. It also holds what the table means: codes are paths from
  the root to leaves, and they are prefix-free.
- `BitPacker` (`bit_packer.dfy`): the two loops of
  `getEncodeBytesAndFillConfigurationSize`. These are the `StringBuilder`
  loop and the bit loop with its padding loop. `Unpack` reads the output
  back bit by bit.
- `Frequency` (`frequency.dfy`): the byte tally of `compressFile`, lifted
  out as a method.
- `Decoding` (`decoding.dfy`): a decoder that exists only as a
  specification. The repository has no decoder. This one is used to state
  that the packed bits decode back to the input.
- `Compress` (`compress.dfy`): the `HuffmanConfiguration` class and the
  compression pipeline of `compressFile`, without its files.

Where the code departs from what a Huffman coder is usually expected to do, the model follows the code:

- **Single distinct byte.** The root is then a leaf, and its code is the
  empty string, not a one-bit code. Packing produces `size == 0` and the
  single byte `0x00`.
  - `Compress.Compressed` states what survives: the tree's root leaf
    carries the symbol, and its weight equals the input length.
- **Empty input.** The empty input is not rejected up front.
  `createHuffmanTree` returns `null`, and `createHuffmanEncodeTable` then
  dereferences it. `CompressBytes` models this failure as `None`, with the
  configuration still all `null`.
- **Missing byte code.** A byte missing from the table makes
  `StringBuilder.append` add the four characters `"null"`. `CodeOf` models
  exactly this. The pipeline then proves that every input byte has a code.

## Model

| member | source | states |
|---|---|---|
| Trees.Node.PreTraverse | src/main/java/tree/Tree.java:20-30 | the listener is called once per node reachable from the start node; a null start node gives no calls; a non-null one is itself visited first |
| Trees.Tree.PreTraverse | src/main/java/tree/Tree.java:38-41 | needs a root, which it dereferences; visits `Size(root)` nodes, the root first, and the k-th visit is the tree's own node at the k-th pre-order position (nodes are handed over unchanged) |
| Trees.Index | src/main/java/tree/Tree.java:20-30 | every node of the tree is visited: for each position holding a node there is a visit number that lands on it |
| Trees.PositionInTree | src/main/java/tree/Tree.java:20-30 | every visit is of a node object, never of a null child |
| Trees.VisitIsNodeAtPosition | src/main/java/tree/Tree.java:20-30 | the k-th node handed to the listener is the node at the k-th pre-order position |
| Trees.VisitedInPreOrder | src/main/java/tree/Tree.java:23-29 | an earlier visit is at a position that comes before a later one in pre-order |
| Trees.VisitOrder | src/main/java/tree/Tree.java:23-29 | visit i precedes visit j exactly when position i precedes position j in pre-order (both directions) |
| Trees.VisitedOnce | src/main/java/tree/Tree.java:20-30 | two visits are at the same position exactly when they are the same visit: no node is visited twice |
| Trees.NodeBeforeDescendants | src/main/java/tree/Tree.java:23-29 | a node is handed to the listener before every node strictly below it |
| Trees.LeftSubtreeFirst | src/main/java/tree/Tree.java:24-29 | below any node, every node of the left subtree is visited before any node of the right subtree |
| Trees.BeforeAsymmetric | src/main/java/tree/Tree.java:23-29 | pre-order on positions never puts two positions before each other |
| Trees.BeforeIrreflexive | src/main/java/tree/Tree.java:23-29 | no position comes before itself |
| Trees.AncestorBefore | src/main/java/tree/Tree.java:23 | a node's position precedes every position strictly below it (the node is reported before its children are entered) |
| Trees.LeftBeforeRight | src/main/java/tree/Tree.java:24-29 | below one node, positions in the left subtree precede positions in the right subtree |
| HuffmanTree.Poll | src/main/java/huffman/Huffman.java:35-58 | `PriorityQueue.poll` under the frequency comparator: removes exactly one queued node, from a position of least weight, and no queued node weighs less than it |
| HuffmanTree.CreateHuffmanTree | src/main/java/huffman/Huffman.java:29-68 | no words gives no tree and no merges; otherwise the root is what the merge loop leaves when it starts from one leaf per word, in order, and every merge polls the two lightest queued nodes (the recorded run ends with the queue `[root]`); every internal node has both children, the null symbol and the sum of its children's frequencies; the lighter child is on the left; the leaves are exactly the input words (as a multiset); there are n-1 internal nodes and n-1 merges; the root weighs the total frequency |
| HuffmanTree.WeightIsLeafSum | src/main/java/huffman/Huffman.java:55-63 | in a tree built by merging, the root weighs the sum of its leaves' frequencies |
| HuffmanTree.MergeStep | src/main/java/huffman/Huffman.java:56-63 | one merge keeps the queue's leaves and total weight and adds one internal node |
| HuffmanTree.MergeKeepsShape | src/main/java/huffman/Huffman.java:56-63 | a merge that polls the two lightest nodes queues a merge tree with the lighter child on the left, so every queued node stays one |
| HuffmanTree.MergeKeepsBuilding | src/main/java/huffman/Huffman.java:55-64 | one iteration of the merge loop keeps the queue's shape invariant: merge trees, the input words as leaves, one internal node and one merge more, the same total weight |
| HuffmanTree.RemoveFromQueue | src/main/java/huffman/Huffman.java:57-58 | a poll takes exactly the polled node's leaves, internal nodes and weight out of the queue |
| HuffmanTree.EnqueueLeaf | src/main/java/huffman/Huffman.java:49-53 | queuing a leaf per word keeps the queue equal to one leaf per word seen so far, in order |
| HuffmanTree.AllEnqueued | src/main/java/huffman/Huffman.java:49-55 | once every word is queued, the queue is one leaf per word and the merge loop's invariant holds with an empty run |
| HuffmanTree.LastNode | src/main/java/huffman/Huffman.java:65-67 | the one node left when the loop stops is a root with all the promised properties |
| HuffmanTree.LightestIndex | src/main/java/huffman/Huffman.java:35-46 | a non-empty queue has a node of least weight under the comparator |
| HuffmanTree.LeafQueue | src/main/java/huffman/Huffman.java:49-53 | the queue the merge loop starts from has one leaf per word, at the word's own position |
| HuffmanTree.PollsTookTwoLightest | src/main/java/huffman/Huffman.java:56-58 | two polls under the comparator take the two lightest nodes: the first no heavier than the second, the second no heavier than anything left queued |
| HuffmanTree.TwoPolls | src/main/java/huffman/Huffman.java:56-62 | two successive polls form a merge that polls as the comparator demands, and what they leave plus the merged node is the queue after that merge |
| HuffmanTree.MergeLightest | src/main/java/huffman/Huffman.java:56-62 | one iteration of the merge loop: the queue shrinks by one, and its new last node has the null symbol and two children taken from the old queue; the merge polls the lightest node and then the next lightest, and the new queue is exactly the recorded merge's result |
| HuffmanTree.RunStep | src/main/java/huffman/Huffman.java:55-64 | a merge that polls from the queue a run left extends the run |
| HuffmanTree.MergeKeepsMerging | src/main/java/huffman/Huffman.java:55-64 | one iteration keeps the whole loop invariant: the shape invariant, the run from the queue of leaves, and the comparator's promise at every merge |
| HuffmanTree.TotalFrequencyAppend | src/main/java/huffman/Huffman.java:62 | the frequency sum of a concatenation is the sum of the two parts' sums |
| EncodeTables.TraverseForEncode | src/main/java/huffman/Huffman.java:77-93 | the puts made below a node have exactly the leaf symbols below it as keys; internal nodes put nothing |
| EncodeTables.TraverseCodes | src/main/java/huffman/Huffman.java:77-93 | each recorded code extends the prefix by a binary path that leads to a leaf carrying that symbol |
| EncodeTables.CreateEncodeTable | src/main/java/huffman/Huffman.java:70-75 | needs a tree with a root; keys are exactly the leaf symbols; every code is binary and leads from the root to a leaf with that symbol; a leaf root gets the empty code; below an internal root every code is non-empty |
| EncodeTables.LeafPathRecorded | src/main/java/huffman/Huffman.java:77-93 | with distinct leaf symbols, every leaf's symbol is recorded with the leaf's own root-to-leaf path ('0' left, '1' right) |
| EncodeTables.LeafSymbolReached | src/main/java/huffman/Huffman.java:79-80 | the symbol of any leaf reachable from a node is a key the walk below that node records |
| EncodeTables.CodeTableIsPrefixFree | src/main/java/huffman/Huffman.java:77-93 | a table code is a prefix of another symbol's code exactly when the two symbols are the same |
| EncodeTables.LeafCodesArePrefixFree | src/main/java/huffman/Huffman.java:79-80 | two codes that both lead to leaves are prefixes of each other only when they are equal |
| EncodeTables.FollowPastLeaf | src/main/java/huffman/Huffman.java:79-82 | a walk that goes on past a leaf leaves the tree (the traversal stops at leaves) |
| EncodeTables.FollowFromLeaf | src/main/java/huffman/Huffman.java:79-82 | from a leaf, every non-empty code leaves the tree |
| EncodeTables.OneSymbolPerLeaf | src/main/java/huffman/Huffman.java:77-93 | with distinct leaf symbols there are as many symbols as leaves |
| EncodeTables.OneEntryPerLeaf | src/main/java/huffman/Huffman.java:70-75 | with distinct leaf symbols the table has one entry per leaf |
| EncodeTables.LeafWordSymbols | src/main/java/huffman/Huffman.java:79-80 | the symbol of every leaf word is one of the leaf symbols, which are the table's keys |
| EncodeTables.LeafWithSymbol | src/main/java/huffman/Huffman.java:79-80 | every leaf symbol, that is every table key, is carried by a leaf word |
| EncodeTables.DistinctWordsAreUnique | src/main/java/huffman/Huffman.java:109-116 | words with pairwise different symbols carry each symbol once, counted as a multiset |
| EncodeTables.UniqueLeavesAreDistinct | src/main/java/huffman/Huffman.java:56-63 | a tree whose leaf words carry each symbol once has distinct symbols on its two sides at every node |
| EncodeTables.DistinctWordsDistinctLeaves | src/main/java/huffman/Huffman.java:29-68 | a tree whose leaves are words with pairwise different symbols has distinct leaf symbols, which is the premise of `OneEntryPerLeaf` and `LeafPathRecorded` |
| BitPacker.ConcatCodes | src/main/java/huffman/Huffman.java:140-144 | the code string is the codes of the input bytes in input order (with "null" for a byte missing from the table) |
| BitPacker.CodesAppend | src/main/java/huffman/Huffman.java:140-144 | the code string of a concatenation is the concatenation of the code strings |
| BitPacker.CodesAreBinary | src/main/java/huffman/Huffman.java:140-144 | with every input byte in a table of binary codes, the code string is binary |
| BitPacker.CodeOf | src/main/java/huffman/Huffman.java:141-143 | a byte in the table contributes its table code; a byte missing from the table contributes the four characters "null" |
| BitPacker.PackBits | src/main/java/huffman/Huffman.java:146-168 | `size` is the code length; the output has ceil(size/8) bytes, or one byte when size is 0; read back most significant bit first it is exactly the code's bits followed by zero padding; an empty code gives the single byte 0 |
| BitPacker.WriteLastByte | src/main/java/huffman/Huffman.java:163-166 | shifting the pending bits up to a full byte and writing it completes the output with zero padding |
| BitPacker.Push | src/main/java/huffman/Huffman.java:155-160 | shifting in the next character keeps the written bytes and pending bits equal to the code read so far |
| BitPacker.Flush | src/main/java/huffman/Huffman.java:150-154 | writing a full `temp` before the next character keeps that equality |
| BitPacker.ShiftInBits | src/main/java/huffman/Huffman.java:156-159 | `temp <<= 1` and `temp += 1`, narrowed to a byte, append one bit to the pending bits and lose none |
| BitPacker.ShiftIn | src/main/java/huffman/Huffman.java:156-159 | `temp <<= 1`, then `temp += 1` for a '1', each narrowed to a byte: twice `temp`, plus one for a one bit, modulo 256 |
| BitPacker.ValueOfBits | src/main/java/huffman/Huffman.java:156-159 | reading back the bits of a byte gives the byte: unpacking loses nothing |
| BitPacker.PackedPrefix | src/main/java/huffman/Huffman.java:163-168 | the first `size` unpacked bits are exactly the code's bits (the padding is past `size`) |
| Frequency.Tally | src/main/java/huffman/Huffman.java:101-116 | one word per distinct input byte, in any order, its symbol the byte and its frequency the byte's number of occurrences; symbols distinct; frequencies sum to the input length |
| Frequency.ListDone | src/main/java/huffman/Huffman.java:109-116 | once every map entry is listed, the words are the tally of the input |
| Frequency.ListOne | src/main/java/huffman/Huffman.java:111-115 | listing one more map entry keeps the listed words one per visited key, with its count |
| Decoding.WalkAlongCode | src/main/java/huffman/Huffman.java:77-93 | walking the tree along a table code stops right after the code, at the leaf with that symbol |
| Decoding.DecodeCodes | src/main/java/huffman/Huffman.java:137-144 | under an internal root, the code string of bytes the table knows decodes back to those bytes |
| Compress.TreeCoversBytes | src/main/java/huffman/Huffman.java:101-121 | the tree built from the tally weighs the input length and has a leaf for every input byte |
| Compress.TallyLeaves | src/main/java/huffman/Huffman.java:101-121 | the tree built from the tally has distinct leaf symbols, which are exactly the input bytes, and each leaf carries its byte's number of occurrences |
| Compress.TallyTreeConfigured | src/main/java/huffman/Huffman.java:101-124 | the tally's Huffman tree and its table are configured for the input: built by a run from the tally's leaves, lighter child on the left, one table entry per distinct input byte |
| Compress.TallyAndBuild | src/main/java/huffman/Huffman.java:101-121 | no tree exactly for empty input; otherwise a merge tree weighing the input length with a leaf for every input byte, configured for the input with its code table |
| Compress.CodesOfSingleLeaf | src/main/java/huffman/Huffman.java:140-144 | with the single-leaf table, every input byte contributes the empty code |
| Compress.PackedCodesCompress | src/main/java/huffman/Huffman.java:118-124 | the tally's tree, its table and the packed codes form a compressed input: ceil(size/8) output bytes, or one, with zero padding past `size`; a leaf root gives size 0, the byte 0 and an input made of its symbol; otherwise the first `size` bits decode to the input |
| Compress.EncodeBytesAndFillSize | src/main/java/huffman/Huffman.java:137-171 | sets the configuration's size to the code length and nothing else; the output unpacks to the code's bits plus zero padding |
| Compress.CompressBytes | src/main/java/huffman/Huffman.java:95-135 | empty input fails with the configuration all null; otherwise the configuration holds the tree and its table, configured for the input (built by the merge run from the tally, one table entry per distinct input byte), and size and output form a compressed input with zero padding |
| Compress.HuffmanConfiguration.constructor | src/main/java/huffman/Huffman.java:178-183 | a new configuration has all three fields null |

## Left out

- File I/O in `compressFile`: reading the source file and writing the
  output and `.config` files. The input bytes are a parameter and the output
  is returned.
- Java object serialisation of the configuration and the tree.
- `uncompressFile`. It only deserialises the configuration and prints. The
  decoder in `Decoding` is a specification, not a model of repository code.
- Debug printing.
- `Word.java` is not part of this model. A word is a symbol and a
  frequency. Frequencies are natural numbers, not the `double`s the tests
  feed in, and floating-point rounding of sums is not modelled.
- The heap layout of `PriorityQueue` and its tie order. `Poll` may return any
  node of least weight, so every property holds for every tie order.
- The iteration order of `HashMap` in the tally. `Tally` may list the
  entries in any order.
- Integer widths. The occurrence counts (`Integer`), `currentLength` and
  `i` (`int`) and the `BigInteger` bit count are unbounded naturals here. An
  input of 2^31 or more bytes cannot be read into a Java array in the first
  place.
- Node identity and aliasing. Nodes are values, so two equal node objects
  cannot be told apart. Which node a visit is, is given by its position in
  the tree instead. Because values cannot change, the traversal changing
  no `data`, `left` or `right` field is implied, not stated.
- The listener interface of `Tree.java`. It is modelled by the sequence of
  nodes it receives.
- `null` words and `null` `data` fields. Leaves always carry a word. An
  input word array containing `null` is not modelled.
- Compress.EncodeBytesAndFillSize: requires the configuration to hold a
  table even for an empty input, where the Java loop would not dereference
  it. Its only caller sets the table first.
- Compress.CompressBytes: `None` stands for the exception raised on empty
  input, when the null tree is dereferenced. Exceptions are not otherwise
  modelled.

/**
 * The compression pipeline of Huffman.compressFile without its file I/O:
 * tally the input bytes, build the Huffman tree, derive the code table,
 * store table and tree in the configuration, and pack the input, recording
 * its exact bit count in the configuration.
 */
module Compress {
  import opened Wrappers
  import opened Trees
  import opened HuffmanTree
  import opened EncodeTables
  import opened BitPacker
  import opened Frequency
  import opened Decoding

  /** Huffman.HuffmanConfiguration: what decompression would need. Each
      field is `None` while it is Java's `null`. */
  class HuffmanConfiguration {
    /** The number of meaningful bits in the packed output. */
    var size: Option<nat>
    var encodeTable: Option<EncodeTable<byte>>
    var tree: Option<Tree<Word<byte>>>

    constructor()
      ensures size == None && encodeTable == None && tree == None
    {
      size := None;
      encodeTable := None;
      tree := None;
    }
  }

  /**
   * getEncodeBytesAndFillConfigurationSize: concatenates the codes of the
   * bytes from the configuration's table, packs them, and stores the number
   * of code bits as the configuration's size. Nothing else in the
   * configuration changes.
   */
  method EncodeBytesAndFillSize(bytes: seq<byte>, config: HuffmanConfiguration) returns (out: seq<byte>)
    requires config.encodeTable.Some?
    modifies config`size
    ensures config.size.Some? && config.size.value == |Codes(bytes, config.encodeTable.value)|
    ensures |out| == (if config.size.value == 0 then 1 else (config.size.value + 7) / 8)
    ensures Unpack(out) == Binarize(Codes(bytes, config.encodeTable.value)) + Zeros(8 * |out| - config.size.value)
    ensures config.size.value == 0 ==> out == [0]
  {
    var code := ConcatCodes(bytes, config.encodeTable.value);
    var size;
    out, size := PackBits(code);
    config.size := Some(size);
  }

  /** A table whose only code is empty gives every byte it knows the empty
      code string. */
  lemma {:induction false} CodesOfSingleLeaf(bytes: seq<byte>, table: EncodeTable<byte>, s: Option<byte>)
    requires table.table == map[s := ""]
    requires forall k :: 0 <= k < |bytes| ==> Some(bytes[k]) in table.table
    ensures Codes(bytes, table) == ""
  {
    if bytes != [] {
      CodesOfSingleLeaf(bytes[..|bytes| - 1], table, s);
    }
  }

  /** The tree built from the tally of `bytes` weighs the input length and
      has a leaf for every input byte. */
  lemma TreeCoversBytes(bytes: seq<byte>, words: seq<Word<byte>>, tree: Tree<Word<byte>>)
    requires forall b :: Some(b) in Symbols(words) <==> b in bytes
    requires TotalFrequency(words) == |bytes|
    requires MergeTree(tree.root) && multiset(Leaves(tree.root)) == multiset(words)
    requires Weight(tree.root) == TotalFrequency(words)
    ensures MergeTree(tree.root) && Weight(tree.root) == |bytes|
    ensures forall k :: 0 <= k < |bytes| ==> Some(bytes[k]) in LeafSymbols(tree.root)
  {
    forall k | 0 <= k < |bytes| ensures Some(bytes[k]) in LeafSymbols(tree.root) {
      assert Some(bytes[k]) in Symbols(words);
      var j :| 0 <= j < |words| && words[j].symbol == Some(bytes[k]);
      assert words[j] in multiset(Leaves(tree.root));
      LeafWordSymbols(tree.root, words[j]);
    }
  }

  /** `words` is a tally of `bytes`: one word per distinct input byte,
      carrying its number of occurrences, in some order. */
  ghost predicate Tallied(bytes: seq<byte>, words: seq<Word<byte>>) {
    (forall k :: 0 <= k < |words| ==>
      words[k].symbol.Some? && words[k].frequency == multiset(bytes)[words[k].symbol.value]) &&
    DistinctWords(words) &&
    (forall b :: Some(b) in Symbols(words) <==> b in bytes)
  }

  /** The tree built from a tally of `bytes` has distinct leaf symbols,
      which are exactly the input bytes, and each leaf word carries its
      byte's number of occurrences. */
  lemma TallyLeaves(bytes: seq<byte>, words: seq<Word<byte>>, root: Node<Word<byte>>)
    requires Tallied(bytes, words) && multiset(Leaves(root)) == multiset(words)
    ensures DistinctSymbols(root)
    ensures forall w :: w in Leaves(root) ==> w.symbol.Some? && w.frequency == multiset(bytes)[w.symbol.value]
    ensures forall s :: s in LeafSymbols(root) <==> s.Some? && s.value in bytes
  {
    DistinctWordsDistinctLeaves(root, words);
    forall w | w in Leaves(root) ensures w.symbol.Some? && w.frequency == multiset(bytes)[w.symbol.value] {
      assert w in multiset(words);
      var k :| 0 <= k < |words| && words[k] == w;
    }
    forall s ensures s in LeafSymbols(root) <==> s.Some? && s.value in bytes {
      if s in LeafSymbols(root) {
        var w := LeafWithSymbol(root, s);
        assert w in multiset(words);
        var k :| 0 <= k < |words| && words[k] == w;
        assert s in Symbols(words);
      }
      if s.Some? && s.value in bytes {
        assert s in Symbols(words);
        var k :| 0 <= k < |words| && words[k].symbol == s;
        assert words[k] in multiset(Leaves(root));
        LeafWordSymbols(root, words[k]);
      }
    }
  }

  /** What the configuration's tree and table are for `bytes`: `words` is a
      tally of `bytes`, and the tree is what the merge loop leaves when it
      starts from one leaf per word and polls as `merges` records, always
      the two lightest nodes; its leaf symbols are distinct and are exactly
      the input bytes, each leaf carrying its byte's count; the lighter child
      is on the left; and the table is the tree's code table, with one entry
      per distinct input byte. */
  ghost predicate Configured(bytes: seq<byte>, words: seq<Word<byte>>, merges: seq<Merge<byte>>,
                             tree: Tree<Word<byte>>, table: EncodeTable<byte>) {
    var root := tree.root;
    root != Nil &&
    Tallied(bytes, words) && Run(LeafQueue(words), merges, [root]) &&
    LighterOnLeft(root) && DistinctSymbols(root) &&
    (forall w :: w in Leaves(root) ==> w.symbol.Some? && w.frequency == multiset(bytes)[w.symbol.value]) &&
    table == CreateEncodeTable(tree) &&
    (forall s :: s in table.table <==> s.Some? && s.value in bytes)
  }

  /** The tree `CreateHuffmanTree` builds from a tally of `bytes`, with its
      code table, is configured for `bytes`. */
  lemma TallyTreeConfigured(bytes: seq<byte>, words: seq<Word<byte>>, merges: seq<Merge<byte>>, tree: Tree<Word<byte>>)
    requires Tallied(bytes, words) && Run(LeafQueue(words), merges, [tree.root])
    requires MergeTree(tree.root) && LighterOnLeft(tree.root)
    requires multiset(Leaves(tree.root)) == multiset(words)
    ensures Configured(bytes, words, merges, tree, CreateEncodeTable(tree))
  {
    TallyLeaves(bytes, words, tree.root);
  }

  /** What a compressed input promises: the root is a merge tree weighing
      the input length, and the output has ceil(size/8) bytes, or one when
      size is 0, whose bits past `size` are zero padding. A leaf root has
      size 0 and the one zero byte, and the input is its weight in copies of
      its symbol; under an internal root the first `size` bits decode to the
      input. */
  ghost predicate Compressed(bytes: seq<byte>, tree: Tree<Word<byte>>, size: nat, out: seq<byte>) {
    var root := tree.root;
    MergeTree(root) && Weight(root) == |bytes| &&
    |out| == (if size == 0 then 1 else (size + 7) / 8) &&
    size <= |Unpack(out)| && Unpack(out)[size..] == Zeros(8 * |out| - size) &&
    (root.IsLeaf() ==>
      size == 0 && out == [0] &&
      forall k :: 0 <= k < |bytes| ==> Some(bytes[k]) == root.data.symbol) &&
    (!root.IsLeaf() ==> Decode(root, Unpack(out)[..size]) == Some(bytes))
  }

  /** A merge tree weighing the input length, with a leaf for every input
      byte, its table and the packed codes give a compressed input. */
  lemma PackedCodesCompress(bytes: seq<byte>, tree: Tree<Word<byte>>, code: string, size: nat, out: seq<byte>)
    requires MergeTree(tree.root) && Weight(tree.root) == |bytes|
    requires forall k :: 0 <= k < |bytes| ==> Some(bytes[k]) in LeafSymbols(tree.root)
    requires code == Codes(bytes, CreateEncodeTable(tree)) && size == |code|
    requires |out| == (if |code| == 0 then 1 else (|code| + 7) / 8)
    requires Unpack(out) == Binarize(code) + Zeros(8 * |out| - |code|)
    requires |code| == 0 ==> out == [0]
    ensures Compressed(bytes, tree, size, out)
  {
    var table := CreateEncodeTable(tree);
    assert Unpack(out)[size..] == Zeros(8 * |out| - size);
    if tree.root.IsLeaf() {
      CodesOfSingleLeaf(bytes, table, tree.root.data.symbol);
    } else {
      DecodeCodes(tree, bytes);
      PackedPrefix(code, out);
    }
  }

  /**
   * The first half of compressFile: tally the bytes and build the Huffman
   * tree of the tally. No tree for empty input; otherwise a merge tree
   * weighing the input length, with a leaf for every input byte, that is
   * configured for `bytes` together with its code table. The ghost `words`
   * and `merges` are the tally and the run of the merge loop.
   */
  method TallyAndBuild(bytes: seq<byte>)
    returns (tree: Option<Tree<Word<byte>>>, table: EncodeTable<byte>, ghost words: seq<Word<byte>>, ghost merges: seq<Merge<byte>>)
    ensures tree.None? <==> |bytes| == 0
    ensures tree.Some? ==>
      tree.value.root != Nil && MergeTree(tree.value.root) && Weight(tree.value.root) == |bytes| &&
      (forall k :: 0 <= k < |bytes| ==> Some(bytes[k]) in LeafSymbols(tree.value.root)) &&
      table == CreateEncodeTable(tree.value) &&
      Configured(bytes, words, merges, tree.value, table)
  {
    table := EncodeTable(map[]);
    var tally := Tally(bytes);
    words := tally;
    assert Tallied(bytes, words);
    tree, merges := CreateHuffmanTree(tally);
    if tree.Some? {
      table := CreateEncodeTable(tree.value);
      TallyTreeConfigured(bytes, words, merges, tree.value);
      TreeCoversBytes(bytes, words, tree.value);
    }
  }

  /**
   * compressFile on in-memory bytes. An empty input builds no tree, and
   * createHuffmanEncodeTable then dereferences the null tree: `None`, with
   * the configuration still all null. Otherwise the configuration holds the
   * tree and its code table, configured for the input (the ghost `words`
   * and `merges` are the tally and the run of the merge loop that built
   * the tree), and the size and output of a compressed input.
   */
  method CompressBytes(bytes: seq<byte>)
    returns (out: Option<seq<byte>>, config: HuffmanConfiguration, ghost words: seq<Word<byte>>, ghost merges: seq<Merge<byte>>)
    ensures fresh(config)
    ensures out.None? <==> |bytes| == 0
    ensures out.None? ==> config.size.None? && config.encodeTable.None? && config.tree.None?
    ensures out.Some? ==>
      config.tree.Some? && config.encodeTable.Some? && config.size.Some? &&
      config.tree.value.root != Nil &&
      Configured(bytes, words, merges, config.tree.value, config.encodeTable.value) &&
      Compressed(bytes, config.tree.value, config.size.value, out.value)
  {
    config := new HuffmanConfiguration();
    var tree, table;
    tree, table, words, merges := TallyAndBuild(bytes);
    if tree.None? {
      return None, config, words, merges;
    }
    config.encodeTable := Some(table);
    config.tree := tree;
    var encoded := EncodeBytesAndFillSize(bytes, config);
    assert config.tree == tree && config.encodeTable == Some(table);
    assert Compressed(bytes, tree.value, config.size.value, encoded) by {
      PackedCodesCompress(bytes, tree.value, Codes(bytes, table), config.size.value, encoded);
    }
    out := Some(encoded);
  }
}

/**
 * A decoder for the packed bits, as a specification only: it walks the
 * Huffman tree from the root, going right on a one bit and left on a zero
 * bit, and emits a leaf's symbol on reaching it. It states what the code
 * table and the packer together guarantee: the first `size` packed bits
 * decode back to the input.
 */
module Decoding {
  import opened Wrappers
  import opened Trees
  import opened HuffmanTree
  import opened EncodeTables
  import opened BitPacker

  /** The symbol of the leaf that `bits` lead to from `node`, and the bits
      left after it; `None` when the bits run out or leave the tree. */
  ghost function Walk<S>(node: Node<Word<S>>, bits: seq<bool>): (r: Option<(Option<S>, seq<bool>)>)
    ensures r.Some? ==> |r.value.1| <= |bits|
    ensures r.Some? && !node.IsLeaf() ==> |r.value.1| < |bits|
  {
    if node == Nil then None
    else if node.IsLeaf() then Some((node.data.symbol, bits))
    else if bits == [] then None
    else Walk(if bits[0] then node.right else node.left, bits[1..])
  }

  /** The symbols that `bits` spell from `root`, one walk after another;
      `None` when a walk fails, consumes no bit or ends at a leaf with no
      symbol. */
  ghost function Decode<S>(root: Node<Word<S>>, bits: seq<bool>): Option<seq<S>>
    decreases |bits|
  {
    if bits == [] then Some([])
    else match Walk(root, bits)
      case None => None
      case Some((s, rest)) =>
        if s.None? || |rest| >= |bits| then None
        else match Decode(root, rest)
          case None => None
          case Some(ss) => Some([s.value] + ss)
  }

  lemma BinarizeAppend(a: string, b: string)
    ensures Binarize(a + b) == Binarize(a) + Binarize(b)
  {
  }

  /** Walking along a code that leads to a leaf stops right after the code,
      at that leaf's symbol. */
  lemma {:induction false} WalkAlongCode<S>(node: Node<Word<S>>, code: string, rest: seq<bool>)
    requires IsBinary(code) && Follow(node, code).IsLeaf()
    ensures Walk(node, Binarize(code) + rest) == Some((Follow(node, code).data.symbol, rest))
  {
    var bits := Binarize(code) + rest;
    if code == [] {
      assert bits == rest;
    } else {
      FollowFromLeaf(node, code);
      var tail := code[1..];
      assert bits[0] == (code[0] == '1');
      assert bits[1..] == Binarize(tail) + rest;
      assert IsBinary(tail) by {
        forall i | 0 <= i < |tail| ensures tail[i] == '0' || tail[i] == '1' {
          assert tail[i] == code[i + 1];
        }
      }
      var child := if code[0] == '1' then node.right else node.left;
      assert Follow(node, code) == Follow(child, tail);
      WalkAlongCode(child, tail, rest);
    }
  }

  /** The code of the first byte, then the codes of the others. */
  lemma CodesCons(bytes: seq<byte>, table: EncodeTable<byte>)
    requires bytes != []
    ensures Codes(bytes, table) == CodeOf(table, bytes[0]) + Codes(bytes[1..], table)
  {
    CodesAppend([bytes[0]], bytes[1..], table);
    assert [bytes[0]] + bytes[1..] == bytes;
    assert Codes([bytes[0]], table) == Codes([], table) + CodeOf(table, bytes[0]);
  }

  /** Round trip: under an internal root, the codes of any bytes the table
      knows decode back to those bytes. */
  lemma {:induction false} DecodeCodes(tree: Tree<Word<byte>>, bytes: seq<byte>)
    requires tree.root != Nil && !tree.root.IsLeaf()
    requires forall k :: 0 <= k < |bytes| ==> Some(bytes[k]) in CreateEncodeTable(tree).table
    ensures Decode(tree.root, Binarize(Codes(bytes, CreateEncodeTable(tree)))) == Some(bytes)
  {
    var table := CreateEncodeTable(tree);
    if bytes != [] {
      var code, others := table.table[Some(bytes[0])], Codes(bytes[1..], table);
      assert IsBinary(code) && LeafWith(Follow(tree.root, code), Some(bytes[0])) && code != "";
      CodesCons(bytes, table);
      var bits, rest := Binarize(Codes(bytes, table)), Binarize(others);
      assert bits == Binarize(code) + rest by {
        BinarizeAppend(code, others);
      }
      WalkAlongCode(tree.root, code, rest);
      assert Walk(tree.root, bits) == Some((Some(bytes[0]), rest)) && |rest| < |bits|;
      DecodeCodes(tree, bytes[1..]);
      assert [bytes[0]] + bytes[1..] == bytes;
    }
  }
}

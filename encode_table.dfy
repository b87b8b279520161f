/**
 * Huffman.createHuffmanEncodeTable / traverForEncode: a walk over the
 * Huffman tree that extends the code with '0' when it goes left and '1'
 * when it goes right, and records `symbol -> code` at every leaf.
 */
module EncodeTables {
  import opened Wrappers
  import opened Trees
  import opened HuffmanTree

  /** Huffman.EncodeTable: the symbol-to-code map. Like Java's HashMap it
      admits the null symbol as a key. */
  datatype EncodeTable<S(==)> = EncodeTable(table: map<Option<S>, string>)

  /** A code made of '0' and '1' only. */
  predicate IsBinary(code: string) {
    forall i :: 0 <= i < |code| ==> code[i] == '0' || code[i] == '1'
  }

  /** The tree position a code names: '1' goes right, '0' (any other
      character) goes left. */
  ghost function PathOf(code: string): Path {
    if code == [] then Here
    else if code[0] == '1' then Right(PathOf(code[1..]))
    else Left(PathOf(code[1..]))
  }

  /** The node reference reached from `node` by following `code`. */
  ghost function Follow<S>(node: Node<Word<S>>, code: string): Node<Word<S>> {
    At(node, PathOf(code))
  }

  /** `n` is a leaf object carrying `s`. */
  ghost predicate LeafWith<S>(n: Node<Word<S>>, s: Option<S>) {
    n.IsLeaf() && n.data.symbol == s
  }

  /** The symbols at the leaves below `node`. */
  function LeafSymbols<S(==)>(node: Node<Word<S>>): set<Option<S>> {
    if node == Nil then {}
    else if node.IsLeaf() then {node.data.symbol}
    else LeafSymbols(node.left) + LeafSymbols(node.right)
  }

  /** `code` extends `prefix` by a binary code that leads from `node` to a
      leaf carrying `s`. */
  ghost predicate CodeBelow<S>(node: Node<Word<S>>, prefix: string, code: string, s: Option<S>) {
    prefix <= code && IsBinary(code[|prefix|..]) && LeafWith(Follow(node, code[|prefix|..]), s)
  }

  /**
   * traverForEncode: the `put`s made while walking below `node` whose code
   * so far is `prefix`, as a map. The node must not be null. A leaf records
   * its symbol; otherwise the left subtree is walked first and the right
   * one second, so a symbol recorded on both sides keeps the right one's
   * code (map union keeps its right operand's value). One key per leaf
   * symbol, and no other.
   */
  function TraverseForEncode<S(==)>(node: Node<Word<S>>, prefix: string): (puts: map<Option<S>, string>)
    requires node != Nil
    ensures puts.Keys == LeafSymbols(node)
  {
    if node.left == Nil && node.right == Nil then
      map[node.data.symbol := prefix]
    else
      (if node.left != Nil then TraverseForEncode(node.left, prefix + "0") else map[])
      + (if node.right != Nil then TraverseForEncode(node.right, prefix + "1") else map[])
  }

  /** A code below a child is a code below its parent, one character longer. */
  lemma CodeBelowChild<S>(node: Node<Word<S>>, prefix: string, b: char, code: string, s: Option<S>)
    requires node != Nil && (b == '0' || b == '1')
    requires CodeBelow(if b == '0' then node.left else node.right, prefix + [b], code, s)
    ensures CodeBelow(node, prefix, code, s)
  {
    var rest := code[|prefix| + 1..];
    assert code[|prefix|..] == [b] + rest;
    assert code[|prefix|..][1..] == rest;
    assert (prefix + [b])[..|prefix|] == prefix;
  }

  /** Every code recorded below `node` extends `prefix` by the binary path
      from `node` to a leaf carrying that symbol. */
  lemma {:induction false} TraverseCodes<S>(node: Node<Word<S>>, prefix: string)
    requires node != Nil
    ensures forall s :: s in TraverseForEncode(node, prefix) ==>
      CodeBelow(node, prefix, TraverseForEncode(node, prefix)[s], s)
  {
    var puts := TraverseForEncode(node, prefix);
    if node.left == Nil && node.right == Nil {
      forall s | s in puts ensures CodeBelow(node, prefix, puts[s], s) {
        assert puts[s] == prefix;
        assert prefix[|prefix|..] == [];
      }
    } else {
      var l := if node.left != Nil then TraverseForEncode(node.left, prefix + "0") else map[];
      var r := if node.right != Nil then TraverseForEncode(node.right, prefix + "1") else map[];
      assert puts == l + r;
      forall s | s in puts ensures CodeBelow(node, prefix, puts[s], s) {
        if s in r {
          assert node.right != Nil;
          var p := prefix + ['1'];
          assert p == prefix + "1";
          TraverseCodes(node.right, p);
          assert CodeBelow(node.right, p, r[s], s);
          CodeBelowChild(node, prefix, '1', r[s], s);
        } else {
          assert node.left != Nil;
          var p := prefix + ['0'];
          assert p == prefix + "0";
          TraverseCodes(node.left, p);
          assert CodeBelow(node.left, p, l[s], s);
          CodeBelowChild(node, prefix, '0', l[s], s);
        }
      }
    }
  }

  /**
   * createHuffmanEncodeTable: walks from the root with the empty code. The
   * tree must have a root. The table has exactly the leaf symbols as keys,
   * and each code is binary and leads from the root to a leaf with that
   * symbol. A root that is itself a leaf gets the empty code; below an
   * internal root every code is non-empty.
   */
  function CreateEncodeTable<S(==)>(tree: Tree<Word<S>>): (t: EncodeTable<S>)
    requires tree.root != Nil
    ensures t.table.Keys == LeafSymbols(tree.root)
    ensures forall s :: s in t.table ==> IsBinary(t.table[s]) && LeafWith(Follow(tree.root, t.table[s]), s)
    ensures tree.root.IsLeaf() ==> t.table == map[tree.root.data.symbol := ""]
    ensures !tree.root.IsLeaf() ==> forall s :: s in t.table ==> t.table[s] != ""
  {
    var puts := TraverseForEncode(tree.root, "");
    TraverseCodes(tree.root, "");
    forall s | s in puts
      ensures IsBinary(puts[s]) && LeafWith(Follow(tree.root, puts[s]), s)
      ensures !tree.root.IsLeaf() ==> puts[s] != ""
    {
      assert CodeBelow(tree.root, "", puts[s], s);
      assert puts[s][0..] == puts[s];
    }
    EncodeTable(puts)
  }

  /** From a leaf, every non-empty code leaves the tree. */
  lemma FollowFromLeaf<S>(node: Node<Word<S>>, c: string)
    requires c != []
    ensures node.IsLeaf() ==> Follow(node, c) == Nil
  {
    var p := PathOf(c[1..]);
    assert PathOf(c) == if c[0] == '1' then Right(p) else Left(p);
    if node.IsLeaf() {
      assert At(node.left, p) == Nil && At(node.right, p) == Nil;
    }
  }

  /** Going on past a leaf leaves the tree. */
  lemma {:induction false} FollowPastLeaf<S>(node: Node<Word<S>>, c: string, d: string)
    requires Follow(node, c).IsLeaf() && d != []
    ensures Follow(node, c + d) == Nil
  {
    if c == [] {
      assert c + d == d;
      FollowFromLeaf(node, d);
    } else {
      assert (c + d)[1..] == c[1..] + d;
      assert (c + d)[0] == c[0];
      var child := if c[0] == '1' then node.right else node.left;
      FollowPastLeaf(child, c[1..], d);
    }
  }

  /** No code leads to a leaf and also extends further: a code that is a
      prefix of another code in the table is that same code. */
  lemma LeafCodesArePrefixFree<S>(node: Node<Word<S>>, c1: string, c2: string)
    requires Follow(node, c1).IsLeaf() && Follow(node, c2).IsLeaf()
    requires c1 <= c2
    ensures c1 == c2
  {
    var d := c2[|c1|..];
    assert c2 == c1 + d;
    if d != [] {
      FollowPastLeaf(node, c1, d);
    }
  }

  /** The codes of a Huffman table are prefix-free: no code is a prefix of
      another symbol's code. */
  lemma CodeTableIsPrefixFree<S>(tree: Tree<Word<S>>, s1: Option<S>, s2: Option<S>)
    requires tree.root != Nil
    requires var t := CreateEncodeTable(tree).table; s1 in t && s2 in t
    ensures var t := CreateEncodeTable(tree).table; t[s1] <= t[s2] <==> s1 == s2
  {
    var t := CreateEncodeTable(tree).table;
    if t[s1] <= t[s2] {
      LeafCodesArePrefixFree(tree.root, t[s1], t[s2]);
    }
  }

  /** Different leaves carry different symbols. */
  predicate DistinctSymbols<S(==)>(node: Node<Word<S>>) {
    node == Nil || node.IsLeaf() ||
    (DistinctSymbols(node.left) && DistinctSymbols(node.right) &&
     LeafSymbols(node.left) !! LeafSymbols(node.right))
  }

  /** With distinct leaf symbols, there are as many symbols as leaves. */
  lemma {:induction false} OneSymbolPerLeaf<S>(node: Node<Word<S>>)
    requires DistinctSymbols(node)
    ensures |LeafSymbols(node)| == |Leaves(node)|
  {
    if node != Nil && !node.IsLeaf() {
      OneSymbolPerLeaf(node.left);
      OneSymbolPerLeaf(node.right);
      var a, b := LeafSymbols(node.left), LeafSymbols(node.right);
      assert |a + b| == |a| + |b| by {
        assert a + b - a == b;
      }
    }
  }

  /** With distinct leaf symbols, the table has one entry per leaf. */
  lemma OneEntryPerLeaf<S>(tree: Tree<Word<S>>)
    requires tree.root != Nil && DistinctSymbols(tree.root)
    ensures |CreateEncodeTable(tree).table| == |Leaves(tree.root)|
  {
    OneSymbolPerLeaf(tree.root);
  }

  /** With distinct leaf symbols, every leaf's own path is recorded as its
      symbol's code. */
  lemma {:induction false} LeafPathRecorded<S>(node: Node<Word<S>>, prefix: string, c: string)
    requires node != Nil && DistinctSymbols(node)
    requires IsBinary(c) && Follow(node, c).IsLeaf()
    ensures Follow(node, c).data.symbol in TraverseForEncode(node, prefix)
    ensures TraverseForEncode(node, prefix)[Follow(node, c).data.symbol] == prefix + c
  {
    var leaf := Follow(node, c);
    LeafSymbolReached(node, c);
    if c == [] {
      assert prefix + c == prefix;
    } else {
      FollowFromLeaf(node, c);
      var b, rest := c[0], c[1..];
      assert c == [b] + rest;
      var child := if b == '0' then node.left else node.right;
      assert Follow(node, c) == Follow(child, rest);
      assert IsBinary(rest) by {
        forall i | 0 <= i < |rest| ensures rest[i] == '0' || rest[i] == '1' {
          assert rest[i] == c[i + 1];
        }
      }
      LeafPathRecorded(child, prefix + [b], rest);
      assert prefix + [b] + rest == prefix + c;
      LeafSymbolReached(child, rest);
      var l := if node.left != Nil then TraverseForEncode(node.left, prefix + "0") else map[];
      var r := if node.right != Nil then TraverseForEncode(node.right, prefix + "1") else map[];
      assert TraverseForEncode(node, prefix) == l + r;
      if b == '0' {
        assert prefix + [b] == prefix + "0";
        assert leaf.data.symbol in LeafSymbols(node.left);
        assert leaf.data.symbol !in r;
      } else {
        assert prefix + [b] == prefix + "1";
      }
    }
  }

  /** The symbol of a leaf reached from `node` is a leaf symbol of `node`. */
  lemma {:induction false} LeafSymbolReached<S>(node: Node<Word<S>>, c: string)
    requires Follow(node, c).IsLeaf()
    ensures Follow(node, c).data.symbol in LeafSymbols(node)
  {
    if c != [] {
      FollowFromLeaf(node, c);
      var child := if c[0] == '1' then node.right else node.left;
      assert Follow(node, c) == Follow(child, c[1..]);
      LeafSymbolReached(child, c[1..]);
    }
  }

  /** The symbol of every leaf word is a leaf symbol. */
  lemma {:induction false} LeafWordSymbols<S>(node: Node<Word<S>>, w: Word<S>)
    requires w in Leaves(node)
    ensures w.symbol in LeafSymbols(node)
  {
    if !node.IsLeaf() {
      if w in Leaves(node.left) {
        LeafWordSymbols(node.left, w);
      } else {
        LeafWordSymbols(node.right, w);
      }
    }
  }

  /** No two of `words` carry the same symbol. */
  predicate DistinctWords<S(==)>(words: seq<Word<S>>) {
    forall j, k :: 0 <= j < k < |words| ==> words[j].symbol != words[k].symbol
  }

  /** In `m`, each symbol is carried by at most one word, held once. */
  ghost predicate UniqueSymbols<S>(m: multiset<Word<S>>) {
    forall w, v :: w in m && v in m && w.symbol == v.symbol ==> w == v && m[w] == 1
  }

  /** Words with pairwise different symbols, taken as a multiset, carry
      each symbol once. */
  lemma {:induction false} DistinctWordsAreUnique<S>(words: seq<Word<S>>)
    requires DistinctWords(words)
    ensures UniqueSymbols(multiset(words))
  {
    if words != [] {
      var p, x := words[..|words| - 1], words[|words| - 1];
      assert words == p + [x];
      assert DistinctWords(p) by {
        forall j, k | 0 <= j < k < |p| ensures p[j].symbol != p[k].symbol {
          assert p[j] == words[j] && p[k] == words[k];
        }
      }
      DistinctWordsAreUnique(p);
      forall w | w in p ensures w.symbol != x.symbol {
        var j :| 0 <= j < |p| && p[j] == w;
        assert words[j] == w;
      }
      assert multiset(words) == multiset(p) + multiset{x};
    }
  }

  /** Each leaf symbol of `node` is carried by one of its leaf words. */
  lemma {:induction false} LeafWithSymbol<S>(node: Node<Word<S>>, s: Option<S>) returns (w: Word<S>)
    requires s in LeafSymbols(node)
    ensures w in Leaves(node) && w.symbol == s
  {
    if node.IsLeaf() {
      w := node.data;
    } else if s in LeafSymbols(node.left) {
      w := LeafWithSymbol(node.left, s);
    } else {
      w := LeafWithSymbol(node.right, s);
    }
  }

  /** Both parts of a multiset that carries each symbol once do so too,
      and no symbol is carried in both. */
  lemma UniqueParts<S>(a: multiset<Word<S>>, b: multiset<Word<S>>)
    requires UniqueSymbols(a + b)
    ensures UniqueSymbols(a) && UniqueSymbols(b)
    ensures forall w, v :: w in a && v in b ==> w.symbol != v.symbol
  {
    forall w, v | w in a && v in b ensures w.symbol != v.symbol {
      assert w in a + b && v in a + b;
    }
  }

  /** Leaf words that carry each symbol once sit below a node whose leaves
      have distinct symbols. */
  lemma {:induction false} UniqueLeavesAreDistinct<S>(node: Node<Word<S>>)
    requires UniqueSymbols(multiset(Leaves(node)))
    ensures DistinctSymbols(node)
  {
    if node != Nil && !node.IsLeaf() {
      var l, r := multiset(Leaves(node.left)), multiset(Leaves(node.right));
      assert multiset(Leaves(node)) == l + r;
      UniqueParts(l, r);
      UniqueLeavesAreDistinct(node.left);
      UniqueLeavesAreDistinct(node.right);
      forall s | s in LeafSymbols(node.left) ensures s !in LeafSymbols(node.right) {
        var w := LeafWithSymbol(node.left, s);
        if s in LeafSymbols(node.right) {
          var v := LeafWithSymbol(node.right, s);
          assert false;
        }
      }
    }
  }

  /** A tree whose leaves are words with pairwise different symbols has
      distinct leaf symbols: the premise of `OneEntryPerLeaf` and
      `LeafPathRecorded` holds for every tree built from such words. */
  lemma DistinctWordsDistinctLeaves<S>(node: Node<Word<S>>, words: seq<Word<S>>)
    requires DistinctWords(words) && multiset(Leaves(node)) == multiset(words)
    ensures DistinctSymbols(node)
  {
    DistinctWordsAreUnique(words);
    UniqueLeavesAreDistinct(node);
  }
}

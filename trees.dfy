/**
 * The binary tree of tree/Tree.java: node objects holding a payload and two
 * child references, a tree object holding a root reference, and the
 * pre-order traversal that hands every node to a listener.
 *
 * The listener is modelled by what it observes: the sequence of nodes it is
 * called with, in call order. Which node a visit is, is given by its
 * position in the tree (a `Path` from the start node), since two node
 * objects with equal contents are equal values here.
 */
module Trees {

  /** A node reference: `Nil` is Java's `null`, `Node` a node object with its
      `data`, `left` and `right` fields. */
  datatype Node<T> = Nil | Node(data: T, left: Node<T>, right: Node<T>)
  {
    /** A node object whose two child references are both null. */
    predicate IsLeaf() {
      Node? && left == Nil && right == Nil
    }

    /**
     * Node.preTraverse: the nodes handed to the listener, in call order.
     * A null start node is not visited at all; otherwise the node itself
     * comes first, then the left subtree, then the right subtree, each
     * entered only when the child reference is not null.
     */
    static function PreTraverse(node: Node<T>): (visits: seq<Node<T>>)
      ensures |visits| == Size(node)
      ensures node == Nil ==> visits == []
      ensures node != Nil ==> visits[0] == node
    {
      if node == Nil then []
      else
        [node]
        + (if node.left != Nil then PreTraverse(node.left) else [])
        + (if node.right != Nil then PreTraverse(node.right) else [])
    }
  }

  /** The tree object of Tree.java: one root reference. */
  datatype Tree<T> = Tree(root: Node<T>)
  {
    /** Tree.preTraverse: starts at `root`, which it dereferences, so the
        tree must have a root; the root is visited first and every node
        below it once. */
    function PreTraverse(): (visits: seq<Node<T>>)
      requires root != Nil
      ensures |visits| == Size(root) && visits[0] == root
      ensures forall k :: 0 <= k < |visits| ==> visits[k] == At(root, Position(root, k))
    {
      var visits := Node.PreTraverse(root);
      forall k | 0 <= k < |visits| ensures visits[k] == At(root, Position(root, k)) {
        VisitIsNodeAtPosition(root, k);
      }
      visits
    }
  }

  /** Number of node objects reachable from `node`, `node` included. */
  function Size<T>(node: Node<T>): nat {
    match node
    case Nil => 0
    case Node(_, l, r) => 1 + Size(l) + Size(r)
  }

  /** A position below a node: the node itself, or a position in its left
      or in its right subtree. */
  datatype Path = Here | Left(sub: Path) | Right(sub: Path)

  /** The node reference found at `path` below `node` (`Nil` once the path
      leaves the tree). */
  ghost function At<T>(node: Node<T>, path: Path): Node<T> {
    if node == Nil then Nil
    else match path
      case Here => node
      case Left(p) => At(node.left, p)
      case Right(p) => At(node.right, p)
  }

  /** `p` followed by `q`: the position `q` below the node at `p`. */
  ghost function Then(p: Path, q: Path): Path {
    match p
    case Here => q
    case Left(s) => Left(Then(s, q))
    case Right(s) => Right(Then(s, q))
  }

  /** The position of the `k`-th node the traversal visits. */
  ghost function Position<T>(node: Node<T>, k: nat): Path
    requires k < Size(node)
  {
    var n := Size(node.left);
    if k == 0 then Here
    else if k <= n then Left(Position(node.left, k - 1))
    else Right(Position(node.right, k - 1 - n))
  }

  /** Every visit is at a position that holds a node of the tree. */
  lemma {:induction false} PositionInTree<T>(node: Node<T>, k: nat)
    requires k < Size(node)
    ensures At(node, Position(node, k)) != Nil
  {
    var n := Size(node.left);
    if 0 < k <= n {
      PositionInTree(node.left, k - 1);
    } else if n < k {
      PositionInTree(node.right, k - 1 - n);
    }
  }

  /** The visit number of the node at `path`: every node of the tree is
      visited. */
  ghost function Index<T>(node: Node<T>, path: Path): (k: nat)
    requires At(node, path) != Nil
    ensures k < Size(node) && Position(node, k) == path
  {
    match path
    case Here => 0
    case Left(p) => 1 + Index(node.left, p)
    case Right(p) => 1 + Size(node.left) + Index(node.right, p)
  }

  /** Pre-order on positions: a node comes before everything below it, and
      a left subtree before the right subtree of the same node. */
  ghost predicate Before(p: Path, q: Path) {
    match p
    case Here => !q.Here?
    case Left(p') => q.Right? || (q.Left? && Before(p', q.sub))
    case Right(p') => q.Right? && Before(p', q.sub)
  }

  lemma {:induction false} BeforeAsymmetric(p: Path, q: Path)
    ensures !(Before(p, q) && Before(q, p))
  {
    if !p.Here? && !q.Here? {
      BeforeAsymmetric(p.sub, q.sub);
    }
  }

  lemma {:induction false} BeforeIrreflexive(p: Path)
    ensures !Before(p, p)
  {
    if !p.Here? {
      BeforeIrreflexive(p.sub);
    }
  }

  /** A node comes before every node strictly below it. */
  lemma {:induction false} AncestorBefore(p: Path, r: Path)
    requires r != Here
    ensures Before(p, Then(p, r))
  {
    if !p.Here? {
      AncestorBefore(p.sub, r);
    }
  }

  /** Below one node, its left subtree comes before its right subtree. */
  lemma {:induction false} LeftBeforeRight(p: Path, x: Path, y: Path)
    ensures Before(Then(p, Left(x)), Then(p, Right(y)))
  {
    if !p.Here? {
      LeftBeforeRight(p.sub, x, y);
    }
  }

  /** The visit sequence of a node object, with the null checks unfolded:
      a null child contributes no visits either way. */
  lemma Unfold<T>(node: Node<T>)
    requires node != Nil
    ensures Node.PreTraverse(node)
         == [node] + Node.PreTraverse(node.left) + Node.PreTraverse(node.right)
  {
  }

  /** Indexing into a sequence made of one element and two blocks. */
  lemma PartAt<X>(a: X, b: seq<X>, c: seq<X>, k: nat)
    requires k < 1 + |b| + |c|
    ensures ([a] + b + c)[k] == if k == 0 then a else if k <= |b| then b[k - 1] else c[k - 1 - |b|]
  {
  }

  /** The `k`-th visit of the traversal, in terms of the two subtrees. */
  lemma VisitAt<T>(node: Node<T>, k: nat)
    requires k < Size(node)
    ensures Node.PreTraverse(node)[k]
         == if k == 0 then node
            else if k <= Size(node.left) then Node.PreTraverse(node.left)[k - 1]
            else Node.PreTraverse(node.right)[k - 1 - Size(node.left)]
  {
    Unfold(node);
    PartAt(node, Node.PreTraverse(node.left), Node.PreTraverse(node.right), k);
  }

  /** The `k`-th node handed to the listener is the tree's own node at the
      `k`-th position: the traversal passes nodes as they are. */
  lemma {:induction false} VisitIsNodeAtPosition<T>(node: Node<T>, k: nat)
    requires k < Size(node)
    ensures Node.PreTraverse(node)[k] == At(node, Position(node, k))
  {
    var n := Size(node.left);
    VisitAt(node, k);
    if 0 < k <= n {
      VisitIsNodeAtPosition(node.left, k - 1);
    } else if n < k {
      VisitIsNodeAtPosition(node.right, k - 1 - n);
    }
  }

  /** Visits happen in pre-order. */
  lemma {:induction false} VisitedInPreOrder<T>(node: Node<T>, i: nat, j: nat)
    requires i < j < Size(node)
    ensures Before(Position(node, i), Position(node, j))
  {
    var n := Size(node.left);
    if 0 < i && j <= n {
      VisitedInPreOrder(node.left, i - 1, j - 1);
    } else if i > n {
      VisitedInPreOrder(node.right, i - 1 - n, j - 1 - n);
    }
  }

  /** The order of visits is exactly the pre-order of their positions. */
  lemma {:induction false} VisitOrder<T>(node: Node<T>, i: nat, j: nat)
    requires i < Size(node) && j < Size(node)
    ensures i < j <==> Before(Position(node, i), Position(node, j))
  {
    if i < j {
      VisitedInPreOrder(node, i, j);
    } else if j < i {
      VisitedInPreOrder(node, j, i);
      BeforeAsymmetric(Position(node, j), Position(node, i));
    } else {
      BeforeIrreflexive(Position(node, i));
    }
  }

  /** Every node is visited exactly once: two different visits are at two
      different positions, and (by `Index`) every position is visited. */
  lemma {:induction false} VisitedOnce<T>(node: Node<T>, i: nat, j: nat)
    requires i < Size(node) && j < Size(node)
    ensures Position(node, i) == Position(node, j) <==> i == j
  {
    if Position(node, i) == Position(node, j) {
      BeforeIrreflexive(Position(node, i));
      VisitOrder(node, i, j);
      VisitOrder(node, j, i);
    }
  }

  /** A node is handed to the listener before any node below it. */
  lemma {:induction false} NodeBeforeDescendants<T>(node: Node<T>, i: nat, j: nat, r: Path)
    requires i < Size(node) && j < Size(node)
    requires r != Here && Position(node, j) == Then(Position(node, i), r)
    ensures i < j
  {
    AncestorBefore(Position(node, i), r);
    VisitOrder(node, i, j);
  }

  /** Below any node, the whole left subtree is visited before any node of
      the right subtree. */
  lemma {:induction false} LeftSubtreeFirst<T>(node: Node<T>, i: nat, j: nat, p: Path, x: Path, y: Path)
    requires i < Size(node) && j < Size(node)
    requires Position(node, i) == Then(p, Left(x)) && Position(node, j) == Then(p, Right(y))
    ensures i < j
  {
    LeftBeforeRight(p, x, y);
    VisitOrder(node, i, j);
  }
}

/**
 * Huffman.createHuffmanTree: every word becomes a leaf in a min-priority
 * queue ordered by frequency; the two lightest nodes are polled and merged
 * under a fresh internal node until a single node, the root, is left.
 */
module HuffmanTree {
  import opened Wrappers
  import opened Trees

  /** A symbol with its frequency; internal nodes carry the `null` symbol. */
  datatype Word<S> = Word(symbol: Option<S>, frequency: nat)

  /** The frequency the comparator orders a queued node by. */
  function Weight<S>(node: Node<Word<S>>): nat {
    if node == Nil then 0 else node.data.frequency
  }

  /** Sum of the frequencies of `words`. */
  function TotalFrequency<S>(words: seq<Word<S>>): nat {
    if words == [] then 0
    else TotalFrequency(words[..|words| - 1]) + words[|words| - 1].frequency
  }

  /** The words at the leaves below `node`, left to right. */
  function Leaves<S>(node: Node<Word<S>>): seq<Word<S>> {
    if node == Nil then []
    else if node.IsLeaf() then [node.data]
    else Leaves(node.left) + Leaves(node.right)
  }

  /** Number of node objects below `node` that are not leaves. */
  function InternalCount<S>(node: Node<Word<S>>): nat {
    if node == Nil || node.IsLeaf() then 0
    else 1 + InternalCount(node.left) + InternalCount(node.right)
  }

  /** Every internal node is a merge node: both children present, the null
      symbol, and the sum of the children's frequencies. */
  predicate MergeTree<S>(node: Node<Word<S>>) {
    node != Nil &&
    (node.IsLeaf() ||
     (node.left != Nil && node.right != Nil &&
      node.data.symbol == None &&
      node.data.frequency == Weight(node.left) + Weight(node.right) &&
      MergeTree(node.left) && MergeTree(node.right)))
  }

  /** At every internal node, the left child is no heavier than the right one. */
  predicate LighterOnLeft<S>(node: Node<Word<S>>) {
    node == Nil || node.IsLeaf() ||
    (Weight(node.left) <= Weight(node.right) &&
     LighterOnLeft(node.left) && LighterOnLeft(node.right))
  }

  /** One merge step as it happened: the queue before it, the index the
      first poll took from it, and the index the second poll took from what
      the first one left. */
  datatype Merge<S> = Merge(queue: seq<Node<Word<S>>>, first: nat, second: nat)

  /** Both polls of a merge take an index that is in the queue. */
  predicate InQueue<S>(m: Merge<S>) {
    m.first < |m.queue| && m.second + 1 < |m.queue|
  }

  /** The node the first poll takes. */
  function Left<S>(m: Merge<S>): Node<Word<S>>
    requires InQueue(m)
  {
    m.queue[m.first]
  }

  /** The queue after the first poll. */
  function Polled<S>(m: Merge<S>): seq<Node<Word<S>>>
    requires InQueue(m)
  {
    m.queue[..m.first] + m.queue[m.first + 1..]
  }

  /** The node the second poll takes. */
  function Right<S>(m: Merge<S>): Node<Word<S>>
    requires InQueue(m)
  {
    Polled(m)[m.second]
  }

  /** The queue after both polls. */
  function Rest<S>(m: Merge<S>): seq<Node<Word<S>>>
    requires InQueue(m)
  {
    Polled(m)[..m.second] + Polled(m)[m.second + 1..]
  }

  /** The node a merge creates: the null symbol, the two polled nodes as
      children, and the sum of their frequencies. */
  function Merged<S>(m: Merge<S>): Node<Word<S>>
    requires InQueue(m)
  {
    Node(Word(None, Weight(Left(m)) + Weight(Right(m))), Left(m), Right(m))
  }

  /** The queue after a merge: the merged node added to what the polls left. */
  function After<S>(m: Merge<S>): seq<Node<Word<S>>>
    requires InQueue(m)
  {
    Rest(m) + [Merged(m)]
  }

  /** Position `i` holds a node of least weight in `q`. */
  predicate IsLightest<S>(q: seq<Node<Word<S>>>, i: nat) {
    i < |q| && forall j :: 0 <= j < |q| ==> Weight(q[i]) <= Weight(q[j])
  }

  /** The comparator's promise at a merge: each poll takes a node of least
      frequency among those queued at that moment. */
  predicate Polls<S>(m: Merge<S>) {
    InQueue(m) && IsLightest(m.queue, m.first) && IsLightest(Polled(m), m.second)
  }

  /** What that promise gives: the first node polled is no heavier than the
      second, and the second no heavier than anything left queued. */
  ghost predicate TookTwoLightest<S>(m: Merge<S>) {
    InQueue(m) &&
    Weight(Left(m)) <= Weight(Right(m)) &&
    forall x :: x in Rest(m) ==> Weight(Right(m)) <= Weight(x)
  }

  /** The merge loop as it ran: every merge polls as the comparator
      demands, the first one polls from `start`, each next one from what the
      one before left, and `final` is what the last one left. */
  ghost predicate Run<S>(start: seq<Node<Word<S>>>, merges: seq<Merge<S>>, final: seq<Node<Word<S>>>) {
    (forall i :: 0 <= i < |merges| ==> Polls(merges[i])) &&
    if merges == [] then final == start
    else
      merges[0].queue == start &&
      (forall i :: 0 <= i < |merges| - 1 ==> merges[i + 1].queue == After(merges[i])) &&
      After(merges[|merges| - 1]) == final
  }

  /** The queue the merge loop starts from: one leaf per word, in order. */
  function LeafQueue<S>(words: seq<Word<S>>): (q: seq<Node<Word<S>>>)
    ensures |q| == |words|
    ensures forall i :: 0 <= i < |words| ==> q[i] == Node(words[i], Nil, Nil)
  {
    if words == [] then []
    else LeafQueue(words[..|words| - 1]) + [Node(words[|words| - 1], Nil, Nil)]
  }

  // The queue's contents, summed over its nodes.

  ghost function QueueLeaves<S>(q: seq<Node<Word<S>>>): seq<Word<S>> {
    if q == [] then [] else QueueLeaves(q[..|q| - 1]) + Leaves(q[|q| - 1])
  }

  ghost function QueueInternals<S>(q: seq<Node<Word<S>>>): nat {
    if q == [] then 0 else QueueInternals(q[..|q| - 1]) + InternalCount(q[|q| - 1])
  }

  ghost function QueueWeight<S>(q: seq<Node<Word<S>>>): nat {
    if q == [] then 0 else QueueWeight(q[..|q| - 1]) + Weight(q[|q| - 1])
  }

  lemma {:induction false} TotalFrequencyAppend<S>(a: seq<Word<S>>, b: seq<Word<S>>)
    ensures TotalFrequency(a + b) == TotalFrequency(a) + TotalFrequency(b)
    decreases |b|
  {
    if b == [] {
      assert a + b == a;
    } else {
      var b' := b[..|b| - 1];
      assert (a + b)[..|a + b| - 1] == a + b';
      assert (a + b)[|a + b| - 1] == b[|b| - 1];
      TotalFrequencyAppend(a, b');
    }
  }

  /** The root of a merge tree weighs as much as all its leaves together. */
  lemma {:induction false} WeightIsLeafSum<S>(node: Node<Word<S>>)
    requires MergeTree(node)
    ensures Weight(node) == TotalFrequency(Leaves(node))
  {
    if node.IsLeaf() {
      assert Leaves(node) == [] + [node.data];
    } else {
      WeightIsLeafSum(node.left);
      WeightIsLeafSum(node.right);
      TotalFrequencyAppend(Leaves(node.left), Leaves(node.right));
    }
  }

  lemma {:induction false} QueueLeavesAppend<S>(a: seq<Node<Word<S>>>, b: seq<Node<Word<S>>>)
    ensures QueueLeaves(a + b) == QueueLeaves(a) + QueueLeaves(b)
    decreases |b|
  {
    if b == [] {
      assert a + b == a;
    } else {
      var b' := b[..|b| - 1];
      assert (a + b)[..|a + b| - 1] == a + b';
      assert (a + b)[|a + b| - 1] == b[|b| - 1];
      QueueLeavesAppend(a, b');
    }
  }

  lemma {:induction false} QueueInternalsAppend<S>(a: seq<Node<Word<S>>>, b: seq<Node<Word<S>>>)
    ensures QueueInternals(a + b) == QueueInternals(a) + QueueInternals(b)
    decreases |b|
  {
    if b == [] {
      assert a + b == a;
    } else {
      var b' := b[..|b| - 1];
      assert (a + b)[..|a + b| - 1] == a + b';
      assert (a + b)[|a + b| - 1] == b[|b| - 1];
      QueueInternalsAppend(a, b');
    }
  }

  lemma {:induction false} QueueWeightAppend<S>(a: seq<Node<Word<S>>>, b: seq<Node<Word<S>>>)
    ensures QueueWeight(a + b) == QueueWeight(a) + QueueWeight(b)
    decreases |b|
  {
    if b == [] {
      assert a + b == a;
    } else {
      var b' := b[..|b| - 1];
      assert (a + b)[..|a + b| - 1] == a + b';
      assert (a + b)[|a + b| - 1] == b[|b| - 1];
      QueueWeightAppend(a, b');
    }
  }

  /** A queue of one node sums to that node. */
  lemma QueueOfOne<S>(node: Node<Word<S>>)
    ensures QueueLeaves([node]) == Leaves(node)
    ensures QueueInternals([node]) == InternalCount(node)
    ensures QueueWeight([node]) == Weight(node)
  {
    assert [node][..0] == [];
  }

  /** Taking the node at `at` out of the queue takes exactly its leaves,
      internal nodes and weight out of the queue's totals. */
  lemma RemoveFromQueue<S>(q: seq<Node<Word<S>>>, at: nat, rest: seq<Node<Word<S>>>)
    requires at < |q| && rest == q[..at] + q[at + 1..]
    ensures multiset(QueueLeaves(q)) == multiset(QueueLeaves(rest)) + multiset(Leaves(q[at]))
    ensures QueueInternals(q) == QueueInternals(rest) + InternalCount(q[at])
    ensures QueueWeight(q) == QueueWeight(rest) + Weight(q[at])
  {
    var front, back := q[..at], q[at + 1..];
    assert q == (front + [q[at]]) + back;
    QueueOfOne(q[at]);
    assert QueueLeaves(q) == QueueLeaves(front) + Leaves(q[at]) + QueueLeaves(back) by {
      QueueLeavesAppend(front + [q[at]], back);
      QueueLeavesAppend(front, [q[at]]);
    }
    assert QueueLeaves(rest) == QueueLeaves(front) + QueueLeaves(back) by {
      QueueLeavesAppend(front, back);
    }
    assert QueueInternals(q) == QueueInternals(rest) + InternalCount(q[at]) by {
      QueueInternalsAppend(front + [q[at]], back);
      QueueInternalsAppend(front, [q[at]]);
      QueueInternalsAppend(front, back);
    }
    assert QueueWeight(q) == QueueWeight(rest) + Weight(q[at]) by {
      QueueWeightAppend(front + [q[at]], back);
      QueueWeightAppend(front, [q[at]]);
      QueueWeightAppend(front, back);
    }
  }

  /** A non-empty queue has a lightest node. */
  ghost function LightestIndex<S>(q: seq<Node<Word<S>>>): (i: nat)
    requires |q| > 0
    ensures IsLightest(q, i)
  {
    if |q| == 1 then 0
    else
      var q' := q[..|q| - 1];
      var i' := LightestIndex(q');
      assert forall j :: 0 <= j < |q| - 1 ==> q[j] == q'[j];
      if Weight(q[|q| - 1]) < Weight(q[i']) then |q| - 1 else i'
  }

  /**
   * PriorityQueue.poll with the frequency comparator: removes and returns a
   * node of least frequency. Which one among equally light nodes is left
   * open, as the heap does not fix it.
   */
  method Poll<S>(q: seq<Node<Word<S>>>) returns (m: Node<Word<S>>, rest: seq<Node<Word<S>>>, ghost at: nat)
    requires |q| > 0
    ensures at < |q| && m == q[at] && rest == q[..at] + q[at + 1..]
    ensures IsLightest(q, at)
    ensures forall x :: x in q ==> Weight(m) <= Weight(x)
  {
    ghost var w := LightestIndex(q);
    assert IsLightest(q, w);
    var i :| 0 <= i < |q| && IsLightest(q, i);
    m, rest, at := q[i], q[..i] + q[i + 1..], i;
    forall x | x in q ensures Weight(m) <= Weight(x) {
      var j :| 0 <= j < |q| && q[j] == x;
      assert IsLightest(q, i);
      assert Weight(q[i]) <= Weight(q[j]);
    }
  }

  /** One merge step keeps the queue's totals: the merged node holds the
      leaves of the two polled nodes, adds one internal node, and weighs
      what they weighed together. */
  lemma MergeStep<S>(q0: seq<Node<Word<S>>>, at1: nat, q1: seq<Node<Word<S>>>, at2: nat, q2: seq<Node<Word<S>>>, node: Node<Word<S>>)
    requires at1 < |q0| && q1 == q0[..at1] + q0[at1 + 1..]
    requires at2 < |q1| && q2 == q1[..at2] + q1[at2 + 1..]
    requires node == Node(Word(None, Weight(q0[at1]) + Weight(q1[at2])), q0[at1], q1[at2])
    requires q0[at1] != Nil
    ensures multiset(QueueLeaves(q2 + [node])) == multiset(QueueLeaves(q0))
    ensures QueueInternals(q2 + [node]) == QueueInternals(q0) + 1
    ensures QueueWeight(q2 + [node]) == QueueWeight(q0)
  {
    RemoveFromQueue(q0, at1, q1);
    RemoveFromQueue(q1, at2, q2);
    QueueOfOne(node);
    assert multiset(QueueLeaves(q2 + [node])) == multiset(QueueLeaves(q0)) by {
      assert Leaves(node) == Leaves(node.left) + Leaves(node.right);
      QueueLeavesAppend(q2, [node]);
    }
    assert QueueInternals(q2 + [node]) == QueueInternals(q0) + 1 by {
      QueueInternalsAppend(q2, [node]);
    }
    assert QueueWeight(q2 + [node]) == QueueWeight(q0) by {
      QueueWeightAppend(q2, [node]);
    }
  }

  /** What a poll leaves in the queue was in the queue before. */
  lemma RemovedFrom<S>(q: seq<Node<Word<S>>>, at: nat, x: Node<Word<S>>)
    requires at < |q| && x in q[..at] + q[at + 1..]
    ensures x in q
  {
    assert q == q[..at] + [q[at]] + q[at + 1..];
  }

  /** Every queued node is a merge tree with the lighter child on the left. */
  ghost predicate AllMergeTrees<S>(queue: seq<Node<Word<S>>>) {
    forall x :: x in queue ==> MergeTree(x) && LighterOnLeft(x)
  }

  /** What holds of the queue between two merges: it holds merge trees with
      the lighter child on the left, which together carry the input words
      as leaves, one internal node per merge so far, and the total weight. */
  ghost predicate Building<S>(queue: seq<Node<Word<S>>>, merges: seq<Merge<S>>, words: seq<Word<S>>) {
    AllMergeTrees(queue) &&
    multiset(QueueLeaves(queue)) == multiset(words) &&
    QueueInternals(queue) + |queue| == |words| &&
    QueueWeight(queue) == TotalFrequency(words) &&
    |merges| + |queue| == |words|
  }

  /** Polling as the comparator demands takes the two lightest nodes, the
      lighter one first. */
  lemma PollsTookTwoLightest<S>(m: Merge<S>)
    requires Polls(m)
    ensures TookTwoLightest(m)
  {
    var q, p := m.queue, Polled(m);
    assert Right(m) == p[m.second];
    RemovedFrom(q, m.first, Right(m));
    var j :| 0 <= j < |q| && q[j] == Right(m);
    assert Weight(q[m.first]) <= Weight(q[j]);
    forall x | x in Rest(m) ensures Weight(Right(m)) <= Weight(x) {
      RemovedFrom(p, m.second, x);
      var k :| 0 <= k < |p| && p[k] == x;
      assert Weight(p[m.second]) <= Weight(p[k]);
    }
  }

  /** The node a merge queues is again a merge tree with the lighter child
      on the left. */
  lemma MergeKeepsShape<S>(m: Merge<S>)
    requires AllMergeTrees(m.queue) && Polls(m)
    ensures AllMergeTrees(After(m))
  {
    var q, p := m.queue, Polled(m);
    PollsTookTwoLightest(m);
    assert Left(m) in q;
    assert Right(m) in p;
    RemovedFrom(q, m.first, Right(m));
    forall x | x in Rest(m) ensures x in q {
      RemovedFrom(p, m.second, x);
      RemovedFrom(q, m.first, x);
    }
    var node := Merged(m);
    assert MergeTree(node) && LighterOnLeft(node);
    forall x | x in After(m) ensures MergeTree(x) && LighterOnLeft(x) {
      if x != node {
        assert x in Rest(m);
      }
    }
  }

  /** One iteration of the merge loop keeps `Building`: poll the lightest
      node, poll the next lightest, queue their merge. */
  lemma MergeKeepsBuilding<S>(m: Merge<S>, merges: seq<Merge<S>>, words: seq<Word<S>>)
    requires Building(m.queue, merges, words) && Polls(m)
    ensures Building(After(m), merges + [m], words)
  {
    MergeKeepsShape(m);
    assert Left(m) in m.queue;
    MergeStep(m.queue, m.first, Polled(m), m.second, Rest(m), Merged(m));
  }

  /** One more merge that polls from what the run left extends the run. */
  lemma RunStep<S>(start: seq<Node<Word<S>>>, merges: seq<Merge<S>>, m: Merge<S>)
    requires Run(start, merges, m.queue) && Polls(m)
    ensures Run(start, merges + [m], After(m))
  {
    var merges' := merges + [m];
    assert merges'[|merges'| - 1] == m;
    forall i | 0 <= i < |merges'| ensures Polls(merges'[i]) {
      if i < |merges| {
        assert merges'[i] == merges[i];
      }
    }
    if merges != [] {
      assert merges'[0] == merges[0];
      forall i | 0 <= i < |merges'| - 1 ensures merges'[i + 1].queue == After(merges'[i]) {
        assert merges'[i] == merges[i];
        if i + 1 < |merges| {
          assert merges'[i + 1] == merges[i + 1];
        }
      }
    }
  }

  /** The merge loop's invariant: `Building`, the run so far from `start`,
      and the comparator's promise at every merge of it. */
  ghost predicate Merging<S>(start: seq<Node<Word<S>>>, queue: seq<Node<Word<S>>>, merges: seq<Merge<S>>, words: seq<Word<S>>) {
    Building(queue, merges, words) &&
    Run(start, merges, queue) &&
    forall m :: m in merges ==> TookTwoLightest(m)
  }

  /** One iteration of the merge loop keeps `Merging`. */
  lemma MergeKeepsMerging<S>(start: seq<Node<Word<S>>>, merges: seq<Merge<S>>, words: seq<Word<S>>, m: Merge<S>)
    requires Merging(start, m.queue, merges, words) && Polls(m)
    ensures Merging(start, After(m), merges + [m], words)
  {
    MergeKeepsBuilding(m, merges, words);
    RunStep(start, merges, m);
    PollsTookTwoLightest(m);
    forall m' | m' in merges + [m] ensures TookTwoLightest(m') {
      if m' != m {
        assert m' in merges;
      }
    }
  }

  /** Two polls as `Poll` makes them are a merge that polls as the
      comparator demands, and the queue they leave with the merged node
      added is the merge's `After`. */
  lemma TwoPolls<S>(m: Merge<S>, left: Node<Word<S>>, q1: seq<Node<Word<S>>>, right: Node<Word<S>>, q2: seq<Node<Word<S>>>)
    requires m.first < |m.queue| && left == m.queue[m.first] && q1 == m.queue[..m.first] + m.queue[m.first + 1..]
    requires IsLightest(m.queue, m.first)
    requires m.second < |q1| && right == q1[m.second] && q2 == q1[..m.second] + q1[m.second + 1..]
    requires IsLightest(q1, m.second)
    ensures Polls(m)
    ensures After(m) == q2 + [Node(Word(None, Weight(left) + Weight(right)), left, right)]
  {
    assert Polled(m) == q1;
  }

  /** The queue after adding one leaf per word of `words[..i]`. */
  ghost predicate Enqueued<S>(queue: seq<Node<Word<S>>>, words: seq<Word<S>>, i: nat) {
    i <= |words| && |queue| == i &&
    AllMergeTrees(queue) &&
    QueueLeaves(queue) == words[..i] &&
    QueueInternals(queue) == 0 &&
    QueueWeight(queue) == TotalFrequency(words[..i]) &&
    queue == LeafQueue(words[..i])
  }

  /** Adding the leaf for the next word keeps `Enqueued`. */
  lemma EnqueueLeaf<S>(queue: seq<Node<Word<S>>>, words: seq<Word<S>>, i: nat)
    requires Enqueued(queue, words, i) && i < |words|
    ensures Enqueued(queue + [Node(words[i], Nil, Nil)], words, i + 1)
  {
    var node := Node(words[i], Nil, Nil);
    assert (queue + [node])[..|queue|] == queue;
    assert words[..i + 1][..i] == words[..i];
    assert LeafQueue(words[..i + 1]) == LeafQueue(words[..i]) + [node];
    forall x | x in queue + [node] ensures MergeTree(x) && LighterOnLeft(x) {
      if x != node {
        assert x in queue;
      }
    }
  }

  /** Once all words are queued, the merge loop can start from one leaf
      per word. */
  lemma AllEnqueued<S>(queue: seq<Node<Word<S>>>, words: seq<Word<S>>)
    requires Enqueued(queue, words, |words|)
    ensures queue == LeafQueue(words)
    ensures Merging(queue, queue, [], words)
  {
    assert words[..|words|] == words;
  }

  /** When one node is left, it is the tree the method promises. */
  lemma LastNode<S>(root: Node<Word<S>>, merges: seq<Merge<S>>, words: seq<Word<S>>)
    requires Building([root], merges, words)
    ensures MergeTree(root) && LighterOnLeft(root)
    ensures multiset(Leaves(root)) == multiset(words)
    ensures InternalCount(root) == |words| - 1
    ensures Weight(root) == TotalFrequency(words)
    ensures |merges| == |words| - 1
  {
    QueueOfOne(root);
    assert root in [root];
  }

  /**
   * One iteration of the merge loop: poll the lightest node, poll the next
   * lightest, and queue a node with the null symbol, the two as children
   * and the sum of their frequencies. The ghost `m` records the merge.
   */
  method MergeLightest<S>(queue: seq<Node<Word<S>>>) returns (queue': seq<Node<Word<S>>>, ghost m: Merge<S>)
    requires |queue| > 1
    ensures |queue'| + 1 == |queue|
    ensures queue'[|queue'| - 1].Node? && queue'[|queue'| - 1].data.symbol == None
    ensures queue'[|queue'| - 1].left in queue && queue'[|queue'| - 1].right in queue
    ensures m.queue == queue && Polls(m) && queue' == After(m)
  {
    var left, q1, at1 := Poll(queue);
    var right, q2, at2 := Poll(q1);
    m := Merge(queue, at1, at2);
    TwoPolls(m, left, q1, right, q2);
    RemovedFrom(queue, at1, right);
    var node := Node(Word(None, Weight(left) + Weight(right)), left, right);
    queue' := q2 + [node];
  }

  /**
   * createHuffmanTree. No words: no tree. Otherwise the tree's root is what
   * the merge loop leaves when it starts from one leaf per word and every
   * merge polls the two lightest queued nodes; the ghost `merges` records
   * that run. The tree's leaves are the input words, each once; it has one
   * internal node per merge, one fewer than there are words; every internal
   * node is a merge node with the lighter child on the left; and the root
   * weighs as much as all words together.
   */
  method CreateHuffmanTree<S>(words: seq<Word<S>>) returns (tree: Option<Tree<Word<S>>>, ghost merges: seq<Merge<S>>)
    ensures tree.None? <==> |words| == 0
    ensures tree.None? ==> merges == []
    ensures tree.Some? ==> Run(LeafQueue(words), merges, [tree.value.root])
    ensures tree.Some? ==>
      var root := tree.value.root;
      MergeTree(root) && LighterOnLeft(root) &&
      multiset(Leaves(root)) == multiset(words) &&
      InternalCount(root) == |words| - 1 &&
      Weight(root) == TotalFrequency(words)
    ensures tree.Some? ==> |merges| == |words| - 1
    ensures forall m :: m in merges ==> TookTwoLightest(m)
  {
    merges := [];
    if |words| == 0 {
      return None, merges;
    }

    var queue: seq<Node<Word<S>>> := [];
    for i := 0 to |words|
      invariant Enqueued(queue, words, i)
    {
      EnqueueLeaf(queue, words, i);
      queue := queue + [Node(words[i], Nil, Nil)];
    }
    AllEnqueued(queue, words);
    ghost var start := queue;

    while |queue| > 1
      invariant |queue| >= 1
      invariant Merging(start, queue, merges, words)
    {
      ghost var m;
      queue, m := MergeLightest(queue);
      MergeKeepsMerging(start, merges, words, m);
      merges := merges + [m];
    }

    var root := queue[0];
    assert queue == [root];
    LastNode(root, merges, words);
    tree := Some(Tree(root));
  }
}

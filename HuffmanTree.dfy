/**
 * The Huffman tree (huffman.cpp:15-30) and its construction by repeated
 * merging of two lightest nodes (huffman.cpp:146-171).
 */
module HuffmanTree {
  import opened Bits
  import opened Wrappers
  import opened Frequency

  /**
   * A node: a leaf carries a symbol, an internal node exactly two children.
   * `w` is the node's `frequency`. Children are owned, never shared.
   */
  datatype Tree = Leaf(sym: Byte, w: nat) | Node(l: Tree, r: Tree, w: nat)

  /** Every internal node weighs the sum of its children (huffman.cpp:24-25). */
  ghost predicate Consistent(t: Tree)
  {
    match t
    case Leaf(_, _) => true
    case Node(l, r, w) => w == l.w + r.w && Consistent(l) && Consistent(r)
  }

  /** How many leaves of `t` carry symbol `s`. */
  function Count(t: Tree, s: Byte): nat
  {
    match t
    case Leaf(x, _) => if x == s then 1 else 0
    case Node(l, r, _) => Count(l, s) + Count(r, s)
  }

  /** Every leaf's symbol is a key of `freq` and its weight is that key's count. */
  ghost predicate LeavesFrom(t: Tree, freq: map<Byte, nat>)
  {
    match t
    case Leaf(s, w) => s in freq && w == freq[s]
    case Node(l, r, _) => LeavesFrom(l, freq) && LeavesFrom(r, freq)
  }

  /** The symbol at the end of `path` (false = left, true = right), if a leaf is there. */
  function LeafAt(t: Tree, path: seq<bool>): Option<Byte>
  {
    if path == [] then (if t.Leaf? then Some(t.sym) else None)
    else if t.Leaf? then None
    else LeafAt(if path[0] then t.r else t.l, path[1..])
  }

  /**
   * A path that ends at a leaf is a prefix of no other path into the tree:
   * the structural reason why root-to-leaf codes are prefix-free.
   */
  lemma {:induction false} LeafPathIsMaximal(t: Tree, p: seq<bool>, q: seq<bool>)
    requires LeafAt(t, p).Some? && LeafAt(t, q).Some? && p <= q
    ensures p == q
  {
    if p != [] {
      LeafPathIsMaximal(if p[0] then t.r else t.l, p[1..], q[1..]);
    }
  }

  /** The same tree with every weight 0: what the decoder rebuilds. */
  function Erase(t: Tree): (e: Tree)
    ensures e.Leaf? == t.Leaf?
  {
    match t
    case Leaf(s, _) => Leaf(s, 0)
    case Node(l, r, _) => Node(Erase(l), Erase(r), 0)
  }

  /** Weights play no part in finding a leaf. */
  lemma {:induction false} LeafAtErase(t: Tree, p: seq<bool>)
    ensures LeafAt(Erase(t), p) == LeafAt(t, p)
  {
    if p != [] && t.Node? {
      LeafAtErase(if p[0] then t.r else t.l, p[1..]);
    }
  }

  function Height(t: Tree): nat
  {
    match t
    case Leaf(_, _) => 0
    case Node(l, r, _) => 1 + (if Height(l) < Height(r) then Height(r) else Height(l))
  }

  /** How many leaves of the nodes of a priority queue carry symbol `s`. */
  function QueueCount(q: seq<Tree>, s: Byte): nat
  {
    if q == [] then 0 else Count(q[0], s) + QueueCount(q[1..], s)
  }

  /** The total weight of the nodes of a priority queue. */
  function QueueWeight(q: seq<Tree>): nat
  {
    if q == [] then 0 else q[0].w + QueueWeight(q[1..])
  }

  lemma QueueAppend(a: seq<Tree>, b: seq<Tree>)
    ensures forall s :: QueueCount(a + b, s) == QueueCount(a, s) + QueueCount(b, s)
    ensures QueueWeight(a + b) == QueueWeight(a) + QueueWeight(b)
  {
    forall s {
      QueueCountAppend(a, b, s);
    }
    QueueWeightAppend(a, b);
  }

  lemma {:induction false} QueueCountAppend(a: seq<Tree>, b: seq<Tree>, s: Byte)
    ensures QueueCount(a + b, s) == QueueCount(a, s) + QueueCount(b, s)
  {
    if a == [] {
      assert a + b == b;
    } else {
      QueueCountAppend(a[1..], b, s);
      assert (a + b)[1..] == a[1..] + b;
    }
  }

  lemma {:induction false} QueueWeightAppend(a: seq<Tree>, b: seq<Tree>)
    ensures QueueWeight(a + b) == QueueWeight(a) + QueueWeight(b)
  {
    if a == [] {
      assert a + b == b;
    } else {
      QueueWeightAppend(a[1..], b);
      assert (a + b)[1..] == a[1..] + b;
    }
  }

  lemma QueueSingleton(t: Tree)
    ensures (forall s :: QueueCount([t], s) == Count(t, s)) && QueueWeight([t]) == t.w
  {
    assert [t][1..] == [];
  }

  /** Taking element `i` out of a queue takes its leaves out of the counts. */
  lemma QueueCountRemove(q: seq<Tree>, i: nat, rest: seq<Tree>, s: Byte)
    requires i < |q| && rest == q[..i] + q[i + 1..]
    ensures QueueCount(q, s) == QueueCount(rest, s) + Count(q[i], s)
  {
    var a, c := q[..i], q[i + 1..];
    assert q == a + ([q[i]] + c);
    QueueCountAppend(a, [q[i]] + c, s);
    QueueCountAppend([q[i]], c, s);
    QueueCountAppend(a, c, s);
    QueueSingleton(q[i]);
  }

  /** Taking element `i` out of a queue takes its weight out of the total. */
  lemma QueueWeightRemove(q: seq<Tree>, i: nat, rest: seq<Tree>)
    requires i < |q| && rest == q[..i] + q[i + 1..]
    ensures QueueWeight(q) == QueueWeight(rest) + q[i].w
  {
    var a, c := q[..i], q[i + 1..];
    assert q == a + ([q[i]] + c);
    QueueWeightAppend(a, [q[i]] + c);
    QueueWeightAppend([q[i]], c);
    QueueWeightAppend(a, c);
    QueueSingleton(q[i]);
  }

  /** Some element of a non-empty queue has the least weight. */
  lemma {:induction false} MinimumExists(q: seq<Tree>)
    requires q != []
    ensures exists i :: 0 <= i < |q| && IsMinimum(q, i)
  {
    if |q| > 1 {
      MinimumExists(q[1..]);
      var j :| 0 <= j < |q| - 1 && IsMinimum(q[1..], j);
      if q[0].w <= q[j + 1].w {
        assert IsMinimum(q, 0);
      } else {
        assert IsMinimum(q, j + 1);
      }
    } else {
      assert IsMinimum(q, 0);
    }
  }

  predicate IsMinimum(q: seq<Tree>, i: nat)
    requires i < |q|
  {
    forall k :: 0 <= k < |q| ==> q[i].w <= q[k].w
  }

  /** The queue invariant of the merge loop: what its nodes jointly hold. */
  ghost predicate QueueHolds(q: seq<Tree>, freq: map<Byte, nat>)
  {
    (forall t :: t in q ==> Consistent(t) && LeavesFrom(t, freq)) &&
    (forall s :: QueueCount(q, s) == if s in freq then 1 else 0) &&
    QueueWeight(q) == Total(freq)
  }

  /**
   * One pop-pop-push step: merging two nodes taken out of the queue keeps the
   * queue's leaves, total weight and well-formedness.
   */
  lemma MergeStep(q: seq<Tree>, i: nat, rest: seq<Tree>, j: nat, next: seq<Tree>, freq: map<Byte, nat>)
    requires QueueHolds(q, freq)
    requires i < |q| && rest == q[..i] + q[i + 1..] && j < |rest|
    requires next == rest[..j] + rest[j + 1..] + [Node(q[i], rest[j], q[i].w + rest[j].w)]
    ensures QueueHolds(next, freq)
  {
    MergeTotals(q, i, rest, j, next);
    MergeShape(q, i, rest, j, next, freq);
  }

  lemma MergeTotals(q: seq<Tree>, i: nat, rest: seq<Tree>, j: nat, next: seq<Tree>)
    requires i < |q| && rest == q[..i] + q[i + 1..] && j < |rest|
    requires next == rest[..j] + rest[j + 1..] + [Node(q[i], rest[j], q[i].w + rest[j].w)]
    ensures forall s :: QueueCount(next, s) == QueueCount(q, s)
    ensures QueueWeight(next) == QueueWeight(q)
  {
    var a, b := q[i], rest[j];
    var rest' := rest[..j] + rest[j + 1..];
    var parent := Node(a, b, a.w + b.w);
    QueueSingleton(parent);
    forall s
      ensures QueueCount(next, s) == QueueCount(q, s)
    {
      QueueCountRemove(q, i, rest, s);
      QueueCountRemove(rest, j, rest', s);
      QueueCountAppend(rest', [parent], s);
    }
    QueueWeightRemove(q, i, rest);
    QueueWeightRemove(rest, j, rest');
    QueueWeightAppend(rest', [parent]);
  }

  lemma MergeShape(q: seq<Tree>, i: nat, rest: seq<Tree>, j: nat, next: seq<Tree>, freq: map<Byte, nat>)
    requires forall t :: t in q ==> Consistent(t) && LeavesFrom(t, freq)
    requires i < |q| && rest == q[..i] + q[i + 1..] && j < |rest|
    requires next == rest[..j] + rest[j + 1..] + [Node(q[i], rest[j], q[i].w + rest[j].w)]
    ensures forall t :: t in next ==> Consistent(t) && LeavesFrom(t, freq)
  {
    var a, b := q[i], rest[j];
    var rest' := rest[..j] + rest[j + 1..];
    var parent := Node(a, b, a.w + b.w);
    assert a in q;
    assert b in q by {
      assert b in rest;
    }
    forall t | t in next
      ensures Consistent(t) && LeavesFrom(t, freq)
    {
      if t != parent {
        assert t in rest';
        assert t in rest;
      }
    }
  }

  /**
   * The invariant of the queue's initialisation: `heap` holds one leaf for
   * each entry of `seen`, the part of `freq` already visited, and `keys` is
   * the part still to visit.
   */
  ghost predicate InitHolds(heap: seq<Tree>, keys: set<Byte>, seen: map<Byte, nat>, freq: map<Byte, nat>)
  {
    keys <= freq.Keys && |heap| + |keys| == |freq| &&
    seen.Keys == freq.Keys - keys &&
    (forall s :: s in seen ==> seen[s] == freq[s]) &&
    (forall t :: t in heap ==> t.Leaf? && t.sym in freq && t.w == freq[t.sym]) &&
    (forall x :: QueueCount(heap, x) == if x in seen then 1 else 0) &&
    QueueWeight(heap) == Total(seen)
  }

  /** Pushing one more leaf during the queue's initialisation (huffman.cpp:151-153). */
  lemma PushLeaf(heap: seq<Tree>, keys: set<Byte>, seen: map<Byte, nat>, freq: map<Byte, nat>, s: Byte)
    requires InitHolds(heap, keys, seen, freq) && s in keys
    ensures InitHolds(heap + [Leaf(s, freq[s])], keys - {s}, seen[s := freq[s]], freq)
  {
    var leaf := Leaf(s, freq[s]);
    QueueAppend(heap, [leaf]);
    QueueSingleton(leaf);
    TotalUpdate(seen, s, freq[s]);
    assert |keys - {s}| == |keys| - 1;
  }

  /** Once every key is visited the initial queue holds the table. */
  lemma InitDone(heap: seq<Tree>, seen: map<Byte, nat>, freq: map<Byte, nat>)
    requires InitHolds(heap, {}, seen, freq)
    ensures |heap| == |freq| && QueueHolds(heap, freq)
    ensures forall t :: t in heap ==> t.Leaf?
  {
    assert seen == freq;
  }

  /** A queue of one node that holds the invariant holds the whole table. */
  lemma LastNode(root: Tree, freq: map<Byte, nat>)
    requires QueueHolds([root], freq)
    ensures Consistent(root) && LeavesFrom(root, freq) && root.w == Total(freq)
    ensures forall s :: Count(root, s) == if s in freq then 1 else 0
  {
    assert root in [root];
    QueueSingleton(root);
  }

  /** With one table entry the queue is that entry's leaf. */
  lemma OnlyLeaf(leaf: Tree, freq: map<Byte, nat>)
    requires |freq| == 1 && leaf.Leaf?
    requires QueueHolds([leaf], freq)
    ensures leaf.sym in freq && leaf.w == freq[leaf.sym] && leaf.w == Total(freq)
    ensures forall s :: s in freq ==> s == leaf.sym
  {
    LastNode(leaf, freq);
    forall s | s in freq
      ensures s == leaf.sym
    {
      assert Count(leaf, s) == 1;
    }
  }

  /**
   * The first loop of `buildHuffmanTree` (huffman.cpp:151-153): one leaf per
   * table entry, weighted by its count, in the map's own (unspecified) order.
   */
  method InitialQueue(freq: map<Byte, nat>) returns (heap: seq<Tree>)
    ensures |heap| == |freq| && QueueHolds(heap, freq)
    ensures forall t :: t in heap ==> t.Leaf?
  {
    heap := [];
    var keys := freq.Keys;
    ghost var seen: map<Byte, nat> := map[];
    SumFromEmpty(0);
    while keys != {}
      invariant InitHolds(heap, keys, seen, freq)
      decreases keys
    {
      var s :| s in keys;
      PushLeaf(heap, keys, seen, freq, s);
      heap := heap + [Leaf(s, freq[s])];
      keys := keys - {s};
      seen := seen[s := freq[s]];
    }
    InitDone(heap, seen, freq);
  }

  /**
   * `buildHuffmanTree` (huffman.cpp:146-171). One leaf per table entry goes
   * into a min-priority queue; while two or more nodes remain, two of least
   * weight are taken out and their parent put back. Which of several equally
   * light nodes is taken is left open, as the source's heap leaves it. With a
   * single entry the root pairs its leaf with a weight-0 leaf for symbol 0.
   */
  method BuildHuffmanTree(freq: map<Byte, nat>) returns (root: Tree)
    requires |freq| >= 1
    ensures root.Node? && Consistent(root)
    ensures root.w == Total(freq)
    ensures forall s :: s in freq ==> Count(root, s) >= 1
    ensures |freq| == 1 ==> forall s :: s in freq ==> root == Node(Leaf(s, freq[s]), Leaf(0, 0), freq[s])
    ensures |freq| > 1 ==> LeavesFrom(root, freq) && forall s :: Count(root, s) == if s in freq then 1 else 0
  {
    var heap := InitialQueue(freq);

    if |heap| == 1 {
      var node := heap[0];
      assert heap == [node];
      OnlyLeaf(node, freq);
      var dummy := Leaf(0, 0);
      root := Node(node, dummy, node.w + dummy.w);
      return;
    }

    root := MergeQueue(heap, freq);
    LastNode(root, freq);
  }

  /**
   * The merge loop of `buildHuffmanTree` (huffman.cpp:163-170): pop the two
   * lightest nodes, push their parent, until one node remains.
   */
  method MergeQueue(queue: seq<Tree>, freq: map<Byte, nat>) returns (root: Tree)
    requires |queue| >= 2 && QueueHolds(queue, freq)
    ensures root.Node? && QueueHolds([root], freq)
  {
    var heap := queue;
    ghost var merged := false;
    while |heap| > 1
      invariant |heap| >= 1 && QueueHolds(heap, freq)
      invariant merged ==> heap[|heap| - 1].Node?
      invariant merged || |heap| >= 2
      decreases |heap|
    {
      MinimumExists(heap);
      var i :| 0 <= i < |heap| && IsMinimum(heap, i);
      var left := heap[i];
      var rest := heap[..i] + heap[i + 1..];
      MinimumExists(rest);
      var j :| 0 <= j < |rest| && IsMinimum(rest, j);
      var right := rest[j];
      var next := rest[..j] + rest[j + 1..] + [Node(left, right, left.w + right.w)];
      MergeStep(heap, i, rest, j, next, freq);
      heap := next;
      merged := true;
    }
    root := heap[0];
    assert heap == [root];
  }
}

/** Depth-first and breadth-first traversal of a binary tree of nodes (task_5.py,
    `TreeTraversal`), specified by the shape of the tree the nodes form. */
module Traversals {
  import opened Seqs
  import opened HeapTrees

  /** The shape of a tree of nodes: which node sits where. */
  datatype Tree = Leaf | Branch(node: Node, left: Tree, right: Tree)

  function Size(t: Tree): nat
  {
    match t
    case Leaf => 0
    case Branch(_, l, r) => 1 + Size(l) + Size(r)
  }

  function Objects(t: Tree): set<Node>
  {
    match t
    case Leaf => {}
    case Branch(n, l, r) => {n} + Objects(l) + Objects(r)
  }

  /** The node `n` (none for a leaf) and the links below it have the shape `t`. */
  ghost predicate Represents(t: Tree, n: Node?)
    reads Objects(t)
  {
    match t
    case Leaf => n == null
    case Branch(m, l, r) => n == m && Represents(l, m.left) && Represents(r, m.right)
  }

  /** Root, then the left subtree, then the right subtree. */
  function Preorder(t: Tree): seq<Node>
  {
    match t
    case Leaf => []
    case Branch(n, l, r) => [n] + Preorder(l) + Preorder(r)
  }

  function TotalSize(q: seq<Tree>): nat
  {
    if q == [] then 0 else Size(q[0]) + TotalSize(q[1..])
  }

  lemma {:induction false} TotalSizeAppend(a: seq<Tree>, b: seq<Tree>)
    ensures TotalSize(a + b) == TotalSize(a) + TotalSize(b)
  {
    if a != [] {
      assert (a + b)[1..] == a[1..] + b;
      TotalSizeAppend(a[1..], b);
    } else {
      assert a + b == b;
    }
  }

  /** The children a traversal puts in line: the non-empty subtrees, left first. */
  function Kids(l: Tree, r: Tree): seq<Tree>
  {
    (if l.Branch? then [l] else []) + (if r.Branch? then [r] else [])
  }

  lemma KidsSize(l: Tree, r: Tree)
    ensures TotalSize(Kids(l, r)) == Size(l) + Size(r)
  {
    var a, b := if l.Branch? then [l] else [], if r.Branch? then [r] else [];
    TotalSizeAppend(a, b);
    if l.Branch? {
      assert a[1..] == [];
    }
    if r.Branch? {
      assert b[1..] == [];
    }
  }

  /** Level order of the trees waiting in a queue: the front tree's root, then the level order
      of the rest of the queue followed by that root's children. */
  function LevelOrder(q: seq<Tree>): seq<Node>
    decreases TotalSize(q), |q|
  {
    if q == [] then []
    else
      match q[0]
      case Leaf => LevelOrder(q[1..])
      case Branch(n, l, r) =>
        TotalSizeAppend(q[1..], Kids(l, r));
        KidsSize(l, r);
        [n] + LevelOrder(q[1..] + Kids(l, r))
  }

  /** The output still owed by a depth-first stack: the subtrees from the top down. */
  function PreorderStack(st: seq<Tree>): seq<Node>
  {
    if st == [] then [] else Preorder(Last(st)) + PreorderStack(Front(st))
  }

  /** The nodes of the trees of a queue, tree after tree. */
  function AllNodes(q: seq<Tree>): seq<Node>
  {
    if q == [] then [] else Preorder(q[0]) + AllNodes(q[1..])
  }

  /** The nodes held by a stack or queue, with the shapes below them: each is the root of its
      (non-empty) shape. */
  ghost predicate Lined(nodes: seq<Node>, trees: seq<Tree>)
    reads set k, o | 0 <= k < |trees| && o in Objects(trees[k]) :: o
  {
    && |nodes| == |trees|
    && forall k :: 0 <= k < |trees| ==> trees[k].Branch? && nodes[k] == trees[k].node && Represents(trees[k], nodes[k])
  }

  /** A non-empty child of a lined-up root can join the line. */
  lemma LinedPush(nodes: seq<Node>, trees: seq<Tree>, t: Tree, n: Node?)
    requires Lined(nodes, trees) && Represents(t, n)
    ensures n != null ==> Lined(nodes + [n], trees + [t])
    ensures n == null ==> t == Leaf
  {
  }

  class TreeTraversal {
    const root: Node

    constructor(root: Node)
      ensures this.root == root
    {
      this.root := root;
    }

    /** `dfs`: pops a node off the stack, records it, and pushes its right child and then its
        left child, so the left subtree comes out first; the order is the preorder. */
    method Dfs(ghost t: Tree) returns (order: seq<Node>)
      requires Represents(t, root)
      ensures order == Preorder(t)
    {
      order := [];
      var stack: seq<Node> := [root];
      ghost var trees: seq<Tree> := [t];
      assert PreorderStack([t]) == Preorder(t) + PreorderStack([]);
      while stack != []
        invariant Lined(stack, trees)
        invariant order + PreorderStack(trees) == Preorder(t)
        decreases TotalSize(trees)
      {
        stack, trees, order := DfsVisit(stack, trees, order, t);
      }
    }

    /** `bfs`: takes the node at the front of the queue, records it, and queues its left child
        and then its right child; the order is the level order. */
    method Bfs(ghost t: Tree) returns (order: seq<Node>)
      requires Represents(t, root)
      ensures order == LevelOrder([t])
    {
      order := [];
      var queue: seq<Node> := [root];
      ghost var trees: seq<Tree> := [t];
      while queue != []
        invariant Lined(queue, trees)
        invariant order + LevelOrder(trees) == LevelOrder([t])
        decreases TotalSize(trees)
      {
        queue, trees, order := BfsVisit(queue, trees, order, t);
      }
    }
  }

  /** One round of the breadth-first loop of `bfs`: take the node at the front of the queue,
      record it, and queue its left child and then its right child where they exist. */
  method BfsVisit(queue: seq<Node>, ghost trees: seq<Tree>, order: seq<Node>, ghost t: Tree)
    returns (queue': seq<Node>, ghost trees': seq<Tree>, order': seq<Node>)
    requires Lined(queue, trees) && queue != [] && order + LevelOrder(trees) == LevelOrder([t])
    ensures Lined(queue', trees') && order' + LevelOrder(trees') == LevelOrder([t])
    ensures TotalSize(trees') < TotalSize(trees)
  {
    var current := queue[0];
    ghost var front, rest := trees[0], trees[1..];
    BfsTake(queue, trees);
    BfsPop(trees);
    queue', trees' := queue[1..], rest;
    order' := order + [current];
    LinedPush(queue', trees', front.left, current.left);
    if current.left != null {
      queue', trees' := queue' + [current.left], trees' + [front.left];
    }
    LinedPush(queue', trees', front.right, current.right);
    if current.right != null {
      queue', trees' := queue' + [current.right], trees' + [front.right];
    }
    assert trees' == rest + Kids(front.left, front.right);
  }

  /** One round of the depth-first loop of `dfs`: pop the top node, record it, push its right
      child and then its left child where they exist. */
  method DfsVisit(stack: seq<Node>, ghost trees: seq<Tree>, order: seq<Node>, ghost t: Tree)
    returns (stack': seq<Node>, ghost trees': seq<Tree>, order': seq<Node>)
    requires Lined(stack, trees) && stack != [] && order + PreorderStack(trees) == Preorder(t)
    ensures Lined(stack', trees') && order' + PreorderStack(trees') == Preorder(t)
    ensures TotalSize(trees') < TotalSize(trees)
  {
    var current := Last(stack);
    DfsRound(stack, trees, order, t);
    ghost var expected := StackAfterPop(stack);
    stack' := Front(stack);
    order' := order + [current];
    if current.right != null {
      stack' := stack' + [current.right];
    }
    if current.left != null {
      stack' := stack' + [current.left];
    }
    assert stack' == expected;
    trees' := Pushed(Front(trees), Last(trees).left, Last(trees).right);
  }

  /** The stack after one round of the depth-first loop: the top popped, then its right
      child and its left child pushed, where they exist. */
  function StackAfterPop(stack: seq<Node>): seq<Node>
    requires stack != []
    reads Last(stack)
  {
    var n := Last(stack);
    Front(stack) + (if n.right != null then [n.right] else []) + (if n.left != null then [n.left] else [])
  }

  /** One round of the depth-first loop keeps the stack lined up with its shapes, keeps the
      preorder owed, and shrinks the shapes. */
  lemma DfsRound(stack: seq<Node>, trees: seq<Tree>, order: seq<Node>, t: Tree)
    requires Lined(stack, trees) && stack != [] && order + PreorderStack(trees) == Preorder(t)
    ensures var next := Pushed(Front(trees), Last(trees).left, Last(trees).right);
      && Lined(StackAfterPop(stack), next)
      && (order + [Last(stack)]) + PreorderStack(next) == Preorder(t)
      && TotalSize(next) < TotalSize(trees)
  {
    var top, below := Last(trees), Front(trees);
    var current := Last(stack);
    DfsTake(stack, trees);
    DfsLined(stack, trees);
    DfsPop(below, top);
    var owed := PreorderStack(Pushed(below, top.left, top.right));
    assert (order + [current]) + owed == order + ([current] + owed);
  }

  /** After popping the top and pushing its children, the stack is still lined up with the
      shapes. */
  lemma DfsLined(stack: seq<Node>, trees: seq<Tree>)
    requires Lined(stack, trees) && stack != []
    ensures Lined(StackAfterPop(stack), Pushed(Front(trees), Last(trees).left, Last(trees).right))
  {
    var top, current := Last(trees), Last(stack);
    DfsTake(stack, trees);
    LinedPushIf(Front(stack), Front(trees), top.right, current.right);
    var s2 := Front(stack) + (if current.right != null then [current.right] else []);
    var t2 := Front(trees) + (if top.right.Branch? then [top.right] else []);
    LinedPushIf(s2, t2, top.left, current.left);
  }

  /** Pushing a child and its shape, when the child exists, keeps a line lined up. */
  lemma LinedPushIf(nodes: seq<Node>, trees: seq<Tree>, t: Tree, n: Node?)
    requires Lined(nodes, trees) && Represents(t, n)
    ensures Lined(nodes + (if n != null then [n] else []), trees + (if t.Branch? then [t] else []))
  {
    LinedPush(nodes, trees, t, n);
    if n == null {
      assert nodes + [] == nodes && trees + [] == trees;
    }
  }

  /** Popping the top of a lined-up stack: the rest stays lined up, and the popped node's
      children are the roots of its subtrees. */
  lemma DfsTake(nodes: seq<Node>, trees: seq<Tree>)
    requires Lined(nodes, trees) && nodes != []
    ensures Lined(Front(nodes), Front(trees)) && trees == Front(trees) + [Last(trees)]
    ensures var t, n := Last(trees), Last(nodes);
      t.Branch? && n == t.node && Represents(t.left, n.left) && Represents(t.right, n.right)
  {
    assert Represents(trees[|trees| - 1], nodes[|nodes| - 1]);
  }

  /** Taking the front of a lined-up queue: the rest stays lined up, and the taken node's
      children are the roots of its subtrees. */
  lemma BfsTake(nodes: seq<Node>, trees: seq<Tree>)
    requires Lined(nodes, trees) && nodes != []
    ensures Lined(nodes[1..], trees[1..])
    ensures var t, n := trees[0], nodes[0];
      t.Branch? && n == t.node && Represents(t.left, n.left) && Represents(t.right, n.right)
  {
    assert Represents(trees[0], nodes[0]);
  }

  /** The stack after popping `Branch(n, l, r)` off the top of `below + [top]` and pushing the
      right subtree and then the left one, each only if it is not empty. */
  function Pushed(below: seq<Tree>, l: Tree, r: Tree): seq<Tree>
  {
    below + (if r.Branch? then [r] else []) + (if l.Branch? then [l] else [])
  }

  /** One round of the depth-first loop: the popped root comes out first, and the output owed
      afterwards is the rest of the preorder; the stack's trees shrink. */
  lemma DfsPop(below: seq<Tree>, top: Tree)
    requires top.Branch?
    ensures PreorderStack(below + [top]) == [top.node] + PreorderStack(Pushed(below, top.left, top.right))
    ensures TotalSize(Pushed(below, top.left, top.right)) < TotalSize(below + [top])
  {
    var l, r := top.left, top.right;
    var withRight := below + (if r.Branch? then [r] else []);
    var pl, pr, pb := Preorder(l), Preorder(r), PreorderStack(below);
    PushIfBranch(below, top);
    assert below + (if top.Branch? then [top] else []) == below + [top];
    assert Preorder(top) == [top.node] + pl + pr;
    PushIfBranch(below, r);
    PushIfBranch(withRight, l);
    assert [top.node] + pl + pr + pb == [top.node] + (pl + (pr + pb));
  }

  /** Pushing a subtree when it is not empty: its preorder is owed first, and its size is
      added to the stack's. */
  lemma PushIfBranch(st: seq<Tree>, t: Tree)
    ensures PreorderStack(st + (if t.Branch? then [t] else [])) == Preorder(t) + PreorderStack(st)
    ensures TotalSize(st + (if t.Branch? then [t] else [])) == TotalSize(st) + Size(t)
  {
    if t.Branch? {
      assert Front(st + [t]) == st && Last(st + [t]) == t;
      TotalSizeAppend(st, [t]);
      assert TotalSize([t]) == Size(t) + TotalSize([]);
    } else {
      assert st + [] == st;
    }
  }

  /** One round of the breadth-first loop: the front root comes out first, and its children
      join the back of the queue; the queue's trees shrink. */
  lemma BfsPop(q: seq<Tree>)
    requires q != [] && q[0].Branch?
    ensures LevelOrder(q) == [q[0].node] + LevelOrder(q[1..] + Kids(q[0].left, q[0].right))
    ensures TotalSize(q[1..] + Kids(q[0].left, q[0].right)) < TotalSize(q)
  {
    TotalSizeAppend(q[1..], Kids(q[0].left, q[0].right));
    KidsSize(q[0].left, q[0].right);
  }

  // ---------------------------------------------------------------------------------------
  // What the two orders have in common

  lemma {:induction false} PreorderSize(t: Tree)
    ensures |Preorder(t)| == Size(t)
  {
    if t.Branch? {
      PreorderSize(t.left);
      PreorderSize(t.right);
    }
  }

  lemma {:induction false} AllNodesAppend(a: seq<Tree>, b: seq<Tree>)
    ensures AllNodes(a + b) == AllNodes(a) + AllNodes(b)
  {
    if a != [] {
      assert (a + b)[1..] == a[1..] + b;
      AllNodesAppend(a[1..], b);
    } else {
      assert a + b == b;
    }
  }

  /** The level order of a queue visits exactly the nodes of its trees, as often as they occur
      there. */
  lemma {:induction false} LevelOrderNodes(q: seq<Tree>)
    ensures multiset(LevelOrder(q)) == multiset(AllNodes(q))
    decreases TotalSize(q), |q|
  {
    if q != [] {
      match q[0]
      case Leaf =>
        LevelOrderNodes(q[1..]);
      case Branch(n, l, r) =>
        BfsPop(q);
        LevelOrderNodes(q[1..] + Kids(l, r));
        AllNodesAppend(q[1..], Kids(l, r));
        KidsNodes(l, r);
    }
  }

  lemma KidsNodes(l: Tree, r: Tree)
    ensures AllNodes(Kids(l, r)) == Preorder(l) + Preorder(r)
  {
    var a, b := if l.Branch? then [l] else [], if r.Branch? then [r] else [];
    AllNodesAppend(a, b);
    if l.Branch? {
      assert a[1..] == [];
    }
    if r.Branch? {
      assert b[1..] == [];
    }
  }

  /** Depth-first and breadth-first traversal visit the same nodes, each as often, and as many
      as the tree has. */
  lemma DfsBfsSameNodes(t: Tree)
    ensures multiset(Preorder(t)) == multiset(LevelOrder([t]))
    ensures |Preorder(t)| == |LevelOrder([t])| == Size(t)
  {
    LevelOrderNodes([t]);
    assert AllNodes([t]) == Preorder(t) + AllNodes([]);
    PreorderSize(t);
    assert |LevelOrder([t])| == |multiset(LevelOrder([t]))|;
  }

  // ---------------------------------------------------------------------------------------
  // Traversals of a tree built from a heap array

  /** The shape below slot `i` of a heap layout. */
  function HeapTree(nodes: seq<Node>, i: nat): Tree
    decreases |nodes| - i
  {
    if i < |nodes| then Branch(nodes[i], HeapTree(nodes, 2 * i + 1), HeapTree(nodes, 2 * i + 2)) else Leaf
  }

  lemma {:induction false} HeapTreeRepresents(nodes: seq<Node>, values: seq<int>, i: nat)
    requires HeapLinked(nodes, values)
    ensures Represents(HeapTree(nodes, i), Child(nodes, i))
    decreases |nodes| - i
  {
    if i < |nodes| {
      assert LinkedAt(nodes, i);
      HeapTreeRepresents(nodes, values, 2 * i + 1);
      HeapTreeRepresents(nodes, values, 2 * i + 2);
    }
  }

  /** The queue of the breadth-first loop when it reaches slot `i` of a heap layout: the shapes
      below slots `i` up to, not including, `2i + 1` (or the end of the array). */
  function HeapQueue(nodes: seq<Node>, i: nat): seq<Tree>
  {
    var last := if 2 * i + 1 < |nodes| then 2 * i + 1 else |nodes|;
    if i < last then seq(last - i, k requires 0 <= k < last - i => HeapTree(nodes, i + k)) else []
  }

  lemma {:induction false} HeapLevelOrder(nodes: seq<Node>, i: nat)
    requires i <= |nodes|
    ensures LevelOrder(HeapQueue(nodes, i)) == nodes[i..]
    decreases |nodes| - i
  {
    if i < |nodes| {
      var q := HeapQueue(nodes, i);
      assert q[0] == HeapTree(nodes, i);
      BfsPop(q);
      HeapQueueStep(nodes, i);
      HeapLevelOrder(nodes, i + 1);
      assert nodes[i..] == [nodes[i]] + nodes[i + 1..];
    } else {
      assert HeapQueue(nodes, i) == [];
    }
  }

  /** Taking slot `i`'s shape off the front of the queue and queueing its two subtrees gives
      the queue at slot `i + 1`. */
  lemma HeapQueueStep(nodes: seq<Node>, i: nat)
    requires i < |nodes|
    ensures var q := HeapQueue(nodes, i);
      q != [] && q[0] == HeapTree(nodes, i)
      && q[1..] + Kids(HeapTree(nodes, 2 * i + 1), HeapTree(nodes, 2 * i + 2)) == HeapQueue(nodes, i + 1)
  {
  }

  /** Breadth-first traversal of a heap-built tree visits the nodes slot by slot, so it gives
      back the values in their array order. */
  lemma BfsOfHeap(nodes: seq<Node>, values: seq<int>)
    requires HeapLinked(nodes, values) && nodes != []
    ensures Represents(HeapTree(nodes, 0), nodes[0])
    ensures LevelOrder([HeapTree(nodes, 0)]) == nodes
    ensures forall k :: 0 <= k < |values| ==> LevelOrder([HeapTree(nodes, 0)])[k].value == values[k]
  {
    HeapTreeRepresents(nodes, values, 0);
    assert HeapQueue(nodes, 0) == [HeapTree(nodes, 0)];
    HeapLevelOrder(nodes, 0);
  }

  /** Depth-first traversal of a heap-built tree visits every node exactly once. */
  lemma DfsOfHeap(nodes: seq<Node>, values: seq<int>)
    requires HeapLinked(nodes, values) && nodes != []
    ensures multiset(Preorder(HeapTree(nodes, 0))) == multiset(nodes)
    ensures |Preorder(HeapTree(nodes, 0))| == |values|
  {
    BfsOfHeap(nodes, values);
    DfsBfsSameNodes(HeapTree(nodes, 0));
  }
}

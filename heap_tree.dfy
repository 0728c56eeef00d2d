/** The binary heap laid out as a tree (task_4.py and task_5.py, which share `BinaryHeap`):
    array slot `i` becomes a node whose children are the nodes of slots `2i + 1` and `2i + 2`. */
module HeapTrees {
  import opened Wrappers

  /** A tree node: its value and its two children. */
  class Node {
    const value: int
    var left: Node?
    var right: Node?

    constructor(value: int)
      ensures this.value == value && left == null && right == null
    {
      this.value := value;
      left := null;
      right := null;
    }
  }

  /** The node of slot `k`, or none past the end of the array. */
  function Child(nodes: seq<Node>, k: nat): Node?
  {
    if k < |nodes| then nodes[k] else null
  }

  predicate Distinct(nodes: seq<Node>)
  {
    forall i, j :: 0 <= i < j < |nodes| ==> nodes[i] != nodes[j]
  }

  /** `nodes` is the heap layout of `values`: one node per slot, holding that slot's value,
      linked to the nodes of slots `2i + 1` and `2i + 2` where those slots exist. */
  ghost predicate HeapLinked(nodes: seq<Node>, values: seq<int>)
    reads nodes
  {
    && |nodes| == |values|
    && Distinct(nodes)
    && (forall i :: 0 <= i < |nodes| ==> nodes[i].value == values[i])
    && (forall i :: 0 <= i < |nodes| ==> LinkedAt(nodes, i))
  }

  /** The node of slot `i` links to the nodes of slots `2i + 1` and `2i + 2`, where they exist. */
  ghost predicate LinkedAt(nodes: seq<Node>, i: nat)
    requires i < |nodes|
    reads nodes[i]
  {
    nodes[i].left == Child(nodes, 2 * i + 1) && nodes[i].right == Child(nodes, 2 * i + 2)
  }

  /** In the heap layout each slot `j >= 1` hangs under exactly one node, that of slot
      `(j - 1) / 2`, and nothing hangs the root anywhere: the links form a tree. */
  lemma ParentIsUnique(nodes: seq<Node>, values: seq<int>, j: nat, k: nat)
    requires HeapLinked(nodes, values) && j < |nodes| && k < |nodes|
    ensures (nodes[k].left == nodes[j] || nodes[k].right == nodes[j]) <==> (j >= 1 && k == (j - 1) / 2)
  {
    assert LinkedAt(nodes, k);
    SameSlot(nodes, 2 * k + 1, j);
    SameSlot(nodes, 2 * k + 2, j);
    HalfDown(j, k);
  }

  /** A slot's node is the node of slot `j` only when the slots are the same. */
  lemma SameSlot(nodes: seq<Node>, a: nat, j: nat)
    requires Distinct(nodes) && j < |nodes|
    ensures Child(nodes, a) == nodes[j] <==> a == j
  {
    if a < |nodes| && a != j {
      if a < j {
        assert nodes[a] != nodes[j];
      } else {
        assert nodes[j] != nodes[a];
      }
    }
  }

  lemma HalfDown(j: nat, k: nat)
    ensures (j == 2 * k + 1 || j == 2 * k + 2) <==> (j >= 1 && k == (j - 1) / 2)
  {
  }

  class BinaryHeap {
    const values: seq<int>

    constructor(values: seq<int>)
      ensures this.values == values
    {
      this.values := values;
    }

    /** `to_tree`: none for an empty array; otherwise a fresh node per slot, linked in the heap
        layout, and the root is the node of slot 0. */
    method ToTree() returns (root: Node?, ghost nodes: seq<Node>)
      ensures root == null <==> values == []
      ensures values != [] ==> HeapLinked(nodes, values) && root == nodes[0]
      ensures forall n <- nodes :: fresh(n)
    {
      if values == [] {
        return null, [];
      }
      var created: seq<Node> := [];
      for i := 0 to |values|
        invariant |created| == i && Distinct(created)
        invariant forall n <- created :: fresh(n)
        invariant forall k :: 0 <= k < i ==> created[k].value == values[k] && created[k].left == null && created[k].right == null
      {
        var node := new Node(values[i]);
        created := created + [node];
      }
      for index := 0 to |created|
        invariant forall n <- created :: fresh(n)
        invariant forall k :: 0 <= k < index ==> LinkedAt(created, k)
        invariant forall k :: index <= k < |created| ==> created[k].left == null && created[k].right == null
      {
        var node := created[index];
        assert node in created;
        var leftIndex, rightIndex := 2 * index + 1, 2 * index + 2;
        if leftIndex < |created| {
          node.left := created[leftIndex];
        }
        if rightIndex < |created| {
          node.right := created[rightIndex];
        }
      }
      nodes := created;
      root := created[0];
    }
  }

  /** The error `TreeBuilder.build` raises. */
  datatype ValueError = ValueError(message: string)

  class TreeBuilder {
    const heap: BinaryHeap

    constructor(values: seq<int>)
      ensures heap.values == values
    {
      heap := new BinaryHeap(values);
    }

    /** `build`: the root of the heap tree, or `ValueError` exactly when there are no values. */
    method Build() returns (r: Result<Node, ValueError>, ghost nodes: seq<Node>)
      ensures r.Err? <==> heap.values == []
      ensures r.Err? ==> r.error == ValueError("Heap is empty.")
      ensures r.Ok? ==> HeapLinked(nodes, heap.values) && r.value == nodes[0]
      ensures forall n <- nodes :: fresh(n)
    {
      var root;
      root, nodes := heap.ToTree();
      if root == null {
        return Err(ValueError("Heap is empty.")), nodes;
      }
      return Ok(root), nodes;
    }
  }
}

/** Singly linked list of integers (task_1.py).

    A list is a chain of `Node` objects joined by their `next` fields and ended by `null`.
    Reversal, splitting and merging relink the existing nodes; no value is ever changed. Each
    chain is described by the ghost sequence of its nodes, head first, and the values it
    holds are read off that sequence. */
module LinkedLists {
  import opened Wrappers
  import opened Seqs

  /** A list cell. Nothing in the list ever changes a node's value once it is built, so it is
      a constant here; only the link is updated. */
  class Node {
    const value: int
    var next: Node?

    constructor (value: int)
      ensures this.value == value && next == null
    {
      this.value := value;
      next := null;
    }
  }

  /** The node at position `i` of `nodes`, or `null` just past the end. */
  function At(nodes: seq<Node>, i: nat): Node?
    requires i <= |nodes|
  {
    if i < |nodes| then nodes[i] else null
  }

  /** No node occurs twice in `nodes`. */
  ghost predicate Unique(nodes: seq<Node>)
  {
    forall n {:trigger multiset(nodes)[n]} | n in multiset(nodes) :: multiset(nodes)[n] == 1
  }

  /** `nodes` is exactly the chain that starts at `head`: every node links to the one after
      it, the last one to `null`, and no node occurs twice. */
  ghost predicate Chain(head: Node?, nodes: seq<Node>)
    reads nodes`next
  {
    head == At(nodes, 0) && Unique(nodes) && LinkedFrom(nodes, 0)
  }

  /** From position `lo` on, every node of `nodes` links to the one after it (the last to `null`). */
  ghost predicate LinkedFrom(nodes: seq<Node>, lo: nat)
    reads nodes`next
  {
    forall i {:trigger nodes[i].next} :: lo <= i < |nodes| ==> nodes[i].next == At(nodes, i + 1)
  }

  /** Every node of `nodes` but the last links to the one after it. */
  ghost predicate Links(nodes: seq<Node>)
    reads nodes`next
  {
    forall i {:trigger nodes[i].next} :: 0 <= i < |nodes| - 1 ==> nodes[i].next == nodes[i + 1]
  }

  /** In a sequence without repeats, the node at position `i` occurs nowhere else. */
  lemma UniqueElsewhere(nodes: seq<Node>, i: nat)
    requires Unique(nodes) && i < |nodes|
    ensures forall k {:trigger nodes[k]} :: 0 <= k < |nodes| && k != i ==> nodes[k] != nodes[i]
  {
    forall k | 0 <= k < |nodes| && k != i
      ensures nodes[k] != nodes[i]
    {
      var lo, hi := if k < i then k else i, if k < i then i else k;
      var a, b := nodes[..hi], nodes[hi..];
      assert nodes == a + b;
      assert nodes[lo] == a[lo] && nodes[hi] == b[0];
      assert multiset(nodes)[nodes[hi]] == multiset(a)[nodes[hi]] + multiset(b)[nodes[hi]];
    }
  }

  /** The parts of a sequence without repeats have no repeats and share no node. */
  lemma UniqueParts(a: seq<Node>, b: seq<Node>)
    requires Unique(a + b)
    ensures Unique(a) && Unique(b)
    ensures forall n {:trigger n in a, n in b} :: n in a ==> n !in b
  {
    assert multiset(a + b) == multiset(a) + multiset(b);
    forall n | n in multiset(a)
      ensures multiset(a)[n] == 1
    {
      assert multiset(a + b)[n] == multiset(a)[n] + multiset(b)[n];
    }
    forall n | n in multiset(b)
      ensures multiset(b)[n] == 1
    {
      assert multiset(a + b)[n] == multiset(a)[n] + multiset(b)[n];
    }
    forall n | n in a
      ensures n !in b
    {
      assert multiset(a + b)[n] == multiset(a)[n] + multiset(b)[n];
    }
  }

  /** The values held by `nodes`, in order. */
  function Values(nodes: seq<Node>): seq<int>
  {
    seq(|nodes|, i requires 0 <= i < |nodes| => nodes[i].value)
  }

  predicate Sorted(s: seq<int>)
  {
    forall i, j :: 0 <= i < j < |s| ==> s[i] <= s[j]
  }

  // ---------------------------------------------------------------------------------------
  // Merging and merge sort as functions on node sequences

  /** The nodes of `left` and `right` merged by value, the left node first on equal values. */
  function MergeNodes(left: seq<Node>, right: seq<Node>): seq<Node>
    decreases |left| + |right|
  {
    if left == [] then right
    else if right == [] then left
    else if left[0].value <= right[0].value then [left[0]] + MergeNodes(left[1..], right)
    else [right[0]] + MergeNodes(left, right[1..])
  }

  /** The number of nodes `_split` keeps in the first half of a chain of `n` nodes. */
  function FirstHalf(n: nat): nat
  {
    (n + 1) / 2
  }

  /** `_merge_sort` on a chain of `nodes`: split after `FirstHalf`, sort each half, merge. */
  function MergeSortNodes(nodes: seq<Node>): seq<Node>
    decreases |nodes|
  {
    if |nodes| < 2 then nodes
    else
      var k := FirstHalf(|nodes|);
      MergeNodes(MergeSortNodes(nodes[..k]), MergeSortNodes(nodes[k..]))
  }

  /** Merging uses every node of both inputs, each as often as it occurs there. */
  lemma {:induction false} MergeNodesPermutes(left: seq<Node>, right: seq<Node>)
    ensures multiset(MergeNodes(left, right)) == multiset(left) + multiset(right)
    decreases |left| + |right|
  {
    if left != [] && right != [] {
      if left[0].value <= right[0].value {
        var rest := MergeNodes(left[1..], right);
        MergeNodesPermutes(left[1..], right);
        NodesCons(left);
        NodesCons([left[0]] + rest);
        assert ([left[0]] + rest)[1..] == rest;
      } else {
        var rest := MergeNodes(left, right[1..]);
        MergeNodesPermutes(left, right[1..]);
        NodesCons(right);
        NodesCons([right[0]] + rest);
        assert ([right[0]] + rest)[1..] == rest;
      }
    }
  }

  /** The nodes of a non-empty sequence: its first node and the rest. */
  lemma NodesCons(nodes: seq<Node>)
    requires nodes != []
    ensures multiset(nodes) == multiset{nodes[0]} + multiset(nodes[1..])
  {
    assert nodes == [nodes[0]] + nodes[1..];
  }

  /** Merge sort gives back exactly the nodes it was given. */
  lemma {:induction false} MergeSortNodesPermutes(nodes: seq<Node>)
    ensures multiset(MergeSortNodes(nodes)) == multiset(nodes)
    decreases |nodes|
  {
    if |nodes| >= 2 {
      var k := FirstHalf(|nodes|);
      var l, r := nodes[..k], nodes[k..];
      assert nodes == l + r;
      MergeSortNodesPermutes(l);
      MergeSortNodesPermutes(r);
      MergeNodesPermutes(MergeSortNodes(l), MergeSortNodes(r));
    }
  }

  /** Merging keeps the values of both inputs, each as often as it occurs. */
  lemma {:induction false} MergeValuesPermute(left: seq<Node>, right: seq<Node>)
    ensures multiset(Values(MergeNodes(left, right))) == multiset(Values(left)) + multiset(Values(right))
    decreases |left| + |right|
  {
    if left != [] && right != [] {
      if left[0].value <= right[0].value {
        var rest := MergeNodes(left[1..], right);
        MergeValuesPermute(left[1..], right);
        ValuesCons(left, left[0].value);
        ValuesCons([left[0]] + rest, left[0].value);
        assert ([left[0]] + rest)[1..] == rest;
      } else {
        var rest := MergeNodes(left, right[1..]);
        MergeValuesPermute(left, right[1..]);
        ValuesCons(right, right[0].value);
        ValuesCons([right[0]] + rest, right[0].value);
        assert ([right[0]] + rest)[1..] == rest;
      }
    }
  }

  /** The multiset of values of a non-empty sequence: its first value and the rest. */
  lemma ValuesCons(nodes: seq<Node>, x: int)
    requires nodes != [] && nodes[0].value == x
    ensures multiset(Values(nodes)) == multiset{x} + multiset(Values(nodes[1..]))
  {
    assert Values(nodes) == [x] + Values(nodes[1..]);
  }

  /** The values of a concatenation. */
  lemma ValuesAppend(a: seq<Node>, b: seq<Node>)
    ensures Values(a + b) == Values(a) + Values(b)
  {
  }

  /** Merging two sorted chains gives a sorted chain. */
  lemma {:induction false} MergeNodesSorted(left: seq<Node>, right: seq<Node>)
    requires Sorted(Values(left)) && Sorted(Values(right))
    ensures Sorted(Values(MergeNodes(left, right)))
    decreases |left| + |right|
  {
    if left != [] && right != [] {
      if left[0].value <= right[0].value {
        var rest := MergeNodes(left[1..], right);
        SortedTail(left);
        MergeNodesSorted(left[1..], right);
        MergeHeadAtLeast(left[1..], right, left[0].value);
        ValuesPrepend(left[0], rest);
        SortedCons(left[0].value, Values(rest));
      } else {
        var rest := MergeNodes(left, right[1..]);
        SortedTail(right);
        MergeNodesSorted(left, right[1..]);
        MergeHeadAtLeast(left, right[1..], right[0].value);
        ValuesPrepend(right[0], rest);
        SortedCons(right[0].value, Values(rest));
      }
    }
  }

  /** A bound on the first values of both inputs bounds the first value of their merge. */
  lemma MergeHeadAtLeast(left: seq<Node>, right: seq<Node>, x: int)
    requires left != [] ==> x <= left[0].value
    requires right != [] ==> x <= right[0].value
    ensures MergeNodes(left, right) != [] ==> x <= MergeNodes(left, right)[0].value
  {
  }

  /** The tail of a sorted chain is sorted and starts no lower than its head. */
  lemma SortedTail(nodes: seq<Node>)
    requires nodes != [] && Sorted(Values(nodes))
    ensures Sorted(Values(nodes[1..]))
    ensures |nodes| > 1 ==> nodes[0].value <= nodes[1].value
  {
    assert Values(nodes[1..]) == Values(nodes)[1..];
    if |nodes| > 1 {
      assert Values(nodes)[0] <= Values(nodes)[1];
    }
  }

  /** The values of a node followed by a chain. */
  lemma ValuesPrepend(n: Node, nodes: seq<Node>)
    ensures Values([n] + nodes) == [n.value] + Values(nodes)
  {
  }

  /** Prepending a value no larger than the first keeps a sequence sorted. */
  lemma SortedCons(x: int, s: seq<int>)
    requires Sorted(s) && (s != [] ==> x <= s[0])
    ensures Sorted([x] + s)
  {
  }

  /** Merge sort orders the values. */
  lemma {:induction false} MergeSortNodesSorted(nodes: seq<Node>)
    ensures Sorted(Values(MergeSortNodes(nodes)))
    decreases |nodes|
  {
    if |nodes| >= 2 {
      var k := FirstHalf(|nodes|);
      var l, r := nodes[..k], nodes[k..];
      assert MergeSortNodes(nodes) == MergeNodes(MergeSortNodes(l), MergeSortNodes(r));
      MergeSortNodesSorted(l);
      MergeSortNodesSorted(r);
      MergeNodesSorted(MergeSortNodes(l), MergeSortNodes(r));
    }
  }

  /** Merge sort keeps every value, each as often as it occurs. */
  lemma {:induction false} MergeSortValuesPermute(nodes: seq<Node>)
    ensures multiset(Values(MergeSortNodes(nodes))) == multiset(Values(nodes))
    decreases |nodes|
  {
    if |nodes| >= 2 {
      var k := FirstHalf(|nodes|);
      var l, r := nodes[..k], nodes[k..];
      assert nodes == l + r;
      MergeSortValuesPermute(l);
      MergeSortValuesPermute(r);
      MergePermutedHalves(l, r, MergeSortNodes(l), MergeSortNodes(r));
    }
  }

  /** Merging permutations of two halves gives a permutation of the whole. */
  lemma MergePermutedHalves(l: seq<Node>, r: seq<Node>, sl: seq<Node>, sr: seq<Node>)
    requires multiset(Values(sl)) == multiset(Values(l))
    requires multiset(Values(sr)) == multiset(Values(r))
    ensures multiset(Values(MergeNodes(sl, sr))) == multiset(Values(l + r))
  {
    MergeValuesPermute(sl, sr);
    ValuesAppend(l, r);
  }

  // ---------------------------------------------------------------------------------------
  // The relinking steps

  /** `_split`: cuts the chain after its first `FirstHalf(|nodes|)` nodes, using a slow pointer
      that moves one node per round and a fast one that moves two. */
  method Split(head: Node, ghost nodes: seq<Node>)
    returns (left: Node, middle: Node?, ghost l: seq<Node>, ghost r: seq<Node>)
    requires Chain(head, nodes)
    modifies nodes
    ensures l == nodes[..FirstHalf(|nodes|)] && r == nodes[FirstHalf(|nodes|)..]
    ensures left == head && Chain(left, l) && Chain(middle, r)
  {
    var slow := head;
    var fast := head.next;
    ghost var i := 0;
    while fast != null && fast.next != null
      invariant 0 <= i < |nodes| && 2 * i + 1 <= |nodes|
      invariant slow == nodes[i] && fast == At(nodes, 2 * i + 1)
      decreases |nodes| - i
    {
      if slow.next == null {
        break;
      }
      slow := slow.next;
      fast := fast.next.next;
      i := i + 1;
    }
    assert i + 1 == FirstHalf(|nodes|);
    UniqueElsewhere(nodes, i);
    middle := slow.next;
    slow.next := null;
    CutChain(nodes, i + 1);
    left, l, r := head, nodes[..i + 1], nodes[i + 1..];
  }

  /** A chain whose link after node `k - 1` has been cut falls into two chains. */
  lemma CutChain(nodes: seq<Node>, k: nat)
    requires 1 <= k <= |nodes| && Unique(nodes)
    requires forall i {:trigger nodes[i].next} :: 0 <= i < |nodes| && i != k - 1 ==> nodes[i].next == At(nodes, i + 1)
    requires nodes[k - 1].next == null
    ensures Chain(nodes[0], nodes[..k]) && Chain(At(nodes, k), nodes[k..])
  {
    var l, r := nodes[..k], nodes[k..];
    assert nodes == l + r;
    UniqueParts(l, r);
    assert forall i {:trigger r[i]} :: 0 <= i < |r| ==> r[i] == nodes[k + i];
    assert forall i {:trigger l[i]} :: 0 <= i < |l| ==> l[i] == nodes[i];
  }

  /** The state between two rounds of `_merge`: the placed nodes `built` (the placeholder
      first) are linked in order, `l` and `r` head the still linked remainders of the two
      inputs, the placed nodes followed by the merge of the remainders are the merge of the
      inputs, and no node occurs twice. */
  ghost predicate Merging(left: seq<Node>, right: seq<Node>, li: nat, ri: nat, built: seq<Node>, l: Node?, r: Node?)
    reads built, left, right
  {
    li <= |left| && ri <= |right| && built != []
    && l == At(left[li..], 0) && r == At(right[ri..], 0)
    && built[1..] + MergeNodes(left[li..], right[ri..]) == MergeNodes(left, right)
    && Unique(built + left[li..] + right[ri..])
    && Links(built) && LinkedFrom(left[li..], 0) && LinkedFrom(right[ri..], 0)
  }

  /** `_merge`: relinks two chains into one ordered by value, taking from the left chain on
      equal values, behind a placeholder node that is dropped at the end. */
  method Merge(leftHead: Node?, ghost left: seq<Node>, rightHead: Node?, ghost right: seq<Node>)
    returns (head: Node?, ghost merged: seq<Node>)
    requires Chain(leftHead, left) && Chain(rightHead, right) && Unique(left + right)
    modifies left, right
    ensures merged == MergeNodes(left, right) && Chain(head, merged)
  {
    var dummy := new Node(0);
    var tail := dummy;
    var l, r := leftHead, rightHead;
    ghost var built, li: nat, ri: nat := [dummy], 0, 0;
    MergingStart(dummy, leftHead, left, rightHead, right);
    while l != null && r != null
      invariant Merging(left, right, li, ri, built, l, r)
      invariant built[0] == dummy && tail == Last(built)
      invariant tail == dummy || tail in left || tail in right
      decreases |left| - li + |right| - ri
    {
      tail, l, r, built, li, ri := MergeRound(tail, l, r, left, right, built, li, ri);
    }
    merged := MergeFinish(tail, l, r, left, right, built, li, ri);
    head := dummy.next;
  }

  /** Before the first round only the new placeholder is placed. */
  lemma MergingStart(dummy: Node, leftHead: Node?, left: seq<Node>, rightHead: Node?, right: seq<Node>)
    requires Chain(leftHead, left) && Chain(rightHead, right) && Unique(left + right)
    requires dummy !in left && dummy !in right
    ensures Merging(left, right, 0, 0, [dummy], leftHead, rightHead)
  {
    assert left[0..] == left && right[0..] == right;
    assert [dummy] + left + right == [dummy] + (left + right);
    UniqueCons(dummy, left + right);
  }

  /** A node not in a sequence without repeats can be put in front of it. */
  lemma UniqueCons(n: Node, nodes: seq<Node>)
    requires Unique(nodes) && n !in nodes
    ensures Unique([n] + nodes)
  {
    var all := [n] + nodes;
    assert multiset(all) == multiset{n} + multiset(nodes);
    forall m | m in multiset(all)
      ensures multiset(all)[m] == 1
    {
      if m != n {
        assert m in multiset(nodes);
      }
    }
  }

  /** The end of `_merge`: one input is used up, so the last placed node is linked to what
      is left of the other one, and the nodes after the placeholder are the merged chain. */
  method MergeFinish(tail: Node, l: Node?, r: Node?, ghost left: seq<Node>, ghost right: seq<Node>,
                     ghost built: seq<Node>, ghost li: nat, ghost ri: nat)
    returns (ghost merged: seq<Node>)
    requires Merging(left, right, li, ri, built, l, r) && tail == Last(built) && (l == null || r == null)
    modifies tail
    ensures merged == MergeNodes(left, right) && Chain(built[0].next, merged)
  {
    ghost var rest := if l != null then left[li..] else right[ri..];
    MergeRest(left, right, li, ri, built, l, r, rest);
    tail.next := if l != null then l else r;
    Finish(built, rest);
    merged := built[1..] + rest;
  }

  /** Once one input is used up, the placed nodes followed by what is left of the other one
      are the merge, and the last placed node is free to be linked to that rest. */
  lemma MergeRest(left: seq<Node>, right: seq<Node>, li: nat, ri: nat, built: seq<Node>, l: Node?, r: Node?,
                  rest: seq<Node>)
    requires Merging(left, right, li, ri, built, l, r) && (l == null || r == null)
    requires rest == if l != null then left[li..] else right[ri..]
    ensures built[1..] + rest == MergeNodes(left, right)
    ensures Unique(built + rest) && LinkedFrom(rest, 0) && At(rest, 0) == (if l != null then l else r)
    ensures LinkedUpTo(built) && Last(built) !in Front(built) && Last(built) !in rest
  {
    assert built + left[li..] + right[ri..] == built + rest;
    LastApart(built, rest, []);
    LinksFront(built);
  }

  /** One round of `_merge`: links the last placed node to the smaller head of the two
      remainders, the left one on equal values, and moves past it. */
  method MergeRound(tail: Node, l: Node, r: Node, ghost left: seq<Node>, ghost right: seq<Node>,
                    ghost built: seq<Node>, ghost li: nat, ghost ri: nat)
    returns (tail': Node, l': Node?, r': Node?, ghost built': seq<Node>, ghost li': nat, ghost ri': nat)
    requires Merging(left, right, li, ri, built, l, r) && tail == Last(built)
    modifies tail
    ensures Merging(left, right, li', ri', built', l', r')
    ensures built' == built + [tail'] && li' + ri' == li + ri + 1
    ensures tail' in left || tail' in right
  {
    MergeStep(left[li..], right[ri..]);
    LastApart(built, left[li..], right[ri..]);
    LinksFront(built);
    if l.value <= r.value {
      tail.next := l;
      l', r' := l.next, r;
      LinkedTail(left, li);
      PlaceLeft(built, left[li..], left[li + 1..], right[ri..]);
      PlaceMerged(built, l, MergeNodes(left[li..], right[ri..]), MergeNodes(left[li + 1..], right[ri..]));
      li', ri' := li + 1, ri;
    } else {
      tail.next := r;
      l', r' := l, r.next;
      LinkedTail(right, ri);
      PlaceRight(built, left[li..], right[ri..], right[ri + 1..]);
      PlaceMerged(built, r, MergeNodes(left[li..], right[ri..]), MergeNodes(left[li..], right[ri + 1..]));
      li', ri' := li, ri + 1;
    }
    tail' := tail.next;
    LinksSnoc(built, tail');
    built' := built + [tail'];
  }

  /** The last placed node occurs neither earlier among the placed ones nor in the remainders. */
  lemma LastApart(built: seq<Node>, a: seq<Node>, b: seq<Node>)
    requires built != [] && Unique(built + a + b)
    ensures Last(built) !in Front(built) && Last(built) !in a && Last(built) !in b
  {
    var t := Last(built);
    assert built + a + b == Front(built) + [t] + a + b;
    assert multiset(built + a + b)[t] == multiset(Front(built))[t] + 1 + multiset(a)[t] + multiset(b)[t];
  }

  /** Placing the first node of the left remainder keeps the nodes without repeats. */
  lemma PlaceLeft(built: seq<Node>, lrest: seq<Node>, lrest': seq<Node>, rrest: seq<Node>)
    requires lrest != [] && lrest' == lrest[1..] && Unique(built + lrest + rrest)
    ensures Unique(built + [lrest[0]] + lrest' + rrest)
  {
    assert lrest == [lrest[0]] + lrest';
    assert built + [lrest[0]] + lrest' + rrest == built + lrest + rrest;
  }

  /** Placing the first node of the right remainder keeps the nodes without repeats. */
  lemma PlaceRight(built: seq<Node>, lrest: seq<Node>, rrest: seq<Node>, rrest': seq<Node>)
    requires rrest != [] && rrest' == rrest[1..] && Unique(built + lrest + rrest)
    ensures Unique(built + [rrest[0]] + lrest + rrest')
  {
    assert rrest == [rrest[0]] + rrest';
    assert multiset(built + [rrest[0]] + lrest + rrest') == multiset(built + lrest + rrest);
  }

  /** Placing `x`, the first node of the merge of the remainders, keeps the placed nodes
      followed by that merge unchanged. */
  lemma PlaceMerged(built: seq<Node>, x: Node, before: seq<Node>, after: seq<Node>)
    requires built != [] && before == [x] + after
    ensures (built + [x])[1..] + after == built[1..] + before
  {
  }

  /** The placed nodes before the last one are linked among themselves and to the last one:
      links that a write to the last node leaves alone. */
  ghost predicate LinkedUpTo(built: seq<Node>)
    requires built != []
    reads Front(built)
  {
    Links(Front(built)) && (|built| >= 2 ==> built[|built| - 2].next == Last(built))
  }

  lemma LinksFront(built: seq<Node>)
    requires built != [] && Links(built)
    ensures LinkedUpTo(built)
  {
    assert forall k {:trigger Front(built)[k]} :: 0 <= k < |built| - 1 ==> Front(built)[k] == built[k];
  }

  /** Linking the last placed node to `x` places `x`. */
  lemma LinksSnoc(built: seq<Node>, x: Node)
    requires built != [] && LinkedUpTo(built) && Last(built).next == x
    ensures Links(built + [x])
  {
    var b := built + [x];
    forall k | 0 <= k < |b| - 1
      ensures b[k].next == b[k + 1]
    {
      if k < |built| - 2 {
        assert b[k] == Front(built)[k] && b[k + 1] == Front(built)[k + 1];
      }
    }
  }

  /** Linking the last placed node to what is left of one input makes the placed nodes after
      the placeholder, followed by that rest, one chain. */
  lemma Finish(built: seq<Node>, rest: seq<Node>)
    requires built != [] && Unique(built + rest)
    requires LinkedUpTo(built) && Last(built).next == At(rest, 0) && LinkedFrom(rest, 0)
    ensures Chain(built[0].next, built[1..] + rest)
  {
    var all := built + rest;
    assert Links(all) by {
      forall k | 0 <= k < |all| - 1
        ensures all[k].next == all[k + 1]
      {
        if k < |built| - 2 {
          assert all[k] == Front(built)[k] && all[k + 1] == Front(built)[k + 1];
        } else if k >= |built| {
          assert all[k] == rest[k - |built|] && all[k + 1] == rest[k + 1 - |built|];
        }
      }
    }
    assert Last(all).next == null by {
      if rest != [] {
        assert Last(all) == rest[|rest| - 1];
      }
    }
    ChainAfter(all);
    assert all[1..] == built[1..] + rest;
  }

  /** A linked run without repeats whose last node ends in `null` is, after its first node,
      the chain its first node points to. */
  lemma ChainAfter(nodes: seq<Node>)
    requires nodes != [] && Unique(nodes) && Links(nodes) && Last(nodes).next == null
    ensures Chain(nodes[0].next, nodes[1..])
  {
    assert nodes == [nodes[0]] + nodes[1..];
    UniqueParts([nodes[0]], nodes[1..]);
  }

  /** Dropping the first node of a linked remainder leaves a linked remainder, which the
      first node points to. */
  lemma LinkedTail(nodes: seq<Node>, lo: nat)
    requires lo < |nodes| && LinkedFrom(nodes[lo..], 0)
    ensures nodes[lo].next == At(nodes[lo + 1..], 0) && LinkedFrom(nodes[lo + 1..], 0)
  {
    assert nodes[lo..][0] == nodes[lo];
    assert forall i {:trigger nodes[lo + 1..][i]} :: 0 <= i < |nodes| - lo - 1 ==> nodes[lo + 1..][i] == nodes[lo..][i + 1];
  }

  /** One round of merging takes the smaller head, the left one on equal values. */
  lemma MergeStep(left: seq<Node>, right: seq<Node>)
    requires left != [] && right != []
    ensures left[0].value <= right[0].value ==> MergeNodes(left, right) == [left[0]] + MergeNodes(left[1..], right)
    ensures left[0].value > right[0].value ==> MergeNodes(left, right) == [right[0]] + MergeNodes(left, right[1..])
  {
  }

  /** `_merge_sort`: a chain of fewer than two nodes is returned as it is; a longer one is
      split, each half is sorted, and the sorted halves are merged. */
  method MergeSort(head: Node?, ghost nodes: seq<Node>) returns (sorted: Node?, ghost result: seq<Node>)
    requires Chain(head, nodes)
    modifies nodes
    ensures result == MergeSortNodes(nodes) && Chain(sorted, result)
    decreases |nodes|, 1
  {
    if head == null || head.next == null {
      sorted, result := head, nodes;
      return;
    }
    var leftHead, rightHead, l, r := Split(head, nodes);
    assert nodes == l + r;
    var sortedLeft, ls, sortedRight, rs := SortHalves(leftHead, l, rightHead, r);
    sorted, result := Merge(sortedLeft, ls, sortedRight, rs);
  }

  /** The recursive calls of `_merge_sort`: sorts the two halves one after the other.
      Sorting one half relinks only its own nodes, so the other half stays a chain. */
  method SortHalves(leftHead: Node?, ghost l: seq<Node>, rightHead: Node?, ghost r: seq<Node>)
    returns (sortedLeft: Node?, ghost ls: seq<Node>, sortedRight: Node?, ghost rs: seq<Node>)
    requires Chain(leftHead, l) && Chain(rightHead, r) && Unique(l + r) && l != [] && r != []
    modifies l, r
    ensures ls == MergeSortNodes(l) && rs == MergeSortNodes(r)
    ensures Chain(sortedLeft, ls) && Chain(sortedRight, rs) && Unique(ls + rs)
    ensures forall i {:trigger ls[i]} :: 0 <= i < |ls| ==> ls[i] in l
    ensures forall i {:trigger rs[i]} :: 0 <= i < |rs| ==> rs[i] in r
    decreases |l| + |r|, 0
  {
    ApartAfter(l, r, r);
    label BeforeLeft:
    sortedLeft, ls := MergeSort(leftHead, l);
    assert forall i {:trigger r[i]} :: 0 <= i < |r| ==> r[i] in r;
    assert forall i {:trigger r[i]} :: 0 <= i < |r| ==> r[i].next == old@BeforeLeft(r[i].next);
    assert LinkedFrom(r, 0);
    MergeSortNodesPermutes(l);
    ApartBefore(l, r, ls);
    label BeforeRight:
    sortedRight, rs := MergeSort(rightHead, r);
    assert forall i {:trigger ls[i]} :: 0 <= i < |ls| ==> ls[i] in ls;
    assert forall i {:trigger ls[i]} :: 0 <= i < |ls| ==> ls[i].next == old@BeforeRight(ls[i].next);
    assert LinkedFrom(ls, 0);
    MergeSortNodesPermutes(r);
    ApartAfter(l, r, rs);
    SortedHalvesUnique(l, r, ls, rs);
    assert forall i {:trigger rs[i]} :: 0 <= i < |rs| ==> rs[i] in rs;
  }

  /** The nodes of a rearrangement `c` of the first part of a sequence without repeats are
      all in that part and none is in the second part. */
  lemma ApartBefore(a: seq<Node>, b: seq<Node>, c: seq<Node>)
    requires Unique(a + b) && multiset(c) == multiset(a)
    ensures forall n {:trigger n in c} :: n in c ==> n in a && n !in b
  {
    forall n | n in c
      ensures n in a && n !in b
    {
      assert n in multiset(c);
      assert multiset(a + b)[n] == multiset(a)[n] + multiset(b)[n];
    }
  }

  /** The nodes of a rearrangement `c` of the second part of a sequence without repeats are
      all in that part and none is in the first part. */
  lemma ApartAfter(a: seq<Node>, b: seq<Node>, c: seq<Node>)
    requires Unique(a + b) && multiset(c) == multiset(b)
    ensures forall n {:trigger n in c} :: n in c ==> n in b && n !in a
  {
    forall n | n in c
      ensures n in b && n !in a
    {
      assert n in multiset(c);
      assert multiset(a + b)[n] == multiset(a)[n] + multiset(b)[n];
    }
  }

  /** Rearranging the two halves of a chain without repeats leaves no repeats. */
  lemma SortedHalvesUnique(l: seq<Node>, r: seq<Node>, ls: seq<Node>, rs: seq<Node>)
    requires Unique(l + r) && multiset(ls) == multiset(l) && multiset(rs) == multiset(r)
    ensures Unique(ls + rs)
  {
    assert multiset(ls + rs) == multiset(l + r);
  }

  /** A linked run without repeats whose last node ends in `null` is the chain of its first node. */
  lemma LinkedChain(nodes: seq<Node>)
    requires nodes != [] && Unique(nodes) && Links(nodes) && Last(nodes).next == null
    ensures Chain(nodes[0], nodes)
  {
  }

  /** A node that links to the head of a chain and is not in it heads a longer chain. */
  lemma ChainCons(n: Node, head: Node?, nodes: seq<Node>)
    requires Chain(head, nodes) && n.next == head && n !in nodes
    ensures Chain(n, [n] + nodes)
  {
    var all := [n] + nodes;
    assert forall i {:trigger all[i]} :: 1 <= i < |all| ==> all[i] == nodes[i - 1];
    UniqueCons(n, nodes);
  }

  /** The chain after the first node of a chain. */
  lemma ChainTail(head: Node, nodes: seq<Node>)
    requires Chain(head, nodes)
    ensures nodes != [] && Chain(head.next, nodes[1..]) && head !in nodes[1..]
  {
    assert nodes == [nodes[0]] + nodes[1..];
    UniqueParts([nodes[0]], nodes[1..]);
    assert forall i {:trigger nodes[1..][i]} :: 0 <= i < |nodes| - 1 ==> nodes[1..][i] == nodes[i + 1];
    assert head.next == At(nodes[1..], 0);
    assert head in [nodes[0]];
  }

  /** The values of a reversed sequence of nodes are the reversed values. */
  lemma {:induction false} ValuesReverse(nodes: seq<Node>)
    ensures Values(Reverse(nodes)) == Reverse(Values(nodes))
  {
    if nodes != [] {
      ValuesReverse(nodes[1..]);
      ValuesAppend(Reverse(nodes[1..]), [nodes[0]]);
      assert Values(nodes)[1..] == Values(nodes[1..]);
    }
  }

  /** Two ascending sequences holding the same values, each as often, are equal: the result
      of sorting is determined by the values sorted. */
  lemma {:induction false} SortedUnique(s: seq<int>, t: seq<int>)
    requires Sorted(s) && Sorted(t) && multiset(s) == multiset(t)
    ensures s == t
  {
    if s == [] {
      assert |t| == |multiset(t)| == 0;
    } else {
      SortedSameFirst(s, t);
      SameRest(s, t);
      SortedUnique(s[1..], t[1..]);
      assert s == [s[0]] + s[1..] && t == [t[0]] + t[1..];
    }
  }

  /** Two non-empty ascending sequences with the same values start with the same value. */
  lemma SortedSameFirst(s: seq<int>, t: seq<int>)
    requires Sorted(s) && Sorted(t) && multiset(s) == multiset(t) && s != []
    ensures t != [] && s[0] == t[0]
  {
    assert s[0] in multiset(t);
    var j :| 0 <= j < |t| && t[j] == s[0];
    assert t[0] in multiset(s);
    var k :| 0 <= k < |s| && s[k] == t[0];
  }

  /** Two sequences with the same values and the same first value have the same values after it. */
  lemma SameRest(s: seq<int>, t: seq<int>)
    requires s != [] && t != [] && s[0] == t[0] && multiset(s) == multiset(t)
    ensures multiset(s[1..]) == multiset(t[1..])
  {
    assert s == [s[0]] + s[1..] && t == [t[0]] + t[1..];
    assert multiset(s[1..]) == multiset(s) - multiset{s[0]};
    assert multiset(t[1..]) == multiset(t) - multiset{t[0]};
  }

  // ---------------------------------------------------------------------------------------
  // The list object

  /** `LinkedList`: a reference to the head node of a chain. `spine` is the ghost sequence of
      the chain's nodes. */
  class LinkedList {
    var head: Node?
    ghost var spine: seq<Node>

    ghost predicate Valid()
      reads this, spine
    {
      Chain(head, spine)
    }

    /** What `to_list` returns: the values along the chain. */
    ghost function Contents(): seq<int>
      reads this
    {
      Values(spine)
    }

    /** `__init__`: an empty list, or the given values appended one by one. */
    constructor (values: Option<seq<int>>)
      ensures Valid() && fresh(spine)
      ensures Contents() == if values.Some? then values.value else []
    {
      head := null;
      spine := [];
      new;
      if values.Some? {
        var items := values.value;
        for k := 0 to |items|
          invariant Valid() && fresh(spine)
          invariant Contents() == items[..k]
        {
          Append(items[k]);
        }
      }
    }

    /** `append`: walks to the last node and links a new node holding `value` after it. */
    method Append(value: int)
      requires Valid()
      modifies this, spine
      ensures Valid() && Contents() == old(Contents()) + [value]
      ensures |spine| == |old(spine)| + 1 && spine[..|old(spine)|] == old(spine)
      ensures fresh(spine[|old(spine)|])
    {
      var node := new Node(value);
      if head == null {
        head := node;
        spine := [node];
        return;
      }
      var current := LastNode(head, spine);
      LinkLast(current, node, spine);
      AppendValues(spine, node);
      spine := spine + [node];
    }

    /** `to_list`: the values from the head along the links. */
    method ToList() returns (result: seq<int>)
      requires Valid()
      ensures result == Contents()
    {
      result := [];
      var current := head;
      ghost var i := 0;
      while current != null
        invariant i <= |spine| && current == At(spine, i)
        invariant result == Values(spine[..i])
        decreases |spine| - i
      {
        result := result + [current.value];
        current := current.next;
        i := i + 1;
      }
    }

    /** `reverse`: relinks every node to the one before it; the old last node becomes the head. */
    method Reverse()
      requires Valid()
      modifies this, spine
      ensures Valid() && spine == Seqs.Reverse(old(spine))
      ensures Contents() == Seqs.Reverse(old(Contents()))
    {
      ghost var s := spine;
      head := ReverseChain(head, spine);
      spine := Seqs.Reverse(s);
      ValuesReverse(s);
    }

    /** `sort`: merge sort of the chain; the values come out ascending and are the old values. */
    method Sort()
      requires Valid()
      modifies this, spine
      ensures Valid() && spine == MergeSortNodes(old(spine))
      ensures Sorted(Contents()) && multiset(Contents()) == multiset(old(Contents()))
    {
      ghost var s := spine;
      var sorted;
      ghost var result;
      sorted, result := MergeSort(head, spine);
      head := sorted;
      spine := result;
      MergeSortNodesSorted(s);
      MergeSortValuesPermute(s);
    }

    /** `merge_sorted`: a new list whose chain is the merge of the two chains, made of their
        own nodes; the two inputs' links are reused, so neither input is a valid list after. */
    method MergeSorted(other: LinkedList) returns (merged: LinkedList)
      requires Valid() && other.Valid() && Unique(spine + other.spine)
      modifies spine, other.spine
      ensures fresh(merged) && merged.Valid()
      ensures merged.spine == MergeNodes(spine, other.spine)
      ensures multiset(merged.Contents()) == multiset(Contents()) + multiset(other.Contents())
      ensures Sorted(Contents()) && Sorted(other.Contents()) ==> Sorted(merged.Contents())
    {
      var mergedHead;
      ghost var nodes;
      mergedHead, nodes := Merge(head, spine, other.head, other.spine);
      label Merged:
      merged := new LinkedList(None);
      merged.head := mergedHead;
      merged.spine := nodes;
      assert forall i {:trigger nodes[i]} :: 0 <= i < |nodes| ==> nodes[i].next == old@Merged(nodes[i].next);
      MergeValuesPermute(spine, other.spine);
      if Sorted(Contents()) && Sorted(other.Contents()) {
        MergeNodesSorted(spine, other.spine);
      }
    }
  }

  /** The loop of `reverse`: walks the chain once, linking every node back to the one before
      it, and returns the old last node. */
  method ReverseChain(head: Node?, ghost nodes: seq<Node>) returns (reversed: Node?)
    requires Chain(head, nodes)
    modifies nodes
    ensures Chain(reversed, Seqs.Reverse(nodes))
  {
    var previous: Node? := null;
    var current := head;
    ghost var i := 0;
    while current != null
      invariant i <= |nodes|
      invariant Chain(previous, Seqs.Reverse(nodes[..i])) && Chain(current, nodes[i..])
      decreases |nodes| - i
    {
      assert current == nodes[i];
      previous, current := ReverseRound(previous, current, nodes, i);
      i := i + 1;
    }
    assert nodes[..i] == nodes;
    reversed := previous;
  }

  /** One round of `reverse`: the current node is linked back to the previous one, which
      makes it the head of the reversed part, and the walk moves to its old successor. */
  method ReverseRound(previous: Node?, current: Node, ghost s: seq<Node>, ghost i: nat)
    returns (previous': Node, current': Node?)
    requires i < |s| && Unique(s) && Chain(previous, Seqs.Reverse(s[..i])) && Chain(current, s[i..])
    modifies current
    ensures Chain(previous', Seqs.Reverse(s[..i + 1])) && Chain(current', s[i + 1..])
  {
    ReverseStep(s, i);
    ChainTail(current, s[i..]);
    assert s[i..][1..] == s[i + 1..];
    current' := current.next;
    current.next := previous;
    ChainCons(current, previous, Seqs.Reverse(s[..i]));
    previous' := current;
  }

  /** Appending a node appends its value and keeps the earlier nodes in front. */
  lemma AppendValues(nodes: seq<Node>, n: Node)
    ensures Values(nodes + [n]) == Values(nodes) + [n.value]
    ensures (nodes + [n])[..|nodes|] == nodes
  {
    ValuesAppend(nodes, [n]);
  }

  /** The last step of `append`: links a new node after the last node of a chain. */
  method LinkLast(last: Node, node: Node, ghost nodes: seq<Node>)
    requires nodes != [] && Chain(nodes[0], nodes) && last == Last(nodes)
    requires node.next == null && node !in nodes
    modifies last
    ensures Chain(nodes[0], nodes + [node])
  {
    LastApart(nodes, [], []);
    LinksFront(nodes);
    last.next := node;
    AppendNode(nodes, node);
  }

  /** The walk of `append` along the links from the head to the node without a successor. */
  method LastNode(head: Node, ghost nodes: seq<Node>) returns (last: Node)
    requires Chain(head, nodes)
    ensures nodes != [] && last == Last(nodes)
  {
    last := head;
    ghost var i := 0;
    while last.next != null
      invariant i < |nodes| && last == nodes[i]
      decreases |nodes| - i
    {
      last := last.next;
      i := i + 1;
    }
  }

  /** Linking a fresh node after the last node of a chain gives the longer chain. */
  lemma AppendNode(nodes: seq<Node>, n: Node)
    requires nodes != [] && Unique(nodes) && LinkedUpTo(nodes) && Last(nodes).next == n
    requires n.next == null && n !in nodes
    ensures Chain(nodes[0], nodes + [n])
  {
    LinksSnoc(nodes, n);
    assert multiset(nodes + [n]) == multiset(nodes) + multiset{n};
    LinkedChain(nodes + [n]);
  }

  /** One round of `reverse`: the current node is in neither the reversed part nor the rest,
      and putting it in front of the reversed part reverses one more node. */
  lemma ReverseStep(s: seq<Node>, i: nat)
    requires Unique(s) && i < |s|
    ensures s[i] !in Seqs.Reverse(s[..i]) && s[i] !in s[i + 1..]
    ensures Seqs.Reverse(s[..i + 1]) == [s[i]] + Seqs.Reverse(s[..i])
  {
    assert s == s[..i] + s[i..];
    UniqueParts(s[..i], s[i..]);
    ReverseMultiset(s[..i]);
    assert s[i] in s[i..];
    assert s[i] !in s[..i];
    assert s[i] !in multiset(s[..i]);
    assert s[i] !in multiset(Seqs.Reverse(s[..i]));
    assert s[i..] == [s[i]] + s[i + 1..];
    UniqueParts([s[i]], s[i + 1..]);
    assert s[i] in [s[i]];
    assert s[..i + 1] == s[..i] + [s[i]];
    ReverseSnoc(s[..i], s[i]);
  }
}

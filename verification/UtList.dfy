/** The intrusive circular lists of UT assert (ut_assert/src/utlist.c). */
module UtList {
  import opened Common

  /** A list node.  Heads carry no data; they are part of the list's own allocation. */
  class Node<T> {
    var next: Node<T>
    var prev: Node<T>
    const data: Option<T>
    var freed: bool

    // UtList_NewNode, and a head as UtList_Create initialises it: a ring of its own.
    constructor (data: Option<T>)
      ensures next == this && prev == this && this.data == data && !freed
    {
      this.next, this.prev, this.data, this.freed := this, this, data, false;
    }
  }

  ghost predicate Distinct<T>(r: seq<Node<T>>) {
    forall i, j :: 0 <= i < j < |r| ==> r[i] != r[j]
  }

  ghost function After(r: int, n: int): int {
    if r + 1 == n then 0 else r + 1
  }

  /** The nodes of r, in this order, form a closed ring, and none of them was freed. */
  ghost predicate Ring<T>(r: seq<Node<T>>)
    reads r
  {
    && |r| > 0 && Distinct(r)
    && (forall i :: 0 <= i < |r| ==> r[i].next == r[After(i, |r|)])
    && (forall i :: 0 <= i < |r| ==> r[After(i, |r|)].prev == r[i])
    && (forall i :: 0 <= i < |r| ==> !r[i].freed)
  }

  ghost predicate Disjoint<T>(r: seq<Node<T>>, q: seq<Node<T>>) {
    forall i, j :: 0 <= i < |r| && 0 <= j < |q| ==> r[i] != q[j]
  }

  // The data in a piece of a ring; heads are skipped.
  ghost function Contents<T>(r: seq<Node<T>>): seq<T> {
    if r == [] then []
    else if r[0].data.Some? then [r[0].data.value] + Contents(r[1..]) else Contents(r[1..])
  }

  /** Two disjoint rings become one: the first followed by the second. */
  method Merge<T>(head1: Node<T>, head2: Node<T>, ghost r: seq<Node<T>>, ghost q: seq<Node<T>>)
    requires Ring(r) && Ring(q) && Disjoint(r, q) && r[0] == head1 && q[0] == head2
    modifies head1`prev, head1.prev`next, head2`prev, head2.prev`next
    ensures Ring(r + q)
  {
    var tail1 := head1.prev;
    var tail2 := head2.prev;
    assert tail1 == r[|r| - 1] by { assert r[After(|r| - 1, |r|)].prev == r[|r| - 1]; }
    assert tail2 == q[|q| - 1] by { assert q[After(|q| - 1, |q|)].prev == q[|q| - 1]; }
    tail1.next := head2;
    tail2.next := head1;
    head1.prev := tail2;
    head2.prev := tail1;
    ghost var n := r + q;
    forall i | 0 <= i < |n|
      ensures n[i].next == n[After(i, |n|)] && n[After(i, |n|)].prev == n[i] && !n[i].freed
    {
      if i < |r| {
        assert n[i] == r[i];
        assert i < |r| - 1 ==> n[After(i, |n|)] == r[After(i, |r|)];
      } else {
        assert n[i] == q[i - |r|];
        assert i < |n| - 1 ==> n[After(i, |n|)] == q[After(i - |r|, |q|)];
      }
    }
  }

  // UtList_Insert_Before the head: the new node becomes the last one of the ring.
  method InsertBefore<T>(head: Node<T>, node: Node<T>, ghost r: seq<Node<T>>)
    requires Ring(r) && r[0] == head && node !in r && !node.freed
    modifies head`prev, head.prev`next, node`next, node`prev
    ensures Ring(r + [node])
  {
    node.next := head;
    node.prev := head.prev;
    assert node.prev == r[|r| - 1] by { assert r[After(|r| - 1, |r|)].prev == r[|r| - 1]; }
    node.prev.next := node;
    node.next.prev := node;
  }

  // UtList_Insert_After the head: the new node becomes the first one after it.
  method InsertAfter<T>(head: Node<T>, node: Node<T>, ghost r: seq<Node<T>>)
    requires Ring(r) && r[0] == head && node !in r && !node.freed
    modifies head`next, head.next`prev, node`next, node`prev
    ensures Ring([head, node] + r[1..])
  {
    assert head.next == r[After(0, |r|)];
    node.next := head.next;
    node.prev := head;
    node.prev.next := node;
    node.next.prev := node;
    ghost var n := [head, node] + r[1..];
    forall i | 0 <= i < |n|
      ensures n[i].next == n[After(i, |n|)] && n[After(i, |n|)].prev == n[i] && !n[i].freed
    {
      assert 2 <= i ==> n[i] == r[i - 1];
      assert 2 <= i < |n| - 1 ==> n[After(i, |n|)] == r[After(i - 1, |r|)];
    }
  }

  // What is left of a node that was removed: a freed data node, or a head on its own.
  ghost predicate Gone<T>(n: Node<T>)
    reads n
  {
    if n.data.Some? then n.freed else !n.freed && n.next == n && n.prev == n
  }

  // A ring may be listed from any of its nodes.
  lemma RingRotates<T>(r: seq<Node<T>>)
    requires Ring(r)
    ensures Ring(r[1..] + [r[0]])
  {
    var q := r[1..] + [r[0]];
    forall i | 0 <= i < |q|
      ensures q[i].next == q[After(i, |q|)] && q[After(i, |q|)].prev == q[i] && !q[i].freed
    {
      var k := After(i, |r|);
      assert q[i] == r[k] && q[After(i, |q|)] == r[After(k, |r|)];
    }
  }

  /** The node after the first one leaves the ring and becomes a ring of its own, which it may have been
      before. */
  method Extract<T>(node: Node<T>, ghost r: seq<Node<T>>)
    requires Ring(r) && r[After(0, |r|)] == node
    modifies node.prev`next, node`next, node`prev, node.next`prev
    ensures |r| > 1 ==> Ring([r[0]] + r[2..])
    ensures node.next == node && node.prev == node && !node.freed
  {
    assert r[After(0, |r|)].prev == r[0];
    node.next.prev := node.prev;
    node.prev.next := node.next;
    node.next := node;
    node.prev := node;
  }

  // free()
  method Free<T>(node: Node<T>)
    requires !node.freed
    modifies node`freed
    ensures node.freed
  {
    node.freed := true;
  }

  // UtList_DeleteNode: a head is only unlinked.
  method DeleteNode<T>(node: Node<T>, ghost r: seq<Node<T>>)
    requires Ring(r) && r[After(0, |r|)] == node
    modifies node.prev`next, node`next, node`prev, node`freed, node.next`prev
    ensures (|r| > 1 ==> Ring([r[0]] + r[2..])) && Gone(node)
  {
    Extract(node, r);
    if node.data.Some? {
      Free(node);
    }
  }

  /** Everything but the head leaves the ring: data nodes are freed, heads among them are not. */
  method Reset<T>(head: Node<T>, ghost r: seq<Node<T>>)
    requires Ring(r) && r[0] == head
    modifies r
    ensures head.next == head && head.prev == head && !head.freed
    ensures forall i :: 1 <= i < |r| ==> Gone(r[i])
  {
    hide Ring;
    ghost var k := 1;
    RingDistinct(r);
    assert [r[0]] + r[1..] == r;
    while head.next != head
      invariant 1 <= k <= |r| && Ring([head] + r[k..])
      invariant forall i :: 1 <= i < k ==> Gone(r[i])
      decreases |r| - k
    {
      assert forall i :: 1 <= i < k ==> r[i] !in [head] + r[k..];
      DeleteFirst(head, r, k);
      k := k + 1;
    }
    HeadAlone(head, r, k);
  }

  lemma RingDistinct<T>(r: seq<Node<T>>)
    requires Ring(r)
    ensures r != [] && Distinct(r)
  {
  }

  lemma HeadAlone<T>(head: Node<T>, r: seq<Node<T>>, k: nat)
    requires k <= |r| && Ring([head] + r[k..]) && head.next == head
    ensures k == |r| && head.prev == head && !head.freed
  {
    var q := [head] + r[k..];
    assert q[0].next == q[After(0, |q|)] && q[After(0, |q|)].prev == q[0];
  }

  // One round of the loop of UtList_Reset, with the nodes up to k gone already.
  method DeleteFirst<T>(head: Node<T>, ghost r: seq<Node<T>>, ghost k: nat)
    requires 1 <= k <= |r| && Distinct(r) && r[0] == head && head.next != head && Ring([head] + r[k..])
    modifies [head] + r[k..]
    ensures k < |r| && Ring([head] + r[k + 1..]) && Gone(r[k])
  {
    ghost var cur := [head] + r[k..];
    RingOfOne(cur);
    assert head.next == cur[After(0, |cur|)] && cur[1] == r[k];
    assert cur[After(0, |cur|)].prev == cur[0] && cur[1].next == cur[After(1, |cur|)];
    DeleteNode(head.next, cur);
    assert [cur[0]] + cur[2..] == [head] + r[k + 1..];
  }

  lemma RingOfOne<T>(r: seq<Node<T>>)
    requires Ring(r) && r[0].next != r[0]
    ensures |r| > 1
  {
    assert r[0].next == r[After(0, |r|)];
  }

  // ---------------------------------------------------------------------------------
  // UtList_Destroy
  // ---------------------------------------------------------------------------------

  /** How the heads are spread over the rings: ring k starts with head first[k], and head i is in ring at[i],
      which starts with head i or with an earlier one. */
  ghost predicate Forest<T>(heads: seq<Node<T>>, rings: seq<seq<Node<T>>>, first: seq<nat>, at: seq<nat>) {
    && |first| == |rings| && |at| == |heads| && Distinct(heads)
    && (forall k :: 0 <= k < |rings| ==> rings[k] != [] && first[k] < |heads| && rings[k][0] == heads[first[k]])
    && (forall k, j :: 0 <= k < |rings| && 0 <= j < |rings| && k != j ==> Disjoint(rings[k], rings[j]))
    && (forall i :: 0 <= i < |heads| ==>
          heads[i].data.None? && at[i] < |rings| && heads[i] in rings[at[i]] && first[at[i]] <= i)
  }

  ghost predicate AllGone<T>(r: seq<Node<T>>)
    reads r
  {
    forall j :: 0 <= j < |r| ==> Gone(r[j])
  }

  ghost function Nodes<T>(rings: seq<seq<Node<T>>>): set<Node<T>> {
    set k, i | 0 <= k < |rings| && 0 <= i < |rings[k]| :: rings[k][i]
  }

  // The rings that start with one of the first n heads are gone, the others are intact.
  ghost predicate Progress<T>(rings: seq<seq<Node<T>>>, first: seq<nat>, n: nat)
    requires |first| == |rings|
    reads Nodes(rings)
  {
    forall k :: 0 <= k < |rings| ==> if first[k] < n then AllGone(rings[k]) else Ring(rings[k])
  }

  method DestroyOne<T>(heads: seq<Node<T>>, i: nat, ghost rings: seq<seq<Node<T>>>,
                       ghost first: seq<nat>, ghost at: seq<nat>)
    requires Forest(heads, rings, first, at) && i < |heads| && Progress(rings, first, i)
    modifies Nodes(rings)
    ensures Progress(rings, first, i + 1)
  {
    ghost var k := at[i];
    ghost var r := if first[k] == i then rings[k] else [heads[i]];
    assert first[k] < i ==> AllGone(rings[k]);
    assert first[k] < i ==> Gone(heads[i]);
    assert Ring(r);
    Reset(heads[i], r);
    forall j | 0 <= j < |rings| ensures if first[j] < i + 1 then AllGone(rings[j]) else Ring(rings[j]) {
      if j != k {
        assert Disjoint(rings[j], rings[k]);
        assert first[j] != i;
      }
    }
  }

  /** Destroying the list frees every data node of every ring, once, and no head; it does so whether or not
      rings were merged before. */
  method Destroy<T>(heads: seq<Node<T>>, ghost rings: seq<seq<Node<T>>>, ghost first: seq<nat>, ghost at: seq<nat>)
    requires Forest(heads, rings, first, at)
    requires forall k :: 0 <= k < |rings| ==> Ring(rings[k])
    modifies Nodes(rings)
    ensures forall k :: 0 <= k < |rings| ==> AllGone(rings[k])
  {
    var i := 0;
    while i < |heads|
      invariant 0 <= i <= |heads| && Progress(rings, first, i)
    {
      DestroyOne(heads, i, rings, first, at);
      i := i + 1;
    }
  }
}

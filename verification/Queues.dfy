/** The circular doubly linked lists that hold a block's segments: the queue macros as they assign `next` and `prev`,
    and a list with its counter, walked and changed node by node. */
module Queues {
  import opened Sequences

  /** What a link is embedded in: the control block, as the head of one of its lists, or a segment. */
  datatype Owner<T> = Head | Segment(seg: T)

  class Node<T> {
    var next: Node?<T>
    var prev: Node?<T>
    var owner: Owner<T>

    /** IQUEUE_INIT. */
    constructor (owner: Owner<T>)
      ensures next == this && prev == this && this.owner == owner
    {
      this.owner := owner;
      next := this;
      prev := this;
    }
  }

  ghost predicate Distinct<A>(r: seq<A>) {
    forall i, j :: 0 <= i < j < |r| ==> r[i] != r[j]
  }

  ghost predicate Linked<T>(a: Node<T>, b: Node<T>)
    reads a, b
  {
    a.next == b && b.prev == a
  }

  /** `r` is a whole ring: `next` leads from each node to the one after it and back to the first, and `prev`
      is its inverse. */
  ghost predicate Ring<T>(r: seq<Node<T>>)
    reads r
  {
    && r != [] && Distinct(r)
    && (forall i :: 0 <= i < |r| - 1 ==> Linked(r[i], r[i + 1]))
    && Linked(r[|r| - 1], r[0])
  }

  lemma Apart<T>(r: seq<Node<T>>)
    requires Ring(r)
    ensures Distinct(r)
  {
  }

  /** IQUEUE_ADD: puts `node` after `at`, the k-th node of the ring `r`. */
  method Add<T>(node: Node<T>, at: Node<T>, ghost r: seq<Node<T>>, ghost k: nat)
    requires Ring(r) && k < |r| && r[k] == at && node !in r
    modifies node`next, node`prev, r`next, r`prev
    ensures Ring(With(r, k + 1, node))
  {
    assert k + 1 < |r| ==> Linked(r[k], r[k + 1]);
    node.prev := at;
    node.next := at.next;
    at.next.prev := node;
    at.next := node;
    ghost var r' := With(r, k + 1, node);
    assert forall i :: 0 <= i < |r| - 1 && i != k ==> Linked(r[i], r[i + 1]);
    assert Distinct(r');
    assert Linked(r'[k], r'[k + 1]);
    forall i | 0 <= i < |r'| - 1 ensures Linked(r'[i], r'[i + 1]) {
      if i > k + 1 {
        assert Linked(r[i - 1], r[i]);
      }
    }
  }

  /** IQUEUE_ADD_TAIL: puts `node` before the head of the ring `r`, which makes it the last. */
  method AddTail<T>(node: Node<T>, head: Node<T>, ghost r: seq<Node<T>>)
    requires Ring(r) && r[0] == head && node !in r
    modifies node`next, node`prev, r`next, r`prev
    ensures Ring(r + [node])
  {
    ghost var last := r[|r| - 1];
    node.prev := head.prev;
    node.next := head;
    head.prev.next := node;
    head.prev := node;
    ghost var r' := r + [node];
    assert Linked(last, node) && Linked(node, head);
    forall i | 0 <= i < |r'| - 1 ensures Linked(r'[i], r'[i + 1]) {
    }
  }

  /** IQUEUE_DEL: unlinks `entry`, the k-th node of the ring `r`; the head stays. */
  method Del<T>(entry: Node<T>, ghost r: seq<Node<T>>, ghost k: nat)
    requires Ring(r) && 0 < k < |r| && r[k] == entry
    modifies r`next, r`prev
    ensures Ring(Without(r, k)) && entry.next == null && entry.prev == null
  {
    assert Linked(r[k - 1], r[k]) && (k + 1 < |r| ==> Linked(r[k], r[k + 1]));
    entry.next.prev := entry.prev;
    entry.prev.next := entry.next;
    entry.next := null;
    entry.prev := null;
    ghost var r' := Without(r, k);
    forall i | 0 <= i < |r'| - 1 ensures Linked(r'[i], r'[i + 1]) {
      if i >= k {
        assert r'[i] == r[i + 1] && r'[i + 1] == r[i + 2];
      }
    }
  }

  /** IQUEUE_IS_EMPTY: the head is its own successor exactly when it is alone. */
  method IsEmpty<T>(head: Node<T>, ghost r: seq<Node<T>>) returns (empty: bool)
    requires Ring(r) && r[0] == head
    ensures empty <==> |r| == 1
  {
    assert |r| > 1 ==> Linked(r[0], r[1]);
    empty := head == head.next;
  }

  // ---------------------------------------------------------------- a list

  /** A list head with the counter that goes with it. `value` is what the segments hold, in order; `ring[k]` is the
      node of the k-th segment, and the head when k is 0. */
  class Queue<T> {
    const head: Node<T>
    var count: int
    ghost var ring: seq<Node<T>>
    ghost var value: seq<T>
    ghost var Repr: set<object>

    ghost predicate Valid()
      reads this, Repr
    {
      this in Repr && head in Repr && count == |value| == |ring| - 1 && ring[0] == head && Closed()
    }

    /** The ring is of nodes of its own: the head, and segments that hold `value`. */
    ghost predicate Closed()
      reads this, Repr
    {
      && (forall i :: 0 <= i < |ring| ==> ring[i] in Repr && this as object != ring[i])
      && Ring(ring) && |ring| == |value| + 1 && ring[0].owner.Head?
      && (forall k :: 1 <= k < |ring| ==> ring[k].owner == Segment(value[k - 1]))
    }

    /** `p` is the node of the k-th segment, or the head after the last one. */
    ghost predicate At(p: Node<T>, k: nat)
      reads this
    {
      1 <= k <= |ring| && p == if k < |ring| then ring[k] else head
    }

    constructor ()
      ensures Valid() && value == [] && fresh(Repr)
    {
      var h := new Node<T>(Head);
      head := h;
      count := 0;
      ring := [h];
      value := [];
      Repr := {this, h};
    }

    /** Makes `node`, which is on no list, the last of this one. */
    method Push(node: Node<T>)
      requires Valid() && node !in Repr && node.owner.Segment?
      modifies Repr, node`next, node`prev
      ensures Valid() && value == old(value) + [node.owner.seg] && ring == old(ring) + [node]
      ensures Repr == old(Repr) + {node} && node.owner == old(node.owner)
    {
      AddTail(node, head, ring);
      ring := ring + [node];
      value := value + [node.owner.seg];
      count := count + 1;
      Repr := Repr + {node};
    }

    /** Puts `node`, which is on no list, after `p`, the node of the k-th segment. */
    method InsertAfter(p: Node<T>, node: Node<T>, ghost k: nat)
      requires Valid() && node !in Repr && node.owner.Segment? && k < |ring| && p == ring[k]
      modifies Repr, node`next, node`prev
      ensures Valid() && value == With(old(value), k, node.owner.seg) && ring == With(old(ring), k + 1, node)
      ensures Repr == old(Repr) + {node} && node.owner == old(node.owner)
    {
      hide Ring;
      Add(node, p, ring, k);
      value := With(value, k, node.owner.seg);
      ring := With(ring, k + 1, node);
      count := count + 1;
      Repr := Repr + {node};
    }

    /** Unlinks `node`, that of the k-th segment. */
    method Unlink(node: Node<T>, ghost k: nat)
      requires Valid() && 1 <= k < |ring| && node == ring[k]
      modifies Repr
      ensures Valid() && value == Without(old(value), k - 1) && ring == Without(old(ring), k)
      ensures node in old(Repr) && Repr == old(Repr) - {node}
      ensures node.owner == old(node.owner) == Segment(old(value)[k - 1])
    {
      hide Ring;
      Apart(ring);
      Del(node, ring, k);
      value := Without(value, k - 1);
      ring := Without(ring, k);
      count := count - 1;
      Repr := Repr - {node};
    }

    /** The first node, or the head of an empty list. */
    method First() returns (p: Node<T>)
      requires Valid()
      ensures At(p, 1)
    {
      assert |ring| > 1 ==> Linked(ring[0], ring[1]);
      p := head.next;
    }

    /** The last node, or the head of an empty list. */
    method Last() returns (p: Node<T>)
      requires Valid()
      ensures p == ring[|ring| - 1]
    {
      p := head.prev;
    }

    method Next(p: Node<T>, ghost k: nat) returns (q: Node<T>)
      requires Valid() && k < |ring| && At(p, k)
      ensures At(q, k + 1)
    {
      assert k + 1 < |ring| ==> Linked(ring[k], ring[k + 1]);
      q := p.next;
    }

    method Prev(p: Node<T>, ghost k: nat) returns (q: Node<T>)
      requires Valid() && 0 < k < |ring| && p == ring[k]
      ensures q == ring[k - 1]
    {
      assert Linked(ring[k - 1], ring[k]);
      q := p.prev;
    }

    /** Following `next` goes round the ring, following `prev` goes round it the other way, and only its first node is
        the head. */
    ghost predicate Circular()
      reads this, ring
    {
      && Distinct(ring) && |ring| == count + 1 && ring != [] && ring[0] == head
      && (forall k :: 0 <= k < |ring| ==>
            && ring[k].next == (if k + 1 < |ring| then ring[k + 1] else ring[0])
            && ring[k].prev == (if k > 0 then ring[k - 1] else ring[|ring| - 1])
            && (ring[k].owner.Head? <==> k == 0))
    }

    lemma IsCircular()
      requires Valid()
      ensures Circular()
    {
      forall k | 0 <= k < |ring|
        ensures ring[k].next == if k + 1 < |ring| then ring[k + 1] else ring[0]
        ensures ring[k].prev == if k > 0 then ring[k - 1] else ring[|ring| - 1]
      {
        assert k + 1 < |ring| ==> Linked(ring[k], ring[k + 1]);
        assert k > 0 ==> Linked(ring[k - 1], ring[k]);
      }
    }

    /** A walk is back at the head exactly when it has passed the last segment. */
    lemma Ends(p: Node<T>, k: nat)
      requires Valid() && At(p, k)
      ensures p == head <==> k == |ring|
    {
    }

    /** No segment's node is the head. */
    lemma HeadOnce(k: nat)
      requires Valid() && k < |ring|
      ensures ring[k] == head <==> k == 0
    {
    }

    /** What the k-th segment holds. */
    method Get(p: Node<T>, ghost k: nat) returns (seg: T)
      requires Valid() && k < |ring| && At(p, k)
      ensures seg == value[k - 1]
    {
      seg := p.owner.seg;
    }

    /** Assigns to the fields of the k-th segment. */
    method Set(p: Node<T>, seg: T, ghost k: nat)
      requires Valid() && k < |ring| && At(p, k)
      modifies Repr
      ensures Valid() && value == old(value)[k - 1 := seg] && Repr == old(Repr) && ring == old(ring)
    {
      p.owner := Segment(seg);
      value := value[k - 1 := seg];
      assert forall i :: 0 <= i < |ring| && i != k ==> ring[i] != p;
    }

    method Empty() returns (empty: bool)
      requires Valid()
      ensures empty <==> value == []
    {
      empty := IsEmpty(head, ring);
    }
  }

  /** Moves the first segment of `from` to the end of `to`. */
  method Transfer<T>(from: Queue<T>, to: Queue<T>) returns (p: Node<T>)
    requires from.Valid() && to.Valid() && from.Repr !! to.Repr && from.value != []
    modifies from.Repr, to.Repr
    ensures from.Valid() && to.Valid() && from.Repr !! to.Repr && from.Repr + to.Repr == old(from.Repr + to.Repr)
    ensures from.value == old(from.value)[1..] && to.value == old(to.value) + [old(from.value)[0]]
    ensures to.At(p, |to.value|)
  {
    hide Queue.Closed;
    p := from.First();
    from.Unlink(p, 1);
    to.Push(p);
  }
}

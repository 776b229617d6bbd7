/**
 * The intrusive recency list: `head` is the most recently used node, `tail` the least.
 * The ghost sequence `Nodes` is the list's order from head to tail; `Valid()` ties every
 * node's links to its position in that order.
 */
module DoublyLinkedLists {
  import opened CacheNodes
  import opened Sequences

  /** The keys of `nodes`, in order. */
  function NodeKeys<K, V>(nodes: seq<CacheNode<K, V>>): (keys: seq<K>)
    ensures |keys| == |nodes|
    ensures forall i :: 0 <= i < |nodes| ==> keys[i] == nodes[i].key
  {
    seq(|nodes|, i requires 0 <= i < |nodes| => nodes[i].key)
  }

  class DoublyLinkedList<K, V> {
    var head: CacheNode?<K, V>
    var tail: CacheNode?<K, V>
    ghost var Nodes: seq<CacheNode<K, V>>

    /** Well-formedness: head and tail are the ends, and every link points at the positional neighbour. */
    ghost predicate Valid()
      reads this, Nodes
    {
      && Distinct(Nodes)
      && (Nodes == [] ==> head == null && tail == null)
      && (Nodes != [] ==> head == Nodes[0] && tail == Nodes[|Nodes| - 1])
      && (forall i {:trigger Nodes[i].prev} :: 0 <= i < |Nodes| ==>
            Nodes[i].prev == if i == 0 then null else Nodes[i - 1])
      && (forall i {:trigger Nodes[i].next} :: 0 <= i < |Nodes| ==>
            Nodes[i].next == if i == |Nodes| - 1 then null else Nodes[i + 1])
    }

    /** A new list has no head and no tail. */
    constructor ()
      ensures Valid() && Nodes == []
      ensures head == null && tail == null
    {
      head := null;
      tail := null;
      Nodes := [];
    }

    /**
     * Links `node` in front of the head. The node's own previous link is never written, and on an
     * empty list neither is its next link, so the list is well formed afterwards exactly when the
     * node arrives unlinked.
     */
    method AddAsHead(node: CacheNode<K, V>)
      requires Valid()
      requires node !in Nodes
      modifies this, node, Nodes
      ensures Nodes == [node] + old(Nodes)
      ensures head == node
      ensures tail == if old(Nodes) == [] then node else old(tail)
      ensures node.prev == old(node.prev)
      ensures node.next == if old(Nodes) == [] then old(node.next) else old(head)
      ensures Valid() <==> node.prev == null && (old(Nodes) == [] ==> node.next == null)
      ensures old(head) != null ==> old(head).prev == node
      ensures forall i :: 0 <= i < |old(Nodes)| ==> old(Nodes)[i].next == old(Nodes[i].next)
      ensures forall i :: 1 <= i < |old(Nodes)| ==> old(Nodes)[i].prev == old(Nodes[i].prev)
    {
      if head == null {
        head := node;
        tail := node;
        Nodes := [node];
      } else {
        ghost var s := Nodes;
        head.SetPrevNode(node);
        node.SetNextNode(head);
        head := node;
        Nodes := [node] + s;
        if node.prev == null {
          DistinctCons(node, s);
          forall k | 0 <= k < |Nodes|
            ensures Nodes[k].prev == if k == 0 then null else Nodes[k - 1]
          {
            if k >= 2 {
              assert Nodes[k] == s[k - 1];
              DistinctAt(s, k - 1, 0);
            }
          }
          forall k | 0 <= k < |Nodes|
            ensures Nodes[k].next == if k == |Nodes| - 1 then null else Nodes[k + 1]
          {
            if k >= 1 { assert Nodes[k] == s[k - 1]; }
          }
        }
      }
    }

    /**
     * Makes `node` the head. A node with no previous link is taken to be the head already and
     * nothing happens; a tail node's predecessor becomes the tail; an interior node's neighbours
     * are joined to each other.
     */
    method MoveNodeToHeadOfList(node: CacheNode<K, V>)
      requires Valid()
      requires node in Nodes
      modifies this, Nodes
      ensures Valid()
      ensures Nodes == MoveToFront(old(Nodes), IndexOf(old(Nodes), node))
      ensures old(node.prev) == null ==> Nodes == old(Nodes) && head == old(head) && tail == old(tail)
      ensures old(node.prev) != null && old(node.next) == null ==>
                tail == old(node.prev) && tail.next == null
      ensures old(node.prev) != null && old(node.next) != null ==>
                old(node.prev).next == old(node.next) && old(node.next).prev == old(node.prev)
    {
      ghost var s := Nodes;
      ghost var i := IndexOf(s, node);
      if node.next == null && node.prev != null {
        // the tail of a list of two or more nodes
        DetachTail(node, i);
        LinkDetachedAsHead(node);
      } else if node.next != null && node.prev != null {
        // an interior node
        DetachInterior(node, i);
        LinkDetachedAsHead(node);
        assert Nodes[i] == s[i - 1] && Nodes[i + 1] == s[i + 1];
      } else {
        // already the head
        MoveFrontToFront(s);
      }
      assert Nodes == MoveToFront(s, i);
    }

    /** First half of the tail branch: the predecessor becomes the tail and loses its next link. */
    method DetachTail(node: CacheNode<K, V>, ghost i: nat)
      requires Valid()
      requires i < |Nodes| && Nodes[i] == node
      requires node.next == null && node.prev != null
      modifies this, Nodes
      ensures Valid() && |old(Nodes)| > 1
      ensures Nodes == old(Nodes)[..i] && i == |old(Nodes)| - 1
      ensures tail == old(node.prev) && head == old(head)
      ensures node.prev == old(node.prev) && node.next == null && node !in Nodes
    {
      ghost var s := Nodes;
      assert i == |s| - 1 && i > 0 && node.prev == s[i - 1];
      node.prev.SetNextNode(null);
      tail := node.prev;
      Nodes := s[..i];
      DistinctRemove(s, i);
      assert s[..i] + s[i + 1..] == Nodes;
      forall k | 0 <= k < |Nodes|
        ensures Nodes[k].next == if k == |Nodes| - 1 then null else Nodes[k + 1]
      {
        if k < |Nodes| - 1 { DistinctAt(s, k, i - 1); }
      }
    }

    /** First half of the interior branch: the neighbours of `node` are joined to each other. */
    method DetachInterior(node: CacheNode<K, V>, ghost i: nat)
      requires Valid()
      requires i < |Nodes| && Nodes[i] == node
      requires node.next != null && node.prev != null
      modifies this, Nodes
      ensures Valid() && 0 < i < |old(Nodes)| - 1
      ensures Nodes == old(Nodes)[..i] + old(Nodes)[i + 1..]
      ensures old(node.prev).next == old(node.next) && old(node.next).prev == old(node.prev)
      ensures head == old(head) && tail == old(tail) && node !in Nodes
    {
      ghost var s := Nodes;
      assert 0 < i < |s| - 1 && node.prev == s[i - 1] && node.next == s[i + 1];
      forall k | 0 <= k < |s| && k != i - 1 ensures s[k] != s[i - 1] { DistinctAt(s, k, i - 1); }
      forall k | 0 <= k < |s| && k != i + 1 ensures s[k] != s[i + 1] { DistinctAt(s, k, i + 1); }
      node.prev.SetNextNode(node.next);
      node.next.SetPrevNode(node.prev);
      Nodes := s[..i] + s[i + 1..];
      DistinctRemove(s, i);
      forall k | 0 <= k < |Nodes|
        ensures Nodes[k].prev == if k == 0 then null else Nodes[k - 1]
      {
        if k < i {
          assert Nodes[k] == s[k];
        } else if k > i {
          assert Nodes[k] == s[k + 1] && Nodes[k - 1] == s[k];
        } else {
          assert Nodes[k] == s[i + 1] && Nodes[k - 1] == s[i - 1];
        }
      }
      forall k | 0 <= k < |Nodes|
        ensures Nodes[k].next == if k == |Nodes| - 1 then null else Nodes[k + 1]
      {
        if k < i - 1 {
          assert Nodes[k] == s[k] && Nodes[k + 1] == s[k + 1];
        } else if k == i - 1 {
          assert Nodes[k] == s[i - 1] && Nodes[k + 1] == s[i + 1];
        } else {
          assert Nodes[k] == s[k + 1];
        }
      }
    }

    /** Second half of both moving branches: a detached node is linked in front of the head. */
    method LinkDetachedAsHead(node: CacheNode<K, V>)
      requires Valid() && Nodes != []
      requires node !in Nodes
      modifies this, node, Nodes
      ensures Valid()
      ensures Nodes == [node] + old(Nodes)
      ensures tail == old(tail)
    {
      ghost var s := Nodes;
      head.SetPrevNode(node);
      node.SetPrevNode(null);
      node.SetNextNode(head);
      head := node;
      Nodes := [node] + s;
      DistinctCons(node, s);
      forall k | 0 <= k < |Nodes|
        ensures Nodes[k].prev == if k == 0 then null else Nodes[k - 1]
      {
        if k >= 2 {
          assert Nodes[k] == s[k - 1];
          DistinctAt(s, k - 1, 0);
        }
      }
      forall k | 0 <= k < |Nodes|
        ensures Nodes[k].next == if k == |Nodes| - 1 then null else Nodes[k + 1]
      {
        if k >= 1 { assert Nodes[k] == s[k - 1]; }
      }
    }

    /**
     * Unlinks and returns the tail, or returns null on an empty list. Only when the tail was the
     * sole node are the evicted node's links cleared; otherwise its previous link still points at
     * the new tail.
     */
    method EvictLRUNode() returns (evicted: CacheNode?<K, V>)
      requires Valid()
      modifies this, Nodes
      ensures Valid()
      ensures old(Nodes) == [] ==> evicted == null && Nodes == []
      ensures old(Nodes) != [] ==>
                evicted == old(tail) && Nodes == old(Nodes)[..|old(Nodes)| - 1]
      ensures |old(Nodes)| == 1 ==> evicted != null && evicted.prev == null && evicted.next == null
      ensures |old(Nodes)| > 1 ==> evicted != null && evicted.prev == tail && evicted.next == null
    {
      ghost var s := Nodes;
      if tail != null {
        evicted := tail;
        if tail.prev != null {
          // head is not also the tail
          assert |s| > 1 && tail.prev == s[|s| - 2];
          tail.prev.SetNextNode(null);
          tail := tail.prev;
          Nodes := s[..|s| - 1];
          DistinctPrefix(s, |s| - 1);
          forall k | 0 <= k < |Nodes|
            ensures Nodes[k].next == if k == |Nodes| - 1 then null else Nodes[k + 1]
          {
            assert Nodes[k] == s[k];
            if k < |Nodes| - 1 { DistinctAt(s, k, |s| - 2); }
          }
          return;
        }
        // head is also the tail
        tail := null;
        head := null;
        evicted.SetPrevNode(null);
        evicted.SetNextNode(null);
        Nodes := [];
        return;
      }
      return null;
    }
  }

  /** Well-formedness in the source's own terms: the ends are open and every link is answered by its partner. */
  lemma ValidLinksReciprocal<K, V>(list: DoublyLinkedList<K, V>)
    requires list.Valid()
    ensures list.head != null ==> list.head.prev == null
    ensures list.tail != null ==> list.tail.next == null
    ensures forall x :: x in list.Nodes && x.next != null ==> x.next.prev == x
    ensures forall x :: x in list.Nodes && x.prev != null ==> x.prev.next == x
  {
    forall x | x in list.Nodes
      ensures x.next != null ==> x.next.prev == x
      ensures x.prev != null ==> x.prev.next == x
    {
      var i :| 0 <= i < |list.Nodes| && list.Nodes[i] == x;
    }
  }
}

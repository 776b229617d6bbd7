/** One cache entry: an immutable key and value and two mutable links into the recency list. */
module CacheNodes {

  class CacheNode<K, V> {
    /** Set once by the constructor; there is no setter. */
    const key: K
    const value: V

    /** The neighbour towards the head (more recently used), or null at the head. */
    var prev: CacheNode?<K, V>
    /** The neighbour towards the tail (less recently used), or null at the tail. */
    var next: CacheNode?<K, V>

    /** A new node is unlinked. */
    constructor (key: K, value: V)
      ensures this.key == key && this.value == value
      ensures prev == null && next == null
    {
      this.key := key;
      this.value := value;
      prev := null;
      next := null;
    }

    /** The `PrevNode` setter: only the previous link changes. */
    method SetPrevNode(node: CacheNode?<K, V>)
      modifies this
      ensures prev == node
      ensures next == old(next)
    {
      prev := node;
    }

    /** The `NextNode` setter: only the next link changes. */
    method SetNextNode(node: CacheNode?<K, V>)
      modifies this
      ensures next == node
      ensures prev == old(prev)
    {
      next := node;
    }
  }
}

/**
 * The cache: a dictionary from keys to nodes, the recency list that orders the same nodes, and a
 * capacity. The source keeps these three in static fields, so every instance shares them; here
 * they are the fields of one cache object.
 */
module LruCaches {
  import opened Wrappers
  import opened Sequences
  import opened CacheNodes
  import opened DoublyLinkedLists
  import opened LruSpec

  /**
   * The exceptions the cache throws. Their messages are left out, except that a null-argument
   * error names the argument that was null.
   */
  datatype CacheError =
    | ArgumentException
    | ArgumentNullException(argument: string)
    | KeyNotFoundException
    | UnauthorizedAccessException(reportedEvictions: int)

  /** The capacity a reset returns to. */
  const DefaultCapacity := 100

  /** The entries held by a chain of nodes, in the same order. */
  function EntriesOf<K, V>(nodes: seq<CacheNode<K, V>>): (s: seq<Entry<K, V>>)
    ensures |s| == |nodes|
    ensures forall i :: 0 <= i < |nodes| ==> s[i] == Entry(nodes[i].key, nodes[i].value)
  {
    seq(|nodes|, i requires 0 <= i < |nodes| => Entry(nodes[i].key, nodes[i].value))
  }

  /** The list's keys, read from its nodes, are the keys of the entries the nodes hold. */
  lemma NodeKeysAreKeys<K, V>(nodes: seq<CacheNode<K, V>>)
    ensures NodeKeys(nodes) == Keys(EntriesOf(nodes))
  {
  }

  lemma EntriesOfPrefix<K, V>(nodes: seq<CacheNode<K, V>>, m: nat)
    requires m <= |nodes|
    ensures EntriesOf(nodes[..m]) == EntriesOf(nodes)[..m]
  {
  }

  lemma EntriesOfCons<K, V>(node: CacheNode<K, V>, nodes: seq<CacheNode<K, V>>)
    ensures EntriesOf([node] + nodes) == [Entry(node.key, node.value)] + EntriesOf(nodes)
  {
  }

  /** Evicting from the tail until at most `capacity` nodes remain leaves the entries `Shrink` keeps. */
  lemma EntriesOfShrink<K, V>(nodes: seq<CacheNode<K, V>>, m: nat, capacity: nat)
    requires m <= |nodes| && m <= capacity && (m == |nodes| || m == capacity)
    ensures EntriesOf(nodes[..m]) == Shrink(EntriesOf(nodes), capacity)
  {
    EntriesOfPrefix(nodes, m);
    assert nodes[..|nodes|] == nodes;
  }

  lemma EntriesOfMoveToFront<K, V>(nodes: seq<CacheNode<K, V>>, i: nat)
    requires i < |nodes|
    ensures EntriesOf(MoveToFront(nodes, i)) == MoveToFront(EntriesOf(nodes), i)
  {
  }

  /**
   * The dictionary a chain of nodes calls for: each node under its own key, the node nearer the
   * front winning when two share a key.
   */
  ghost function NodeMap<K, V>(nodes: seq<CacheNode<K, V>>): map<K, CacheNode<K, V>> {
    if nodes == [] then map[] else NodeMap(nodes[1..])[nodes[0].key := nodes[0]]
  }

  /** A key is in the node dictionary exactly when the entries hold it, and it maps to the node the entries find first. */
  lemma {:induction false} NodeMapFind<K, V>(nodes: seq<CacheNode<K, V>>, k: K)
    ensures k in NodeMap(nodes) <==> Find(EntriesOf(nodes), k).Some?
    ensures k in NodeMap(nodes) ==> NodeMap(nodes)[k] == nodes[Find(EntriesOf(nodes), k).value]
  {
    if nodes != [] {
      NodeMapFind(nodes[1..], k);
      assert EntriesOf(nodes)[1..] == EntriesOf(nodes[1..]);
    }
  }

  /** The node dictionary has one entry per node exactly when no two nodes share a key. */
  lemma {:induction false} NodeMapSize<K, V>(nodes: seq<CacheNode<K, V>>)
    ensures |NodeMap(nodes)| <= |nodes|
    ensures |NodeMap(nodes)| == |nodes| <==> UniqueKeys(EntriesOf(nodes))
  {
    if nodes != [] {
      var t, s := nodes[1..], EntriesOf(nodes);
      NodeMapSize(t);
      NodeMapFind(t, nodes[0].key);
      assert EntriesOf(t) == s[1..];
      if UniqueKeys(s) {
        forall a | 0 <= a < |t| ensures Keys(s[1..])[a] != nodes[0].key {
          assert s[1..][a] == s[a + 1];
        }
      }
      if |NodeMap(nodes)| == |nodes| {
        assert nodes[0].key !in NodeMap(t);
        forall i, j | 0 <= i < j < |s| ensures s[i].key != s[j].key {
          if i == 0 {
            assert Keys(s[1..])[j - 1] == s[j].key;
          } else {
            assert s[1..][i - 1] == s[i] && s[1..][j - 1] == s[j];
          }
        }
      }
    }
  }

  /** Without shared keys, every node is in the node dictionary under its own key. */
  lemma NodeMapAt<K, V>(nodes: seq<CacheNode<K, V>>, i: nat)
    requires UniqueKeys(EntriesOf(nodes)) && i < |nodes|
    ensures nodes[i].key in NodeMap(nodes) && NodeMap(nodes)[nodes[i].key] == nodes[i]
  {
    NodeMapFind(nodes, nodes[i].key);
    FindAt(EntriesOf(nodes), i);
  }

  /** Two chains without shared keys that hold the same nodes call for the same dictionary. */
  lemma NodeMapSameNodes<K, V>(a: seq<CacheNode<K, V>>, b: seq<CacheNode<K, V>>)
    requires UniqueKeys(EntriesOf(a)) && UniqueKeys(EntriesOf(b))
    requires forall n :: n in a <==> n in b
    ensures NodeMap(a) == NodeMap(b)
  {
    forall k | k in NodeMap(a) ensures k in NodeMap(b) && NodeMap(b)[k] == NodeMap(a)[k] {
      NodeMapFind(a, k);
      NodeMapAt(b, IndexOf(b, a[Find(EntriesOf(a), k).value]));
    }
    forall k | k in NodeMap(b) ensures k in NodeMap(a) {
      NodeMapFind(b, k);
      NodeMapAt(a, IndexOf(a, b[Find(EntriesOf(b), k).value]));
    }
  }

  /** Without shared keys, reordering the nodes leaves the node dictionary as it was. */
  lemma NodeMapMoveToFront<K, V>(nodes: seq<CacheNode<K, V>>, i: nat)
    requires UniqueKeys(EntriesOf(nodes)) && i < |nodes|
    ensures NodeMap(MoveToFront(nodes, i)) == NodeMap(nodes)
  {
    var r := MoveToFront(nodes, i);
    EntriesOfMoveToFront(nodes, i);
    MoveToFrontKeepsUniqueKeys(EntriesOf(nodes), i);
    MoveToFrontSameElements(nodes, i);
    NodeMapSameNodes(r, nodes);
  }

  /** A node added at the back enters the node dictionary only when no node before it has its key. */
  lemma {:induction false} NodeMapSnoc<K, V>(p: seq<CacheNode<K, V>>, t: CacheNode<K, V>)
    ensures NodeMap(p + [t]) == if t.key in NodeMap(p) then NodeMap(p) else NodeMap(p)[t.key := t]
  {
    if p == [] {
      assert [t][1..] == [];
    } else {
      assert (p + [t])[1..] == p[1..] + [t];
      NodeMapSnoc(p[1..], t);
    }
  }

  /** Without shared keys, dropping the last node removes exactly its key from the node dictionary. */
  lemma NodeMapDropLast<K, V>(nodes: seq<CacheNode<K, V>>)
    requires UniqueKeys(EntriesOf(nodes)) && nodes != []
    ensures var p := nodes[..|nodes| - 1];
      && NodeMap(p) == NodeMap(nodes) - {nodes[|nodes| - 1].key}
      && |NodeMap(p)| == |p|
  {
    var n, p := |nodes|, nodes[..|nodes| - 1];
    var t := nodes[n - 1];
    assert nodes == p + [t];
    NodeMapSnoc(p, t);
    forall j | 0 <= j < |p| ensures Keys(EntriesOf(p))[j] != t.key {
      assert EntriesOf(nodes)[j].key != EntriesOf(nodes)[n - 1].key;
    }
    NodeMapFind(p, t.key);
    NodeMapSize(nodes);
  }

  /**
   * The consent test of `SetCacheCapacity` as the source writes it: without `allowEviction`, a new
   * capacity above the current count is refused, and any other positive capacity goes through.
   */
  predicate ResizeConsented(newCapacity: int, count: int, allowEviction: bool): (ok: bool)
    ensures ok <==> allowEviction || newCapacity <= count
  {
    !(allowEviction == false && newCapacity > count)
  }

  /** The consent test the source's comment and message describe: refuse only a resize that evicts. */
  predicate ResizeConsentedIntended(newCapacity: int, count: int, allowEviction: bool): (ok: bool)
    ensures ok <==> allowEviction || count <= newCapacity
  {
    !(allowEviction == false && newCapacity < count)
  }

  /** As written, a cache holding two entries can be shrunk to one without consent, losing an entry. */
  lemma ResizeConsentedLetsShrinkThrough<K, V>(s: seq<Entry<K, V>>)
    requires |s| == 2
    ensures ResizeConsented(1, |s|, false) && |Shrink(s, 1)| < |s|
  {
  }

  /** As written, growing a cache holding two entries to three is refused, although nothing would be lost. */
  lemma ResizeConsentedRefusesGrowth<K, V>(s: seq<Entry<K, V>>)
    requires |s| == 2
    ensures !ResizeConsented(3, |s|, false) && Shrink(s, 3) == s
  {
  }

  /** The intended test refuses a resize without consent exactly when it would evict entries. */
  lemma ResizeConsentedIntendedRefusesOnlyEviction<K, V>(s: seq<Entry<K, V>>, newCapacity: nat)
    ensures !ResizeConsentedIntended(newCapacity, |s|, false) <==> |Shrink(s, newCapacity)| < |s|
  {
  }

  class LRUCache<K(==), V> {
    var capacity: int
    var dict: map<K, CacheNode<K, V>>
    const list: DoublyLinkedList<K, V>

    /** The bijection: the dictionary indexes exactly the nodes on the list, each under its own key. */
    ghost predicate Consistent()
      reads this, list, list.Nodes
    {
      && list.Valid()
      && dict == NodeMap(list.Nodes)
      && |dict| == |list.Nodes|
    }

    /** The invariant every public operation keeps: the bijection, a positive capacity, and `Count <= capacity`. */
    ghost predicate Valid()
      reads this, list, list.Nodes
    {
      Consistent() && 0 < capacity && |dict| <= capacity
    }

    /** The cached entries from most to least recently used. */
    ghost function Contents(): seq<Entry<K, V>>
      reads list
    {
      EntriesOf(list.Nodes)
    }

    /** The list's keys are unique, because the dictionary indexes each node under its own key. */
    lemma ContentsUniqueKeys()
      requires Consistent()
      ensures UniqueKeys(Contents())
    {
      NodeMapSize(list.Nodes);
    }

    /** The dictionary and the reference model agree on where a key sits and what it maps to. */
    lemma DictAgreesWithContents(k: K)
      requires Consistent()
      ensures k in dict <==> k in Keys(Contents())
      ensures k in dict ==> dict[k] in list.Nodes && dict[k].key == k
      ensures k in dict ==> Find(Contents(), k) == Some(IndexOf(list.Nodes, dict[k]))
      ensures Lookup(Contents(), k) == if k in dict then Some(dict[k].value) else None
    {
      NodeMapFind(list.Nodes, k);
      if k in dict {
        IndexOfDistinct(list.Nodes, Find(Contents(), k).value);
      }
    }

    /** The part of the constructor after its argument check: an empty dictionary and an empty list. */
    constructor (capacity: int)
      requires 0 < capacity
      ensures Valid() && fresh(list)
      ensures this.capacity == capacity && Contents() == [] && dict == map[]
    {
      this.capacity := capacity;
      dict := map[];
      list := new DoublyLinkedList();
    }

    /** The constructor: a capacity of zero or less is refused with an ArgumentException. */
    static method Create(capacity: int) returns (r: Result<LRUCache<K, V>, CacheError>)
      ensures capacity <= 0 ==> r == Failure(ArgumentException)
      ensures 0 < capacity ==> r.Success? && fresh(r.value) && fresh(r.value.list)
      ensures r.Success? ==> r.value.Valid() && r.value.capacity == capacity && r.value.Contents() == []
    {
      if capacity <= 0 {
        return Failure(ArgumentException);
      }
      var cache := new LRUCache(capacity);
      return Success(cache);
    }

    /**
     * Insert-or-touch. A null key or value is refused before anything changes; a key already
     * cached is moved to the head with its old value kept; a new key evicts the tail first when
     * the cache is full.
     */
    method AddOrMoveLinkedListCacheNode(key: Option<K>, value: Option<V>) returns (r: Outcome<CacheError>)
      requires Valid()
      modifies this, list, list.Nodes
      ensures Valid() && capacity == old(capacity)
      ensures key.None? ==> r == Fail(ArgumentNullException("pCacheNodeKey"))
      ensures key.Some? && value.None? ==> r == Fail(ArgumentNullException("pCacheNodeValue"))
      ensures r.Fail? ==> dict == old(dict) && list.Nodes == old(list.Nodes)
      ensures forall i :: 0 <= i < |list.Nodes| ==> list.Nodes[i] in old(list.Nodes) || fresh(list.Nodes[i])
      ensures key.Some? && value.Some? ==>
                r == Pass && Contents() == Put(old(Contents()), key.value, value.value, capacity)
    {
      if key.None? {
        return Fail(ArgumentNullException("pCacheNodeKey"));
      }
      if value.None? {
        return Fail(ArgumentNullException("pCacheNodeValue"));
      }
      var k, v := key.value, value.value;
      DictAgreesWithContents(k);
      if k in dict {
        HeldKeyPutMoves(k, v);
        TouchEntry(k);
      } else {
        InsertEntry(k, v);
      }
      r := Pass;
    }

    /** The branch for a key already cached: its node moves to the head and keeps its old value. */
    method TouchEntry(k: K)
      requires Valid() && k in dict && dict[k] in list.Nodes
      modifies list, list.Nodes
      ensures Valid() && dict == old(dict) && capacity == old(capacity)
      ensures Contents() == MoveToFront(old(Contents()), old(IndexOf(list.Nodes, dict[k])))
      ensures forall i :: 0 <= i < |list.Nodes| ==> list.Nodes[i] in old(list.Nodes)
    {
      var node := dict[k];
      ghost var nodes := list.Nodes;
      ghost var i := IndexOf(nodes, node);
      list.MoveNodeToHeadOfList(node);
      assert dict == old(dict);
      MovedNodeKeepsConsistent(nodes, i);
      EntriesOfMoveToFront(nodes, i);
      MoveToFrontSameElements(nodes, i);
    }

    /** For a cached key, the reference model's insert moves the key's position to the front. */
    lemma HeldKeyPutMoves(k: K, v: V)
      requires Valid() && k in dict && dict[k] in list.Nodes
      ensures Put(Contents(), k, v, capacity) == MoveToFront(Contents(), IndexOf(list.Nodes, dict[k]))
    {
      DictAgreesWithContents(k);
    }

    /** The branch for a new key: the tail is evicted first when the cache is full. */
    method InsertEntry(k: K, v: V)
      requires Valid() && k !in dict
      modifies this, list, list.Nodes
      ensures Valid() && capacity == old(capacity)
      ensures Contents() == Put(old(Contents()), k, v, capacity)
      ensures forall i :: 0 <= i < |list.Nodes| ==> list.Nodes[i] in old(list.Nodes) || fresh(list.Nodes[i])
    {
      ghost var s, nodes := Contents(), list.Nodes;
      DictAgreesWithContents(k);
      assert Find(s, k) == None;
      if |dict| >= capacity {
        EvictTailEntry();
        EntriesOfPrefix(nodes, |nodes| - 1);
      }
      AddNewEntry(k, v);
    }

    /** Reordering the list's nodes, with the dictionary untouched, keeps the bijection. */
    lemma MovedNodeKeepsConsistent(nodes: seq<CacheNode<K, V>>, i: nat)
      requires i < |nodes| && list.Valid() && list.Nodes == MoveToFront(nodes, i)
      requires dict == NodeMap(nodes) && |dict| == |nodes|
      ensures Consistent()
    {
      NodeMapSize(nodes);
      NodeMapMoveToFront(nodes, i);
    }

    /**
     * Evicts the least recently used entry: its key leaves the dictionary, then its node leaves the
     * tail of the list.
     */
    method EvictTailEntry()
      requires Consistent() && |dict| > 0
      modifies this, list, list.Nodes
      ensures Consistent() && capacity == old(capacity)
      ensures |dict| == old(|dict|) - 1
      ensures list.Nodes == old(list.Nodes)[..|old(list.Nodes)| - 1]
      ensures dict == old(dict) - {old(list.tail.key)}
    {
      ghost var nodes := list.Nodes;
      ContentsUniqueKeys();
      NodeMapDropLast(nodes);
      var tailKey := list.tail.key;
      dict := dict - {tailKey};
      var evicted := list.EvictLRUNode();
    }

    /** Creates a node for a key not yet cached and puts it in the dictionary and at the head of the list. */
    method AddNewEntry(k: K, v: V)
      requires Consistent() && k !in dict
      modifies this, list, list.Nodes
      ensures Consistent() && capacity == old(capacity)
      ensures |dict| == old(|dict|) + 1
      ensures Contents() == [Entry(k, v)] + old(Contents())
      ensures forall i :: 0 <= i < |list.Nodes| ==> list.Nodes[i] in old(list.Nodes) || fresh(list.Nodes[i])
    {
      var node := new CacheNode(k, v);
      ghost var kept := list.Nodes;
      assert ([node] + kept)[1..] == kept;
      dict := dict[k := node];
      list.AddAsHead(node);
      EntriesOfCons(node, kept);
    }

    /** A lookup. It neither moves the entry nor changes anything else. */
    method GetCacheNodeValue(key: Option<K>) returns (r: Result<V, CacheError>)
      requires Valid()
      ensures key.None? ==> r == Failure(ArgumentNullException("pCacheNodeKey"))
      ensures key.Some? && Lookup(Contents(), key.value).None? ==> r == Failure(KeyNotFoundException)
      ensures key.Some? && Lookup(Contents(), key.value).Some? ==>
                r == Success(Lookup(Contents(), key.value).value)
    {
      if key.None? {
        return Failure(ArgumentNullException("pCacheNodeKey"));
      }
      DictAgreesWithContents(key.value);
      if key.value in dict {
        return Success(dict[key.value].value);
      } else {
        return Failure(KeyNotFoundException);
      }
    }

    /**
     * The capacity change as the source writes it: a non-positive capacity is refused; without
     * `allowEviction`, a capacity above the current count is refused (the reported eviction count
     * is then negative); otherwise the cache shrinks to the new capacity.
     */
    method SetCacheCapacity(newCapacity: int, allowEviction: bool) returns (r: Outcome<CacheError>)
      requires Valid()
      modifies this, list, list.Nodes
      ensures Valid()
      ensures newCapacity <= 0 ==> r == Fail(ArgumentException)
      ensures 0 < newCapacity && !ResizeConsented(newCapacity, old(|dict|), allowEviction) ==>
                r == Fail(UnauthorizedAccessException(old(|dict|) - newCapacity))
      ensures r.Pass? <==> 0 < newCapacity && ResizeConsented(newCapacity, old(|dict|), allowEviction)
      ensures r.Fail? ==> capacity == old(capacity) && dict == old(dict) && list.Nodes == old(list.Nodes)
      ensures r.Pass? ==> capacity == newCapacity && Contents() == Shrink(old(Contents()), newCapacity)
      ensures forall i :: 0 <= i < |list.Nodes| ==> list.Nodes[i] in old(list.Nodes)
    {
      if newCapacity <= 0 {
        return Fail(ArgumentException);
      }
      if !ResizeConsented(newCapacity, |dict|, allowEviction) {
        return Fail(UnauthorizedAccessException(|dict| - newCapacity));
      }
      Resize(newCapacity);
      r := Pass;
    }

    /**
     * The capacity change with the consent test its documentation describes: without
     * `allowEviction`, only a capacity below the current count is refused, so a resize that is not
     * consented to never loses an entry.
     */
    method SetCacheCapacityIntended(newCapacity: int, allowEviction: bool) returns (r: Outcome<CacheError>)
      requires Valid()
      modifies this, list, list.Nodes
      ensures Valid()
      ensures newCapacity <= 0 ==> r == Fail(ArgumentException)
      ensures 0 < newCapacity && !ResizeConsentedIntended(newCapacity, old(|dict|), allowEviction) ==>
                r == Fail(UnauthorizedAccessException(old(|dict|) - newCapacity))
      ensures r.Pass? <==> 0 < newCapacity && ResizeConsentedIntended(newCapacity, old(|dict|), allowEviction)
      ensures r.Fail? ==> capacity == old(capacity) && dict == old(dict) && list.Nodes == old(list.Nodes)
      ensures r.Pass? ==> capacity == newCapacity && Contents() == Shrink(old(Contents()), newCapacity)
      ensures forall i :: 0 <= i < |list.Nodes| ==> list.Nodes[i] in old(list.Nodes)
      ensures !allowEviction ==> Contents() == old(Contents())
    {
      if newCapacity <= 0 {
        return Fail(ArgumentException);
      }
      if !ResizeConsentedIntended(newCapacity, |dict|, allowEviction) {
        return Fail(UnauthorizedAccessException(|dict| - newCapacity));
      }
      Resize(newCapacity);
      r := Pass;
    }

    /** Stores the new capacity, then evicts tail entries until the count fits within it. */
    method Resize(newCapacity: int)
      requires Consistent() && 0 < newCapacity
      modifies this, list, list.Nodes
      ensures Valid() && capacity == newCapacity
      ensures Contents() == Shrink(old(Contents()), newCapacity)
      ensures forall i :: 0 <= i < |list.Nodes| ==> list.Nodes[i] in old(list.Nodes)
    {
      ghost var nodes := list.Nodes;
      capacity := newCapacity;
      while |dict| > capacity
        invariant Consistent() && capacity == newCapacity
        invariant |list.Nodes| <= |nodes| && list.Nodes == nodes[..|list.Nodes|]
        invariant |list.Nodes| == |nodes| || capacity <= |list.Nodes|
        decreases |dict|
      {
        ghost var before := list.Nodes;
        assert forall n :: n in before ==> n in nodes;
        EvictTailEntry();
        PrefixOfPrefix(nodes, |before|, |list.Nodes|);
      }
      PrefixOfPrefix(nodes, |nodes|, |list.Nodes|);
      EntriesOfShrink(nodes, |list.Nodes|, newCapacity);
    }

    /** Empties the cache by evicting the tail until the list has no head, then restores the default capacity. */
    method ResetCache()
      requires Valid()
      modifies this, list, list.Nodes
      ensures Valid() && capacity == DefaultCapacity
      ensures dict == map[] && list.Nodes == [] && Contents() == []
    {
      ghost var nodes := list.Nodes;
      while list.head != null
        invariant list.Valid()
        invariant |list.Nodes| <= |nodes| && list.Nodes == nodes[..|list.Nodes|]
        decreases |list.Nodes|
      {
        var evicted := list.EvictLRUNode();
      }
      dict := map[];
      capacity := DefaultCapacity;
    }
  }
}

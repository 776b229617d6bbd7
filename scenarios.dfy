/**
 * The repository's unit tests, restated as client code whose outcomes are proved rather than
 * observed. Keys are small integers in place of the tests' strings; the nodes of the list tests get distinct keys
 * so that the order of the list can be read back from them.
 */
module Scenarios {
  import opened Wrappers
  import opened CacheNodes
  import opened DoublyLinkedLists
  import opened LruSpec
  import opened LruCaches
  import opened Sequences

  /** The tests' traversal: follows next links from the head and collects the keys met on the way. */
  method ForwardKeys<K, V>(list: DoublyLinkedList<K, V>) returns (keys: seq<K>)
    requires list.Valid()
    ensures keys == NodeKeys(list.Nodes)
    ensures keys == Keys(EntriesOf(list.Nodes))
  {
    keys := [];
    var current := list.head;
    ghost var i := 0;
    while current != null
      invariant i <= |list.Nodes|
      invariant keys == NodeKeys(list.Nodes[..i])
      invariant current == if i == |list.Nodes| then null else list.Nodes[i]
      decreases |list.Nodes| - i
    {
      keys := keys + [current.key];
      current := current.next;
      i := i + 1;
    }
    assert list.Nodes[..i] == list.Nodes;
    NodeKeysAreKeys(list.Nodes);
  }

  /** Three unlinked nodes added as head one after the other, keyed 1, 2 and 3. */
  method ThreeNodeList() returns (list: DoublyLinkedList<int, int>, n1: CacheNode<int, int>,
                                  n2: CacheNode<int, int>, n3: CacheNode<int, int>)
    ensures fresh(list) && fresh(n1) && fresh(n2) && fresh(n3)
    ensures list.Valid() && list.Nodes == [n3, n2, n1]
    ensures n1.key == 1 && n2.key == 2 && n3.key == 3
  {
    list := new DoublyLinkedList();
    n1 := new CacheNode(1, 1);
    n2 := new CacheNode(2, 1);
    n3 := new CacheNode(3, 1);
    list.AddAsHead(n1);
    list.AddAsHead(n2);
    list.AddAsHead(n3);
  }

  /** Adding three nodes as head: each becomes the head in turn, and the first one added stays the tail. */
  method AddThreeAsHead() returns (keys: seq<int>)
    ensures keys == [3, 2, 1]
  {
    var list, n1, n2, n3 := ThreeNodeList();
    assert list.head == n3 && list.head.next == n2 && n2.next == n1;
    assert list.tail == n1 && list.tail.prev == n2;
    keys := ForwardKeys(list);
  }

  /** Moving the tail of [3, 2, 1] gives [1, 3, 2]: the middle node becomes the tail. */
  method MoveTailOfThree() returns (keys: seq<int>)
    ensures keys == [1, 3, 2]
  {
    var list, n1, n2, n3 := ThreeNodeList();
    list.MoveNodeToHeadOfList(n1);
    assert list.Nodes == [n1, n3, n2];
    assert list.head.prev == null && n3.prev == n1 && n3.next == n2 && list.tail.prev == n3;
    keys := ForwardKeys(list);
  }

  /** Moving the middle of [3, 2, 1] gives [2, 3, 1]: its neighbours are joined to each other. */
  method MoveMiddleOfThree() returns (keys: seq<int>)
    ensures keys == [2, 3, 1]
  {
    var list, n1, n2, n3 := ThreeNodeList();
    list.MoveNodeToHeadOfList(n2);
    assert list.Nodes == [n2, n3, n1];
    assert list.head.prev == null && n3.prev == n2 && n3.next == n1 && list.tail.prev == n3;
    keys := ForwardKeys(list);
  }

  /** Moving the head of [3, 2, 1] changes nothing. */
  method MoveHeadOfThree() returns (keys: seq<int>)
    ensures keys == [3, 2, 1]
  {
    var list, n1, n2, n3 := ThreeNodeList();
    list.MoveNodeToHeadOfList(n3);
    assert list.Nodes[1] == n2;
    assert list.head == n3 && list.head.prev == null && n2.prev == n3;
    keys := ForwardKeys(list);
  }

  /** Moving the only node of a list leaves it head and tail. */
  method MoveSoleNode() returns (keys: seq<int>)
    ensures keys == [1]
  {
    var list := new DoublyLinkedList<int, int>();
    var node := new CacheNode(1, 1);
    list.AddAsHead(node);
    list.MoveNodeToHeadOfList(node);
    assert list.head == node && list.tail == node;
    keys := ForwardKeys(list);
  }

  /** Evicting from an empty list returns null. */
  method EvictFromEmpty() returns (evicted: CacheNode?<int, int>)
    ensures evicted == null
  {
    var list := new DoublyLinkedList<int, int>();
    evicted := list.EvictLRUNode();
  }

  /** Adding `n` fresh nodes gives a list of length `n`; evicting `m` of them leaves `n - m`. */
  method AddThenEvict(n: nat, m: nat) returns (added: nat, kept: nat)
    requires m <= n
    ensures added == n && kept == n - m
  {
    var list := new DoublyLinkedList<int, int>();
    for i := 0 to n
      invariant fresh(list) && list.Valid() && |list.Nodes| == i
      invariant forall k :: 0 <= k < |list.Nodes| ==> fresh(list.Nodes[k])
    {
      var node := new CacheNode(i, i);
      list.AddAsHead(node);
    }
    var keys := ForwardKeys(list);
    added := |keys|;
    for j := 0 to m
      invariant fresh(list) && list.Valid() && |list.Nodes| == n - j
      invariant forall k :: 0 <= k < |list.Nodes| ==> fresh(list.Nodes[k])
    {
      var evicted := list.EvictLRUNode();
    }
    keys := ForwardKeys(list);
    kept := |keys|;
  }

  /** The test sizes: one hundred nodes added, fifty evicted. */
  method AddHundredEvictFifty() returns (added: nat, kept: nat)
    ensures added == 100 && kept == 50
  {
    added, kept := AddThenEvict(100, 50);
  }

  /** A capacity of zero or less is refused. */
  method NonPositiveCapacityRefused() returns (negative: Result<LRUCache<int, bool>, CacheError>,
                                               zero: Result<LRUCache<int, bool>, CacheError>)
    ensures negative == Failure(ArgumentException) && zero == Failure(ArgumentException)
  {
    negative := LRUCache.Create(-1);
    zero := LRUCache.Create(0);
  }

  /** A null key or a null value is refused, and a lookup with a null key too. */
  method NullArgumentsRefused() returns (noKey: Outcome<CacheError>, noValue: Outcome<CacheError>,
                                         getNoKey: Result<bool, CacheError>)
    ensures noKey == Fail(ArgumentNullException("pCacheNodeKey"))
    ensures noValue == Fail(ArgumentNullException("pCacheNodeValue"))
    ensures getNoKey == Failure(ArgumentNullException("pCacheNodeKey"))
  {
    var cache := new LRUCache<int, bool>(3);
    noKey := cache.AddOrMoveLinkedListCacheNode(None, Some(false));
    noValue := cache.AddOrMoveLinkedListCacheNode(Some(0), None);
    getNoKey := cache.GetCacheNodeValue(None);
  }

  /** A key added is found with its value; a key never added, or asked of an empty cache, is not. */
  method LookupAfterAdd() returns (empty: Result<bool, CacheError>, present: Result<bool, CacheError>,
                                   absent: Result<bool, CacheError>)
    ensures empty == Failure(KeyNotFoundException)
    ensures present == Success(true) && absent == Failure(KeyNotFoundException)
  {
    var cache := new LRUCache<int, bool>(3);
    empty := cache.GetCacheNodeValue(Some(0));
    var r := cache.AddOrMoveLinkedListCacheNode(Some(1), Some(true));
    present := cache.GetCacheNodeValue(Some(1));
    absent := cache.GetCacheNodeValue(Some(2));
  }

  /** A cache of capacity 3 after adding key 1 with value true and then key 2 with value false. */
  method TwoKeys() returns (cache: LRUCache<int, bool>)
    ensures fresh(cache) && fresh(cache.list)
    ensures forall i :: 0 <= i < |cache.list.Nodes| ==> fresh(cache.list.Nodes[i])
    ensures cache.Valid() && cache.capacity == 3
    ensures cache.Contents() == [Entry(2, false), Entry(1, true)]
  {
    cache := new LRUCache<int, bool>(3);
    var r := cache.AddOrMoveLinkedListCacheNode(Some(1), Some(true));
    r := cache.AddOrMoveLinkedListCacheNode(Some(2), Some(false));
  }

  /** The same cache after key 3 with value true is added as well, filling it. */
  method ThreeKeys() returns (cache: LRUCache<int, bool>)
    ensures fresh(cache) && fresh(cache.list)
    ensures forall i :: 0 <= i < |cache.list.Nodes| ==> fresh(cache.list.Nodes[i])
    ensures cache.Valid() && cache.capacity == 3
    ensures cache.Contents() == [Entry(3, true), Entry(2, false), Entry(1, true)]
  {
    cache := TwoKeys();
    var r := cache.AddOrMoveLinkedListCacheNode(Some(3), Some(true));
  }

  /** Adding a key again keeps its first value. */
  method AddAgainKeepsValue() returns (got: Result<bool, CacheError>)
    ensures got == Success(true)
  {
    var cache := TwoKeys();
    var r := cache.AddOrMoveLinkedListCacheNode(Some(1), Some(false));
    got := cache.GetCacheNodeValue(Some(1));
  }

  /** In the reference model, a fourth key added to the full cache of three pushes out key 1. */
  lemma FourthOfThree(s: seq<Entry<int, bool>>)
    requires s == [Entry(3, true), Entry(2, false), Entry(1, true)]
    ensures var r := Put(s, 4, false, 3);
      && r == [Entry(4, false), Entry(3, true), Entry(2, false)]
      && Lookup(r, 1) == None && Lookup(r, 2) == Some(false)
  {
    var r := Put(s, 4, false, 3);
    assert Find(s, 4) == None;
    assert r == [Entry(4, false), Entry(3, true), Entry(2, false)];
    assert 1 !in Keys(r);
    FindAt(r, 2);
  }

  /** In the reference model, touching key 2 of the full cache of three moves it to the front. */
  lemma TouchOfThree(s: seq<Entry<int, bool>>)
    requires s == [Entry(3, true), Entry(2, false), Entry(1, true)]
    ensures Put(s, 2, false, 3) == [Entry(2, false), Entry(3, true), Entry(1, true)]
  {
    FindAt(s, 1);
  }

  /** Keys 1, 2 and 3 look up to their values in the touched cache of three. */
  lemma LookupsOfTouched(s: seq<Entry<int, bool>>)
    requires s == [Entry(2, false), Entry(3, true), Entry(1, true)]
    ensures Lookup(s, 1) == Some(true) && Lookup(s, 2) == Some(false) && Lookup(s, 3) == Some(true)
  {
    FindAt(s, 0);
    FindAt(s, 1);
    FindAt(s, 2);
  }

  /** With capacity 3, adding a fourth key evicts the first one added and keeps the second. */
  method FourthKeyEvictsFirst() returns (first: Result<bool, CacheError>, second: Result<bool, CacheError>)
    ensures first == Failure(KeyNotFoundException) && second == Success(false)
  {
    var cache := ThreeKeys();
    FourthOfThree(cache.Contents());
    var r := cache.AddOrMoveLinkedListCacheNode(Some(4), Some(false));
    first := cache.GetCacheNodeValue(Some(1));
    second := cache.GetCacheNodeValue(Some(2));
  }

  /**
   * A lookup does not refresh an entry: reading key 1 of the full cache and then adding a fourth
   * key still evicts key 1, the least recently added.
   */
  method LookupDoesNotRefresh() returns (read: Result<bool, CacheError>, after: Result<bool, CacheError>)
    ensures read == Success(true) && after == Failure(KeyNotFoundException)
  {
    var cache;
    cache, read := ReadFirstOfThree();
    FourthOfThree(cache.Contents());
    var r := cache.AddOrMoveLinkedListCacheNode(Some(4), Some(false));
    after := cache.GetCacheNodeValue(Some(1));
  }

  /** The full cache of three after key 1, its least recent entry, is read. */
  method ReadFirstOfThree() returns (cache: LRUCache<int, bool>, read: Result<bool, CacheError>)
    ensures fresh(cache) && fresh(cache.list)
    ensures forall i :: 0 <= i < |cache.list.Nodes| ==> fresh(cache.list.Nodes[i])
    ensures cache.Valid() && cache.capacity == 3
    ensures cache.Contents() == [Entry(3, true), Entry(2, false), Entry(1, true)]
    ensures read == Success(true)
  {
    cache := ThreeKeys();
    FindAt(cache.Contents(), 2);
    read := cache.GetCacheNodeValue(Some(1));
  }

  /** The full cache after key 2 is added again with value false: it moves to the front. */
  method TouchSecondOfThree() returns (cache: LRUCache<int, bool>)
    ensures fresh(cache) && fresh(cache.list)
    ensures forall i :: 0 <= i < |cache.list.Nodes| ==> fresh(cache.list.Nodes[i])
    ensures cache.Valid()
    ensures cache.Contents() == [Entry(2, false), Entry(3, true), Entry(1, true)]
  {
    cache := ThreeKeys();
    TouchOfThree(cache.Contents());
    var r := cache.AddOrMoveLinkedListCacheNode(Some(2), Some(false));
  }

  /** Touching a key of a full cache keeps every entry. */
  method TouchKeepsAll() returns (v1: Result<bool, CacheError>, v2: Result<bool, CacheError>,
                                  v3: Result<bool, CacheError>)
    ensures v1 == Success(true) && v2 == Success(false) && v3 == Success(true)
  {
    var cache := TouchSecondOfThree();
    ghost var c := cache.Contents();
    assert Lookup(c, 1) == Some(true) && Lookup(c, 2) == Some(false) && Lookup(c, 3) == Some(true) by {
      LookupsOfTouched(c);
    }
    v1 := cache.GetCacheNodeValue(Some(1));
    v2 := cache.GetCacheNodeValue(Some(2));
    v3 := cache.GetCacheNodeValue(Some(3));
  }

  /**
   * The consent test as written: without consent a cache of two entries is shrunk to one, losing
   * its older key, while growing it to three is refused.
   */
  method ResizeWithoutConsent() returns (grow: Outcome<CacheError>, shrink: Outcome<CacheError>,
                                         older: Result<bool, CacheError>)
    ensures grow == Fail(UnauthorizedAccessException(-1))
    ensures shrink == Pass && older == Failure(KeyNotFoundException)
  {
    var cache := TwoKeys();
    grow := cache.SetCacheCapacity(3, false);
    shrink := cache.SetCacheCapacity(1, false);
    older := cache.GetCacheNodeValue(Some(1));
  }

  /** A reset empties the cache and restores the default capacity. */
  method ResetEmpties() returns (got: Result<bool, CacheError>, capacity: int)
    ensures got == Failure(KeyNotFoundException) && capacity == 100
  {
    var cache := new LRUCache<int, bool>(3);
    var r := cache.AddOrMoveLinkedListCacheNode(Some(1), Some(true));
    cache.ResetCache();
    got := cache.GetCacheNodeValue(Some(1));
    capacity := cache.capacity;
  }
}

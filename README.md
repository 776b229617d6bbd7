# LRU cache: a verified model

This project models the core of a small C# least-recently-used cache. The cache pairs a
dictionary from keys to nodes with an intrusive doubly linked list of the same nodes. The list
runs from the most recently used entry (the head) to the least recently used one (the tail).
Adding a new key to a full cache evicts the tail. Adding a key that is already cached moves its
node to the head and keeps the old value. A lookup returns the stored value. The capacity can be
changed, which may evict entries, and the cache can be reset.

Modules, one per concern of the source:

- `CacheNodes` (`cache_node.dfy`): the `CacheNode` class. Its key and value are immutable and
  its `prev`/`next` links are mutable.
- `DoublyLinkedLists` (`doubly_linked_list.dfy`): the `DoublyLinkedList` class with `head` and
  `tail` fields. A ghost sequence `Nodes` records the list's order. `Valid()` says that every
  node's links point at its neighbours in that order. Each method is proved against that
  sequence: `AddAsHead` prepends, `MoveNodeToHeadOfList` is `MoveToFront`, and `EvictLRUNode`
  drops the last element.
- `LruSpec` (`lru_spec.dfy`): a reference model of what the cache holds. It is a sequence of
  entries from most to least recent, with the operations `Put`, `Lookup` and `Shrink` and the
  LRU properties proved about them.
- `LruCaches` (`lru_cache.dfy`): the `LRUCache` class, holding a capacity, a dictionary
  (`map<K, CacheNode>`) and the list. The invariant `Valid()` states three things:
  - the dictionary is exactly the map the list's nodes call for, each node under its own key;
  - the dictionary and the list have the same size, so keys are unique;
  - the count is at most the capacity, and the capacity is positive.

  Each public method is proved to change `Contents()`, the entries of the list in order, exactly
  as the reference model says.
- `Sequences` (`sequences.dfy`): `MoveToFront` and facts about sequences without repetitions.
- `Wrappers` (`wrappers.dfy`): `Option`, `Result` and `Outcome`.
- `Scenarios` (`scenarios.dfy`): the repository's unit tests, written as client code whose
  outcomes are proved.

The source stores the node and list classes twice: once in `CacheProject/` and once in
`CacheProject/DataStructureHelpers/`. The two copies differ only in their namespace and in
writing `this.` or not, so one model serves both. The table below cites the copy under
`CacheProject/`; every line number is the same in the other copy.

How C# is represented:

- A null key or value is the `None` of an `Option`.
- A thrown exception is a `CacheError` returned in a `Result` (for methods with a value) or an
  `Outcome` (for `void` methods). Its variants are `ArgumentException`, `ArgumentNullException`,
  `KeyNotFoundException` and `UnauthorizedAccessException`. A method that fails changes nothing.
  Exception messages are left out: a null-argument error carries only the name of the argument
  that was null (`pCacheNodeKey` or `pCacheNodeValue`), where the C# exception carries a whole
  sentence as its parameter name.
- The private constructor with its argument check becomes the static method `LRUCache.Create`.
  The Dafny constructor is the part that runs once the check has passed.
- C# default arguments become explicit ones. A caller of `SetCacheCapacity` who omits
  `allowEviction` is the `allowEviction == false` case. The constructor's default capacity of 100
  becomes an explicit argument of `Create`.

In three places the code does something a reader of an LRU cache might not expect; the model
follows the code:

- `GetCacheNodeValue` only reads the entry and does not move it to the head. Its contract says
  nothing changes, and `Scenarios.LookupDoesNotRefresh` shows a key that was just read being
  evicted next.
- `EvictLRUNode` clears the evicted node's links only when that node was the sole node. Otherwise
  the evicted node's `prev` still points at the new tail, and the contract says so.
- `ResetCache` always sets the capacity back to 100.

## Model

| member | source | states |
|---|---|---|
| CacheNodes.CacheNode.constructor | CacheProject/CacheNode.cs:38-44 | a new node holds the given key and value and has no previous and no next node |
| CacheNodes.CacheNode.SetPrevNode | CacheProject/CacheNode.cs:64-75 | the `PrevNode` setter changes the previous link to the given node and leaves the next link as it was |
| CacheNodes.CacheNode.SetNextNode | CacheProject/CacheNode.cs:92-103 | the `NextNode` setter changes the next link to the given node and leaves the previous link as it was |
| DoublyLinkedLists.DoublyLinkedList.constructor | CacheProject/DoublyLinkedList.cs:17-21 | a new list is well formed and empty, with no head and no tail |
| DoublyLinkedLists.DoublyLinkedList.AddAsHead | CacheProject/DoublyLinkedList.cs:27-44 | the node is prepended and becomes the head; on an empty list it also becomes the tail; the list is well formed afterwards exactly when the node arrived unlinked (its own previous link is never written); the only other link written is the old head's previous link, which now points at the node |
| DoublyLinkedLists.DoublyLinkedList.MoveNodeToHeadOfList | CacheProject/DoublyLinkedList.cs:46-82 | the order becomes the old order with the node moved to the front and the list stays well formed; a node with no previous link is left where it is; moving the tail makes its predecessor the new tail; moving an interior node joins its neighbours to each other |
| DoublyLinkedLists.DoublyLinkedList.DetachTail | CacheProject/DoublyLinkedList.cs:51-55 | the tail branch's unlinking: the predecessor becomes the tail with no next link, and the list, now without the node, stays well formed |
| DoublyLinkedLists.DoublyLinkedList.DetachInterior | CacheProject/DoublyLinkedList.cs:66-70 | the interior branch's unlinking: the predecessor and successor point at each other, and the list, now without the node, stays well formed with the same head and tail |
| DoublyLinkedLists.DoublyLinkedList.LinkDetachedAsHead | CacheProject/DoublyLinkedList.cs:58-63 | both moving branches end by linking the detached node in front of the old head; the result is well formed with the same tail |
| DoublyLinkedLists.DoublyLinkedList.EvictLRUNode | CacheProject/DoublyLinkedList.cs:89-121 | an empty list returns null and stays empty; otherwise the old tail is returned and removed from the end; a sole node comes back with both links cleared, while from a longer list the evicted node keeps a previous link to the new tail |
| DoublyLinkedLists.ValidLinksReciprocal | CacheProject/CacheNode.cs:33-36 | in a well-formed list the head has no previous node, the tail has no next node, and every next link is answered by the matching previous link and the reverse |
| Sequences.MoveToFront | CacheProject/DoublyLinkedList.cs:46-82 | moving position `i` to the front puts that element first, shifts the elements before it back by one and leaves those after it in place |
| Sequences.MoveFrontToFront | CacheProject/DoublyLinkedList.cs:80 | moving the head to the front leaves the order unchanged |
| Sequences.MoveToFrontPermutes | CacheProject/DoublyLinkedList.cs:46-82 | moving to the front is a permutation: the multiset of elements is unchanged |
| Sequences.MoveToFrontDistinct | CacheProject/DoublyLinkedList.cs:46-82 | moving to the front never creates a repeated node |
| LruSpec.Lookup | CacheProject/LRUCache.cs:186-189 | a lookup finds nothing exactly when the key is not held; what it finds is the value of an entry held under that key |
| LruSpec.Put | CacheProject/LRUCache.cs:126-174 | insert-or-touch leaves the key at the front; a held key keeps the number of entries; a new key enters as a fresh entry followed by the most recent old entries, one more than before unless the cache was full |
| LruSpec.Shrink | CacheProject/LRUCache.cs:62-79 | resizing keeps the most recent min(count, capacity) entries, as a prefix of the old contents |
| LruSpec.Find | CacheProject/LRUCache.cs:138 | gives the position of the key's most recent entry, with no earlier entry having that key; gives nothing exactly when the key is not held |
| LruSpec.FindAt | CacheProject/LRUCache.cs:186-187 | with unique keys every entry is found at its own position, and a lookup of its key returns its value |
| LruSpec.MoveToFrontKeepsUniqueKeys | CacheProject/LRUCache.cs:138-145 | moving an entry to the front keeps the keys unique |
| LruSpec.MoveToFrontKeepsLookup | CacheProject/LRUCache.cs:138-145 | moving an entry to the front leaves the lookup of every key unchanged |
| LruSpec.PutKeepsInvariant | CacheProject/LRUCache.cs:126-174 | insert-or-touch keeps keys unique, stays within capacity and leaves the key at the front |
| LruSpec.PutPresentKeepsEntries | CacheProject/LRUCache.cs:138-145 | touching a held key keeps the number of entries and every key's lookup, so the old value is not replaced |
| LruSpec.PutAbsentInserts | CacheProject/LRUCache.cs:146-168 | a new key goes in front with its value; when the cache is full exactly the least recent key is evicted and the other keys keep their order; every other key looks up as before |
| LruSpec.LookupAfterPut | CacheProject/LRUCache.cs:126-199 | a lookup right after insert-or-touch finds the key: with its old value if it was held, with the new value otherwise |
| LruSpec.ValueNotReplaced | CacheProject/LRUCache.cs:138-145 | adding a key twice keeps the value given first |
| LruSpec.CapacityOneHoldsLatest | CacheProject/LRUCache.cs:149-167 | a cache of capacity one holds exactly the key touched last |
| LruSpec.ShrinkKeepsMostRecent | CacheProject/LRUCache.cs:69-79 | shrinking keeps keys unique and holds min(count, capacity) entries; the most recent ones keep their values and every older one is gone |
| LruCaches.EntriesOfShrink | CacheProject/LRUCache.cs:69-79 | evicting tail nodes until the count fits the capacity leaves exactly the entries the reference model's shrink keeps |
| LruCaches.NodeMapFind | CacheProject/LRUCache.cs:186-187 | a key is in the dictionary built from the nodes exactly when the reference model finds it, and it maps to the node at the found position |
| LruCaches.NodeMapSize | CacheProject/LRUCache.cs:33-34 | the dictionary built from the nodes has at most one key per node, and exactly one per node if and only if the nodes' keys are unique |
| LruCaches.NodeMapAt | CacheProject/LRUCache.cs:141 | with unique keys each node is what the dictionary holds for its key |
| LruCaches.NodeMapSameNodes | CacheProject/LRUCache.cs:144 | two orderings of the same set of nodes, each with unique keys, call for the same dictionary |
| LruCaches.NodeMapMoveToFront | CacheProject/LRUCache.cs:138-145 | moving a node to the head needs no change to the dictionary |
| LruCaches.NodeMapDropLast | CacheProject/LRUCache.cs:152-158 | removing the tail's key from the dictionary and the tail node from the list keeps the two in step |
| LruCaches.ResizeConsented | CacheProject/LRUCache.cs:54 | as written, a resize is consented to when eviction is allowed or the new capacity is not above the count |
| LruCaches.ResizeConsentedIntended | CacheProject/LRUCache.cs:42-55 | as intended, a resize is consented to when eviction is allowed or the new capacity is not below the count |
| LruCaches.NodeKeysAreKeys | CacheProjectTest/DataStructureHelpers/DoublyLinkedListTests/DoublyLinkedList_MultiThread_Tests.cs:16-27 | the keys read off the list's nodes are the keys of the cached entries |
| LruCaches.ResizeConsentedLetsShrinkThrough | CacheProject/LRUCache.cs:54 | as written, the consent test lets a cache of two shrink to one without consent, losing an entry |
| LruCaches.ResizeConsentedRefusesGrowth | CacheProject/LRUCache.cs:54 | as written, the consent test refuses to grow a cache of two to three without consent, although nothing would be evicted |
| LruCaches.ResizeConsentedIntendedRefusesOnlyEviction | CacheProject/LRUCache.cs:53-55 | the corrected test refuses a resize without consent if and only if the resize would evict entries |
| LruCaches.LRUCache.ContentsUniqueKeys | CacheProject/LRUCache.cs:33-34 | while the dictionary and list are in step, no key is cached twice |
| LruCaches.LRUCache.DictAgreesWithContents | CacheProject/LRUCache.cs:186-189 | the dictionary holds a key exactly when the list holds it; its node is on the list at the key's position; a dictionary lookup gives the reference model's lookup |
| LruCaches.LRUCache.constructor | CacheProject/LRUCache.cs:121-123 | a new cache has the given capacity, an empty dictionary and an empty list, and satisfies the invariant |
| LruCaches.LRUCache.Create | CacheProject/LRUCache.cs:116-124 | a capacity of zero or less fails with ArgumentException; otherwise a new, empty, valid cache with that capacity is returned |
| LruCaches.LRUCache.AddOrMoveLinkedListCacheNode | CacheProject/LRUCache.cs:126-174 | a null key, or else a null value, fails with ArgumentNullException and changes nothing; otherwise the contents become the reference model's insert-or-touch, and the invariant and capacity are kept |
| LruCaches.LRUCache.TouchEntry | CacheProject/LRUCache.cs:138-145 | a cached key's node moves to the head; the dictionary is unchanged and the contents become the old contents with that entry moved to the front |
| LruCaches.LRUCache.HeldKeyPutMoves | CacheProject/LRUCache.cs:138-145 | for a cached key the reference model's insert is the move of its node's position to the front |
| LruCaches.LRUCache.InsertEntry | CacheProject/LRUCache.cs:146-168 | for a new key the contents become the reference model's insert, evicting the tail first when full, and the invariant is kept |
| LruCaches.LRUCache.MovedNodeKeepsConsistent | CacheProject/LRUCache.cs:141-144 | reordering the list's nodes by a move to the front keeps the dictionary and list in step |
| LruCaches.LRUCache.EvictTailEntry | CacheProject/LRUCache.cs:150-159 | the tail's key leaves the dictionary and the tail node leaves the list; the two stay in step and the count drops by one |
| LruCaches.LRUCache.AddNewEntry | CacheProject/LRUCache.cs:160-167 | a new node for a new key enters the dictionary and the head of the list; the contents gain that entry in front |
| LruCaches.LRUCache.GetCacheNodeValue | CacheProject/LRUCache.cs:176-199 | a null key fails with ArgumentNullException; a key not cached fails with KeyNotFoundException; otherwise the value the reference model holds for the key is returned; nothing changes |
| LruCaches.LRUCache.SetCacheCapacity | CacheProject/LRUCache.cs:47-85 | a capacity of zero or less fails with ArgumentException; the as-written consent test refuses with UnauthorizedAccessException carrying count minus capacity; a failure changes nothing; a success sets the capacity and shrinks the contents as the reference model does |
| LruCaches.LRUCache.SetCacheCapacityIntended | CacheProject/LRUCache.cs:47-85 | the same with the corrected consent test, so a resize without consent never changes the contents |
| LruCaches.LRUCache.Resize | CacheProject/LRUCache.cs:57-84 | sets the capacity and evicts tail entries until the count fits; the contents become the reference model's shrink and the invariant holds |
| LruCaches.LRUCache.ResetCache | CacheProject/LRUCache.cs:206-239 | evicting until the list has no head leaves the list empty; the dictionary is cleared and the capacity becomes 100 |
| Scenarios.ForwardKeys | CacheProjectTest/DataStructureHelpers/DoublyLinkedListTests/DoublyLinkedList_MultiThread_Tests.cs:16-27 | following next links from the head visits every node of a well-formed list in order, so the keys it reads are the keys of the held entries |
| Scenarios.ThreeNodeList | CacheProjectTest/DataStructureHelpers/DoublyLinkedListTests/DoublyLinkedList_StandardMethod_Tests.cs:57-66 | three unlinked nodes added as head give the order third, second, first |
| Scenarios.AddThreeAsHead | CacheProjectTest/DataStructureHelpers/DoublyLinkedListTests/DoublyLinkedList_StandardMethod_Tests.cs:57-97 | after three additions the last one added is the head, the first one added is the tail, and the links run 3, 2, 1 |
| Scenarios.MoveSoleNode | CacheProjectTest/DataStructureHelpers/DoublyLinkedListTests/DoublyLinkedList_StandardMethod_Tests.cs:100-116 | moving the only node leaves it head and tail |
| Scenarios.MoveHeadOfThree | CacheProjectTest/DataStructureHelpers/DoublyLinkedListTests/DoublyLinkedList_StandardMethod_Tests.cs:119-141 | moving the head keeps the order 3, 2, 1 and its links |
| Scenarios.MoveMiddleOfThree | CacheProjectTest/DataStructureHelpers/DoublyLinkedListTests/DoublyLinkedList_StandardMethod_Tests.cs:144-169 | moving the middle node gives 2, 3, 1 with the links the test checks |
| Scenarios.MoveTailOfThree | CacheProjectTest/DataStructureHelpers/DoublyLinkedListTests/DoublyLinkedList_StandardMethod_Tests.cs:172-197 | moving the tail gives 1, 3, 2 with the links the test checks |
| Scenarios.EvictFromEmpty | CacheProject/DoublyLinkedList.cs:118-119 | evicting from an empty list returns null |
| Scenarios.AddThenEvict | CacheProjectTest/DataStructureHelpers/DoublyLinkedListTests/DoublyLinkedList_MultiThread_Tests.cs:76-94 | after n additions in a loop the traversal counts n nodes, and after m evictions it counts n - m |
| Scenarios.AddHundredEvictFifty | CacheProjectTest/DataStructureHelpers/DoublyLinkedListTests/DoublyLinkedList_MultiThread_Tests.cs:30-94 | one hundred additions count 100 nodes, as the add test (lines 30-45) checks, and fifty evictions after them leave 50, as the evict test (lines 76-94) checks |
| Scenarios.NonPositiveCapacityRefused | CacheProjectTest/LRUCache_Test/LRUCache_SingleThread_Tests.cs:16-34 | capacities -1 and 0 fail with ArgumentException |
| Scenarios.NullArgumentsRefused | CacheProjectTest/LRUCache_Test/LRUCache_SingleThread_Tests.cs:71-122 | a null key or a null value fails with ArgumentNullException, and so does a lookup with a null key |
| Scenarios.LookupAfterAdd | CacheProjectTest/LRUCache_Test/LRUCache_SingleThread_Tests.cs:36-92 | an empty cache and a key never added both fail with KeyNotFoundException; a key just added is found with its value |
| Scenarios.AddAgainKeepsValue | CacheProjectTest/LRUCache_Test/LRUCache_SingleThread_Tests.cs:124-137 | adding a cached key again with a different value keeps the first value |
| Scenarios.FourthKeyEvictsFirst | CacheProjectTest/LRUCache_Test/LRUCache_SingleThread_Tests.cs:139-157 | in a full cache of three, adding a fourth key evicts the first key, and the second key keeps its value |
| Scenarios.TouchKeepsAll | CacheProjectTest/LRUCache_Test/LRUCache_SingleThread_Tests.cs:159-179 | touching the second key of a full cache of three keeps all three keys with their values |
| Scenarios.LookupDoesNotRefresh | CacheProject/LRUCache.cs:176-199 | reading key 1 of a full cache and then adding a fourth key still evicts key 1 |
| Scenarios.ResizeWithoutConsent | CacheProject/LRUCache.cs:47-85 | as written, growing a cache of two to three without consent is refused with a reported eviction count of -1, while shrinking it to one passes and loses the older key |
| Scenarios.ResetEmpties | CacheProject/LRUCache.cs:206-239 | after a reset a key that was added is not found, and the capacity is 100 |

## Findings

| source | as written | input that shows it | evidently intended | confidence | as-written member | corrected member |
|---|---|---|---|---|---|---|
| CacheProject/LRUCache.cs:54 | without `allowEviction`, a new capacity *greater* than the count is refused | a cache of 2 entries resized to 1 without consent passes and evicts an entry; resized to 3 it is refused with the message "would mean the eviction of -1 nodes" | refuse without consent only a capacity *smaller* than the count, i.e. one that would evict entries, as the comment on line 53, the documentation on lines 42-46 and the message on line 55 describe | high, not executed | LruCaches.ResizeConsentedLetsShrinkThrough | LruCaches.ResizeConsentedIntendedRefusesOnlyEviction |

`LruCaches.LRUCache.SetCacheCapacity` and `Scenarios.ResizeWithoutConsent` keep the test as
written. `LruCaches.LRUCache.SetCacheCapacityIntended` uses the corrected test and proves that
a resize without consent leaves the contents unchanged.

## Left out

- Locking: the reader-writer lock of the cache, the locks of the list and of each node, and the
  disposal and re-creation of the cache's lock in `ResetCache`. The model is sequential, so every
  method runs without interference.
- The singleton accessor `LRUCacheInstance` and the static storage of capacity, dictionary and
  list. In the source every instance shares these fields. In the model they are fields of one
  cache object, so creating a second cache does not reset the first.
- The `CacheCapacity` auto-property. It has no setter and is never assigned, so it always reads 0.
- The eviction event and its subscribers. The declaration on lines 12-14 of `LRUCache.cs` is
  incomplete and nothing raises it.
- `Class1.cs`, `temp2.cs`, `LRUCacheLinkedList.cs` and the `Program.cs` demonstration programs.
  They are drafts or console demonstrations and are not part of this model.
- The multi-threaded and stress tests. They check that concurrent calls do not fail, which a
  sequential model cannot express. Their sequential outcomes (100 additions, 50 evictions) are
  `Scenarios.AddHundredEvictFifty`.
- Scenarios.AddThenEvict: the evict test adds its 100 nodes in a plain loop with string keys and
  then runs its 50 evictions in parallel; the add test runs its 100 additions in parallel. The
  model runs both in sequential loops with integer keys, and checks the count only, as the
  tests do.
- Scenarios.ThreeNodeList: the list tests give all three nodes the key "One". The model uses keys
  1, 2 and 3 so that the order can be read back from the keys.
- The scenarios use integer keys where the cache tests use strings. The model is generic in the
  key type, so the choice does not matter.
- DoublyLinkedLists.DoublyLinkedList.MoveNodeToHeadOfList: it requires the node to be on the
  list. The source assumes the same (the cache only passes nodes from its dictionary). A foreign
  node with a previous link would corrupt the source's list.
- DoublyLinkedLists.DoublyLinkedList.AddAsHead: it requires the node not to be on the list
  already. The source assumes the same (the cache only adds freshly created nodes).

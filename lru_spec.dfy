/**
 * A reference model of the cache's contents: the live entries as a sequence ordered from most
 * recently used (index 0) to least recently used (the last index). The cache's methods are proved
 * to change their contents exactly as the functions here say.
 */
module LruSpec {
  import opened Wrappers
  import opened Sequences

  datatype Entry<K, V> = Entry(key: K, value: V)

  /** Every key occurs in at most one entry. */
  ghost predicate UniqueKeys<K, V>(s: seq<Entry<K, V>>) {
    forall i, j :: 0 <= i < j < |s| ==> s[i].key != s[j].key
  }

  /** The keys held, from most to least recent. */
  function Keys<K, V>(s: seq<Entry<K, V>>): (keys: seq<K>)
    ensures |keys| == |s|
    ensures forall i :: 0 <= i < |s| ==> keys[i] == s[i].key
  {
    seq(|s|, i requires 0 <= i < |s| => s[i].key)
  }

  /** The position of the most recent entry for `k`, or `None` when no entry has that key. */
  function Find<K(==), V>(s: seq<Entry<K, V>>, k: K): (r: Option<nat>)
    ensures r.Some? ==> r.value < |s| && s[r.value].key == k
    ensures r.Some? ==> forall j :: 0 <= j < r.value ==> s[j].key != k
    ensures r.None? <==> k !in Keys(s)
  {
    if s == [] then None
    else if s[0].key == k then Some(0)
    else
      var r := Find(s[1..], k);
      assert Keys(s) == [s[0].key] + Keys(s[1..]);
      if r.None? then None else Some(r.value + 1)
  }

  /** The value stored for `k`: what a lookup returns. */
  function Lookup<K(==), V>(s: seq<Entry<K, V>>, k: K): (r: Option<V>)
    ensures r.None? <==> k !in Keys(s)
    ensures r.Some? ==> Entry(k, r.value) in s
  {
    match Find(s, k)
    case Some(i) => Some(s[i].value)
    case None => None
  }

  /**
   * Insert-or-touch. A key already held is moved to the front and keeps its old value; a new key
   * goes in front, after the least recent entry is dropped when the cache is full.
   */
  function Put<K(==), V>(s: seq<Entry<K, V>>, k: K, v: V, capacity: int): (r: seq<Entry<K, V>>)
    requires 0 < capacity
    ensures r != [] && r[0].key == k
    ensures k in Keys(s) ==> |r| == |s|
    ensures k !in Keys(s) ==>
              && |r| == (if |s| < capacity then |s| + 1 else |s|)
              && r[0] == Entry(k, v) && r[1..] == s[..|r| - 1]
  {
    match Find(s, k)
    case Some(i) => MoveToFront(s, i)
    case None =>
      assert s[..|s|] == s;
      [Entry(k, v)] + (if |s| >= capacity then s[..|s| - 1] else s)
  }

  /** Resizing: the least recent entries are dropped until at most `capacity` remain. */
  function Shrink<K, V>(s: seq<Entry<K, V>>, capacity: nat): (r: seq<Entry<K, V>>)
    ensures |r| == if |s| < capacity then |s| else capacity
    ensures r == s[..|r|]
  {
    if |s| > capacity then s[..capacity] else s
  }

  /** With unique keys, an entry is found at its own position. */
  lemma {:induction false} FindAt<K, V>(s: seq<Entry<K, V>>, i: nat)
    requires UniqueKeys(s) && i < |s|
    ensures Find(s, s[i].key) == Some(i)
    ensures Lookup(s, s[i].key) == Some(s[i].value)
  {
    if i > 0 {
      assert s[0].key != s[i].key;
      assert s[1..][i - 1] == s[i];
      FindAt(s[1..], i - 1);
    }
  }

  /** Moving an entry to the front keeps keys unique. */
  lemma MoveToFrontKeepsUniqueKeys<K, V>(s: seq<Entry<K, V>>, i: nat)
    requires UniqueKeys(s) && i < |s|
    ensures UniqueKeys(MoveToFront(s, i))
  {
    var r := MoveToFront(s, i);
    forall a, b | 0 <= a < b < |r| ensures r[a].key != r[b].key {
      var a' := if a == 0 then i else if a <= i then a - 1 else a;
      var b' := if b == 0 then i else if b <= i then b - 1 else b;
      assert r[a] == s[a'] && r[b] == s[b'] && a' != b';
    }
  }

  /** Moving an entry to the front changes no key's stored value, and adds or removes no key. */
  lemma MoveToFrontKeepsLookup<K, V>(s: seq<Entry<K, V>>, i: nat, x: K)
    requires UniqueKeys(s) && i < |s|
    ensures Lookup(MoveToFront(s, i), x) == Lookup(s, x)
  {
    var r := MoveToFront(s, i);
    MoveToFrontKeepsUniqueKeys(s, i);
    if x in Keys(s) {
      var j := Find(s, x).value;
      var j' := if j == i then 0 else if j < i then j + 1 else j;
      assert r[j'] == s[j];
      FindAt(r, j');
    } else {
      assert x !in Keys(r) by {
        forall a | 0 <= a < |r| ensures r[a].key != x {
          var a' := if a == 0 then i else if a <= i then a - 1 else a;
          assert r[a] == s[a'] && Keys(s)[a'] == s[a'].key;
        }
      }
    }
  }

  /** Insert-or-touch keeps keys unique, stays within capacity and puts the key in front. */
  lemma PutKeepsInvariant<K, V>(s: seq<Entry<K, V>>, k: K, v: V, capacity: int)
    requires 0 < capacity && UniqueKeys(s) && |s| <= capacity
    ensures var r := Put(s, k, v, capacity);
      UniqueKeys(r) && |r| <= capacity && r != [] && r[0].key == k
  {
    var r := Put(s, k, v, capacity);
    match Find(s, k)
    case Some(i) =>
      MoveToFrontKeepsUniqueKeys(s, i);
    case None =>
      var rest := if |s| >= capacity then s[..|s| - 1] else s;
      assert r == [Entry(k, v)] + rest;
      forall j | 0 <= j < |rest| ensures rest[j].key != k {
        assert rest[j] == s[j] && Keys(s)[j] == s[j].key;
      }
  }

  /**
   * Touching a key already held changes only the order: the same number of entries, and every key
   * looks up to what it did before, so in particular the touched key keeps its old value.
   */
  lemma PutPresentKeepsEntries<K, V>(s: seq<Entry<K, V>>, k: K, v: V, capacity: int)
    requires 0 < capacity && UniqueKeys(s) && k in Keys(s)
    ensures var r := Put(s, k, v, capacity);
      && |r| == |s|
      && r[0].key == k
      && forall x :: Lookup(r, x) == Lookup(s, x)
  {
    var i := Find(s, k).value;
    forall x ensures Lookup(Put(s, k, v, capacity), x) == Lookup(s, x) {
      MoveToFrontKeepsLookup(s, i, x);
    }
  }

  /**
   * Adding a key not held puts a fresh entry in front. When the cache is full exactly the least
   * recent key is evicted; every other key looks up as before.
   */
  lemma PutAbsentInserts<K, V>(s: seq<Entry<K, V>>, k: K, v: V, capacity: int)
    requires 0 < capacity && UniqueKeys(s) && |s| <= capacity && k !in Keys(s)
    ensures var r := Put(s, k, v, capacity);
      && r[0] == Entry(k, v)
      && Keys(r) == [k] + (if |s| == capacity then Keys(s)[..|s| - 1] else Keys(s))
      && Lookup(r, k) == Some(v)
      && (|s| == capacity ==> Lookup(r, s[|s| - 1].key) == None)
      && forall x :: x != k && !(|s| == capacity && x == s[|s| - 1].key) ==> Lookup(r, x) == Lookup(s, x)
  {
    var r := Put(s, k, v, capacity);
    PutKeepsInvariant(s, k, v, capacity);
    FindAt(r, 0);
    if |s| == capacity {
      var last := s[|s| - 1].key;
      assert last !in Keys(r) by {
        forall a | 0 <= a < |r| ensures r[a].key != last {
          if a > 0 { assert r[a] == s[a - 1]; }
        }
      }
    }
    forall x | x != k && !(|s| == capacity && x == s[|s| - 1].key)
      ensures Lookup(r, x) == Lookup(s, x)
    {
      if x in Keys(s) {
        var j := Find(s, x).value;
        assert r[j + 1] == s[j];
        FindAt(r, j + 1);
      } else {
        assert x !in Keys(r) by {
          forall a | 0 <= a < |r| ensures r[a].key != x {
            if a > 0 { assert r[a] == s[a - 1] && Keys(s)[a - 1] == s[a - 1].key; }
          }
        }
      }
    }
  }

  /** A lookup after insert-or-touch finds the key, with its old value if it was already held. */
  lemma LookupAfterPut<K, V>(s: seq<Entry<K, V>>, k: K, v: V, capacity: int)
    requires 0 < capacity && UniqueKeys(s) && |s| <= capacity
    ensures Lookup(Put(s, k, v, capacity), k) == if k in Keys(s) then Lookup(s, k) else Some(v)
  {
    if k in Keys(s) {
      PutPresentKeepsEntries(s, k, v, capacity);
    } else {
      PutAbsentInserts(s, k, v, capacity);
    }
  }

  /** Adding a key twice never replaces the value given first. */
  lemma ValueNotReplaced<K, V>(s: seq<Entry<K, V>>, k: K, v1: V, v2: V, capacity: int)
    requires 0 < capacity && UniqueKeys(s) && |s| <= capacity && k !in Keys(s)
    ensures Lookup(Put(Put(s, k, v1, capacity), k, v2, capacity), k) == Some(v1)
  {
    var s1 := Put(s, k, v1, capacity);
    PutKeepsInvariant(s, k, v1, capacity);
    PutAbsentInserts(s, k, v1, capacity);
    LookupAfterPut(s1, k, v2, capacity);
  }

  /** A cache of capacity one always holds exactly the key touched last. */
  lemma CapacityOneHoldsLatest<K, V>(s: seq<Entry<K, V>>, k: K, v: V)
    requires UniqueKeys(s) && |s| <= 1
    ensures Keys(Put(s, k, v, 1)) == [k]
  {
    PutKeepsInvariant(s, k, v, 1);
  }

  /**
   * Resizing keeps the `capacity` most recent entries in their order, with their values, and drops
   * the rest.
   */
  lemma ShrinkKeepsMostRecent<K, V>(s: seq<Entry<K, V>>, capacity: nat)
    requires UniqueKeys(s)
    ensures var r := Shrink(s, capacity);
      && UniqueKeys(r)
      && |r| == (if |s| < capacity then |s| else capacity)
      && (forall i :: 0 <= i < |r| ==> Lookup(r, s[i].key) == Lookup(s, s[i].key))
      && (forall i :: |r| <= i < |s| ==> Lookup(r, s[i].key) == None)
  {
    var r := Shrink(s, capacity);
    forall i | 0 <= i < |r| ensures Lookup(r, s[i].key) == Lookup(s, s[i].key) {
      FindAt(r, i);
      FindAt(s, i);
    }
    forall i | |r| <= i < |s| ensures Lookup(r, s[i].key) == None {
      assert s[i].key !in Keys(r) by {
        forall a | 0 <= a < |r| ensures Keys(r)[a] != s[i].key {
          assert r[a] == s[a];
        }
      }
    }
  }
}

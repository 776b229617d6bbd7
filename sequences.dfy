/** Facts about sequences used by the recency list and the cache's reference model. */
module Sequences {

  /**
   * No element occurs twice. The pairwise fact is named `Apart` and used as the trigger, so that a
   * proof draws on it only for the pairs of positions it mentions.
   */
  ghost predicate Distinct<T>(s: seq<T>) {
    forall i, j {:trigger Apart(s, i, j)} :: 0 <= i < j < |s| ==> Apart(s, i, j)
  }

  /** Positions `i` and `j` of `s` hold different elements. */
  ghost predicate Apart<T>(s: seq<T>, i: int, j: int) {
    0 <= i < |s| && 0 <= j < |s| && s[i] != s[j]
  }

  /** Two different positions of a sequence without repetitions hold different elements. */
  lemma DistinctAt<T>(s: seq<T>, i: nat, j: nat)
    requires Distinct(s) && i < |s| && j < |s| && i != j
    ensures s[i] != s[j]
  {
    if i < j { assert Apart(s, i, j); } else { assert Apart(s, j, i); }
  }

  /** An element not yet present may be put in front without creating a repetition. */
  lemma DistinctCons<T>(x: T, s: seq<T>)
    requires Distinct(s) && x !in s
    ensures Distinct([x] + s)
  {
    var r := [x] + s;
    forall a, b | 0 <= a < b < |r| ensures Apart(r, a, b) {
      if a > 0 { DistinctAt(s, a - 1, b - 1); }
    }
  }

  /** Dropping the element at `i` keeps a sequence free of repetitions, and that element is no longer present. */
  lemma DistinctRemove<T>(s: seq<T>, i: nat)
    requires Distinct(s) && i < |s|
    ensures Distinct(s[..i] + s[i + 1..])
    ensures s[i] !in s[..i] + s[i + 1..]
  {
    var r := s[..i] + s[i + 1..];
    forall a, b | 0 <= a < b < |r| ensures Apart(r, a, b) {
      var a', b' := if a < i then a else a + 1, if b < i then b else b + 1;
      assert r[a] == s[a'] && r[b] == s[b'];
      DistinctAt(s, a', b');
    }
    forall a | 0 <= a < |r| ensures r[a] != s[i] {
      var a' := if a < i then a else a + 1;
      assert r[a] == s[a'];
      DistinctAt(s, a', i);
    }
  }

  /** The position of the first occurrence of `x` in `s`. */
  ghost function IndexOf<T>(s: seq<T>, x: T): (i: nat)
    requires x in s
    ensures i < |s| && s[i] == x
    ensures forall j :: 0 <= j < i ==> s[j] != x
  {
    if s[0] == x then 0 else 1 + IndexOf(s[1..], x)
  }

  /** In a sequence without repetitions, an element's position is the only one holding it. */
  lemma IndexOfDistinct<T>(s: seq<T>, i: nat)
    requires Distinct(s) && i < |s|
    ensures IndexOf(s, s[i]) == i
  {
    var j := IndexOf(s, s[i]);
    if j != i { DistinctAt(s, i, j); }
  }

  /** `s` with its `i`-th element taken out and put in front; the others keep their relative order. */
  function MoveToFront<T>(s: seq<T>, i: nat): (r: seq<T>)
    requires i < |s|
    ensures |r| == |s| && r[0] == s[i]
    ensures forall j :: 0 < j <= i ==> r[j] == s[j - 1]
    ensures forall j :: i < j < |s| ==> r[j] == s[j]
  {
    [s[i]] + s[..i] + s[i + 1..]
  }

  /** Moving the front element to the front changes nothing. */
  lemma MoveFrontToFront<T>(s: seq<T>)
    requires |s| > 0
    ensures MoveToFront(s, 0) == s
  {
  }

  /** Moving to the front rearranges the elements and loses or duplicates none. */
  lemma MoveToFrontPermutes<T>(s: seq<T>, i: nat)
    requires i < |s|
    ensures multiset(MoveToFront(s, i)) == multiset(s)
  {
    assert s == s[..i] + [s[i]] + s[i + 1..];
  }

  /** Moving to the front neither adds nor removes an element. */
  lemma MoveToFrontSameElements<T>(s: seq<T>, i: nat)
    requires i < |s|
    ensures forall x :: x in MoveToFront(s, i) <==> x in s
  {
    MoveToFrontPermutes(s, i);
    assert forall x :: x in MoveToFront(s, i) <==> x in multiset(MoveToFront(s, i));
  }

  /** Moving to the front keeps a sequence free of repetitions. */
  lemma MoveToFrontDistinct<T>(s: seq<T>, i: nat)
    requires i < |s| && Distinct(s)
    ensures Distinct(MoveToFront(s, i))
  {
    DistinctRemove(s, i);
    DistinctCons(s[i], s[..i] + s[i + 1..]);
    assert MoveToFront(s, i) == [s[i]] + (s[..i] + s[i + 1..]);
  }

  /** A prefix of a sequence without repetitions has none either. */
  lemma DistinctPrefix<T>(s: seq<T>, m: nat)
    requires Distinct(s) && m <= |s|
    ensures Distinct(s[..m])
  {
    forall a, b | 0 <= a < b < m ensures Apart(s[..m], a, b) {
      DistinctAt(s, a, b);
    }
  }

  /** A prefix of a prefix is a prefix, and its elements are elements of the whole. */
  lemma PrefixOfPrefix<T>(s: seq<T>, m: nat, n: nat)
    requires n <= m <= |s|
    ensures s[..m][..n] == s[..n]
    ensures forall x :: x in s[..n] ==> x in s
  {
  }
}

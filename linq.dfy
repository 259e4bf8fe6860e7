/**
 * Enumerable.OrderBy(keySelector): a stable sort of a sequence by keys that
 * the selector computes once per element, in order.
 */
module Linq {

  /** The keys paired with the elements they were computed for. */
  function Zip<T>(keys: seq<int>, xs: seq<T>): (z: seq<(int, T)>)
    requires |keys| == |xs|
    ensures |z| == |xs|
    ensures forall i :: 0 <= i < |z| ==> z[i] == (keys[i], xs[i])
  {
    if xs == [] then [] else [(keys[0], xs[0])] + Zip(keys[1..], xs[1..])
  }

  /** The elements of key-element pairs. */
  function Elements<T>(z: seq<(int, T)>): (xs: seq<T>)
    ensures |xs| == |z|
    ensures forall i :: 0 <= i < |z| ==> xs[i] == z[i].1
  {
    if z == [] then [] else [z[0].1] + Elements(z[1..])
  }

  ghost predicate SortedByKey<T>(z: seq<(int, T)>) {
    forall i, j :: 0 <= i < j < |z| ==> z[i].0 <= z[j].0
  }

  /** Places `p` before the first pair whose key is not smaller. */
  function Insert<T>(p: (int, T), z: seq<(int, T)>): seq<(int, T)> {
    if z == [] || p.0 <= z[0].0 then [p] + z else [z[0]] + Insert(p, z[1..])
  }

  /** Insertion sort; the head goes before the equal keys of the tail, so ties keep their order. */
  function SortByKey<T>(z: seq<(int, T)>): seq<(int, T)> {
    if z == [] then [] else Insert(z[0], SortByKey(z[1..]))
  }

  /** OrderBy: the elements, sorted by the keys computed for them. */
  function OrderBy<T>(xs: seq<T>, keys: seq<int>): seq<T>
    requires |keys| == |xs|
  {
    Elements(SortByKey(Zip(keys, xs)))
  }

  lemma {:induction false} InsertElements<T>(p: (int, T), z: seq<(int, T)>)
    ensures multiset(Elements(Insert(p, z))) == multiset{p.1} + multiset(Elements(z))
  {
    if z != [] && p.0 > z[0].0 {
      InsertElements(p, z[1..]);
      assert Elements(z) == [z[0].1] + Elements(z[1..]);
    }
  }

  lemma {:induction false} InsertPairs<T>(p: (int, T), z: seq<(int, T)>)
    ensures multiset(Insert(p, z)) == multiset{p} + multiset(z)
  {
    if z != [] && p.0 > z[0].0 {
      InsertPairs(p, z[1..]);
      assert z == [z[0]] + z[1..];
    }
  }

  lemma {:induction false} InsertLowerBound<T>(p: (int, T), z: seq<(int, T)>, b: int)
    requires b <= p.0
    requires forall i :: 0 <= i < |z| ==> b <= z[i].0
    ensures forall i :: 0 <= i < |Insert(p, z)| ==> b <= Insert(p, z)[i].0
  {
    if z != [] && p.0 > z[0].0 {
      InsertLowerBound(p, z[1..], b);
    }
  }

  lemma {:induction false} InsertSorted<T>(p: (int, T), z: seq<(int, T)>)
    requires SortedByKey(z)
    ensures SortedByKey(Insert(p, z))
  {
    if z != [] && p.0 > z[0].0 {
      InsertSorted(p, z[1..]);
      InsertLowerBound(p, z[1..], z[0].0);
    }
  }

  /** SortByKey sorts by key and only rearranges. */
  lemma {:induction false} SortByKeyCorrect<T>(z: seq<(int, T)>)
    ensures SortedByKey(SortByKey(z))
    ensures multiset(Elements(SortByKey(z))) == multiset(Elements(z))
  {
    if z != [] {
      SortByKeyCorrect(z[1..]);
      InsertSorted(z[0], SortByKey(z[1..]));
      InsertElements(z[0], SortByKey(z[1..]));
      assert Elements(z) == [z[0].1] + Elements(z[1..]);
    }
  }

  /** SortByKey keeps every (key, element) pair. */
  lemma {:induction false} SortByKeyPairs<T>(z: seq<(int, T)>)
    ensures multiset(SortByKey(z)) == multiset(z)
  {
    if z != [] {
      SortByKeyPairs(z[1..]);
      InsertPairs(z[0], SortByKey(z[1..]));
      assert z == [z[0]] + z[1..];
    }
  }

  /**
   * OrderBy returns the input elements rearranged (same length, same
   * multiset), listed in the order of a key-sorted arrangement of the
   * (key, element) pairs.
   */
  lemma OrderByPermutes<T>(xs: seq<T>, keys: seq<int>)
    requires |keys| == |xs|
    ensures |OrderBy(xs, keys)| == |xs|
    ensures multiset(OrderBy(xs, keys)) == multiset(xs)
    ensures SortedByKey(SortByKey(Zip(keys, xs)))
    ensures multiset(SortByKey(Zip(keys, xs))) == multiset(Zip(keys, xs))
  {
    var z := Zip(keys, xs);
    SortByKeyCorrect(z);
    SortByKeyPairs(z);
    assert Elements(z) == xs;
    assert |multiset(Elements(SortByKey(z)))| == |xs|;
  }
}

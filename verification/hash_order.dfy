/**
 * Iteration over Java's hash-based collections.
 *
 * A `HashMap<Integer, _>` or `HashSet` iterates in an order fixed by the hashes of
 * its keys: neither insertion order nor anything a caller may rely on. The model
 * takes that order as a parameter, a sequence of keys without repetition, and
 * iterates a collection by filtering the order down to the collection's keys.
 */
module HashOrder {

  /** No element occurs twice. */
  predicate NoDup<K(==)>(s: seq<K>) {
    forall i, j :: 0 <= i < j < |s| ==> s[i] != s[j]
  }

  /** `order` is a usable iteration order for a collection holding `keys`. */
  predicate Covers(order: seq<int>, keys: set<int>) {
    NoDup(order) && forall k :: k in keys ==> k in order
  }

  /** The keys in `keys`, in the order `order` lists them. */
  function Enumerate(order: seq<int>, keys: set<int>): (r: seq<int>)
    ensures forall k :: k in r <==> k in order && k in keys
    ensures NoDup(order) ==> NoDup(r)
    ensures |r| <= |order|
  {
    if order == [] then []
    else
      var rest := Enumerate(order[1..], keys);
      if order[0] in keys then
        [order[0]] + rest
      else rest
  }

  /** The values a map holds (what `Map.values()` yields, as a set). */
  function Range<V(==)>(m: map<int, V>): (r: set<V>)
    ensures forall k :: k in m ==> m[k] in r
    ensures forall v :: v in r ==> exists k :: k in m && m[k] == v
  {
    set k | k in m :: m[k]
  }

  /** The values a map holds under the keys `ks`, in the order of `ks`. */
  function Pick<V>(m: map<int, V>, ks: seq<int>): (r: seq<V>)
    requires forall i :: 0 <= i < |ks| ==> ks[i] in m
    ensures |r| == |ks|
    ensures forall i :: 0 <= i < |ks| ==> r[i] == m[ks[i]]
  {
    if ks == [] then [] else [m[ks[0]]] + Pick(m, ks[1..])
  }

  /** A sequence without repetition has as many elements as distinct values. */
  lemma {:induction false} NoDupCardinality<K>(s: seq<K>)
    requires NoDup(s)
    ensures |set x | x in s| == |s|
  {
    if s != [] {
      var t := s[1..];
      assert NoDup(t);
      NoDupCardinality(t);
      assert (set x | x in s) == {s[0]} + (set x | x in t) by {
        assert s == [s[0]] + t;
      }
    }
  }

  /** Iterating a collection whose keys the order covers visits every key exactly once. */
  lemma EnumerateLength(order: seq<int>, keys: set<int>)
    requires Covers(order, keys)
    ensures |Enumerate(order, keys)| == |keys|
  {
    var r := Enumerate(order, keys);
    NoDupCardinality(r);
    assert forall x :: x in (set y | y in r) <==> x in keys;
    assert (set y | y in r) == keys;
  }

  /** Two repetition-free sequences with no common element concatenate without repetition. */
  lemma NoDupConcat<K>(a: seq<K>, b: seq<K>)
    requires NoDup(a) && NoDup(b)
    requires forall x :: x in a ==> x !in b
    ensures NoDup(a + b)
  {
    forall i, j | 0 <= i < j < |a + b| ensures (a + b)[i] != (a + b)[j] {
      if j >= |a| && i < |a| {
        assert (a + b)[i] == a[i] && (a + b)[j] == b[j - |a|];
        assert a[i] in a;
      }
    }
  }

  /** Two repetition-free sequences with the same elements have the same length. */
  lemma SameElementsSameLength<K>(a: seq<K>, b: seq<K>)
    requires NoDup(a) && NoDup(b)
    requires forall x :: x in a <==> x in b
    ensures |a| == |b|
  {
    assert (set x | x in a) == (set x | x in b);
    NoDupCardinality(a);
    NoDupCardinality(b);
  }

  /** Iterating a map in a covering order yields exactly its values. */
  lemma PickAll<V>(m: map<int, V>, order: seq<int>)
    requires Covers(order, m.Keys)
    ensures forall v :: v in Pick(m, Enumerate(order, m.Keys)) <==> v in Range(m)
  {
    var ks := Enumerate(order, m.Keys);
    var r := Pick(m, ks);
    forall v | v in Range(m) ensures v in r {
      var k :| k in m && m[k] == v;
      assert k in ks;
      var i :| 0 <= i < |ks| && ks[i] == k;
      assert r[i] == v;
    }
    forall v | v in r ensures v in Range(m) {
      var i :| 0 <= i < |r| && r[i] == v;
      assert ks[i] in ks;
    }
  }
}

/**
 * Insertion-ordered maps as JavaScript's `Map` keeps them, written as a
 * sequence of (key, value) pairs: iteration follows the order in which keys
 * were first set, and setting a key that is already present replaces its
 * value where it stands.
 */
module OrderedMap {
  import opened Wrappers

  /** The keys of `m`, in iteration order. */
  function Keys<K, V>(m: seq<(K, V)>): seq<K> {
    seq(|m|, i requires 0 <= i < |m| => m[i].0)
  }

  /** No key occurs twice: what every map built with `Put` from the empty one satisfies. */
  ghost predicate UniqueKeys<K, V>(m: seq<(K, V)>) {
    forall i, j :: 0 <= i < j < |m| ==> m[i].0 != m[j].0
  }

  /** Position of the first occurrence of `x` in `s`. */
  function FirstIndex<T(==)>(s: seq<T>, x: T): (i: nat)
    requires x in s
    ensures i < |s| && s[i] == x
    ensures forall j :: 0 <= j < i ==> s[j] != x
  {
    if s[0] == x then 0 else FirstIndex(s[1..], x) + 1
  }

  /** Appending to a sequence does not move the first occurrence of an element already in it. */
  lemma FirstIndexAppend<T>(s: seq<T>, t: seq<T>, x: T)
    requires x in s
    ensures x in s + t && FirstIndex(s + t, x) == FirstIndex(s, x)
  {
    assert (s + t)[FirstIndex(s, x)] == x;
  }

  /**
   * `r` lists every element of `s` exactly once, in the order of their first
   * occurrences in `s`.
   */
  ghost predicate IsDedupOf<T(!new)>(r: seq<T>, s: seq<T>) {
    && (forall i, j :: 0 <= i < j < |r| ==> r[i] != r[j])
    && (forall x :: x in r <==> x in s)
    && (forall i, j :: 0 <= i < j < |r| ==> FirstIndex(s, r[i]) < FirstIndex(s, r[j]))
  }

  /** Extending `s` by one element extends its deduplication by that element when it is new. */
  lemma DedupAppend<T(!new)>(r: seq<T>, s: seq<T>, x: T)
    requires IsDedupOf(r, s)
    ensures IsDedupOf(if x in s then r else r + [x], s + [x])
  {
    var s' := s + [x];
    forall y | y in s
      ensures y in s' && FirstIndex(s', y) == FirstIndex(s, y)
    {
      FirstIndexAppend(s, [x], y);
    }
    if x !in s {
      var r' := r + [x];
      assert FirstIndex(s', x) == |s| by {
        assert s'[|s|] == x;
      }
      forall i, j | 0 <= i < j < |r'|
        ensures r'[i] != r'[j] && FirstIndex(s', r'[i]) < FirstIndex(s', r'[j])
      {
        assert r'[i] == r[i] && r[i] in s;
        if j == |r| {
          assert r'[j] == x;
        } else {
          assert r'[j] == r[j];
        }
      }
    }
  }

  /** `Map.prototype.has`. */
  predicate Has<K(==), V>(m: seq<(K, V)>, k: K): (b: bool)
    ensures b <==> exists i :: 0 <= i < |m| && m[i].0 == k
  {
    assert forall i :: 0 <= i < |m| ==> Keys(m)[i] == m[i].0;
    k in Keys(m)
  }

  /** `Map.prototype.get`: the value stored under `k`, or `None` where JavaScript gives `undefined`. */
  function Get<K(==), V>(m: seq<(K, V)>, k: K): (r: Option<V>)
    ensures r.Some? <==> Has(m, k)
    ensures r.Some? ==> exists i :: 0 <= i < |m| && m[i] == (k, r.value)
  {
    if Has(m, k) then
      var i := FirstIndex(Keys(m), k);
      assert m[i] == (k, m[i].1);
      Some(m[i].1)
    else None
  }

  /** In a map without repeated keys, every pair is what `Get` finds under its key. */
  lemma GetAt<K, V>(m: seq<(K, V)>, i: nat)
    requires UniqueKeys(m) && i < |m|
    ensures Get(m, m[i].0) == Some(m[i].1)
  {
    var ks := Keys(m);
    assert ks[i] == m[i].0;
    var f := FirstIndex(ks, m[i].0);
    if f != i {
      assert m[f].0 == m[i].0;
    }
  }

  /**
   * `Map.prototype.set`: a key already present keeps its position and gets
   * the new value; a new key is appended at the end.
   */
  function Put<K(==,!new), V>(m: seq<(K, V)>, k: K, v: V): (r: seq<(K, V)>)
    ensures Keys(r) == if Has(m, k) then Keys(m) else Keys(m) + [k]
    ensures Get(r, k) == Some(v)
    ensures forall k' :: k' != k ==> Get(r, k') == Get(m, k')
    ensures UniqueKeys(m) ==> UniqueKeys(r)
  {
    if Has(m, k) then
      var i := FirstIndex(Keys(m), k);
      var r := m[i := (k, v)];
      assert Keys(r) == Keys(m);
      r
    else
      var r := m + [(k, v)];
      assert forall j :: 0 <= j < |m| ==> Keys(m)[j] == m[j].0;
      assert Keys(r) == Keys(m) + [k];
      PutNewKeys(m, k, v);
      r
  }

  /** Looking up any other key is unaffected by appending a pair for a new key. */
  lemma PutNewKeys<K, V>(m: seq<(K, V)>, k: K, v: V)
    requires !Has(m, k)
    ensures Keys(m + [(k, v)]) == Keys(m) + [k]
    ensures forall k' :: Has(m, k') ==> FirstIndex(Keys(m + [(k, v)]), k') == FirstIndex(Keys(m), k')
  {
    assert Keys(m + [(k, v)]) == Keys(m) + [k];
    forall k' | Has(m, k')
      ensures FirstIndex(Keys(m + [(k, v)]), k') == FirstIndex(Keys(m), k')
    {
      FirstIndexAppend(Keys(m), [k], k');
    }
  }
}

/**
 * Ordered dictionaries: the `Dictionary<TKey, TValue>` and `JsonObject` tables of the
 * source enumerate their entries in insertion order and never hold a key twice.
 */
module Dictionaries {
  import opened Wrappers

  /** No key occurs twice. */
  predicate DistinctKeys<K(==), V>(s: seq<(K, V)>) {
    forall i, j :: 0 <= i < j < |s| ==> s[i].0 != s[j].0
  }

  /** An ordered dictionary: entries in enumeration order, keys distinct. */
  type Dictionary<K(==), V> = s: seq<(K, V)> | DistinctKeys(s)

  /** The keys of a table. */
  function Keys<K(==), V>(s: seq<(K, V)>): (ks: set<K>)
    ensures forall i :: 0 <= i < |s| ==> s[i].0 in ks
  {
    if s == [] then {} else {s[0].0} + Keys(s[1..])
  }

  /** The value of the first entry whose key is `k`, if any (the indexer's read). */
  function Lookup<K(==), V>(s: seq<(K, V)>, k: K): (r: Option<V>)
    ensures r.Some? <==> k in Keys(s)
    ensures r.Some? ==> (k, r.value) in s
  {
    if s == [] then None
    else if s[0].0 == k then Some(s[0].1)
    else Lookup(s[1..], k)
  }

  /** `Dictionary.Add`: appends an entry; the .NET method throws on a key already present. */
  function Add<K(==), V>(d: Dictionary<K, V>, k: K, v: V): (r: Dictionary<K, V>)
    requires k !in Keys(d)
    ensures Keys(r) == Keys(d) + {k}
    ensures |r| == |d| + 1 && r[..|d|] == d && r[|d|] == (k, v)
  {
    var r := d + [(k, v)];
    ConcatKeys(d, [(k, v)]);
    assert Keys([(k, v)]) == {k};
    r
  }

  /** The keys, value lookup and distinctness of a table with one entry in front. */
  lemma Cons<K, V>(p: (K, V), s: seq<(K, V)>)
    ensures Keys([p] + s) == {p.0} + Keys(s)
    ensures forall k :: Lookup([p] + s, k) == if p.0 == k then Some(p.1) else Lookup(s, k)
    ensures DistinctKeys([p] + s) <==> p.0 !in Keys(s) && DistinctKeys(s)
  {
    var t := [p] + s;
    assert t[1..] == s;
    assert forall i :: 0 <= i < |s| ==> s[i] == t[i + 1];
    if DistinctKeys([p] + s) {
      forall i, j | 0 <= i < j < |s| ensures s[i].0 != s[j].0 {
        assert t[i + 1].0 != t[j + 1].0;
      }
    }
    if p.0 !in Keys(s) && DistinctKeys(s) {
      forall i, j | 0 <= i < j < |t| ensures t[i].0 != t[j].0 {
        if i > 0 {
          assert t[i] == s[i - 1] && t[j] == s[j - 1];
        } else {
          assert t[j].0 in Keys(s);
        }
      }
    }
  }

  /** Tables with the same key in every position have the same keys. */
  lemma {:induction false} SameKeys<K, V, W>(s: seq<(K, V)>, t: seq<(K, W)>)
    requires |s| == |t| && forall i :: 0 <= i < |s| ==> s[i].0 == t[i].0
    ensures Keys(s) == Keys(t)
    decreases |s|
  {
    if s != [] {
      SameKeys(s[1..], t[1..]);
    }
  }

  /** The keys of a concatenation. */
  lemma {:induction false} ConcatKeys<K, V>(s: seq<(K, V)>, t: seq<(K, V)>)
    ensures Keys(s + t) == Keys(s) + Keys(t)
  {
    if s == [] {
      assert s + t == t;
    } else {
      ConcatKeys(s[1..], t);
      assert (s + t)[1..] == s[1..] + t;
    }
  }

  /** A lookup in a concatenation finds the first table's entry first. */
  lemma {:induction false} ConcatLookup<K, V>(s: seq<(K, V)>, t: seq<(K, V)>, k: K)
    ensures Lookup(s + t, k) == if k in Keys(s) then Lookup(s, k) else Lookup(t, k)
  {
    if s == [] {
      assert s + t == t;
    } else {
      ConcatLookup(s[1..], t, k);
      assert (s + t)[1..] == s[1..] + t;
    }
  }

  /** A concatenation has distinct keys exactly when both parts do and share no key. */
  lemma {:induction false} ConcatDistinct<K, V>(s: seq<(K, V)>, t: seq<(K, V)>)
    ensures DistinctKeys(s + t) <==> DistinctKeys(s) && DistinctKeys(t) && Keys(s) !! Keys(t)
  {
    if s == [] {
      assert s + t == t;
    } else {
      ConcatDistinct(s[1..], t);
      ConcatKeys(s[1..], t);
      assert s + t == [s[0]] + (s[1..] + t);
      Cons(s[0], s[1..] + t);
      Cons(s[0], s[1..]);
      assert [s[0]] + s[1..] == s;
    }
  }
}

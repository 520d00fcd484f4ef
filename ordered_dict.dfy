/**
 * An insertion-ordered dictionary, as Python's `OrderedDict`, represented as an
 * association list: the pairs in iteration order.
 */
module OrderedDicts {
  import opened Wrappers

  type Dict<K(==, !new), V> = seq<(K, V)>

  /** The keys in iteration order. */
  function Keys<K(==, !new), V>(d: Dict<K, V>): (ks: seq<K>)
    ensures |ks| == |d|
    ensures forall i | 0 <= i < |d| :: ks[i] == d[i].0
  {
    if |d| == 0 then [] else [d[0].0] + Keys(d[1..])
  }

  /** No key occurs twice. */
  predicate Distinct<K(==, !new)>(ks: seq<K>) {
    forall i, j | 0 <= i < j < |ks| :: ks[i] != ks[j]
  }

  /** `d[k]`: the value stored under the first pair with key `k`, if any. */
  function Get<K(==, !new), V>(d: Dict<K, V>, k: K): (r: Option<V>)
    ensures r.None? <==> k !in Keys(d)
    ensures r.Some? ==> exists i | 0 <= i < |d| :: d[i] == (k, r.value)
  {
    if |d| == 0 then None
    else if d[0].0 == k then Some(d[0].1)
    else Get(d[1..], k)
  }

  /**
   * `d[k] = v`: a key already present keeps its position and gets the new
   * value; a new key is appended at the end.
   */
  function Set<K(==, !new), V>(d: Dict<K, V>, k: K, v: V): (r: Dict<K, V>)
    ensures Keys(r) == if k in Keys(d) then Keys(d) else Keys(d) + [k]
  {
    if |d| == 0 then [(k, v)]
    else if d[0].0 == k then [(k, v)] + d[1..]
    else [d[0]] + Set(d[1..], k, v)
  }

  /** After `d[k] = v`, looking up `k` gives `v` and every other key reads as before. */
  lemma {:induction false} SetGet<K(!new), V>(d: Dict<K, V>, k: K, v: V, k': K)
    ensures Get(Set(d, k, v), k') == if k' == k then Some(v) else Get(d, k')
  {
    if |d| > 0 && d[0].0 != k {
      SetGet(d[1..], k, v, k');
      assert Set(d, k, v)[1..] == Set(d[1..], k, v);
    }
  }

  /** The keys of `ks` with repeats removed, each at its first position. */
  function FirstOccurrences<K(==, !new)>(ks: seq<K>): (r: seq<K>)
    decreases |ks|
  {
    if |ks| == 0 then []
    else
      var p := FirstOccurrences(ks[..|ks| - 1]);
      if ks[|ks| - 1] in p then p else p + [ks[|ks| - 1]]
  }

  /** The position of the first occurrence of `x` in `ks`. */
  function IndexOf<K(==, !new)>(ks: seq<K>, x: K): (r: nat)
    requires x in ks
    ensures r < |ks| && ks[r] == x && x !in ks[..r]
  {
    if ks[0] == x then 0 else 1 + IndexOf(ks[1..], x)
  }

  /** A first-occurrence position is determined by the two facts that define it. */
  lemma {:induction false} IndexOfUnique<K(!new)>(ks: seq<K>, x: K, r: nat)
    requires r < |ks| && ks[r] == x && x !in ks[..r]
    ensures IndexOf(ks, x) == r
  {
    if r > 0 {
      assert ks[0] == ks[..r][0];
      assert ks[1..][..r - 1] == ks[..r][1..];
      IndexOfUnique(ks[1..], x, r - 1);
    }
  }

  /**
   * `FirstOccurrences(ks)` holds every key of `ks` exactly once, and lists the
   * keys in the order of their first occurrences in `ks`.
   */
  lemma {:induction false} FirstOccurrencesSpec<K(!new)>(ks: seq<K>)
    ensures Distinct(FirstOccurrences(ks))
    ensures forall x :: x in FirstOccurrences(ks) <==> x in ks
    ensures forall i, j | 0 <= i < j < |FirstOccurrences(ks)| ::
              IndexOf(ks, FirstOccurrences(ks)[i]) < IndexOf(ks, FirstOccurrences(ks)[j])
  {
    if |ks| > 0 {
      var n := |ks|;
      var init := ks[..n - 1];
      assert ks == init + [ks[n - 1]];
      FirstOccurrencesSpec(init);
      var p := FirstOccurrences(init);
      var r := FirstOccurrences(ks);
      forall x | x in init
        ensures IndexOf(ks, x) == IndexOf(init, x)
      {
        var q := IndexOf(init, x);
        assert ks[..q] == init[..q];
        IndexOfUnique(ks, x, q);
      }
      if ks[n - 1] !in p {
        assert ks[..n - 1] == init;
        IndexOfUnique(ks, ks[n - 1], n - 1);
        forall i, j | 0 <= i < j < |r|
          ensures IndexOf(ks, r[i]) < IndexOf(ks, r[j])
        {
          assert r[i] == p[i] && r[i] in init;
          if j < |p| {
            assert r[j] == p[j] && r[j] in init;
          }
        }
      }
    }
  }
}

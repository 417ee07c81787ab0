/** Dictionaries that remember insertion order, as Python's do. Iterating a
    dictionary visits `keys` from the front; the loops of crossrefs.py depend
    on that order. */
module Dicts {

  /** `keys` lists the keys in insertion order; `vals` maps each to its value. */
  datatype Dict<V> = Dict(keys: seq<string>, vals: map<string, V>)

  predicate Distinct(s: seq<string>)
  {
    forall i, j :: 0 <= i < j < |s| ==> s[i] != s[j]
  }

  /** Every key is listed once, and the listed keys are the keys of the map. */
  ghost predicate Valid<V>(d: Dict<V>)
  {
    Distinct(d.keys) && forall k :: k in d.vals <==> k in d.keys
  }

  /** `d[k] = v`: a new key goes last, an existing key keeps its place. */
  function Set<V>(d: Dict<V>, k: string, v: V): (r: Dict<V>)
    ensures r.vals == d.vals[k := v]
    ensures |d.keys| <= |r.keys| && r.keys[..|d.keys|] == d.keys
  {
    if k in d.vals then Dict(d.keys, d.vals[k := v])
    else Dict(d.keys + [k], d.vals[k := v])
  }

  /** Setting a key keeps the dictionary valid, and adds a key exactly when
      it was absent. */
  lemma SetValid<V>(d: Dict<V>, k: string, v: V)
    requires Valid(d)
    ensures Valid(Set(d, k, v))
    ensures |Set(d, k, v).keys| == |d.keys| + (if k in d.vals then 0 else 1)
  {
  }

  /** The keys of `s` other than those in `ks`, in their order. */
  function Filter(s: seq<string>, ks: set<string>): (r: seq<string>)
    ensures forall j :: j in r <==> j in s && j !in ks
    ensures |r| <= |s|
  {
    if s == [] then []
    else Filter(s[..|s| - 1], ks) + (if s[|s| - 1] in ks then [] else [s[|s| - 1]])
  }

  lemma {:induction false} FilterDistinct(s: seq<string>, ks: set<string>)
    requires Distinct(s)
    ensures Distinct(Filter(s, ks))
    decreases |s|
  {
    if s != [] {
      var n := |s| - 1;
      assert Distinct(s[..n]);
      FilterDistinct(s[..n], ks);
      assert s[n] !in s[..n];
    }
  }

  /** Filtering the filtered keys once more is filtering by both sets. */
  lemma {:induction false} FilterFilter(s: seq<string>, a: set<string>, b: set<string>)
    ensures Filter(Filter(s, a), b) == Filter(s, a + b)
    decreases |s|
  {
    if s != [] {
      var n := |s| - 1;
      var f := Filter(s[..n], a);
      FilterFilter(s[..n], a, b);
      if s[n] in a {
        assert Filter(s, a) == f;
      } else {
        assert Filter(s, a) == f + [s[n]];
        assert (f + [s[n]])[..|f|] == f;
      }
    }
  }

  lemma {:induction false} FilterNone(s: seq<string>)
    ensures Filter(s, {}) == s
  {
    if s != [] {
      FilterNone(s[..|s| - 1]);
    }
  }

  /** `del d[k]`: the remaining keys keep their order. Python raises
      `KeyError` for a missing key; every caller deletes a key it has. */
  function Delete<V>(d: Dict<V>, k: string): (r: Dict<V>)
    requires k in d.vals
    ensures r.vals == d.vals - {k}
    ensures r.keys == Filter(d.keys, {k})
  {
    Dict(Filter(d.keys, {k}), d.vals - {k})
  }

  lemma DeleteValid<V>(d: Dict<V>, k: string)
    requires Valid(d) && k in d.vals
    ensures Valid(Delete(d, k))
  {
    FilterDistinct(d.keys, {k});
  }
}

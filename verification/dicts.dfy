/**
 * Python dictionaries as the program uses them: a finite map that remembers
 * the order in which keys were first inserted.  A comprehension
 * `{k(x): v(x) for x in xs}` is a left fold of `Put` over its pairs.
 */
module Dicts {
  import opened Common

  /** No element occurs twice. */
  predicate Distinct<T(==)>(xs: seq<T>) {
    forall i, j :: 0 <= i < j < |xs| ==> xs[i] != xs[j]
  }

  /** The elements of `xs` in the order of their first occurrence, each once. */
  function Dedup<T(==,!new)>(xs: seq<T>): (d: seq<T>)
    ensures Distinct(d)
    ensures forall x :: x in d <==> x in xs
    ensures |d| <= |xs|
    decreases |xs|
  {
    if xs == [] then []
    else
      var d := Dedup(xs[..|xs| - 1]);
      var x := xs[|xs| - 1];
      assert xs == xs[..|xs| - 1] + [x];
      if x in d then d else d + [x]
  }

  /** The index of the first occurrence of `x` in `xs`. */
  function FirstIndex<T(==)>(xs: seq<T>, x: T): (i: nat)
    requires x in xs
    ensures i < |xs| && xs[i] == x
    ensures forall j :: 0 <= j < i ==> xs[j] != x
  {
    if xs[0] == x then 0 else 1 + FirstIndex(xs[1..], x)
  }

  /** `Dedup` keeps the order of first occurrences: an earlier element was seen first. */
  lemma {:induction false} DedupFirstOccurrenceOrder<T(!new)>(xs: seq<T>, i: nat, j: nat)
    requires i < j < |Dedup(xs)|
    ensures FirstIndex(xs, Dedup(xs)[i]) < FirstIndex(xs, Dedup(xs)[j])
    decreases |xs|
  {
    var init := xs[..|xs| - 1];
    var x := xs[|xs| - 1];
    var d := Dedup(init);
    FirstIndexPrefix(xs, init, Dedup(xs)[i]);
    if j < |d| {
      DedupFirstOccurrenceOrder(init, i, j);
      FirstIndexPrefix(xs, init, Dedup(xs)[j]);
    } else {
      assert Dedup(xs)[j] == x && x !in init;
    }
  }

  /** An element of a prefix is first found in the prefix. */
  lemma FirstIndexPrefix<T>(xs: seq<T>, init: seq<T>, x: T)
    requires |init| <= |xs| && init == xs[..|init|] && x in init
    ensures FirstIndex(xs, x) == FirstIndex(init, x)
  {
  }

  /** An insertion-ordered dictionary: `keys` in insertion order, `values` the mapping. */
  datatype Dict<K, V> = Dict(keys: seq<K>, values: map<K, V>)

  /** The keys are listed once each, and exactly the keys of the mapping are listed. */
  predicate Valid<K(!new), V>(d: Dict<K, V>) {
    && Distinct(d.keys)
    && (forall k :: k in d.values ==> k in d.keys)
    && (forall i :: 0 <= i < |d.keys| ==> d.keys[i] in d.values)
  }

  function Empty<K(!new), V>(): (d: Dict<K, V>)
    ensures Valid(d) && d.keys == []
  {
    Dict([], map[])
  }

  /** `d[k] = v`: a new key goes to the end, an existing key keeps its place. */
  function Put<K(!new), V>(d: Dict<K, V>, k: K, v: V): (r: Dict<K, V>)
    requires Valid(d)
    ensures Valid(r)
    ensures k in r.values && r.values[k] == v
    ensures forall k' :: k' != k ==> (k' in r.values <==> k' in d.values)
    ensures forall k' :: k' != k && k' in d.values ==> r.values[k'] == d.values[k']
    ensures k in d.values ==> r.keys == d.keys
    ensures k !in d.values ==> r.keys == d.keys + [k]
  {
    Dict(if k in d.values then d.keys else d.keys + [k], d.values[k := v])
  }

  /** `d.get(k, default)`. */
  function GetOr<K, V>(d: Dict<K, V>, k: K, default: V): V {
    if k in d.values then d.values[k] else default
  }

  /** The keys of a list of pairs, in order. */
  function Firsts<K, V>(ps: seq<(K, V)>): (ks: seq<K>)
    ensures |ks| == |ps| && forall i :: 0 <= i < |ps| ==> ks[i] == ps[i].0
  {
    seq(|ps|, i requires 0 <= i < |ps| => ps[i].0)
  }

  /** `dict(ps)`, equivalently `{k: v for k, v in ps}`: later pairs overwrite earlier ones. */
  function FromPairs<K(!new), V>(ps: seq<(K, V)>): (d: Dict<K, V>)
    ensures Valid(d)
    ensures d.keys == Dedup(Firsts(ps))
    decreases |ps|
  {
    if ps == [] then Empty()
    else
      var init := ps[..|ps| - 1];
      var p := ps[|ps| - 1];
      assert Firsts(ps) == Firsts(init) + [p.0];
      Put(FromPairs(init), p.0, p.1)
  }

  /** Every entry of `dict(ps)` comes from some pair of `ps`. */
  lemma {:induction false} FromPairsSource<K(!new), V>(ps: seq<(K, V)>, k: K)
    requires k in FromPairs(ps).values
    ensures exists i :: 0 <= i < |ps| && ps[i] == (k, FromPairs(ps).values[k])
    decreases |ps|
  {
    var init := ps[..|ps| - 1];
    var p := ps[|ps| - 1];
    if k == p.0 {
      assert ps[|ps| - 1] == (k, FromPairs(ps).values[k]);
    } else {
      FromPairsSource(init, k);
      var i :| 0 <= i < |init| && init[i] == (k, FromPairs(init).values[k]);
      assert ps[i] == (k, FromPairs(ps).values[k]);
    }
  }

  /** The last pair with a given key decides that key's value in `dict(ps)`. */
  lemma {:induction false} FromPairsLastWins<K(!new), V>(ps: seq<(K, V)>, i: nat)
    requires i < |ps|
    requires forall j :: i < j < |ps| ==> ps[j].0 != ps[i].0
    ensures ps[i].0 in FromPairs(ps).values && FromPairs(ps).values[ps[i].0] == ps[i].1
    decreases |ps|
  {
    if i < |ps| - 1 {
      var init := ps[..|ps| - 1];
      assert init[i] == ps[i];
      assert forall j :: i < j < |init| ==> init[j].0 != init[i].0 by {
        forall j | i < j < |init| ensures init[j].0 != init[i].0 {
          assert init[j] == ps[j];
        }
      }
      FromPairsLastWins(init, i);
    }
  }

  /** When every pair's value is `f` of its key, the dictionary maps each key to `f` of it. */
  lemma FromPairsFunctional<K(!new), V>(ps: seq<(K, V)>, f: K -> V, k: K)
    requires forall i :: 0 <= i < |ps| ==> ps[i].1 == f(ps[i].0)
    requires k in FromPairs(ps).values
    ensures FromPairs(ps).values[k] == f(k)
  {
    FromPairsSource(ps, k);
  }

  /** The values of a valid dictionary in key order, as `list(d.values())`. */
  function ValuesInOrder<K(!new), V>(d: Dict<K, V>): (vs: seq<V>)
    requires Valid(d)
    ensures |vs| == |d.keys|
    ensures forall i :: 0 <= i < |d.keys| ==> vs[i] == d.values[d.keys[i]]
  {
    seq(|d.keys|, i requires 0 <= i < |d.keys| => d.values[d.keys[i]])
  }
}

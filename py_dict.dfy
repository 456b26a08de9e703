/**
 * Python's built-in dict, as the source uses it: an insertion-ordered map.
 * A dict is an association list whose keys are pairwise distinct; its key
 * order is the order in which the keys were first inserted. Assigning to a
 * key that is already present (`d[k] = v`) replaces the value and keeps the
 * key where it was; assigning to a new key appends it at the end. A dict
 * comprehension is a left fold of that assignment over its source.
 */
module PyDict {
  import opened Wrappers

  type Dict<K, V> = seq<(K, V)>

  /** The keys in iteration order (`list(d.keys())`). */
  function Keys<K, V>(d: Dict<K, V>): seq<K> {
    seq(|d|, i requires 0 <= i < |d| => d[i].0)
  }

  /** The invariant every Python dict keeps: no key occurs twice. */
  predicate Wf<K(==), V>(d: Dict<K, V>) {
    Distinct(Keys(d))
  }

  predicate Distinct<T(==)>(xs: seq<T>) {
    forall i, j :: 0 <= i < j < |xs| ==> xs[i] != xs[j]
  }

  lemma DistinctCons<T>(x: T, xs: seq<T>)
    ensures Distinct([x] + xs) <==> x !in xs && Distinct(xs)
  {
    if x !in xs && Distinct(xs) {
      forall i, j | 0 <= i < j < |[x] + xs| ensures ([x] + xs)[i] != ([x] + xs)[j] {
        if i > 0 { assert ([x] + xs)[i] == xs[i - 1]; }
      }
    }
    if Distinct([x] + xs) {
      forall i, j | 0 <= i < j < |xs| ensures xs[i] != xs[j] {
        assert xs[i] == ([x] + xs)[i + 1] && xs[j] == ([x] + xs)[j + 1];
      }
      forall i | 0 <= i < |xs| ensures xs[i] != x {
        assert x == ([x] + xs)[0] && xs[i] == ([x] + xs)[i + 1];
      }
    }
  }

  /** `d.get(k)`: the value stored under `k`, if any. */
  function Lookup<K(==), V>(d: Dict<K, V>, k: K): (r: Option<V>)
    ensures r.None? <==> k !in Keys(d)
    ensures r.Some? ==> exists i :: 0 <= i < |d| && d[i] == (k, r.value)
  {
    if d == [] then None
    else if d[0].0 == k then
      assert Keys(d)[0] == k;
      Some(d[0].1)
    else
      assert Keys(d) == [d[0].0] + Keys(d[1..]);
      var r := Lookup(d[1..], k);
      assert r.Some? ==> exists i :: 0 <= i < |d[1..]| && d[1..][i] == (k, r.value);
      r
  }

  /** In a well-formed dict every entry is what a lookup of its key finds. */
  lemma {:induction false} LookupAt<K, V>(d: Dict<K, V>, i: nat)
    requires Wf(d) && i < |d|
    ensures Lookup(d, d[i].0) == Some(d[i].1)
  {
    if i > 0 {
      assert d == [d[0]] + d[1..];
      KeysCons(d[0], d[1..]);
      DistinctCons(d[0].0, Keys(d[1..]));
      assert Keys(d)[0] != Keys(d)[i];
      LookupAt(d[1..], i - 1);
    }
  }

  /**
   * `d[k] = v`: replaces the value of a present key in place and appends a
   * new key at the end, so the key order is that of first insertion.
   */
  function Put<K(==), V>(d: Dict<K, V>, k: K, v: V): (r: Dict<K, V>)
    ensures Keys(r) == if k in Keys(d) then Keys(d) else Keys(d) + [k]
    ensures Wf(d) ==> Wf(r)
  {
    if d == [] then [(k, v)]
    else if d[0].0 == k then
      KeysCons((k, v), d[1..]);
      KeysCons(d[0], d[1..]);
      assert d == [d[0]] + d[1..];
      assert Keys(d)[0] == k;
      [(k, v)] + d[1..]
    else
      var rest := Put(d[1..], k, v);
      KeysCons(d[0], d[1..]);
      KeysCons(d[0], rest);
      assert d == [d[0]] + d[1..];
      DistinctCons(d[0].0, Keys(d[1..]));
      DistinctCons(d[0].0, Keys(rest));
      [d[0]] + rest
  }

  /** After `d[k] = v`, `k` maps to `v` and every other key to what it did. */
  lemma {:induction false} LookupPut<K, V>(d: Dict<K, V>, k: K, v: V, k': K)
    ensures Lookup(Put(d, k, v), k') == if k' == k then Some(v) else Lookup(d, k')
  {
    if d != [] && d[0].0 != k {
      LookupPut(d[1..], k, v, k');
    }
  }

  lemma KeysCons<K, V>(x: (K, V), d: Dict<K, V>)
    ensures Keys([x] + d) == [x.0] + Keys(d)
  {
  }

  /** Iterating a dict's `items()` and mapping every value. */
  function MapValues<K(==,!new), V, W>(d: Dict<K, V>, f: V -> W): (r: Dict<K, W>)
    ensures Keys(r) == Keys(d)
    ensures forall k :: Lookup(r, k) == if k in Keys(d) then Some(f(Lookup(d, k).value)) else None
  {
    if d == [] then []
    else
      var rest := MapValues(d[1..], f);
      assert Keys(d) == [d[0].0] + Keys(d[1..]);
      assert Keys([(d[0].0, f(d[0].1))] + rest) == [d[0].0] + Keys(rest);
      [(d[0].0, f(d[0].1))] + rest
  }

  /** The distinct elements of `xs`, each where it first occurs. */
  function Dedup<T(==)>(xs: seq<T>): seq<T> {
    if xs == [] then []
    else if xs[|xs| - 1] in xs[..|xs| - 1] then Dedup(xs[..|xs| - 1])
    else Dedup(xs[..|xs| - 1]) + [xs[|xs| - 1]]
  }

  /** The index of the first occurrence of `x` in `xs`. */
  function FirstIndex<T(==)>(xs: seq<T>, x: T): (i: nat)
    requires x in xs
    ensures i < |xs| && xs[i] == x && x !in xs[..i]
  {
    if xs[0] == x then 0 else 1 + FirstIndex(xs[1..], x)
  }


  /**
   * Dedup keeps exactly the elements of its input, once each, in the order
   * of their first occurrences.
   */
  lemma {:induction false} DedupSpec<T>(xs: seq<T>)
    ensures forall x :: x in Dedup(xs) <==> x in xs
    ensures Distinct(Dedup(xs))
    ensures forall p, q :: 0 <= p < q < |Dedup(xs)| ==>
              FirstIndex(xs, Dedup(xs)[p]) < FirstIndex(xs, Dedup(xs)[q])
  {
    if xs != [] {
      var init, x := xs[..|xs| - 1], xs[|xs| - 1];
      assert xs == init + [x];
      DedupSpec(init);
      var d := Dedup(init);
      forall y | y in init ensures FirstIndex(xs, y) == FirstIndex(init, y) {
        FirstIndexPrefix(init, [x], y);
      }
      if x !in init {
        assert FirstIndex(xs, x) == |init|;
        forall p, q | 0 <= p < q < |Dedup(xs)|
          ensures FirstIndex(xs, Dedup(xs)[p]) < FirstIndex(xs, Dedup(xs)[q])
        {
          assert d[p] in d;
          if q < |d| { assert d[q] in d; }
        }
      }
    }
  }

  lemma {:induction false} FirstIndexPrefix<T>(xs: seq<T>, ys: seq<T>, x: T)
    requires x in xs
    ensures FirstIndex(xs + ys, x) == FirstIndex(xs, x)
  {
    if xs[0] != x {
      assert (xs + ys)[1..] == xs[1..] + ys;
      FirstIndexPrefix(xs[1..], ys, x);
    }
  }

  /** A sequence without repetitions has as many elements as its set. */
  lemma {:induction false} DistinctCard<T>(xs: seq<T>)
    requires Distinct(xs)
    ensures |set x | x in xs| == |xs|
  {
    if xs != [] {
      DistinctCard(xs[1..]);
      assert (set x | x in xs) == {xs[0]} + (set x | x in xs[1..]);
      assert xs[0] !in (set x | x in xs[1..]);
    }
  }
}

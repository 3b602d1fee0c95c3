/**
 * A map kept together with its inverse (Sources/TreeDistance/ReversibleMap.swift):
 * `dict` maps keys to values and `inverse` maps values back to keys.
 */
module ReversibleMaps {

  /** `inverse` is exactly the converse relation of `dict`. */
  ghost predicate IsConverse<K, V>(dict: map<K, V>, inverse: map<V, K>)
  {
    && (forall k :: k in dict ==> dict[k] in inverse && inverse[dict[k]] == k)
    && (forall v :: v in inverse ==> inverse[v] in dict && dict[inverse[v]] == v)
  }

  /** The pair of dictionaries after `put(k, v)`. */
  function PutPair<K, V>(dict: map<K, V>, inverse: map<V, K>, k: K, v: V): (map<K, V>, map<V, K>)
  {
    (dict[k := v], inverse[v := k])
  }

  function PutLast<K, V>(maps: (map<K, V>, map<V, K>), pair: (K, V)): (map<K, V>, map<V, K>)
  {
    PutPair(maps.0, maps.1, pair.0, pair.1)
  }

  /** The pair of dictionaries after putting every pair of `pairs`, in order. */
  function PutPairs<K, V>(dict: map<K, V>, inverse: map<V, K>, pairs: seq<(K, V)>): (map<K, V>, map<V, K>)
    decreases |pairs|
  {
    if pairs == [] then (dict, inverse)
    else PutLast(PutPairs(dict, inverse, pairs[..|pairs| - 1]), pairs[|pairs| - 1])
  }

  /** The keys of `pairs` are pairwise distinct, and so are its values. */
  ghost predicate OneToOne<K, V>(pairs: seq<(K, V)>)
  {
    forall i, j :: 0 <= i < j < |pairs| ==> pairs[i].0 != pairs[j].0 && pairs[i].1 != pairs[j].1
  }

  /** Putting a fresh key and a fresh value keeps the two dictionaries converse. */
  lemma {:induction false} PutFreshKeepsConverse<K, V>(dict: map<K, V>, inverse: map<V, K>, k: K, v: V)
    requires IsConverse(dict, inverse) && k !in dict && v !in inverse
    ensures IsConverse(PutPair(dict, inverse, k, v).0, PutPair(dict, inverse, k, v).1)
  {
  }

  /** The keys of `pairs`. */
  function KeysOf<K, V>(pairs: seq<(K, V)>): set<K>
  {
    if pairs == [] then {} else KeysOf(pairs[..|pairs| - 1]) + {pairs[|pairs| - 1].0}
  }

  /** `dict` and `inverse` hold exactly the bindings listed in `pairs`, in both directions. */
  ghost predicate Enumerates<K, V>(pairs: seq<(K, V)>, dict: map<K, V>, inverse: map<V, K>)
  {
    && IsConverse(dict, inverse)
    && dict.Keys == KeysOf(pairs)
    && |dict| == |pairs|
    && (forall j :: 0 <= j < |pairs| ==> pairs[j].0 in dict && dict[pairs[j].0] == pairs[j].1)
  }

  /**
   * Putting the pairs of a one-to-one enumeration into an empty map builds exactly
   * those bindings in both directions, one key per pair.
   */
  lemma {:induction false} PutPairsBuildsConverse<K, V>(pairs: seq<(K, V)>)
    requires OneToOne(pairs)
    ensures Enumerates(pairs, PutPairs(map[], map[], pairs).0, PutPairs(map[], map[], pairs).1)
  {
    if pairs != [] {
      var init := pairs[..|pairs| - 1];
      var last := pairs[|pairs| - 1];
      assert OneToOne(init);
      PutPairsBuildsConverse(init);
      var r0 := PutPairs(map[], map[], init);
      assert pairs == init + [last];
      PutOneMore(init, last, r0.0, r0.1);
    }
  }

  /** One more put of a pair with a fresh key and a fresh value extends the enumeration. */
  lemma {:induction false} PutOneMore<K, V>(init: seq<(K, V)>, last: (K, V), d0: map<K, V>, i0: map<V, K>)
    requires OneToOne(init + [last]) && Enumerates(init, d0, i0)
    ensures Enumerates(init + [last], d0[last.0 := last.1], i0[last.1 := last.0])
  {
    var pairs := init + [last];
    assert pairs[|init|] == last;
    forall j | 0 <= j < |init|
      ensures init[j].0 != last.0 && init[j].1 != last.1
    {
      assert pairs[j] == init[j];
    }
    KeysOfMembers(init, last.0);
    assert last.1 !in i0 by {
      forall v | v in i0
        ensures v != last.1
      {
        KeysOfMembers(init, i0[v]);
        var j :| 0 <= j < |init| && init[j].0 == i0[v];
        assert d0[init[j].0] == init[j].1;
      }
    }
    PutFreshKeepsConverse(d0, i0, last.0, last.1);
    var d := d0[last.0 := last.1];
    forall j | 0 <= j < |pairs|
      ensures pairs[j].0 in d && d[pairs[j].0] == pairs[j].1
    {
      if j < |init| {
        assert pairs[j] == init[j];
      }
    }
    assert pairs[..|pairs| - 1] == init;
    assert d.Keys == d0.Keys + {last.0};
  }

  /** A key is among `KeysOf(pairs)` exactly when some pair carries it. */
  lemma {:induction false} KeysOfMembers<K, V>(pairs: seq<(K, V)>, k: K)
    ensures k in KeysOf(pairs) <==> exists j :: 0 <= j < |pairs| && pairs[j].0 == k
  {
    if pairs != [] {
      var init := pairs[..|pairs| - 1];
      KeysOfMembers(init, k);
      if k in KeysOf(init) {
        var j :| 0 <= j < |init| && init[j].0 == k;
        assert pairs[j] == init[j];
      }
      if j :| 0 <= j < |pairs| && pairs[j].0 == k {
        if j < |pairs| - 1 {
          assert init[j] == pairs[j];
        }
      }
    }
  }

  /** Putting the pairs of `p + q` is putting those of `p`, then those of `q`. */
  lemma {:induction false} PutPairsAppend<K, V>(dict: map<K, V>, inverse: map<V, K>, p: seq<(K, V)>, q: seq<(K, V)>)
    ensures PutPairs(dict, inverse, p + q)
         == PutPairs(PutPairs(dict, inverse, p).0, PutPairs(dict, inverse, p).1, q)
    decreases |q|
  {
    if q == [] {
      assert p + q == p;
    } else {
      var init := q[..|q| - 1];
      assert (p + q)[..|p + q| - 1] == p + init;
      PutPairsAppend(dict, inverse, p, init);
    }
  }

  /** Overwriting a bound key leaves a stale reverse binding behind. */
  lemma {:induction false} PutOverwriteLeavesStaleInverse()
    ensures var (d, i) := PutPair(map[1 := 10], map[10 := 1], 1, 20);
      && IsConverse(map[1 := 10], map[10 := 1])
      && !IsConverse(d, i)
      && 10 in i && i[10] == 1 && d[1] == 20
  {
    var (d, i) := PutPair(map[1 := 10], map[10 := 1], 1, 20);
    assert i[10] == 1 && d[1] == 20;
  }

  class ReversibleMap<K(==), V(==)> {
    var dict: map<K, V>
    var inverse: map<V, K>

    /** An empty map. */
    constructor ()
      ensures dict == map[] && inverse == map[]
    {
      dict := map[];
      inverse := map[];
    }

    /** Binds `k` to `v` in both directions. */
    method Put(k: K, v: V)
      modifies this
      ensures (dict, inverse) == PutPair(old(dict), old(inverse), k, v)
      ensures Has(k) && Get(k) == v && HasInverse(v) && GetInverse(v) == k
      ensures IsConverse(old(dict), old(inverse)) && k !in old(dict) && v !in old(inverse)
        ==> IsConverse(dict, inverse)
    {
      dict := dict[k := v];
      inverse := inverse[v := k];
    }

    /** Drops `k` and the value bound to it; an absent key changes nothing. */
    method Remove(k: K)
      modifies this
      ensures k !in old(dict) ==> dict == old(dict) && inverse == old(inverse)
      ensures k in old(dict) ==> dict == old(dict) - {k} && inverse == old(inverse) - {old(dict)[k]}
      ensures IsConverse(old(dict), old(inverse)) ==>
        IsConverse(dict, inverse) && !Has(k) && (k in old(dict) ==> !HasInverse(old(dict)[k]))
    {
      if k in dict {
        var v := dict[k];
        dict := dict - {k};
        inverse := inverse - {v};
      }
    }

    /** Drops `v` and the key bound to it; an absent value changes nothing. */
    method RemoveInverse(v: V)
      modifies this
      ensures v !in old(inverse) ==> dict == old(dict) && inverse == old(inverse)
      ensures v in old(inverse) ==> inverse == old(inverse) - {v} && dict == old(dict) - {old(inverse)[v]}
      ensures IsConverse(old(dict), old(inverse)) ==>
        IsConverse(dict, inverse) && !HasInverse(v) && (v in old(inverse) ==> !Has(old(inverse)[v]))
    {
      if v in inverse {
        var k := inverse[v];
        inverse := inverse - {v};
        dict := dict - {k};
      }
    }

    /** Puts every pair of `pairs` (another map's contents in its iteration order). */
    method PutAll(pairs: seq<(K, V)>)
      modifies this
      ensures (dict, inverse) == PutPairs(old(dict), old(inverse), pairs)
    {
      for n := 0 to |pairs|
        invariant (dict, inverse) == PutPairs(old(dict), old(inverse), pairs[..n])
      {
        assert pairs[..n + 1][..n] == pairs[..n];
        Put(pairs[n].0, pairs[n].1);
      }
      assert pairs[..|pairs|] == pairs;
    }

    predicate Has(k: K)
      reads this
    {
      k in dict
    }

    predicate HasInverse(v: V)
      reads this
    {
      v in inverse
    }

    /** The value bound to `k`; the key must be bound. */
    function Get(k: K): V
      reads this
      requires Has(k)
    {
      dict[k]
    }

    /** The key bound to `v`; the value must be bound. */
    function GetInverse(v: V): K
      reads this
      requires HasInverse(v)
    {
      inverse[v]
    }

    /** The number of keys. */
    function Count(): nat
      reads this
    {
      |dict|
    }
  }

  /**
   * A map built from a sequence of pairs, each put in turn into an empty map. When the
   * pairs are one-to-one, the result answers every lookup in both directions and counts
   * one key per pair.
   */
  method FromPairs<K(==), V(==)>(pairs: seq<(K, V)>) returns (m: ReversibleMap<K, V>)
    ensures (m.dict, m.inverse) == PutPairs(map[], map[], pairs)
    ensures OneToOne(pairs) ==> IsConverse(m.dict, m.inverse) && m.Count() == |pairs|
    ensures OneToOne(pairs) ==> forall j :: 0 <= j < |pairs| ==>
      m.Has(pairs[j].0) && m.Get(pairs[j].0) == pairs[j].1
      && m.HasInverse(pairs[j].1) && m.GetInverse(pairs[j].1) == pairs[j].0
  {
    m := new ReversibleMap();
    m.PutAll(pairs);
    if OneToOne(pairs) {
      PutPairsBuildsConverse(pairs);
    }
  }
}

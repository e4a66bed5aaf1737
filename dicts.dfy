/** Python dictionaries: a map together with the order its keys were inserted in. */
module Dicts {
  import opened Sequences

  datatype Dict<K, V> = Dict(keys: seq<K>, values: map<K, V>)

  /** Every key once, in insertion order, and exactly the keys of the map. */
  predicate Valid<K, V>(d: Dict<K, V>) {
    Distinct(d.keys) && SetOf(d.keys) == d.values.Keys
  }

  function Empty<K, V>(): (r: Dict<K, V>)
    ensures Valid(r) && r.values.Keys == {}
  {
    Dict([], map[])
  }

  /** `d[k] = v`: a new key goes last, an existing key keeps its place. */
  function Put<K, V>(d: Dict<K, V>, k: K, v: V): Dict<K, V> {
    if k in d.values then Dict(d.keys, d.values[k := v]) else Dict(d.keys + [k], d.values[k := v])
  }

  lemma PutValid<K, V>(d: Dict<K, V>, k: K, v: V)
    requires Valid(d)
    ensures var r := Put(d, k, v);
      && Valid(r)
      && r.values == d.values[k := v]
      && (k in d.values ==> r.keys == d.keys)
      && (k !in d.values ==> r.keys == d.keys + [k])
  {
    var r := Put(d, k, v);
    assert SetOf(r.keys) == r.values.Keys by {
      if k !in d.values {
        assert SetOf(d.keys + [k]) == SetOf(d.keys) + {k};
      }
    }
    if k !in d.values {
      assert Distinct(r.keys) by {
        forall i, j | 0 <= i < j < |r.keys| ensures r.keys[i] != r.keys[j] {
          if j == |d.keys| {
            assert r.keys[i] == d.keys[i] && d.keys[i] in SetOf(d.keys);
          } else {
            assert r.keys[i] == d.keys[i] && r.keys[j] == d.keys[j];
          }
        }
      }
    }
  }

  /** The dict with the same keys in the same order, every value replaced by `f` of it. */
  function MapValues<K, V, W>(d: Dict<K, V>, f: V --> W): (r: Dict<K, W>)
    requires forall k :: k in d.values ==> f.requires(d.values[k])
    ensures r.keys == d.keys && r.values.Keys == d.values.Keys
  {
    Dict(d.keys, map k | k in d.values :: f(d.values[k]))
  }

  /** What a loop over the keys that rewrites each value with `f` has built after `i` turns. */
  function MapValuesOfFirst<K, V, W>(d: Dict<K, V>, f: V --> W, i: nat): Dict<K, W>
    requires forall k :: k in d.values ==> f.requires(d.values[k])
    requires i <= |d.keys|
  {
    Dict(d.keys[..i], map k | k in SetOf(d.keys[..i]) && k in d.values :: f(d.values[k]))
  }

  lemma MapValuesOfFirstNone<K, V, W>(d: Dict<K, V>, f: V --> W)
    requires forall k :: k in d.values ==> f.requires(d.values[k])
    ensures MapValuesOfFirst(d, f, 0) == Empty()
  {
    assert SetOf(d.keys[..0]) == {};
  }

  /** Each turn rewrites the value of the next key, which the loop has not seen before. */
  lemma MapValuesOfFirstStep<K, V, W>(d: Dict<K, V>, f: V --> W, i: nat)
    requires Valid(d) && forall k :: k in d.values ==> f.requires(d.values[k])
    requires i < |d.keys|
    ensures d.keys[i] in d.values
    ensures MapValuesOfFirst(d, f, i + 1) == Put(MapValuesOfFirst(d, f, i), d.keys[i], f(d.values[d.keys[i]]))
  {
    var keys, k := d.keys, d.keys[i];
    assert k in SetOf(keys);
    var seen, seen' := keys[..i], keys[..i + 1];
    assert k !in SetOf(seen) by {
      forall j | 0 <= j < i ensures seen[j] != k {
        assert seen[j] == keys[j];
      }
    }
    assert seen' == seen + [k];
    assert SetOf(seen') == SetOf(seen) + {k};
    var v := f(d.values[k]);
    var before := MapValuesOfFirst(d, f, i).values;
    var after := MapValuesOfFirst(d, f, i + 1).values;
    assert k !in before;
    assert after == before[k := v] by {
      assert after.Keys == before.Keys + {k};
      forall x | x in after ensures after[x] == before[k := v][x] {
        if x != k {
          assert x in SetOf(seen);
        }
      }
    }
  }

  /** After a turn per key, the loop has rewritten every value. */
  lemma MapValuesOfFirstAll<K, V, W>(d: Dict<K, V>, f: V --> W)
    requires Valid(d) && forall k :: k in d.values ==> f.requires(d.values[k])
    ensures MapValuesOfFirst(d, f, |d.keys|) == MapValues(d, f)
  {
    var keys := d.keys;
    assert keys[..|keys|] == keys;
    var m1 := MapValuesOfFirst(d, f, |keys|).values;
    var m2 := MapValues(d, f).values;
    assert m1.Keys == m2.Keys by {
      assert SetOf(keys) == d.values.Keys;
    }
    assert forall k :: k in m1 ==> m1[k] == m2[k];
  }
}

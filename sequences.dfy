/** Sequence helpers: Python's `set(...)` of a list, repetition, removal. */
module Sequences {

  /** Python's `set(s)`. */
  function SetOf<T>(s: seq<T>): set<T> {
    set x | x in s
  }

  predicate Distinct<T(==)>(s: seq<T>) {
    forall i, j :: 0 <= i < j < |s| ==> s[i] != s[j]
  }

  lemma {:induction false} SetOfCardBound<T>(s: seq<T>)
    ensures |SetOf(s)| <= |s|
  {
    if s != [] {
      var init := s[..|s| - 1];
      SetOfCardBound(init);
      assert SetOf(s) == SetOf(init) + {s[|s| - 1]};
    }
  }

  /** `len(set(s)) == len(s)` exactly when `s` has no repeated element. */
  lemma {:induction false} DistinctIffCard<T>(s: seq<T>)
    ensures |SetOf(s)| == |s| <==> Distinct(s)
  {
    if s != [] {
      var init, last := s[..|s| - 1], s[|s| - 1];
      DistinctIffCard(init);
      SetOfCardBound(init);
      assert SetOf(s) == SetOf(init) + {last};
      if last in init {
        assert SetOf(s) == SetOf(init);
        var k :| 0 <= k < |init| && init[k] == last;
        assert s[k] == s[|s| - 1];
      } else {
        assert |SetOf(s)| == |SetOf(init)| + 1;
        if Distinct(init) {
          assert Distinct(s) by {
            forall i, j | 0 <= i < j < |s| ensures s[i] != s[j] {
              if j < |s| - 1 { assert s[i] == init[i] && s[j] == init[j]; }
              else { assert s[i] == init[i]; }
            }
          }
        } else {
          var i, j :| 0 <= i < j < |init| && init[i] == init[j];
          assert s[i] == s[j];
        }
      }
    }
  }

  /** `s` with every occurrence of `x` removed: the effect of `$pull`. */
  function Removed(s: seq<int>, x: int): (r: seq<int>)
    ensures forall y :: y in r <==> y in s && y != x
    ensures Distinct(s) ==> Distinct(r)
    ensures |r| <= |s|
  {
    if s == [] then []
    else if s[0] == x then Removed(s[1..], x)
    else
      var rest := Removed(s[1..], x);
      assert forall y :: y in rest ==> y in s[1..];
      assert Distinct(s) ==> s[0] !in s[1..];
      [s[0]] + rest
  }

  /** The elements of `s` in first-occurrence order, each once: the key order of a dict filled from `s`. */
  function Dedup<T(==)>(s: seq<T>): (r: seq<T>)
    ensures SetOf(r) == SetOf(s) && Distinct(r)
  {
    if s == [] then []
    else
      var init, last := s[..|s| - 1], s[|s| - 1];
      var d := Dedup(init);
      assert SetOf(s) == SetOf(init) + {last} by { assert s == init + [last]; }
      if last in d then d
      else
        assert SetOf(d + [last]) == SetOf(d) + {last};
        assert Distinct(d + [last]) by {
          forall i, j | 0 <= i < j < |d| + 1 ensures (d + [last])[i] != (d + [last])[j] {
            assert (d + [last])[i] == d[i];
          }
        }
        d + [last]
  }

  /** Appending an element to the input appends it to the output unless it was seen. */
  lemma DedupSnoc<T>(s: seq<T>, x: T)
    ensures Dedup(s + [x]) == if x in s then Dedup(s) else Dedup(s) + [x]
  {
    assert (s + [x])[..|s|] == s;
    assert x in SetOf(Dedup(s)) <==> x in SetOf(s);
  }

  /** The sum of `f` over the elements of `keys`. */
  function SumOver<K>(keys: seq<K>, f: K -> nat): nat {
    if keys == [] then 0 else SumOver(keys[..|keys| - 1], f) + f(keys[|keys| - 1])
  }

  /** Appending a non-empty sequence is appending its front, then its last element. */
  lemma AppendSnoc<T>(a: seq<T>, b: seq<T>)
    requires b != []
    ensures a + b == (a + b[..|b| - 1]) + [b[|b| - 1]]
  {
    assert b == b[..|b| - 1] + [b[|b| - 1]];
  }

  lemma SumOverSnoc<K>(keys: seq<K>, k: K, f: K -> nat)
    ensures SumOver(keys + [k], f) == SumOver(keys, f) + f(k)
  {
    assert (keys + [k])[..|keys|] == keys;
  }

  /** A new key with a zero term raised to one raises the sum by one. */
  lemma SumOverNewKey<K>(keys: seq<K>, f: K -> nat, g: K -> nat, k: K)
    requires k !in SetOf(keys) && f(k) == 0
    requires g(k) == f(k) + 1 && forall x :: x != k ==> g(x) == f(x)
    ensures SumOver(keys + [k], g) == SumOver(keys, f) + 1
  {
    SumOverSnoc(keys, k, g);
    SumOverSame(keys, f, g);
  }

  /** Raising one term of a sum by one raises the sum by one. */
  lemma {:induction false} SumOverBump<K>(keys: seq<K>, f: K -> nat, g: K -> nat, k: K)
    requires Distinct(keys) && k in keys
    requires g(k) == f(k) + 1 && forall x :: x in keys && x != k ==> g(x) == f(x)
    ensures SumOver(keys, g) == SumOver(keys, f) + 1
  {
    var init, last := keys[..|keys| - 1], keys[|keys| - 1];
    assert keys == init + [last];
    if last == k {
      assert k !in init;
      SumOverSame(init, f, g);
    } else {
      SumOverBump(init, f, g, k);
    }
  }

  lemma {:induction false} SumOverSame<K>(keys: seq<K>, f: K -> nat, g: K -> nat)
    requires forall x :: x in keys ==> g(x) == f(x)
    ensures SumOver(keys, g) == SumOver(keys, f)
  {
    if keys != [] {
      assert forall x :: x in keys[..|keys| - 1] ==> x in keys;
      SumOverSame(keys[..|keys| - 1], f, g);
    }
  }
}

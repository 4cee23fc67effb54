/**
 * The part of Rust's `BTreeMap<String, _>` the program relies on: iteration
 * visits the keys in ascending `String` order. A map is a Dafny `map`; its
 * iteration order is `SortedKeys`, and `Flatten` is the
 * `iter().map(|(k, v)| [k, v]).flat_map(..).collect()` chain that both
 * `get_args` functions run.
 */
module OrderedMaps {
  import opened Strings

  /** `k` is the least element of `keys`. */
  predicate IsLeast(k: string, keys: set<string>)
  {
    k in keys && forall j :: j in keys ==> LexLeq(k, j)
  }

  lemma {:induction false} LeastExists(keys: set<string>)
    requires keys != {}
    ensures exists k :: IsLeast(k, keys)
    decreases |keys|
  {
    var x :| x in keys;
    if keys == {x} {
      LexLeqReflexive(x);
      assert IsLeast(x, keys);
    } else {
      var rest := keys - {x};
      LeastExists(rest);
      var m :| IsLeast(m, rest);
      LexLeqTotal(x, m);
      if LexLeq(x, m) {
        LexLeqReflexive(x);
        forall j | j in keys ensures LexLeq(x, j) {
          if j != x { LexLeqTransitive(x, m, j); }
        }
        assert IsLeast(x, keys);
      } else {
        assert LexLeq(m, x);
        assert IsLeast(m, keys);
      }
    }
  }

  /** The smallest key; unique because `LexLeq` is antisymmetric. */
  function Least(keys: set<string>): (k: string)
    requires keys != {}
    ensures IsLeast(k, keys)
  {
    LeastExists(keys);
    LexLeqTotalOrder();
    var k :| IsLeast(k, keys);
    k
  }

  /** The elements of `keys` in ascending order. */
  function SortedSet(keys: set<string>): (ks: seq<string>)
    ensures |ks| == |keys|
    ensures forall k :: k in ks <==> k in keys
    ensures forall i, j :: 0 <= i < j < |ks| ==> LexLess(ks[i], ks[j])
    decreases |keys|
  {
    if keys == {} then []
    else
      var k := Least(keys);
      var rest := SortedSet(keys - {k});
      [k] + rest
  }

  /** The order in which a `BTreeMap` with string keys visits its entries. */
  function SortedKeys<V>(m: map<string, V>): (ks: seq<string>)
    ensures |ks| == |m|
    ensures forall k :: k in ks <==> k in m
    ensures forall i, j :: 0 <= i < j < |ks| ==> LexLess(ks[i], ks[j])
  {
    assert |m.Keys| == |m|;
    SortedSet(m.Keys)
  }

  /** `[k1, m[k1], k2, m[k2], ...]` for the keys `ks`, in that order. */
  function Interleave(ks: seq<string>, m: map<string, string>): (r: seq<string>)
    requires forall k :: k in ks ==> k in m
    ensures |r| == 2 * |ks|
    ensures forall i :: 0 <= i < |ks| ==> r[2 * i] == ks[i] && r[2 * i + 1] == m[ks[i]]
  {
    if ks == [] then []
    else
      var rest := Interleave(ks[1..], m);
      var r := [ks[0], m[ks[0]]] + rest;
      assert forall n :: 2 <= n < |r| ==> r[n] == rest[n - 2];
      assert forall i :: 1 <= i < |ks| ==> ks[i] == ks[1..][i - 1];
      r
  }

  /**
   * A `BTreeMap<String, String>` flattened into an argument list: each key
   * followed by its value, keys in ascending order.
   */
  function Flatten(m: map<string, string>): (r: seq<string>)
    ensures |r| == 2 * |m|
    ensures forall i :: 0 <= i < |m| ==> r[2 * i] == SortedKeys(m)[i] && r[2 * i + 1] == m[SortedKeys(m)[i]]
  {
    Interleave(SortedKeys(m), m)
  }

  /** The even positions of a flattened map are its keys, each once, strictly ascending. */
  lemma FlattenKeys(m: map<string, string>)
    ensures forall i, j :: 0 <= i < j < |m| ==> LexLess(Flatten(m)[2 * i], Flatten(m)[2 * j])
    ensures forall k :: k in m <==> exists i :: 0 <= i < |m| && Flatten(m)[2 * i] == k
  {
    var ks := SortedKeys(m);
    var r := Flatten(m);
    forall k | k in m ensures exists i :: 0 <= i < |m| && r[2 * i] == k {
      var i :| 0 <= i < |ks| && ks[i] == k;
      assert r[2 * i] == k;
    }
  }
}

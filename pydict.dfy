/** The dict a loop builds by `d[key(x)] = val(x)` over a list: every key
    that occurs, bound to the value of its last occurrence. */
module PyDict {

  /** `{key(x): val(x) for x in xs}`, equivalently the loop assigning each
      entry in turn. */
  function LastWinsMap<T, K, V>(xs: seq<T>, key: T -> K, val: T -> V): map<K, V>
    decreases |xs|
  {
    if |xs| == 0 then map[]
    else
      var x := xs[|xs| - 1];
      LastWinsMap(xs[..|xs| - 1], key, val)[key(x) := val(x)]
  }

  /** One more assignment at the end. */
  lemma LastWinsMapAppend<T, K, V>(xs: seq<T>, x: T, key: T -> K, val: T -> V)
    ensures LastWinsMap(xs + [x], key, val) == LastWinsMap(xs, key, val)[key(x) := val(x)]
  {
    assert (xs + [x])[..|xs|] == xs;
  }

  /** `xs[i]` is the last element whose key is `k`. */
  ghost predicate IsLastWithKey<T, K>(xs: seq<T>, key: T -> K, k: K, i: int) {
    && 0 <= i < |xs| && key(xs[i]) == k
    && forall j :: i < j < |xs| ==> key(xs[j]) != k
  }

  /** The keys are exactly the keys of the elements, and each is bound to the
      value of the last element with that key. */
  lemma {:induction false} LastWinsMapSpec<T, K, V>(xs: seq<T>, key: T -> K, val: T -> V)
    ensures forall i :: 0 <= i < |xs| ==> key(xs[i]) in LastWinsMap(xs, key, val)
    ensures forall k :: k in LastWinsMap(xs, key, val) ==>
      exists i :: IsLastWithKey(xs, key, k, i) && LastWinsMap(xs, key, val)[k] == val(xs[i])
    decreases |xs|
  {
    if |xs| > 0 {
      var init := xs[..|xs| - 1];
      var x := xs[|xs| - 1];
      LastWinsMapSpec(init, key, val);
      var m := LastWinsMap(xs, key, val);
      forall k | k in m
        ensures exists i :: IsLastWithKey(xs, key, k, i) && m[k] == val(xs[i])
      {
        if k == key(x) {
          assert IsLastWithKey(xs, key, k, |xs| - 1);
        } else {
          var i :| IsLastWithKey(init, key, k, i) && LastWinsMap(init, key, val)[k] == val(init[i]);
          assert xs[i] == init[i];
          assert IsLastWithKey(xs, key, k, i);
        }
      }
    }
  }

  /** The value bound to a key does not depend on which last element is
      named: a direct form of the specification for a given index. */
  lemma LastWinsMapAt<T, K, V>(xs: seq<T>, key: T -> K, val: T -> V, i: nat)
    requires i < |xs| && forall j :: i < j < |xs| ==> key(xs[j]) != key(xs[i])
    ensures key(xs[i]) in LastWinsMap(xs, key, val)
    ensures LastWinsMap(xs, key, val)[key(xs[i])] == val(xs[i])
  {
    LastWinsMapSpec(xs, key, val);
    var k := key(xs[i]);
    var i' :| IsLastWithKey(xs, key, k, i') && LastWinsMap(xs, key, val)[k] == val(xs[i']);
    assert i' == i;
  }
}

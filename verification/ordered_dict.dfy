/**
 A Python `dict`: a finite map that also remembers the order in which its keys
 were first inserted (iteration order).
 */
module OrderedDicts {

  datatype OrderedDict<K(==), V> = OrderedDict(keys: seq<K>, values: map<K, V>) {

    /** Keys are listed once each, and exactly the mapped keys are listed. */
    ghost predicate Valid() {
      && (forall i, j :: 0 <= i < j < |keys| ==> keys[i] != keys[j])
      && (forall i :: 0 <= i < |keys| ==> keys[i] in values)
      && (forall k <- values.Keys :: k in keys)
    }
  }

  function Empty<K(==), V>(): (d: OrderedDict<K, V>)
    ensures d.Valid() && d.values == map[]
  {
    OrderedDict([], map[])
  }

  /** Python's `d[k] = v`: an existing key keeps its place, a new key goes last. */
  function Put<K(==), V>(d: OrderedDict<K, V>, k: K, v: V): (r: OrderedDict<K, V>)
    ensures d.Valid() ==> r.Valid()
    ensures r.values == d.values[k := v]
    ensures k in d.values ==> r.keys == d.keys
    ensures k !in d.values ==> r.keys == d.keys + [k]
  {
    if k in d.values then OrderedDict(d.keys, d.values[k := v])
    else OrderedDict(d.keys + [k], d.values[k := v])
  }

  /**
   `add_to_dict_if_inexistent`: a missing key is added with the given value; a present
   key, and every other entry, keeps its value.
   */
  function AddIfAbsent<K(==), V>(d: OrderedDict<K, V>, k: K, v: V): (r: OrderedDict<K, V>)
    ensures d.Valid() ==> r.Valid()
    ensures r.values.Keys == d.values.Keys + {k}
    ensures forall x :: x in d.values ==> r.values[x] == d.values[x]
    ensures k !in d.values ==> r.values[k] == v && r.keys == d.keys + [k]
    ensures k in d.values ==> r.keys == d.keys
  {
    if k in d.values then d else Put(d, k, v)
  }

  /** `keys` without every occurrence of `k`, order kept. */
  function Without<K(==)>(keys: seq<K>, k: K): (r: seq<K>)
    ensures |r| <= |keys|
  {
    if |keys| == 0 then []
    else (if keys[0] == k then [] else [keys[0]]) + Without(keys[1..], k)
  }

  /** Removing `k` keeps exactly the other keys. */
  lemma {:induction false} WithoutMembers<K>(keys: seq<K>, k: K)
    ensures forall i :: 0 <= i < |Without(keys, k)| ==> Without(keys, k)[i] in keys && Without(keys, k)[i] != k
    ensures forall x :: x in keys && x != k ==> x in Without(keys, k)
  {
    if |keys| > 0 {
      WithoutMembers(keys[1..], k);
      var r, rest := Without(keys, k), Without(keys[1..], k);
      var h := if keys[0] == k then [] else [keys[0]];
      assert r == h + rest;
      forall i | 0 <= i < |r| ensures r[i] in keys && r[i] != k {
        if i >= |h| {
          assert r[i] == rest[i - |h|];
          assert rest[i - |h|] in keys[1..];
        }
      }
      forall x | x in keys && x != k ensures x in r {
        if x != keys[0] {
          assert x in keys[1..];
          assert x in rest;
        }
      }
    }
  }

  /** The distinct keys stay distinct once one of them is removed. */
  lemma {:induction false} WithoutDistinct<K>(keys: seq<K>, k: K)
    ensures (forall i, j :: 0 <= i < j < |keys| ==> keys[i] != keys[j]) ==>
      forall i, j :: 0 <= i < j < |Without(keys, k)| ==> Without(keys, k)[i] != Without(keys, k)[j]
  {
    if |keys| > 0 && forall i, j :: 0 <= i < j < |keys| ==> keys[i] != keys[j] {
      WithoutDistinct(keys[1..], k);
      WithoutMembers(keys[1..], k);
    }
  }

  /** Removing `k` from a concatenation removes it from each part. */
  lemma {:induction false} WithoutAppend<K>(a: seq<K>, b: seq<K>, k: K)
    ensures Without(a + b, k) == Without(a, k) + Without(b, k)
  {
    if |a| == 0 {
      assert a + b == b;
    } else {
      assert (a + b)[1..] == a[1..] + b;
      WithoutAppend(a[1..], b, k);
    }
  }

  /** Removing a key that is not listed changes nothing. */
  lemma {:induction false} WithoutAbsent<K>(keys: seq<K>, k: K)
    requires k !in keys
    ensures Without(keys, k) == keys
  {
    if |keys| > 0 {
      WithoutAbsent(keys[1..], k);
      assert [keys[0]] + keys[1..] == keys;
    }
  }

  /** In a list of distinct keys, the key at `i` appears neither before nor after `i`. */
  lemma DistinctAt<K>(keys: seq<K>, i: nat)
    requires forall x, y :: 0 <= x < y < |keys| ==> keys[x] != keys[y]
    requires i < |keys|
    ensures keys[i] !in keys[..i] && keys[i] !in keys[i + 1..]
  {
    var pre, post := keys[..i], keys[i + 1..];
    forall x | 0 <= x < |pre| ensures pre[x] != keys[i] {
      assert pre[x] == keys[x];
    }
    forall x | 0 <= x < |post| ensures post[x] != keys[i] {
      assert post[x] == keys[i + 1 + x];
    }
  }

  /** A list that starts with the removed key loses that first entry. */
  lemma WithoutKeyFirst<K>(k: K, rest: seq<K>)
    ensures Without([k] + rest, k) == Without(rest, k)
  {
    assert ([k] + rest)[1..] == rest;
  }

  /** Removing a key listed once, between `pre` and `post`, leaves `pre + post`. */
  lemma WithoutMiddle<K>(pre: seq<K>, k: K, post: seq<K>)
    requires k !in pre && k !in post
    ensures Without(pre + [k] + post, k) == pre + post
  {
    calc {
      Without(pre + [k] + post, k);
      { assert pre + [k] + post == pre + ([k] + post); }
      Without(pre + ([k] + post), k);
      { WithoutAppend(pre, [k] + post, k); }
      Without(pre, k) + Without([k] + post, k);
      { WithoutAbsent(pre, k); WithoutKeyFirst(k, post); }
      pre + Without(post, k);
      { WithoutAbsent(post, k); }
      pre + post;
    }
  }

  /** Removing a key listed only at `i` closes the gap and keeps the order. */
  lemma WithoutAt<K>(keys: seq<K>, i: nat)
    requires i < |keys| && keys[i] !in keys[..i] && keys[i] !in keys[i + 1..]
    ensures Without(keys, keys[i]) == keys[..i] + keys[i + 1..]
  {
    var pre, k, post := keys[..i], keys[i], keys[i + 1..];
    SplitAt(keys, i);
    WithoutMiddle(pre, k, post);
  }

  lemma SplitAt<K>(keys: seq<K>, i: nat)
    requires i < |keys|
    ensures keys == keys[..i] + [keys[i]] + keys[i + 1..]
  {
  }

  /** In a list of distinct keys, removing `k` closes the gap where it stood. */
  lemma WithoutInOrder<K>(keys: seq<K>, k: K)
    ensures (forall x, y :: 0 <= x < y < |keys| ==> keys[x] != keys[y]) ==>
      forall i :: 0 <= i < |keys| && keys[i] == k ==> Without(keys, k) == keys[..i] + keys[i + 1..]
  {
    if forall x, y :: 0 <= x < y < |keys| ==> keys[x] != keys[y] {
      forall i | 0 <= i < |keys| && keys[i] == k
        ensures Without(keys, k) == keys[..i] + keys[i + 1..]
      {
        DistinctAt(keys, i);
        WithoutAt(keys, i);
      }
    }
  }

  /**
   Python's `d.pop(k)` once `k` is known to be present: the entry is gone, the other keys
   keep their values and their order. The popped value itself is not used by the script.
   */
  function Pop<K(==), V>(d: OrderedDict<K, V>, k: K): (r: OrderedDict<K, V>)
    requires k in d.values
    ensures d.Valid() ==> r.Valid()
    ensures r.values.Keys == d.values.Keys - {k}
    ensures forall x :: x in r.values ==> r.values[x] == d.values[x]
    ensures d.Valid() ==> forall i :: 0 <= i < |d.keys| && d.keys[i] == k ==> r.keys == d.keys[..i] + d.keys[i + 1..]
  {
    WithoutDistinct(d.keys, k);
    WithoutMembers(d.keys, k);
    WithoutInOrder(d.keys, k);
    OrderedDict(Without(d.keys, k), d.values - {k})
  }
}

/**
 First-wins deduplication of a sequence by an optional key: an element without a key
 always stays, and of the elements sharing a key only the first one stays. Survivors
 keep their input order. The key function is a parameter, so the facts here hold for
 whatever the key is read from.
 */
module FirstWins {
  import opened Wrappers

  // ---------------------------------------------------------------------------
  // Definitions

  /** Element `i` survives: it has no key, or no earlier element has the same key. */
  predicate Kept<T, K(==)>(xs: seq<T>, key: T -> Option<K>, i: nat)
    requires i < |xs|
  {
    key(xs[i]).None? || forall j :: 0 <= j < i ==> key(xs[j]) != key(xs[i])
  }

  /** The surviving elements among the first `n`, in input order. */
  function Survivors<T, K(==)>(xs: seq<T>, key: T -> Option<K>, n: nat): seq<T>
    requires n <= |xs|
  {
    if n == 0 then [] else Survivors(xs, key, n - 1) + (if Kept(xs, key, n - 1) then [xs[n - 1]] else [])
  }

  /** The input positions of those survivors. */
  function Positions<T, K(==)>(xs: seq<T>, key: T -> Option<K>, n: nat): seq<nat>
    requires n <= |xs|
  {
    if n == 0 then [] else Positions(xs, key, n - 1) + (if Kept(xs, key, n - 1) then [n - 1] else [])
  }

  /** The whole pass: every element is considered. */
  function Dedupe<T, K(==)>(xs: seq<T>, key: T -> Option<K>): seq<T> {
    Survivors(xs, key, |xs|)
  }

  /** The input positions of the elements the pass keeps. */
  function KeptPositions<T, K(==)>(xs: seq<T>, key: T -> Option<K>): seq<nat> {
    Positions(xs, key, |xs|)
  }

  /** No keyed element shares its key with an earlier element. */
  predicate DistinctKeys<T, K(==)>(xs: seq<T>, key: T -> Option<K>) {
    forall i, j :: 0 <= i < j < |xs| && key(xs[j]).Some? ==> key(xs[i]) != key(xs[j])
  }

  /** The keys carried by the first `n` elements. */
  function KeysUpTo<T, K(==)>(xs: seq<T>, key: T -> Option<K>, n: nat): set<K>
    requires n <= |xs|
  {
    if n == 0 then {}
    else KeysUpTo(xs, key, n - 1) + (if key(xs[n - 1]).Some? then {key(xs[n - 1]).value} else {})
  }

  /** The number of elements without a key among the first `n`. */
  function KeylessUpTo<T, K(==)>(xs: seq<T>, key: T -> Option<K>, n: nat): nat
    requires n <= |xs|
  {
    if n == 0 then 0 else KeylessUpTo(xs, key, n - 1) + (if key(xs[n - 1]).None? then 1 else 0)
  }

  // ---------------------------------------------------------------------------
  // One step of the prefix recursion

  /** Adding element `n - 1` adds it to the survivors exactly when it is kept. */
  lemma SurvivorsStep<T, K>(xs: seq<T>, key: T -> Option<K>, n: nat)
    requires 0 < n <= |xs|
    ensures Kept(xs, key, n - 1) ==> Survivors(xs, key, n) == Survivors(xs, key, n - 1) + [xs[n - 1]]
    ensures !Kept(xs, key, n - 1) ==> Survivors(xs, key, n) == Survivors(xs, key, n - 1)
    ensures |Survivors(xs, key, n)| == |Survivors(xs, key, n - 1)| + (if Kept(xs, key, n - 1) then 1 else 0)
  {
  }

  /** A key is among the first `n` keys exactly when one of the first `n` elements carries it. */
  lemma {:induction false} KeysUpToMembership<T, K>(xs: seq<T>, key: T -> Option<K>, n: nat)
    requires n <= |xs|
    ensures forall k :: k in KeysUpTo(xs, key, n) <==> exists j :: 0 <= j < n && key(xs[j]) == Some(k)
  {
    if n > 0 {
      KeysUpToMembership(xs, key, n - 1);
      forall k
        ensures k in KeysUpTo(xs, key, n) <==> exists j :: 0 <= j < n && key(xs[j]) == Some(k)
      {
        if k in KeysUpTo(xs, key, n) && k !in KeysUpTo(xs, key, n - 1) {
          assert key(xs[n - 1]) == Some(k);
        }
        if exists j :: 0 <= j < n && key(xs[j]) == Some(k) {
          var j :| 0 <= j < n && key(xs[j]) == Some(k);
          if j == n - 1 {
            assert k in KeysUpTo(xs, key, n);
          } else {
            assert k in KeysUpTo(xs, key, n - 1);
          }
        }
      }
    }
  }

  /** A keyed element survives exactly when its key has not been met before. */
  lemma KeptIffNewKey<T, K>(xs: seq<T>, key: T -> Option<K>, i: nat)
    requires i < |xs|
    ensures Kept(xs, key, i) <==> key(xs[i]).None? || key(xs[i]).value !in KeysUpTo(xs, key, i)
  {
    if key(xs[i]).Some? {
      KeyMetBefore(xs, key, i, key(xs[i]).value);
    }
  }

  lemma KeyMetBefore<T, K>(xs: seq<T>, key: T -> Option<K>, i: nat, v: K)
    requires i < |xs| && key(xs[i]) == Some(v)
    ensures Kept(xs, key, i) <==> v !in KeysUpTo(xs, key, i)
  {
    KeysUpToMembership(xs, key, i);
    if v in KeysUpTo(xs, key, i) {
      var j :| 0 <= j < i && key(xs[j]) == Some(v);
      assert key(xs[j]) == key(xs[i]);
    }
  }

  // ---------------------------------------------------------------------------
  // What survives

  /** The survivors are the input elements at strictly increasing positions below `n`. */
  lemma {:induction false} SurvivorsPositioned<T, K>(xs: seq<T>, key: T -> Option<K>, n: nat)
    requires n <= |xs|
    ensures |Survivors(xs, key, n)| == |Positions(xs, key, n)|
    ensures forall j :: 0 <= j < |Positions(xs, key, n)| ==>
      && Positions(xs, key, n)[j] < n
      && Survivors(xs, key, n)[j] == xs[Positions(xs, key, n)[j]]
    ensures forall a, b :: 0 <= a < b < |Positions(xs, key, n)| ==>
      Positions(xs, key, n)[a] < Positions(xs, key, n)[b]
  {
    if n > 0 {
      SurvivorsPositioned(xs, key, n - 1);
      var s, p := Survivors(xs, key, n - 1), Positions(xs, key, n - 1);
      var s', p' := Survivors(xs, key, n), Positions(xs, key, n);
      if Kept(xs, key, n - 1) {
        assert s' == s + [xs[n - 1]] && p' == p + [n - 1];
        forall j | 0 <= j < |p'|
          ensures p'[j] < n && s'[j] == xs[p'[j]]
        {
          if j < |p| {
            assert s'[j] == s[j] && p'[j] == p[j];
          }
        }
        forall a, b | 0 <= a < b < |p'|
          ensures p'[a] < p'[b]
        {
          assert p'[a] == p[a];
          if b < |p| {
            assert p'[b] == p[b];
          }
        }
      } else {
        assert s' == s && p' == p;
      }
    }
  }

  /** The positions listed are exactly the surviving ones below `n`. */
  lemma {:induction false} PositionsExact<T, K>(xs: seq<T>, key: T -> Option<K>, n: nat)
    requires n <= |xs|
    ensures forall i: nat :: i in Positions(xs, key, n) <==> i < n && Kept(xs, key, i)
  {
    if n > 0 {
      PositionsExact(xs, key, n - 1);
      var p := Positions(xs, key, n - 1);
      var p' := Positions(xs, key, n);
      var last := Kept(xs, key, n - 1);
      assert p' == p + (if last then [n - 1] else []);
      forall i: nat
        ensures i in p' <==> i < n && Kept(xs, key, i)
      {
        assert i in p' <==> i in p || (last && i == n - 1);
        if i == n - 1 {
          assert i !in p;
        }
      }
    }
  }

  /** The first element with the same key as element `i` survives. */
  lemma {:induction false} FirstOccurrence<T, K>(xs: seq<T>, key: T -> Option<K>, i: nat) returns (first: nat)
    requires i < |xs|
    ensures first <= i && key(xs[first]) == key(xs[i]) && Kept(xs, key, first)
    decreases i
  {
    if Kept(xs, key, i) {
      first := i;
    } else {
      var j :| 0 <= j < i && key(xs[j]) == key(xs[i]);
      first := FirstOccurrence(xs, key, j);
    }
  }

  /**
   The output is an ordered subsequence of the input that keeps every element without a key
   and, for each key, exactly one element: the first one carrying it.
   */
  lemma KeepsFirstPerKey<T, K>(xs: seq<T>, key: T -> Option<K>)
    ensures |KeptPositions(xs, key)| == |Dedupe(xs, key)|
    ensures forall j :: 0 <= j < |Dedupe(xs, key)| ==>
      KeptPositions(xs, key)[j] < |xs| && Dedupe(xs, key)[j] == xs[KeptPositions(xs, key)[j]]
    ensures forall a, b :: 0 <= a < b < |Dedupe(xs, key)| ==> KeptPositions(xs, key)[a] < KeptPositions(xs, key)[b]
    ensures forall i :: 0 <= i < |xs| && key(xs[i]).None? ==> i in KeptPositions(xs, key)
    ensures forall j, i :: 0 <= j < |Dedupe(xs, key)| && 0 <= i < KeptPositions(xs, key)[j] ==>
      key(Dedupe(xs, key)[j]).None? || key(xs[i]) != key(Dedupe(xs, key)[j])
    ensures DistinctKeys(Dedupe(xs, key), key)
    ensures forall i :: 0 <= i < |xs| && key(xs[i]).Some? ==>
      exists j :: 0 <= j < |Dedupe(xs, key)| && key(Dedupe(xs, key)[j]) == key(xs[i])
  {
    var n := |xs|;
    var out := Dedupe(xs, key);
    var pos := KeptPositions(xs, key);
    SurvivorsPositioned(xs, key, n);
    PositionsExact(xs, key, n);
    forall j, i | 0 <= j < |out| && 0 <= i < pos[j]
      ensures key(out[j]).None? || key(xs[i]) != key(out[j])
    {
      assert pos[j] in pos;
      assert Kept(xs, key, pos[j]);
    }
    forall a, b | 0 <= a < b < |out| && key(out[b]).Some?
      ensures key(out[a]) != key(out[b])
    {
      assert pos[b] in pos;
      assert Kept(xs, key, pos[b]) && pos[a] < pos[b];
    }
    forall i | 0 <= i < n && key(xs[i]).Some?
      ensures exists j :: 0 <= j < |out| && key(out[j]) == key(xs[i])
    {
      var first := FirstOccurrence(xs, key, i);
      assert first in pos;
      var j :| 0 <= j < |pos| && pos[j] == first;
      assert out[j] == xs[first];
    }
  }

  /** Every survivor is one of the input elements. */
  lemma DedupeFromInput<T, K>(xs: seq<T>, key: T -> Option<K>)
    ensures forall j :: 0 <= j < |Dedupe(xs, key)| ==> Dedupe(xs, key)[j] in xs
  {
    KeepsFirstPerKey(xs, key);
    forall j | 0 <= j < |Dedupe(xs, key)|
      ensures Dedupe(xs, key)[j] in xs
    {
      var p := KeptPositions(xs, key)[j];
      assert xs[p] in xs;
    }
  }

  // ---------------------------------------------------------------------------
  // How many survive

  /** Survivors are counted by the keyless elements plus the distinct keys. */
  lemma {:induction false} SurvivorsCount<T, K>(xs: seq<T>, key: T -> Option<K>, n: nat)
    requires n <= |xs|
    ensures |Survivors(xs, key, n)| == KeylessUpTo(xs, key, n) + |KeysUpTo(xs, key, n)|
  {
    if n > 0 {
      SurvivorsCount(xs, key, n - 1);
      SurvivorsStep(xs, key, n);
      KeptIffNewKey(xs, key, n - 1);
      var before := KeysUpTo(xs, key, n - 1);
      var k := key(xs[n - 1]);
      if k.Some? {
        if k.value in before {
          assert KeysUpTo(xs, key, n) == before;
        } else {
          assert |KeysUpTo(xs, key, n)| == |before| + 1;
        }
      }
    }
  }

  /** Survivors number at most `n`, and exactly `n` when every one of the first `n` elements survives. */
  lemma {:induction false} SurvivorsLength<T, K>(xs: seq<T>, key: T -> Option<K>, n: nat)
    requires n <= |xs|
    ensures |Survivors(xs, key, n)| <= n
    ensures |Survivors(xs, key, n)| == n <==> forall i :: 0 <= i < n ==> Kept(xs, key, i)
    ensures (forall i :: 0 <= i < n ==> Kept(xs, key, i)) ==> Survivors(xs, key, n) == xs[..n]
  {
    if n > 0 {
      SurvivorsLength(xs, key, n - 1);
      SurvivorsStep(xs, key, n);
      if Kept(xs, key, n - 1) && forall i :: 0 <= i < n - 1 ==> Kept(xs, key, i) {
        assert xs[..n] == xs[..n - 1] + [xs[n - 1]];
      }
    }
  }

  /** The pass keeps as many elements as there are keyless elements and distinct keys, never more than it got. */
  lemma DedupeCardinality<T, K>(xs: seq<T>, key: T -> Option<K>)
    ensures |Dedupe(xs, key)| == KeylessUpTo(xs, key, |xs|) + |KeysUpTo(xs, key, |xs|)|
    ensures |Dedupe(xs, key)| <= |xs|
  {
    SurvivorsCount(xs, key, |xs|);
    SurvivorsLength(xs, key, |xs|);
  }

  /** Distinct keys means exactly that every element survives. */
  lemma DistinctKeysIffAllKept<T, K>(xs: seq<T>, key: T -> Option<K>)
    ensures DistinctKeys(xs, key) <==> forall i :: 0 <= i < |xs| ==> Kept(xs, key, i)
  {
    if forall i :: 0 <= i < |xs| ==> Kept(xs, key, i) {
      forall i, j | 0 <= i < j < |xs| && key(xs[j]).Some?
        ensures key(xs[i]) != key(xs[j])
      {
        assert Kept(xs, key, j);
      }
    }
  }

  /** The pass drops something exactly when some key repeats; with no repeat it is the identity. */
  lemma DedupeChangesIffDuplicates<T, K>(xs: seq<T>, key: T -> Option<K>)
    ensures |Dedupe(xs, key)| == |xs| <==> DistinctKeys(xs, key)
    ensures DistinctKeys(xs, key) ==> Dedupe(xs, key) == xs
  {
    SurvivorsLength(xs, key, |xs|);
    DistinctKeysIffAllKept(xs, key);
  }

  /** Running the pass on its own output keeps everything. */
  lemma DedupeIdempotent<T, K>(xs: seq<T>, key: T -> Option<K>)
    ensures Dedupe(Dedupe(xs, key), key) == Dedupe(xs, key)
  {
    KeepsFirstPerKey(xs, key);
    DedupeChangesIffDuplicates(Dedupe(xs, key), key);
  }
}
